/**
 * Kotlin's `String.replace(oldValue, newValue)` (case-sensitive): every occurrence of
 * `oldValue`, found left to right without overlap, is replaced by `newValue`.
 */
module Replace {
  import opened KotlinText

  function ReplaceAll(s: string, p: string, r: string): (t: string)
    requires |p| > 0
    ensures |r| <= |p| ==> |t| <= |s|
    ensures |p| <= |r| ==> |s| <= |t|
    decreases |s|
  {
    if |s| < |p| then s
    else if s[..|p|] == p then r + ReplaceAll(s[|p|..], p, r)
    else [s[0]] + ReplaceAll(s[1..], p, r)
  }

  /** One of `a` and `b` is a prefix of the other. */
  predicate Compatible(a: string, b: string) {
    StartsWith(a, b) || StartsWith(b, a)
  }

  /**
   * No occurrence of `p` can start inside `r`, and no tail of `p` can be completed by `r`:
   * gluing `r` to anything never creates an occurrence of `p` that touches `r`.
   */
  predicate Separated(r: string, p: string) {
    (forall j :: 0 <= j < |r| ==> !Compatible(r[j..], p)) &&
    (forall k :: 0 <= k < |p| ==> !Compatible(r, p[k..]))
  }

  /** No proper tail of `b` is also a prefix of `b`. */
  predicate Unbordered(b: string) {
    forall k :: 1 <= k < |b| ==> !Compatible(b, b[k..])
  }

  lemma ContainsTail(s: string, p: string, n: nat)
    requires n <= |s| && Contains(s[n..], p)
    ensures Contains(s, p)
  {
    var i :| 0 <= i <= |s[n..]| - |p| && OccursAt(s[n..], p, i);
    assert s[n..][i..i + |p|] == s[n + i..n + i + |p|];
    assert OccursAt(s, p, n + i);
  }

  /** An occurrence of `p` that starts inside `r`, in `r + x`, is compatible with that tail of `r`. */
  lemma GluedOccurrence(r: string, x: string, p: string, i: nat)
    requires i < |r| && OccursAt(r + x, p, i)
    ensures Compatible(r[i..], p[0..])
  {
    if |r| - i >= |p| {
      assert r[i..][..|p|] == (r + x)[i..i + |p|];
    } else {
      assert p[..|r| - i] == (r + x)[i..|r|] == r[i..];
    }
  }

  /** Replacing leaves a string without occurrences untouched. */
  lemma {:induction false} ReplaceAbsent(s: string, p: string, r: string)
    requires |p| > 0 && !Contains(s, p)
    ensures ReplaceAll(s, p, r) == s
    decreases |s|
  {
    if |s| >= |p| {
      assert !OccursAt(s, p, 0);
      if Contains(s[1..], p) { ContainsTail(s, p, 1); }
      ReplaceAbsent(s[1..], p, r);
      assert s == [s[0]] + s[1..];
    }
  }

  /**
   * When no tail of `t` is compatible with the replacement, a prefix `t` of the result was
   * already a prefix of the input.
   */
  lemma {:induction false} ReplacePrefixReflects(s: string, p: string, r: string, t: string)
    requires |p| > 0
    requires forall k :: 0 <= k < |t| ==> !Compatible(r, t[k..])
    requires StartsWith(ReplaceAll(s, p, r), t)
    ensures StartsWith(s, t)
    decreases |s|
  {
    if t != [] && |s| >= |p| {
      var res := ReplaceAll(s, p, r);
      if s[..|p|] == p {
        var rest := ReplaceAll(s[|p|..], p, r);
        assert res == r + rest;
        assert !Compatible(r, t[0..]);
        assert OccursAt(r + rest, t, 0);
        GluedOccurrence(r, rest, t, 0);
        assert false;
      } else {
        var rest := ReplaceAll(s[1..], p, r);
        assert res == [s[0]] + rest;
        assert StartsWith(rest, t[1..]) by {
          assert rest[..|t| - 1] == res[1..|t|] == t[1..];
        }
        forall k | 0 <= k < |t[1..]| ensures !Compatible(r, t[1..][k..]) {
          assert t[1..][k..] == t[k + 1..];
        }
        ReplacePrefixReflects(s[1..], p, r, t[1..]);
        assert s[..|t|] == [s[0]] + s[1..][..|t| - 1];
      }
    }
  }

  /**
   * When `r` is separated from `p`, every occurrence of `p` after `ReplaceAll(s, q, r)`
   * was already in `s`, and none remains at all if `q` is `p` itself.
   */
  lemma {:induction false} ReplaceOccurrences(s: string, q: string, r: string, p: string)
    requires |q| > 0 && |p| > 0 && Separated(r, p)
    ensures Contains(ReplaceAll(s, q, r), p) ==> q != p && Contains(s, p)
    decreases |s|
  {
    var res := ReplaceAll(s, q, r);
    if Contains(res, p) {
      var i :| 0 <= i <= |res| - |p| && OccursAt(res, p, i);
      if |s| < |q| {
      } else if s[..|q|] == q {
        var rest := ReplaceAll(s[|q|..], q, r);
        if i >= |r| {
          OccurrenceShift(r, rest, p, i);
          ReplaceOccurrences(s[|q|..], q, r, p);
          ContainsTail(s, p, |q|);
        } else {
          GluedOccurrence(r, rest, p, i);
          assert false;
        }
      } else {
        var rest := ReplaceAll(s[1..], q, r);
        if i >= 1 {
          OccurrenceShift([s[0]], rest, p, i);
          ReplaceOccurrences(s[1..], q, r, p);
          ContainsTail(s, p, 1);
        } else {
          ReplacePrefixReflects(s, q, r, p);
          assert OccursAt(s, p, 0);
        }
      }
    }
  }

  /** An occurrence in `x + rest` that starts after `x` is an occurrence in `rest`. */
  lemma OccurrenceShift(x: string, rest: string, p: string, i: nat)
    requires |x| <= i && OccursAt(x + rest, p, i)
    ensures Contains(rest, p)
  {
    assert (x + rest)[i..i + |p|] == rest[i - |x|..i - |x| + |p|];
    assert OccursAt(rest, p, i - |x|);
  }

  /** A `b` at the front after the first character of `u` was kept must come from `u` itself. */
  lemma LeadingOccurrence(u: string, a: string, b: string)
    requires |a| > 0 && |b| > 0 && |u| > 0 && Unbordered(b)
    ensures StartsWith([u[0]] + ReplaceAll(u[1..], a, b), b) ==> OccursAt(u, b, 0)
  {
    var x := ReplaceAll(u[1..], a, b);
    var y := [u[0]] + x;
    if StartsWith(y, b) {
      assert StartsWith(x, b[1..]) by {
        assert x[..|b| - 1] == y[1..|b|] == b[1..];
      }
      forall k | 0 <= k < |b[1..]| ensures !Compatible(b, b[1..][k..]) {
        assert b[1..][k..] == b[k + 1..];
      }
      ReplacePrefixReflects(u[1..], a, b, b[1..]);
      assert u[..|b|] == [u[0]] + u[1..][..|b| - 1];
    }
  }

  /** The step of the round trip where `u` does not start with `a`: no `b` appears at the front. */
  lemma NoLeadingOccurrence(u: string, a: string, b: string)
    requires |a| > 0 && |b| > 0 && |u| >= |a| && u[..|a|] != a
    requires !Contains(u, b) && Unbordered(b)
    ensures !StartsWith([u[0]] + ReplaceAll(u[1..], a, b), b)
  {
    LeadingOccurrence(u, a, b);
  }

  /**
   * Replacing `a` by `b` and then `b` by `a` gives the input back, when the input holds no
   * `b` and `b` cannot overlap itself.
   */
  lemma {:induction false} ReplaceRoundTrip(u: string, a: string, b: string)
    requires |a| > 0 && |b| > 0
    requires !Contains(u, b) && Unbordered(b)
    ensures ReplaceAll(ReplaceAll(u, a, b), b, a) == u
    decreases |u|
  {
    if |u| < |a| {
      ReplaceAbsent(u, b, a);
    } else if u[..|a|] == a {
      var x := ReplaceAll(u[|a|..], a, b);
      assert ReplaceAll(u, a, b) == b + x;
      assert (b + x)[..|b|] == b;
      assert (b + x)[|b|..] == x;
      if Contains(u[|a|..], b) { ContainsTail(u, b, |a|); }
      ReplaceRoundTrip(u[|a|..], a, b);
      assert u == a + u[|a|..];
    } else {
      var x := ReplaceAll(u[1..], a, b);
      var y := [u[0]] + x;
      assert ReplaceAll(u, a, b) == y;
      if Contains(u[1..], b) { ContainsTail(u, b, 1); }
      ReplaceRoundTrip(u[1..], a, b);
      NoLeadingOccurrence(u, a, b);
      if |y| < |b| {
        ReplaceAbsent(x, b, a);
      } else {
        assert y[..|b|] != b;
        assert y[1..] == x;
      }
      assert u == [u[0]] + u[1..];
    }
  }

  /** An occurrence of `p` at the front is replaced, and the scan goes on after it. */
  lemma ReplaceHere(p: string, s: string, r: string)
    requires |p| > 0
    ensures ReplaceAll(p + s, p, r) == r + ReplaceAll(s, p, r)
  {
    assert (p + s)[..|p|] == p;
    assert (p + s)[|p|..] == s;
  }

  /** A character where no occurrence of `p` starts is kept, and the scan goes on after it. */
  lemma ReplaceMiss(c: char, s: string, p: string, r: string)
    requires |p| > 0 && !StartsWith([c] + s, p)
    ensures ReplaceAll([c] + s, p, r) == [c] + ReplaceAll(s, p, r)
  {
    var t := [c] + s;
    assert t[0] == c && t[1..] == s;
    if |t| < |p| {
      assert ReplaceAll(s, p, r) == s;
    } else {
      assert t[..|p|] != p;
    }
  }

  /** A stretch without the first character of `p` is copied unchanged. */
  lemma {:induction false} ReplaceSkip(a: string, s: string, p: string, r: string)
    requires |p| > 0 && p[0] !in a
    ensures ReplaceAll(a + s, p, r) == a + ReplaceAll(s, p, r)
    decreases |a|
  {
    if a != [] {
      assert a + s == [a[0]] + (a[1..] + s);
      ReplaceMiss(a[0], a[1..] + s, p, r);
      ReplaceSkip(a[1..], s, p, r);
      assert a == [a[0]] + a[1..];
    } else {
      assert a + s == s;
    }
  }

  /** A string without the first character of `p` has no occurrence of `p`. */
  lemma AbsentHead(s: string, p: string)
    requires |p| > 0 && p[0] !in s
    ensures !Contains(s, p)
  {
  }

  /** No occurrence of `p` in `a + b` when `a` lacks its first character and `b` lacks `p`. */
  lemma AbsentAfter(a: string, b: string, p: string)
    requires |p| > 0 && p[0] !in a && !Contains(b, p)
    ensures !Contains(a + b, p)
  {
    forall i | 0 <= i <= |a + b| - |p| ensures !OccursAt(a + b, p, i) {
      if i < |a| {
        assert (a + b)[i] == a[i];
      } else {
        assert (a + b)[i..i + |p|] == b[i - |a|..i - |a| + |p|];
        assert !OccursAt(b, p, i - |a|);
      }
    }
  }

  /** A character `c` that does not start `p`, then a stretch without `p[0]`: both are copied. */
  lemma ReplaceSkipAfter(c: char, a: string, s: string, p: string, r: string)
    requires |p| > 0 && p[0] !in a && !StartsWith([c] + (a + s), p)
    ensures ReplaceAll([c] + (a + s), p, r) == [c] + (a + ReplaceAll(s, p, r))
  {
    ReplaceMiss(c, a + s, p, r);
    ReplaceSkip(a, s, p, r);
  }
}
