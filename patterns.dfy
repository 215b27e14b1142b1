/**
 * Hand-written matchers for the six fixed regular expressions of the parser, each given
 * twice: a predicate saying which substrings the pattern matches (the pattern read as a
 * language), and a scanner that returns the match `java.util.regex` reports, proved to be
 * the leftmost one, and among those the one the lazy `.*?` groups pick (the shortest).
 * `.` refuses line terminators, so every `.*` below is `NoLineTerminator`.
 */
module Patterns {
  import opened KotlinText

  // ---------------------------------------------------------------- heading: ^(#{1,6})\s(.*)

  /** `line.matches(headingRegex)` with `k` hashes in group 1 and `rest` in group 2. */
  predicate HeadingShape(line: string, k: nat, rest: string) {
    1 <= k <= 6 && k < |line| &&
    (forall i :: 0 <= i < k ==> line[i] == '#') &&
    IsRegexSpace(line[k]) && rest == line[k + 1..] && NoLineTerminator(rest)
  }

  function CountLeading(s: string, c: char): (n: nat)
    ensures n <= |s| && (forall i :: 0 <= i < n ==> s[i] == c)
    ensures n < |s| ==> s[n] != c
  {
    if s != [] && s[0] == c then 1 + CountLeading(s[1..], c) else 0
  }

  /** The groups of the heading pattern, or `None` when the whole line does not match. */
  function MatchHeading(line: string): (r: Option<(nat, string)>)
    ensures r.Some? ==> 1 <= r.value.0 <= 6 && r.value.0 + 1 + |r.value.1| == |line| &&
                        NoLineTerminator(r.value.1)
  {
    var n := CountLeading(line, '#');
    if 1 <= n <= 6 && n < |line| && IsRegexSpace(line[n]) && NoLineTerminator(line[n + 1..])
    then Some((n, line[n + 1..]))
    else None
  }

  /** `MatchHeading` reports exactly the group values of a full match of the heading pattern. */
  lemma MatchHeadingShape(line: string)
    ensures forall k, rest :: HeadingShape(line, k, rest) <==> MatchHeading(line) == Some((k, rest))
  {
  }

  // ---------------------------------------------------------------- table row: ^\|(.+)\|$

  /** `line.matches(tableRegex)`: a `|`, at least one character that is not a line terminator, a `|`. */
  predicate IsTableLine(line: string): (b: bool)
    ensures b ==> '\n' !in line
  {
    |line| >= 3 && line[0] == '|' && line[|line| - 1] == '|' && NoLineTerminator(line)
  }

  /** The table pattern read as a language: exactly the strings `"|" + x + "|"` with `x` as `.+`. */
  lemma TableLineShape(line: string)
    ensures IsTableLine(line) <==>
            (|line| >= 2 && line == "|" + line[1..|line| - 1] + "|" &&
             |line[1..|line| - 1]| >= 1 && NoLineTerminator(line[1..|line| - 1]))
  {
    if |line| >= 3 && line == "|" + line[1..|line| - 1] + "|" && NoLineTerminator(line[1..|line| - 1]) {
      forall i | 0 <= i < |line| ensures !IsLineTerminator(line[i]) {
        if 0 < i < |line| - 1 { assert line[i] == line[1..|line| - 1][i - 1]; }
      }
    }
  }

  // ---------------------------------------------------------------- separator cell: ^-+$

  /** `cell.matches(Regex("^-+$"))`. */
  predicate AllDashes(s: string) {
    |s| >= 1 && forall i :: 0 <= i < |s| ==> s[i] == '-'
  }

  // ---------------------------------------------------------------- d(.*?)d for bold, italic and code

  /**
   * The pattern `d(.*?)d` matches `text[i..e]`: the delimiter `d` on both ends, and
   * between them no line terminator.
   */
  predicate DelimitedAt(text: string, d: string, i: int, e: int) {
    |d| > 0 && 0 <= i && i + 2 * |d| <= e <= |text| &&
    text[i..i + |d|] == d && text[e - |d|..e] == d && NoLineTerminator(text[i + |d|..e - |d|])
  }

  /** `d` occurs at `m` in `text`. */
  predicate DelimiterAt(text: string, d: string, m: int) {
    0 <= m && m + |d| <= |text| && text[m..m + |d|] == d
  }

  /** Every match from `i` ends with a delimiter, so none ends before the first delimiter at or after `m`. */
  lemma NoEarlierClose(text: string, d: string, i: nat, m: nat)
    requires forall m' :: i + |d| <= m' < m ==> !DelimiterAt(text, d, m')
    ensures forall e :: e < m + |d| ==> !DelimitedAt(text, d, i, e)
  {
    forall e | e < m + |d| && DelimitedAt(text, d, i, e) ensures false {
      assert DelimiterAt(text, d, e - |d|);
    }
  }

  /** Past a line terminator, or past the end, no match from `i` can be completed. */
  lemma NoLaterClose(text: string, d: string, i: nat, m: nat)
    requires i + |d| <= m <= |text| && !DelimiterAt(text, d, m)
    requires m == |text| || IsLineTerminator(text[m])
    ensures forall e :: e >= m + |d| ==> !DelimitedAt(text, d, i, e)
  {
  }

  /**
   * The lazy group `(.*?)` of a match that started at `i`: the inner part is extended one
   * character at a time from `m`, and the first closing delimiter ends the match.
   */
  function CloseFrom(text: string, d: string, i: nat, m: nat): (r: Option<nat>)
    requires |d| > 0 && i + |d| <= m <= |text| && text[i..i + |d|] == d
    requires NoLineTerminator(text[i + |d|..m])
    requires forall m' :: i + |d| <= m' < m ==> !DelimiterAt(text, d, m')
    ensures r.Some? ==> DelimitedAt(text, d, i, r.value)
    ensures r.Some? ==> forall e :: e < r.value ==> !DelimitedAt(text, d, i, e)
    ensures r.None? ==> forall e :: !DelimitedAt(text, d, i, e)
    decreases |text| - m
  {
    if DelimiterAt(text, d, m) then
      NoEarlierClose(text, d, i, m);
      Some(m + |d|)
    else if m == |text| || IsLineTerminator(text[m]) then
      NoEarlierClose(text, d, i, m);
      NoLaterClose(text, d, i, m);
      None
    else
      assert text[i + |d|..m + 1] == text[i + |d|..m] + [text[m]];
      CloseFrom(text, d, i, m + 1)
  }

  /** `Regex.find(text, from)` for `d(.*?)d`: the leftmost start, then the shortest match there. */
  function FindDelimited(text: string, d: string, from: nat): (r: Option<(nat, nat)>)
    requires |d| > 0 && from <= |text|
    ensures r.Some? ==> from <= r.value.0 && r.value.0 + 2 * |d| <= r.value.1 <= |text|
    decreases |text| - from
  {
    if from == |text| then None
    else if DelimiterAt(text, d, from) && CloseFrom(text, d, from, from + |d|).Some? then
      Some((from, CloseFrom(text, d, from, from + |d|).value))
    else FindDelimited(text, d, from + 1)
  }

  /**
   * `r` is what `find` must report from `from`: a match with the least start, and the
   * shortest one there; or nothing, when the pattern matches nowhere from `from` on.
   */
  ghost predicate LeastMatch(text: string, d: string, from: nat, r: Option<(nat, nat)>) {
    (r.Some? ==> from <= r.value.0 && DelimitedAt(text, d, r.value.0, r.value.1)) &&
    (r.Some? ==> forall e :: e < r.value.1 ==> !DelimitedAt(text, d, r.value.0, e)) &&
    (r.Some? ==> forall i, e :: from <= i < r.value.0 ==> !DelimitedAt(text, d, i, e)) &&
    (r.None? ==> forall i, e :: from <= i ==> !DelimitedAt(text, d, i, e))
  }

  /** `find` reports the least match. */
  lemma {:induction false} FindDelimitedLeast(text: string, d: string, from: nat)
    requires |d| > 0 && from <= |text|
    ensures LeastMatch(text, d, from, FindDelimited(text, d, from))
    decreases |text| - from
  {
    if from < |text| {
      if DelimiterAt(text, d, from) && CloseFrom(text, d, from, from + |d|).Some? {
        FoundAt(text, d, from);
      } else {
        FindDelimitedLeast(text, d, from + 1);
        NoMatchAt(text, d, from);
        SkipStart(text, d, from, FindDelimited(text, d, from + 1));
      }
    }
  }

  lemma FoundAt(text: string, d: string, from: nat)
    requires |d| > 0 && from < |text|
    requires DelimiterAt(text, d, from) && CloseFrom(text, d, from, from + |d|).Some?
    ensures LeastMatch(text, d, from, FindDelimited(text, d, from))
  {
    assert FindDelimited(text, d, from) == Some((from, CloseFrom(text, d, from, from + |d|).value));
  }

  /** The least match from `from + 1` is the least from `from` when none starts at `from`. */
  lemma SkipStart(text: string, d: string, from: nat, r: Option<(nat, nat)>)
    requires LeastMatch(text, d, from + 1, r)
    requires forall e :: !DelimitedAt(text, d, from, e)
    ensures LeastMatch(text, d, from, r)
  {
  }

  /** No match starts at `from` when no delimiter is there, or the lazy group never closes. */
  lemma NoMatchAt(text: string, d: string, from: nat)
    requires |d| > 0 && from < |text|
    requires !(DelimiterAt(text, d, from) && CloseFrom(text, d, from, from + |d|).Some?)
    ensures forall e :: !DelimitedAt(text, d, from, e)
  {
  }

  /** Position `i` lies inside one of the ranges `ms`. */
  predicate Covered(ms: seq<(nat, nat)>, i: int) {
    exists k :: 0 <= k < |ms| && ms[k].0 <= i < ms[k].1
  }

  /** `Regex.findAll(text)` continued from `from`: each search resumes where the previous match ended. */
  function FindAllDelimited(text: string, d: string, from: nat): (ms: seq<(nat, nat)>)
    requires |d| > 0 && from <= |text|
    ensures forall k :: 0 <= k < |ms| ==> from <= ms[k].0 && ms[k].0 + 2 * |d| <= ms[k].1 <= |text|
    decreases |text| - from
  {
    match FindDelimited(text, d, from)
    case None => []
    case Some((i, e)) => [(i, e)] + FindAllDelimited(text, d, e)
  }

  /** The matches of `findAll` are matches of the pattern, in order and disjoint. */
  lemma {:induction false} FindAllOrdered(text: string, d: string, from: nat)
    requires |d| > 0 && from <= |text|
    ensures forall k :: 0 <= k < |FindAllDelimited(text, d, from)| ==>
              from <= FindAllDelimited(text, d, from)[k].0 &&
              DelimitedAt(text, d, FindAllDelimited(text, d, from)[k].0, FindAllDelimited(text, d, from)[k].1)
    ensures forall k :: 0 <= k < |FindAllDelimited(text, d, from)| - 1 ==>
              FindAllDelimited(text, d, from)[k].1 <= FindAllDelimited(text, d, from)[k + 1].0
    decreases |text| - from
  {
    FindDelimitedLeast(text, d, from);
    match FindDelimited(text, d, from)
    case None =>
    case Some((i, e)) =>
      FindAllOrdered(text, d, e);
      OrderStep(text, d, from, i, e, FindAllDelimited(text, d, e));
  }

  /** Every place from `from` on where the pattern could start lies inside a match of `findAll`. */
  lemma {:induction false} FindAllCovers(text: string, d: string, from: nat)
    requires |d| > 0 && from <= |text|
    ensures forall i, e :: from <= i && DelimitedAt(text, d, i, e) ==> Covered(FindAllDelimited(text, d, from), i)
    decreases |text| - from
  {
    FindDelimitedLeast(text, d, from);
    match FindDelimited(text, d, from)
    case None =>
    case Some((i, e)) =>
      FindAllCovers(text, d, e);
      CoverStep(text, d, from, i, e, FindAllDelimited(text, d, e));
  }

  /**
   * One round of the `findAll` loop: when `done` followed by the matches from `pos` are all
   * the matches, and `find` from `pos` gives `(i, e)`, then so are `done + [(i, e)]`
   * followed by the matches from `e`.
   */
  lemma FindAllResume(text: string, d: string, done: seq<(nat, nat)>, pos: nat, i: nat, e: nat)
    requires |d| > 0 && pos <= |text| && FindDelimited(text, d, pos) == Some((i, e))
    requires done + FindAllDelimited(text, d, pos) == FindAllDelimited(text, d, 0)
    ensures pos < e <= |text|
    ensures (done + [(i, e)]) + FindAllDelimited(text, d, e) == FindAllDelimited(text, d, 0)
  {
    var rest := FindAllDelimited(text, d, e);
    FindAllStep(text, d, pos);
    assert (done + [(i, e)]) + rest == done + ([(i, e)] + rest);
  }

  /** One unfolding of `findAll`: the match `find` gives, then the matches after it. */
  lemma FindAllStep(text: string, d: string, pos: nat)
    requires |d| > 0 && pos <= |text| && FindDelimited(text, d, pos).Some?
    ensures var v := FindDelimited(text, d, pos).value;
      FindAllDelimited(text, d, pos) == [v] + FindAllDelimited(text, d, v.1)
  {
  }

  /** The matches of `findAll` from `from` are in range and ordered, given those from `e` on. */
  lemma OrderStep(text: string, d: string, from: nat, i: nat, e: nat, rest: seq<(nat, nat)>)
    requires from <= i && DelimitedAt(text, d, i, e)
    requires forall k :: 0 <= k < |rest| ==> e <= rest[k].0 && DelimitedAt(text, d, rest[k].0, rest[k].1)
    requires forall k :: 0 <= k < |rest| - 1 ==> rest[k].1 <= rest[k + 1].0
    ensures var ms := [(i, e)] + rest;
      (forall k :: 0 <= k < |ms| ==> from <= ms[k].0 && DelimitedAt(text, d, ms[k].0, ms[k].1)) &&
      (forall k :: 0 <= k < |ms| - 1 ==> ms[k].1 <= ms[k + 1].0)
  {
    var ms := [(i, e)] + rest;
    assert forall k :: 1 <= k < |ms| ==> ms[k] == rest[k - 1];
  }

  /** Coverage of `findAll` from `from`, given the first match `(i, e)` and coverage from `e` on. */
  lemma CoverStep(text: string, d: string, from: nat, i: nat, e: nat, rest: seq<(nat, nat)>)
    requires from <= i < e
    requires forall i', e' :: from <= i' < i ==> !DelimitedAt(text, d, i', e')
    requires forall i', e' :: e <= i' && DelimitedAt(text, d, i', e') ==> Covered(rest, i')
    ensures forall i', e' :: from <= i' && DelimitedAt(text, d, i', e') ==> Covered([(i, e)] + rest, i')
  {
    var ms := [(i, e)] + rest;
    forall i', e' | from <= i' && DelimitedAt(text, d, i', e')
      ensures Covered(ms, i')
    {
      if i' < e {
        assert ms[0].0 <= i' < ms[0].1;
      } else {
        var k :| 0 <= k < |rest| && rest[k].0 <= i' < rest[k].1;
        assert ms[k + 1] == rest[k];
      }
    }
  }

  /** The indices of `c` in `text`, from `from` on, in increasing order. */
  function Positions(text: string, c: char, from: nat): (ps: seq<nat>)
    decreases |text| - from
  {
    if from >= |text| then []
    else if text[from] == c then [from] + Positions(text, c, from + 1)
    else Positions(text, c, from + 1)
  }

  /** The first and second index, the third and fourth, and so on, each pair as a match range. */
  function PairUp(ps: seq<nat>): seq<(nat, nat)> {
    if |ps| < 2 then [] else [(ps[0], ps[1] + 1)] + PairUp(ps[2..])
  }

  /** On a line without terminators, the lazy group of `c(.*?)c` closes at the next `c`. */
  lemma {:induction false} CloseAtNext(text: string, c: char, i: nat, m: nat)
    requires NoLineTerminator(text)
    requires i + 1 <= m <= |text| && text[i..i + 1] == [c]
    requires forall m' :: i + 1 <= m' < m ==> !DelimiterAt(text, [c], m')
    ensures NoLineTerminator(text[i + 1..m])
    ensures CloseFrom(text, [c], i, m) ==
            if Positions(text, c, m) == [] then None else Some(Positions(text, c, m)[0] + 1)
    decreases |text| - m
  {
    if m < |text| {
      if text[m] == c {
        assert DelimiterAt(text, [c], m);
      } else {
        assert !DelimiterAt(text, [c], m);
        assert text[i + 1..m + 1] == text[i + 1..m] + [text[m]];
        CloseAtNext(text, c, i, m + 1);
      }
    }
  }

  /** For a one-character delimiter on a line without terminators, `find` pairs the next two occurrences. */
  lemma {:induction false} FindNextPair(text: string, c: char, from: nat)
    requires NoLineTerminator(text) && from <= |text|
    ensures var ps := Positions(text, c, from);
      FindDelimited(text, [c], from) == if |ps| < 2 then None else Some((ps[0], ps[1] + 1))
    decreases |text| - from
  {
    if from < |text| {
      var rest := Positions(text, c, from + 1);
      if text[from] == c {
        assert text[from..from + 1] == [c];
        assert Positions(text, c, from) == [from] + rest;
        CloseAtNext(text, c, from, from + 1);
        if rest == [] {
          FindNextPair(text, c, from + 1);
        }
      } else {
        assert text[from..from + 1] != [c];
        assert Positions(text, c, from) == rest;
        FindNextPair(text, c, from + 1);
      }
    }
  }

  /**
   * For a one-character delimiter on a line without terminators, `findAll` pairs the
   * occurrences of the delimiter: the first with the second, the third with the fourth, and
   * so on; an odd last one is left alone.
   */
  lemma {:induction false} SingleDelimiterPairs(text: string, c: char, from: nat)
    requires NoLineTerminator(text) && from <= |text|
    ensures FindAllDelimited(text, [c], from) == PairUp(Positions(text, c, from))
    decreases |text| - from
  {
    var ps := Positions(text, c, from);
    FindNextPair(text, c, from);
    if |ps| >= 2 {
      PositionsHead(text, c, from);
      PositionsHead(text, c, ps[0] + 1);
      assert ps[2..] == Positions(text, c, ps[1] + 1);
      FindAllStep(text, [c], from);
      SingleDelimiterPairs(text, c, ps[1] + 1);
      assert PairUp(ps) == [(ps[0], ps[1] + 1)] + PairUp(ps[2..]);
    }
  }

  /** The first index in `Positions` is an occurrence, and what follows are the ones after it. */
  lemma {:induction false} PositionsHead(text: string, c: char, from: nat)
    requires Positions(text, c, from) != []
    ensures var q := Positions(text, c, from)[0];
      from <= q < |text| && text[q] == c && Positions(text, c, from) == [q] + Positions(text, c, q + 1)
    decreases |text| - from
  {
    if text[from] != c {
      PositionsHead(text, c, from + 1);
    }
  }

  // ---------------------------------------------------------------- image: !\[(.*?)\]\((.*?)\)

  /** `![` at `i`, then an alt text free of line terminators, then `](` at `j`. */
  predicate ImageOpen(line: string, i: int, j: int) {
    0 <= i && i + 2 <= j && j + 1 < |line| &&
    line[i] == '!' && line[i + 1] == '[' && line[j] == ']' && line[j + 1] == '(' &&
    NoLineTerminator(line[i + 2..j])
  }

  /** After `](` at `j`, a url free of line terminators closed by the `)` at `m`. */
  predicate ImageClose(line: string, j: int, m: int) {
    0 <= j && j + 2 <= m < |line| && line[m] == ')' && NoLineTerminator(line[j + 2..m])
  }

  /** The image pattern matches `line[i..m + 1]`, with alt text `line[i + 2..j]` and url `line[j + 2..m]`. */
  predicate ImageAt(line: string, i: int, j: int, m: int) {
    ImageOpen(line, i, j) && ImageClose(line, j, m)
  }

  /** The lazy url group: the first `)` from `m` on, unless a line terminator comes first. */
  function UrlEnd(line: string, j: nat, m: nat): (r: Option<nat>)
    requires j + 2 <= m <= |line| && NoLineTerminator(line[j + 2..m])
    requires forall m' :: j + 2 <= m' < m ==> line[m'] != ')'
    ensures r.Some? ==> ImageClose(line, j, r.value)
    ensures r.Some? ==> forall m' :: m' < r.value ==> !ImageClose(line, j, m')
    ensures r.None? ==> forall m' :: !ImageClose(line, j, m')
    decreases |line| - m
  {
    if m == |line| then None
    else if line[m] == ')' then Some(m)
    else if IsLineTerminator(line[m]) then None
    else
      assert line[j + 2..m + 1] == line[j + 2..m] + [line[m]];
      UrlEnd(line, j, m + 1)
  }

  /** The lazy alt group of a match started at `i`: the first `](` from `j` on that a url can follow. */
  function AltEnd(line: string, i: nat, j: nat): (r: Option<(nat, nat)>)
    requires i + 2 <= j <= |line| && line[i] == '!' && line[i + 1] == '['
    requires NoLineTerminator(line[i + 2..j])
    requires forall j', m' :: j' < j ==> !ImageAt(line, i, j', m')
    ensures r.Some? ==> ImageAt(line, i, r.value.0, r.value.1)
    ensures r.Some? ==> forall j', m' :: j' < r.value.0 ==> !ImageAt(line, i, j', m')
    ensures r.Some? ==> forall m' :: m' < r.value.1 ==> !ImageAt(line, i, r.value.0, m')
    ensures r.None? ==> forall j', m' :: !ImageAt(line, i, j', m')
    decreases |line| - j
  {
    if j + 1 < |line| && line[j] == ']' && line[j + 1] == '(' && UrlEnd(line, j, j + 2).Some? then
      Some((j, UrlEnd(line, j, j + 2).value))
    else if j == |line| || IsLineTerminator(line[j]) then
      AltBlocked(line, i, j);
      None
    else
      assert line[i + 2..j + 1] == line[i + 2..j] + [line[j]];
      AltEnd(line, i, j + 1)
  }

  /** The alt text cannot run past the end of the line or over a line terminator. */
  lemma AltBlocked(line: string, i: nat, j: nat)
    requires i + 2 <= j <= |line| && (j == |line| || IsLineTerminator(line[j]))
    ensures forall j' :: j <= j' ==> !ImageOpen(line, i, j')
  {

  }

  /** `imageRegex.find(line)` searched from `from`: the first `![` from which the pattern matches. */
  function FindImageFrom(line: string, from: nat): (r: Option<(nat, nat, nat)>)
    requires from <= |line|
    ensures r.Some? ==> from <= r.value.0 && r.value.0 + 2 <= r.value.1 && r.value.1 + 2 <= r.value.2 < |line|
    decreases |line| - from
  {
    if from == |line| then None
    else if from + 1 < |line| && line[from] == '!' && line[from + 1] == '[' &&
            AltEnd(line, from, from + 2).Some? then
      var am := AltEnd(line, from, from + 2).value;
      Some((from, am.0, am.1))
    else FindImageFrom(line, from + 1)
  }

  /**
   * The match `find` returns is the least one: least start, then least alt end, then least
   * url end; and when it returns nothing, the pattern matches nowhere from `from` on.
   */
  lemma {:induction false} FindImageLeast(line: string, from: nat)
    requires from <= |line|
    ensures var r := FindImageFrom(line, from);
      (r.Some? ==> ImageAt(line, r.value.0, r.value.1, r.value.2)) &&
      (r.Some? ==> forall i, j, m :: from <= i < r.value.0 ==> !ImageAt(line, i, j, m)) &&
      (r.Some? ==> forall j, m :: j < r.value.1 ==> !ImageAt(line, r.value.0, j, m)) &&
      (r.Some? ==> forall m :: m < r.value.2 ==> !ImageAt(line, r.value.0, r.value.1, m)) &&
      (r.None? ==> forall i, j, m :: from <= i ==> !ImageAt(line, i, j, m))
    decreases |line| - from
  {
    if from == |line| {
    } else if from + 1 < |line| && line[from] == '!' && line[from + 1] == '[' &&
              AltEnd(line, from, from + 2).Some? {
    } else {
      FindImageLeast(line, from + 1);
      if from + 1 < |line| && line[from] == '!' && line[from + 1] == '[' {
        assert AltEnd(line, from, from + 2).None?;
      }
    }
  }

  /** The alt text and the url of the image `find` returns hold no line terminator, and the url no `)`. */
  lemma ImageParts(line: string)
    requires FindImageFrom(line, 0).Some?
    ensures var r := FindImageFrom(line, 0).value;
      NoLineTerminator(line[r.0 + 2..r.1]) && NoLineTerminator(line[r.1 + 2..r.2]) && ')' !in line[r.1 + 2..r.2]
  {
    FindImageLeast(line, 0);
    var r := FindImageFrom(line, 0).value;
    var url := line[r.1 + 2..r.2];
    forall p | 0 <= p < |url| ensures url[p] != ')' {
      var m := r.1 + 2 + p;
      assert line[r.1 + 2..m] == url[..p];
      assert NoLineTerminator(url[..p]) by {
        assert forall i :: 0 <= i < p ==> url[..p][i] == url[i];
      }
      assert ImageOpen(line, r.0, r.1) && !ImageAt(line, r.0, r.1, m);
      assert !ImageClose(line, r.1, m);
      assert url[p] == line[m];
    }
  }
}
