/**
 * `NetworkUtils.isValidMarkdownUrl`: a plain prefix and suffix test for raw GitHub Markdown
 * links, and how it compares with the start screen's regex check of the same name.
 */
module NetworkUtils {
  import opened KotlinText
  import MainActivity

  /** The prefix every accepted link starts with: `https://raw.githubusercontent.com/`. */
  const RawLinkPrefix := MainActivity.RawPrefix
  const MarkdownSuffix := ".md"

  /** `isValidMarkdownUrl`: starts with the raw prefix and ends with `.md`, with case. */
  predicate IsValidMarkdownUrl(url: string): (b: bool)
    ensures b ==> StartsWith(url, MainActivity.Https)
  {
    StartsWith(url, RawLinkPrefix) && EndsWith(url, MarkdownSuffix)
  }

  /** The prefix and the suffix cannot overlap: an accepted URL has at least 37 characters. */
  lemma ValidUrlLength(url: string)
    requires IsValidMarkdownUrl(url)
    ensures |url| >= |RawLinkPrefix| + |MarkdownSuffix| == 37
  {
    var d := |url| - 3;
    assert url[d] == '.' by {
      assert url[d..] == MarkdownSuffix;
    }
    assert forall i :: 0 <= i < 34 ==> url[i] == RawLinkPrefix[i] by {
      assert url[..34] == RawLinkPrefix;
    }
    assert RawLinkPrefix[31] != '.' && RawLinkPrefix[32] != '.' && RawLinkPrefix[33] != '.';
  }

  /** The accepted URLs are exactly the raw prefix, any path, and `.md`. */
  lemma ValidUrlIff(url: string)
    ensures IsValidMarkdownUrl(url) <==>
      |url| >= 37 && url == RawLinkPrefix + url[34..|url| - 3] + MarkdownSuffix
  {
    if IsValidMarkdownUrl(url) {
      ValidUrlLength(url);
      assert url[..34] == RawLinkPrefix && url[|url| - 3..] == MarkdownSuffix;
      assert url == url[..34] + url[34..|url| - 3] + url[|url| - 3..];
    }
  }

  /** The test is case-sensitive: no upper-cased URL is accepted. */
  lemma UpperCaseRejected(url: string)
    ensures !IsValidMarkdownUrl(Upper(url))
  {
  }

  /** The raw prefix is the regex's `https://`, then `raw.`, then the content host. */
  lemma RawLinkPrefixParts()
    ensures RawLinkPrefix == MainActivity.Https + ("raw." + MainActivity.ContentHost)
  {
  }

  /** The scheme has no capital letter. */
  lemma SchemeLowerCase()
    ensures Lower("https://") == "https://" && Lower("/") == "/"
  {
    LowerKeepsLowercase("https://");
    LowerKeepsLowercase("/");
  }

  /** The raw host has no capital letter. */
  lemma RawHostLowerCase()
    ensures Lower(MainActivity.RawHost) == MainActivity.RawHost
  {
    var h := MainActivity.RawHost;
    assert forall i :: 0 <= i < |h| ==> 'a' <= h[i] <= 'z' || h[i] == '.';
    LowerKeepsLowercase(h);
  }

  /** Neither the raw prefix nor `.md` has a capital letter. */
  lemma LowerCaseEnds()
    ensures Lower(RawLinkPrefix) == RawLinkPrefix && Lower(MarkdownSuffix) == MarkdownSuffix
  {
    SchemeLowerCase();
    RawHostLowerCase();
    LowerBetween("https://", MainActivity.RawHost, "/");
    SuffixLowerCase();
  }

  /** `.md` has no capital letter. */
  lemma SuffixLowerCase()
    ensures Lower(MarkdownSuffix) == MarkdownSuffix
  {
    LowerKeepsLowercase(MarkdownSuffix);
  }

  /** Regrouping a concatenation of five pieces to the right. */
  lemma Regroup(a: string, b: string, c: string, d: string, e: string)
    ensures a + (b + c) + d + e == a + (b + (c + (d + e)))
  {
  }

  /** Lower-casing an accepted URL only touches its path. */
  lemma LowerAcceptedUrl(url: string)
    requires IsValidMarkdownUrl(url)
    ensures |url| >= 37
    ensures Lower(url) == RawLinkPrefix + Lower(url[34..|url| - 3]) + MarkdownSuffix
  {
    ValidUrlIff(url);
    var middle := url[34..|url| - 3];
    assert Lower(RawLinkPrefix + middle + MarkdownSuffix) == RawLinkPrefix + Lower(middle) + MarkdownSuffix by {
      LowerCaseEnds();
      LowerBetween(RawLinkPrefix, middle, MarkdownSuffix);
    }
  }

  /**
   * A URL this test accepts, with a non-empty path and no line break, is also accepted by the
   * start screen's regex check.
   */
  lemma AcceptedByScreenCheck(url: string)
    requires IsValidMarkdownUrl(url) && |url| > 37 && NoLineTerminator(url)
    ensures MainActivity.IsValidMarkdownUrl(url)
  {
    LowerAcceptedUrl(url);
    var middle := url[34..|url| - 3];
    var lm := Lower(middle);
    var l := Lower(url);
    assert l == MainActivity.Https + ("raw." + (MainActivity.ContentHost + (lm + MarkdownSuffix))) by {
      RawLinkPrefixParts();
      Regroup(MainActivity.Https, "raw.", MainActivity.ContentHost, lm, MarkdownSuffix);
    }
    assert NoLineTerminator(lm) by {
      forall i | 0 <= i < |lm| ensures !IsLineTerminator(lm[i]) {
        assert middle[i] == url[34 + i];
      }
    }
    MainActivity.ShapeMatches(l, MainActivity.Https, "raw.", lm);
  }

  /**
   * The two checks disagree on the empty path: `https://raw.githubusercontent.com/.md` passes
   * this test, but the regex wants at least one character before `.md`.
   */
  lemma EmptyPathDisagrees(url: string)
    requires url == RawLinkPrefix + MarkdownSuffix
    ensures IsValidMarkdownUrl(url) && !MainActivity.IsValidMarkdownUrl(url)
  {
    ValidUrlIff(url);
    RawLinkPrefixParts();
    assert Lower(url) == url by {
      LowerCaseEnds();
      LowerConcat(RawLinkPrefix, MarkdownSuffix);
    }
    assert MainActivity.SchemeEnd(url) == Some(8);
    assert url[8..][..26] == "raw." + MainActivity.ContentHost;
    assert MainActivity.HostEnd(url, 8) == Some(34);
  }
}
