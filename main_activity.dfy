/**
 * The URL handling of the start screen: the text typed into the URL field is trimmed,
 * rejected when blank, stripped of one trailing `/`, checked for a host, and rewritten
 * from a GitHub page link to the raw file link; when the download then fails with "not
 * found", an alternative URL is suggested. `isValidMarkdownUrl` is the screen's
 * (unused) case-insensitive shape check for raw Markdown links.
 */
module MainActivity {
  import opened KotlinText
  import opened Replace

  const GitHubHost := "github.com"
  const RawHost := "raw.githubusercontent.com"
  const LegacyRawPrefix := "https://raw." + GitHubHost + "/"
  const RawPrefix := "https://" + RawHost + "/"
  const BlobSegment := "/blob/"

  // ---------------------------------------------------------------- convertToRawGitHubUrl

  /**
   * `convertToRawGitHubUrl`: a three-way `when` on substrings; the rewrites replace every
   * occurrence. A link that already names the raw host, without the legacy prefix, is kept.
   */
  function ConvertToRawGitHubUrl(url: string): (converted: string)
    ensures Contains(url, RawHost) && !StartsWith(url, LegacyRawPrefix) ==> converted == url
  {
    if Contains(url, GitHubHost) && !Contains(url, RawHost) then
      ReplaceAll(ReplaceAll(url, GitHubHost, RawHost), BlobSegment, "/")
    else if StartsWith(url, LegacyRawPrefix) then
      ReplaceAll(url, LegacyRawPrefix, RawPrefix)
    else url
  }

  /** The legacy raw prefix mentions `github.com`. */
  lemma LegacyPrefixMentionsGitHub(url: string)
    requires StartsWith(url, LegacyRawPrefix)
    ensures Contains(url, GitHubHost)
  {
    MiddleOccurs(url, "https://raw.", GitHubHost, "/");
  }

  /** A string that starts with `a + b + c` has `b` right after `a`. */
  lemma MiddleOccurs(url: string, a: string, b: string, c: string)
    requires StartsWith(url, a + b + c)
    ensures OccursAt(url, b, |a|)
  {
    assert url[|a|..|a| + |b|] == (a + b + c)[|a|..|a| + |b|];
  }

  /** A URL that does not mention `github.com` is left as it is. */
  lemma ConvertWithoutGitHub(url: string)
    requires !Contains(url, GitHubHost)
    ensures ConvertToRawGitHubUrl(url) == url
  {
    if StartsWith(url, LegacyRawPrefix) {
      LegacyPrefixMentionsGitHub(url);
    }
  }

  /**
   * The legacy-prefix branch is reached only by URLs that already mention the raw host:
   * any other `https://raw.github.com/` URL takes the first branch.
   */
  lemma LegacyPrefixTakesFirstBranch(url: string)
    requires StartsWith(url, LegacyRawPrefix) && !Contains(url, RawHost)
    ensures ConvertToRawGitHubUrl(url) == ReplaceAll(ReplaceAll(url, GitHubHost, RawHost), BlobSegment, "/")
  {
    LegacyPrefixMentionsGitHub(url);
  }

  /** `raw.githubusercontent.com` can never help form a `github.com`. */
  lemma RawHostSeparated()
    ensures Separated(RawHost, GitHubHost)
  {
    RawHostOneG();
    forall j | 0 <= j < |RawHost| ensures !Compatible(RawHost[j..], GitHubHost) {
      if j == 4 {
        assert RawHost[4..][6] == 'u' && GitHubHost[6] == '.';
        Mismatch(RawHost[j..], GitHubHost, 6);
      } else {
        assert RawHost[j..][0] == RawHost[j] != 'g';
        Mismatch(RawHost[j..], GitHubHost, 0);
      }
    }
    assert forall k :: 0 <= k < |GitHubHost| ==> GitHubHost[k] != 'r';
    forall k | 0 <= k < |GitHubHost| ensures !Compatible(RawHost, GitHubHost[k..]) {
      assert GitHubHost[k..][0] == GitHubHost[k];
      Mismatch(RawHost, GitHubHost[k..], 0);
    }
  }

  /** The only `g` of the raw host is the first letter of `githubusercontent`. */
  lemma RawHostOneG()
    ensures forall j :: 0 <= j < |RawHost| && j != 4 ==> RawHost[j] != 'g'
  {
  }

  /** Two strings that differ at a position both have are not prefixes of one another. */
  lemma Mismatch(a: string, b: string, i: nat)
    requires i < |a| && i < |b| && a[i] != b[i]
    ensures !Compatible(a, b)
  {
    assert |b| <= |a| ==> a[..|b|][i] == a[i];
    assert |a| <= |b| ==> b[..|a|][i] == b[i];
  }

  /** A lone `/` can never help form a `github.com`. */
  lemma SlashSeparated()
    ensures Separated("/", GitHubHost)
  {
    assert "/"[0..] == "/";
    assert GitHubHost[0] != '/' && GitHubHost[..1] == [GitHubHost[0]];
    forall k | 0 <= k < |GitHubHost| ensures !Compatible("/", GitHubHost[k..]) {
      assert GitHubHost[k] != '/';
      assert GitHubHost[k..][..1] == [GitHubHost[k]];
    }
  }

  /** The first branch leaves no `github.com` behind. */
  lemma FirstBranchClearsHost(url: string)
    ensures !Contains(ReplaceAll(ReplaceAll(url, GitHubHost, RawHost), BlobSegment, "/"), GitHubHost)
  {
    RawHostSeparated();
    ReplaceOccurrences(url, GitHubHost, RawHost, GitHubHost);
    SlashSeparated();
    ReplaceOccurrences(ReplaceAll(url, GitHubHost, RawHost), BlobSegment, "/", GitHubHost);
  }

  /** The legacy-prefix branch yields a URL that starts with the raw prefix. */
  lemma LegacyBranchPrefix(url: string)
    requires StartsWith(url, LegacyRawPrefix)
    ensures var v := ReplaceAll(url, LegacyRawPrefix, RawPrefix);
      StartsWith(v, RawPrefix) && Contains(v, RawHost) && !StartsWith(v, LegacyRawPrefix)
  {
    var rest := url[|LegacyRawPrefix|..];
    assert url == LegacyRawPrefix + rest;
    ReplaceHere(LegacyRawPrefix, rest, RawPrefix);
    var v := ReplaceAll(url, LegacyRawPrefix, RawPrefix);
    assert v[..|RawPrefix|] == RawPrefix;
    assert v[8..33] == RawPrefix[8..33] == RawHost;
    assert OccursAt(v, RawHost, 8);
    assert v[18] == RawHost[10] != LegacyRawPrefix[18];
  }

  /** Converting a converted URL changes nothing. */
  lemma ConvertIdempotent(url: string)
    ensures ConvertToRawGitHubUrl(ConvertToRawGitHubUrl(url)) == ConvertToRawGitHubUrl(url)
  {
    if Contains(url, GitHubHost) && !Contains(url, RawHost) {
      FirstBranchClearsHost(url);
      ConvertWithoutGitHub(ConvertToRawGitHubUrl(url));
    } else if StartsWith(url, LegacyRawPrefix) {
      LegacyBranchPrefix(url);
    }
  }

  // ---------------------------------------------------------------- the GitHub page link rewrite

  /** The first rewrite on `https://github.com` followed by a path free of `github.com`. */
  lemma HostRewrite(path: string)
    requires !Contains(path, GitHubHost)
    ensures ReplaceAll("https://" + GitHubHost + path, GitHubHost, RawHost) == "https://" + RawHost + path
  {
    assert "https://" + GitHubHost + path == "https://" + (GitHubHost + path);
    ReplaceSkip("https://", GitHubHost + path, GitHubHost, RawHost);
    ReplaceHere(GitHubHost, path, RawHost);
    ReplaceAbsent(path, GitHubHost, RawHost);
  }

  /** No `/blob/` starts inside `https://` followed by a host that does not begin with `b`. */
  lemma HostKeepsSlashes(h: string, s: string)
    requires |h| > 0 && '/' !in h && h[0] != 'b'
    ensures ReplaceAll("https://" + h + s, BlobSegment, "/") == "https://" + h + ReplaceAll(s, BlobSegment, "/")
  {
    var u := ['/'] + (h + s);
    var v := ['/'] + u;
    var rs := ReplaceAll(s, BlobSegment, "/");
    assert ReplaceAll(u, BlobSegment, "/") == ['/'] + (h + rs) by {
      assert u[1] != BlobSegment[1];
      ReplaceSkipAfter('/', h, s, BlobSegment, "/");
    }
    assert ReplaceAll(v, BlobSegment, "/") == ['/'] + (['/'] + (h + rs)) by {
      assert v[1] != BlobSegment[1];
      ReplaceMiss('/', u, BlobSegment, "/");
    }
    assert ReplaceAll("https:" + v, BlobSegment, "/") == "https:" + ReplaceAll(v, BlobSegment, "/") by {
      ReplaceSkip("https:", v, BlobSegment, "/");
    }
    HttpsSlashes(h, s);
    HttpsSlashes(h, rs);
  }

  /** `https://` is `https:` and two slashes. */
  lemma HttpsSlashes(h: string, s: string)
    ensures "https://" + h + s == "https:" + (['/'] + (['/'] + (h + s)))
  {
  }

  /** At a `/` that opens a segment other than `blob`, no `/blob/` starts. */
  lemma SegmentSlash(seg: string, rest: string)
    requires '/' !in seg && seg != "blob"
    ensures !StartsWith(['/'] + (seg + (['/'] + rest)), BlobSegment)
  {
    var t := ['/'] + (seg + (['/'] + rest));
    if |seg| >= 5 {
      assert t[5] == seg[4] != BlobSegment[5];
    } else if |seg| == 4 {
      assert t[1..5] == seg;
      assert BlobSegment[1..5] == "blob";
    } else {
      assert t[|seg| + 1] == '/' != BlobSegment[|seg| + 1];
    }
  }

  /** A segment other than `blob` and the slash before it are copied. */
  lemma SegmentRewrite(seg: string, rest: string)
    requires '/' !in seg && seg != "blob" && |rest| > 0 && rest[0] == '/'
    ensures ReplaceAll(['/'] + (seg + rest), BlobSegment, "/") == ['/'] + (seg + ReplaceAll(rest, BlobSegment, "/"))
  {
    assert rest == ['/'] + rest[1..];
    SegmentSlash(seg, rest[1..]);
    ReplaceSkipAfter('/', seg, rest, BlobSegment, "/");
  }
  /** The last segment and the slash before it are copied. */
  lemma LastSegmentRewrite(file: string)
    requires '/' !in file
    ensures ReplaceAll(['/'] + file, BlobSegment, "/") == ['/'] + file
  {
    if |file| >= 5 {
      assert (['/'] + file)[5] == file[4] != BlobSegment[5];
    }
    ReplaceSkipAfter('/', file, [], BlobSegment, "/");
    assert file + [] == file;
  }
  /** The path `/owner/repo/blob/branch/file` of a GitHub page link. */
  function PagePath(owner: string, repo: string, branch: string, file: string): string {
    ['/'] + (owner + (['/'] + (repo + (BlobSegment + (branch + (['/'] + file))))))
  }
  /** The path `/owner/repo/branch/file` of the matching raw link. */
  function RawPath(owner: string, repo: string, branch: string, file: string): string {
    ['/'] + (owner + (['/'] + (repo + (['/'] + (branch + (['/'] + file))))))
  }
  /** The `blob` segment is dropped from a page path. */
  lemma BlobPathRewrite(owner: string, repo: string, branch: string, file: string)
    requires '/' !in owner && '/' !in repo && '/' !in branch && '/' !in file
    requires owner != "blob" && repo != "blob"
    ensures ReplaceAll(PagePath(owner, repo, branch, file), BlobSegment, "/") == RawPath(owner, repo, branch, file)
  {
    var t5 := ['/'] + file;
    LastSegmentRewrite(file);
    var t4 := branch + t5;
    ReplaceSkip(branch, t5, BlobSegment, "/");
    var t3 := BlobSegment + t4;
    ReplaceHere(BlobSegment, t4, "/");
    SegmentRewrite(repo, t3);
    var t2 := ['/'] + (repo + t3);
    SegmentRewrite(owner, t2);
  }
  /**
   * A page link `https://github.com/owner/repo/blob/branch/file` becomes the raw link
   * `https://raw.githubusercontent.com/owner/repo/branch/file`.
   */
  lemma BlobLinkRewrite(owner: string, repo: string, branch: string, file: string)
    requires '/' !in owner && '/' !in repo && '/' !in branch && '/' !in file
    requires owner != "blob" && repo != "blob"
    requires var path := PagePath(owner, repo, branch, file);
      !Contains(path, GitHubHost) && !Contains(path, RawHost)
    ensures ConvertToRawGitHubUrl("https://" + GitHubHost + PagePath(owner, repo, branch, file)) ==
            "https://" + RawHost + RawPath(owner, repo, branch, file)
  {
    var path := PagePath(owner, repo, branch, file);
    var url := "https://" + GitHubHost + path;
    assert url[8..18] == GitHubHost;
    assert OccursAt(url, GitHubHost, 8);
    AbsentAfter("https://" + GitHubHost, path, RawHost);
    HostRewrite(path);
    HostKeepsSlashes(RawHost, path);
    BlobPathRewrite(owner, repo, branch, file);
  }

  /** The path of the usual example, `/u/r/blob/main/f.md`, and its raw form `/u/r/main/f.md`. */
  lemma ExamplePaths(page: string, raw: string)
    requires page == "/u/r/blob/main/f.md" && raw == "/u/r/main/f.md"
    ensures page == PagePath("u", "r", "main", "f.md") && raw == RawPath("u", "r", "main", "f.md")
    ensures !Contains(page, GitHubHost) && !Contains(page, RawHost)
  {
    AbsentHead(page, GitHubHost);
  }

  /**
   * The usual example: the page link `https://github.com/u/r/blob/main/f.md` becomes
   * `https://raw.githubusercontent.com/u/r/main/f.md`.
   */
  lemma BlobExample(url: string)
    requires url == "https://" + GitHubHost + "/u/r/blob/main/f.md"
    ensures ConvertToRawGitHubUrl(url) == "https://" + RawHost + "/u/r/main/f.md"
  {
    ExamplePaths("/u/r/blob/main/f.md", "/u/r/main/f.md");
    BlobLinkRewrite("u", "r", "main", "f.md");
  }

  // ---------------------------------------------------------------- the legacy-prefix quirk

  /** The host that a legacy raw link ends up with: the `raw.` prefix is kept in front. */
  const QuirkHost := "raw." + RawHost

  /** The first rewrite on a legacy raw link: the `raw.` in front of the host stays. */
  lemma LegacyHostRewrite(tail: string)
    ensures ReplaceAll("https://raw." + (GitHubHost + tail), GitHubHost, RawHost) ==
            "https://" + QuirkHost + ReplaceAll(tail, GitHubHost, RawHost)
  {
    var x := ReplaceAll(tail, GitHubHost, RawHost);
    ReplaceSkip("https://raw.", GitHubHost + tail, GitHubHost, RawHost);
    ReplaceHere(GitHubHost, tail, RawHost);
    assert "https://raw." + (RawHost + x) == "https://" + QuirkHost + x;
  }

  /** A legacy raw link is `https://raw.`, then `github.com`, then the rest from the slash on. */
  lemma LegacySplit(url: string)
    requires StartsWith(url, LegacyRawPrefix)
    ensures url == "https://raw." + (GitHubHost + url[22..])
  {
    assert url[..22] == "https://raw." + GitHubHost;
    assert url == url[..22] + url[22..];
  }

  /**
   * A legacy raw link `https://raw.github.com/...` that does not already mention the raw host
   * takes the first branch, so its host becomes `raw.raw.githubusercontent.com` instead of
   * `raw.githubusercontent.com`.
   */
  lemma LegacyQuirk(url: string)
    requires StartsWith(url, LegacyRawPrefix) && !Contains(url, RawHost)
    ensures ConvertToRawGitHubUrl(url) ==
            "https://" + QuirkHost + ReplaceAll(ReplaceAll(url[22..], GitHubHost, RawHost), BlobSegment, "/")
  {
    LegacyPrefixTakesFirstBranch(url);
    var tail := url[22..];
    var x := ReplaceAll(tail, GitHubHost, RawHost);
    assert ReplaceAll(url, GitHubHost, RawHost) == "https://" + QuirkHost + x by {
      LegacySplit(url);
      LegacyHostRewrite(tail);
    }
    QuirkHostPlain();
    HostKeepsSlashes(QuirkHost, x);
  }

  /** The doubled host has no `/` and does not begin with `b`. */
  lemma QuirkHostPlain()
    ensures |QuirkHost| > 0 && '/' !in QuirkHost && QuirkHost[0] != 'b'
  {
    assert forall i :: 0 <= i < |QuirkHost| ==> QuirkHost[i] != '/';
  }

  /** So the converted legacy link does not start with `https://raw.githubusercontent.com/`. */
  lemma LegacyQuirkMissesRawPrefix(url: string)
    requires StartsWith(url, LegacyRawPrefix) && !Contains(url, RawHost)
    ensures StartsWith(ConvertToRawGitHubUrl(url), "https://" + QuirkHost)
    ensures !StartsWith(ConvertToRawGitHubUrl(url), RawPrefix)
  {
    LegacyQuirk(url);
    var v := ConvertToRawGitHubUrl(url);
    assert v[8..12] == "raw.";
    assert v[12] == 'r' != RawPrefix[12];
  }

  /**
   * The legacy link `https://raw.github.com/x` becomes `https://raw.` + `raw.githubusercontent.com`
   * + `/x`, that is `https://raw.raw.githubusercontent.com/x`.
   */
  lemma LegacyQuirkExample(url: string)
    requires url == "https://raw.github.com/x"
    ensures ConvertToRawGitHubUrl(url) == "https://raw." + RawHost + "/x"
  {
    assert StartsWith(url, LegacyRawPrefix) && |url| < |RawHost| by {
      assert url == LegacyRawPrefix + "x";
    }
    LegacyQuirk(url);
    var tail := url[22..];
    assert tail == "/x";
    assert ReplaceAll(ReplaceAll(tail, GitHubHost, RawHost), BlobSegment, "/") == tail;
    assert "https://" + QuirkHost + tail == "https://raw." + RawHost + tail;
  }

  // ---------------------------------------------------------------- loadFromUrl

  const EnterUrlMessage := "Пожалуйста, введите URL"
  const BadFormatMessage := "Неверный формат URL"

  /** What pressing "load" leads to: a download of the given URL, or an error toast. */
  datatype LoadRequest = Download(url: string) | Rejected(message: string)

  /** The text field after `trim()` and `removeSuffix("/")`. */
  function PreparedUrl(input: string): (r: string)
    ensures EndsWith(Trim(input), "/") ==> r + "/" == Trim(input)
    ensures !EndsWith(Trim(input), "/") ==> r == Trim(input)
  {
    RemoveSuffix(Trim(input), "/")
  }

  /** Only one trailing slash is removed: a field ending in `//` still ends in `/`. */
  lemma OneSlashRemoved(input: string)
    requires EndsWith(Trim(input), "//")
    ensures EndsWith(PreparedUrl(input), "/") && |PreparedUrl(input)| == |Trim(input)| - 1
  {
    var t := Trim(input);
    var r := PreparedUrl(input);
    assert t[|t| - 1] == '/';
    assert r + "/" == t;
    assert r[|r| - 1] == t[|t| - 2] == '/';
  }

  /**
   * `loadFromUrl` up to the download: `hasHost` stands for `Uri.parse(url).host != null`
   * (a parse that throws counts as no host). The local `url` is reassigned step by step as in
   * the activity.
   */
  method LoadFromUrl(input: string, hasHost: string -> bool) returns (r: LoadRequest)
    ensures r == Rejected(EnterUrlMessage) <==> IsBlank(input)
    ensures r == Rejected(BadFormatMessage) <==> !IsBlank(input) && !hasHost(PreparedUrl(input))
    ensures r.Download? <==> !IsBlank(input) && hasHost(PreparedUrl(input))
    ensures r.Download? ==> r.url == ConvertToRawGitHubUrl(PreparedUrl(input))
  {
    TrimBlank(input);
    var url := Trim(input);
    if IsBlank(url) {
      return Rejected(EnterUrlMessage);
    }
    url := RemoveSuffix(url, "/");
    if !hasHost(url) {
      return Rejected(BadFormatMessage);
    }
    url := ConvertToRawGitHubUrl(url);
    return Download(url);
  }

  // ---------------------------------------------------------------- handleDownloadError

  const Http := "http://"
  const Https := "https://"

  /** The suggestion shown for a GitHub URL that was not found. */
  function AlternativeUrl(url: string): string {
    ReplaceAll(ReplaceAll(url, Https, Http), Http, Https)
  }

  /** `https://` can never help form an `http://`. */
  lemma HttpsSeparated()
    ensures Separated(Https, Http)
  {
    assert Https[..7] != Http by { assert Https[4] != Http[4]; }
    forall j | 0 <= j < |Https| ensures !Compatible(Https[j..], Http) {
      if j > 0 {
        assert Https[j..][0] != Http[0];
      }
    }
    forall k | 0 <= k < |Http| ensures !Compatible(Https, Http[k..]) {
      if k > 0 {
        assert Https[0] != Http[k..][0];
      }
    }
  }

  /** No proper tail of `http://` starts it again. */
  lemma HttpUnbordered()
    ensures Unbordered(Http)
  {
    forall k | 1 <= k < |Http| ensures !Compatible(Http, Http[k..]) {
      assert Http[0] != Http[k..][0];
    }
  }

  /** The suggestion never contains `http://`. */
  lemma AlternativeUrlSecure(url: string)
    ensures !Contains(AlternativeUrl(url), Http)
  {
    HttpsSeparated();
    ReplaceOccurrences(ReplaceAll(url, Https, Http), Http, Https, Http);
  }

  /** A URL without `http://` is suggested unchanged: every `https://` is turned back. */
  lemma AlternativeUrlUnchanged(url: string)
    requires !Contains(url, Http)
    ensures AlternativeUrl(url) == url
  {
    HttpUnbordered();
    ReplaceRoundTrip(url, Https, Http);
  }

  /** The failures `handleDownloadError` tells apart; `Other` carries `localizedMessage`. */
  datatype DownloadError = UnknownHost | SocketTimeout | FileNotFound | Other(localizedMessage: Option<string>)

  const NoConnectionMessage := "Не удалось подключиться к серверу"
  const TimeoutMessage := "Таймаут соединения"
  const TryInsteadMessage := "Файл не найден. Попробуйте: "
  const NotFoundMessage := "Файл не найден по указанному URL"
  const LoadErrorMessage := "Ошибка загрузки: "
  const UnknownErrorMessage := "Неизвестная ошибка"
  const EmptyFileMessage := "Файл пустой"

  /** The toast `handleDownloadError` shows for a failed download of `originalUrl`. */
  function DownloadErrorMessage(e: DownloadError, originalUrl: string): (m: string)
    ensures e.FileNotFound? && Contains(originalUrl, GitHubHost) ==>
      m == TryInsteadMessage + AlternativeUrl(originalUrl) && !Contains(m, Http)
    ensures e.FileNotFound? && !Contains(originalUrl, GitHubHost) ==> m == NotFoundMessage
    ensures e.Other? ==> StartsWith(m, LoadErrorMessage)
  {
    match e
    case UnknownHost => NoConnectionMessage
    case SocketTimeout => TimeoutMessage
    case FileNotFound =>
      if Contains(originalUrl, GitHubHost) then
        AlternativeUrlSecure(originalUrl);
        AbsentAfter(TryInsteadMessage, AlternativeUrl(originalUrl), Http);
        TryInsteadMessage + AlternativeUrl(originalUrl)
      else NotFoundMessage
    case Other(msg) =>
      LoadErrorMessage + (if msg.Some? then msg.value else UnknownErrorMessage)
  }

  /** How a finished download of `url` ends: the text of the file, or the failure. */
  datatype DownloadResult = Downloaded(content: string) | Failed(error: DownloadError)

  /** What the screen does next: open the viewer, or show a toast. */
  datatype Outcome = OpenViewer(content: string) | ShowError(message: string)

  /** The coroutine's continuation on the main thread after the download. */
  function AfterDownload(result: DownloadResult, url: string): (o: Outcome)
    ensures o.OpenViewer? <==> result.Downloaded? && !IsBlank(result.content)
    ensures o.OpenViewer? ==> o.content == result.content
    ensures result.Downloaded? && IsBlank(result.content) ==> o == ShowError(EmptyFileMessage)
    ensures result.Failed? ==> o == ShowError(DownloadErrorMessage(result.error, url))
  {
    match result
    case Downloaded(content) => if IsBlank(content) then ShowError(EmptyFileMessage) else OpenViewer(content)
    case Failed(e) => ShowError(DownloadErrorMessage(e, url))
  }

  // ---------------------------------------------------------------- isValidMarkdownUrl

  /** The host and slash every accepted link has, after the optional `raw.`. */
  const ContentHost := "githubusercontent.com/"
  const MarkdownSuffix := ".md"

  /** Where `https?://` ends, when `l` starts with it. */
  function SchemeEnd(l: string): (n: Option<nat>)
    ensures n.Some? ==> n.value <= |l|
  {
    if StartsWith(l, Https) then Some(|Https|)
    else if StartsWith(l, Http) then Some(|Http|)
    else None
  }

  /** Where `(raw\.)?githubusercontent\.com/` ends, when it starts at `l[n..]`. */
  function HostEnd(l: string, n: nat): (k: Option<nat>)
    requires n <= |l|
    ensures k.Some? ==> n < k.value <= |l|
  {
    if StartsWith(l[n..], "raw." + ContentHost) then Some(n + 4 + |ContentHost|)
    else if StartsWith(l[n..], ContentHost) then Some(n + |ContentHost|)
    else None
  }

  /** `.+\.md$` matches all of `l[k..]`: at least one character other than a line terminator, then `.md`. */
  predicate MarkdownTail(l: string, k: nat)
    requires k <= |l|
  {
    k + 4 <= |l| && EndsWith(l, MarkdownSuffix) && NoLineTerminator(l[k..|l| - 3])
  }

  /** The pattern `https?://(raw\.)?githubusercontent\.com/.+\.md` matches all of `l`, case-sensitively. */
  predicate MatchesPattern(l: string) {
    match SchemeEnd(l)
    case None => false
    case Some(n) =>
      match HostEnd(l, n)
      case None => false
      case Some(k) => MarkdownTail(l, k)
  }

  /**
   * `isValidMarkdownUrl`: the whole URL matches `^https?://(raw\.)?githubusercontent\.com/.+\.md$`
   * with CASE_INSENSITIVE, which folds ASCII letters only. The pattern has no real choice
   * points, so the match is a scan of the lower-cased URL.
   */
  predicate IsValidMarkdownUrl(url: string): (b: bool)
    ensures b ==> |url| >= |Http| + |ContentHost| + 1 + |MarkdownSuffix|
  {
    MatchesPattern(Lower(url))
  }

  /** The shape the pattern describes, with its parts named. */
  predicate PatternShape(l: string, scheme: string, raw: string, middle: string) {
    (scheme == Http || scheme == Https) && (raw == [] || raw == "raw.") &&
    middle != [] && NoLineTerminator(middle) &&
    l == scheme + (raw + (ContentHost + (middle + MarkdownSuffix)))
  }

  /** What `SchemeEnd` finds is one of the two schemes. */
  lemma SchemeEndFound(l: string)
    requires SchemeEnd(l).Some?
    ensures var n := SchemeEnd(l).value; l[..n] == Http || l[..n] == Https
  {
  }

  /** `SchemeEnd` finds a scheme that `l` starts with. */
  lemma SchemeEndOf(l: string, scheme: string, rest: string)
    requires (scheme == Http || scheme == Https) && l == scheme + rest
    ensures SchemeEnd(l) == Some(|scheme|)
  {
    assert l[..|scheme|] == scheme;
    if scheme == Http {
      assert l[4] == ':' != Https[4];
    }
  }

  /** What `HostEnd` finds is the content host, with or without `raw.`. */
  lemma HostEndFound(l: string, n: nat)
    requires n <= |l| && HostEnd(l, n).Some?
    ensures var k := HostEnd(l, n).value;
      l[n..k] == (if k - n == 4 + |ContentHost| then "raw." else []) + ContentHost
  {
    var k := HostEnd(l, n).value;
    assert l[n..k] == l[n..][..k - n];
  }

  /** `HostEnd` finds the content host, with or without `raw.`, that starts at `l[n..]`. */
  lemma HostEndOf(l: string, n: nat, raw: string, rest: string)
    requires n <= |l| && (raw == [] || raw == "raw.") && l[n..] == raw + (ContentHost + rest)
    ensures HostEnd(l, n) == Some(n + |raw| + |ContentHost|)
  {
    var host := raw + ContentHost;
    assert l[n..] == host + rest;
    assert l[n..][..|host|] == host;
    if raw == [] {
      assert l[n..][0] == 'g';
    }
  }

  /** What `MarkdownTail` accepts is a middle part followed by `.md`. */
  lemma TailFound(l: string, k: nat)
    requires k <= |l| && MarkdownTail(l, k)
    ensures l[k..] == l[k..|l| - 3] + MarkdownSuffix
  {
    assert l[|l| - 3..] == MarkdownSuffix;
  }

  /** A non-empty middle part without line terminators, then `.md`, is accepted by `MarkdownTail`. */
  lemma TailOf(l: string, k: nat, middle: string)
    requires k <= |l| && l[k..] == middle + MarkdownSuffix && middle != [] && NoLineTerminator(middle)
    ensures MarkdownTail(l, k)
  {
    assert l[k..|l| - 3] == l[k..][..|middle|] == middle;
    assert l[|l| - 3..] == l[k..][|middle|..] == MarkdownSuffix;
  }

  /** The parts found at `n` and `k` put back together give the shape. */
  lemma ShapeFromParts(l: string, n: nat, k: nat, raw: string)
    requires n <= k <= |l| - 3
    requires l[..n] == Http || l[..n] == Https
    requires (raw == [] || raw == "raw.") && l[n..k] == raw + ContentHost
    requires l[k..] == l[k..|l| - 3] + MarkdownSuffix
    requires k < |l| - 3 && NoLineTerminator(l[k..|l| - 3])
    ensures PatternShape(l, l[..n], raw, l[k..|l| - 3])
  {
    var scheme, host, tail, middle := l[..n], l[n..k], l[k..], l[k..|l| - 3];
    CutTwice(l, n, k);
    Regroup(host, tail, raw, ContentHost, middle, MarkdownSuffix);
  }

  /** A string is its three pieces cut at `n` and `k`. */
  lemma CutTwice(l: string, n: nat, k: nat)
    requires n <= k <= |l|
    ensures l == l[..n] + (l[n..k] + l[k..])
  {
    assert l[n..] == l[n..k] + l[k..];
  }

  /** Re-bracketing the host part and the tail of a URL. */
  lemma Regroup(host: string, tail: string, raw: string, content: string, middle: string, suffix: string)
    requires host == raw + content && tail == middle + suffix
    ensures host + tail == raw + (content + (middle + suffix))
  {
  }

  /** A matching string has the shape, with the parts the scan finds. */
  lemma MatchHasShape(l: string)
    requires MatchesPattern(l)
    ensures exists scheme, raw, middle :: PatternShape(l, scheme, raw, middle)
  {
    var n := SchemeEnd(l).value;
    var k := HostEnd(l, n).value;
    SchemeEndFound(l);
    HostEndFound(l, n);
    TailFound(l, k);
    var raw: string := if k - n == 4 + |ContentHost| then "raw." else [];
    ShapeFromParts(l, n, k, raw);
  }

  /** A string of the shape matches. */
  lemma ShapeMatches(l: string, scheme: string, raw: string, middle: string)
    requires PatternShape(l, scheme, raw, middle)
    ensures MatchesPattern(l)
  {
    var n := |scheme|;
    var k := n + |raw| + |ContentHost|;
    var tail := middle + MarkdownSuffix;
    SchemeEndOf(l, scheme, raw + (ContentHost + tail));
    Drop3(l, scheme, raw, ContentHost, tail);
    HostEndOf(l, n, raw, tail);
    TailOf(l, k, middle);
  }

  /** The tails of `a + (b + (c + d))` after `a` and after `a + b + c`. */
  lemma Drop3(l: string, a: string, b: string, c: string, d: string)
    requires l == a + (b + (c + d))
    ensures l[|a|..] == b + (c + d) && l[|a| + |b| + |c|..] == d
  {
  }

  /** `isValidMarkdownUrl` accepts exactly the URLs whose lower-cased form has the shape. */
  lemma ValidMarkdownUrlIff(url: string)
    ensures IsValidMarkdownUrl(url) ==> exists scheme, raw, middle :: PatternShape(Lower(url), scheme, raw, middle)
    ensures (exists scheme, raw, middle :: PatternShape(Lower(url), scheme, raw, middle)) ==> IsValidMarkdownUrl(url)
  {
    var l := Lower(url);
    if MatchesPattern(l) {
      MatchHasShape(l);
    }
    forall scheme, raw, middle | PatternShape(l, scheme, raw, middle) ensures MatchesPattern(l) {
      ShapeMatches(l, scheme, raw, middle);
    }
  }

  /** The check ignores ASCII case: upper-casing a URL does not change the verdict. */
  lemma ValidMarkdownUrlIgnoresCase(url: string)
    ensures IsValidMarkdownUrl(Upper(url)) == IsValidMarkdownUrl(url)
  {
    LowerUpper(url);
    assert IsValidMarkdownUrl(Upper(url)) == MatchesPattern(Lower(Upper(url)));
  }
}
