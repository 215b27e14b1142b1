# Markdown app core in Dafny

A model of the core of a small Android Markdown viewer and editor, written in Kotlin, with
proofs about it. The model covers four parts of the app.

- **The Markdown parser** (`MarkdownParser`). It splits the text on `\n` and classifies each
  line by a fixed priority:
  1. heading;
  2. table row that opens a table;
  3. table row inside a table;
  4. blank line that closes a table;
  5. image;
  6. fallback: a row while a table is open, otherwise a text line with inline spans.

  The line loop carries `inTable` and the pending `tableRows`. `parseTableRow` splits a row on
  `|`, trims the pieces, and drops empty and dash-only pieces. `processInlineMarkdown` sets
  one span per `findAll` match of the bold, italic and code patterns, in that order. The six
  fixed regular expressions are hand-written scanners (module `Patterns`). Each is proved
  against a predicate that reads the pattern as a language. For example, `find` returns the
  leftmost match, and at that start the one the lazy `.*?` groups pick.
- **The elements** the parser produces (module `MarkdownElement`). A text element's
  `SpannableString` is the line plus its list of spans.
- **The start screen** (module `MainActivity`):
  - `loadFromUrl` up to the download, with `Uri.parse(...).host != null` as a parameter;
  - `convertToRawGitHubUrl`;
  - the message that `handleDownloadError` shows, and the continuation after the download;
  - the unused, case-insensitive regex check `isValidMarkdownUrl`.

  Kotlin's `String.replace` is modelled in module `Replace`, with lemmas about when a
  replacement creates, removes or restores occurrences.
- **The editor screen** (module `Editor`). A class `MarkdownEditor` holds the text and the
  selection. Its `WrapSelection` method follows the two branches of `wrapSelection`. The
  toolbar buttons wrap with `**`, `*` and `` ` ``. `Select` stands for the user moving the
  selection.
- **`NetworkUtils.isValidMarkdownUrl`** (module `NetworkUtils`). This is the case-sensitive
  prefix and suffix test. It is compared with the screen's regex check.

Kotlin library behaviour used by the core lives in module `KotlinText`: `trim`, `isBlank`,
`split`, `startsWith`, `removeSuffix` and ASCII case folding.

Some behaviour of the code, which the model states as it is:

- **A legacy raw link is converted wrongly.** A link `https://raw.github.com/...` that does
  not already mention `raw.githubusercontent.com` contains `github.com`, so it takes the
  first branch of `convertToRawGitHubUrl`. It comes out with the host
  `raw.raw.githubusercontent.com` (`LegacyQuirk`). The second branch is reached only by URLs
  that already mention the raw host.
- **The "try instead" hint changes nothing for https links.** The hint replaces `https://`
  by `http://` and then every `http://` by `https://`. It therefore never contains `http://`
  (`AlternativeUrlSecure`), and for a URL without `http://` it is the URL itself
  (`AlternativeUrlUnchanged`).
- **A separator row becomes an empty row.** `parseTableRow` drops the dash-only pieces of
  `|---|---|`, and the line still adds a row, so the table holds `[]` for it (`SeparatorRow`).
- **A table still open at the end of the input is dropped.** The line loop emits a table only
  on a blank line, and `parse` adds nothing after the loop, so `|a|b|` alone gives no element
  (`LoneTableLine`). A trailing newline adds a blank last line, which closes the table
  (`TrailingNewline`).
- **The two URL checks disagree on the empty path.** `NetworkUtils.isValidMarkdownUrl`
  accepts `https://raw.githubusercontent.com/.md`, but the screen's regex rejects it
  (`EmptyPathDisagrees`).

## Model

Source paths are relative to the repository root.

| member | source | states |
|---|---|---|
| Patterns.MatchHeading | app/src/main/java/com/example/markdownapp/parsers/MarkdownParser.kt:15 | the heading scanner: when it matches, the level is 1 to 6, the text is the rest of the line after the hashes and one whitespace character, and it holds no line terminator |
| Patterns.MatchHeadingShape | app/src/main/java/com/example/markdownapp/parsers/MarkdownParser.kt:15 | the heading scanner returns `(k, rest)` exactly when the whole line matches `^(#{1,6})\s(.*)` with `k` hashes in group 1 and `rest` in group 2 |
| Patterns.IsTableLine | app/src/main/java/com/example/markdownapp/parsers/MarkdownParser.kt:19 | `matches()` of the table pattern; a line it accepts holds no newline |
| Patterns.TableLineShape | app/src/main/java/com/example/markdownapp/parsers/MarkdownParser.kt:19 | a line matches the table pattern exactly when it is a bar, a non-empty run without line terminators, and a bar |
| Patterns.CloseFrom | app/src/main/java/com/example/markdownapp/parsers/MarkdownParser.kt:16-18 | the lazy group `(.*?)` closes at the first delimiter after the opening one; no shorter match exists, and none at all when a line terminator or the end comes first |
| Patterns.FindDelimited | app/src/main/java/com/example/markdownapp/parsers/MarkdownParser.kt:16-18 | `find` for `d(.*?)d` from a position: a match it reports starts at or after that position and spans at least two delimiters |
| Patterns.FindDelimitedLeast | app/src/main/java/com/example/markdownapp/parsers/MarkdownParser.kt:16-18 | `find` for `d(.*?)d` returns a match with the least start and, at that start, the shortest one; it returns nothing only when the pattern matches nowhere from the search position |
| Patterns.FindAllDelimited | app/src/main/java/com/example/markdownapp/parsers/MarkdownParser.kt:73-98 | `findAll`, each search resuming where the previous match ended: every match lies in the searched part of the line and spans at least two delimiters |
| Patterns.FindAllOrdered | app/src/main/java/com/example/markdownapp/parsers/MarkdownParser.kt:73-98 | every match `findAll` yields is a match of the pattern, after the start position, and each ends before the next begins |
| Patterns.FindAllCovers | app/src/main/java/com/example/markdownapp/parsers/MarkdownParser.kt:73-98 | every position where the pattern could start lies inside one of the matches `findAll` yields |
| Patterns.FindNextPair | app/src/main/java/com/example/markdownapp/parsers/MarkdownParser.kt:17-18 | for `*` or a backquote on a line without terminators, `find` pairs the next two occurrences of the character, or finds nothing when fewer than two are left |
| Patterns.SingleDelimiterPairs | app/src/main/java/com/example/markdownapp/parsers/MarkdownParser.kt:17-18 | for a one-character delimiter, on a line without line terminators, `findAll` pairs the 1st occurrence with the 2nd, the 3rd with the 4th, and so on; an odd last one is left alone |
| Patterns.FindImageFrom | app/src/main/java/com/example/markdownapp/parsers/MarkdownParser.kt:20 | the image `find`: a match it reports starts at or after the search position, with `![`, the alt text, `](`, the url and `)` in that order inside the line |
| Patterns.FindImageLeast | app/src/main/java/com/example/markdownapp/parsers/MarkdownParser.kt:20 | the image `find` returns the match with the least start, then the least alt end, then the least url end; nothing only when `!\[(.*?)\]\((.*?)\)` matches nowhere |
| Patterns.ImageParts | app/src/main/java/com/example/markdownapp/parsers/MarkdownParser.kt:47-49 | the alt text and the url taken from an image line hold no line terminator, and the url holds no `)` |
| MarkdownParser.TrimAll | app/src/main/java/com/example/markdownapp/parsers/MarkdownParser.kt:66 | one trimmed piece for each piece, in order |
| MarkdownParser.KeepCells | app/src/main/java/com/example/markdownapp/parsers/MarkdownParser.kt:67 | every piece it keeps is non-empty and not all dashes; a piece is in the result exactly when it is such a piece of the input; the result is a subsequence of the input, in the original order |
| MarkdownParser.KeepCellsCount | app/src/main/java/com/example/markdownapp/parsers/MarkdownParser.kt:67 | each non-empty, not all-dash piece is kept as many times as it occurs, and no other piece is kept; with the subsequence this fixes the result |
| MarkdownParser.ParseTableRow | app/src/main/java/com/example/markdownapp/parsers/MarkdownParser.kt:64-68 | the row is a subsequence of the trimmed `|`-separated pieces of the line, in their order |
| MarkdownParser.TableRowCount | app/src/main/java/com/example/markdownapp/parsers/MarkdownParser.kt:64-68 | the row holds each non-empty, not all-dash trimmed piece of the line as often as the line does, and nothing else |
| MarkdownParser.TableRowCells | app/src/main/java/com/example/markdownapp/parsers/MarkdownParser.kt:64-68 | every cell of a parsed row is non-empty, not all dashes, and free of bars |
| MarkdownParser.SetSpans | app/src/main/java/com/example/markdownapp/parsers/MarkdownParser.kt:73-80 | the `findAll ... forEach setSpan` loop appends one span of its style per match, in match order, to the spans already set |
| MarkdownParser.ProcessInlineMarkdown | app/src/main/java/com/example/markdownapp/parsers/MarkdownParser.kt:70-101 | the three loops leave exactly the bold spans, then the italic spans, then the code spans of the line |
| MarkdownParser.SpansOfMatch | app/src/main/java/com/example/markdownapp/parsers/MarkdownParser.kt:73-80 | the spans of one style all have that style, each covers a match of its pattern, and they are ordered and disjoint |
| MarkdownParser.SpansOfCover | app/src/main/java/com/example/markdownapp/parsers/MarkdownParser.kt:73-80 | every position where a style's pattern matches lies inside a span of that style |
| MarkdownParser.InlineSpansMatch | app/src/main/java/com/example/markdownapp/parsers/MarkdownParser.kt:70-101 | every span set on a line covers a match of its style's pattern; bold spans come before italic before code; spans of one style do not overlap |
| MarkdownParser.InlineSpansCover | app/src/main/java/com/example/markdownapp/parsers/MarkdownParser.kt:70-101 | no match is missed: every match position lies inside a span of its own style |
| MarkdownParser.Step | app/src/main/java/com/example/markdownapp/parsers/MarkdownParser.kt:29-59 | the `when` on one line, branches in source order; it only appends to the elements, at most one per line |
| MarkdownParser.Fallback | app/src/main/java/com/example/markdownapp/parsers/MarkdownParser.kt:47-57 | the image branch and the `else` branch: they neither open nor close a table, append at most one element, and never a table |
| MarkdownParser.Run | app/src/main/java/com/example/markdownapp/parsers/MarkdownParser.kt:29-59 | the `forEach` over the lines keeps the elements so far and adds at most one per line |
| MarkdownParser.Document | app/src/main/java/com/example/markdownapp/parsers/MarkdownParser.kt:22-62 | the elements after the last line, an open table left out; at most one per line of the text |
| MarkdownParser.ParseLine | app/src/main/java/com/example/markdownapp/parsers/MarkdownParser.kt:29-59 | the `when` on one line updates `elements`, `inTable` and `tableRows` as the step function says, and appends at most one element |
| MarkdownParser.Parse | app/src/main/java/com/example/markdownapp/parsers/MarkdownParser.kt:22-62 | the line loop returns the document of the text, with at most one element per line |
| MarkdownParser.HeadingWellFormed | app/src/main/java/com/example/markdownapp/parsers/MarkdownParser.kt:31-34 | a heading line gives a level from 1 to 6 and a text trimmed at both ends |
| MarkdownParser.ImageWellFormed | app/src/main/java/com/example/markdownapp/parsers/MarkdownParser.kt:47-49 | an image line gives alt text and url without line terminators, and a url without `)` |
| MarkdownParser.RowAndTextWellFormed | app/src/main/java/com/example/markdownapp/parsers/MarkdownParser.kt:51-57 | a fallback line gives a row of proper cells, or a text element whose spans are well formed |
| MarkdownParser.StepConsistent | app/src/main/java/com/example/markdownapp/parsers/MarkdownParser.kt:29-59 | one line keeps the loop invariant: a table is open exactly when rows are pending, all rows are proper, and all elements are well formed; elements are only appended, at most one per line |
| MarkdownParser.TableLineConsistent | app/src/main/java/com/example/markdownapp/parsers/MarkdownParser.kt:35-41 | a table line keeps the invariant and emits no element |
| MarkdownParser.FallbackConsistent | app/src/main/java/com/example/markdownapp/parsers/MarkdownParser.kt:47-57 | the image and fallback branches keep the invariant and append at most one element |
| MarkdownParser.ImageConsistent | app/src/main/java/com/example/markdownapp/parsers/MarkdownParser.kt:47-49 | an image line appends the image with the groups `find` returns, even inside a table, and keeps the invariant |
| MarkdownParser.RunConsistent | app/src/main/java/com/example/markdownapp/parsers/MarkdownParser.kt:29-59 | the invariant holds after any number of lines, and each line adds at most one element |
| MarkdownParser.DocumentWellFormed | app/src/main/java/com/example/markdownapp/parsers/MarkdownParser.kt:22-62 | every element `parse` returns is well formed, and there are at most as many elements as lines |
| MarkdownParser.StepEmitsTable | app/src/main/java/com/example/markdownapp/parsers/MarkdownParser.kt:42-46 | a table element is emitted exactly when a blank line meets an open table; it holds the pending rows and closes the table |
| MarkdownParser.OpenTableLine | app/src/main/java/com/example/markdownapp/parsers/MarkdownParser.kt:35-57 | while a table is open, a non-blank line never closes it: it becomes a row, or a heading or image emitted ahead of the table |
| MarkdownParser.TrailingNewline | app/src/main/java/com/example/markdownapp/parsers/MarkdownParser.kt:23-46 | a final newline adds an empty last line: it emits the still open table, or else an empty text element |
| ParserExamples.EmptyInput | app/src/main/java/com/example/markdownapp/parsers/MarkdownParser.kt:22-62 | the empty text gives one empty text element |
| ParserExamples.HeadingLine | app/src/main/java/com/example/markdownapp/parsers/MarkdownParser.kt:31-34 | a heading line appends a heading in any state, leaving an open table and its rows untouched |
| ParserExamples.TwoHeadings | app/src/main/java/com/example/markdownapp/parsers/MarkdownParser.kt:22-62 | two heading lines joined by a newline give the two headings, with their texts trimmed |
| ParserExamples.TableRun | app/src/main/java/com/example/markdownapp/parsers/MarkdownParser.kt:35-41 | a run of table lines opens the table if needed, adds one row per line, and emits nothing |
| ParserExamples.LoneTableLine | app/src/main/java/com/example/markdownapp/parsers/MarkdownParser.kt:35-61 | a table line as the whole input gives no element: the open table is dropped at the end |
| ParserExamples.TableBlock | app/src/main/java/com/example/markdownapp/parsers/MarkdownParser.kt:35-46 | table lines, each followed by a newline, give one table with one row per line |
| ParserExamples.SeparatorRow | app/src/main/java/com/example/markdownapp/parsers/MarkdownParser.kt:64-68 | a row made only of bars and dashes has no cells, so the table keeps an empty row for it |
| ParserExamples.BoldWholeText | app/src/main/java/com/example/markdownapp/parsers/MarkdownParser.kt:73-80 | on a line `**x**` with no `*` inside, the bold `findAll` yields one match over the whole line |
| ParserExamples.ItalicEnds | app/src/main/java/com/example/markdownapp/parsers/MarkdownParser.kt:82-89 | on a line `**x**` the italic `findAll` pairs the two leading stars and the two trailing ones |
| ParserExamples.BoldWord | app/src/main/java/com/example/markdownapp/parsers/MarkdownParser.kt:70-101 | a bold word gets a bold span over the whole line, italic spans over both `**`, and no code span |
| ParserExamples.BoldExample | app/src/main/java/com/example/markdownapp/parsers/MarkdownParser.kt:70-101 | `**b**` gets bold over [0, 5) and italic over [0, 2) and [3, 5) |
| ParserExamples.HeadingTest | app/src/test/java/com/example/markdownapp/MarkdownParserTest.kt:14-26 | `# Heading 1` newline `## Heading 2` gives a level-1 heading `Heading 1` and a level-2 heading `Heading 2` |
| ParserExamples.TwoCellRow | app/src/main/java/com/example/markdownapp/parsers/MarkdownParser.kt:64-68 | the row bar, `x`, bar, `y`, bar, with trimmed, kept cells `x` and `y` gives exactly the row `[x, y]` |
| ParserExamples.TwoCellLine | app/src/main/java/com/example/markdownapp/parsers/MarkdownParser.kt:19 | the five-character row bar, `a`, bar, `b`, bar, with letters or digits, matches the table pattern and gives the row `[a, b]` |
| ParserExamples.SeparatorLine | app/src/main/java/com/example/markdownapp/parsers/MarkdownParser.kt:64-68 | the separator row bar, dash, bar, dash, bar matches the table pattern and gives an empty row |
| ParserExamples.TableTestRows | app/src/main/java/com/example/markdownapp/parsers/MarkdownParser.kt:64-68 | the header row of `a` and `b`, the separator row, and the row of `1` and `2` give the rows `[a, b]`, `[]`, `[1, 2]` |
| ParserExamples.ThreeLineTable | app/src/main/java/com/example/markdownapp/parsers/MarkdownParser.kt:22-62 | three table lines, each ended by a newline, give exactly one table holding their three rows |
| ParserExamples.TableTest | app/src/main/java/com/example/markdownapp/parsers/MarkdownParser.kt:22-62 | those three lines, each ended by a newline, give one table with those three rows |
| ParserExamples.LoneTableTest | app/src/main/java/com/example/markdownapp/parsers/MarkdownParser.kt:35-38 | the row of `a` and `b` as the whole input gives no element |
| KotlinText.Trim | app/src/main/java/com/example/markdownapp/activities/MainActivity.kt:41 | `trim()` is the slice of the string after its leading whitespace, with only whitespace after it, and starting and ending with a character that is not whitespace |
| KotlinText.TrimEmptyIffBlank | app/src/main/java/com/example/markdownapp/activities/MainActivity.kt:42-44 | `trim()` gives the empty string exactly when the string is blank |
| KotlinText.TrimBlank | app/src/main/java/com/example/markdownapp/activities/MainActivity.kt:42-44 | a trimmed string is blank exactly when the original is |
| KotlinText.Split | app/src/main/java/com/example/markdownapp/parsers/MarkdownParser.kt:23 | `split` gives one piece more than there are separators, and no piece holds the separator |
| KotlinText.SplitJoin | app/src/main/java/com/example/markdownapp/parsers/MarkdownParser.kt:23 | joining the pieces of `split` with the separator gives the text back |
| KotlinText.JoinSplit | app/src/main/java/com/example/markdownapp/parsers/MarkdownParser.kt:23 | splitting a join of separator-free pieces gives the pieces back |
| KotlinText.SplitTrailingSeparator | app/src/main/java/com/example/markdownapp/parsers/MarkdownParser.kt:23 | a trailing separator adds one empty last piece |
| KotlinText.RemoveSuffix | app/src/main/java/com/example/markdownapp/activities/MainActivity.kt:50 | `removeSuffix` gives the string without one copy of the suffix when it ends with it, and otherwise the string itself |
| KotlinText.LowerUpper | app/src/main/java/com/example/markdownapp/activities/MainActivity.kt:129 | folding case after upper-casing is the same as folding case |
| Replace.ReplaceAll | app/src/main/java/com/example/markdownapp/activities/MainActivity.kt:115-121 | `replace` left to right without overlap: a replacement no longer than the pattern never lengthens the string, and one no shorter never shortens it |
| Replace.ReplaceAbsent | app/src/main/java/com/example/markdownapp/activities/MainActivity.kt:116-117 | `replace` leaves a string without occurrences unchanged |
| Replace.ReplaceOccurrences | app/src/main/java/com/example/markdownapp/activities/MainActivity.kt:115-118 | when the replacement cannot help form `p`, every `p` after `replace` was already in the input, and none is left when `p` is the replaced string |
| Replace.ReplaceRoundTrip | app/src/main/java/com/example/markdownapp/activities/MainActivity.kt:99-101 | replacing `a` by `b` and then `b` by `a` restores an input without `b`, when `b` cannot overlap itself |
| MainActivity.ConvertToRawGitHubUrl | app/src/main/java/com/example/markdownapp/activities/MainActivity.kt:113-124 | the three-way `when`; a URL that already names the raw host, without the legacy prefix, is returned as it is |
| MainActivity.ConvertWithoutGitHub | app/src/main/java/com/example/markdownapp/activities/MainActivity.kt:113-124 | a URL that does not mention `github.com` is left unchanged |
| MainActivity.LegacyPrefixTakesFirstBranch | app/src/main/java/com/example/markdownapp/activities/MainActivity.kt:115-121 | a `https://raw.github.com/` URL that does not mention the raw host takes the first branch, not the legacy-prefix branch |
| MainActivity.FirstBranchClearsHost | app/src/main/java/com/example/markdownapp/activities/MainActivity.kt:115-118 | the first branch leaves no `github.com` in the URL |
| MainActivity.LegacyBranchPrefix | app/src/main/java/com/example/markdownapp/activities/MainActivity.kt:119-121 | the legacy-prefix branch yields a URL that starts with `https://raw.githubusercontent.com/` |
| MainActivity.ConvertIdempotent | app/src/main/java/com/example/markdownapp/activities/MainActivity.kt:113-124 | converting an already converted URL changes nothing |
| MainActivity.BlobPathRewrite | app/src/main/java/com/example/markdownapp/activities/MainActivity.kt:117 | in a path `/owner/repo/blob/branch/file` the `/blob/` segment becomes `/`, and nothing else changes |
| MainActivity.BlobLinkRewrite | app/src/main/java/com/example/markdownapp/activities/MainActivity.kt:115-118 | the page link `https://github.com/owner/repo/blob/branch/file` becomes `https://raw.githubusercontent.com/owner/repo/branch/file` |
| MainActivity.BlobExample | app/src/main/java/com/example/markdownapp/activities/MainActivity.kt:115-118 | `https://github.com/u/r/blob/main/f.md` becomes `https://raw.githubusercontent.com/u/r/main/f.md` |
| MainActivity.LegacyQuirk | app/src/main/java/com/example/markdownapp/activities/MainActivity.kt:115-121 | a legacy raw link without the raw host comes out as `https://raw.raw.githubusercontent.com` followed by its rewritten path |
| MainActivity.LegacyQuirkMissesRawPrefix | app/src/main/java/com/example/markdownapp/activities/MainActivity.kt:115-121 | so the converted legacy link does not start with `https://raw.githubusercontent.com/` |
| MainActivity.LegacyQuirkExample | app/src/main/java/com/example/markdownapp/activities/MainActivity.kt:115-121 | `https://raw.github.com/x` becomes `https://raw.raw.githubusercontent.com/x` |
| MainActivity.PreparedUrl | app/src/main/java/com/example/markdownapp/activities/MainActivity.kt:42-50 | the field after `trim()` loses exactly one trailing `/` if it has one, and is otherwise unchanged |
| MainActivity.OneSlashRemoved | app/src/main/java/com/example/markdownapp/activities/MainActivity.kt:50 | only one slash is removed: a field ending in `//` still ends in `/` |
| MainActivity.LoadFromUrl | app/src/main/java/com/example/markdownapp/activities/MainActivity.kt:41-65 | a blank field gives exactly the "enter a URL" error; a non-blank one without a host gives exactly the format error; otherwise the converted, prepared URL is downloaded |
| MainActivity.AlternativeUrl | app/src/main/java/com/example/markdownapp/activities/MainActivity.kt:99-101 | the suggestion: every `https://` becomes `http://`, then every `http://` becomes `https://` |
| MainActivity.AlternativeUrlSecure | app/src/main/java/com/example/markdownapp/activities/MainActivity.kt:98-102 | the suggested URL never contains `http://` |
| MainActivity.AlternativeUrlUnchanged | app/src/main/java/com/example/markdownapp/activities/MainActivity.kt:99-101 | for a URL without `http://` the suggestion is the URL itself |
| MainActivity.DownloadErrorMessage | app/src/main/java/com/example/markdownapp/activities/MainActivity.kt:88-111 | "not found" for a GitHub URL suggests the alternative URL, which holds no `http://`; "not found" elsewhere gives the plain message; any other failure starts with the load-error prefix |
| MainActivity.AfterDownload | app/src/main/java/com/example/markdownapp/activities/MainActivity.kt:67-84 | the viewer opens with the content exactly when the download succeeded with non-blank content; blank content gives the empty-file message; a failure gives its error message |
| MainActivity.IsValidMarkdownUrl | app/src/main/java/com/example/markdownapp/activities/MainActivity.kt:126-132 | the case-insensitive full match of the raw-link pattern; an accepted URL has at least 33 characters |
| MainActivity.ValidMarkdownUrlIff | app/src/main/java/com/example/markdownapp/activities/MainActivity.kt:126-132 | the check accepts exactly the URLs whose case-folded form is `http://` or `https://`, an optional `raw.`, `githubusercontent.com/`, a non-empty part without line terminators, and `.md` |
| MainActivity.ValidMarkdownUrlIgnoresCase | app/src/main/java/com/example/markdownapp/activities/MainActivity.kt:129 | upper-casing a URL does not change the verdict |
| Editor.Insert | app/src/main/java/com/example/markdownapp/activities/EditorActivity.kt:31 | inserting keeps the text before the position, puts the piece there, and shifts the rest after it |
| Editor.ReplaceRange | app/src/main/java/com/example/markdownapp/activities/EditorActivity.kt:36 | replacing a range keeps the text before it, puts the piece there, and keeps the text after it |
| Editor.WrappedPieces | app/src/main/java/com/example/markdownapp/activities/EditorActivity.kt:25-39 | the wrapped text is the text before the selection, the wrapper, the selected text, the wrapper, and the text after it |
| Editor.UnwrapWrapped | app/src/main/java/com/example/markdownapp/activities/EditorActivity.kt:25-39 | wrapping grows the text by twice the wrapper, and taking the two wrappers out gives the original text back |
| Editor.CursorPlacement | app/src/main/java/com/example/markdownapp/activities/EditorActivity.kt:32-37 | after a wrap the cursor sits right after a wrapper; with an empty selection it sits between the two wrappers |
| Editor.MarkdownEditor.constructor | app/src/main/java/com/example/markdownapp/activities/EditorActivity.kt:16-17 | the text is the `content` extra, or empty when there is none |
| Editor.MarkdownEditor.WrapSelection | app/src/main/java/com/example/markdownapp/activities/EditorActivity.kt:25-39 | the text becomes the wrapped text and the cursor moves to where the two branches put it; the selection stays valid |
| Editor.MarkdownEditor.Press | app/src/main/java/com/example/markdownapp/activities/EditorActivity.kt:19-21 | a toolbar button wraps the selection in its style's delimiter |
| Editor.ToolbarWrapper | app/src/main/java/com/example/markdownapp/activities/EditorActivity.kt:19-21 | each button's wrapper is the delimiter of the parser's pattern for that style |
| Editor.BoldButtonMakesBold | app/src/main/java/com/example/markdownapp/activities/EditorActivity.kt:19 | selecting a whole word and pressing bold gives a line that the parser shows bold from end to end |
| NetworkUtils.IsValidMarkdownUrl | app/src/main/java/com/example/markdownapp/utils/NetworkUtils.kt:35-38 | the case-sensitive `startsWith` and `endsWith` test; an accepted URL is an https URL |
| NetworkUtils.ValidUrlLength | app/src/main/java/com/example/markdownapp/utils/NetworkUtils.kt:35-38 | the prefix and the suffix cannot overlap, so an accepted URL has at least 37 characters |
| NetworkUtils.ValidUrlIff | app/src/main/java/com/example/markdownapp/utils/NetworkUtils.kt:35-38 | the accepted URLs are exactly the raw prefix, any path, and `.md` |
| NetworkUtils.UpperCaseRejected | app/src/main/java/com/example/markdownapp/utils/NetworkUtils.kt:35-38 | the test is case-sensitive: no upper-cased URL is accepted |
| NetworkUtils.LowerAcceptedUrl | app/src/main/java/com/example/markdownapp/utils/NetworkUtils.kt:35-38 | case folding an accepted URL changes only its path |
| NetworkUtils.AcceptedByScreenCheck | app/src/main/java/com/example/markdownapp/utils/NetworkUtils.kt:35-38 | a URL this test accepts, with a non-empty path and no line break, is also accepted by the screen's regex check |
| NetworkUtils.EmptyPathDisagrees | app/src/main/java/com/example/markdownapp/utils/NetworkUtils.kt:35-38 | `https://raw.githubusercontent.com/.md` passes this test but not the screen's regex check |

## Left out

- Strings are sequences of Unicode scalar values. Kotlin indexes strings in UTF-16 code units, so span offsets differ for characters outside the Basic Multilingual Plane.
- Regular expressions are not modelled in general. Only the six fixed patterns of the parser and the one of `isValidMarkdownUrl` are modelled, each as a scanner.
- The scanners use the character classes of the JVM's `java.util.regex`: `\s` is space, tab, newline, vertical tab, form feed and carriage return; `.` refuses `\n`, `\r`, `\u0085`, `\u2028` and `\u2029`; `CASE_INSENSITIVE` folds ASCII letters only. On Android the same API runs on ICU, whose `\s` also matches the Unicode space separators such as the no-break space and does not match the vertical tab, and whose `.` also refuses the vertical tab and form feed. So a line such as `#`, no-break space, `T` is a heading on a device but not in this model.
- `Uri.parse(url).host` is Android framework code and is not part of this model. It becomes the `hasHost` parameter of `LoadFromUrl`; an exception thrown by the parse counts as no host.
- The download is left out: `NetworkUtils.downloadTextFile`, the IO coroutine, the ten-second timeouts and the progress bar. The download's result is the `DownloadResult` parameter of `AfterDownload`.
- Android UI calls are left out: toasts, `setContentView`, starting the viewer, and `saveAndPreview` (which only starts the viewer with the text).
- `onActivityResult`, `openFilePicker`, `FileUtils`, `ImageCache`, `downloadImage`, `MarkdownAdapter` and `ViewerActivity` are outside the core and are not part of this model.
- A `SpannableString` becomes the line with its list of spans. The spans' rendering (typeface, monospace) is not modelled.
- Editor.MarkdownEditor.WrapSelection: a selection made backwards, where Android reports `selectionStart > selectionEnd`, is excluded by the class invariant rather than modelled.
- Editor.MarkdownEditor.constructor: the cursor position of the `EditText` after `setText` is taken to be 0.
