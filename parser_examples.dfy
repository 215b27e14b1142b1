/**
 * The parser model on families of inputs and on the input of the repository's unit test:
 * empty input, lines of headings, a table block with its separator row, a table line left
 * open at the end of the input, and a bold word.
 */
module ParserExamples {
  import opened KotlinText
  import opened Patterns
  import opened MarkdownElement
  import opened MarkdownParser

  /** The empty text is one empty line, which becomes an empty text element. */
  lemma EmptyInput()
    ensures Document("") == [Text("", [])]
  {
    assert Split("", '\n') == [""];
    assert MatchHeading("").None?;
    assert FindImageFrom("", 0).None?;
    assert FindDelimited("", "**", 0).None? && FindDelimited("", "*", 0).None? && FindDelimited("", "`", 0).None?;
    assert InlineSpans("") == [];
    assert Step(Initial, "") == ParserState([Text("", [])], false, []);
    assert Run(Initial, [""]) == Run(Step(Initial, ""), []);
  }

  /** A line of the heading pattern becomes a heading element in any state, open table or not. */
  lemma HeadingLine(st: ParserState, line: string, k: nat, rest: string)
    requires HeadingShape(line, k, rest)
    ensures Step(st, line) == st.(elements := st.elements + [Heading(k, Trim(rest))])
    ensures Run(st, [line]) == Step(st, line)
  {
    MatchHeadingShape(line);
  }

  /**
   * The heading case of the repository's unit test, for any two heading lines: `# ` and
   * `## ` lines separated by one newline give two headings, levels from the hash counts,
   * texts trimmed.
   */
  lemma TwoHeadings(l1: string, k1: nat, r1: string, l2: string, k2: nat, r2: string)
    requires HeadingShape(l1, k1, r1) && HeadingShape(l2, k2, r2)
    requires '\n' !in l1 && '\n' !in l2
    ensures Document(l1 + "\n" + l2) == [Heading(k1, Trim(r1)), Heading(k2, Trim(r2))]
  {
    TwoLines(l1, l2);
    RunTwo(Initial, l1, l2);
    var st1 := Step(Initial, l1);
    HeadingLine(Initial, l1, k1, r1);
    HeadingLine(st1, l2, k2, r2);
    assert Step(st1, l2).elements == [Heading(k1, Trim(r1))] + [Heading(k2, Trim(r2))];
  }

  /** Running over two lines is two steps. */
  lemma RunTwo(st: ParserState, l1: string, l2: string)
    ensures Run(st, [l1, l2]) == Step(Step(st, l1), l2)
  {
    var st1 := Step(st, l1);
    assert [l1, l2][1..] == [l2] && [l2][1..] == [];
    assert Run(st, [l1, l2]) == Run(st1, [l2]);
    assert Run(st1, [l2]) == Run(Step(st1, l2), []);
  }

  /** Two lines without newlines, joined by one, split back into the two. */
  lemma TwoLines(l1: string, l2: string)
    requires '\n' !in l1 && '\n' !in l2
    ensures Split(l1 + "\n" + l2, '\n') == [l1, l2]
  {
    SplitFirst(l1, l2, '\n');
    SplitNone(l2, '\n');
  }

  /** A line of the table pattern has no newline and is never a heading. */
  lemma TableLineNotHeading(line: string)
    requires IsTableLine(line)
    ensures '\n' !in line && MatchHeading(line).None?
  {
    assert CountLeading(line, '#') == 0;
  }

  /** A line of the table pattern is classified by the two table branches of the `when`. */
  lemma TableLineStep(st: ParserState, line: string)
    requires IsTableLine(line)
    ensures Step(st, line) == ParserState(st.elements, true, st.tableRows + [ParseTableRow(line)])
  {
    TableLineNotHeading(line);
  }

  /** The cells of each line, in order: the rows a block of table lines collects. */
  function Rows(lines: seq<string>): (rows: seq<seq<string>>)
    ensures |rows| == |lines| && forall k :: 0 <= k < |lines| ==> rows[k] == ParseTableRow(lines[k])
  {
    if lines == [] then [] else [ParseTableRow(lines[0])] + Rows(lines[1..])
  }

  /** Every line matches the table pattern. */
  predicate AllTableLines(lines: seq<string>) {
    forall k :: 0 <= k < |lines| ==> IsTableLine(lines[k])
  }

  /** The first of several lines, a table line, is folded into the table rows. */
  lemma TableRunHead(st: ParserState, lines: seq<string>)
    requires lines != [] && IsTableLine(lines[0])
    ensures Run(st, lines) == Run(ParserState(st.elements, true, st.tableRows + [ParseTableRow(lines[0])]), lines[1..])
  {
    TableLineStep(st, lines[0]);
  }

  /** Table lines open the table if needed and add one row each; no element is emitted. */
  lemma {:induction false} TableRun(st: ParserState, lines: seq<string>)
    requires AllTableLines(lines)
    ensures Run(st, lines) ==
      if lines == [] then st else ParserState(st.elements, true, st.tableRows + Rows(lines))
    decreases |lines|
  {
    if lines != [] {
      var st1 := ParserState(st.elements, true, st.tableRows + [ParseTableRow(lines[0])]);
      TableRunHead(st, lines);
      TableLinesTail(lines);
      TableRun(st1, lines[1..]);
      RowsHead(st.tableRows, lines);
    }
  }

  /** The lines after the first of a run of table lines are a run of table lines. */
  lemma TableLinesTail(lines: seq<string>)
    requires lines != [] && AllTableLines(lines)
    ensures AllTableLines(lines[1..])
  {
    forall k | 0 <= k < |lines| - 1 ensures IsTableLine(lines[1..][k]) {
      assert lines[1..][k] == lines[k + 1];
    }
  }

  /** Adding the first row, then the rows of the rest, adds the rows of all the lines. */
  lemma RowsHead(rows: seq<seq<string>>, lines: seq<string>)
    requires lines != []
    ensures (rows + [ParseTableRow(lines[0])]) + Rows(lines[1..]) == rows + Rows(lines)
  {
    var h, t := ParseTableRow(lines[0]), Rows(lines[1..]);
    assert Rows(lines) == [h] + t;
    AppendCons(rows, h, t);
  }

  /** Appending one element and then a sequence is appending the element's sequence. */
  lemma AppendCons<T>(xs: seq<T>, h: T, t: seq<T>)
    ensures (xs + [h]) + t == xs + ([h] + t)
  {
  }

  /** A table line as the whole input is dropped: the table is still open when the input ends. */
  lemma LoneTableLine(line: string)
    requires IsTableLine(line)
    ensures Document(line) == []
  {
    TableLineNotHeading(line);
    SplitNone(line, '\n');
    TableRun(Initial, [line]);
  }

  /**
   * A block of table lines, each followed by a newline, is one table holding one row per
   * line; the empty line after the last newline closes it.
   */
  lemma TableBlock(lines: seq<string>)
    requires lines != [] && AllTableLines(lines)
    ensures Document(Join(lines, '\n') + "\n") == [Table(Rows(lines))]
  {
    forall k | 0 <= k < |lines| ensures '\n' !in lines[k] {
      TableLineNotHeading(lines[k]);
    }
    JoinSplit(lines, '\n');
    TableRun(Initial, lines);
    assert [] + Rows(lines) == Rows(lines);
    var last := Run(Initial, Split(Join(lines, '\n'), '\n'));
    assert last == ParserState([], true, Rows(lines));
    TrailingNewline(Join(lines, '\n'));
  }

  /** A separator row such as `|-|-|` has no cells: its row in the table is empty. */
  lemma SeparatorRow(line: string)
    requires forall i :: 0 <= i < |line| ==> line[i] == '|' || line[i] == '-'
    ensures ParseTableRow(line) == []
  {
    var pieces := Split(line, '|');
    var trimmed := TrimAll(pieces);
    SplitChars(line, '|');
    forall k | 0 <= k < |trimmed| ensures !KeepCell(trimmed[k]) {
      DashPiece(line, pieces[k]);
    }
    NothingKept(trimmed);
  }

  /** A piece of a line of `|` and `-`, without `|`, trims to itself and is empty or all dashes. */
  lemma DashPiece(line: string, p: string)
    requires forall i :: 0 <= i < |line| ==> line[i] == '|' || line[i] == '-'
    requires (forall i :: 0 <= i < |p| ==> p[i] in line) && '|' !in p
    ensures !KeepCell(Trim(p))
  {
    forall i | 0 <= i < |p| ensures p[i] == '-' {
      assert p[i] in line && p[i] != '|';
    }
    assert !IsWhitespace('-');
    TrimmedAlready(p);
  }

  /** When no piece is worth keeping, the row is empty. */
  lemma {:induction false} NothingKept(trimmed: seq<string>)
    requires forall k :: 0 <= k < |trimmed| ==> !KeepCell(trimmed[k])
    ensures KeepCells(trimmed) == []
  {
    if trimmed != [] {
      NothingKept(trimmed[1..]);
    }
  }

  /** Positions that hold no `c` add nothing to the list of occurrences. */
  lemma {:induction false} PositionsSkip(text: string, c: char, from: nat, to: nat)
    requires from <= to <= |text|
    requires forall i :: from <= i < to ==> text[i] != c
    ensures Positions(text, c, from) == Positions(text, c, to)
    decreases |text| - from
  {
    if from < to {
      PositionsSkip(text, c, from + 1, to);
    }
  }

  /** `**x**` has one bold match, the whole text, and no other from `from = 0`. */
  lemma BoldWholeText(text: string, n: nat)
    requires n == |text| >= 5 && text[..2] == "**" && text[n - 2..] == "**"
    requires forall i :: 2 <= i < n - 2 ==> text[i] != '*'
    requires NoLineTerminator(text)
    ensures FindAllDelimited(text, "**", 0) == [(0, n)]
  {
    var inner := text[2..n - 2];
    assert forall i :: 0 <= i < |inner| ==> inner[i] == text[i + 2];
    assert DelimitedAt(text, "**", 0, n);
    FindDelimitedLeast(text, "**", 0);
    var r := FindDelimited(text, "**", 0);
    assert r.Some? && r.value.0 == 0;
    var e := r.value.1;
    assert DelimitedAt(text, "**", 0, e);
    assert text[e - 2] == text[e - 2..e][0] == '*';
    assert r == Some((0, n));
    assert FindDelimited(text, "**", n).None?;
    assert FindAllDelimited(text, "**", 0) == [(0, n)] + FindAllDelimited(text, "**", n);
  }

  /**
   * A bold word `**x**` (no `*` or backquote inside) gets a bold span over the whole text
   * and, since the italic pattern runs on the same text, italic spans over the two `**`.
   */
  lemma BoldWord(x: string)
    requires x != [] && '*' !in x && '`' !in x && NoLineTerminator(x)
    ensures var n := |x| + 4;
      InlineSpans("**" + x + "**") == [Span(Bold, 0, n), Span(Italic, 0, 2), Span(Italic, n - 2, n)]
  {
    var text := "**" + x + "**";
    var n := |text|;
    BoldWordText(x, text);
    BoldWholeText(text, n);
    ItalicEnds(text, n);
    PositionsSkip(text, '`', 0, n);
    SingleDelimiterPairs(text, '`', 0);
    assert SpansOf(text, Bold) == [Span(Bold, 0, n)];
    assert SpansOf(text, Italic) == [Span(Italic, 0, 2), Span(Italic, n - 2, n)];
    assert SpansOf(text, Code) == [];
  }

  /** The characters of `**x**`: two stars at each end, neither star nor backquote between. */
  lemma BoldWordText(x: string, text: string)
    requires x != [] && '*' !in x && '`' !in x && NoLineTerminator(x)
    requires text == "**" + x + "**"
    ensures var n := |text|;
      n >= 5 && text[..2] == "**" && text[n - 2..] == "**" &&
      (forall i :: 2 <= i < n - 2 ==> text[i] != '*') &&
      (forall i :: 0 <= i < n ==> text[i] != '`') &&
      NoLineTerminator(text)
  {
    var n := |text|;
    assert forall i :: 2 <= i < n - 2 ==> text[i] == x[i - 2];
    forall i | 0 <= i < n ensures !IsLineTerminator(text[i]) && text[i] != '`' {
      if 2 <= i < n - 2 { assert text[i] == x[i - 2]; }
    }
  }

  /** In `**x**` the italic pattern pairs the two leading `*` and the two trailing ones. */
  lemma ItalicEnds(text: string, n: nat)
    requires n == |text| >= 5 && text[..2] == "**" && text[n - 2..] == "**"
    requires forall i :: 2 <= i < n - 2 ==> text[i] != '*'
    requires NoLineTerminator(text)
    ensures FindAllDelimited(text, "*", 0) == [(0, 2), (n - 2, n)]
  {
    assert text[0] == '*' && text[1] == '*' && text[n - 2] == '*' && text[n - 1] == '*';
    PositionsSkip(text, '*', 2, n - 2);
    assert Positions(text, '*', n - 1) == [n - 1];
    assert Positions(text, '*', n - 2) == [n - 2, n - 1];
    assert Positions(text, '*', 1) == [1, n - 2, n - 1];
    assert Positions(text, '*', 0) == [0, 1, n - 2, n - 1];
    SingleDelimiterPairs(text, '*', 0);
    assert PairUp([n - 2, n - 1]) == [(n - 2, n)] + PairUp([]);
    assert [0, 1, n - 2, n - 1][2..] == [n - 2, n - 1];
  }

  // ---------------------------------------------------------------- concrete inputs

  /** The heading case of the repository's unit test, on its own input. */
  lemma HeadingTest(l1: string, l2: string)
    requires l1 == "# Heading 1" && l2 == "## Heading 2"
    ensures Document(l1 + "\n" + l2) == [Heading(1, "Heading 1"), Heading(2, "Heading 2")]
  {
    HeadingOne(l1);
    HeadingTwo(l2);
    TwoHeadings(l1, 1, l1[2..], l2, 2, l2[3..]);
  }

  /** `# Heading 1` is a level-1 heading line whose text is already trimmed. */
  lemma HeadingOne(line: string)
    requires line == "# Heading 1"
    ensures HeadingShape(line, 1, line[2..]) && '\n' !in line && Trim(line[2..]) == "Heading 1"
  {
    TrimmedAlready(line[2..]);
  }

  /** `## Heading 2` is a level-2 heading line whose text is already trimmed. */
  lemma HeadingTwo(line: string)
    requires line == "## Heading 2"
    ensures HeadingShape(line, 2, line[3..]) && '\n' !in line && Trim(line[3..]) == "Heading 2"
  {
    TrimmedAlready(line[3..]);
  }

  /** `**b**`: bold over [0, 5), italic over [0, 2) and [3, 5), no code span. */
  lemma BoldExample()
    ensures InlineSpans("**b**") == [Span(Bold, 0, 5), Span(Italic, 0, 2), Span(Italic, 3, 5)]
  {
    BoldWord("b");
    assert "**" + "b" + "**" == "**b**";
  }

  /** A row `|x|y|` with two trimmed, kept cells has exactly those two cells. */
  lemma TwoCellRow(x: string, y: string)
    requires '|' !in x && '|' !in y && KeepCell(x) && KeepCell(y)
    requires !IsWhitespace(x[0]) && !IsWhitespace(x[|x| - 1])
    requires !IsWhitespace(y[0]) && !IsWhitespace(y[|y| - 1])
    ensures ParseTableRow("|" + x + "|" + y + "|") == [x, y]
  {
    var pieces: seq<string> := [[], x, y, []];
    TwoCellPieces(x, y);
    TrimmedAlready(x);
    TrimmedAlready(y);
    TrimmedAlready([]);
    TrimAllKeeps(pieces);
    KeepTwo(x, y);
  }

  /** Pieces that are already trimmed are left alone by `TrimAll`. */
  lemma TrimAllKeeps(pieces: seq<string>)
    requires forall k :: 0 <= k < |pieces| ==> Trim(pieces[k]) == pieces[k]
    ensures TrimAll(pieces) == pieces
  {
    var t := TrimAll(pieces);
    assert |t| == |pieces| && forall k :: 0 <= k < |t| ==> t[k] == pieces[k];
  }

  /** Of the pieces around the bars of `|x|y|`, the two outer empty ones are dropped. */
  lemma KeepTwo(x: string, y: string)
    requires KeepCell(x) && KeepCell(y)
    ensures KeepCells([[], x, y, []]) == [x, y]
  {
    var pieces: seq<string> := [[], x, y, []];
    assert pieces[1..] == [x, y, []] && [x, y, []][1..] == [y, []] && [y, []][1..] == [[]];
    assert KeepCells(pieces) == KeepCells([x, y, []]);
    assert KeepCells([x, y, []]) == [x] + KeepCells([y, []]);
    assert KeepCells([y, []]) == [y] + KeepCells([[]]);
  }

  /** The pieces of `|x|y|` around its three bars. */
  lemma TwoCellPieces(x: string, y: string)
    requires '|' !in x && '|' !in y
    ensures Split("|" + x + "|" + y + "|", '|') == [[], x, y, []]
  {
    var line := "|" + x + "|" + y + "|";
    assert line == [] + ['|'] + (x + ['|'] + (y + ['|'] + []));
    SplitFirst([], x + ['|'] + (y + ['|'] + []), '|');
    SplitFirst(x, y + ['|'] + [], '|');
    SplitFirst(y, [], '|');
  }

  /** Three pieces joined: the separator between the first and second and the second and third. */
  lemma JoinThree(a: string, b: string, c: string, sep: char)
    ensures Join([a, b, c], sep) == a + [sep] + b + [sep] + c
  {
    assert [a, b, c][1..] == [b, c];
    assert [b, c][1..] == [c];
    assert Join([b, c], sep) == b + [sep] + c;
    assert Join([a, b, c], sep) == a + [sep] + (b + [sep] + c);
  }

  /** A lower-case ASCII letter or a digit: neither a delimiter, a dash nor whitespace. */
  predicate Alnum(c: char) {
    'a' <= c <= 'z' || '0' <= c <= '9'
  }

  /** A line `|a|b|` of two one-character cells matches the table pattern and has those two cells. */
  lemma TwoCellLine(line: string, a: char, b: char)
    requires Alnum(a) && Alnum(b) && line == ['|', a, '|', b, '|']
    ensures IsTableLine(line) && ParseTableRow(line) == [[a], [b]]
  {
    assert IsTableLine(line) by {
      assert forall i :: 0 <= i < 5 ==> line[i] in {'|', a, b};
    }
    AlnumCell(a);
    AlnumCell(b);
    FiveChars(line, a, b);
    TwoCellRow([a], [b]);
  }

  /** The line `|a|b|` spelled as concatenation. */
  lemma FiveChars(line: string, a: char, b: char)
    requires line == ['|', a, '|', b, '|']
    ensures line == "|" + [a] + "|" + [b] + "|"
  {
  }

  /** A one-character cell of a letter or digit is kept as it is. */
  lemma AlnumCell(a: char)
    requires Alnum(a)
    ensures '|' !in [a] && KeepCell([a]) && !IsWhitespace(a)
  {
    assert [a][0] != '-';
  }

  /** `|-|-|` matches the table pattern and gives an empty row. */
  lemma SeparatorLine(line: string)
    requires line == "|-|-|"
    ensures IsTableLine(line) && ParseTableRow(line) == []
  {
    SeparatorRow(line);
  }

  /** The three rows of the table example: `a`, `b`; nothing; `1`, `2`. */
  lemma TableTestRows(l1: string, l2: string, l3: string)
    requires l1 == "|a|b|" && l2 == "|-|-|" && l3 == "|1|2|"
    ensures IsTableLine(l1) && IsTableLine(l2) && IsTableLine(l3)
    ensures Rows([l1, l2, l3]) == [["a", "b"], [], ["1", "2"]]
  {
    TwoCellLine(l1, 'a', 'b');
    SeparatorLine(l2);
    TwoCellLine(l3, '1', '2');
    RowsThree(l1, l2, l3);
  }

  /** `Rows` of three lines, spelled out. */
  lemma RowsThree(a: string, b: string, c: string)
    ensures Rows([a, b, c]) == [ParseTableRow(a), ParseTableRow(b), ParseTableRow(c)]
  {
  }

  /** The table example: header, separator and one data row, closed by the final newline. */
  lemma TableTest(l1: string, l2: string, l3: string)
    requires l1 == "|a|b|" && l2 == "|-|-|" && l3 == "|1|2|"
    ensures Document(l1 + "\n" + l2 + "\n" + l3 + "\n") == [Table([["a", "b"], [], ["1", "2"]])]
  {
    TableTestRows(l1, l2, l3);
    ThreeLineTable(l1, l2, l3, [["a", "b"], [], ["1", "2"]]);
  }

  /** Three table lines, each ended by a newline, give one table of their rows. */
  lemma ThreeLineTable(l1: string, l2: string, l3: string, rows: seq<seq<string>>)
    requires IsTableLine(l1) && IsTableLine(l2) && IsTableLine(l3)
    requires Rows([l1, l2, l3]) == rows
    ensures Document(l1 + "\n" + l2 + "\n" + l3 + "\n") == [Table(rows)]
  {
    JoinThree(l1, l2, l3, '\n');
    TableBlock([l1, l2, l3]);
  }

  /** A lone table line as in `parse("|a|b|")`: nothing is emitted. */
  lemma LoneTableTest(line: string)
    requires line == "|a|b|"
    ensures Document(line) == []
  {
    TwoCellLine(line, 'a', 'b');
    LoneTableLine(line);
  }
}
