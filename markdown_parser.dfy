/**
 * `MarkdownParser`: one pass over the lines of the input, classifying each line by a fixed
 * priority (heading, table row, end of table, image, fallback) and carrying two pieces of
 * state, `inTable` and the pending `tableRows`.
 *
 * `Parse` and `ProcessInlineMarkdown` are the imperative loops of the source; `Document`
 * and `InlineSpans` are the functions that specify them.
 */
module MarkdownParser {
  import opened KotlinText
  import opened Patterns
  import opened MarkdownElement

  // ---------------------------------------------------------------- parseTableRow

  /** A cell that `parseTableRow` keeps: non-empty and not made only of `-`. */
  predicate KeepCell(cell: string) {
    cell != [] && !AllDashes(cell)
  }

  /** `a` is `b` with some elements left out, the rest in their order. */
  predicate Subsequence(a: seq<string>, b: seq<string>) {
    if a == [] then true
    else if b == [] then false
    else (a[0] == b[0] && Subsequence(a[1..], b[1..])) || Subsequence(a, b[1..])
  }

  /** `pieces.map { it.trim() }` */
  function TrimAll(pieces: seq<string>): (trimmed: seq<string>)
    ensures |trimmed| == |pieces|
    ensures forall k :: 0 <= k < |pieces| ==> trimmed[k] == Trim(pieces[k])
  {
    if pieces == [] then [] else [Trim(pieces[0])] + TrimAll(pieces[1..])
  }

  /** `.filter { it.isNotEmpty() && !it.matches(Regex("^-+$")) }` */
  function KeepCells(trimmed: seq<string>): (cells: seq<string>)
    ensures forall k :: 0 <= k < |cells| ==> KeepCell(cells[k])
    ensures forall c :: c in cells <==> c in trimmed && KeepCell(c)
    ensures Subsequence(cells, trimmed)
  {
    if trimmed == [] then []
    else if KeepCell(trimmed[0]) then [trimmed[0]] + KeepCells(trimmed[1..])
    else KeepCells(trimmed[1..])
  }

  /**
   * The filter keeps every kept piece as many times as it occurs, and no other piece; with
   * `Subsequence` this fixes the result.
   */
  lemma {:induction false} KeepCellsCount(trimmed: seq<string>)
    ensures forall c :: multiset(KeepCells(trimmed))[c] == if KeepCell(c) then multiset(trimmed)[c] else 0
  {
    if trimmed != [] {
      KeepCellsCount(trimmed[1..]);
      assert trimmed == [trimmed[0]] + trimmed[1..];
    }
  }

  /**
   * `parseTableRow`: the `|`-separated pieces of the line, trimmed, without empty and
   * dash-only ones. Every kept piece appears as often as in the line, in the line's order.
   */
  function ParseTableRow(line: string): (cells: seq<string>)
    ensures Subsequence(cells, TrimAll(Split(line, '|')))
  {
    KeepCells(TrimAll(Split(line, '|')))
  }

  /** A row holds each kept trimmed piece of the line as often as the line does, and nothing else. */
  lemma TableRowCount(line: string)
    ensures var trimmed := TrimAll(Split(line, '|'));
      forall c :: multiset(ParseTableRow(line))[c] == if KeepCell(c) then multiset(trimmed)[c] else 0
  {
    KeepCellsCount(TrimAll(Split(line, '|')));
  }

  /** Every cell of a row is non-empty, not a separator, and free of `|`. */
  lemma TableRowCells(line: string)
    ensures forall c :: c in ParseTableRow(line) ==> KeepCell(c) && '|' !in c
  {
    var pieces := Split(line, '|');
    var trimmed := TrimAll(pieces);
    var cells := KeepCells(trimmed);
    assert ParseTableRow(line) == cells;
    forall c | c in cells ensures '|' !in c {
      assert c in trimmed;
      var k :| 0 <= k < |trimmed| && trimmed[k] == c;
      assert '|' !in pieces[k];
      TrimKeepsAbsent(pieces[k], '|');
    }
  }

  // ---------------------------------------------------------------- processInlineMarkdown

  /** The regex behind each span kind: `\*\*(.*?)\*\*`, `\*(.*?)\*` and `` `(.*?)` ``. */
  function Delimiter(style: Style): (d: string)
    ensures |d| > 0
  {
    match style
    case Bold => "**"
    case Italic => "*"
    case Code => "`"
  }

  function StyleSpans(style: Style, ms: seq<(nat, nat)>): (spans: seq<Span>)
    ensures |spans| == |ms|
    ensures forall k :: 0 <= k < |ms| ==> spans[k] == Span(style, ms[k].0, ms[k].1)
  {
    if ms == [] then [] else [Span(style, ms[0].0, ms[0].1)] + StyleSpans(style, ms[1..])
  }

  /** The spans of one style: one per match of `findAll` over the whole line. */
  function SpansOf(text: string, style: Style): seq<Span> {
    StyleSpans(style, FindAllDelimited(text, Delimiter(style), 0))
  }

  /**
   * What `processInlineMarkdown` sets on the line: all bold, then all italic, then all code
   * spans. The method `ProcessInlineMarkdown` computes it with the three loops of the source.
   */
  function InlineSpans(text: string): seq<Span> {
    SpansOf(text, Bold) + SpansOf(text, Italic) + SpansOf(text, Code)
  }

  lemma StyleSpansAppend(style: Style, ms: seq<(nat, nat)>, m: (nat, nat))
    ensures StyleSpans(style, ms + [m]) == StyleSpans(style, ms) + [Span(style, m.0, m.1)]
  {
    if ms != [] { assert (ms + [m])[1..] == ms[1..] + [m]; }
  }

  /** One `findAll(...).forEach { setSpan(...) }` loop, appending to the spans set so far. */
  method SetSpans(text: string, style: Style, spans: seq<Span>) returns (spans': seq<Span>)
    ensures spans' == spans + SpansOf(text, style)
  {
    var d := Delimiter(style);
    spans' := spans;
    var pos := 0;
    ghost var done: seq<(nat, nat)> := [];
    var found := FindDelimited(text, d, pos);
    while found.Some?
      invariant pos <= |text|
      invariant found == FindDelimited(text, d, pos)
      invariant done + FindAllDelimited(text, d, pos) == FindAllDelimited(text, d, 0)
      invariant spans' == spans + StyleSpans(style, done)
      decreases |text| - pos
    {
      var (i, e) := found.value;
      FindAllResume(text, d, done, pos, i, e);
      StyleSpansAppend(style, done, (i, e));
      done := done + [(i, e)];
      spans' := spans' + [Span(style, i, e)];
      pos := e;
      found := FindDelimited(text, d, pos);
    }
    assert done == FindAllDelimited(text, d, 0);
  }

  /** `processInlineMarkdown`: the three span loops over one `SpannableString`, specified by `InlineSpans`. */
  method ProcessInlineMarkdown(text: string) returns (spans: seq<Span>)
    ensures spans == InlineSpans(text)
  {
    spans := SetSpans(text, Bold, []);
    assert spans == SpansOf(text, Bold);
    spans := SetSpans(text, Italic, spans);
    spans := SetSpans(text, Code, spans);
  }

  // ---------------------------------------------------------------- parse

  datatype ParserState = ParserState(elements: seq<Element>, inTable: bool, tableRows: seq<seq<string>>)

  const Initial := ParserState([], false, [])

  /**
   * The `when` of `parse` applied to one line; `ParseLine` is the method that performs it.
   * Elements are only ever appended, at most one per line.
   */
  function Step(st: ParserState, line: string): (next: ParserState)
    ensures st.elements <= next.elements && |next.elements| <= |st.elements| + 1
  {
    var heading := MatchHeading(line);
    if heading.Some? then
      st.(elements := st.elements + [Heading(heading.value.0, Trim(heading.value.1))])
    else if IsTableLine(line) && !st.inTable then
      st.(inTable := true, tableRows := st.tableRows + [ParseTableRow(line)])
    else if IsTableLine(line) && st.inTable then
      st.(tableRows := st.tableRows + [ParseTableRow(line)])
    else if st.inTable && Trim(line) == [] then
      ParserState(st.elements + [Table(st.tableRows)], false, [])
    else Fallback(st, line)
  }

  /**
   * The last two branches of the `when`: an image line, or else a table row or a text line.
   * They never open or close a table, and append at most one element.
   */
  function Fallback(st: ParserState, line: string): (next: ParserState)
    ensures next.inTable == st.inTable
    ensures st.elements <= next.elements && |next.elements| <= |st.elements| + 1
    ensures |next.elements| == |st.elements| + 1 ==> !next.elements[|st.elements|].Table?
  {
    var image := FindImageFrom(line, 0);
    if image.Some? then
      st.(elements := st.elements + [Image(line[image.value.0 + 2..image.value.1],
                                           line[image.value.1 + 2..image.value.2])])
    else if st.inTable then
      st.(tableRows := st.tableRows + [ParseTableRow(line)])
    else
      st.(elements := st.elements + [Text(line, InlineSpans(line))])
  }

  /** The `forEach` over the lines, from state `st`: elements are kept and at most one is added per line. */
  function Run(st: ParserState, lines: seq<string>): (last: ParserState)
    ensures st.elements <= last.elements && |last.elements| <= |st.elements| + |lines|
    decreases |lines|
  {
    if lines == [] then st else Run(Step(st, lines[0]), lines[1..])
  }

  lemma RunStep(st: ParserState, lines: seq<string>, n: nat)
    requires n < |lines|
    ensures Run(st, lines[n..]) == Run(Step(st, lines[n]), lines[n + 1..])
  {
    assert lines[n..][1..] == lines[n + 1..];
  }

  /**
   * What `parse(text)` returns: the elements after the last line; a still open table is not
   * added. There are at most as many elements as lines.
   */
  function Document(text: string): (elements: seq<Element>)
    ensures |elements| <= Count(text, '\n') + 1
  {
    Run(Initial, Split(text, '\n')).elements
  }

  /**
   * The lambda given to `lines.forEach` in `parse`: one line is classified and the parser's
   * three variables are updated, as the function `Step` specifies.
   */
  method ParseLine(elements: seq<Element>, inTable: bool, tableRows: seq<seq<string>>, line: string)
    returns (elements': seq<Element>, inTable': bool, tableRows': seq<seq<string>>)
    ensures ParserState(elements', inTable', tableRows') == Step(ParserState(elements, inTable, tableRows), line)
    ensures |elements'| <= |elements| + 1
  {
    ghost var st := ParserState(elements, inTable, tableRows);
    elements', inTable', tableRows' := elements, inTable, tableRows;
    var heading := MatchHeading(line);
    if heading.Some? {
      elements' := elements + [Heading(heading.value.0, Trim(heading.value.1))];
    } else if IsTableLine(line) && !inTable {
      inTable' := true;
      tableRows' := tableRows + [ParseTableRow(line)];
    } else if IsTableLine(line) && inTable {
      tableRows' := tableRows + [ParseTableRow(line)];
    } else if inTable && Trim(line) == [] {
      inTable' := false;
      elements' := elements + [Table(tableRows)];
      tableRows' := [];
    } else {
      assert Step(st, line) == Fallback(st, line);
      var image := FindImageFrom(line, 0);
      if image.Some? {
        var start, altEnd, urlEnd := image.value.0, image.value.1, image.value.2;
        elements' := elements + [Image(line[start + 2..altEnd], line[altEnd + 2..urlEnd])];
      } else if inTable {
        tableRows' := tableRows + [ParseTableRow(line)];
      } else {
        var spans := ProcessInlineMarkdown(line);
        elements' := elements + [Text(line, spans)];
      }
    }
  }

  /** `parse`: split the text into lines and run the line lambda over them, in order. */
  method Parse(text: string) returns (elements: seq<Element>)
    ensures elements == Document(text)
    ensures |elements| <= Count(text, '\n') + 1
  {
    var lines := Split(text, '\n');
    elements := [];
    var inTable := false;
    var tableRows: seq<seq<string>> := [];
    for n := 0 to |lines|
      invariant Run(ParserState(elements, inTable, tableRows), lines[n..]) == Run(Initial, lines)
      invariant |elements| <= n
    {
      RunStep(ParserState(elements, inTable, tableRows), lines, n);
      elements, inTable, tableRows := ParseLine(elements, inTable, tableRows, lines[n]);
    }
    assert lines[|lines|..] == [];
  }

  // ---------------------------------------------------------------- properties of the inline spans

  /** The order in which `processInlineMarkdown` sets the three kinds of span. */
  function Rank(style: Style): nat {
    match style
    case Bold => 0
    case Italic => 1
    case Code => 2
  }

  /** A chain of ranges, each ending before the next starts, is pairwise ordered. */
  lemma {:induction false} ChainOrdered(ms: seq<(nat, nat)>, a: nat, b: nat)
    requires forall k :: 0 <= k < |ms| ==> ms[k].0 <= ms[k].1
    requires forall k :: 0 <= k < |ms| - 1 ==> ms[k].1 <= ms[k + 1].0
    requires a < b < |ms|
    ensures ms[a].1 <= ms[b].0
    decreases b - a
  {
    if a + 1 < b {
      ChainOrdered(ms, a, b - 1);
    }
  }

  /**
   * Spans as `processInlineMarkdown` sets them on `text`: each is a match of its style's
   * pattern, kinds come in the order bold, italic, code, and spans of one kind are in order
   * and do not overlap.
   */
  predicate SpansWellFormed(text: string, spans: seq<Span>) {
    (forall k :: 0 <= k < |spans| ==>
       DelimitedAt(text, Delimiter(spans[k].style), spans[k].start, spans[k].end)) &&
    (forall a, b :: 0 <= a < b < |spans| ==> Rank(spans[a].style) <= Rank(spans[b].style)) &&
    (forall a, b :: 0 <= a < b < |spans| && spans[a].style == spans[b].style ==>
       spans[a].end <= spans[b].start)
  }

  /** The spans of one style are well formed, and all have that style. */
  lemma SpansOfMatch(text: string, style: Style)
    ensures SpansWellFormed(text, SpansOf(text, style))
    ensures forall k :: 0 <= k < |SpansOf(text, style)| ==> SpansOf(text, style)[k].style == style
  {
    var d := Delimiter(style);
    var ms := FindAllDelimited(text, d, 0);
    FindAllOrdered(text, d, 0);
    forall a, b | 0 <= a < b < |ms| ensures ms[a].1 <= ms[b].0 {
      ChainOrdered(ms, a, b);
    }
  }

  /** Well-formed spans of lower kinds followed by well-formed spans of higher kinds are well formed. */
  lemma ConcatWellFormed(text: string, x: seq<Span>, y: seq<Span>, r: nat)
    requires SpansWellFormed(text, x) && SpansWellFormed(text, y)
    requires forall k :: 0 <= k < |x| ==> Rank(x[k].style) <= r
    requires forall k :: 0 <= k < |y| ==> r < Rank(y[k].style)
    ensures SpansWellFormed(text, x + y)
  {
    var z := x + y;
    assert forall k :: |x| <= k < |z| ==> z[k] == y[k - |x|];
  }

  /** Every place where one of the three patterns matches lies inside a span of that style. */
  lemma SpansOfCover(text: string, style: Style, i: nat, e: nat)
    requires DelimitedAt(text, Delimiter(style), i, e)
    ensures exists k :: 0 <= k < |SpansOf(text, style)| &&
              SpansOf(text, style)[k].start <= i < SpansOf(text, style)[k].end
  {
    var ms := FindAllDelimited(text, Delimiter(style), 0);
    FindAllCovers(text, Delimiter(style), 0);
    assert Covered(ms, i);
    var k :| 0 <= k < |ms| && ms[k].0 <= i < ms[k].1;
    assert SpansOf(text, style)[k] == Span(style, ms[k].0, ms[k].1);
  }

  /** The spans set on a text line are well formed. */
  lemma InlineSpansMatch(text: string)
    ensures SpansWellFormed(text, InlineSpans(text))
  {
    var bold, italic, code := SpansOf(text, Bold), SpansOf(text, Italic), SpansOf(text, Code);
    SpansOfMatch(text, Bold);
    SpansOfMatch(text, Italic);
    SpansOfMatch(text, Code);
    ConcatWellFormed(text, bold, italic, 0);
    forall k | 0 <= k < |bold + italic| ensures Rank((bold + italic)[k].style) <= 1 {
      if k >= |bold| { assert (bold + italic)[k] == italic[k - |bold|]; }
    }
    ConcatWellFormed(text, bold + italic, code, 1);
  }

  /** No match of a pattern is missed: it lies inside a span of its style. */
  lemma InlineSpansCover(text: string, style: Style, i: nat, e: nat)
    requires DelimitedAt(text, Delimiter(style), i, e)
    ensures exists k :: 0 <= k < |InlineSpans(text)| && InlineSpans(text)[k].style == style &&
              InlineSpans(text)[k].start <= i < InlineSpans(text)[k].end
  {
    SpansOfCover(text, style, i, e);
    var own := SpansOf(text, style);
    var j :| 0 <= j < |own| && own[j].start <= i < own[j].end;
    var span := own[j];
    assert span.style == style;
    assert span in InlineSpans(text) by {
      assert span in own;
      assert InlineSpans(text) == SpansOf(text, Bold) + SpansOf(text, Italic) + SpansOf(text, Code);
    }
  }

  // ---------------------------------------------------------------- properties of parse

  /** A row of cells as `parseTableRow` returns it. */
  predicate RowCells(row: seq<string>) {
    forall c :: c in row ==> KeepCell(c) && '|' !in c
  }

  /** What `parse` can put in its result. */
  predicate WellFormed(e: Element) {
    match e
    case Heading(level, text) =>
      1 <= level <= 6 && (text == [] || (!IsWhitespace(text[0]) && !IsWhitespace(text[|text| - 1])))
    case Text(text, spans) => '\n' !in text && SpansWellFormed(text, spans)
    case Table(rows) => |rows| >= 1 && forall row :: row in rows ==> RowCells(row)
    case Image(alt, url) => NoLineTerminator(alt) && NoLineTerminator(url) && ')' !in url
  }

  /**
   * The invariant of the line loop: a table is open exactly when rows are pending, every
   * pending row is a row of cells, and every element produced so far is well formed.
   */
  predicate Consistent(st: ParserState) {
    (st.inTable <==> st.tableRows != []) &&
    (forall row :: row in st.tableRows ==> RowCells(row)) &&
    (forall e :: e in st.elements ==> WellFormed(e))
  }

  /** A heading line yields a well-formed heading. */
  lemma HeadingWellFormed(line: string)
    requires MatchHeading(line).Some?
    ensures WellFormed(Heading(MatchHeading(line).value.0, Trim(MatchHeading(line).value.1)))
  {
    MatchHeadingShape(line);
  }

  /** An image line yields a well-formed image. */
  lemma ImageWellFormed(line: string)
    requires FindImageFrom(line, 0).Some?
    ensures var r := FindImageFrom(line, 0).value;
      WellFormed(Image(line[r.0 + 2..r.1], line[r.1 + 2..r.2]))
  {
    ImageParts(line);
  }

  /** Any line yields a well-formed row and a well-formed text element. */
  lemma RowAndTextWellFormed(line: string)
    requires '\n' !in line
    ensures RowCells(ParseTableRow(line))
    ensures WellFormed(Text(line, InlineSpans(line)))
  {
    TableRowCells(line);
    InlineSpansMatch(line);
  }

  lemma AppendConsistent(st: ParserState, e: Element)
    requires Consistent(st) && WellFormed(e)
    ensures Consistent(st.(elements := st.elements + [e]))
  {
  }

  lemma AddRowConsistent(st: ParserState, row: seq<string>)
    requires Consistent(st) && st.inTable && RowCells(row)
    ensures Consistent(st.(tableRows := st.tableRows + [row]))
  {
  }

  /** One line keeps the invariant, and only ever appends at most one element. */
  lemma StepConsistent(st: ParserState, line: string)
    requires Consistent(st) && '\n' !in line
    ensures Consistent(Step(st, line))
    ensures st.elements <= Step(st, line).elements && |Step(st, line).elements| <= |st.elements| + 1
  {
    if MatchHeading(line).Some? {
      var e := Heading(MatchHeading(line).value.0, Trim(MatchHeading(line).value.1));
      HeadingWellFormed(line);
      AppendConsistent(st, e);
    } else if IsTableLine(line) {
      TableLineConsistent(st, line);
    } else if st.inTable && Trim(line) == [] {
      assert WellFormed(Table(st.tableRows));
    } else {
      assert Step(st, line) == Fallback(st, line);
      FallbackConsistent(st, line);
    }
  }

  lemma TableLineConsistent(st: ParserState, line: string)
    requires Consistent(st) && MatchHeading(line).None? && IsTableLine(line)
    ensures Consistent(Step(st, line)) && Step(st, line).elements == st.elements
  {
    var row := ParseTableRow(line);
    TableRowCells(line);
    assert RowCells(row);
    if st.inTable {
      assert Step(st, line) == st.(tableRows := st.tableRows + [row]);
      AddRowConsistent(st, row);
    } else {
      assert Step(st, line) == st.(inTable := true, tableRows := st.tableRows + [row]);
      assert st.tableRows == [];
    }
  }

  lemma FallbackConsistent(st: ParserState, line: string)
    requires Consistent(st) && '\n' !in line
    ensures Consistent(Fallback(st, line))
    ensures st.elements <= Fallback(st, line).elements && |Fallback(st, line).elements| <= |st.elements| + 1
  {
    if FindImageFrom(line, 0).Some? {
      ImageConsistent(st, line);
    } else {
      RowAndTextWellFormed(line);
      if st.inTable {
        AddRowConsistent(st, ParseTableRow(line));
      } else {
        AppendConsistent(st, Text(line, InlineSpans(line)));
      }
    }
  }

  lemma ImageConsistent(st: ParserState, line: string)
    requires Consistent(st) && FindImageFrom(line, 0).Some?
    ensures var r := FindImageFrom(line, 0).value;
      Fallback(st, line) == st.(elements := st.elements + [Image(line[r.0 + 2..r.1], line[r.1 + 2..r.2])]) &&
      Consistent(Fallback(st, line))
  {
    var r := FindImageFrom(line, 0).value;
    ImageWellFormed(line);
    AppendConsistent(st, Image(line[r.0 + 2..r.1], line[r.1 + 2..r.2]));
  }

  lemma {:induction false} RunConsistent(st: ParserState, lines: seq<string>)
    requires Consistent(st) && forall k :: 0 <= k < |lines| ==> '\n' !in lines[k]
    ensures Consistent(Run(st, lines))
    ensures |Run(st, lines).elements| <= |st.elements| + |lines|
    decreases |lines|
  {
    if lines != [] {
      StepConsistent(st, lines[0]);
      RunConsistent(Step(st, lines[0]), lines[1..]);
    }
  }

  /** Every element `parse` returns is well formed, and there are at most as many as lines. */
  lemma DocumentWellFormed(text: string)
    ensures forall e :: e in Document(text) ==> WellFormed(e)
    ensures |Document(text)| <= Count(text, '\n') + 1
  {
    RunConsistent(Initial, Split(text, '\n'));
  }

  /**
   * A table is emitted exactly on a blank line while a table is open; it holds the pending
   * rows and closes the table.
   */
  lemma StepEmitsTable(st: ParserState, line: string)
    ensures var next := Step(st, line);
      (|next.elements| == |st.elements| + 1 && next.elements[|st.elements|].Table?) <==>
      (st.inTable && IsBlank(line))
    ensures st.inTable && IsBlank(line) ==>
      Step(st, line) == ParserState(st.elements + [Table(st.tableRows)], false, [])
  {
    TrimEmptyIffBlank(line);
    if IsBlank(line) && line != [] {
      assert !IsWhitespace('#') && !IsWhitespace('|');
      assert CountLeading(line, '#') == 0;
    }
    var n := |st.elements|;
    if MatchHeading(line).Some? {
      assert Step(st, line).elements[n].Heading?;
    } else if IsTableLine(line) {
      assert Step(st, line).elements == st.elements;
    } else if !(st.inTable && Trim(line) == []) {
      assert Step(st, line) == Fallback(st, line);
    }
  }

  /**
   * While a table is open, a line that is not blank never closes it: it becomes a row, or,
   * as a heading or an image, an element emitted ahead of the table.
   */
  lemma OpenTableLine(st: ParserState, line: string)
    requires st.inTable && !IsBlank(line)
    ensures var next := Step(st, line);
      next.inTable &&
      ((next.elements == st.elements && next.tableRows == st.tableRows + [ParseTableRow(line)]) ||
       (next.tableRows == st.tableRows && |next.elements| == |st.elements| + 1 &&
        (next.elements[|st.elements|].Heading? || next.elements[|st.elements|].Image?)))
  {
    TrimEmptyIffBlank(line);
  }

  lemma {:induction false} RunAppend(st: ParserState, lines: seq<string>, line: string)
    ensures Run(st, lines + [line]) == Step(Run(st, lines), line)
    decreases |lines|
  {
    if lines != [] {
      var st1 := Step(st, lines[0]);
      assert (lines + [line])[0] == lines[0] && (lines + [line])[1..] == lines[1..] + [line];
      assert Run(st, lines + [line]) == Run(st1, lines[1..] + [line]);
      assert Run(st, lines) == Run(st1, lines[1..]);
      RunAppend(st1, lines[1..], line);
    } else {
      assert [line][1..] == [];
      assert Run(st, [line]) == Run(Step(st, line), []);
    }
  }

  /**
   * A final newline adds an empty last line: it emits the still open table, which is
   * otherwise dropped, or else an empty text element.
   */
  lemma TrailingNewline(text: string)
    ensures var last := Run(Initial, Split(text, '\n'));
      Document(text + "\n") ==
        if last.inTable then Document(text) + [Table(last.tableRows)] else Document(text) + [Text("", [])]
  {
    SplitTrailingSeparator(text, '\n');
    RunAppend(Initial, Split(text, '\n'), "");
    assert FindDelimited("", "**", 0).None? && FindDelimited("", "*", 0).None? && FindDelimited("", "`", 0).None?;
    assert InlineSpans("") == [];
  }
}
