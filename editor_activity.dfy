/**
 * The Markdown editor screen: a text field with a selection and three toolbar buttons that
 * wrap the selection (or the cursor position) in the Markdown delimiter of a style.
 */
module Editor {
  import opened KotlinText
  import opened MarkdownElement
  import opened MarkdownParser
  import ParserExamples

  // ---------------------------------------------------------------- the text operations

  /** `Editable.insert(at, piece)`. */
  function Insert(text: string, at: nat, piece: string): (r: string)
    requires at <= |text|
    ensures |r| == |text| + |piece|
    ensures r[..at] == text[..at] && r[at..at + |piece|] == piece && r[at + |piece|..] == text[at..]
  {
    text[..at] + piece + text[at..]
  }

  /** `Editable.replace(start, end, piece)`: the characters `start until end` become `piece`. */
  function ReplaceRange(text: string, start: nat, end: nat, piece: string): (r: string)
    requires start <= end <= |text|
    ensures |r| == |text| - (end - start) + |piece|
    ensures r[..start] == text[..start] && r[start..start + |piece|] == piece && r[start + |piece|..] == text[end..]
  {
    text[..start] + piece + text[end..]
  }

  /**
   * What wrapping the selection `start until end` in `w` should give: the text before it, `w`,
   * the selected text, `w`, and the text after it. An empty selection gets `ww` at the cursor.
   */
  function Wrapped(text: string, start: nat, end: nat, w: string): string
    requires start <= end <= |text|
  {
    text[..start] + w + text[start..end] + w + text[end..]
  }

  /** Where the cursor goes after wrapping: between the two delimiters, or after the closing one. */
  function CursorAfterWrap(start: nat, end: nat, w: string): nat {
    if start == end then start + |w| else end + 2 * |w|
  }

  /**
   * The pieces of the wrapped text: the text before the selection is kept, `w` opens, the
   * selected text follows, `w` closes, and the text after the selection is kept.
   */
  lemma WrappedPieces(text: string, start: nat, end: nat, w: string)
    requires start <= end <= |text|
    ensures var r := Wrapped(text, start, end, w);
      var n := |w|;
      r[..start] == text[..start] &&
      r[start..start + n] == w &&
      r[start + n..end + n] == text[start..end] &&
      r[end + n..end + 2 * n] == w &&
      r[end + 2 * n..] == text[end..]
  {
    var r := Wrapped(text, start, end, w);
    var n := |w|;
    assert r == text[..start] + w + text[start..end] + w + text[end..];
    assert r[start + n..end + n] == text[start..end];
  }

  /** Taking the two delimiters back out of the wrapped text. */
  function Unwrap(r: string, start: nat, end: nat, w: string): string
    requires start <= end && end + 2 * |w| <= |r|
  {
    r[..start] + r[start + |w|..end + |w|] + r[end + 2 * |w|..]
  }

  /** Removing the delimiters that a wrap inserted gives back the original text. */
  lemma UnwrapWrapped(text: string, start: nat, end: nat, w: string)
    requires start <= end <= |text|
    ensures |Wrapped(text, start, end, w)| == |text| + 2 * |w|
    ensures Unwrap(Wrapped(text, start, end, w), start, end, w) == text
  {
    WrappedPieces(text, start, end, w);
    assert text == text[..start] + text[start..end] + text[end..];
  }

  /**
   * The cursor after the wrap: with an empty selection it sits between the two delimiters,
   * otherwise right after the closing one.
   */
  lemma CursorPlacement(text: string, start: nat, end: nat, w: string)
    requires start <= end <= |text|
    ensures var r := Wrapped(text, start, end, w);
      var c := CursorAfterWrap(start, end, w);
      |w| <= c <= |r| && r[c - |w|..c] == w &&
      (start == end ==> c + |w| <= |r| && r[c..c + |w|] == w)
  {
    WrappedPieces(text, start, end, w);
  }

  // ---------------------------------------------------------------- the screen

  /** The text field with its selection `selectionStart until selectionEnd`. */
  class MarkdownEditor {
    var text: string
    var selectionStart: nat
    var selectionEnd: nat

    /** The selection lies inside the text and does not run backwards. */
    ghost predicate Valid()
      reads this
    {
      selectionStart <= selectionEnd <= |text|
    }

    /** `onCreate`: the `content` extra, or the empty text when there is none; the cursor at 0. */
    constructor(content: Option<string>)
      ensures Valid()
      ensures text == (if content.Some? then content.value else "")
      ensures selectionStart == 0 && selectionEnd == 0
    {
      text := if content.Some? then content.value else "";
      selectionStart, selectionEnd := 0, 0;
    }

    /** The user selects `start until end` (or places the cursor, when they are equal). */
    method Select(start: nat, end: nat)
      requires Valid() && start <= end <= |text|
      modifies this
      ensures Valid()
      ensures text == old(text) && selectionStart == start && selectionEnd == end
    {
      selectionStart, selectionEnd := start, end;
    }

    /**
     * `wrapSelection`: with an empty selection, insert `wrapper` twice at the cursor and put the
     * cursor between them; otherwise replace the selection by itself between two `wrapper`s and
     * put the cursor after the closing one.
     */
    method WrapSelection(wrapper: string)
      requires Valid()
      modifies this
      ensures Valid()
      ensures text == Wrapped(old(text), old(selectionStart), old(selectionEnd), wrapper)
      ensures selectionStart == selectionEnd == CursorAfterWrap(old(selectionStart), old(selectionEnd), wrapper)
    {
      var start := selectionStart;
      var end := selectionEnd;
      if start == end {
        text := Insert(text, start, wrapper + wrapper);
        assert text == Wrapped(old(text), start, end, wrapper) by {
          assert old(text)[start..end] == [];
          assert old(text)[..start] + (wrapper + wrapper) + old(text)[start..] ==
                 old(text)[..start] + wrapper + [] + wrapper + old(text)[end..];
        }
        selectionStart, selectionEnd := start + |wrapper|, start + |wrapper|;
      } else {
        var current := text;
        text := ReplaceRange(current, start, end, wrapper + current[start..end] + wrapper);
        assert text == Wrapped(current, start, end, wrapper);
        selectionStart, selectionEnd := end + 2 * |wrapper|, end + 2 * |wrapper|;
      }
    }

    /** A toolbar button: wrap the selection in the delimiter of its style. */
    method Press(style: Style)
      requires Valid()
      modifies this
      ensures Valid()
      ensures text == Wrapped(old(text), old(selectionStart), old(selectionEnd), ToolbarWrapper(style))
      ensures selectionStart == selectionEnd ==
              CursorAfterWrap(old(selectionStart), old(selectionEnd), ToolbarWrapper(style))
    {
      WrapSelection(ToolbarWrapper(style));
    }
  }

  // ---------------------------------------------------------------- the toolbar

  /** The wrappers of the bold, italic and code buttons. */
  function ToolbarWrapper(style: Style): (w: string)
    ensures w == Delimiter(style)
  {
    match style
    case Bold => "**"
    case Italic => "*"
    case Code => "`"
  }

  /**
   * Selecting a whole word (no `*`, no backquote, no line break) and pressing the bold button
   * gives a line that the parser shows bold from end to end.
   */
  lemma BoldButtonMakesBold(x: string)
    requires x != [] && '*' !in x && '`' !in x && NoLineTerminator(x)
    ensures var r := Wrapped(x, 0, |x|, ToolbarWrapper(Bold));
      Span(Bold, 0, |r|) in InlineSpans(r)
  {
    var r := Wrapped(x, 0, |x|, ToolbarWrapper(Bold));
    assert r == "**" + x + "**" by {
      assert x[..0] == [] && x[0..|x|] == x && x[|x|..] == [];
    }
    ParserExamples.BoldWord(x);
    assert InlineSpans(r)[0] == Span(Bold, 0, |r|);
  }
}
