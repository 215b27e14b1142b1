/**
 * The closed family of elements that the parser produces (the sealed class
 * `MarkdownElement` and its four data classes). A `TextElement` holds an Android
 * `SpannableString`; here that is the line together with the list of style spans set on it.
 */
module MarkdownElement {

  /** The three span kinds: `StyleSpan(BOLD)`, `StyleSpan(ITALIC)`, `TypefaceSpan("monospace")`. */
  datatype Style = Bold | Italic | Code

  /** A span set with `SPAN_EXCLUSIVE_EXCLUSIVE` over the characters `start until end`. */
  datatype Span = Span(style: Style, start: nat, end: nat)

  datatype Element =
    | Heading(level: nat, text: string)
    | Text(text: string, spans: seq<Span>)
    | Table(rows: seq<seq<string>>)
    | Image(altText: string, url: string)
}
