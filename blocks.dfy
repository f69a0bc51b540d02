/**
 * The block objects the markdown parser produces and the destination API accepts,
 * reduced to the fields the migration reads or writes.
 */
module Blocks {
  import opened Wrappers

  datatype Annotations = Annotations(bold: bool, italic: bool, strikethrough: bool, underline: bool, code: bool, color: string)

  /** A text run: its content, an optional hyperlink and its styling. */
  datatype RichText = RichText(content: string, link: Option<string>, annotations: Annotations)

  /** A table cell is a sequence of text runs. */
  type Cell = seq<RichText>

  /** A `table_row` block; a row whose `cells` field is absent is read as having none. */
  datatype TableRow = TableRow(cells: seq<Cell>)

  datatype Block =
    | Paragraph(richText: seq<RichText>)
    | Callout(richText: seq<RichText>, emoji: string, color: string, children: seq<Block>)
    | Table(tableWidth: nat, hasColumnHeader: bool, hasRowHeader: bool, rows: seq<TableRow>)
    | Image(url: string)
    /** Headings, list items, quotes, code and the other kinds the migration passes through. */
    | Other(kind: string, richText: seq<RichText>, children: seq<Block>)

  const DefaultAnnotations := Annotations(false, false, false, false, false, "default")

  /** A `{ type: 'text', text: { content } }` run. */
  function PlainText(content: string): RichText
  {
    RichText(content, None, DefaultAnnotations)
  }

  /** A paragraph holding one plain text run. */
  function TextParagraph(content: string): Block
  {
    Paragraph([PlainText(content)])
  }
}
