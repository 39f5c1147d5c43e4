// The shapes of the document tree the parser produces (lib/definition.ts).

module Definition {
  import opened JsText

  /** Inline text style. */
  datatype Style = Plain | Italic | Strong | Code

  /** A styled run of text. */
  datatype TextBody = TextBody(style: Style, value: string)

  /** A link: its label, already split into styled runs, and its url. */
  datatype Link = Link(body: seq<TextBody>, url: string)

  /** An element of a block's body: a styled run or a link. */
  datatype Inline = TextNode(text: TextBody) | LinkNode(link: Link)

  datatype ListItem = ListItem(body: seq<Inline>)

  /** A heading level, 1 to 6. */
  type HeadingLevel = n: nat | 1 <= n <= 6 witness 1

  datatype Block =
    | Paragraph(body: seq<Inline>)
    | Heading(level: HeadingLevel, body: seq<Inline>)
    | Quote(body: seq<Inline>)
    | List(ordered: bool, items: seq<ListItem>)
    | Image(url: string, altText: string, caption: string)
    | CodeBlock(lang: Option<string>, code: string)
    | ThematicBreak

  /** The outcome of an operation that may throw: the thrown Error's message on failure. */
  datatype Result<T> = Ok(value: T) | Err(message: string)
}
