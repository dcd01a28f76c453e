/**
 * The Markdown parser events the preprocessor consumes and produces.
 * This is the subset of the parser's event type the transducer looks at,
 * with every other tag and event kept as a distinct constructor so that
 * "passes through unchanged" has something to pass through.
 */
module Events {

  /** How a link was written in the Markdown source. Only `Autolink`
      (`<fa:heart>`) is ever rewritten. */
  datatype LinkType = Inline | Reference | Collapsed | Shortcut | Autolink | Email

  datatype CodeBlockKind = Indented | Fenced(lang: string)

  datatype Tag =
    | Paragraph
    | Heading(level: nat)
    | BlockQuote
    | CodeBlock(kind: CodeBlockKind)
    | List(start: nat)
    | Item
    | Emphasis
    | Strong
    | Strikethrough
    | Link(linkType: LinkType, dest: string, title: string)
    | Image(imageType: LinkType, src: string, alt: string)
    | OtherTag(name: string)

  datatype Event =
    | Start(tag: Tag)
    | End(closed: Tag)
    | Text(text: string)
    | Code(code: string)
    | Html(html: string)
    | FootnoteReference(footnote: string)
    | SoftBreak
    | HardBreak
    | Rule
    | TaskListMarker(checked: bool)

  /** The external math renderer: LaTeX source and display mode to HTML. */
  type Renderer = (string, bool) -> string
}
