/**
 * The CommonMark token stream the compiler works on (pulldown_cmark's `Event` and
 * `Tag`, reduced to the variants the pipeline tells apart), and the external
 * collaborators it is handed: the tokenizer and the two renderers.
 */
module Events {
  import opened Wrappers

  datatype HeadingLevel = H1 | H2 | H3 | H4 | H5 | H6

  datatype LinkType =
    | Inline | Reference | ReferenceUnknown | Collapsed | CollapsedUnknown
    | Shortcut | ShortcutUnknown | Autolink | Email

  datatype CodeBlockKind = Indented | Fenced(language: string)

  /** Block and inline containers; `OtherTag` stands for lists, quotes, tables and the rest. */
  datatype Tag =
    | Paragraph
    | Heading(level: HeadingLevel)
    | CodeBlock(kind: CodeBlockKind)
    | Strong
    | Emphasis
    | Link(linkType: LinkType, url: string, title: string)
    | Image(linkType: LinkType, url: string, title: string)
    | OtherTag(name: string)

  /** `OtherEvent` stands for hard breaks, rules, task markers and the rest. */
  datatype Event =
    | Start(tag: Tag)
    | End(tag: Tag)
    | Text(text: string)
    | Code(code: string)
    | Html(html: string)
    | SoftBreak
    | FootnoteReference(name: string)
    | OtherEvent(kind: string)

  /** pulldown_cmark's `Parser::new`: markdown text to its event stream. */
  type Tokenizer = string -> seq<Event>

  /** pulldown_cmark's `push_html`: the HTML appended for an event stream. */
  type HtmlRenderer = seq<Event> -> string

  /** The rich code-block island rendered to a string, given (language, code). */
  type CodeRenderer = (Option<string>, string) -> string

  predicate IsH1Start(e: Event)
  {
    e.Start? && e.tag.Heading? && e.tag.level == H1
  }

  predicate IsH1End(e: Event)
  {
    e.End? && e.tag.Heading? && e.tag.level == H1
  }

  predicate IsInlineImage(e: Event)
  {
    e.Start? && e.tag.Image? && e.tag.linkType == Inline
  }

  predicate IsFencedCodeEnd(e: Event)
  {
    e.End? && e.tag.CodeBlock? && e.tag.kind.Fenced?
  }
}
