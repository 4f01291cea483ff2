/**
 Templates as the renderer's regular expressions have already carved them
 up, and the renderer's own state.

 A template keeps its text (the fail-fast test looks at it), the first
 match of the pragma pattern, and what the section pattern found in the
 text left after the pragma pass: either no section at all, in which case
 the tag pass sees the text as lines of literal runs and tags, or the
 matched sections with the text between them.
 */
module Templates {
  import opened Values
  import opened Contexts

  /** The optional operator group `(=|!|>|\{|%)?` of the tag pattern. */
  datatype TagOp =
    | Escaped       // no operator
    | Comment       // !
    | Delimiters    // =
    | Partial       // >
    | Raw           // {
    | PragmaSigil   // %, which the tag pass treats like no operator

  /** One run of a line: literal text, or a matched `(operator, name)` pair. */
  datatype Piece = Text(text: string) | Tag(op: TagOp, name: string)

  type Line = seq<Piece>

  datatype SectionKind = Normal | Inverted

  /** A match of `otag%([\w-]+) ?([\w]+=[\w]+)?ctag`: the text around it,
      the pragma name and the option group when it matched. */
  datatype PragmaMatch = PragmaMatch(before: string, name: string, option: Option<string>, after: string)

  datatype Template = Template(text: string, pragma: Option<PragmaMatch>, body: Body)

  datatype Body =
    | Flat(lines: seq<Line>)       // the section pattern matched nothing
    | Sectioned(parts: seq<Part>)  // the section pattern matched at least once

  /** A stretch of the section pass: text no match covered, or one match
      `(before, type, name, content, after)`; the content is a template of
      its own, scanned again when it is rendered. */
  datatype Part =
    | Gap(text: string)
    | Section(before: seq<Line>, kind: SectionKind, name: string, content: Template, after: seq<Line>)

  /** The renderer's fields: the open and close tags as regular-expression
      sources, the pragma registry, the output buffer and the root view. */
  datatype State = State(otag: string, ctag: string, pragmas: Pragmas, buffer: seq<string>, root: Value)

  /** A rendering step's text and the state it leaves. */
  datatype Rendered = Rendered(text: string, st: State)

  /** The tag pass's lines and the state it leaves. */
  datatype RenderedLines = RenderedLines(lines: seq<string>, st: State)

  /** The partial table handed to `to_html`; `None` when it was not given. */
  type Partials = Option<map<string, Template>>

  function LineSize(line: Line): nat
  {
    |line| + 1
  }

  function LinesSize(lines: seq<Line>): nat
  {
    if |lines| == 0 then 0 else LineSize(lines[0]) + LinesSize(lines[1..])
  }

  function TemplateSize(t: Template): nat
  {
    1 + BodySize(t.body)
  }

  function BodySize(b: Body): nat
  {
    match b
    case Flat(lines) => LinesSize(lines)
    case Sectioned(parts) => PartsSize(parts)
  }

  function PartsSize(parts: seq<Part>): nat
  {
    if |parts| == 0 then 0 else PartSize(parts[0]) + PartsSize(parts[1..])
  }

  function PartSize(p: Part): nat
  {
    match p
    case Gap(_) => 1
    case Section(before, _, _, content, after) =>
      1 + LinesSize(before) + TemplateSize(content) + LinesSize(after)
  }
}
