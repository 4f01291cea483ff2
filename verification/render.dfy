/**
 The recursive renderer: `render` with `in_recursion` set, the section
 pass's replace callback, the tag pass of `render_tags` and
 `render_partial`. Each step threads the renderer state, so a pragma met
 anywhere stays registered for everything rendered after it, and a
 delimiter change stays in force for the open-tag tests that follow it.
 Which tags and sections are found is fixed by the carve of the template.

 `fuel` bounds how deeply partials may include partials; JavaScript has no
 such bound and runs out of stack instead.
 */
module Rendering {
  import opened Strings
  import opened Values
  import opened Escaping
  import opened Contexts
  import opened Templates
  import opened Directives
  import opened Outcomes

  /** What a recursive render leaves alone, the root view and the buffer,
      and what it only adds to, the set of registered pragmas. */
  predicate Keeps(st: State, st': State)
  {
    st'.root == st.root && st'.buffer == st.buffer && st.pragmas.Keys <= st'.pragmas.Keys
  }

  /** What a section does with its content. */
  datatype Plan =
    | Skip                    // only the text before and after is emitted
    | Once(ctx: Value)        // the content is rendered once, in `ctx`
    | Each(elems: seq<Value>) // the content is rendered once per element
    | Emit(text: string)      // a higher-order section's return value

  /** How many times a plan renders the section's content. */
  function Renderings(p: Plan): nat
  {
    match p
    case Skip => 0
    case Once(_) => 1
    case Each(elems) => |elems|
    case Emit(_) => 0
  }

  /** The decision table of the section callback, for the value `find`
      gave for the section name in the context `ctx`. */
  function SectionPlan(kind: SectionKind, value: Value, ctx: Value): (p: Plan)
    requires !Nullish(ctx)
    ensures p.Once? ==> !Nullish(p.ctx)
    ensures kind == Inverted ==>
              (p == Once(ctx) <==> !Truthy(value) || value == Arr([]))
              && (p != Once(ctx) ==> p == Skip)
    ensures kind == Normal ==>
              && (p.Each? <==> value.Arr?)
              && (value.Arr? ==> p.elems == value.elems)
              && (value.Obj? ==> p == Once(value))
              && (p.Emit? <==> value.Fn?)
              && (value.Fn? ==> p.text == ToStr(value.result))
              && (p == Skip <==> !Truthy(value))
              && (Truthy(value) && !IsObject(value) && !value.Fn? ==> p == Once(ctx))
  {
    match kind
    case Inverted =>
      if !Truthy(value) || (value.Arr? && |value.elems| == 0) then Once(ctx) else Skip
    case Normal =>
      if value.Arr? then Each(value.elems)
      else if IsObject(value) then Once(value)
      else if value.Fn? then Emit(ToStr(value.result))
      else if Truthy(value) then Once(ctx)
      else Skip
  }

  /** `render(template, ctx, partials, true)`. */
  function Render(st: State, t: Template, ctx: Value, partials: Partials, fuel: nat): (r: Result<Rendered>)
    requires !Nullish(st.root) && !Nullish(ctx)
    ensures r.Ok? ==> Keeps(st, r.value.st)
    ensures r.Err? ==> st.pragmas.Keys <= r.pragmas.Keys
    decreases fuel, TemplateSize(t), 3
  {
    if !Includes(st, "", t.text) then Ok(Rendered(t.text, st))
    else
      var c := WithMode(st.pragmas, ctx);
      var p :- RenderPragmas(st, t.text, t.pragma);
      match t.body
      case Flat(lines) =>
        assert TemplateSize(t) == 1 + LinesSize(lines);
        var o :- RenderLines(p.st, lines, c, partials, fuel);
        Ok(Rendered(Join(o.lines, "\n"), o.st))
      case Sectioned(parts) =>
        assert TemplateSize(t) == 1 + PartsSize(parts);
        RenderParts(p.st, parts, c, partials, fuel)
  }

  /** The section pass's output: each match replaced by its callback's
      result, the text between matches kept. */
  function RenderParts(st: State, parts: seq<Part>, ctx: Value, partials: Partials, fuel: nat): (r: Result<Rendered>)
    requires !Nullish(st.root) && !Nullish(ctx)
    ensures r.Ok? ==> Keeps(st, r.value.st)
    ensures r.Err? ==> st.pragmas.Keys <= r.pragmas.Keys
    decreases fuel, PartsSize(parts), 2
  {
    if |parts| == 0 then Ok(Rendered("", st))
    else
      assert PartsSize(parts) == PartSize(parts[0]) + PartsSize(parts[1..]);
      assert PartSize(parts[0]) >= 1;
      var head :- if parts[0].Gap? then Ok(Rendered(parts[0].text, st))
                  else RenderSection(st, parts[0], ctx, partials, fuel);
      var tail :- RenderParts(head.st, parts[1..], ctx, partials, fuel);
      Ok(Rendered(head.text + tail.text, tail.st))
  }

  /** The section callback: the text before and after the match goes
      through the tag pass first (before, then after), then the section
      name is looked up and the plan carried out. */
  function RenderSection(st: State, part: Part, ctx: Value, partials: Partials, fuel: nat): (r: Result<Rendered>)
    requires part.Section?
    requires !Nullish(st.root) && !Nullish(ctx)
    ensures r.Ok? ==> Keeps(st, r.value.st)
    ensures r.Err? ==> st.pragmas.Keys <= r.pragmas.Keys
    decreases fuel, PartSize(part), 1
  {
    var b :- RenderLines(st, part.before, ctx, partials, fuel);
    var a :- RenderLines(b.st, part.after, ctx, partials, fuel);
    var before, after := Join(b.lines, "\n"), Join(a.lines, "\n");
    match SectionPlan(part.kind, Find(part.name, ctx, st.root), ctx)
    case Skip => Ok(Rendered(before + after, a.st))
    case Emit(s) => Ok(Rendered(before + s + after, a.st))
    case Once(c) =>
      var o :- Render(a.st, part.content, c, partials, fuel);
      Ok(Rendered(before + o.text + after, o.st))
    case Each(elems) =>
      var o :- RenderEach(a.st, part.content, elems, partials, fuel);
      Ok(Rendered(before + o.text + after, o.st))
  }

  /** The array branch: `map` over the elements, each rendered in its own
      `create_context`, then `join("")`. */
  function RenderEach(st: State, content: Template, elems: seq<Value>, partials: Partials, fuel: nat): (r: Result<Rendered>)
    requires !Nullish(st.root)
    ensures r.Ok? ==> Keeps(st, r.value.st)
    ensures r.Err? ==> st.pragmas.Keys <= r.pragmas.Keys
    decreases fuel, TemplateSize(content), 4 + |elems|
  {
    if |elems| == 0 then Ok(Rendered("", st))
    else
      var o :- Render(st, content, CreateContext(st.pragmas, elems[0]), partials, fuel);
      var rest :- RenderEach(o.st, content, elems[1..], partials, fuel);
      Ok(Rendered(o.text + rest.text, rest.st))
  }

  /** `render_tags` line by line: one rendered line per line. */
  function RenderLines(st: State, lines: seq<Line>, ctx: Value, partials: Partials, fuel: nat): (r: Result<RenderedLines>)
    requires !Nullish(st.root) && !Nullish(ctx)
    ensures r.Ok? ==> Keeps(st, r.value.st) && |r.value.lines| == |lines|
    ensures r.Err? ==> st.pragmas.Keys <= r.pragmas.Keys
    decreases fuel, LinesSize(lines), 2
  {
    if |lines| == 0 then Ok(RenderedLines([], st))
    else
      var first :- RenderLine(st, lines[0], ctx, partials, fuel);
      var rest :- RenderLines(first.st, lines[1..], ctx, partials, fuel);
      Ok(RenderedLines([first.text] + rest.lines, rest.st))
  }

  /** One line's `replace`: literal runs are kept, each tag is replaced by
      its callback's result. */
  function RenderLine(st: State, line: Line, ctx: Value, partials: Partials, fuel: nat): (r: Result<Rendered>)
    requires !Nullish(st.root) && !Nullish(ctx)
    ensures r.Ok? ==> Keeps(st, r.value.st)
    ensures r.Err? ==> st.pragmas.Keys <= r.pragmas.Keys
    decreases fuel, |line|, 1
  {
    if |line| == 0 then Ok(Rendered("", st))
    else
      var head :- if line[0].Text? then Ok(Rendered(line[0].text, st))
                  else RenderTag(st, line[0].op, line[0].name, ctx, partials, fuel);
      var tail :- RenderLine(head.st, line[1..], ctx, partials, fuel);
      Ok(Rendered(head.text + tail.text, tail.st))
  }

  /** `tag_replace_callback`: the dispatch on the tag's operator. Only a
      delimiter change or a partial can fail or change the state; an
      escaped tag never emits markup. */
  function RenderTag(st: State, op: TagOp, name: string, ctx: Value, partials: Partials, fuel: nat): (r: Result<Rendered>)
    requires !Nullish(st.root) && !Nullish(ctx)
    ensures r.Ok? ==> Keeps(st, r.value.st)
    ensures r.Err? ==> st.pragmas.Keys <= r.pragmas.Keys
    ensures op != Delimiters && op != Partial ==> r.Ok? && r.value.st == st
    ensures op == Comment ==> r.value.text == ""
    ensures op == Raw ==> r.value.text == ToStr(Find(name, ctx, st.root))
    ensures op == Escaped || op == PragmaSigil ==>
              && r == Ok(Rendered(EscapeValue(Find(name, ctx, st.root)), st))
              && forall i :: 0 <= i < |r.value.text| ==> !IsMarkup(r.value.text[i])
    ensures op == Delimiters ==> (r.Ok? <==> ' ' in name) && (r.Ok? ==> r.value.text == "")
    ensures op == Delimiters && r.Ok? ==> r.value.st == SetDelimiters(st, name).value
    ensures op == Partial && (partials.None? || Trim(name) !in partials.value) ==>
              r == Err(UnknownPartial(Trim(name)), st.pragmas)
    decreases fuel, 0, 1
  {
    match op
    case Comment => Ok(Rendered("", st))
    case Delimiters =>
      var st' :- SetDelimiters(st, name);
      Ok(Rendered("", st'))
    case Partial => RenderPartial(st, name, ctx, partials, fuel)
    case Raw => Ok(Rendered(ToStr(Find(name, ctx, st.root)), st))
    case Escaped => Ok(Rendered(EscapeValue(Find(name, ctx, st.root)), st))
    case PragmaSigil => Ok(Rendered(EscapeValue(Find(name, ctx, st.root)), st))
  }

  /** `render_partial`: look the trimmed name up in the partial table and
      render that template in `context[name]` when it is an object, in the
      current context otherwise. */
  function RenderPartial(st: State, name: string, ctx: Value, partials: Partials, fuel: nat): (r: Result<Rendered>)
    requires !Nullish(st.root) && !Nullish(ctx)
    ensures r.Ok? ==> Keeps(st, r.value.st)
    ensures r.Err? ==> st.pragmas.Keys <= r.pragmas.Keys
    ensures partials.None? || Trim(name) !in partials.value ==> r == Err(UnknownPartial(Trim(name)), st.pragmas)
    decreases fuel, 0, 0
  {
    var n := Trim(name);
    if partials.None? || n !in partials.value then Err(UnknownPartial(n), st.pragmas)
    else if fuel == 0 then Err(PartialDepthExceeded, st.pragmas)
    else Render(st, partials.value[n], PartialContext(ctx, n), partials, fuel - 1)
  }
}
