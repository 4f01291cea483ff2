/**
 Properties of the renderer that relate several steps: tag-free text,
 the section policy carried out, iteration over arrays, the tag pass's
 line structure and the output of `to_html`.
 */
module RenderFacts {
  import opened Strings
  import opened Values
  import opened Escaping
  import opened Contexts
  import opened Templates
  import opened Directives
  import opened Rendering
  import opened Mustache
  import opened Outcomes

  /** A template without the open tag renders to itself, state untouched. */
  lemma RenderWithoutTags(st: State, t: Template, ctx: Value, partials: Partials, fuel: nat)
    requires !Nullish(st.root) && !Nullish(ctx)
    requires !Includes(st, "", t.text)
    ensures Render(st, t, ctx, partials, fuel) == Ok(Rendered(t.text, st))
  {
  }

  /** `to_html` of a template without `{{` is the template itself: it is
      sent as one line, and an empty template sends nothing and joins to
      the empty string. */
  lemma ToHtmlWithoutTags(t: Template, view: Value, partials: Partials, pragmas: Pragmas, fuel: nat)
    requires !Contains(t.text, "{{")
    ensures ToHtml(t, view, partials, pragmas, fuel) == Ok(Html(t.text, pragmas))
  {
    UnescapePlain("{{");
    assert "{{" + "" == "{{";
  }

  /** `to_html` of a template with sections never outputs a blank line: the
      section pass's text is split on newlines and only the non-empty lines
      are sent, so the output splits back into non-empty lines. */
  lemma ToHtmlDropsBlankLines(t: Template, view: Value, partials: Partials, pragmas: Pragmas, fuel: nat)
    requires t.body.Sectioned?
    requires Includes(Fresh(pragmas, RootOf(view)), "", t.text)
    ensures var r := ToHtml(t, view, partials, pragmas, fuel);
            r.Ok? && r.value.output != "" ==>
              forall i :: 0 <= i < |SplitOn(r.value.output, '\n')| ==> SplitOn(r.value.output, '\n')[i] != ""
  {
    var ctx := WithMode(pragmas, RootOf(view));
    assert Fresh(pragmas, RootOf(view)).(root := ctx) == Fresh(pragmas, ctx);
    var pr := RenderPragmas(Fresh(pragmas, ctx), t.text, t.pragma);
    if pr.Ok? {
      ToHtmlSectionedOutput(t, view, partials, pragmas, fuel);
      var o := RenderParts(pr.value.st, t.body.parts, ctx, partials, fuel);
      if o.Ok? {
        SentLinesSplitBack(SplitOn(o.value.text, '\n'));
      }
    }
  }

  /** `to_html` of a template without sections, once its open tag is found
      and its pragma pass succeeds: the tag pass's lines, the empty ones
      dropped by `send`, joined with newlines; a failure of the tag pass is
      the call's failure. */
  lemma ToHtmlFlatOutput(t: Template, view: Value, partials: Partials, pragmas: Pragmas, fuel: nat)
    requires t.body.Flat?
    requires Includes(Fresh(pragmas, RootOf(view)), "", t.text)
    requires RenderPragmas(Fresh(pragmas, WithMode(pragmas, RootOf(view))), t.text, t.pragma).Ok?
    ensures var ctx := WithMode(pragmas, RootOf(view));
            var p := RenderPragmas(Fresh(pragmas, ctx), t.text, t.pragma).value;
            var o := RenderLines(p.st, t.body.lines, ctx, partials, fuel);
            ToHtml(t, view, partials, pragmas, fuel)
            == if o.Ok? then Ok(Html(Join(NonEmpty(o.value.lines), "\n"), o.value.st.pragmas)) else Err(o.error, o.pragmas)
  {
    var ctx := WithMode(pragmas, RootOf(view));
    var p := RenderPragmas(Fresh(pragmas, ctx), t.text, t.pragma).value;
    var o := RenderLines(p.st, t.body.lines, ctx, partials, fuel);
    assert Fresh(pragmas, RootOf(view)).(root := ctx) == Fresh(pragmas, ctx);
    if o.Ok? {
      assert o.value.st.buffer == [];
      assert [] + NonEmpty(o.value.lines) == NonEmpty(o.value.lines);
    }
  }

  /** The same for a template with sections: the section pass's text is
      split into lines, and the non-empty ones are joined again. */
  lemma ToHtmlSectionedOutput(t: Template, view: Value, partials: Partials, pragmas: Pragmas, fuel: nat)
    requires t.body.Sectioned?
    requires Includes(Fresh(pragmas, RootOf(view)), "", t.text)
    requires RenderPragmas(Fresh(pragmas, WithMode(pragmas, RootOf(view))), t.text, t.pragma).Ok?
    ensures var ctx := WithMode(pragmas, RootOf(view));
            var p := RenderPragmas(Fresh(pragmas, ctx), t.text, t.pragma).value;
            var o := RenderParts(p.st, t.body.parts, ctx, partials, fuel);
            ToHtml(t, view, partials, pragmas, fuel)
            == if o.Ok? then Ok(Html(Join(NonEmpty(SplitOn(o.value.text, '\n')), "\n"), o.value.st.pragmas))
               else Err(o.error, o.pragmas)
  {
    var ctx := WithMode(pragmas, RootOf(view));
    var p := RenderPragmas(Fresh(pragmas, ctx), t.text, t.pragma).value;
    var o := RenderParts(p.st, t.body.parts, ctx, partials, fuel);
    assert Fresh(pragmas, RootOf(view)).(root := ctx) == Fresh(pragmas, ctx);
    if o.Ok? {
      var lines := SplitOn(o.value.text, '\n');
      assert o.value.st.buffer == [];
      assert [] + NonEmpty(lines) == NonEmpty(lines);
    }
  }

  /** The pragma the call's own pragma pass registers is still registered
      when `to_html` returns, whether the rest of the call succeeds or fails:
      the registry belongs to the renderer's prototype, not to the call. */
  lemma PragmaOutlivesFailure(t: Template, view: Value, partials: Partials, pragmas: Pragmas, fuel: nat)
    requires Includes(Fresh(pragmas, RootOf(view)), "", t.text)
    requires Includes(Fresh(pragmas, RootOf(view)), "%", t.text)
    requires t.pragma.Some? && t.pragma.value.name in Implemented
    ensures t.pragma.value.name in Registry(ToHtml(t, view, partials, pragmas, fuel))
  {
    var ctx := WithMode(pragmas, RootOf(view));
    var st := Fresh(pragmas, ctx);
    assert Fresh(pragmas, RootOf(view)).(root := ctx) == st;
    var p := RenderPragmas(st, t.text, t.pragma);
    assert p.Ok? && t.pragma.value.name in p.value.st.pragmas;
  }

  /** Splitting on `\n` and joining with `\n` keeps the number of lines:
      when no rendered line holds a newline of its own, the recursive tag
      pass's result splits back into exactly one line per template line. */
  lemma TagPassKeepsLineCount(st: State, lines: seq<Line>, ctx: Value, partials: Partials, fuel: nat)
    requires !Nullish(st.root) && !Nullish(ctx)
    requires |lines| >= 1
    requires RenderLines(st, lines, ctx, partials, fuel).Ok?
    requires var out := RenderLines(st, lines, ctx, partials, fuel).value.lines;
             forall i :: 0 <= i < |out| ==> '\n' !in out[i]
    ensures var out := RenderLines(st, lines, ctx, partials, fuel).value.lines;
            SplitOn(Join(out, "\n"), '\n') == out && |out| == |lines|
  {
    var out := RenderLines(st, lines, ctx, partials, fuel).value.lines;
    SplitJoin(out, '\n');
  }

  /** For every value but a function, the inverted section renders its
      content exactly when the normal one renders it zero times, and at
      most once. */
  lemma InvertedComplementsNormal(value: Value, ctx: Value)
    requires !Nullish(ctx) && !value.Fn?
    ensures Renderings(SectionPlan(Inverted, value, ctx)) <= 1
    ensures Renderings(SectionPlan(Inverted, value, ctx)) == 1
            <==> Renderings(SectionPlan(Normal, value, ctx)) == 0
  {
  }

  /** A section whose plan is to skip emits the rendered text before and
      after it and nothing else, and does not render its content. */
  lemma SkippedSectionKeepsSurroundings(st: State, part: Part, ctx: Value, partials: Partials, fuel: nat,
                                        b: RenderedLines, a: RenderedLines)
    requires part.Section? && !Nullish(st.root) && !Nullish(ctx)
    requires RenderLines(st, part.before, ctx, partials, fuel) == Ok(b)
    requires RenderLines(b.st, part.after, ctx, partials, fuel) == Ok(a)
    requires SectionPlan(part.kind, Find(part.name, ctx, st.root), ctx) == Skip
    ensures RenderSection(st, part, ctx, partials, fuel)
            == Ok(Rendered(Join(b.lines, "\n") + Join(a.lines, "\n"), a.st))
  {
  }

  /** An inverted section over a falsy value or an empty array renders its
      content once in the unchanged context, between the before and after
      text. */
  lemma InvertedSectionRendersOnce(st: State, part: Part, ctx: Value, partials: Partials, fuel: nat,
                                   b: RenderedLines, a: RenderedLines)
    requires part.Section? && part.kind == Inverted && !Nullish(st.root) && !Nullish(ctx)
    requires RenderLines(st, part.before, ctx, partials, fuel) == Ok(b)
    requires RenderLines(b.st, part.after, ctx, partials, fuel) == Ok(a)
    requires var v := Find(part.name, ctx, st.root); !Truthy(v) || v == Arr([])
    requires Render(a.st, part.content, ctx, partials, fuel).Ok?
    ensures RenderSection(st, part, ctx, partials, fuel)
            == Ok(Rendered(Join(b.lines, "\n")
                           + Render(a.st, part.content, ctx, partials, fuel).value.text
                           + Join(a.lines, "\n"),
                           Render(a.st, part.content, ctx, partials, fuel).value.st))
  {
  }

  /** A normal section over an object renders its content once with that
      object as the context; over any other truthy value that is neither an
      array nor a function, once in the unchanged context. */
  lemma NormalSectionRendersOnce(st: State, part: Part, ctx: Value, partials: Partials, fuel: nat,
                                 b: RenderedLines, a: RenderedLines)
    requires part.Section? && part.kind == Normal && !Nullish(st.root) && !Nullish(ctx)
    requires RenderLines(st, part.before, ctx, partials, fuel) == Ok(b)
    requires RenderLines(b.st, part.after, ctx, partials, fuel) == Ok(a)
    requires var v := Find(part.name, ctx, st.root); Truthy(v) && !v.Arr? && !v.Fn?
    ensures var v := Find(part.name, ctx, st.root);
            var sub := if v.Obj? then v else ctx;
            var o := Render(a.st, part.content, sub, partials, fuel);
            RenderSection(st, part, ctx, partials, fuel)
            == if o.Ok? then Ok(Rendered(Join(b.lines, "\n") + o.value.text + Join(a.lines, "\n"), o.value.st))
               else Err(o.error, o.pragmas)
  {
    var v := Find(part.name, ctx, st.root);
    assert SectionPlan(Normal, v, ctx) == Once(if v.Obj? then v else ctx);
  }

  /** Iterating tag-free content repeats it once per element. */
  lemma {:induction false} EachRepeatsPlainContent(st: State, content: Template, elems: seq<Value>,
                                                   partials: Partials, fuel: nat)
    requires !Nullish(st.root)
    requires !Includes(st, "", content.text)
    ensures RenderEach(st, content, elems, partials, fuel) == Ok(Rendered(Repeat(content.text, |elems|), st))
    decreases |elems|
  {
    if |elems| > 0 {
      EachRepeatsPlainContent(st, content, elems[1..], partials, fuel);
    }
  }

  /** Rendering the content for one element, from the state `st`. */
  function ElementRender(st: State, content: Template, e: Value, partials: Partials, fuel: nat): Result<Rendered>
    requires !Nullish(st.root)
  {
    Render(st, content, CreateContext(st.pragmas, e), partials, fuel)
  }

  /** The element renders, each from the same state, joined with `""`. */
  function MapJoin(st: State, content: Template, elems: seq<Value>, partials: Partials, fuel: nat): string
    requires !Nullish(st.root)
  {
    if |elems| == 0 then ""
    else
      var r := ElementRender(st, content, elems[0], partials, fuel);
      (if r.Ok? then r.value.text else "") + MapJoin(st, content, elems[1..], partials, fuel)
  }

  /** When rendering the content leaves the state as it was for every
      element, the array branch is exactly `map` then `join("")`: one
      rendering per element, in order, with no separator. */
  lemma {:induction false} EachIsMapJoin(st: State, content: Template, elems: seq<Value>,
                                         partials: Partials, fuel: nat)
    requires !Nullish(st.root)
    requires forall i :: 0 <= i < |elems| ==>
               var r := ElementRender(st, content, elems[i], partials, fuel); r.Ok? && r.value.st == st
    ensures RenderEach(st, content, elems, partials, fuel)
            == Ok(Rendered(MapJoin(st, content, elems, partials, fuel), st))
    decreases |elems|
  {
    if |elems| > 0 {
      assert forall i :: 0 <= i < |elems[1..]| ==> elems[1..][i] == elems[i + 1];
      EachIsMapJoin(st, content, elems[1..], partials, fuel);
    }
  }

  /** A normal section over an array whose elements each render without
      changing the state is the text before, the `map`/`join("")` of the
      element renders, and the text after. */
  lemma ArraySectionMapsElements(st: State, part: Part, ctx: Value, partials: Partials, fuel: nat,
                                 b: RenderedLines, a: RenderedLines)
    requires part.Section? && part.kind == Normal && !Nullish(st.root) && !Nullish(ctx)
    requires RenderLines(st, part.before, ctx, partials, fuel) == Ok(b)
    requires RenderLines(b.st, part.after, ctx, partials, fuel) == Ok(a)
    requires Find(part.name, ctx, st.root).Arr?
    requires var es := Find(part.name, ctx, st.root).elems;
             forall i :: 0 <= i < |es| ==>
               var r := ElementRender(a.st, part.content, es[i], partials, fuel); r.Ok? && r.value.st == a.st
    ensures var es := Find(part.name, ctx, st.root).elems;
            RenderSection(st, part, ctx, partials, fuel)
            == Ok(Rendered(Join(b.lines, "\n") + MapJoin(a.st, part.content, es, partials, fuel)
                           + Join(a.lines, "\n"), a.st))
  {
    var es := Find(part.name, ctx, st.root).elems;
    EachIsMapJoin(a.st, part.content, es, partials, fuel);
  }

  /** A partial is rendered with `fuel - 1` in the sub-context the
      corrected choice picks: an object found under the partial's name, or
      else the current context. */
  lemma PartialRendersInSubcontext(st: State, name: string, ctx: Value, partials: Partials, fuel: nat)
    requires !Nullish(st.root) && !Nullish(ctx)
    requires partials.Some? && Trim(name) in partials.value && fuel > 0
    ensures var n := Trim(name);
            var sub := if IsObject(Get(ctx, n)) then Get(ctx, n) else ctx;
            RenderPartial(st, name, ctx, partials, fuel)
            == Render(st, partials.value[n], sub, partials, fuel - 1)
  {
  }

  /** A pragma match with a `key=value` option registers that option. */
  lemma PragmaRegistersOption(st: State, text: string, before: string, name: string,
                              key: string, value: string, after: string)
    requires Includes(st, "%", text) && name in Implemented
    requires '=' !in key && '=' !in value
    ensures var r := RenderPragmas(st, text, Some(PragmaMatch(before, name, Some(key + "=" + value), after)));
            r.Ok? && r.value.st.pragmas[name] == map[key := Str(value)] && r.value.text == before + after
  {
    OptionEntryKeyValue(key, value);
  }
}
