/**
 The renderer on small templates, each carved up the way the renderer's
 patterns carve it: a variable, an inverted section over an empty list, a
 partial that names a missing variable, a missing partial, an unknown
 pragma, and a pragma that stays registered when a later partial is
 missing. Each example is taken apart into one lemma per rendering step.
 */
module Examples {
  import opened Strings
  import opened Values
  import opened Escaping
  import opened Contexts
  import opened Templates
  import opened Directives
  import opened Rendering
  import opened Mustache
  import opened Outcomes
  import opened RenderFacts

  /** A name without surrounding white space is its own trimmed form. */
  lemma TrimBare(s: string)
    requires |s| > 0 && !IsSpace(s[0]) && !IsSpace(s[|s| - 1])
    ensures Trim(s) == s
  {
    TrimUnpadded(s);
  }

  /** The default open tag `{{` occurs in `text` at position `i`. */
  lemma OpenTagAt(st: State, text: string, i: nat)
    requires st.otag == "{{" && i + 2 <= |text| && text[i] == '{' && text[i + 1] == '{'
    ensures Includes(st, "", text)
  {
    UnescapePlain("{{");
    assert UnescapeRegex(st.otag) + "" == "{{";
    assert "{{" <= text[i..];
    ContainsAt(text, "{{", i);
  }

  /** Text without a `{` does not hold the default open tag. */
  lemma NoOpenTag(st: State, text: string)
    requires st.otag == "{{" && '{' !in text
    ensures !Includes(st, "", text)
  {
    UnescapePlain("{{");
    assert UnescapeRegex(st.otag) + "" == "{{";
    if Contains(text, "{{") {
      ContainsHead(text, "{{");
      assert false;
    }
  }

  /** One non-empty line survives `send` and joins to itself. */
  lemma NonEmptyOne(s: string)
    requires s != ""
    ensures Join(NonEmpty([s]), "\n") == s
  {
    assert [s][1..] == [];
    assert NonEmpty([s]) == [s];
  }

  /** A line holding only literal text renders to it. */
  lemma TextLine(st: State, text: string, ctx: Value, partials: Partials, fuel: nat)
    requires !Nullish(st.root) && !Nullish(ctx)
    ensures RenderLine(st, [Text(text)], ctx, partials, fuel) == Ok(Rendered(text, st))
  {
    assert text + "" == text;
    assert [Text(text)][1..] == [];
  }

  /** The one-line body of a flat template: its rendered line, state unchanged. */
  lemma OneLine(st: State, line: Line, ctx: Value, partials: Partials, fuel: nat, text: string)
    requires !Nullish(st.root) && !Nullish(ctx)
    requires RenderLine(st, line, ctx, partials, fuel) == Ok(Rendered(text, st))
    ensures RenderLines(st, [line], ctx, partials, fuel) == Ok(RenderedLines([text], st))
  {
    assert [line][1..] == [];
    assert [text] + [] == [text];
  }

  /** A line with a variable between two literal runs renders the
      variable's escaped value between them. */
  lemma VariableLine(st: State, a: string, n: string, b: string, ctx: Value, partials: Partials, fuel: nat)
    requires !Nullish(st.root) && !Nullish(ctx)
    ensures RenderLine(st, [Text(a), Tag(Escaped, n), Text(b)], ctx, partials, fuel)
            == Ok(Rendered(a + EscapeValue(Find(n, ctx, st.root)) + b, st))
  {
    var line := [Text(a), Tag(Escaped, n), Text(b)];
    var e := EscapeValue(Find(n, ctx, st.root));
    TextLine(st, b, ctx, partials, fuel);
    assert line[1..][1..] == [Text(b)];
    assert RenderLine(st, line[1..], ctx, partials, fuel) == Ok(Rendered(e + b, st));
    assert a + (e + b) == a + e + b;
  }

  /** A line ending in a variable the context lacks renders its literal run. */
  lemma MissingVariableLine(st: State, a: string, n: string, ctx: Value, partials: Partials, fuel: nat)
    requires !Nullish(st.root) && !Nullish(ctx)
    requires !KindaTruthy(Get(ctx, Trim(n))) && !KindaTruthy(Get(st.root, Trim(n)))
    ensures RenderLine(st, [Text(a), Tag(Escaped, n)], ctx, partials, fuel) == Ok(Rendered(a, st))
  {
    var line := [Text(a), Tag(Escaped, n)];
    assert Find(n, ctx, st.root) == Str("");
    assert EscapeText("") == "";
    assert line[1..][1..] == [];
    assert RenderLine(st, line[1..], ctx, partials, fuel) == Ok(Rendered("" + "", st));
    assert a + ("" + "") == a;
  }

  /** The variable of the first example, looked up in its view. */
  lemma HelloName(name: string, view: Value)
    requires name == "name" && view == Obj(map[name := Str("World")])
    ensures EscapeValue(Find(name, view, view)) == "World"
  {
    TrimBare(name);
    assert Find(name, view, view) == Str("World");
    EscapePlain("World");
  }

  lemma HelloConcat()
    ensures "Hello, " + "World" + "!" == "Hello, World!"
  {
  }

  /** `"Hello, {{name}}!"` with `{name: "World"}` gives `"Hello, World!"`. */
  lemma HelloWorld(t: Template, view: Value, partials: Partials, fuel: nat)
    requires t == Template("Hello, {{name}}!", None,
                           Flat([[Text("Hello, "), Tag(Escaped, "name"), Text("!")]]))
    requires view == Obj(map["name" := Str("World")])
    ensures ToHtml(t, view, partials, map[], fuel) == Ok(Html("Hello, World!", map[]))
  {
    var st := Fresh(map[], view);
    assert RootOf(view) == view && WithMode(map[], view) == view;
    OpenTagAt(st, t.text, 7);
    assert RenderPragmas(st, t.text, t.pragma) == Ok(Rendered(t.text, st));
    ToHtmlFlatOutput(t, view, partials, map[], fuel);
    var line := t.body.lines[0];
    VariableLine(st, "Hello, ", "name", "!", view, partials, fuel);
    HelloName("name", view);
    HelloConcat();
    OneLine(st, line, view, partials, fuel, "Hello, World!");
    assert t.body.lines == [line];
    NonEmptyOne("Hello, World!");
  }

  /** Content without tags renders to itself. */
  lemma PlainContent(st: State, content: Template, view: Value, partials: Partials, fuel: nat)
    requires st.otag == "{{" && '{' !in content.text && !Nullish(st.root) && !Nullish(view)
    ensures Render(st, content, view, partials, fuel) == Ok(Rendered(content.text, st))
  {
    NoOpenTag(st, content.text);
  }

  lemma EmptyLines(st: State, view: Value, partials: Partials, fuel: nat)
    requires !Nullish(st.root) && !Nullish(view)
    ensures RenderLines(st, [[]], view, partials, fuel) == Ok(RenderedLines([""], st))
  {
    OneLine(st, [], view, partials, fuel, "");
  }

  /** An inverted section over an empty list, with no text around it. */
  lemma InvertedPart(st: State, part: Part, view: Value, partials: Partials, fuel: nat)
    requires part.Section? && part.kind == Inverted && part.before == [[]] && part.after == [[]]
    requires st.otag == "{{" && '{' !in part.content.text
    requires !Nullish(view) && st.root == view && Find(part.name, view, view) == Arr([])
    ensures RenderSection(st, part, view, partials, fuel) == Ok(Rendered(part.content.text, st))
  {
    EmptyLines(st, view, partials, fuel);
    PlainContent(st, part.content, view, partials, fuel);
    var b := RenderedLines([""], st);
    InvertedSectionRendersOnce(st, part, view, partials, fuel, b, b);
    assert Join([""], "\n") == "";
    assert "" + part.content.text + "" == part.content.text;
  }

  /** The section name of the second example, looked up in its view. */
  lemma EmptyName(name: string, view: Value)
    requires name == "empty" && view == Obj(map[name := Arr([])])
    ensures Find(name, view, view) == Arr([])
  {
    TrimBare(name);
  }

  /** The section content of the second example is a single line without tags. */
  lemma NoneText(s: string)
    requires s == "none"
    ensures '{' !in s && SplitOn(s, '\n') == [s] && Join(NonEmpty([s]), "\n") == s
  {
    SplitOnFree(s, '\n');
    NonEmptyOne(s);
  }

  /** A body holding a single section renders to what the section renders to. */
  lemma OneSection(st: State, part: Part, ctx: Value, partials: Partials, fuel: nat)
    requires part.Section? && !Nullish(st.root) && !Nullish(ctx)
    ensures RenderParts(st, [part], ctx, partials, fuel) == RenderSection(st, part, ctx, partials, fuel)
  {
    var h := RenderSection(st, part, ctx, partials, fuel);
    assert [part][0] == part && [part][1..] == [];
    if h.Ok? {
      assert RenderParts(h.value.st, [], ctx, partials, fuel) == Ok(Rendered("", h.value.st));
      assert h.value.text + "" == h.value.text;
    }
  }

  /** The body of the second example: one inverted section. */
  lemma InvertedBody(st: State, parts: seq<Part>, view: Value, partials: Partials, fuel: nat)
    requires parts == [Section([[]], Inverted, "empty", Template("none", None, Flat([[Text("none")]])), [[]])]
    requires view == Obj(map["empty" := Arr([])]) && st.root == view && st.otag == "{{"
    ensures RenderParts(st, parts, view, partials, fuel) == Ok(Rendered("none", st))
  {
    NoneText(parts[0].content.text);
    EmptyName(parts[0].name, view);
    InvertedPart(st, parts[0], view, partials, fuel);
    OneSection(st, parts[0], view, partials, fuel);
  }

  /** A template with sections, rendered on a fresh renderer without
      pragmas into one non-empty line, gives that line. */
  lemma SectionedSingleLine(t: Template, view: Value, partials: Partials, fuel: nat, line: string)
    requires view.Obj? && t.body.Sectioned? && t.pragma.None?
    requires Includes(Fresh(map[], view), "", t.text)
    requires RenderParts(Fresh(map[], view), t.body.parts, view, partials, fuel) == Ok(Rendered(line, Fresh(map[], view)))
    requires SplitOn(line, '\n') == [line] && Join(NonEmpty([line]), "\n") == line
    ensures ToHtml(t, view, partials, map[], fuel) == Ok(Html(line, map[]))
  {
    assert RootOf(view) == view && WithMode(map[], view) == view;
    ToHtmlSectionedOutput(t, view, partials, map[], fuel);
  }

  /** `"{{^empty}}none{{/empty}}"` with `{empty: []}` gives `"none"`. */
  lemma InvertedEmptyList(t: Template, view: Value, partials: Partials, fuel: nat)
    requires t == Template("{{^empty}}none{{/empty}}", None,
                           Sectioned([Section([[]], Inverted, "empty",
                                              Template("none", None, Flat([[Text("none")]])), [[]])]))
    requires view == Obj(map["empty" := Arr([])])
    ensures ToHtml(t, view, partials, map[], fuel) == Ok(Html("none", map[]))
  {
    var st := Fresh(map[], view);
    OpenTagAt(st, t.text, 0);
    InvertedBody(st, t.body.parts, view, partials, fuel);
    NoneText(t.body.parts[0].content.text);
    SectionedSingleLine(t, view, partials, fuel, "none");
  }

  /** The partial `"hi {{x}}"` in a context without `x`. */
  lemma GreetRender(st: State, greet: Template, view: Value, partials: Partials, fuel: nat)
    requires greet == Template("hi {{x}}", None, Flat([[Text("hi "), Tag(Escaped, "x")]]))
    requires view == Obj(map[]) && st.root == view && st.otag == "{{" && st.pragmas == map[]
    ensures Render(st, greet, view, partials, fuel) == Ok(Rendered("hi ", st))
  {
    OpenTagAt(st, greet.text, 3);
    assert WithMode(st.pragmas, view) == view;
    var line := greet.body.lines[0];
    MissingVariableLine(st, "hi ", "x", view, partials, fuel);
    assert greet.body.lines == [line];
    OneLine(st, line, view, partials, fuel, "hi ");
    assert Join(["hi "], "\n") == "hi ";
  }

  /** A line holding a single partial tag renders to what the partial renders to. */
  lemma PartialLine(st: State, n: string, ctx: Value, partials: Partials, fuel: nat)
    requires !Nullish(st.root) && !Nullish(ctx)
    ensures RenderLine(st, [Tag(Partial, n)], ctx, partials, fuel) == RenderPartial(st, n, ctx, partials, fuel)
  {
    var line := [Tag(Partial, n)];
    var h := RenderPartial(st, n, ctx, partials, fuel);
    assert line[0] == Tag(Partial, n) && line[1..] == [];
    assert RenderTag(st, Partial, n, ctx, partials, fuel) == h;
    if h.Ok? {
      assert RenderLine(h.value.st, [], ctx, partials, fuel) == Ok(Rendered("", h.value.st));
      assert h.value.text + "" == h.value.text;
    }
  }

  /** The partial tag of the third example renders the partial in the
      current context, with one unit of fuel less: `{}` has no `greet`. */
  lemma GreetPartial(st: State, name: string, greet: Template, view: Value, partials: Partials, fuel: nat)
    requires view == Obj(map[]) && st.root == view
    requires name == "greet" && partials == Some(map[name := greet]) && fuel >= 1
    ensures RenderPartial(st, name, view, partials, fuel) == Render(st, greet, view, partials, fuel - 1)
  {
    TrimBare(name);
    assert PartialContext(view, name) == view;
  }

  /** The body of the third example: one line, the partial tag, which
      renders to what the partial renders to. */
  lemma GreetLines(st: State, lines: seq<Line>, greet: Template, view: Value, partials: Partials, fuel: nat)
    requires lines == [[Tag(Partial, "greet")]]
    requires view == Obj(map[]) && st.root == view
    requires partials == Some(map["greet" := greet]) && fuel >= 1
    requires Render(st, greet, view, partials, fuel - 1) == Ok(Rendered("hi ", st))
    ensures RenderLines(st, lines, view, partials, fuel) == Ok(RenderedLines(["hi "], st))
  {
    var name := lines[0][0].name;
    PartialLine(st, name, view, partials, fuel);
    GreetPartial(st, name, greet, view, partials, fuel);
    OneLine(st, lines[0], view, partials, fuel, "hi ");
    assert lines == [lines[0]];
  }

  /** `"{{>greet}}"` with `{}` and the partial `greet: "hi {{x}}"` gives
      `"hi "`: the missing `x` renders as the empty string. One level of
      partial nesting is all the example needs. */
  lemma PartialWithMissingName(t: Template, greet: Template)
    requires greet == Template("hi {{x}}", None, Flat([[Text("hi "), Tag(Escaped, "x")]]))
    requires t == Template("{{>greet}}", None, Flat([[Tag(Partial, "greet")]]))
    ensures ToHtml(t, Obj(map[]), Some(map["greet" := greet]), map[], 1) == Ok(Html("hi ", map[]))
  {
    GreetRenderFresh(greet, 0);
    GreetToHtml(t, greet, 1);
  }

  /** The third example's partial, rendered from a fresh renderer. */
  lemma GreetRenderFresh(greet: Template, fuel: nat)
    requires greet == Template("hi {{x}}", None, Flat([[Text("hi "), Tag(Escaped, "x")]]))
    ensures Render(Fresh(map[], Obj(map[])), greet, Obj(map[]), Some(map["greet" := greet]), fuel)
            == Ok(Rendered("hi ", Fresh(map[], Obj(map[]))))
  {
    GreetRender(Fresh(map[], Obj(map[])), greet, Obj(map[]), Some(map["greet" := greet]), fuel);
  }

  /** The third example's `to_html`, given what its partial renders to. */
  lemma GreetToHtml(t: Template, greet: Template, fuel: nat)
    requires t == Template("{{>greet}}", None, Flat([[Tag(Partial, "greet")]]))
    requires fuel >= 1
    requires Render(Fresh(map[], Obj(map[])), greet, Obj(map[]), Some(map["greet" := greet]), fuel - 1)
             == Ok(Rendered("hi ", Fresh(map[], Obj(map[]))))
    ensures ToHtml(t, Obj(map[]), Some(map["greet" := greet]), map[], fuel) == Ok(Html("hi ", map[]))
  {
    var view := Obj(map[]);
    var st := Fresh(map[], view);
    OpenTagAt(st, t.text, 0);
    NonEmptyOne("hi ");
    var partials := Some(map["greet" := greet]);
    GreetLines(st, t.body.lines, greet, view, partials, fuel);
    assert RootOf(view) == view && WithMode(map[], view) == view;
    assert RenderPragmas(st, t.text, t.pragma) == Ok(Rendered(t.text, st));
    ToHtmlFlatOutput(t, view, partials, map[], fuel);
  }

  /** The partial tag of the fourth example names no partial. */
  lemma MissingTag(st: State, name: string, view: Value, fuel: nat)
    requires name == "missing" && !Nullish(view) && !Nullish(st.root)
    ensures RenderPartial(st, name, view, Some(map[]), fuel) == Err(UnknownPartial(name), st.pragmas)
  {
    TrimBare(name);
  }

  /** `"{{>missing}}"` with an empty partial table fails with the trimmed name. */
  lemma MissingPartial(t: Template, fuel: nat)
    requires t == Template("{{>missing}}", None, Flat([[Tag(Partial, "missing")]]))
    ensures ToHtml(t, Obj(map[]), Some(map[]), map[], fuel) == Err(UnknownPartial("missing"), map[])
  {
    var view := Obj(map[]);
    var st := Fresh(map[], view);
    OpenTagAt(st, t.text, 0);
    var line := t.body.lines[0];
    PartialLine(st, "missing", view, Some(map[]), fuel);
    MissingTag(st, "missing", view, fuel);
    assert t.body.lines == [line];
    assert RootOf(view) == view && WithMode(map[], view) == view;
    assert RenderPragmas(st, t.text, t.pragma) == Ok(Rendered(t.text, st));
    ToHtmlFlatOutput(t, view, Some(map[]), map[], fuel);
  }

  /** `"{{%UNKNOWN}}"` fails before anything is rendered. */
  lemma UnknownPragma(t: Template, partials: Partials, fuel: nat)
    requires t == Template("{{%UNKNOWN}}", Some(PragmaMatch("", "UNKNOWN", None, "")), Flat([[]]))
    ensures ToHtml(t, Obj(map[]), partials, map[], fuel) == Err(UnsupportedPragma("UNKNOWN"), map[])
  {
    var st := Fresh(map[], Obj(map[]));
    OpenTagAt(st, t.text, 0);
    UnescapePlain("{{");
    assert UnescapeRegex(st.otag) + "%" == "{{%";
    assert "{{%" <= t.text;
    ContainsAt(t.text, "{{%", 0);
    assert "UNKNOWN" !in Implemented;
  }

  /** A partial tag with no partial table fails, keeping the registry. */
  lemma NoPartials(st: State, name: string, view: Value, fuel: nat)
    requires name == "missing" && !Nullish(view) && !Nullish(st.root)
    ensures RenderLines(st, [[], [Tag(Partial, name)]], view, None, fuel)
            == Err(UnknownPartial(name), st.pragmas)
  {
    TrimBare(name);
    var lines := [[], [Tag(Partial, name)]];
    assert RenderLine(st, lines[0], view, None, fuel) == Ok(Rendered("", st));
    PartialLine(st, name, view, None, fuel);
    assert lines[1..] == [[Tag(Partial, name)]] && lines[1..][1..] == [];
  }

  /** A text that starts with `{{%` holds the default open tag, followed by `%`. */
  lemma PragmaSigilAhead(st: State, text: string, rest: string)
    requires st.otag == "{{" && text == "{{%" + rest
    ensures Includes(st, "", text) && Includes(st, "%", text)
  {
    OpenTagAt(st, text, 0);
    UnescapePlain("{{");
    assert UnescapeRegex(st.otag) + "%" == "{{%";
    assert "{{%" <= text[0..];
    ContainsAt(text, "{{%", 0);
  }

  /** The option `iterator=it` registers `iterator ↦ "it"`. */
  lemma ItOption(o: string)
    requires o == "iterator=it"
    ensures OptionEntry(o) == map["iterator" := Str("it")]
  {
    assert "iterator" + "=" + "it" == o;
    OptionEntryKeyValue("iterator", "it");
  }

  /** The pragma pass of the sixth example registers the iterator option. */
  lemma ItPragmaPass(st: State, text: string, pm: PragmaMatch)
    requires Includes(st, "%", text)
    requires pm == PragmaMatch("", "IMPLICIT-ITERATOR", Some("iterator=it"), "\n{{>missing}}")
    ensures RenderPragmas(st, text, Some(pm))
            == Ok(Rendered(pm.after, st.(pragmas := st.pragmas["IMPLICIT-ITERATOR" := map["iterator" := Str("it")]])))
  {
    ItOption(pm.option.value);
    assert pm.name in Implemented;
    assert pm.before + pm.after == pm.after;
  }

  /** `"{{%IMPLICIT-ITERATOR iterator=it}}\n{{>missing}}"` without partials
      fails with `unknown_partial 'missing'`, and the failure hands back the
      registry with the pragma and its option registered. */
  lemma PragmaSurvivesMissingPartial(t: Template, fuel: nat)
    requires t == Template("{{%" + "IMPLICIT-ITERATOR iterator=it}}\n{{>missing}}",
                           Some(PragmaMatch("", "IMPLICIT-ITERATOR", Some("iterator=it"), "\n{{>missing}}")),
                           Flat([[], [Tag(Partial, "missing")]]))
    ensures ToHtml(t, Obj(map[]), None, map[], fuel)
            == Err(UnknownPartial("missing"), map["IMPLICIT-ITERATOR" := map["iterator" := Str("it")]])
  {
    var view := Obj(map[]);
    var st := Fresh(map[], view);
    PragmaSigilAhead(st, t.text, "IMPLICIT-ITERATOR iterator=it}}\n{{>missing}}");
    ItPragmaPass(st, t.text, t.pragma.value);
    var ps := st.(pragmas := map["IMPLICIT-ITERATOR" := map["iterator" := Str("it")]]);
    NoPartials(ps, "missing", view, fuel);
    assert RootOf(view) == view && WithMode(map[], view) == view;
    ToHtmlFlatOutput(t, view, None, map[], fuel);
  }
}
