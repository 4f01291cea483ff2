/**
 The public entry point `to_html` and the output buffer: a fresh renderer
 renders the template at the top level, sending its lines to the buffer,
 which is then joined with newlines.

 The pragma registry lives on the renderer's prototype and so outlives the
 call; it is passed in and handed back explicitly.
 */
module Mustache {
  import opened Strings
  import opened Values
  import opened Escaping
  import opened Contexts
  import opened Templates
  import opened Directives
  import opened Rendering
  import opened Outcomes

  /** `send(line)`: a non-empty line is appended to the buffer. */
  function Send(st: State, line: string): (r: State)
    ensures r == st.(buffer := r.buffer)
    ensures line == "" ==> r.buffer == st.buffer
    ensures line != "" ==> r.buffer == st.buffer + [line]
  {
    if line != "" then st.(buffer := st.buffer + [line]) else st
  }

  /** `send` applied to each line in turn: exactly the non-empty lines are
      appended, in order, and nothing else changes. */
  function SendAll(st: State, lines: seq<string>): (r: State)
    ensures r == st.(buffer := st.buffer + NonEmpty(lines))
    decreases |lines|
  {
    if |lines| == 0 then st
    else
      var r := SendAll(Send(st, lines[0]), lines[1..]);
      assert lines[0] != "" ==>
        st.buffer + [lines[0]] + NonEmpty(lines[1..]) == st.buffer + ([lines[0]] + NonEmpty(lines[1..]));
      r
  }

  /** The non-empty lines, in order. */
  function NonEmpty(lines: seq<string>): (r: seq<string>)
    ensures forall i :: 0 <= i < |r| ==> r[i] != ""
    ensures |r| <= |lines|
  {
    if |lines| == 0 then []
    else if lines[0] == "" then NonEmpty(lines[1..])
    else [lines[0]] + NonEmpty(lines[1..])
  }

  /** The filter keeps only lines that were sent, and keeps all of them
      when none is empty. */
  lemma {:induction false} NonEmptyKeepsSent(lines: seq<string>)
    ensures forall i :: 0 <= i < |NonEmpty(lines)| ==> NonEmpty(lines)[i] in lines
    ensures (forall i :: 0 <= i < |lines| ==> lines[i] != "") ==> NonEmpty(lines) == lines
    decreases |lines|
  {
    if |lines| > 0 {
      NonEmptyKeepsSent(lines[1..]);
      assert forall i :: 1 <= i < |lines| ==> lines[1..][i - 1] == lines[i];
      assert forall x :: x in lines[1..] ==> x in lines;
      if lines[0] != "" {
        assert [lines[0]] + lines[1..] == lines;
      }
    }
  }

  /** Sent lines without a newline of their own come back, one by one, when
      the joined buffer is split on newlines again. */
  lemma SentLinesSplitBack(lines: seq<string>)
    requires forall i :: 0 <= i < |lines| ==> '\n' !in lines[i]
    ensures NonEmpty(lines) != [] ==> SplitOn(Join(NonEmpty(lines), "\n"), '\n') == NonEmpty(lines)
  {
    var sent := NonEmpty(lines);
    NonEmptyKeepsSent(lines);
    if sent != [] {
      assert forall i :: 0 <= i < |sent| ==> '\n' !in sent[i];
      assert "\n" == ['\n'];
      SplitJoin(sent, '\n');
    }
  }

  /** The result of `to_html` and the registry the call leaves behind. */
  datatype Html = Html(output: string, pragmas: Pragmas)

  /** The registry a call leaves behind, whether it succeeds or fails. */
  function Registry(r: Result<Html>): Pragmas
  {
    if r.Ok? then r.value.pragmas else r.pragmas
  }

  /** A renderer in its initial state, for the view `root`. */
  function Fresh(pragmas: Pragmas, root: Value): State
  {
    State("{{", "}}", pragmas, [], root)
  }

  /** The view `to_html` renders in: `view || {}`. */
  function RootOf(view: Value): (r: Value)
    ensures !Nullish(r)
    ensures Truthy(view) ==> r == view
    ensures !Truthy(view) ==> r == Obj(map[])
  {
    if Truthy(view) then view else Obj(map[])
  }

  /** `to_html(template, view, partials)`: `render` at the top level with
      the view (or `{}` when it is falsy) as root, then the buffer joined
      with newlines. A text without the open tag comes back unchanged, and
      no pragma registered before or during the call is ever dropped, not
      even when the call fails. */
  function ToHtml(t: Template, view: Value, partials: Partials, pragmas: Pragmas, fuel: nat): (r: Result<Html>)
    ensures pragmas.Keys <= Registry(r).Keys
    ensures !Includes(Fresh(pragmas, RootOf(view)), "", t.text) ==> r == Ok(Html(t.text, pragmas))
  {
    var root := RootOf(view);
    var st := Fresh(pragmas, root);
    if !Includes(st, "", t.text) then
      assert SendAll(st, [t.text]) == Send(st, t.text);
      assert Join(NonEmpty([t.text]), "\n") == t.text by {
        if t.text != "" { assert [t.text][1..] == []; }
      }
      Ok(Html(Join(Send(st, t.text).buffer, "\n"), pragmas))
    else
      var ctx := WithMode(pragmas, root);
      // `this.context` and `context` are the same object, so the root sees `_mode` too.
      var p :- RenderPragmas(st.(root := ctx), t.text, t.pragma);
      match t.body
      case Flat(lines) =>
        var o :- RenderLines(p.st, lines, ctx, partials, fuel);
        var done := SendAll(o.st, o.lines);
        Ok(Html(Join(done.buffer, "\n"), done.pragmas))
      case Sectioned(parts) =>
        var o :- RenderParts(p.st, parts, ctx, partials, fuel);
        var done := SendAll(o.st, SplitOn(o.text, '\n'));
        Ok(Html(Join(done.buffer, "\n"), done.pragmas))
  }
}
