/**
 Three places where the renderer as written departs from what it evidently
 means to do, each shown on a concrete input next to the corrected
 definition the rest of the model uses.
 */
module Findings {
  import opened Strings
  import opened Values
  import opened Escaping
  import opened Contexts
  import opened Templates
  import opened Directives
  import opened Mustache

  /** The payload `[[ ]]` splits into its two tokens. */
  lemma SquareTokens(d: string)
    requires d == "[[ ]]"
    ensures SplitOn(d, ' ') == ["[[", "]]"]
  {
    assert Join(["[[", "]]"], " ") == d;
    SplitJoin(["[[", "]]"], ' ');
  }

  /** `escape_regex("[[")` is `\[\[`. */
  lemma EscapeSquare(t: string)
    requires t == "[["
    ensures EscapeRegex(t) == "\\[\\["
  {
    assert EscapeRegex(t[1..]) == "\\[";
  }

  /** `{{=[[ ]]=}}` on a fresh renderer stores `[[` as the pattern `\[\[`. */
  lemma SquareDelimiters()
    ensures SetDelimiters(Fresh(map[], Obj(map[])), "[[ ]]").Ok?
    ensures SetDelimiters(Fresh(map[], Obj(map[])), "[[ ]]").value.otag == "\\[\\["
  {
    SquareTokens("[[ ]]");
    EscapeSquare("[[");
  }

  /** After `{{=[[ ]]=}}` the test as written looks for the pattern `\[\[`
      literally and so misses the tag in `[[x]]`, which makes `render`
      return that template unrendered; the corrected test finds it. */
  lemma IncludesMissesEscapedDelimiter()
    ensures SetDelimiters(Fresh(map[], Obj(map[])), "[[ ]]").Ok?
    ensures var st := SetDelimiters(Fresh(map[], Obj(map[])), "[[ ]]").value;
            !IncludesAsWritten(st, "", "[[x]]") && Includes(st, "", "[[x]]")
  {
    SquareDelimiters();
    var st := SetDelimiters(Fresh(map[], Obj(map[])), "[[ ]]").value;
    PatternAbsent(st.otag, "[[x]]");
    PatternStandsForTag(st.otag, "[[x]]");
  }

  /** The text `[[x]]` holds no backslash, so not the pattern `\[\[`. */
  lemma PatternAbsent(p: string, h: string)
    requires p == "\\[\\[" && h == "[[x]]"
    ensures !Contains(h, p + "")
  {
    assert p + "" == p;
    if Contains(h, p) {
      ContainsHead(h, p);
      assert false;
    }
  }

  /** The pattern `\[\[` stands for `[[`, which `[[x]]` starts with. */
  lemma PatternStandsForTag(p: string, h: string)
    requires p == "\\[\\[" && h == "[[x]]"
    ensures Contains(h, UnescapeRegex(p) + "")
  {
    assert p[2..] == "\\[" && p[2..][2..] == "";
    assert UnescapeRegex(p[2..]) == "[";
    assert UnescapeRegex(p) == "[[";
    assert "[[" + "" <= h;
  }

  /** The open tag `<$` of `{{=<$ $>=}}`: `escape_regex` as written leaves
      the `$` bare, so the stored tag is the pattern `<$`, in which `$` is an
      end-of-input anchor and no tag followed by more text can match; the
      corrected escape stores `<\$`, which matches `<$` literally. */
  lemma AnchorLeftBare(t: string)
    requires t == "<$"
    ensures EscapeRegexAsWritten(t) == t && !IsLiteralPattern(t)
    ensures EscapeRegex(t) == "<\\$" && IsLiteralPattern(EscapeRegex(t))
  {
    assert t[1..] == "$" && t[1..][1..] == "";
    assert EscapeRegexAsWritten(t[1..]) == "$";
    assert EscapeRegex(t[1..]) == "\\$";
    assert !IsLiteralPattern(t[1..]);
  }

  /** For a view whose member named like the partial is `null`, the choice
      as written (`typeof null == "object"`) makes `null` the partial's
      context, where every later property read throws; the corrected
      choice keeps the current context. */
  lemma NullPartialContextAsWritten()
    ensures PartialContextAsWritten(Obj(map["p" := Null]), "p") == Null
    ensures Property(PartialContextAsWritten(Obj(map["p" := Null]), "p"), "x").None?
    ensures PartialContext(Obj(map["p" := Null]), "p") == Obj(map["p" := Null])
    ensures Property(PartialContext(Obj(map["p" := Null]), "p"), "x") == Some(Undef)
  {
  }
}
