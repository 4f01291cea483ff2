/**
 The two escapers of the renderer: `escape`, which makes a value safe to
 splice into HTML, and `escape_regex`, which turns a delimiter token into a
 pattern that matches it literally.
 */
module Escaping {
  import opened Strings
  import opened Values

  /** `\w`: ASCII letters, digits and underscore. */
  predicate IsWordChar(c: char)
  {
    ('a' <= c <= 'z') || ('A' <= c <= 'Z') || ('0' <= c <= '9') || c == '_'
  }

  /** The lookahead `\w+;`: one or more word characters, then a semicolon. */
  predicate EntityAhead(t: string)
    decreases |t|
  {
    |t| >= 2 && IsWordChar(t[0]) && (t[1] == ';' || EntityAhead(t[1..]))
  }

  /** A character the HTML escaper may rewrite. */
  predicate IsHtmlSpecial(c: char)
  {
    c == '&' || c == '"' || c == '\'' || c == '<' || c == '>' || c == '\\'
  }

  /** A character that may not appear in escaped output. */
  predicate IsMarkup(c: char)
  {
    c == '"' || c == '\'' || c == '<' || c == '>'
  }

  /** The replacement for the character `c` followed by the text `rest`. */
  function EscapeChar(c: char, rest: string): string
  {
    if c == '&' then (if EntityAhead(rest) then "&" else "&amp;")
    else if c == '\\' then "\\\\"
    else if c == '"' then "&quot;"
    else if c == '\'' then "&#39;"
    else if c == '<' then "&lt;"
    else if c == '>' then "&gt;"
    else [c]
  }

  /** The pattern `&(?!\w+;)|["'<>\\]` replaced globally; since every
      alternative matches one character, the scan is character by character. */
  function EscapeText(s: string): (r: string)
    ensures forall i :: 0 <= i < |r| ==> !IsMarkup(r[i])
    ensures |r| >= |s|
    decreases |s|
  {
    if |s| == 0 then "" else EscapeChar(s[0], s[1..]) + EscapeText(s[1..])
  }

  /** `escape(v)`: `null` becomes empty, anything else is stringified and
      escaped (so `undefined` becomes the text "undefined"). */
  function EscapeValue(v: Value): (r: string)
    ensures forall i :: 0 <= i < |r| ==> !IsMarkup(r[i])
    ensures v.Null? ==> r == ""
  {
    EscapeText(if v.Null? then "" else ToStr(v))
  }

  /** Text with none of the characters the escaper rewrites is left as it is. */
  lemma {:induction false} EscapePlain(s: string)
    requires forall i :: 0 <= i < |s| ==> !IsHtmlSpecial(s[i])
    ensures EscapeText(s) == s
    decreases |s|
  {
    if |s| > 0 {
      EscapePlain(s[1..]);
    }
  }

  /** After an `&` of the output comes a named entity body (`amp;`) or a
      numeric one (`#39;`). */
  predicate StartsEntity(t: string)
  {
    EntityAhead(t) || (|t| > 0 && t[0] == '#' && EntityAhead(t[1..]))
  }

  /** No ampersand of `r` is bare. */
  predicate AmpersandsAreEntities(r: string)
    decreases |r|
  {
    |r| == 0 || ((r[0] == '&' ==> StartsEntity(r[1..])) && AmpersandsAreEntities(r[1..]))
  }

  /** Word characters and semicolons are copied, so an entity body ahead of
      an input position is still ahead of it in the output. */
  lemma {:induction false} EntityAheadEscaped(t: string)
    requires EntityAhead(t)
    ensures EntityAhead(EscapeText(t))
    decreases |t|
  {
    assert EscapeChar(t[0], t[1..]) == [t[0]];
    var e := EscapeText(t[1..]);
    assert EscapeText(t) == [t[0]] + e;
    assert EscapeText(t)[1..] == e;
    if t[1] == ';' {
      assert EscapeChar(t[1], t[2..]) == [';'];
      assert t[1..][1..] == t[2..];
      assert e[0] == ';';
    } else {
      EntityAheadEscaped(t[1..]);
    }
  }

  lemma {:induction false} WordsThenSemi(w: string, e: string)
    requires |w| >= 1 && forall i :: 0 <= i < |w| ==> IsWordChar(w[i])
    ensures EntityAhead(w + ";" + e)
    ensures AmpersandsAreEntities(e) ==> AmpersandsAreEntities(w + ";" + e)
    decreases |w|
  {
    var t := w + ";" + e;
    assert t[0] == w[0];
    if |w| == 1 {
      assert t[1] == ';';
      assert t[1..] == ";" + e;
      assert (";" + e)[1..] == e;
    } else {
      assert t[1..] == w[1..] + ";" + e;
      WordsThenSemi(w[1..], e);
    }
  }

  /** A named entity spelled out in front of well-escaped text keeps it well escaped. */
  lemma NamedEntityPrefix(w: string, e: string)
    requires |w| >= 1 && forall i :: 0 <= i < |w| ==> IsWordChar(w[i])
    requires AmpersandsAreEntities(e)
    ensures AmpersandsAreEntities("&" + w + ";" + e)
  {
    WordsThenSemi(w, e);
    var t := w + ";" + e;
    assert ("&" + w + ";" + e) == "&" + t;
    assert ("&" + t)[1..] == t;
  }

  /** So does a numeric one. */
  lemma NumericEntityPrefix(w: string, e: string)
    requires |w| >= 1 && forall i :: 0 <= i < |w| ==> IsWordChar(w[i])
    requires AmpersandsAreEntities(e)
    ensures AmpersandsAreEntities("&#" + w + ";" + e)
  {
    WordsThenSemi(w, e);
    var t := w + ";" + e;
    var h := "#" + t;
    assert h[1..] == t;
    assert StartsEntity(h);
    assert ("&#" + w + ";" + e) == "&" + h;
    assert ("&" + h)[1..] == h;
  }

  /** One escaped character in front of well-escaped text keeps it well
      escaped, given that a kept `&` sees an entity body in `e`. */
  lemma EscapeCharKeepsEntities(c: char, rest: string, e: string)
    requires AmpersandsAreEntities(e)
    requires c == '&' && EntityAhead(rest) ==> EntityAhead(e)
    ensures AmpersandsAreEntities(EscapeChar(c, rest) + e)
  {
    var piece := EscapeChar(c, rest);
    if c == '&' && EntityAhead(rest) {
      assert piece + e == "&" + e;
      assert ("&" + e)[1..] == e;
    } else if c == '&' || c == '"' || c == '\'' || c == '<' || c == '>' {
      ReferenceKeepsEntities(c, rest, e);
    } else if c == '\\' {
      assert piece + e == "\\\\" + e;
      assert ("\\\\" + e)[1..] == "\\" + e;
      assert ("\\" + e)[1..] == e;
    } else {
      assert piece + e == [c] + e;
      assert ([c] + e)[1..] == e;
    }
  }

  /** The characters replaced by an entity reference. */
  lemma ReferenceKeepsEntities(c: char, rest: string, e: string)
    requires AmpersandsAreEntities(e)
    requires (c == '&' && !EntityAhead(rest)) || c == '"' || c == '\'' || c == '<' || c == '>'
    ensures AmpersandsAreEntities(EscapeChar(c, rest) + e)
  {
    var piece := EscapeChar(c, rest);
    if c == '&' {
      assert piece + e == "&" + "amp" + ";" + e;
      NamedEntityPrefix("amp", e);
    } else if c == '"' {
      assert piece + e == "&" + "quot" + ";" + e;
      NamedEntityPrefix("quot", e);
    } else if c == '\'' {
      assert piece + e == "&#" + "39" + ";" + e;
      NumericEntityPrefix("39", e);
    } else if c == '<' {
      assert piece + e == "&" + "lt" + ";" + e;
      NamedEntityPrefix("lt", e);
    } else {
      assert piece + e == "&" + "gt" + ";" + e;
      NamedEntityPrefix("gt", e);
    }
  }

  /** Every ampersand the escaper emits begins an entity reference. */
  lemma {:induction false} EscapeLeavesNoBareAmpersand(s: string)
    ensures AmpersandsAreEntities(EscapeText(s))
    decreases |s|
  {
    if |s| > 0 {
      EscapeLeavesNoBareAmpersand(s[1..]);
      if s[0] == '&' && EntityAhead(s[1..]) {
        EntityAheadEscaped(s[1..]);
      }
      EscapeCharKeepsEntities(s[0], s[1..], EscapeText(s[1..]));
    }
  }

  /** The `\w+;` lookahead at position `i` of `s`, by scanning forward. */
  method EntityAheadAt(s: string, i: nat) returns (b: bool)
    requires i <= |s|
    ensures b == EntityAhead(s[i..])
  {
    var j := i;
    while j < |s| && IsWordChar(s[j])
      invariant i <= j <= |s|
      invariant forall k :: i <= k < j ==> IsWordChar(s[k])
      invariant j > i ==> (EntityAhead(s[i..]) <==> EntityAhead(s[j - 1..]))
      decreases |s| - j
    {
      if j > i {
        assert s[j - 1..][1..] == s[j..];
      }
      j := j + 1;
    }
    b := j > i && j < |s| && s[j] == ';';
    if j > i {
      var t := s[j - 1..];
      assert t[1..] == s[j..];
      if j < |s| {
        assert t[1] == s[j];
      }
      if j < |s| && s[j] != ';' {
        assert !EntityAhead(s[j..]);
      }
    }
  }

  /** The replacement the regex callback returns for position `i`: an
      unmatched character is copied, a matched one never leaves markup, and
      an ampersand stays bare exactly when an entity follows it. */
  method EscapeAt(s: string, i: nat) returns (piece: string)
    requires i < |s|
    ensures !IsHtmlSpecial(s[i]) ==> piece == [s[i]]
    ensures IsHtmlSpecial(s[i]) ==> forall k :: 0 <= k < |piece| ==> !IsMarkup(piece[k])
    ensures s[i] == '&' ==> (piece == "&" <==> EntityAhead(s[i + 1..]))
    ensures s[i] == '&' && !EntityAhead(s[i + 1..]) ==> piece == "&amp;"
    ensures s[i] == '\\' ==> piece == "\\\\"
    ensures piece == EscapeChar(s[i], s[i + 1..])
  {
    var c := s[i];
    if c == '&' {
      var entity := EntityAheadAt(s, i + 1);
      piece := if entity then "&" else "&amp;";
    } else if c == '\\' {
      piece := "\\\\";
    } else if c == '"' {
      piece := "&quot;";
    } else if c == '\'' {
      piece := "&#39;";
    } else if c == '<' {
      piece := "&lt;";
    } else if c == '>' {
      piece := "&gt;";
    } else {
      piece := [c];
    }
  }

  /** The escaper as the regex engine runs it: one left-to-right pass that
      rewrites each matched character and copies the rest. */
  method Escape(s: string) returns (r: string)
    ensures r == EscapeText(s)
  {
    r := "";
    var i := 0;
    while i < |s|
      invariant 0 <= i <= |s|
      invariant r + EscapeText(s[i..]) == EscapeText(s)
      decreases |s| - i
    {
      var piece := EscapeAt(s, i);
      assert s[i..][1..] == s[i + 1..];
      assert EscapeText(s[i..]) == piece + EscapeText(s[i + 1..]);
      assert (r + piece) + EscapeText(s[i + 1..]) == r + (piece + EscapeText(s[i + 1..]));
      r := r + piece;
      i := i + 1;
    }
  }

  /** The characters `escape_regex` protects with a backslash. */
  predicate IsRegexSpecial(c: char)
  {
    c == '/' || c == '.' || c == '*' || c == '+' || c == '?' || c == '|'
    || c == '(' || c == ')' || c == '[' || c == ']' || c == '{' || c == '}' || c == '\\'
  }

  /** The characters with a meaning of their own in a pattern: the
      syntax characters of ECMAScript regular expressions, which add the
      anchors `^` and `$` to the list above, and `/`. */
  predicate IsSyntaxChar(c: char)
  {
    IsRegexSpecial(c) || c == '^' || c == '$'
  }

  /** A pattern in which every syntax character is preceded by a backslash
      and every backslash escapes a syntax character, so that it matches its
      own text literally (`\d`, `\w` or `\b` would stand for a class). */
  predicate IsLiteralPattern(p: string)
    decreases |p|
  {
    |p| == 0
    || (p[0] == '\\' && |p| >= 2 && IsSyntaxChar(p[1]) && IsLiteralPattern(p[2..]))
    || (!IsSyntaxChar(p[0]) && IsLiteralPattern(p[1..]))
  }

  /** `escape_regex(text)` as written: a backslash before each character of
      its list, which leaves `^` and `$` bare. It agrees with the corrected
      escape on every token without an anchor. */
  function EscapeRegexAsWritten(t: string): (p: string)
    ensures |p| >= |t|
    ensures '^' !in t && '$' !in t ==> p == EscapeRegex(t)
    decreases |t|
  {
    if |t| == 0 then ""
    else
      var rest := EscapeRegexAsWritten(t[1..]);
      assert '^' !in t && '$' !in t ==> '^' !in t[1..] && '$' !in t[1..];
      if IsRegexSpecial(t[0]) then ['\\', t[0]] + rest else [t[0]] + rest
  }

  /** `escape_regex(text)` as intended: a backslash before each syntax
      character, so the pattern matches the token literally. */
  function EscapeRegex(t: string): (p: string)
    ensures IsLiteralPattern(p)
    ensures |p| >= |t|
    decreases |t|
  {
    if |t| == 0 then ""
    else
      var rest := EscapeRegex(t[1..]);
      if IsSyntaxChar(t[0]) then
        var p := ['\\', t[0]] + rest;
        assert p[2..] == rest;
        p
      else
        var p := [t[0]] + rest;
        assert p[1..] == rest;
        p
  }

  /** The literal text a pattern stands for: each backslash escape gives
      the escaped character. */
  function UnescapeRegex(p: string): string
    decreases |p|
  {
    if |p| == 0 then ""
    else if p[0] == '\\' && |p| >= 2 then [p[1]] + UnescapeRegex(p[2..])
    else [p[0]] + UnescapeRegex(p[1..])
  }

  /** Unescaping inverts the escape: the pattern's literal reading is the token. */
  lemma {:induction false} UnescapeEscapeRegex(t: string)
    ensures UnescapeRegex(EscapeRegex(t)) == t
    decreases |t|
  {
    if |t| > 0 {
      UnescapeEscapeRegex(t[1..]);
      var rest := EscapeRegex(t[1..]);
      if IsSyntaxChar(t[0]) {
        assert (['\\', t[0]] + rest)[2..] == rest;
      } else {
        assert ([t[0]] + rest)[1..] == rest;
      }
      assert [t[0]] + t[1..] == t;
    }
  }

  /** The corrected escape is the only literal pattern for its token: a
      literal pattern is the escape of the text it stands for. */
  lemma {:induction false} EscapeRegexUnique(p: string)
    requires IsLiteralPattern(p)
    ensures EscapeRegex(UnescapeRegex(p)) == p
    decreases |p|
  {
    if |p| > 0 {
      if p[0] == '\\' && |p| >= 2 && IsSyntaxChar(p[1]) && IsLiteralPattern(p[2..]) {
        EscapeRegexUnique(p[2..]);
        var u := [p[1]] + UnescapeRegex(p[2..]);
        assert u[1..] == UnescapeRegex(p[2..]);
        assert ['\\', p[1]] + p[2..] == p;
      } else {
        EscapeRegexUnique(p[1..]);
        var u := [p[0]] + UnescapeRegex(p[1..]);
        assert u[1..] == UnescapeRegex(p[1..]);
        assert [p[0]] + p[1..] == p;
      }
    }
  }

  /** Text without a backslash denotes itself (the initial `{{` and `}}`). */
  lemma {:induction false} UnescapePlain(p: string)
    requires '\\' !in p
    ensures UnescapeRegex(p) == p
    decreases |p|
  {
    if |p| > 0 {
      assert '\\' !in p[1..];
      UnescapePlain(p[1..]);
      assert [p[0]] + p[1..] == p;
    }
  }
}
