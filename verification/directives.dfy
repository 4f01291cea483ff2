/**
 The directives that change the renderer's state rather than produce text:
 the open-tag test `includes`, the delimiter change `set_delimiters` and
 the pragma pass `render_pragmas`.
 */
module Directives {
  import opened Strings
  import opened Values
  import opened Escaping
  import opened Contexts
  import opened Templates
  import opened Outcomes

  /** `includes(needle, haystack)` as written: `otag` is a regular-expression
      source, yet it is searched for as plain text. */
  function IncludesAsWritten(st: State, needle: string, haystack: string): (b: bool)
    ensures b <==> exists i :: 0 <= i <= |haystack| && st.otag + needle <= haystack[i..]
  {
    ContainsIndex(haystack, st.otag + needle);
    Contains(haystack, st.otag + needle)
  }

  /** `includes(needle, haystack)` as intended: the haystack contains the
      open tag the template author wrote, followed by `needle`. */
  function Includes(st: State, needle: string, haystack: string): (b: bool)
    ensures b <==> exists i :: 0 <= i <= |haystack| && UnescapeRegex(st.otag) + needle <= haystack[i..]
  {
    ContainsIndex(haystack, UnescapeRegex(st.otag) + needle);
    Contains(haystack, UnescapeRegex(st.otag) + needle)
  }

  /** The as-written and the corrected test agree while the open tag holds
      no backslash: from the start of a call, and after any delimiter change
      whose open token needed no escaping. */
  lemma IncludesAgree(st: State, needle: string, haystack: string)
    requires '\\' !in st.otag
    ensures IncludesAsWritten(st, needle, haystack) == Includes(st, needle, haystack)
  {
    UnescapePlain(st.otag);
  }

  /** The payload of `{{=open close=}}` has a second token exactly when it
      contains a space. */
  lemma SplitHasSecond(d: string)
    ensures |SplitOn(d, ' ')| >= 2 <==> ' ' in d
  {
    if ' ' !in d {
      SplitOnFree(d, ' ');
    }
  }

  /** `set_delimiters`: split the payload on a space and store both tokens,
      regex-escaped by the corrected `EscapeRegex`, anchors included.
      Without a space `dels[1]` is undefined and `escape_regex` throws.
      Only the two tags change. */
  function SetDelimiters(st: State, delimiters: string): (r: Result<State>)
    ensures r.Ok? <==> ' ' in delimiters
    ensures r.Err? ==> r.error.TypeError? && r.pragmas == st.pragmas
    ensures r.Ok? ==> IsLiteralPattern(r.value.otag) && IsLiteralPattern(r.value.ctag)
    ensures r.Ok? ==> r.value.pragmas == st.pragmas && r.value.buffer == st.buffer
                      && r.value.root == st.root
  {
    SplitHasSecond(delimiters);
    var dels := SplitOn(delimiters, ' ');
    if |dels| < 2 then Err(TypeError("escape_regex of undefined"), st.pragmas)
    else Ok(st.(otag := EscapeRegex(dels[0]), ctag := EscapeRegex(dels[1])))
  }

  /** `{{=o c=}}` with space-free tokens stores tags that unescape to `o`
      and `c`, which is what the open-tag tests look for afterwards. */
  lemma SetDelimitersTokens(st: State, o: string, c: string)
    requires ' ' !in o && ' ' !in c
    ensures SetDelimiters(st, o + " " + c).Ok?
    ensures UnescapeRegex(SetDelimiters(st, o + " " + c).value.otag) == o
    ensures UnescapeRegex(SetDelimiters(st, o + " " + c).value.ctag) == c
  {
    assert Join([o, c], " ") == o + " " + c;
    SplitJoin([o, c], ' ');
    UnescapeEscapeRegex(o);
    UnescapeEscapeRegex(c);
  }

  /** After a delimiter change the corrected `includes` looks for the new
      open tag as the author wrote it. */
  lemma IncludesFindsNewDelimiter(st: State, o: string, c: string, needle: string, haystack: string)
    requires ' ' !in o && ' ' !in c
    ensures SetDelimiters(st, o + " " + c).Ok?
    ensures Includes(SetDelimiters(st, o + " " + c).value, needle, haystack)
            <==> Contains(haystack, o + needle)
  {
    SetDelimitersTokens(st, o, c);
  }

  /** The option map a pragma match registers: `options.split("=")`, the
      first part as key and the second, when there is one, as value. */
  function OptionEntry(option: string): (r: map<string, Value>)
    ensures |r| == 1
  {
    var opts := SplitOn(option, '=');
    map[opts[0] := if |opts| >= 2 then Str(opts[1]) else Undef]
  }

  /** A `key=value` option as the pattern admits it registers `key ↦ value`. */
  lemma OptionEntryKeyValue(key: string, value: string)
    requires '=' !in key && '=' !in value
    ensures OptionEntry(key + "=" + value) == map[key := Str(value)]
  {
    assert Join([key, value], "=") == key + "=" + value;
    SplitJoin([key, value], '=');
  }

  /** `render_pragmas`: without `otag%` the text is returned as is;
      otherwise the first match of the pragma pattern (the pattern has no
      `g` flag) is handled: an unimplemented name fails, an implemented one
      is registered, with its option if any, and its tag removed. */
  function RenderPragmas(st: State, text: string, m: Option<PragmaMatch>): (r: Result<Rendered>)
    ensures !Includes(st, "%", text) || m.None? ==> r == Ok(Rendered(text, st))
    ensures r.Err? <==> Includes(st, "%", text) && m.Some? && m.value.name !in Implemented
    ensures r.Err? ==> r.error == UnsupportedPragma(m.value.name) && r.pragmas == st.pragmas
    ensures r.Ok? ==> r.value.st == st.(pragmas := r.value.st.pragmas)
    ensures r.Ok? && Includes(st, "%", text) && m.Some? ==>
              && r.value.text == m.value.before + m.value.after
              && r.value.st.pragmas.Keys == st.pragmas.Keys + {m.value.name}
              && (forall p :: p in st.pragmas && p != m.value.name ==>
                    r.value.st.pragmas[p] == st.pragmas[p])
  {
    if !Includes(st, "%", text) then Ok(Rendered(text, st))
    else match m
      case None => Ok(Rendered(text, st))
      case Some(pm) =>
        if pm.name !in Implemented then Err(UnsupportedPragma(pm.name), st.pragmas)
        else
          var opts := if pm.option.Some? && pm.option.value != "" then OptionEntry(pm.option.value) else map[];
          Ok(Rendered(pm.before + pm.after, st.(pragmas := st.pragmas[pm.name := opts])))
  }

  /** Registering a pragma again replaces its options: `{{%NAME}}` after
      `{{%NAME k=v}}` leaves it with none. */
  lemma PragmaReregistrationClearsOptions(st: State, text: string, pm: PragmaMatch)
    requires Includes(st, "%", text) && pm.name in Implemented && pm.option.None?
    ensures RenderPragmas(st, text, Some(pm)).Ok?
    ensures RenderPragmas(st, text, Some(pm)).value.st.pragmas[pm.name] == map[]
  {
  }
}
