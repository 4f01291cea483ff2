# mustache.js 0.3 renderer, modelled in Dafny

This project models the renderer of mustache.js 0.3.1-dev. That is the
`Renderer` object behind `Mustache.to_html(template, view, partials)`.

- **Rendering.** The renderer fails fast on text without the open tag. It
  runs the pragma pass (`{{%NAME opt=val}}`). It runs the section pass
  (`{{#name}}…{{/name}}` and `{{^name}}…{{/name}}`). It then runs the tag
  pass, line by line: variables `{{x}}`, unescaped `{{{x}}}`, comments
  `{{!…}}`, delimiter changes `{{=o c=}}` and partials `{{>p}}`.
- **Output.** Non-empty lines are sent to a buffer, which `to_html` joins
  with newlines.
- **Values.** A view holds JavaScript values: strings, integers, booleans,
  `null`, `undefined`, arrays, objects and functions. Truthiness, `typeof`
  and `String(...)` are modelled as JavaScript applies them. A property
  read sees only an object's own entries, never the prototype chain (see
  "## Left out").
- **Failures.** The renderer throws for an unknown pragma and for an
  unknown partial, and `set_delimiters` without a space raises a TypeError.
  These are results of type `Result<…>`, not exceptions. A failure carries
  the pragma registry as it stood when it was raised, because the registry
  lives on the renderer's prototype and outlives the failed call.
- **State.** The renderer's mutable state is a value threaded through every
  step. It holds the open and close tag as regular-expression sources, the
  pragma registry and the buffer. A pragma met anywhere stays registered
  for the rest of the call and after it. A delimiter change stays in force
  for the rest of the call as far as the open-tag tests go; which tags and
  sections are found is fixed when the template is cut up (see below).

## Templates are pre-parsed

The renderer finds tags and sections with regular expressions. The model
does not run those expressions. A template instead arrives already cut up,
as `Templates.Template`, in the shape the renderer's patterns give it under
the delimiters the template is written for:

- the template's text, which the fail-fast and pragma tests look at;
- the first match of the pragma pattern (the pattern has no `g` flag, so one call handles only the first pragma tag);
- either the lines of the tag pass, each a sequence of literal runs and
  `(operator, name)` tags, or the matches of the section pass with the text
  between them.

A section's content, and each partial in the partial table, is a template
of its own, cut up the same way. The cut is made once: it does not follow a
delimiter change met while rendering, whereas the renderer rebuilds its
patterns from the current tags each time it scans (mustache.js:89,
151-153, 209).

## Modules

| file | module | contents |
|---|---|---|
| strings.dfy | Strings | `split`, `join`, `indexOf`, `trim` |
| values.dfy | Values, Outcomes | JavaScript values and coercions, errors |
| escape.dfy | Escaping | `escape`, `escape_regex` |
| contexts.dfy | Contexts | `find`, `create_context`, partial contexts, pragmas |
| templates.dfy | Templates | parsed templates and renderer state |
| directives.dfy | Directives | `includes`, `set_delimiters`, `render_pragmas` |
| render.dfy | Rendering | `render`, `render_section`, `render_tags`, `render_partial` |
| mustache.dfy | Mustache | `send`, `to_html` |
| facts.dfy | RenderFacts | properties relating several rendering steps |
| findings.dfy | Findings | the three departures listed under Findings |
| examples.dfy | Examples | six small templates rendered end to end |

## Where the model follows the code rather than the documentation

- `escape` maps only `null` to the empty string. `undefined`, which a
  function tag can return, is rendered as the text "undefined"
  (`Escaping.EscapeValue`).
- `{{%IMPLICIT-ITERATOR}}` without an `iterator=` option stores bare
  elements under the property "undefined", not under `.`
  (`Contexts.IteratorKeyWithoutOption`).
- `find` calls a function it finds and returns the call's result, even
  when that result is `undefined`. Only a missing or non-"kinda truthy"
  binding gives `""` (`Contexts.Find`).

## Model

| member | source | states |
|---|---|---|
| Strings.SplitOn | mustache.js:219 | the parts of `split("\n")`: at least one, none holding the separator, and joining them with the separator gives back the text |
| Strings.SplitOnFree | mustache.js:61 | text without the separator splits into itself alone |
| Strings.SplitJoin | mustache.js:219-228 | joining separator-free lines and splitting again gives back exactly those lines, so the line count survives `join("\n")` then `split("\n")` |
| Strings.ContainsAt | mustache.js:284-286 | `indexOf(needle) != -1` holds whenever the needle starts at some position |
| Strings.ContainsIndex | mustache.js:285 | `indexOf(needle) != -1` holds exactly when the needle starts at some position of the text |
| Strings.ContainsHead | mustache.js:284-286 | a text containing a non-empty needle contains its first character |
| Strings.TrimStart | mustache.js:332-334 | `^\s*` removes a white-space prefix and leaves a text that starts with no white space |
| Strings.TrimEnd | mustache.js:332-334 | `\s*$` removes a white-space suffix and leaves a text that ends with no white space |
| Strings.Trim | mustache.js:332-334 | the trimmed name neither starts nor ends with white space and is no longer than the input |
| Strings.TrimSurrounded | mustache.js:332-334 | a name padded with white space on both sides trims to the bare name |
| Strings.TrimSplit | mustache.js:332-334 | every text is white space, its trimmed form, then white space |
| Strings.TrimPadded | mustache.js:332-334 | extra white space around a name does not change its trimmed form |
| Strings.TrimIdempotent | mustache.js:332-334 | trimming twice is trimming once |
| Strings.TrimUnpadded | mustache.js:332-334 | a name without surrounding white space is left unchanged |
| Escaping.EscapeText | mustache.js:293-303 | escaped text holds no `"`, `'`, `<` or `>` and is at least as long as the input |
| Escaping.EscapeValue | mustache.js:291-292 | `escape(null)` is empty; any escaped value holds no markup character |
| Escaping.EscapePlain | mustache.js:293 | text without `&`, quotes, angle brackets or backslash is left unchanged |
| Escaping.EntityAheadEscaped | mustache.js:293 | text that starts with `\w+;` still does after escaping, so an entity's ampersand is kept |
| Escaping.WordsThenSemi | mustache.js:293 | word characters followed by `;` form the lookahead `\w+;` |
| Escaping.NamedEntityPrefix | mustache.js:293-295 | `&name;` in front of well-formed text keeps every ampersand the start of an entity |
| Escaping.NumericEntityPrefix | mustache.js:295-298 | the same for `&#digits;`, the form `'` is escaped to |
| Escaping.EscapeCharKeepsEntities | mustache.js:293-302 | each character's replacement, put in front of well-formed text, keeps every ampersand the start of an entity |
| Escaping.ReferenceKeepsEntities | mustache.js:295-300 | the same for a bare `&` and the four markup characters |
| Escaping.EscapeLeavesNoBareAmpersand | mustache.js:293-303 | after escaping, every ampersand starts an entity `&\w+;` or `&#\w+;` |
| Escaping.EntityAheadAt | mustache.js:293 | the lookahead `(?!\w+;)` decided by a scan from a position |
| Escaping.EscapeAt | mustache.js:294-302 | a character outside `& " ' < > \` is copied; the replacement of a special one holds no markup; an ampersand stays bare exactly when `\w+;` follows it, else becomes `&amp;`; a backslash is doubled |
| Escaping.Escape | mustache.js:291-304 | the global replace, done by a loop, equals the character-by-character escape |
| Escaping.EscapeRegexAsWritten | mustache.js:238-250 | as written: a backslash before each of `/ . * + ? \| ( ) [ ] { } \` only; on a token without `^` or `$` it equals the corrected escape, and it is never shorter than the token |
| Escaping.EscapeRegex | mustache.js:238-250 | corrected: the result is a literal pattern, in which every syntax character, `^` and `$` included, is behind a backslash and every backslash escapes a syntax character (so no `\d`, `\w` or `\b` class), and it is at least as long as the token |
| Escaping.EscapeRegexUnique | mustache.js:238-250 | every literal pattern is the corrected escape of the text it stands for: the escape is the only literal pattern for a token |
| Escaping.UnescapeEscapeRegex | mustache.js:238-250 | removing the escapes from the corrected pattern gives back the token: the escape loses nothing |
| Escaping.UnescapePlain | mustache.js:11 | a pattern without backslashes, such as the default `{{`, stands for itself |
| Values.KindaTruthy | mustache.js:260-262 | `bool === false \|\| bool === 0 \|\| bool` holds exactly for values other than `""`, `null` and `undefined` |
| Values.IsObject | mustache.js:321-323 | `a && typeof a == "object"`: truthy and of type "object", which is exactly arrays and objects |
| Contexts.CreateContext | mustache.js:307-319 | an object or array is its own context; anything else is wrapped as the single entry of a new object under the iterator key |
| Contexts.IteratorKey | mustache.js:311-314 | the iterator key is `.` unless `IMPLICIT-ITERATOR` is registered, and then its `iterator` option |
| Contexts.WithMode | mustache.js:39-41 | with `TRANSLATION-HINT` registered, an object context gains `_mode` set to the hint's `mode` option (`undefined` when absent); otherwise the context is unchanged; nullishness and object-ness are kept |
| Contexts.Find | mustache.js:256-279 | the result is `undefined` only if a function was called; a name neither context binds to a kinda-truthy value resolves to `""` |
| Contexts.FindPrefersLocal | mustache.js:264-266 | a local binding that is truthy, `false` or `0` wins over the root |
| Contexts.FindFallsBackToRoot | mustache.js:267-268 | a local binding that is `""`, `null`, `undefined` or absent gives way to the root's |
| Contexts.FindUnknownIsEmpty | mustache.js:274-278 | a name bound nowhere resolves to the empty string |
| Contexts.FindIgnoresPadding | mustache.js:257 | white space around a tag name does not change what it finds |
| Contexts.ImplicitIteratorFindsElement | mustache.js:307-319 | inside an iteration over bare values, the iterator name finds the element itself |
| Contexts.IteratorKeyWithoutOption | mustache.js:312-314 | `IMPLICIT-ITERATOR` registered without an option gives the iterator key "undefined" |
| Contexts.PartialContext | mustache.js:115-118 | corrected: the partial renders in `context[name]` exactly when that is an array or object, else in the current context, which is never nullish |
| Contexts.PartialContextAsWritten | mustache.js:115-118 | as written: `context[name]` whenever its `typeof` is "object", else the current context; the choice is `null` or `undefined` exactly when `context[name]` is `null` |
| Contexts.PartialContextsAgree | mustache.js:115-118 | the as-written and corrected choices agree exactly when `context[name]` is not `null` |
| Directives.IncludesAsWritten | mustache.js:284-286 | as written: true exactly when `otag + needle`, the tag's pattern source, occurs at some position of the text |
| Directives.Includes | mustache.js:284-286 | corrected: true exactly when the open tag as the author wrote it, followed by `needle`, occurs at some position of the text |
| Directives.SplitHasSecond | mustache.js:233-235 | the delimiter payload has a second token exactly when it contains a space |
| Directives.SetDelimiters | mustache.js:232-236 | succeeds exactly when the payload holds a space (otherwise `escape_regex(undefined)` throws, and the failure keeps the registry); both tags become literal patterns in the sense of Escaping.EscapeRegex; nothing else changes |
| Directives.SetDelimitersTokens | mustache.js:232-236 | after `{{=o c=}}` with space-free tokens, the stored tags unescape to `o` and `c` |
| Directives.IncludesAgree | mustache.js:284-286 | while the open tag holds no backslash (the default `{{`, or a new token that needed no escaping) the as-written and the corrected test give the same answer |
| Directives.IncludesFindsNewDelimiter | mustache.js:284-286 | after a delimiter change, the corrected `includes` looks for the new open tag as written |
| Directives.OptionEntry | mustache.js:97-101 | a pragma option registers exactly one key |
| Directives.OptionEntryKeyValue | mustache.js:98-100 | the option `key=value` registers `key` with the value `value` |
| Directives.RenderPragmas | mustache.js:82-105 | without `otag%` or a match the text is unchanged; it fails exactly for an unimplemented name, before registering it; otherwise the tag is removed, the name registered and other pragmas kept; only the registry changes |
| Directives.PragmaReregistrationClearsOptions | mustache.js:97 | registering a pragma again without an option leaves it with no options |
| Rendering.SectionPlan | mustache.js:160-186 | inverted renders once in the context exactly for a falsy value or an empty array, else skips; normal iterates exactly over arrays, renders once in an object, emits a function's result, and skips exactly on falsy values |
| Rendering.Render | mustache.js:21-68 | a recursive render leaves the root view and the buffer untouched and never unregisters a pragma, whether it succeeds or fails |
| Rendering.RenderParts | mustache.js:156-187 | the section pass leaves the root view and the buffer untouched and never unregisters a pragma, whether it succeeds or fails |
| Rendering.RenderSection | mustache.js:156-187 | the section callback leaves the root view and the buffer untouched and never unregisters a pragma, whether it succeeds or fails |
| Rendering.RenderEach | mustache.js:169-172 | iterating over elements leaves the root view and the buffer untouched and never unregisters a pragma, whether it succeeds or fails |
| Rendering.RenderLines | mustache.js:219-229 | the tag pass gives one rendered line per template line, keeps the root view and buffer, and never unregisters a pragma |
| Rendering.RenderLine | mustache.js:221 | one line's replace leaves the root view and the buffer untouched and never unregisters a pragma, whether it succeeds or fails |
| Rendering.RenderTag | mustache.js:203-218 | only `=` and `>` can fail or change state; a comment gives `""`; `{{{x}}}` is the found value as a string; `{{x}}` and `{{%x}}` are `escape` of the found value, with the state unchanged, and hold no markup; `=` succeeds exactly with a space in the payload and then installs the tags `set_delimiters` computes; `>` of an unknown partial fails with the trimmed name |
| Rendering.RenderPartial | mustache.js:110-114 | an absent table or unknown trimmed name fails with `unknown_partial` naming it, with the registry as it stood |
| Mustache.Send | mustache.js:73-77 | a non-empty line is appended to the buffer, an empty one is dropped, nothing else changes |
| Mustache.NonEmpty | mustache.js:73-77 | the kept lines are all non-empty and no more than were sent |
| Mustache.NonEmptyKeepsSent | mustache.js:73-77 | every kept line was sent, and when no sent line is empty all are kept |
| Mustache.SentLinesSplitBack | mustache.js:61-64 | newline-free lines, sent and joined with newlines, split back into exactly the non-empty ones |
| Mustache.SendAll | mustache.js:61-64 | sending lines in turn appends exactly the non-empty ones, in order, and changes nothing else |
| Mustache.RootOf | mustache.js:365 | the view `view \|\| {}`: the view when truthy, else `{}`, and never `null` or `undefined` |
| Mustache.ToHtml | mustache.js:360-368 | a template without the open tag comes back unchanged; no pragma registered before or during the call is dropped, even when the call fails |
| RenderFacts.RenderWithoutTags | mustache.js:29-32 | a recursive render of text without the open tag returns the text with the state unchanged |
| RenderFacts.ToHtmlWithoutTags | mustache.js:29-35 | `to_html` of a template without `{{` returns the template, the empty template included |
| RenderFacts.ToHtmlDropsBlankLines | mustache.js:61-64 | the output of `to_html` for a template with sections, split on newlines, holds no empty line |
| RenderFacts.ToHtmlFlatOutput | mustache.js:56 | a template without sections gives the tag pass's lines with empty ones dropped, or the tag pass's failure |
| RenderFacts.ToHtmlSectionedOutput | mustache.js:58-66 | a template with sections gives the section pass's text split into lines with empty ones dropped, or its failure |
| RenderFacts.PragmaOutlivesFailure | mustache.js:97 | the pragma a call's own pragma pass registers is still registered after `to_html` returns, whether it succeeded or failed |
| RenderFacts.TagPassKeepsLineCount | mustache.js:219-228 | when no rendered line holds a newline, the joined output splits back into one line per template line |
| RenderFacts.InvertedComplementsNormal | mustache.js:161-185 | for any value but a function, the inverted section renders at most once, and exactly when the normal section renders zero times |
| RenderFacts.SkippedSectionKeepsSurroundings | mustache.js:157-158 | a skipped section gives just the rendered text before and after it |
| RenderFacts.InvertedSectionRendersOnce | mustache.js:161-164 | an inverted section over a falsy value or empty array renders its content once, between the text before and after |
| RenderFacts.NormalSectionRendersOnce | mustache.js:173-182 | a normal section over an object renders its content once in that object, and over another truthy non-array, non-function value once in the unchanged context, between the text before and after |
| RenderFacts.EachRepeatsPlainContent | mustache.js:169-172 | iterating tag-free content gives one copy per element |
| RenderFacts.EachIsMapJoin | mustache.js:170-172 | when rendering an element leaves the state as it was, the array branch is `map` then `join("")` |
| RenderFacts.ArraySectionMapsElements | mustache.js:169-172 | when rendering each element succeeds and leaves the state as it was (so no `{{=…=}}`, `{{%…}}` or failing tag in the content), a normal section over an array is the text before, each element's render in its `create_context` joined with `""`, and the text after |
| RenderFacts.PartialRendersInSubcontext | mustache.js:115-118 | corrected: a known partial renders in `context[name]` when that is an object, else in the current context |
| RenderFacts.PragmaRegistersOption | mustache.js:97-102 | a pragma tag with `key=value` is removed and registers that option |
| Findings.SquareDelimiters | mustache.js:232-236 | `{{=[[ ]]=}}` stores the open tag as the pattern `\[\[` |
| Findings.IncludesMissesEscapedDelimiter | mustache.js:284-286 | after `{{=[[ ]]=}}` the test as written misses `[[x]]`, while the corrected test finds it |
| Findings.NullPartialContextAsWritten | mustache.js:115-118 | for `{p: null}` the choice as written makes `null` the context of partial `p`, where property reads throw; the corrected choice keeps the view |
| Findings.AnchorLeftBare | mustache.js:241-249 | `escape_regex("<$")` as written is the pattern `<$`, which is not literal; the corrected escape gives `<\$`, which is |
| Examples.HelloWorld | mustache.js:360-368 | `"Hello, {{name}}!"` with `{name: "World"}` gives `"Hello, World!"` |
| Examples.InvertedEmptyList | mustache.js:161-164 | `"{{^empty}}none{{/empty}}"` with `{empty: []}` gives `"none"` |
| Examples.PartialWithMissingName | mustache.js:110-118 | the partial `"hi {{x}}"` rendered with `{}` gives `"hi "` |
| Examples.MissingPartial | mustache.js:112-114 | `"{{>missing}}"` with an empty partial table fails with `unknown_partial 'missing'` |
| Examples.UnknownPragma | mustache.js:92-96 | `"{{%UNKNOWN}}"` fails with the unsupported-pragma error |
| Examples.PragmaSurvivesMissingPartial | mustache.js:97-114 | `"{{%IMPLICIT-ITERATOR iterator=it}}\n{{>missing}}"` with no partials fails with `unknown_partial 'missing'`, and the failure still hands back the registry holding `IMPLICIT-ITERATOR` with `iterator = "it"` |

## Left out

- render_i18n (mustache.js:121-140), the `{{_i}}…{{/i}}` pass: its translation callback is foreign code, so the model treats the pass as the identity.
- Regular-expression matching: tags, sections and the pragma are found by the renderer's patterns, and templates arrive in the shape those patterns carve. The lazy/greedy subtleties of the section pattern are not modelled.
- Templates.Template: the cut into tags and sections is fixed before rendering and does not follow a delimiter change. In JavaScript the tag pattern is rebuilt after `{{=o c=}}` (mustache.js:209), the pragma and section patterns are built from the current tags (mustache.js:89, 151-153), and a partial is scanned with whatever delimiters are in force when it is included. Here a delimiter change only affects the open-tag tests.
- Functions in the view: a function is a fixed result plus its source text. The model does not model `this`, arguments or side effects.
- The higher-order section's callback: the model does not pass the function the content or a render callback. It emits the function's fixed result as a string.
- `send_fun`: a custom send function replaces buffering, and the call returns nothing. It is I/O and not modelled.
- The `map` shim (mustache.js:339-350): it is the built-in `Array.prototype.map`, which the model uses directly.
- Numbers: only integers are modelled. NaN, fractions and exponent notation in `String(n)` are not.
- Values.Property: a property read sees only an object's own entries and reads everything else, on every kind of value, as `undefined`: no prototype chain (`constructor`, `toString`, `hasOwnProperty`), no array or string `length` or indices. So `{{#constructor}}x{{/constructor}}` on `{}`, which finds `Object` and renders `x` in JavaScript, is skipped here, and `{{%toString}}`, which passes the `pragmas_implemented[pragma]` test (mustache.js:92) in JavaScript, is an unsupported pragma here.
- `_mode` (mustache.js:39-41) is stored only on plain-object contexts. It is added to a copy; in JavaScript it mutates the caller's object.
- The `html === template` test (mustache.js:49): a template whose section pass succeeds but leaves the text unchanged goes to the tag pass in JavaScript, and is sent line by line here.
- Rendering.Render: nesting of partials is bounded by a `fuel` argument. Running out of it gives `PartialDepthExceeded`, where JavaScript would recurse until its stack overflows.
- Rendering.Render: its own contract is only the frame condition (root view and buffer untouched, registry only growing). What it renders is stated by the RenderFacts lemmas.
- Rendering.Render: its fail-fast test is the corrected `Directives.Includes` of the first Findings row, not the as-written test of mustache.js:29. Input: `{{=[[ ]]=}}`, a newline, `[[>p]]` with the partial `p` = `[[x]]` and the view `{x: "1"}`; JavaScript returns the partial as the text `[[x]]` (mustache.js:29-31), the model renders it to `1`.
- Directives.RenderPragmas: its `otag%` test is the corrected `Directives.Includes`, not the as-written test of mustache.js:84; after a delimiter change to tokens holding a special character, JavaScript skips the pragma pass, the model does not.
- Directives.SetDelimiters: it stores the tags with the corrected `Escaping.EscapeRegex` of the third Findings row, which also escapes `^` and `$`; after `{{=<$ $>=}}` JavaScript can match no tag, while in the model the open-tag tests find `<$` as written (which tags are found is fixed by the carve, see Templates.Template).
- Rendering.RenderPartial: it renders in the corrected `Contexts.PartialContext` of the second Findings row, not by the `typeof` test of mustache.js:115. Input: the view `{p: null}`, the template `{{>p}}` and the partial `p` = `{{x}}`; JavaScript renders the partial in `null` and throws a TypeError at mustache.js:265, the model renders it in the view.
- RenderFacts.PartialRendersInSubcontext: it states the corrected choice; for `context[name] === null` mustache.js:115-118 renders in `null` instead (input as in the line above). Contexts.PartialContextsAgree states that this is the only difference.
- Rendering.RenderParts: contract is only the frame condition; its output is stated by RenderFacts.ToHtmlSectionedOutput and the Examples.
- Rendering.RenderSection: contract is only the frame condition; its output per plan is stated by RenderFacts.SkippedSectionKeepsSurroundings and RenderFacts.InvertedSectionRendersOnce.
- Rendering.RenderEach: contract is only the frame condition; its output is stated by RenderFacts.EachIsMapJoin and RenderFacts.EachRepeatsPlainContent.
- Rendering.RenderLine: contract is only the frame condition; each tag's text is stated by Rendering.RenderTag.
- Mustache.ToHtml: its own contract covers only the tag-free case and the registry. Its output otherwise is described by the RenderFacts lemmas and the Examples. It follows the corrected `includes` (mustache.js:29, input as in the Rendering.Render line above).
- Contexts.Find: requires both contexts to be neither `null` nor `undefined`; JavaScript throws a TypeError there (mustache.js:265). As written, such a context arises only through the `typeof` test of mustache.js:115 on a `null` member, which the model replaces by the corrected choice (second Findings row), so no rendering step of the model reaches it and the throw itself is not modelled.

## Findings

| source | as written | input that shows it | evidently intended | confidence | as-written member | corrected member |
|---|---|---|---|---|---|---|
| mustache.js:284-286 | `includes` searches for `otag + needle` as plain text, but after a delimiter change `otag` is a regex-escaped pattern | `{{=[[ ]]=}}` sets `otag` to `\[\[`, so `[[x]]` appears to hold no tag and a later section or partial is returned unrendered | look for the open tag as the author wrote it | medium, not executed | Findings.IncludesMissesEscapedDelimiter | Directives.Includes |
| mustache.js:115-118 | the partial's context is `context[name]` whenever `typeof` gives "object", which includes `null` | view `{p: null}` with `{{>p}}`: the partial renders in `null`, and its first variable, section or partial tag throws a TypeError | the same test as `is_object`, which rejects `null` | high, not executed | Findings.NullPartialContextAsWritten | Contexts.PartialContext |
| mustache.js:241-249 | `escape_regex` escapes only `/ . * + ? \| ( ) [ ] { } \`, leaving the anchors `^` and `$` bare | `{{=<$ $>=}}` stores the open tag `<$`, in which `$` anchors at the end of the input, so `<$x$>` is never matched as a tag | escape every character with a meaning in a pattern, so the tag matches literally | medium, not executed | Findings.AnchorLeftBare | Escaping.EscapeRegex |
