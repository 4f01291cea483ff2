/**
 Value resolution: how a tag name is looked up in the current context and
 the root view (`find`), how a collection element becomes a context
 (`create_context`), and which context a partial is rendered in.
 */
module Contexts {
  import opened Strings
  import opened Values

  /** `pragmas_implemented`. */
  const Implemented: set<string> := {"IMPLICIT-ITERATOR", "TRANSLATION-HINT"}

  /** An option of a registered pragma; `undefined` when absent. */
  function OptionOf(opts: map<string, Value>, key: string): Value
  {
    if key in opts then opts[key] else Undef
  }

  /** The key a bare element is stored under: `.` by default, otherwise
      the `iterator` option of `IMPLICIT-ITERATOR`, used as a property key
      (so a missing option gives the key "undefined"). */
  function IteratorKey(pragmas: Pragmas): (k: string)
    ensures "IMPLICIT-ITERATOR" !in pragmas ==> k == "."
    ensures "IMPLICIT-ITERATOR" in pragmas && "iterator" in pragmas["IMPLICIT-ITERATOR"]
            && pragmas["IMPLICIT-ITERATOR"]["iterator"].Str?
            ==> k == pragmas["IMPLICIT-ITERATOR"]["iterator"].s
  {
    if "IMPLICIT-ITERATOR" in pragmas
    then ToStr(OptionOf(pragmas["IMPLICIT-ITERATOR"], "iterator"))
    else "."
  }

  /** `create_context(v)`: an object is its own context; anything else is
      wrapped into an object with the single entry `IteratorKey ↦ v`. */
  function CreateContext(pragmas: Pragmas, v: Value): (r: Value)
    ensures IsObject(r)
    ensures IsObject(v) ==> r == v
    ensures !IsObject(v) ==> r.Obj? && r.fields.Keys == {IteratorKey(pragmas)}
                             && r.fields[IteratorKey(pragmas)] == v
  {
    if IsObject(v) then v else Obj(map[IteratorKey(pragmas) := v])
  }

  /** With `TRANSLATION-HINT` registered, `render` stores the hint's `mode`
      option under `_mode` in the context it is given. */
  function WithMode(pragmas: Pragmas, ctx: Value): (r: Value)
    ensures "TRANSLATION-HINT" in pragmas && ctx.Obj? ==>
              r == Obj(ctx.fields["_mode" := OptionOf(pragmas["TRANSLATION-HINT"], "mode")])
    ensures !("TRANSLATION-HINT" in pragmas && ctx.Obj?) ==> r == ctx
    ensures Nullish(r) == Nullish(ctx)
    ensures IsObject(r) == IsObject(ctx)
  {
    if "TRANSLATION-HINT" in pragmas && ctx.Obj?
    then Obj(ctx.fields["_mode" := OptionOf(pragmas["TRANSLATION-HINT"], "mode")])
    else ctx
  }

  /** A found value is used as is, except that a function is called and its
      return value used instead. */
  function Call(v: Value): Value
  {
    if v.Fn? then v.result else v
  }

  /** `find(name, context)` with `this.context` passed as `root`. */
  function Find(name: string, local: Value, root: Value): (r: Value)
    requires !Nullish(local) && !Nullish(root)
    ensures r.Undef? ==> Get(local, Trim(name)).Fn? || Get(root, Trim(name)).Fn?
    ensures !KindaTruthy(Get(local, Trim(name))) && !KindaTruthy(Get(root, Trim(name)))
            ==> r == Str("")
  {
    var n := Trim(name);
    var lv := Get(local, n);
    var rv := Get(root, n);
    if KindaTruthy(lv) then Call(lv)
    else if KindaTruthy(rv) then Call(rv)
    else Str("")
  }

  /** The local binding wins whenever it is a value, `false` and `0` included. */
  lemma FindPrefersLocal(name: string, local: Value, root: Value)
    requires !Nullish(local) && !Nullish(root)
    requires KindaTruthy(Get(local, Trim(name))) && !Get(local, Trim(name)).Fn?
    ensures Find(name, local, root) == Get(local, Trim(name))
  {
  }

  /** A local binding that is `""`, `null`, `undefined` or absent gives way
      to the root's. */
  lemma FindFallsBackToRoot(name: string, local: Value, root: Value)
    requires !Nullish(local) && !Nullish(root)
    requires var lv := Get(local, Trim(name)); lv == Str("") || Nullish(lv)
    requires KindaTruthy(Get(root, Trim(name))) && !Get(root, Trim(name)).Fn?
    ensures Find(name, local, root) == Get(root, Trim(name))
  {
  }

  /** A name bound in neither object resolves to the empty string. */
  lemma FindUnknownIsEmpty(name: string, fields: map<string, Value>, rootFields: map<string, Value>)
    requires Trim(name) !in fields && Trim(name) !in rootFields
    ensures Find(name, Obj(fields), Obj(rootFields)) == Str("")
  {
  }

  /** Surrounding white space in a tag name does not matter. */
  lemma FindIgnoresPadding(p: string, name: string, q: string, local: Value, root: Value)
    requires AllSpace(p) && AllSpace(q)
    requires !Nullish(local) && !Nullish(root)
    ensures Find(p + name + q, local, root) == Find(name, local, root)
  {
    TrimPadded(p, name, q);
  }

  /** Inside a section over a bare element, `{{.}}` (or the configured
      iterator name) finds the element itself, unless it is `""`, `null` or
      `undefined`, which fall through to the root. */
  lemma ImplicitIteratorFindsElement(pragmas: Pragmas, v: Value, root: Value)
    requires !IsObject(v) && KindaTruthy(v) && !v.Fn?
    requires !Nullish(root)
    requires Trim(IteratorKey(pragmas)) == IteratorKey(pragmas)
    ensures Find(IteratorKey(pragmas), CreateContext(pragmas, v), root) == v
  {
    var k := IteratorKey(pragmas);
    var ctx := CreateContext(pragmas, v);
    assert Get(ctx, k) == v;
  }

  /** `{{%IMPLICIT-ITERATOR}}` without an `iterator` option stores bare
      elements under the key "undefined", not `.`. */
  lemma IteratorKeyWithoutOption(pragmas: Pragmas)
    ensures IteratorKey(pragmas["IMPLICIT-ITERATOR" := map[]]) == "undefined"
  {
  }

  /** The context `render_partial` renders in: `context[name]` when that is
      an object (array or plain object), the current context otherwise. */
  function PartialContext(ctx: Value, name: string): (r: Value)
    requires !Nullish(ctx)
    ensures !Nullish(r)
    ensures r == ctx || (r == Get(ctx, name) && IsObject(r))
    ensures IsObject(Get(ctx, name)) <==> r == Get(ctx, name)
  {
    var v := Get(ctx, name);
    if IsObject(v) then v else ctx
  }

  /** The same choice as written, by `typeof context[name] != "object"`,
      which also selects `null`. */
  function PartialContextAsWritten(ctx: Value, name: string): (r: Value)
    requires !Nullish(ctx)
    ensures TypeOf(Get(ctx, name)) == "object" ==> r == Get(ctx, name)
    ensures TypeOf(Get(ctx, name)) != "object" ==> r == ctx
    ensures Nullish(r) <==> Get(ctx, name) == Null
  {
    var v := Get(ctx, name);
    if TypeOf(v) != "object" then ctx else v
  }

  /** The two choices differ only when `context[name]` is `null`. */
  lemma PartialContextsAgree(ctx: Value, name: string)
    requires !Nullish(ctx)
    ensures Get(ctx, name) != Null <==> PartialContextAsWritten(ctx, name) == PartialContext(ctx, name)
  {
  }
}
