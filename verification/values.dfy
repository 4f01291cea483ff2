/**
 The JavaScript values a view can hold, as the renderer distinguishes them,
 together with the coercions it applies to them: truthiness, `typeof`,
 property reads and `String(...)`.
 */
module Values {
  import opened Strings

  datatype Option<+T> = None | Some(value: T)

  /** A view value. Numbers are integers; a function is represented by its
      source text and the value it returns whenever it is called. */
  datatype Value =
    | Str(s: string)
    | Num(n: int)
    | Bool(b: bool)
    | Null
    | Undef
    | Arr(elems: seq<Value>)
    | Obj(fields: map<string, Value>)
    | Fn(source: string, result: Value)

  /** The pragma registry: each registered pragma with its options. */
  type Pragmas = map<string, map<string, Value>>

  /** JavaScript truthiness. */
  predicate Truthy(v: Value)
  {
    match v
    case Str(s) => s != ""
    case Num(n) => n != 0
    case Bool(b) => b
    case Null => false
    case Undef => false
    case _ => true
  }

  /** `is_kinda_truthy` of `find`: truthy, or exactly `false`, or exactly `0`. */
  function KindaTruthy(v: Value): (b: bool)
    ensures b <==> !(v == Str("") || Nullish(v))
  {
    v == Bool(false) || v == Num(0) || Truthy(v)
  }

  /** `null` or `undefined`: reading a property of these throws. */
  predicate Nullish(v: Value)
  {
    v.Null? || v.Undef?
  }

  /** `is_object`: `a && typeof a == "object"`, so arrays count and `null` does not. */
  function IsObject(v: Value): (b: bool)
    ensures b <==> Truthy(v) && TypeOf(v) == "object"
  {
    v.Arr? || v.Obj?
  }

  /** The `typeof` operator. */
  function TypeOf(v: Value): string
  {
    match v
    case Str(_) => "string"
    case Num(_) => "number"
    case Bool(_) => "boolean"
    case Null => "object"
    case Undef => "undefined"
    case Arr(_) => "object"
    case Obj(_) => "object"
    case Fn(_, _) => "function"
  }

  /** A property read `v[key]`, or `None` where JavaScript throws a TypeError. */
  function Property(v: Value, key: string): Option<Value>
  {
    match v
    case Null => None
    case Undef => None
    case Obj(m) => Some(if key in m then m[key] else Undef)
    case _ => Some(Undef)
  }

  /** `v[key]` on a value that is not `null` or `undefined`. */
  function Get(v: Value, key: string): Value
    requires !Nullish(v)
  {
    Property(v, key).value
  }

  /** Decimal digits of a natural number. */
  function NatToString(n: nat): string
  {
    var d := ["0123456789"[n % 10]];
    if n < 10 then d else NatToString(n / 10) + d
  }

  /** `String(v)`. An array is joined with commas, its `null` and
      `undefined` elements becoming empty. */
  function ToStr(v: Value): string
  {
    match v
    case Str(s) => s
    case Num(n) => if n < 0 then "-" + NatToString(-n) else NatToString(n)
    case Bool(b) => if b then "true" else "false"
    case Null => "null"
    case Undef => "undefined"
    case Arr(es) => Join(seq(|es|, i requires 0 <= i < |es| =>
                               if Nullish(es[i]) then "" else ToStr(es[i])), ",")
    case Obj(_) => "[object Object]"
    case Fn(src, _) => src
  }
}

/** The two failures the renderer raises, plus the JavaScript runtime errors
    the model keeps explicit. A failure carries the pragma registry as it
    stood when it was raised: the registry lives on the renderer's prototype,
    so what was registered before the throw outlives it. */
module Outcomes {
  import opened Values

  datatype Error =
    | UnsupportedPragma(pragma: string)    // "This implementation of mustache doesn't understand the '…' pragma"
    | UnknownPartial(partial: string)      // "unknown_partial '…'"
    | TypeError(reason: string)            // a property read or method call on undefined
    | PartialDepthExceeded                 // where JavaScript would exhaust its call stack

  datatype Result<+T> = Ok(value: T) | Err(error: Error, pragmas: Pragmas) {
    predicate IsFailure() { Err? }

    function PropagateFailure<U>(): Result<U>
      requires Err?
    {
      Err(error, pragmas)
    }

    function Extract(): T
      requires Ok?
    {
      value
    }
  }
}
