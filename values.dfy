/** The JavaScript values the marker protocol handles, with the few
    language operations it relies on: `typeof`, truthiness, property reads,
    `String(...)` and awaiting a promise. */
module JsValues {
  import opened Decimal

  datatype Option<+T> = None | Some(value: T)

  /** Why an operation failed. `TypeError` is a property read on `undefined`
      or `null`; `RecursionLimit` stands for the call stack running out when
      substitution nests deeper than the model's fuel; `ForeignThenable` is
      an object with a callable `then` that is not a modelled promise, whose
      code the model does not run. */
  datatype Error = TypeError | RecursionLimit | ForeignThenable

  datatype Result<+T> = Ok(value: T) | Err(error: Error)

  /** A JavaScript value. Numbers are integers here; `Fn` carries the
      function's source text (what `String(fn)` yields); `SafeString` is the
      engine's pre-escaped string wrapper; `Promise(result)` is a promise that
      has already fulfilled with `result`. */
  datatype Value =
    | Undefined
    | Null
    | Bool(b: bool)
    | Num(n: int)
    | Str(s: string)
    | Fn(source: string)
    | Obj(props: map<string, Value>)
    | SafeString(text: string)
    | Promise(result: Value)

  /** Source text of the method the engine's SafeString uses both as
      `toString` and as `toHTML`. */
  const SafeStringMethod: string := "function () { return '' + this.string; }"
  const NativeThen: string := "function then() { [native code] }"

  /** The `typeof` operator. */
  function TypeOf(v: Value): string {
    match v
    case Undefined => "undefined"
    case Null => "object"
    case Bool(_) => "boolean"
    case Num(_) => "number"
    case Str(_) => "string"
    case Fn(_) => "function"
    case _ => "object"
  }

  /** Truthiness, as `if (v)` and `a && v` test it. */
  predicate Truthy(v: Value) {
    match v
    case Undefined => false
    case Null => false
    case Bool(b) => b
    case Num(n) => n != 0
    case Str(s) => s != ""
    case _ => true
  }

  /** The property read `v[key]`: it throws on `undefined` and `null`; only
      the properties this protocol reads are modelled, every other one is
      `undefined`. */
  function Get(v: Value, key: string): (r: Result<Value>)
    ensures r.Err? <==> v == Undefined || v == Null
  {
    match v
    case Undefined => Err(TypeError)
    case Null => Err(TypeError)
    case Obj(props) => Ok(if key in props then props[key] else Undefined)
    case SafeString(text) =>
      Ok(if key == "string" then Str(text)
         else if key == "toHTML" || key == "toString" then Fn(SafeStringMethod)
         else Undefined)
    case Promise(_) => Ok(if key == "then" then Fn(NativeThen) else Undefined)
    case _ => Ok(Undefined)
  }

  /** `String(v)`. */
  function ToString(v: Value): string {
    match v
    case Undefined => "undefined"
    case Null => "null"
    case Bool(b) => if b then "true" else "false"
    case Num(n) => IntToString(n)
    case Str(s) => s
    case Fn(source) => source
    case Obj(_) => "[object Object]"
    case SafeString(text) => text
    case Promise(_) => "[object Promise]"
  }

  /** What promise resolution treats as a thenable: an object or function
      whose `then` property is a function. */
  predicate HasCallableThen(v: Value) {
    (TypeOf(v) == "object" || TypeOf(v) == "function") && Get(v, "then").Ok? && Get(v, "then").value.Fn?
  }

  /** The value a promise for `v` fulfils with (`Promise.resolve(v)`,
      `Q(v)`, `await v`): nested promises are unwrapped. */
  function Await(v: Value): (r: Result<Value>)
    ensures r.Ok? ==> !HasCallableThen(r.value)
    ensures !HasCallableThen(v) ==> r == Ok(v)
    ensures r.Err? ==> r.error == ForeignThenable
  {
    match v
    case Promise(result) => Await(result)
    case _ => if HasCallableThen(v) then Err(ForeignThenable) else Ok(v)
  }

  /** `Promise.all(vs)`: the awaited values in order, or the error of the
      first one that cannot be awaited. */
  function AwaitAll(vs: seq<Value>): (r: Result<seq<Value>>)
    ensures r.Ok? <==> forall i :: 0 <= i < |vs| ==> Await(vs[i]).Ok?
    ensures r.Ok? ==> |r.value| == |vs| && forall i :: 0 <= i < |vs| ==> r.value[i] == Await(vs[i]).value
  {
    if vs == [] then Ok([])
    else
      match Await(vs[0])
      case Err(e) => Err(e)
      case Ok(first) =>
        match AwaitAll(vs[1..])
        case Err(e) => Err(e)
        case Ok(rest) => Ok([first] + rest)
  }
}
