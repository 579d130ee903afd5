/** JavaScript values as the service layer observes them, and what a `throw`
    out of the modelled code can carry. */
module JsValues {

  datatype Option<+T> = None | Some(value: T)

  /** The payload of an exception raised by the modelled code. */
  datatype Failure =
    | Thrown(message: string)        // `throw new Error(message)`
    | CannotRead(property: string)   // TypeError: reading `property` of undefined or null
    | NotCallable(property: string)  // TypeError: `property` is not a function

  /** A computation that returns a value or throws. */
  datatype Result<+T> = Ok(value: T) | Err(failure: Failure)

  /** A check that either returns `undefined` or throws. */
  datatype Check = Pass | Fail(failure: Failure)

  /** JavaScript values. Numbers are integers; objects, arrays, errors and
      functions are values whose own properties are listed. */
  datatype JsValue =
    | Undefined
    | Null
    | Bool(b: bool)
    | Num(n: int)
    | Str(s: string)
    | Arr(elements: seq<JsValue>)
    | ErrorObj(message: string)
    | Obj(props: map<string, JsValue>)
    | Func(props: map<string, JsValue>)

  predicate Nullish(v: JsValue) {
    v.Undefined? || v.Null?
  }

  /** JavaScript's `!!v`. */
  predicate Truthy(v: JsValue)
    ensures Truthy(v) ==> !Nullish(v)
  {
    match v
    case Undefined => false
    case Null => false
    case Bool(b) => b
    case Num(n) => n != 0
    case Str(s) => s != ""
    case _ => true
  }

  /** JavaScript's `typeof v`. */
  function TypeOf(v: JsValue): (t: string)
    ensures t == "undefined" <==> v.Undefined?
    ensures t == "string" <==> v.Str?
    ensures t == "function" <==> v.Func?
  {
    match v
    case Undefined => "undefined"
    case Null => "object"
    case Bool(_) => "boolean"
    case Num(_) => "number"
    case Str(_) => "string"
    case Arr(_) => "object"
    case ErrorObj(_) => "object"
    case Obj(_) => "object"
    case Func(_) => "function"
  }

  /** `v[key]` on a value that can be read from. An error exposes its
      `message`; other values expose their own listed properties only. */
  function Read(v: JsValue, key: string): (r: JsValue)
    requires !Nullish(v)
    ensures (v.Obj? || v.Func?) && key in v.props ==> r == v.props[key]
    ensures (v.Obj? || v.Func?) && key !in v.props ==> r.Undefined?
  {
    match v
    case Obj(props) => if key in props then props[key] else Undefined
    case Func(props) => if key in props then props[key] else Undefined
    case ErrorObj(message) => if key == "message" then Str(message) else Undefined
    case _ => Undefined
  }

  /** `v[key]` on any value: reading from undefined or null throws. */
  function GetProp(v: JsValue, key: string): (r: Result<JsValue>)
    ensures r.Err? <==> Nullish(v)
    ensures r.Err? ==> r.failure == CannotRead(key)
    ensures r.Ok? ==> r.value == Read(v, key)
  {
    if Nullish(v) then Err(CannotRead(key)) else Ok(Read(v, key))
  }

  function Digit(d: nat): char
    requires d < 10
  {
    "0123456789"[d]
  }

  /** Decimal notation of a natural number, most significant digit first. */
  function Decimal(n: nat): (s: string)
    ensures |s| >= 1
    decreases n
  {
    if n < 10 then [Digit(n)] else Decimal(n / 10) + [Digit(n % 10)]
  }

  /** The property key JavaScript uses for `obj[v]` when `v` is a primitive;
      `None` for objects, whose conversion runs user-visible `toString`. */
  function PropertyKey(v: JsValue): (k: Option<string>)
    ensures v.Str? ==> k == Some(v.s)
    ensures k.None? <==> v.Arr? || v.ErrorObj? || v.Obj? || v.Func?
  {
    match v
    case Str(s) => Some(s)
    case Undefined => Some("undefined")
    case Null => Some("null")
    case Bool(b) => Some(if b then "true" else "false")
    case Num(n) => Some(if n < 0 then "-" + Decimal(-n) else Decimal(n))
    case _ => None
  }
}
