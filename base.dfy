/** Values shared by every module of the model: an Option type and the JavaScript
    primitive values that the forum's code compares with `===` and tests for truthiness. */
module Base {

  datatype Option<+T> = None | Some(value: T)

  /** A JavaScript primitive as the forum's code handles it. Numbers are integers here:
      the ids, limits and status codes the model deals with never hold fractions or NaN.
      Two values are `===` exactly when they are equal as Dafny values, so `Num(5)` and
      `Str("5")` are different. */
  datatype Value = Undefined | Null | Bool(b: bool) | Num(n: int) | Str(s: string)

  /** JavaScript truthiness, `!!v`. */
  predicate Truthy(v: Value)
  {
    match v
    case Undefined => false
    case Null => false
    case Bool(b) => b
    case Num(n) => n != 0
    case Str(s) => s != ""
  }

  /** `v || fallback`: the first operand when it is truthy, the second otherwise. */
  function Or(v: Value, fallback: Value): (r: Value)
    ensures Truthy(v) ==> r == v
    ensures !Truthy(v) ==> r == fallback
  {
    if Truthy(v) then v else fallback
  }

  /** `obj.name` on an object: `undefined` when it has no such field. */
  function Field(obj: map<string, Value>, name: string): Value
  {
    if name in obj then obj[name] else Undefined
  }

  /** The outcome of a client request: the response body, or a failure carrying
      `err.response?.data?.message`. */
  datatype Reply<T> = Success(data: T) | Failure(message: Option<string>)

  /** An optional string used where the source has `s || fallback` on a string or undefined. */
  function StrOr(v: Option<string>, fallback: string): (r: string)
    ensures v.Some? && v.value != "" ==> r == v.value
    ensures v.None? || v.value == "" ==> r == fallback
  {
    if v.Some? && v.value != "" then v.value else fallback
  }
}
