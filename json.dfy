/**
 * The values `json.loads` produces, as far as the handlers look at them.
 * A form checkbox arrives as such a value, and the handlers compare it with
 * Python's `True` and with `''`.
 */
module Json {

  datatype Value =
    | Null
    | Bool(b: bool)
    | Int(i: int)
    | Float(f: real)
    | Str(s: string)
    | Array(items: seq<Value>)
    | Object(members: seq<(string, Value)>)

  /** Python's `v == True`: `True`, and also the numbers `1` and `1.0`, since `bool` is a numeric type. */
  predicate EqualsTrue(v: Value) {
    match v
    case Bool(b) => b
    case Int(i) => i == 1
    case Float(f) => f == 1.0
    case _ => false
  }

  /** Python's `v == ''`: only the empty string is equal to the empty string. */
  predicate EqualsEmptyString(v: Value) {
    v == Str("")
  }

  /** What a checkbox may hold and still pass the `!= True` test, and nothing else. */
  lemma EqualsTrueCases(v: Value)
    ensures EqualsTrue(v) <==> v == Bool(true) || v == Int(1) || v == Float(1.0)
  {
  }
}
