/** Values that a JSON parse of a frame can produce, and the Python notions the
    client applies to them: truthiness and "is this a number". */
module Payload {

  datatype Option<+T> = None | Some(value: T)

  /** A parsed JSON value. Numbers with a fractional part are not represented. */
  datatype Json =
    | Null
    | Bool(b: bool)
    | Int(i: int)
    | Str(s: string)
    | List(items: seq<Json>)
    | Dict(fields: map<string, Json>)

  /** Python truthiness: `None`, `False`, `0`, `""`, `[]` and `{}` are false. */
  predicate Truthy(j: Json)
    ensures !Truthy(j) <==> j in {Null, Bool(false), Int(0), Str([]), List([]), Dict(map[])}
  {
    match j
    case Null => false
    case Bool(b) => b
    case Int(i) => i != 0
    case Str(s) => s != []
    case List(items) => items != []
    case Dict(fields) => fields != map[]
  }

  /** The integer a value stands for in a numeric comparison. Python's `bool`
      is a subclass of `int`, so `True` compares as 1 and `False` as 0; every
      other non-number makes a comparison with a number raise `TypeError`. */
  function NumericValue(j: Json): (n: Option<int>)
    ensures n.Some? <==> j.Int? || j.Bool?
    ensures j.Int? ==> n == Some(j.i)
    ensures j.Bool? ==> n == Some(if j.b then 1 else 0)
  {
    match j
    case Int(i) => Some(i)
    case Bool(b) => Some(if b then 1 else 0)
    case _ => None
  }

  /** `dict.get(key, default)`. */
  function Get(fields: map<string, Json>, key: string, default: Json): (v: Json)
    ensures key in fields ==> v == fields[key]
    ensures key !in fields ==> v == default
  {
    if key in fields then fields[key] else default
  }

  /** `len(v)`: defined for strings, lists and dicts; `None` where Python
      raises `TypeError`. */
  function Length(j: Json): (n: Option<nat>)
    ensures n.None? <==> j.Null? || j.Bool? || j.Int?
    ensures j.Str? ==> n == Some(|j.s|)
    ensures j.List? ==> n == Some(|j.items|)
    ensures j.Dict? ==> n == Some(|j.fields|)
  {
    match j
    case Str(s) => Some(|s|)
    case List(items) => Some(|items|)
    case Dict(fields) => Some(|fields|)
    case _ => None
  }
}
