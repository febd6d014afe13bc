/** JSON values as Python's json module loads them. */
module Json {
  /** A Python float; finite ones are exact reals. */
  datatype Float = Finite(value: real) | PlusInfinity | MinusInfinity | NaN

  datatype Json =
    | Null
    | Bool(b: bool)
    | Int(i: int)
    | Number(f: Float)
    | Str(s: string)
    | List(items: seq<Json>)
    | Object(fields: map<string, Json>)

  predicate IsNumber(x: Json) {
    x.Int? || x.Number?
  }

  function AsFloat(x: Json): Float
    requires IsNumber(x)
  {
    if x.Int? then Finite(x.i as real) else x.f
  }

  /** Python compares ints and floats by exact value, and NaN with nothing. */
  predicate FloatEqual(a: Float, b: Float) {
    a == b && !a.NaN?
  }

  /** `x.get(key)` on a dict. */
  function Get(x: Json, key: string): (v: Json)
    requires x.Object?
    ensures key in x.fields ==> v == x.fields[key]
    ensures key !in x.fields ==> v == Null
  {
    if key in x.fields then x.fields[key] else Null
  }

  /** Python's truth value. */
  predicate Truthy(x: Json) {
    match x
    case Null => false
    case Bool(b) => b
    case Int(i) => i != 0
    case Number(f) => f != Finite(0.0)
    case Str(s) => s != ""
    case List(items) => items != []
    case Object(fields) => fields.Keys != {}
  }

  /** Python's `==`, for which True equals 1 and False equals 0. */
  predicate PyEqual(x: Json, y: Json) {
    if (x.Bool? || IsNumber(x)) && (y.Bool? || IsNumber(y)) then FloatEqual(Numeric(x), Numeric(y))
    else if x.List? && y.List? then
      |x.items| == |y.items| && forall i | 0 <= i < |x.items| :: PyEqual(x.items[i], y.items[i])
    else if x.Object? && y.Object? then
      x.fields.Keys == y.fields.Keys && forall k | k in x.fields :: PyEqual(x.fields[k], y.fields[k])
    else x == y
  }

  function Numeric(x: Json): Float
    requires x.Bool? || IsNumber(x)
  {
    if x.Bool? then Finite(if x.b then 1.0 else 0.0) else AsFloat(x)
  }
}
