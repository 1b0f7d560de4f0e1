/** Values as the command handlers see them: the scalars a JSON payload
    decodes to, Python truthiness, and `dict.get`. */
module Values {

  datatype Option<+T> = None | Some(value: T)

  /** A JSON scalar after decoding: Python's None, a bool, an int, a float
      (a number written with a fraction or an exponent) or a string. A float
      is its exact value; rounding to a double is idealised away. */
  datatype PyValue = PNone | PBool(b: bool) | PInt(i: int) | PFloat(r: real) | PStr(s: string)

  /** Python truthiness of a scalar: `not v` is `!Truthy(v)`. */
  predicate Truthy(v: PyValue)
  {
    match v
    case PNone => false
    case PBool(b) => b
    case PInt(i) => i != 0
    case PFloat(r) => r != 0.0
    case PStr(s) => |s| > 0
  }

  /** A Python dict with string keys: a decoded payload or a report. */
  type Dict = map<string, PyValue>

  /** `d.get(key)`: the stored value, or None when the key is absent. */
  function Get(d: Dict, key: string): (v: PyValue)
    ensures key !in d ==> v == PNone
    ensures key in d ==> v == d[key]
  {
    if key in d then d[key] else PNone
  }

  /** Python's `repr`, left abstract: the model never inspects its text. */
  type Repr = PyValue -> string

  ghost predicate Injective<A(!new), B>(f: A -> B)
  {
    forall x, y :: f(x) == f(y) ==> x == y
  }
}
