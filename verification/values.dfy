/** JSON values as Python's `json` module hands them to the tap, Python's
    exceptions as values, and the score conversion `int(x * 10)`. */
module Values {

  /** A decoded JSON document. Python keeps `int` and `float` apart, so the
      model does too; objects are dictionaries keyed by strings. */
  datatype Json =
    | JNull
    | JBool(b: bool)
    | JInt(i: int)
    | JFloat(x: real)
    | JStr(s: string)
    | JArr(items: seq<Json>)
    | JObj(fields: map<string, Json>)

  /** The Python exception an operation raises. */
  datatype Failure =
    | KeyError(key: string)
    | TypeError
    | ValueError
    | AttributeError

  /** What a Python call does: it returns a value or raises. */
  datatype Outcome<+T> = Returned(value: T) | Raised(error: Failure)

  datatype Option<+T> = None | Some(value: T)

  /** Python's `int(x)` on a float: rounds toward zero. The two ensures
      determine the result uniquely. */
  function Trunc(x: real): (n: int)
    ensures 0.0 <= x ==> n as real <= x < n as real + 1.0
    ensures x < 0.0 ==> n as real - 1.0 < x <= n as real
  {
    if 0.0 <= x then x.Floor else -((-x).Floor)
  }

  /** `int(v * 10)`: a scorecard score on the 0-10 scale with one decimal
      becomes an integer on the 0-100 scale. A `bool` multiplies like 0 or 1;
      a string is repeated and then refused by `int`; `None`, a list or a
      dictionary cannot be turned into an integer. */
  function Rescale(v: Json): (r: Outcome<int>)
    ensures r.Returned? <==> (v.JInt? || v.JFloat? || v.JBool?)
    ensures v.JStr? ==> r == Raised(ValueError)
    ensures (v.JNull? || v.JArr? || v.JObj?) ==> r == Raised(TypeError)
    ensures v.JFloat? && 0.0 <= v.x <= 10.0 ==> 0 <= r.value <= 100
    ensures v.JInt? && 0 <= v.i <= 10 ==> 0 <= r.value <= 100
    ensures v.JFloat? ==> r.value as real <= 10.0 * v.x + 1.0 && 10.0 * v.x - 1.0 <= r.value as real
  {
    match v
    case JInt(i) => Returned(i * 10)
    case JFloat(x) => Returned(Trunc(x * 10.0))
    case JBool(b) => Returned(if b then 10 else 0)
    case JStr(_) => Raised(ValueError)
    case _ => Raised(TypeError)
  }

  /** A score with exactly one decimal, k / 10, becomes the integer k: the
      conversion loses nothing on the values the scanner produces. */
  lemma RescaleOneDecimal(k: int)
    ensures Rescale(JFloat(k as real / 10.0)) == Returned(k)
  {
    var x := k as real / 10.0;
    assert x * 10.0 == k as real;
  }
}
