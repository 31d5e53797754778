/** Cell values of the constituent tables, and the two pandas/Python tests applied to them. */
module Values {

  /** A table cell. `Null` is a missing value (NaN/None after CSV parsing). */
  datatype Value = Null | Int(i: int) | Str(s: string) | Bool(b: bool)

  /** Python's `cell == 1`: an integer one, or `True` (since `True == 1`). */
  predicate IsOne(v: Value): (b: bool)
    ensures v.Null? || v.Str? ==> !b
    ensures b ==> Truthy(v)
  {
    v == Int(1) || v == Bool(true)
  }

  /** Python truthiness, as used by `astype(bool)`: zero, `False` and the empty string are
      false; a missing value is NaN, and `bool(NaN)` is true. */
  predicate Truthy(v: Value): (b: bool)
    ensures v.Null? ==> b
    ensures v == Int(0) || v == Bool(false) || v == Str("") ==> !b
    ensures v.Bool? ==> b == v.b
  {
    match v
    case Null => true
    case Int(i) => i != 0
    case Str(s) => s != ""
    case Bool(b) => b
  }
}
