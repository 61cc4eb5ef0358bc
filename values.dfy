/**
 * A decoded cell value, PHP's `string|float|bool`, and how PHP turns one into
 * a number: `is_numeric` + `(float)` when a table is built, and the operand
 * conversion of the arithmetic operators when scores are added up or divided.
 */
module Values {
  import opened Wrappers
  import opened PhpText

  datatype Value = Text(text: string) | Number(number: real) | Bool(flag: bool)

  /** PHP's `is_numeric($v)`: a float always is, a bool never is, a string when it is a numeric literal. */
  predicate IsNumericValue(v: Value) {
    match v
    case Number(_) => true
    case Bool(_) => false
    case Text(s) => IsNumeric(s)
  }

  /**
   * `is_numeric($v) ? (float)$v : $v`: numeric strings become floats, all
   * other values are kept as they are.
   */
  function Coerce(v: Value): (r: Value)
    ensures IsNumericValue(v) <==> r.Number?
    ensures !IsNumericValue(v) ==> r == v
    ensures v.Text? && IsNumeric(v.text) ==> r == Number(ToNumber(v.text))
  {
    match v
    case Text(s) => if IsNumeric(s) then Number(ToNumber(s)) else v
    case _ => v
  }

  function CoerceAll(row: seq<Value>): (r: seq<Value>)
    ensures |r| == |row|
    ensures forall j :: 0 <= j < |row| ==> r[j] == Coerce(row[j])
  {
    seq(|row|, j requires 0 <= j < |row| => Coerce(row[j]))
  }

  /**
   * The number PHP 8's `+` and `/` use for an operand: a float as it is, a
   * bool as 1 or 0, a numeric string as its value; a non-numeric string makes
   * the operator throw a TypeError (None here).
   */
  function AsNumber(v: Value): (r: Option<real>)
    ensures r.None? <==> v.Text? && !IsNumeric(v.text)
    ensures v.Number? ==> r == Some(v.number)
    ensures v.Bool? ==> r == Some(if v.flag then 1.0 else 0.0)
    ensures v.Text? && IsNumeric(v.text) ==> r == Some(ToNumber(v.text))
  {
    match v
    case Number(x) => Some(x)
    case Bool(b) => Some(if b then 1.0 else 0.0)
    case Text(s) => if IsNumeric(s) then Some(ToNumber(s)) else None
  }

  /** Coercion changes the representation of a value, never the number PHP computes with. */
  lemma CoercePreservesNumber(v: Value)
    ensures AsNumber(Coerce(v)) == AsNumber(v)
  {
  }

  lemma CoerceIdempotent(v: Value)
    ensures Coerce(Coerce(v)) == Coerce(v)
  {
  }
}
