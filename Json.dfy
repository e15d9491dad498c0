/**
 * Response bodies after `JSON.parse`: the list response and each class-size
 * response are handled as already-parsed JSON values.
 */
module Json {

  datatype Option<T> = None | Some(value: T)

  /** One decimal digit. */
  type Digit = d: int | 0 <= d <= 9

  /**
   * A parsed JSON number: the double `JSON.parse` produced, in the decimal
   * form ECMAScript prints it from. A finite value is the digit string
   * `digits` (the shortest that identifies the double, first and last
   * digit non-zero; empty for zero) times 10^(point - |digits|), with its
   * sign. A literal too large for a double parses to an infinity.
   */
  datatype Number =
    | Finite(negative: bool, digits: seq<Digit>, point: int)
    | Infinite(negative: bool)

  /** The value of a digit string read in base ten. */
  function DigitsValue(ds: seq<Digit>): nat
  {
    if ds == [] then 0 else 10 * DigitsValue(ds[..|ds| - 1]) + ds[|ds| - 1]
  }

  function Pow10(e: nat): nat
  {
    if e == 0 then 1 else 10 * Pow10(e - 1)
  }

  /** `Number.isInteger`: finite, with no non-zero digit after the point. */
  predicate IsInteger(n: Number)
  {
    n.Finite? && forall i :: 0 <= i < |n.digits| && n.point <= i ==> n.digits[i] == 0
  }

  /** The value of an integral number. */
  function IntValue(n: Number): int
    requires IsInteger(n)
  {
    var p := if n.point < 0 then 0 else n.point;
    var m := if p < |n.digits| then p else |n.digits|;
    var magnitude := DigitsValue(n.digits[..m]) * Pow10(p - m);
    if n.negative then -magnitude else magnitude
  }

  /** A parsed JSON value. An object maps each key to the value its last
      occurrence in the text carried. */
  datatype Json =
    | JNull
    | JBool(b: bool)
    | JNumber(n: Number)
    | JString(s: string)
    | JArray(elems: seq<Json>)
    | JObject(fields: map<string, Json>)
}
