/**
 * ECMAScript's conversion of a value to a string (the abstract operation
 * ToString, with ToPrimitive for objects), on parsed JSON values. This is
 * what `RegExp.prototype.test` applies to its argument before matching.
 */
module JsString {
  import opened Json

  function DigitChar(d: Digit): char
  {
    ('0' as int + d) as char
  }

  function DigitsText(ds: seq<Digit>): string
  {
    if ds == [] then "" else DigitsText(ds[..|ds| - 1]) + [DigitChar(ds[|ds| - 1])]
  }

  function Zeros(k: nat): string
  {
    if k == 0 then "" else Zeros(k - 1) + "0"
  }

  /** A natural number in decimal, with no leading zero. */
  function NatText(m: nat): string
  {
    if m < 10 then [DigitChar(m)] else NatText(m / 10) + [DigitChar(m % 10)]
  }

  /** Digits with a decimal point after the first `n` of them. */
  function PointText(ds: seq<Digit>, n: nat): string
    requires 0 < n <= |ds|
  {
    DigitsText(ds[..n]) + "." + DigitsText(ds[n..])
  }

  /** "e", the sign of `e` ('+' for zero), and its magnitude. */
  function ExponentText(e: int): string
  {
    if e >= 0 then "e+" + NatText(e) else "e-" + NatText(-e)
  }

  /**
   * Number::toString of ECMA-262 in base ten, for the non-empty digits
   * `ds` (k of them) and the point position n: plain digits padded with
   * zeros while k <= n <= 21, a decimal point inside the digits while
   * 0 < n <= 21, a leading "0." while -6 < n <= 0, and otherwise exponent
   * form with exponent n - 1.
   */
  function MagnitudeText(ds: seq<Digit>, n: int): string
  {
    var k := |ds|;
    if k <= n <= 21 then PaddedText(ds, n - k)
    else if 0 < n <= 21 then PointText(ds, n)
    else if -6 < n <= 0 then FractionText(ds, -n)
    else ExponentForm(ds, n - 1)
  }

  /** The digits followed by `z` zeros. */
  function PaddedText(ds: seq<Digit>, z: nat): string
  {
    DigitsText(ds) + Zeros(z)
  }

  /** "0.", `z` zeros, then the digits. */
  function FractionText(ds: seq<Digit>, z: nat): string
  {
    "0." + Zeros(z) + DigitsText(ds)
  }

  /** The first digit, a decimal point before any others, and the exponent. */
  function ExponentForm(ds: seq<Digit>, e: int): string
  {
    (if |ds| <= 1 then DigitsText(ds) else PointText(ds, 1)) + ExponentText(e)
  }

  /** ToString of a number: "0" for either zero, "Infinity" with its sign,
      otherwise the sign and the magnitude. */
  function NumberText(n: Number): string
  {
    match n
    case Infinite(negative) => (if negative then "-" else "") + "Infinity"
    case Finite(negative, ds, point) =>
      if ds == [] then "0" else (if negative then "-" else "") + MagnitudeText(ds, point)
  }

  /**
   * ToString of a parsed JSON value, or `None` where it throws a
   * TypeError. An array converts through `join`: its elements' strings
   * separated by ',', a null element giving "". An object converts
   * through its `toString`: the inherited one gives "[object Object]", but
   * an own "toString" key holds data, not a function, and `valueOf` then
   * yields the object itself, so the conversion throws.
   */
  function JsToString(v: Json): Option<string>
    decreases v, 1
  {
    match v
    case JNull => Some("null")
    case JBool(b) => Some(if b then "true" else "false")
    case JNumber(n) => Some(NumberText(n))
    case JString(s) => Some(s)
    case JArray(elems) => JoinPrefix(v, |elems|)
    case JObject(fields) => if "toString" in fields then None else Some("[object Object]")
  }

  /** `join(",")` over the first `n` elements of the array `v`. */
  function JoinPrefix(v: Json, n: nat): Option<string>
    requires v.JArray? && n <= |v.elems|
    decreases v, 0, n
  {
    if n == 0 then Some("")
    else
      var last := ElementText(v, n - 1);
      if n == 1 then last
      else
        match JoinPrefix(v, n - 1)
        case None => None
        case Some(init) => if last.None? then None else Some(init + "," + last.value)
  }

  /** How `join` writes one element of the array `v`. */
  function ElementText(v: Json, i: nat): Option<string>
    requires v.JArray? && i < |v.elems|
    decreases v, 0, 0
  {
    if v.elems[i].JNull? then Some("") else JsToString(v.elems[i])
  }

  /** Where the conversion throws: an object with its own "toString" key,
      or an array holding such a value at any depth. */
  predicate ToStringThrows(v: Json)
  {
    match v
    case JObject(fields) => "toString" in fields
    case JArray(elems) => exists i :: 0 <= i < |elems| && ToStringThrows(elems[i])
    case _ => false
  }

  /** The conversion throws exactly where `ToStringThrows` says. */
  lemma {:induction false} JsToStringThrows(v: Json)
    ensures JsToString(v).None? <==> ToStringThrows(v)
    decreases v, 1
  {
    if v.JArray? {
      JoinPrefixThrows(v, |v.elems|);
    }
  }

  /** `join` over a prefix throws exactly when one of its elements does. */
  lemma {:induction false} JoinPrefixThrows(v: Json, n: nat)
    requires v.JArray? && n <= |v.elems|
    ensures JoinPrefix(v, n).None? <==> exists i :: 0 <= i < n && ToStringThrows(v.elems[i])
    decreases v, 0, n
  {
    if n > 0 {
      JoinPrefixThrows(v, n - 1);
      JsToStringThrows(v.elems[n - 1]);
    }
  }

  /** Joining two or more elements writes a separator. */
  lemma JoinHasComma(v: Json, n: nat)
    requires v.JArray? && 2 <= n <= |v.elems|
    ensures JoinPrefix(v, n).Some? ==> ',' in JoinPrefix(v, n).value
  {
  }

  /** The characters number text is made of, apart from "Infinity". */
  predicate NumericChar(c: char)
  {
    '0' <= c <= '9' || c == '.' || c == 'e' || c == '+' || c == '-'
  }

  predicate NumericText(s: string)
  {
    s == [] || (NumericChar(s[0]) && NumericText(s[1..]))
  }

  lemma {:induction false} NumericAt(s: string, i: nat)
    requires NumericText(s) && i < |s|
    ensures NumericChar(s[i])
  {
    if i > 0 {
      NumericAt(s[1..], i - 1);
    }
  }

  lemma {:induction false} NumericAppend(a: string, b: string)
    requires NumericText(a) && NumericText(b)
    ensures NumericText(a + b)
  {
    if a != [] {
      NumericAppend(a[1..], b);
      assert (a + b)[1..] == a[1..] + b;
    } else {
      assert a + b == b;
    }
  }

  lemma {:induction false} DigitsTextNumeric(ds: seq<Digit>)
    ensures NumericText(DigitsText(ds))
    decreases |ds|
  {
    if ds != [] {
      DigitsTextNumeric(ds[..|ds| - 1]);
      NumericAppend(DigitsText(ds[..|ds| - 1]), [DigitChar(ds[|ds| - 1])]);
    }
  }

  lemma {:induction false} ZerosNumeric(k: nat)
    ensures NumericText(Zeros(k))
  {
    if k > 0 {
      ZerosNumeric(k - 1);
      NumericAppend(Zeros(k - 1), "0");
    }
  }

  lemma {:induction false} NatTextNumeric(m: nat)
    ensures NumericText(NatText(m))
  {
    if m >= 10 {
      NatTextNumeric(m / 10);
      NumericAppend(NatText(m / 10), [DigitChar(m % 10)]);
    }
  }

  lemma PointTextNumeric(ds: seq<Digit>, n: nat)
    requires 0 < n <= |ds|
    ensures NumericText(PointText(ds, n))
  {
    DigitsTextNumeric(ds[..n]);
    DigitsTextNumeric(ds[n..]);
    NumericAppend(DigitsText(ds[..n]), ".");
    NumericAppend(DigitsText(ds[..n]) + ".", DigitsText(ds[n..]));
  }

  lemma ExponentNumeric(e: int)
    ensures NumericText(ExponentText(e))
  {
    NatTextNumeric(if e >= 0 then e else -e);
    NumericAppend(if e >= 0 then "e+" else "e-", NatText(if e >= 0 then e else -e));
  }

  lemma PaddedNumeric(ds: seq<Digit>, z: nat)
    ensures NumericText(PaddedText(ds, z))
  {
    DigitsTextNumeric(ds);
    ZerosNumeric(z);
    NumericAppend(DigitsText(ds), Zeros(z));
  }

  lemma FractionNumeric(ds: seq<Digit>, z: nat)
    ensures NumericText(FractionText(ds, z))
  {
    DigitsTextNumeric(ds);
    ZerosNumeric(z);
    NumericAppend("0.", Zeros(z));
    NumericAppend("0." + Zeros(z), DigitsText(ds));
  }

  lemma ExponentFormNumeric(ds: seq<Digit>, e: int)
    ensures NumericText(ExponentForm(ds, e))
  {
    if |ds| <= 1 {
      DigitsTextNumeric(ds);
    } else {
      PointTextNumeric(ds, 1);
    }
    ExponentNumeric(e);
    NumericAppend(if |ds| <= 1 then DigitsText(ds) else PointText(ds, 1), ExponentText(e));
  }

  lemma MagnitudeTextNumeric(ds: seq<Digit>, n: int)
    ensures NumericText(MagnitudeText(ds, n))
  {
    var k := |ds|;
    if k <= n <= 21 {
      assert MagnitudeText(ds, n) == PaddedText(ds, n - k);
      PaddedNumeric(ds, n - k);
    } else if 0 < n <= 21 {
      assert MagnitudeText(ds, n) == PointText(ds, n);
      PointTextNumeric(ds, n);
    } else if -6 < n <= 0 {
      assert MagnitudeText(ds, n) == FractionText(ds, -n);
      FractionNumeric(ds, -n);
    } else {
      assert MagnitudeText(ds, n) == ExponentForm(ds, n - 1);
      ExponentFormNumeric(ds, n - 1);
    }
  }

  /** ToString of a number is "Infinity" or "-Infinity", or made of
      digits, '.', 'e', '+' and '-' only. */
  lemma NumberTextShape(n: Number)
    ensures NumberText(n) == "Infinity" || NumberText(n) == "-Infinity" || NumericText(NumberText(n))
  {
    if n.Finite? && n.digits != [] {
      MagnitudeTextNumeric(n.digits, n.point);
      NumericAppend(if n.negative then "-" else "", MagnitudeText(n.digits, n.point));
    }
  }
}
