/**
 * JavaScript's conversions between strings and numbers, on exact reals: the
 * StringNumericLiteral grammar used by `Number(s)` and `isNaN(s)` (decimal forms
 * only), and the decimal rendering used by template literals and `String(n)`.
 */
module JsNumbers {
  import opened Wrappers
  import opened JsStrings

  predicate IsDigit(c: char) { '0' <= c <= '9' }

  predicate AllDigits(s: string) {
    forall k | 0 <= k < |s| :: IsDigit(s[k])
  }

  function DigitValue(c: char): (d: nat)
    requires IsDigit(c)
    ensures d < 10
  {
    (c as int) - ('0' as int)
  }

  function DigitChar(d: nat): (c: char)
    requires d < 10
    ensures IsDigit(c) && DigitValue(c) == d
  {
    ('0' as int + d) as char
  }

  function Pow10(k: nat): (r: nat)
    ensures r >= 1
  {
    if k == 0 then 1 else 10 * Pow10(k - 1)
  }

  /** The value of a string of decimal digits, most significant first. */
  function DigitsValue(s: string): nat
    requires AllDigits(s)
  {
    if s == [] then 0 else 10 * DigitsValue(s[..|s| - 1]) + DigitValue(s[|s| - 1])
  }

  /** Decimal rendering of a natural number, without leading zeros. */
  function NatToString(n: nat): (r: string)
    ensures |r| >= 1 && AllDigits(r)
    ensures DigitsValue(r) == n
    ensures |r| > 1 ==> r[0] != '0'
  {
    if n < 10 then [DigitChar(n)]
    else
      var r := NatToString(n / 10) + [DigitChar(n % 10)];
      assert r[..|r| - 1] == NatToString(n / 10);
      r
  }

  /** Decimal rendering of an integer, as `String(i)` gives it. */
  function IntToString(i: int): string {
    if i < 0 then "-" + NatToString(-i) else NatToString(i)
  }

  /** Scales `v` by ten to the power `e`. */
  function Scale(v: real, e: int): real {
    if e >= 0 then v * (Pow10(e) as real) else v / (Pow10(-e) as real)
  }

  /** First position of an exponent marker `e` or `E`, or -1. */
  function ExponentIndex(u: string): (r: int)
    ensures r == -1 ==> 'e' !in u && 'E' !in u
    ensures r != -1 ==> 0 <= r < |u| && u[r] in "eE"
  {
    var i, j := IndexOf(u, 'e'), IndexOf(u, 'E');
    if i == -1 then j else if j == -1 then i else if i < j then i else j
  }

  /** `digits`, `digits.`, `digits.digits` or `.digits`: the mantissa of a decimal literal. */
  function MantissaValue(m: string): Option<real> {
    var d := IndexOf(m, '.');
    var ip := if d == -1 then m else m[..d];
    var fp := if d == -1 then "" else m[d + 1..];
    if AllDigits(ip) && AllDigits(fp) && |ip| + |fp| >= 1 then
      Some((DigitsValue(ip + fp) as real) / (Pow10(|fp|) as real))
    else None
  }

  /** The exponent after `e`/`E`: an optional sign and at least one digit. */
  function ExponentValue(x: string): Option<int> {
    var neg := x != [] && x[0] == '-';
    var y := if x != [] && (x[0] == '+' || x[0] == '-') then x[1..] else x;
    if |y| >= 1 && AllDigits(y) then
      Some(if neg then -(DigitsValue(y) as int) else DigitsValue(y))
    else None
  }

  function UnsignedDecimalValue(u: string): Option<real> {
    var e := ExponentIndex(u);
    if e == -1 then MantissaValue(u)
    else
      match (MantissaValue(u[..e]), ExponentValue(u[e + 1..]))
      case (Some(m), Some(x)) => Some(Scale(m, x))
      case _ => None
  }

  /** StrDecimalLiteral: an optional sign followed by an unsigned decimal literal. */
  function DecimalLiteralValue(t: string): Option<real> {
    if t != [] && t[0] == '-' then
      match UnsignedDecimalValue(t[1..])
      case Some(v) => Some(-v)
      case None => None
    else if t != [] && t[0] == '+' then UnsignedDecimalValue(t[1..])
    else UnsignedDecimalValue(t)
  }

  /**
   * `Number(s)` for a string: `None` is NaN. Surrounding white space is ignored and a
   * string of white space alone is 0.
   */
  function StringToNumber(s: string): Option<real> {
    var t := Trim(s);
    if t == [] then Some(0.0) else DecimalLiteralValue(t)
  }

  /** `!isNaN(s)` for a string. */
  predicate IsNumeric(s: string) {
    StringToNumber(s).Some?
  }

  /** Up to `budget` decimal digits of a fraction in [0, 1), most significant first. */
  function FractionDigits(f: real, budget: nat): string
    requires 0.0 <= f < 1.0
    decreases budget
  {
    if f == 0.0 || budget == 0 then ""
    else
      var d := (f * 10.0).Floor;
      [DigitChar(d)] + FractionDigits(f * 10.0 - d as real, budget - 1)
  }

  /**
   * `String(x)` for a number written in positional form: the integer part, then a
   * point and the fraction's digits when there is a fraction (at most twenty of them).
   * JavaScript writes this form only for 10^-6 <= |x| < 10^21 (and for 0); outside that
   * span it uses exponent form (`1e+21`, `1e-7`), which this function does not produce.
   */
  function NumberToString(x: real): string {
    var a := if x < 0.0 then -x else x;
    var ip := a.Floor;
    var f := a - ip as real;
    (if x < 0.0 then "-" else "") + NatToString(ip) + (if f == 0.0 then "" else "." + FractionDigits(f, 20))
  }

  lemma DigitsNoMarkers(s: string)
    requires AllDigits(s)
    ensures '.' !in s && 'e' !in s && 'E' !in s && '-' !in s && '+' !in s
  {
  }

  /** A non-empty digit string is an unsigned decimal literal denoting its digits' value. */
  lemma DigitsLiteral(s: string)
    requires |s| >= 1 && AllDigits(s)
    ensures UnsignedDecimalValue(s) == Some(DigitsValue(s) as real)
  {
    DigitsNoMarkers(s);
    assert IndexOf(s, '.') == -1;
    assert ExponentIndex(s) == -1;
    assert s + "" == s;
    assert Pow10(|""|) == 1;
    var v := DigitsValue(s) as real;
    assert v / 1.0 == v;
    assert MantissaValue(s) == Some(v);
  }

  /**
   * A string starting with anything but white space, a digit, a sign or a point is
   * not numeric.
   */
  lemma NonNumericLead(s: string)
    requires s != [] && !IsWhiteSpace(s[0]) && !IsDigit(s[0]) && s[0] !in "+-."
    ensures !IsNumeric(s)
  {
    TrimEmptyIff(s);
    var t := Trim(s);
    assert t[0] == s[0];
    var e := ExponentIndex(t);
    var m := if e == -1 then t else t[..e];
    if m != [] {
      assert m[0] == s[0];
      var d := IndexOf(m, '.');
      assert d != 0;
      var ip := if d == -1 then m else m[..d];
      assert ip[0] == s[0];
      assert !AllDigits(ip);
    }
    assert MantissaValue(m) == None;
  }

  /** A digit string, bare or after a minus sign, has no white space to trim. */
  lemma DigitsTrimmed(s: string)
    requires |s| >= 1 && AllDigits(s)
    ensures IsTrimmed(s) && IsTrimmed("-" + s)
  {
    assert IsDigit(s[0]) && IsDigit(s[|s| - 1]);
    assert ("-" + s)[|s|] == s[|s| - 1];
  }

  /** The decimal rendering of a natural number reads back as that number. */
  lemma NatToStringNumber(n: nat)
    ensures StringToNumber(NatToString(n)) == Some(n as real)
  {
    var r := NatToString(n);
    DigitsLiteral(r);
    DigitsTrimmed(r);
    TrimOfTrimmed(r);
    assert r[0] != '-' && r[0] != '+';
  }

  /** Every decimal rendering of an integer reads back as that integer. */
  lemma IntToStringRoundTrip(i: int)
    ensures StringToNumber(IntToString(i)) == Some(i as real)
  {
    if i < 0 {
      var r := NatToString(-i);
      var t := "-" + r;
      DigitsLiteral(r);
      DigitsTrimmed(r);
      TrimOfTrimmed(t);
      assert t[1..] == r;
    } else {
      NatToStringNumber(i);
    }
  }

  /**
   * Integral numbers below 10^21 in magnitude, the ones JavaScript writes in positional
   * form, are rendered exactly as integers are.
   */
  lemma IntegralNumberToString(i: int)
    requires -1_000_000_000_000_000_000_000 < i < 1_000_000_000_000_000_000_000
    ensures NumberToString(i as real) == IntToString(i)
  {
    var x := i as real;
    var a := if x < 0.0 then -x else x;
    var n: nat := if i < 0 then -i else i;
    assert a == n as real;
    assert a.Floor == n;
    assert a - a.Floor as real == 0.0;
  }
}
