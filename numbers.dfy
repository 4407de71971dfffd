/**
 * JavaScript numbers as exact reals plus NaN, and the two string-to-number
 * conversions the page uses: `parseFloat` (longest decimal prefix) and the
 * implicit `Number(s)` conversion done by `*`, `/`, `>` and `isNaN`.
 * Rounding to doubles is not modelled.
 */
module JsNumber {
  import opened Wrappers

  datatype Number = Finite(x: real) | NaN

  /** `a < b` on numbers: false as soon as either side is NaN. */
  predicate Less(a: Number, b: Number)
  {
    a.Finite? && b.Finite? && a.x < b.x
  }

  predicate IsDigit(c: char)
  {
    '0' <= c <= '9'
  }

  function DigitValue(c: char): (d: nat)
    requires IsDigit(c)
    ensures d < 10
  {
    (c as int) - ('0' as int)
  }

  function Digit(d: nat): (c: char)
    requires d < 10
    ensures IsDigit(c) && DigitValue(c) == d
  {
    (('0' as int) + d) as char
  }

  /** The length of the longest all-digit prefix of `s`. */
  function LeadingDigits(s: string): (n: nat)
    ensures n <= |s|
    ensures forall i :: 0 <= i < n ==> IsDigit(s[i])
    ensures n < |s| ==> !IsDigit(s[n])
  {
    if s == [] || !IsDigit(s[0]) then 0 else 1 + LeadingDigits(s[1..])
  }

  /** The value of a string of decimal digits, most significant first. */
  function DigitsValue(d: string): nat
    requires forall i :: 0 <= i < |d| ==> IsDigit(d[i])
  {
    if d == [] then 0 else 10 * DigitsValue(d[..|d| - 1]) + DigitValue(d[|d| - 1])
  }

  function Pow10(n: nat): (p: nat)
    ensures p >= 1
  {
    if n == 0 then 1 else 10 * Pow10(n - 1)
  }

  /** 10 to the power `e`, for a signed exponent. */
  function Scale(e: int): (r: real)
    ensures r > 0.0
  {
    if e >= 0 then Pow10(e) as real else 1.0 / (Pow10(-e) as real)
  }

  /**
   * The characters JavaScript's string-to-number conversions skip as white
   * space: the ECMAScript WhiteSpace and LineTerminator characters, which take
   * in every Unicode space separator (category Zs).
   */
  predicate IsWhiteSpace(c: char)
  {
    c == ' ' || c == '\t' || c == '\n' || c == '\r' || c == '\U{000B}' || c == '\U{000C}'
    || c == '\U{00A0}' || c == '\U{FEFF}' || c == '\U{2028}' || c == '\U{2029}'
    || c == '\U{1680}' || ('\U{2000}' <= c <= '\U{200A}') || c == '\U{202F}' || c == '\U{205F}'
    || c == '\U{3000}'
  }

  /** The length of the longest white-space prefix of `s`. */
  function LeadingWhiteSpace(s: string): (n: nat)
    ensures n <= |s|
    ensures forall i :: 0 <= i < n ==> IsWhiteSpace(s[i])
    ensures n < |s| ==> !IsWhiteSpace(s[n])
  {
    if s == [] || !IsWhiteSpace(s[0]) then 0 else 1 + LeadingWhiteSpace(s[1..])
  }

  /** `s` with white space removed at both ends, as `String.prototype.trim` does. */
  function Trim(s: string): (t: string)
    ensures |t| <= |s|
    decreases |s|
  {
    var lead := LeadingWhiteSpace(s);
    if lead > 0 then Trim(s[lead..])
    else if s != [] && IsWhiteSpace(s[|s| - 1]) then Trim(s[..|s| - 1])
    else s
  }

  /**
   * The optional exponent part `e[+-]digits` at the front of `s`: its value and
   * its length, or (0, 0) when there is no well-formed exponent there (then
   * nothing is consumed, as `parseFloat("1e")` is 1).
   */
  function ExponentPrefix(s: string): (r: (int, nat))
    ensures r.1 <= |s|
  {
    if |s| >= 1 && (s[0] == 'e' || s[0] == 'E') then
      var signed := |s| >= 2 && (s[1] == '+' || s[1] == '-');
      var start := if signed then 2 else 1;
      var n := LeadingDigits(s[start..]);
      if n == 0 then (0, 0)
      else
        var magnitude: int := DigitsValue(s[start..start + n]);
        (if signed && s[1] == '-' then -magnitude else magnitude, start + n)
    else (0, 0)
  }

  /**
   * The unsigned mantissa at the front of `t` (`digits [. digits]` or `. digits`):
   * its value and its length; None when there is not a single digit.
   */
  function MantissaPrefix(t: string): (r: Option<(real, nat)>)
    ensures r.Some? ==> 0 < r.value.1 <= |t|
  {
    var intLen := LeadingDigits(t);
    var intPart := DigitsValue(t[..intLen]) as real;
    if intLen < |t| && t[intLen] == '.' then
      var fracLen := LeadingDigits(t[intLen + 1..]);
      if intLen + fracLen == 0 then None
      else
        var fracPart := DigitsValue(t[intLen + 1..intLen + 1 + fracLen]) as real / Pow10(fracLen) as real;
        Some((intPart + fracPart, intLen + 1 + fracLen))
    else if intLen == 0 then None
    else Some((intPart, intLen))
  }

  /** A mantissa scaled by its exponent. */
  function ApplyExponent(v: real, e: int): (r: real)
    ensures e == 0 ==> r == v
  {
    v * Scale(e)
  }

  /** An unsigned decimal literal (`mantissa [exponent]`) at the front of `t`. */
  function UnsignedDecimalPrefix(t: string): (r: Option<(real, nat)>)
    ensures r.Some? ==> 0 < r.value.1 <= |t|
  {
    match MantissaPrefix(t)
    case None => None
    case Some(m) =>
      var exponent := ExponentPrefix(t[m.1..]);
      Some((ApplyExponent(m.0, exponent.0), m.1 + exponent.1))
  }

  /**
   * The longest prefix of `s` that is a decimal literal
   * (`[+-]? mantissa [exponent]`), as its value and its length; None when
   * no such prefix exists.
   */
  function DecimalPrefix(s: string): (r: Option<(real, nat)>)
    ensures r.Some? ==> 0 < r.value.1 <= |s|
  {
    if |s| >= 1 && (s[0] == '+' || s[0] == '-') then
      match UnsignedDecimalPrefix(s[1..])
      case None => None
      case Some(u) => Some((if s[0] == '-' then -u.0 else u.0, 1 + u.1))
    else UnsignedDecimalPrefix(s)
  }

  /** `parseFloat(s)`: skip leading white space, read the longest decimal prefix, NaN if none. */
  function ParseFloat(s: string): (n: Number)
    ensures n.Finite? <==> DecimalPrefix(s[LeadingWhiteSpace(s)..]).Some?
  {
    match DecimalPrefix(s[LeadingWhiteSpace(s)..])
    case Some(p) => Finite(p.0)
    case None => NaN
  }

  /**
   * `Number(s)`: the empty (or all white space) string is 0; otherwise the
   * trimmed string must be one decimal literal from end to end.
   */
  function StringToNumber(s: string): (n: Number)
    ensures Trim(s) == [] ==> n == Finite(0.0)
    ensures Trim(s) != [] ==>
              (n.Finite? <==> DecimalPrefix(Trim(s)).Some? && DecimalPrefix(Trim(s)).value.1 == |Trim(s)|)
    ensures Trim(s) != [] && n.Finite? ==> n.x == DecimalPrefix(Trim(s)).value.0
  {
    var t := Trim(s);
    if t == [] then Finite(0.0)
    else match DecimalPrefix(t)
      case Some(p) => if p.1 == |t| then Finite(p.0) else NaN
      case None => NaN
  }

  /** The decimal digits of a natural number, without leading zeros. */
  function NatToString(n: nat): (s: string)
    ensures |s| >= 1
    ensures forall i :: 0 <= i < |s| ==> IsDigit(s[i])
  {
    if n < 10 then [Digit(n)] else NatToString(n / 10) + [Digit(n % 10)]
  }

  lemma {:induction false} NatToStringValue(n: nat)
    ensures DigitsValue(NatToString(n)) == n
  {
    var s := NatToString(n);
    if n >= 10 {
      NatToStringValue(n / 10);
      assert s[..|s| - 1] == NatToString(n / 10);
    }
  }

  /** A string made of digits only is one whole mantissa. */
  lemma DigitsAreMantissa(d: string)
    requires |d| >= 1
    requires forall i :: 0 <= i < |d| ==> IsDigit(d[i])
    ensures MantissaPrefix(d) == Some((DigitsValue(d) as real, |d|))
  {
    var intLen := LeadingDigits(d);
    assert intLen == |d|;
    assert d[..intLen] == d;
  }

  /** A string made of digits only is one whole unsigned literal, without exponent. */
  lemma DigitsAreUnsigned(d: string)
    requires |d| >= 1
    requires forall i :: 0 <= i < |d| ==> IsDigit(d[i])
    ensures UnsignedDecimalPrefix(d) == Some((DigitsValue(d) as real, |d|))
  {
    DigitsAreMantissa(d);
    assert d[|d|..] == [];
    assert ExponentPrefix([]) == (0, 0);
  }

  /** A string made of digits only is read whole by the decimal scanner. */
  lemma DigitsAreDecimal(d: string)
    requires |d| >= 1
    requires forall i :: 0 <= i < |d| ==> IsDigit(d[i])
    ensures DecimalPrefix(d) == Some((DigitsValue(d) as real, |d|))
  {
    assert IsDigit(d[0]);
    assert d[0] != '+' && d[0] != '-';
    DigitsAreUnsigned(d);
  }

  /** `parseFloat` reads back the decimal digits of any natural number. */
  lemma ParseFloatNatToString(n: nat)
    ensures ParseFloat(NatToString(n)) == Finite(n as real)
    ensures StringToNumber(NatToString(n)) == Finite(n as real)
  {
    var s := NatToString(n);
    NatToStringValue(n);
    DigitsAreDecimal(s);
    assert LeadingWhiteSpace(s) == 0;
    assert s[0..] == s;
    assert Trim(s) == s;
  }
}
