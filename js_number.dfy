/**
 * JavaScript numbers as far as the resolver and the table cells need them,
 * and `parseFloat` (section 21.1.2.12 of ECMA-262). Finite values are exact
 * reals: IEEE-754 rounding and overflow to infinity are not modelled.
 */
module JsNumbers {
  import opened Strings

  datatype Number = NaN | PositiveInfinity | NegativeInfinity | Finite(value: real)

  /** The value of a decimal digit (0 for any other character). */
  function DigitValue(c: char): (d: nat)
    ensures d < 10
  {
    if IsDigit(c) then c as int - '0' as int else 0
  }

  /** The value of a run of decimal digits, most significant first. */
  function DigitsValue(ds: string): nat {
    if |ds| == 0 then 0
    else 10 * DigitsValue(ds[..|ds| - 1]) + DigitValue(ds[|ds| - 1])
  }

  /** The value of the digits `ds` written after a decimal point. */
  function FractionValue(ds: string): real {
    if |ds| == 0 then 0.0
    else (DigitValue(ds[0]) as real + FractionValue(ds[1..])) / 10.0
  }

  /** The value of `whole.frac`, either part possibly empty. */
  function Mantissa(whole: string, frac: string): real {
    DigitsValue(whole) as real + FractionValue(frac)
  }

  /** `m` times ten to the power `e`. */
  function Scale(m: real, e: int): real
    decreases if e >= 0 then e else -e
  {
    if e == 0 then m
    else if e > 0 then 10.0 * Scale(m, e - 1)
    else Scale(m, e + 1) / 10.0
  }

  /**
   * The exponent written at position `c` of `t` (an `e` or `E`, an optional
   * sign and at least one digit), or 0 when none is written there: an
   * incomplete exponent is not part of the longest numeric prefix.
   */
  function ExponentAt(t: string, c: nat): int
    requires c <= |t|
  {
    if c < |t| && (t[c] == 'e' || t[c] == 'E') then
      var signed := c + 1 < |t| && (t[c + 1] == '+' || t[c + 1] == '-');
      var d := if signed then c + 2 else c + 1;
      var f := DigitRunEnd(t, d);
      if f == d then 0
      else if signed && t[c + 1] == '-' then -(DigitsValue(t[d..f]) as int)
      else DigitsValue(t[d..f])
    else 0
  }

  const InfinityText: string := "Infinity"

  /**
   * `parseFloat(input)`: skip leading white space, then read the longest
   * prefix that is a StrDecimalLiteral (optional sign, then `Infinity` or
   * digits with an optional point, fraction and exponent); NaN when there
   * is none. Trailing text is ignored.
   */
  function ParseFloat(input: string): Number {
    var t := TrimStart(input);
    var signed := |t| > 0 && (t[0] == '+' || t[0] == '-');
    var n := ParseUnsigned(t, if signed then 1 else 0);
    if signed && t[0] == '-' then Negate(n) else n
  }

  function Negate(n: Number): Number {
    match n
    case NaN => NaN
    case PositiveInfinity => NegativeInfinity
    case NegativeInfinity => PositiveInfinity
    case Finite(v) => Finite(-v)
  }

  /** The longest StrUnsignedDecimalLiteral at position `a` of `t`, read as a number. */
  function ParseUnsigned(t: string, a: nat): Number
    requires a <= |t|
  {
    if |t| - a >= |InfinityText| && t[a..a + |InfinityText|] == InfinityText then
      PositiveInfinity
    else
      var b := DigitRunEnd(t, a);
      var hasPoint := b < |t| && t[b] == '.';
      var c := if hasPoint then DigitRunEnd(t, b + 1) else b;
      var whole := t[a..b];
      var frac := if hasPoint then t[b + 1..c] else [];
      if |whole| == 0 && |frac| == 0 then NaN
      else Finite(Scale(Mantissa(whole, frac), ExponentAt(t, c)))
  }

  /** `isNaN(n)`. */
  predicate IsNaN(n: Number) {
    n.NaN?
  }

  /** `n >= bound` for a finite bound (false when `n` is NaN). */
  predicate AtLeast(n: Number, bound: real) {
    match n
    case NaN => false
    case PositiveInfinity => true
    case NegativeInfinity => false
    case Finite(v) => v >= bound
  }

  /** `n <= bound` for a finite bound (false when `n` is NaN). */
  predicate AtMost(n: Number, bound: real) {
    match n
    case NaN => false
    case PositiveInfinity => false
    case NegativeInfinity => true
    case Finite(v) => v <= bound
  }
}
