/**
 * The part of ECMAScript's number semantics the extractor and the preprocessor
 * depend on: the special values NaN and the infinities, `Number(s)` for
 * decimal strings, and
 * the arithmetic built-ins used by the image geometry. Finite values are exact
 * reals: rounding to the nearest double is not modelled, overflow to an
 * infinity is.
 */
module JsNumber {
  import opened JsText

  datatype Num = Finite(value: real) | PosInfinity | NegInfinity | NaN

  /** 2^1024 - 2^970, the midpoint between Number.MAX_VALUE and 2^1024: a real of at least this magnitude rounds to an infinity. */
  const OverflowBound: real := 179769313486231580793728971405303415079934132710037826936173778980444968292764750946649017977587207096330286416692887910946555547851940402630657488671505820681908902000708383676273854845817711531764475730270069855571366959622842914819860834936475292719074168444365510704342711559699508093042880177904174497792.0

  /** A non-negative whole number that a double holds without overflowing, such as an image dimension. */
  type Count = n: nat | (n as real) < OverflowBound

  /** The double nearest to `x`, up to rounding: an infinity when `x` is out of range. */
  function FromExact(x: real): (n: Num)
    ensures n.Finite? <==> -OverflowBound < x < OverflowBound
    ensures n.Finite? ==> n.value == x
  {
    if x >= OverflowBound then PosInfinity else if x <= -OverflowBound then NegInfinity else Finite(x)
  }

  function Pow10(n: nat): (p: nat)
    ensures p >= 1
  {
    if n == 0 then 1 else 10 * Pow10(n - 1)
  }

  lemma {:induction false} Pow10Monotone(m: nat, n: nat)
    requires m <= n
    ensures Pow10(m) <= Pow10(n)
    decreases n
  {
    if m < n { Pow10Monotone(m, n - 1); }
  }

  function DigitValue(c: char): (d: nat)
    requires IsDigit(c)
    ensures d <= 9
  {
    c as int - '0' as int
  }

  /** The value of a string of decimal digits, most significant first. */
  function DigitsValue(ds: string): (v: nat)
    requires AllDigits(ds)
    ensures v < Pow10(|ds|)
  {
    if ds == [] then 0 else
      var init := ds[..|ds| - 1];
      var v := DigitsValue(init);
      assert v + 1 <= Pow10(|init|);
      assert 10 * v + 10 <= 10 * Pow10(|init|);
      10 * v + DigitValue(ds[|ds| - 1])
  }

  lemma {:induction false} DigitsValueAppend(a: string, b: string)
    requires AllDigits(a) && AllDigits(b)
    ensures AllDigits(a + b)
    ensures DigitsValue(a + b) == DigitsValue(a) * Pow10(|b|) + DigitsValue(b)
    decreases |b|
  {
    assert AllDigits(a + b);
    if b == [] {
      assert a + b == a;
    } else {
      var b' := b[..|b| - 1];
      assert (a + b)[..|a + b| - 1] == a + b';
      DigitsValueAppend(a, b');
      var x, p, y, c := DigitsValue(a), Pow10(|b'|), DigitsValue(b'), DigitValue(b[|b| - 1]);
      assert DigitsValue(a + b) == 10 * DigitsValue(a + b') + c;
      assert b[..|b| - 1] == b';
      assert DigitsValue(b) == 10 * y + c;
      assert Pow10(|b|) == 10 * p;
      ShiftDigit(x, p, y, c);
    }
  }

  lemma {:induction false} ShiftDigit(x: nat, p: nat, y: nat, c: nat)
    ensures 10 * (x * p + y) + c == x * (10 * p) + (10 * y + c)
  {
  }

  lemma {:induction false} QuotientBelowOne(d: real, p: real)
    requires 0.0 <= d < p
    ensures 0.0 <= d / p < 1.0
  {
    assert d / p * p == d;
  }

  /** The value of the digits after a decimal point: `frac` read as `0.frac`. */
  function FractionValue(frac: string): (v: real)
    requires AllDigits(frac)
    ensures 0.0 <= v < 1.0
  {
    var d, p := DigitsValue(frac) as real, Pow10(|frac|) as real;
    QuotientBelowOne(d, p);
    d / p
  }

  /**
   * `Number(s)` for the decimal forms: the empty string (0), `ddd`, `ddd.`,
   * `ddd.ddd` and `.ddd`. Anything else is NaN here.
   */
  function ParseNumber(s: string): (n: Num)
    ensures n.Finite? ==> n.value >= 0.0
  {
    if s == [] then Finite(0.0)
    else if '.' !in s then
      if AllDigits(s) then FromExact(DigitsValue(s) as real) else NaN
    else
      var i := IndexOf(s, '.');
      var whole, frac := s[..i], s[i + 1..];
      if AllDigits(whole) && AllDigits(frac) && (whole != [] || frac != []) then
        FromExact(DigitsValue(whole) as real + FractionValue(frac))
      else
        NaN
  }

  /** `ddd.ddd` parses to its whole part plus its fraction. */
  lemma {:induction false} ParseDecimal(whole: string, frac: string)
    requires AllDigits(whole) && AllDigits(frac) && whole != []
    ensures ParseNumber(whole + "." + frac) == FromExact(DigitsValue(whole) as real + FractionValue(frac))
  {
    var s := whole + "." + frac;
    assert s[|whole|] == '.';
    var i := IndexOf(s, '.');
    assert i == |whole|;
    assert s[..i] == whole;
    assert s[i + 1..] == frac;
  }

  /** A parsed decimal is below 10 to the number of digits in its text. */
  lemma {:induction false} ParseNumberBelow(s: string)
    requires ParseNumber(s).Finite?
    ensures ParseNumber(s).value < Pow10(|DigitsOf(s)|) as real
  {
    if s == [] {
    } else if '.' !in s {
      DigitsOfDigits(s);
    } else {
      var i := IndexOf(s, '.');
      var whole := s[..i];
      assert s == whole + s[i..];
      DigitsOfAppend(whole, s[i..]);
      DigitsOfDigits(whole);
      Pow10Monotone(|whole|, |DigitsOf(s)|);
    }
  }

  // Arithmetic built-ins on the values above (signed zero is not modelled).

  /** `a / b` for two finite operands. */
  function Divide(a: real, b: real): (n: Num)
    ensures b != 0.0 ==> n == FromExact(a / b)
    ensures b == 0.0 ==> (n.NaN? <==> a == 0.0)
  {
    if b != 0.0 then FromExact(a / b)
    else if a > 0.0 then PosInfinity
    else if a < 0.0 then NegInfinity
    else NaN
  }

  /** `x * y`. */
  function Times(x: Num, y: Num): Num {
    match (x, y)
    case (Finite(a), Finite(b)) => FromExact(a * b)
    case (NaN, _) => NaN
    case (_, NaN) => NaN
    case (Finite(a), _) => if a == 0.0 then NaN else if (a > 0.0) == y.PosInfinity? then PosInfinity else NegInfinity
    case (_, Finite(b)) => if b == 0.0 then NaN else if (b > 0.0) == x.PosInfinity? then PosInfinity else NegInfinity
    case _ => if x == y then PosInfinity else NegInfinity
  }

  /** `-x`. */
  function Negate(x: Num): Num {
    match x
    case Finite(a) => Finite(-a)
    case PosInfinity => NegInfinity
    case NegInfinity => PosInfinity
    case NaN => NaN
  }

  /** `x + y`. */
  function Plus(x: Num, y: Num): Num {
    match (x, y)
    case (Finite(a), Finite(b)) => FromExact(a + b)
    case (NaN, _) => NaN
    case (_, NaN) => NaN
    case (Finite(_), _) => y
    case (_, Finite(_)) => x
    case _ => if x == y then x else NaN
  }

  /** `x - y`. */
  function Minus(x: Num, y: Num): Num {
    Plus(x, Negate(y))
  }

  /** `x <= y` on two values neither of which is NaN. */
  predicate AtMost(x: Num, y: Num)
    requires !x.NaN? && !y.NaN?
  {
    match (x, y)
    case (NegInfinity, _) => true
    case (_, PosInfinity) => true
    case (Finite(a), Finite(b)) => a <= b
    case _ => false
  }

  /** `Math.min(x, y)`: NaN when either is. */
  function Min(x: Num, y: Num): (n: Num)
    ensures n.NaN? <==> x.NaN? || y.NaN?
    ensures !n.NaN? ==> AtMost(n, x) && AtMost(n, y) && (n == x || n == y)
  {
    if x.NaN? || y.NaN? then NaN else if AtMost(x, y) then x else y
  }

  /** `Math.max(x, y)`: NaN when either is. */
  function Max(x: Num, y: Num): (n: Num)
    ensures n.NaN? <==> x.NaN? || y.NaN?
    ensures !n.NaN? ==> AtMost(x, n) && AtMost(y, n) && (n == x || n == y)
  {
    if x.NaN? || y.NaN? then NaN else if AtMost(x, y) then y else x
  }

  /** `Math.floor(x)`. */
  function Floor(x: Num): (n: Num)
    ensures x.Finite? ==> n.Finite? && n.value <= x.value < n.value + 1.0 && n.value == n.value.Floor as real
    ensures !x.Finite? ==> n == x
  {
    if x.Finite? then Finite(x.value.Floor as real) else x
  }

  // Typed-array conversion.

  /** An element of a `Uint8ClampedArray`. */
  type Uint8 = b: int | 0 <= b < 256

  /**
   * ToUint8Clamp, the conversion applied when a number is stored into a
   * `Uint8ClampedArray`: NaN becomes 0, values are clamped to [0, 255], and a
   * value in between goes to the nearest whole number, ties to the even one.
   */
  function ToUint8Clamp(x: Num): (b: Uint8)
    ensures x.NaN? || x.NegInfinity? ==> b == 0
    ensures x.PosInfinity? ==> b == 255
    ensures x.Finite? && x.value <= 0.0 ==> b == 0
    ensures x.Finite? && x.value >= 255.0 ==> b == 255
    ensures x.Finite? && 0.0 < x.value < 255.0 ==> b as real - 0.5 <= x.value <= b as real + 0.5
    ensures x.Finite? && 0.0 < x.value < 255.0 && (x.value == b as real - 0.5 || x.value == b as real + 0.5) ==>
      b % 2 == 0
  {
    match x
    case NaN => 0
    case NegInfinity => 0
    case PosInfinity => 255
    case Finite(v) =>
      if v <= 0.0 then 0
      else if v >= 255.0 then 255
      else
        var f := v.Floor;
        if v - f as real < 0.5 then f
        else if v - f as real > 0.5 then f + 1
        else if f % 2 == 0 then f
        else f + 1
  }

  /** Storing a larger finite value never gives a smaller byte. */
  lemma {:induction false} ToUint8ClampMonotone(x: real, y: real)
    requires x <= y
    ensures ToUint8Clamp(Finite(x)) <= ToUint8Clamp(Finite(y))
  {
    var lo, hi := ToUint8Clamp(Finite(x)), ToUint8Clamp(Finite(y));
    if x < y && 0.0 < x && y < 255.0 {
      assert lo as real - 0.5 <= x < y <= hi as real + 0.5;
    }
  }
}
