/**
 * The two judgements the extractor makes about a matched token: whether it
 * looks like a phone or reference number, and which positive number it
 * denotes.
 */
module AmountValue {
  import opened Wrappers
  import opened JsText
  import opened JsNumber

  /** `s.replace(/,/g, "")`. */
  function StripCommas(s: string): (r: string)
    ensures ',' !in r
  {
    if s == [] then [] else (if s[0] == ',' then [] else [s[0]]) + StripCommas(s[1..])
  }

  /** Removing commas keeps every digit, in order. */
  lemma {:induction false} StripCommasKeepsDigits(s: string)
    ensures DigitsOf(StripCommas(s)) == DigitsOf(s)
  {
    if s != [] {
      StripCommasKeepsDigits(s[1..]);
      var head := if s[0] == ',' then [] else [s[0]];
      DigitsOfAppend(head, StripCommas(s[1..]));
    }
  }

  lemma {:induction false} StripCommasAppend(a: string, b: string)
    ensures StripCommas(a + b) == StripCommas(a) + StripCommas(b)
    decreases |a|
  {
    if a == [] {
      assert a + b == b;
    } else {
      assert (a + b)[0] == a[0];
      assert (a + b)[1..] == a[1..] + b;
      StripCommasAppend(a[1..], b);
      var head := if a[0] == ',' then [] else [a[0]];
      assert StripCommas(a + b) == head + StripCommas(a[1..] + b);
      assert StripCommas(a) == head + StripCommas(a[1..]);
    }
  }

  /** A string without a comma is left as it is. */
  lemma {:induction false} StripCommasWithoutCommas(s: string)
    requires ',' !in s
    ensures StripCommas(s) == s
    decreases |s|
  {
    if s != [] {
      assert ',' !in s[1..];
      StripCommasWithoutCommas(s[1..]);
    }
  }

  /**
   * `toNumber`: the number the token denotes once its commas are removed, when
   * that number is finite and strictly positive. Such a value is below 10 to
   * the number of digits of the token.
   */
  function ToNumber(s: string): (r: Option<real>)
    ensures r.Some? ==> 0.0 < r.value < OverflowBound
    ensures r.Some? ==> r.value < Pow10(|DigitsOf(s)|) as real
  {
    var n := ParseNumber(StripCommas(s));
    if n.Finite? && n.value > 0.0 then
      ParseNumberBelow(StripCommas(s));
      StripCommasKeepsDigits(s);
      Some(n.value)
    else
      None
  }

  /**
   * A string of digits is read as the number it spells, when that is above
   * zero and finite; the zero string and one too large for a double are
   * refused.
   */
  lemma {:induction false} ToNumberOfDigits(s: string)
    requires AllDigits(s)
    ensures ToNumber(s) == if 0 < DigitsValue(s) && (DigitsValue(s) as real) < OverflowBound then Some(DigitsValue(s) as real) else None
  {
    assert forall k :: 0 <= k < |s| ==> s[k] != ',';
    StripCommasWithoutCommas(s);
  }

  /**
   * `isPhoneLike`: an 11-digit string starting `01` (a local mobile number) or
   * any string with 9 digits or more (an account or reference number). The
   * second rule covers the first, so the test is the digit count alone.
   */
  function IsPhoneLike(s: string): (b: bool)
    ensures b <==> |DigitsOf(s)| >= 9
  {
    var digits := DigitsOf(s);
    if |digits| == 11 && digits[..2] == "01" then true
    else |digits| >= 9
  }

  /** A token that survives the phone test denotes less than 100,000,000. */
  lemma {:induction false} AcceptedBelowHundredMillion(s: string)
    requires !IsPhoneLike(s) && ToNumber(s).Some?
    ensures ToNumber(s).value < 100000000.0
  {
    Pow10Monotone(|DigitsOf(s)|, 8);
    assert Pow10(8) == 100000000;
  }
}
