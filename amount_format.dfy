/**
 * Amounts as a payment confirmation prints them: whole pounds, with a comma
 * before the last three digits from 1,000 on, then a point and two digits of
 * piastres (`5.00`, `1,250.00`, `999,999.99`). The extractor reads such an
 * amount back exactly, on its own, on a line marked EGP, and in a whole
 * receipt.
 */
module AmountFormat {
  import opened Wrappers
  import opened JsText
  import opened JsNumber
  import opened AmountRegex
  import opened AmountValue
  import opened InstapayRoute

  function DigitChar(d: nat): (c: char)
    requires d <= 9
    ensures IsDigit(c) && DigitValue(c) == d
  {
    ('0' as int + d) as char
  }

  /** The decimal digits of `n`, below 1,000, without leading zeros. */
  function Lead(n: nat): (ds: string)
    requires n < 1000
  {
    if n < 10 then [DigitChar(n)]
    else if n < 100 then [DigitChar(n / 10), DigitChar(n % 10)]
    else [DigitChar(n / 100), DigitChar(n / 10 % 10), DigitChar(n % 10)]
  }

  /** The three digits of `n`, below 1,000, with leading zeros. */
  function Three(n: nat): string
    requires n < 1000
  {
    [DigitChar(n / 100), DigitChar(n / 10 % 10), DigitChar(n % 10)]
  }

  /** The two digits of `n`, below 100, with a leading zero. */
  function Two(n: nat): string
    requires n < 100
  {
    [DigitChar(n / 10), DigitChar(n % 10)]
  }

  /** The pounds part: `ddd` or `ddd,ddd`. */
  function Whole(pounds: nat): string
    requires pounds < 1000000
  {
    if pounds < 1000 then Lead(pounds) else Lead(pounds / 1000) + "," + Three(pounds % 1000)
  }

  /** The printed form of `pounds` and `piastres`, below one million pounds. */
  function Format(pounds: nat, piastres: nat): string
    requires pounds < 1000000 && piastres < 100
  {
    Whole(pounds) + "." + Two(piastres)
  }

  /** The amount `Format(pounds, piastres)` stands for. */
  function Value(pounds: nat, piastres: nat): real {
    pounds as real + piastres as real / 100.0
  }

  lemma {:induction false} DigitsValueOfTwo(a: char, b: char)
    requires IsDigit(a) && IsDigit(b)
    ensures DigitsValue([a, b]) == 10 * DigitValue(a) + DigitValue(b)
  {
    assert [a, b][..1] == [a];
    assert [a][..0] == [];
  }

  lemma {:induction false} DigitsValueOfThree(a: char, b: char, c: char)
    requires IsDigit(a) && IsDigit(b) && IsDigit(c)
    ensures DigitsValue([a, b, c]) == 100 * DigitValue(a) + 10 * DigitValue(b) + DigitValue(c)
  {
    assert [a, b, c][..2] == [a, b];
    DigitsValueOfTwo(a, b);
  }

  /** `Lead(n)` is one to three digits worth `n`. */
  lemma {:induction false} LeadValue(n: nat)
    requires n < 1000
    ensures AllDigits(Lead(n)) && 1 <= |Lead(n)| <= 3 && DigitsValue(Lead(n)) == n
  {
    if n < 10 {
      assert [DigitChar(n)][..0] == [];
    } else if n < 100 {
      DigitsValueOfTwo(DigitChar(n / 10), DigitChar(n % 10));
    } else {
      DigitsValueOfThree(DigitChar(n / 100), DigitChar(n / 10 % 10), DigitChar(n % 10));
    }
  }

  lemma {:induction false} ThreeValue(n: nat)
    requires n < 1000
    ensures AllDigits(Three(n)) && |Three(n)| == 3 && DigitsValue(Three(n)) == n
  {
    DigitsValueOfThree(DigitChar(n / 100), DigitChar(n / 10 % 10), DigitChar(n % 10));
  }

  lemma {:induction false} TwoValue(n: nat)
    requires n < 100
    ensures AllDigits(Two(n)) && |Two(n)| == 2 && DigitsValue(Two(n)) == n
  {
    DigitsValueOfTwo(DigitChar(n / 10), DigitChar(n % 10));
  }

  /** Removing the comma from the pounds part leaves its digits, side by side. */
  lemma {:induction false} StripWhole(pounds: nat)
    requires pounds < 1000000
    ensures StripCommas(Whole(pounds))
      == if pounds < 1000 then Lead(pounds) else Lead(pounds / 1000) + Three(pounds % 1000)
  {
    if pounds < 1000 {
      LeadValue(pounds);
      StripCommasWithoutCommas(Lead(pounds));
    } else {
      var a, b := Lead(pounds / 1000), Three(pounds % 1000);
      LeadValue(pounds / 1000);
      ThreeValue(pounds % 1000);
      assert Whole(pounds) == (a + ",") + b;
      StripCommasAppend(a + ",", b);
      StripCommasAppend(a, ",");
      StripCommasWithoutCommas(a);
      StripCommasWithoutCommas(b);
    }
  }

  /** The pounds part without its comma is a digit string of at most six digits worth `pounds`. */
  lemma {:induction false} WholeDigits(pounds: nat)
    requires pounds < 1000000
    ensures var w := StripCommas(Whole(pounds));
      AllDigits(w) && 1 <= |w| <= 6 && DigitsValue(w) == pounds && DigitsOf(Whole(pounds)) == w
  {
    StripWhole(pounds);
    var w := StripCommas(Whole(pounds));
    if pounds < 1000 {
      LeadValue(pounds);
    } else {
      var a, b := Lead(pounds / 1000), Three(pounds % 1000);
      LeadValue(pounds / 1000);
      ThreeValue(pounds % 1000);
      DigitsValueAppend(a, b);
      assert Pow10(|b|) == 1000;
      assert DigitsValue(w) == (pounds / 1000) * 1000 + pounds % 1000;
      assert AllDigits(w) by {
        assert forall k :: 0 <= k < |w| ==> w[k] == if k < |a| then a[k] else b[k - |a|];
      }
    }
    StripCommasKeepsDigits(Whole(pounds));
    DigitsOfDigits(w);
  }

  /** Removing commas from the printed amount leaves `ddd.dd` or `dddddd.dd`. */
  lemma {:induction false} StripFormat(pounds: nat, piastres: nat)
    requires pounds < 1000000 && piastres < 100
    ensures StripCommas(Format(pounds, piastres)) == StripCommas(Whole(pounds)) + "." + Two(piastres)
  {
    var w, f := Whole(pounds), Two(piastres);
    assert Format(pounds, piastres) == w + ("." + f);
    StripCommasAppend(w, "." + f);
    StripCommasWithoutCommas("." + f);
  }

  /** `toNumber` reads a printed amount back as exactly the amount it stands for. */
  lemma {:induction false} FormatValue(pounds: nat, piastres: nat)
    requires pounds < 1000000 && piastres < 100 && pounds + piastres > 0
    ensures ToNumber(Format(pounds, piastres)) == Some(Value(pounds, piastres))
  {
    var w, f := StripCommas(Whole(pounds)), Two(piastres);
    StripFormat(pounds, piastres);
    WholeDigits(pounds);
    ParseDecimal(w, f);
    FractionOfTwo(piastres);
    var v := Value(pounds, piastres);
    assert DigitsValue(w) as real + FractionValue(f) == v;
    assert 0.0 < v < 1000000.0;
    assert FromExact(v) == Finite(v);
    assert ParseNumber(w + "." + f) == Finite(v);
    assert StripCommas(Format(pounds, piastres)) == w + "." + f;
  }

  lemma {:induction false} FractionOfTwo(piastres: nat)
    requires piastres < 100
    ensures FractionValue(Two(piastres)) == piastres as real / 100.0
  {
    TwoValue(piastres);
    assert Pow10(2) == 100;
  }

  /** A printed amount has at most 8 digits, so the phone test lets it through. */
  lemma {:induction false} FormatNotPhoneLike(pounds: nat, piastres: nat)
    requires pounds < 1000000 && piastres < 100
    ensures |DigitsOf(Format(pounds, piastres))| <= 8
    ensures !IsPhoneLike(Format(pounds, piastres))
  {
    var f := Two(piastres);
    WholeDigits(pounds);
    TwoValue(piastres);
    assert Format(pounds, piastres) == (Whole(pounds) + ".") + f;
    DigitsOfAppend(Whole(pounds) + ".", f);
    DigitsOfAppend(Whole(pounds), ".");
    DigitsOfDigits(f);
    assert DigitsOf(".") == [];
  }

  // ---- Amount tokens ----

  /**
   * The shape of a printed amount: one to three digits, then either `.dd` or
   * `,ddd.dd`. `lead` is the number of leading digits.
   */
  predicate PlainShaped(t: string, lead: nat) {
    1 <= lead <= 3 && |t| == lead + 3 && (forall k :: 0 <= k < lead ==> IsDigit(t[k])) &&
    t[lead] == '.' && IsDigit(t[lead + 1]) && IsDigit(t[lead + 2])
  }

  predicate GroupedShaped(t: string, lead: nat) {
    1 <= lead <= 3 && |t| == lead + 7 && (forall k :: 0 <= k < lead ==> IsDigit(t[k])) &&
    t[lead] == ',' && IsDigit(t[lead + 1]) && IsDigit(t[lead + 2]) && IsDigit(t[lead + 3]) &&
    t[lead + 4] == '.' && IsDigit(t[lead + 5]) && IsDigit(t[lead + 6])
  }

  predicate AmountToken(t: string) {
    var lead := DigitRun(t, 0);
    PlainShaped(t, lead) || GroupedShaped(t, lead)
  }

  /** Every printed amount has the shape of an amount token. */
  lemma {:induction false} FormatIsAmountToken(pounds: nat, piastres: nat)
    requires pounds < 1000000 && piastres < 100
    ensures AmountToken(Format(pounds, piastres))
  {
    var t := Format(pounds, piastres);
    var lead := if pounds < 1000 then |Lead(pounds)| else |Lead(pounds / 1000)|;
    if pounds < 1000 {
      PlainShape(pounds, piastres);
    } else {
      GroupedShape(pounds, piastres);
    }
    assert !DigitAt(t, lead);
    RunOfLead(t, 0, lead);
  }

  lemma {:induction false} PlainShape(pounds: nat, piastres: nat)
    requires pounds < 1000 && piastres < 100
    ensures PlainShaped(Format(pounds, piastres), |Lead(pounds)|)
  {
    var d, f := Lead(pounds), Two(piastres);
    LeadValue(pounds);
    TwoValue(piastres);
    assert Format(pounds, piastres) == d + "." + f;
  }

  lemma {:induction false} GroupedShape(pounds: nat, piastres: nat)
    requires 1000 <= pounds < 1000000 && piastres < 100
    ensures GroupedShaped(Format(pounds, piastres), |Lead(pounds / 1000)|)
  {
    var a, b, f := Lead(pounds / 1000), Three(pounds % 1000), Two(piastres);
    LeadValue(pounds / 1000);
    ThreeValue(pounds % 1000);
    TwoValue(piastres);
    assert Format(pounds, piastres) == a + "," + b + "." + f;
  }

  // ---- Finding an amount token in a line ----

  /** `pre` does not end, and `post` does not start, with a word character: `\b` holds on both sides of what lies between. */
  predicate Separated(pre: string, post: string) {
    (pre == [] || !IsWordChar(pre[|pre| - 1])) && (post == [] || !IsWordChar(post[0]))
  }

  /** `t` stands in `s` at `p`, with no word character right before or right after it. */
  predicate StandsAt(s: string, p: nat, t: string) {
    p + |t| <= |s| && (forall k {:trigger t[k]} :: 0 <= k < |t| ==> s[p + k] == t[k]) &&
    (p == 0 || !IsWordChar(s[p - 1])) && (p + |t| == |s| || !IsWordChar(s[p + |t|]))
  }

  /** Between two separated pieces, `t` stands set off by non-word characters. */
  lemma {:induction false} Standing(pre: string, t: string, post: string)
    requires Separated(pre, post)
    ensures StandsAt(pre + t + post, |pre|, t)
  {
    var s := pre + t + post;
    if pre != [] {
      assert s[|pre| - 1] == pre[|pre| - 1];
    }
    if post != [] {
      assert s[|pre| + |t|] == post[0];
    }
  }

  /** Where a token `ddd.dd` stands set off, the text has the shape the plain alternative needs. */
  lemma {:induction false} PlainPlaced(s: string, p: nat, t: string, lead: nat)
    requires StandsAt(s, p, t) && PlainShaped(t, lead)
    ensures p < |s| && DigitRun(s, p) == lead && 1 <= lead <= 3 && DigitAt(s, p) && (p == 0 || !WordAt(s, p - 1))
    ensures CharAt(s, p + lead, '.') && DigitAt(s, p + lead + 1) && DigitAt(s, p + lead + 2) && !WordAt(s, p + lead + 3)
  {
    assert forall j :: p <= j < p + lead ==> DigitAt(s, j) by {
      forall j | p <= j < p + lead ensures DigitAt(s, j) {
        assert s[p + (j - p)] == t[j - p];
      }
    }
    assert s[p + lead] == t[lead];
    assert s[p + (lead + 1)] == t[lead + 1];
    assert s[p + (lead + 2)] == t[lead + 2];
    RunOfLead(s, p, lead);
  }

  /** A token `ddd.dd` that stands set off is matched where it stands. */
  lemma {:induction false} PlainTokenMatch(s: string, p: nat, t: string, lead: nat)
    requires StandsAt(s, p, t) && PlainShaped(t, lead)
    ensures MatchAt(s, p) == Some(p + |t|)
  {
    PlainPlaced(s, p, t, lead);
    assert p < |s| && DigitRun(s, p) == lead && 1 <= lead <= 3 && DigitAt(s, p);
    assert p == 0 || !WordAt(s, p - 1);
    assert CharAt(s, p + lead, '.') && DigitAt(s, p + lead + 1) && DigitAt(s, p + lead + 2);
    assert !WordAt(s, p + lead + 3);
    PlainAmountMatch(s, p, lead);
  }

  /** Where a token `ddd,ddd.dd` stands set off, the text has the shape the grouped alternative needs. */
  lemma {:induction false} GroupedPlaced(s: string, p: nat, t: string, lead: nat)
    requires StandsAt(s, p, t) && GroupedShaped(t, lead)
    ensures p < |s| && DigitRun(s, p) == lead && 1 <= lead <= 3 && DigitAt(s, p) && (p == 0 || !WordAt(s, p - 1))
    ensures GroupAt(s, p + lead) && !GroupAt(s, p + lead + 4)
    ensures CharAt(s, p + lead + 4, '.') && DigitAt(s, p + lead + 5) && DigitAt(s, p + lead + 6) && !WordAt(s, p + lead + 7)
  {
    assert forall j :: p <= j < p + lead ==> DigitAt(s, j) by {
      forall j | p <= j < p + lead ensures DigitAt(s, j) {
        assert s[p + (j - p)] == t[j - p];
      }
    }
    assert s[p + lead] == t[lead];
    assert s[p + (lead + 1)] == t[lead + 1];
    assert s[p + (lead + 2)] == t[lead + 2];
    assert s[p + (lead + 3)] == t[lead + 3];
    assert s[p + (lead + 4)] == t[lead + 4];
    assert s[p + (lead + 5)] == t[lead + 5];
    assert s[p + (lead + 6)] == t[lead + 6];
    RunOfLead(s, p, lead);
  }

  /** A token `ddd,ddd.dd` that stands set off is matched where it stands. */
  lemma {:induction false} GroupedTokenMatch(s: string, p: nat, t: string, lead: nat)
    requires StandsAt(s, p, t) && GroupedShaped(t, lead)
    ensures MatchAt(s, p) == Some(p + |t|)
  {
    GroupedPlaced(s, p, t, lead);
    assert p < |s| && DigitRun(s, p) == lead && 1 <= lead <= 3 && DigitAt(s, p);
    assert p == 0 || !WordAt(s, p - 1);
    assert GroupAt(s, p + lead) && !GroupAt(s, p + lead + 4);
    assert CharAt(s, p + lead + 4, '.') && DigitAt(s, p + lead + 5) && DigitAt(s, p + lead + 6);
    assert !WordAt(s, p + lead + 7);
    GroupedAmountMatch(s, p, lead);
  }

  /** An amount token that stands set off by non-word characters is matched exactly where it stands. */
  lemma {:induction false} TokenMatch(s: string, p: nat, t: string)
    requires StandsAt(s, p, t) && AmountToken(t)
    ensures MatchAt(s, p) == Some(p + |t|)
  {
    var lead := DigitRun(t, 0);
    if PlainShaped(t, lead) {
      PlainTokenMatch(s, p, t, lead);
    } else {
      GroupedTokenMatch(s, p, t, lead);
    }
  }

  predicate NoDigits(s: string) {
    forall k :: 0 <= k < |s| ==> !IsDigit(s[k])
  }

  /** No match starts at a character that is not a digit, nor at the end of the text. */
  lemma {:induction false} NoMatchesAtNonDigits(s: string, p: nat, q: nat)
    requires p <= q <= |s| && forall k :: p <= k < q ==> !IsDigit(s[k])
    ensures NoneIn(Matches(s), p, q)
    ensures q == |s| ==> NoneIn(Matches(s), p, |s| + 1)
  {
    var t := Matches(s);
    forall k | p <= k < q && 0 <= k < |t| ensures t[k].None? {
      NoMatchAtNonDigit(s, k);
      MatchTableAt(s, k);
    }
    if q == |s| {
      NoMatchAtNonDigit(s, |s|);
      MatchTableAt(s, |s|);
    }
  }

  /** An amount token that stands set off is the table's match where it stands. */
  lemma {:induction false} TokenEntry(s: string, p: nat, t: string)
    requires StandsAt(s, p, t) && AmountToken(t)
    ensures p + |t| <= |s| && Matches(s)[p] == Some(p + |t|) && s[p..p + |t|] == t
  {
    TokenMatch(s, p, t);
    MatchTableAt(s, p);
    assert s[p..p + |t|] == t;
  }

  /** A match from `p` to `e` with no digit before `p` is the first match of `s`. */
  lemma {:induction false} FirstAt(s: string, p: nat, e: nat)
    requires p <= |s| && Matches(s)[p] == Some(e)
    requires forall k :: 0 <= k < p ==> !IsDigit(s[k])
    ensures FirstMatch(s) == Some(s[p..e])
  {
    NoMatchesAtNonDigits(s, 0, p);
    FirstFromSkips(Matches(s), 0, p);
  }

  /** An amount token that stands set off, with no digit before it, is the first token of the text. */
  lemma {:induction false} FirstTokenAt(s: string, p: nat, t: string)
    requires StandsAt(s, p, t) && AmountToken(t)
    requires forall k :: 0 <= k < p ==> !IsDigit(s[k])
    ensures FirstMatch(s) == Some(t)
  {
    TokenEntry(s, p, t);
    FirstAt(s, p, p + |t|);
  }

  /** An amount token with only non-digits before it, set off on both sides, is the first token of the line. */
  lemma {:induction false} FirstMatchOfToken(pre: string, t: string, post: string)
    requires Separated(pre, post) && AmountToken(t) && NoDigits(pre)
    ensures FirstMatch(pre + t + post) == Some(t)
  {
    var s := pre + t + post;
    Standing(pre, t, post);
    assert forall k :: 0 <= k < |pre| ==> s[k] == pre[k];
    FirstTokenAt(s, |pre|, t);
  }

  /** A match from `p` to `e` with no digit before `p` or after `e` is the one token of `s`. */
  lemma {:induction false} OnlyToken(s: string, p: nat, e: nat)
    requires p <= |s| && Matches(s)[p] == Some(e)
    requires forall k :: 0 <= k < p ==> !IsDigit(s[k])
    requires forall k :: e <= k < |s| ==> !IsDigit(s[k])
    ensures MatchAll(s) == [s[p..e]]
  {
    var t := Matches(s);
    NoMatchesAtNonDigits(s, 0, p);
    FirstFromSkips(t, 0, p);
    assert FirstFrom(t, 0) == Some(Span(p, e));
    NoMatchesAtNonDigits(s, e, |s|);
    FirstFromNone(t, e);
    assert SpansFrom(t, e) == [];
    assert SpansFrom(t, 0) == [Span(p, e)];
  }

  /** An amount token that stands set off, with no other digit in the text, is the one token of the text. */
  lemma {:induction false} OnlyTokenAt(s: string, p: nat, t: string)
    requires StandsAt(s, p, t) && AmountToken(t)
    requires forall k :: 0 <= k < p ==> !IsDigit(s[k])
    requires forall k :: p + |t| <= k < |s| ==> !IsDigit(s[k])
    ensures MatchAll(s) == [t]
  {
    TokenEntry(s, p, t);
    OnlyToken(s, p, p + |t|);
  }

  /** With only non-digits on either side, an amount token is the one token of the line. */
  lemma {:induction false} MatchAllOfToken(pre: string, t: string, post: string)
    requires Separated(pre, post) && AmountToken(t) && NoDigits(pre) && NoDigits(post)
    ensures MatchAll(pre + t + post) == [t]
  {
    var s, e := pre + t + post, |pre| + |t|;
    Standing(pre, t, post);
    assert forall k :: 0 <= k < |pre| ==> s[k] == pre[k];
    assert forall k :: e <= k < |s| ==> s[k] == post[k - e];
    OnlyTokenAt(s, |pre|, t);
  }

  // ---- Whole numbers ----

  /** A whole number: one digit or more, and nothing else. */
  predicate WholeToken(t: string) {
    t != [] && AllDigits(t)
  }

  /** After `t`, neither a word character nor a decimal point or a comma: nothing that could extend a whole number. */
  predicate EndsWhole(post: string) {
    post == [] || (!IsWordChar(post[0]) && post[0] != '.' && post[0] != ',')
  }

  /** A whole number that stands set off, followed by neither a decimal point nor a comma, is the table's match where it stands. */
  lemma {:induction false} WholeEntry(s: string, p: nat, t: string)
    requires StandsAt(s, p, t) && WholeToken(t) && !CharAt(s, p + |t|, '.') && !CharAt(s, p + |t|, ',')
    ensures p + |t| <= |s| && Matches(s)[p] == Some(p + |t|) && s[p..p + |t|] == t
  {
    forall j | p <= j < p + |t| ensures DigitAt(s, j) {
      assert s[p + (j - p)] == t[j - p];
    }
    RunOfLead(s, p, |t|);
    WholeAmountMatch(s, p, |t|);
    MatchTableAt(s, p);
    assert s[p..p + |t|] == t;
  }

  /** Between a piece without digits and a piece that cannot extend it, a whole number is the first token. */
  lemma {:induction false} FirstMatchOfWhole(pre: string, t: string, post: string)
    requires Separated(pre, post) && EndsWhole(post) && WholeToken(t) && NoDigits(pre)
    ensures FirstMatch(pre + t + post) == Some(t)
  {
    var s, p := pre + t + post, |pre|;
    Standing(pre, t, post);
    if post != [] { assert s[p + |t|] == post[0]; }
    assert forall k :: 0 <= k < p ==> s[k] == pre[k];
    WholeEntry(s, p, t);
    FirstAt(s, p, p + |t|);
  }

  /** With only non-digits on either side, a whole number is the one token of the line. */
  lemma {:induction false} MatchAllOfWhole(pre: string, t: string, post: string)
    requires Separated(pre, post) && EndsWhole(post) && WholeToken(t) && NoDigits(pre) && NoDigits(post)
    ensures MatchAll(pre + t + post) == [t]
  {
    var s, p, e := pre + t + post, |pre|, |pre| + |t|;
    Standing(pre, t, post);
    if post != [] { assert s[e] == post[0]; }
    assert forall k :: 0 <= k < p ==> s[k] == pre[k];
    assert forall k :: e <= k < |s| ==> s[k] == post[k - e];
    WholeEntry(s, p, t);
    OnlyToken(s, p, e);
  }

  /** A line made of digits only is its own one token. */
  lemma {:induction false} DigitLine(t: string)
    requires WholeToken(t)
    ensures MatchAll(t) == [t] && FirstMatch(t) == Some(t)
  {
    assert [] + t + [] == t;
    MatchAllOfWhole([], t, []);
    FirstMatchOfWhole([], t, []);
  }
}
