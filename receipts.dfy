/**
 * What the extractor returns for confirmations laid out as Instapay prints
 * them: the amount line wins over every other number on the page.
 */
module Receipts {
  import opened Wrappers
  import opened JsText
  import opened JsNumber
  import opened AmountRegex
  import opened AmountValue
  import opened InstapayRoute
  import opened AmountFormat

  /** `t` is an amount token that the extractor reads as `v`. */
  predicate ReadsAs(t: string, v: real) {
    AmountToken(t) && !IsPhoneLike(t) && ToNumber(t) == Some(v)
  }

  /** Every printed amount above zero reads back as the amount it stands for. */
  lemma {:induction false} FormatReadsAs(pounds: nat, piastres: nat)
    requires pounds < 1000000 && piastres < 100 && pounds + piastres > 0
    ensures ReadsAs(Format(pounds, piastres), Value(pounds, piastres))
  {
    FormatIsAmountToken(pounds, piastres);
    FormatNotPhoneLike(pounds, piastres);
    FormatValue(pounds, piastres);
  }

  // ---- Markers ----

  lemma {:induction false} MatchesAtAppend(s: string, rest: string, i: nat, pat: string)
    requires MatchesAt(s, i, pat)
    ensures MatchesAt(s + rest, i, pat) && MatchesAt(rest + s, |rest| + i, pat)
  {
    forall k | 0 <= k < |pat| ensures AsciiUpper((s + rest)[i + k]) == pat[k] {
      assert (s + rest)[i + k] == s[i + k];
    }
    forall k | 0 <= k < |pat| ensures AsciiUpper((rest + s)[|rest| + i + k]) == pat[k] {
      assert (rest + s)[|rest| + i + k] == s[i + k];
    }
  }

  /** A marker anywhere in a piece of a line is a marker of the line. */
  lemma {:induction false} MarkerAppend(s: string, rest: string, m: Marker)
    requires HasMarker(s, m)
    ensures HasMarker(s + rest, m) && HasMarker(rest + s, m)
  {
    match m
    case Egp =>
      var i :| 0 <= i <= |s| - 3 && MatchesAt(s, i, "EGP");
      MatchesAtAppend(s, rest, i, "EGP");
      assert 0 <= |rest| + i <= |rest + s| - 3;
    case TransferAmount =>
      var i, j :| 0 <= i && i + 8 <= j <= |s| && MatchesAt(s, i, "TRANSFER") &&
        AllSpace(s[i + 8..j]) && MatchesAt(s, j, "AMOUNT");
      MatchesAtAppend(s, rest, i, "TRANSFER");
      MatchesAtAppend(s, rest, j, "AMOUNT");
      assert (s + rest)[i + 8..j] == s[i + 8..j];
      assert (rest + s)[|rest| + i + 8..|rest| + j] == s[i + 8..j];
  }

  predicate NoLetters(s: string) {
    forall k :: 0 <= k < |s| ==> !('a' <= s[k] <= 'z') && !('A' <= s[k] <= 'Z')
  }

  /** Where a pattern starting with a capital letter matches, ignoring case, the line has a letter. */
  lemma {:induction false} LetterWhereMatched(s: string, i: nat, pat: string)
    requires MatchesAt(s, i, pat) && |pat| > 0 && 'A' <= pat[0] <= 'Z'
    ensures i < |s| && (('a' <= s[i] <= 'z') || ('A' <= s[i] <= 'Z'))
  {
    assert AsciiUpper(s[i + 0]) == pat[0];
  }

  /** Both markers start with a letter, so a line without letters has neither. */
  lemma {:induction false} NoLettersNoMarker(s: string, m: Marker)
    requires NoLetters(s)
    ensures !HasMarker(s, m)
  {
    match m
    case Egp =>
      if i :| 0 <= i <= |s| - 3 && MatchesAt(s, i, "EGP") {
        LetterWhereMatched(s, i, "EGP");
        assert false;
      }
    case TransferAmount =>
      if i, j :| (0 <= i && i + 8 <= j <= |s| && MatchesAt(s, i, "TRANSFER") &&
        AllSpace(s[i + 8..j]) && MatchesAt(s, j, "AMOUNT")) {
        LetterWhereMatched(s, i, "TRANSFER");
        assert false;
      }
  }

  /** An amount token is digits, a comma and a point: no letters. */
  lemma {:induction false} AmountTokenNoLetters(t: string)
    requires AmountToken(t)
    ensures NoLetters(t) && '\n' !in t && Unpadded(t)
  {
  }

  // ---- One line ----

  /**
   * A marked line whose first digits are an amount token set off by non-word
   * characters gives that token's value in the marker's tier.
   */
  lemma {:induction false} MarkedLineGives(pre: string, t: string, post: string, v: real, m: Marker)
    requires ReadsAs(t, v) && Separated(pre, post) && NoDigits(pre)
    requires HasMarker(pre + t + post, m)
    ensures MarkedAmount(pre + t + post, m) == Some(v)
  {
    FirstMatchOfToken(pre, t, post);
  }

  /** `EGP 1,250.00`: a line made of the currency and an amount gives that amount in tier 1. */
  lemma {:induction false} EgpPrefixLine(t: string, v: real)
    requires ReadsAs(t, v)
    ensures MarkedAmount("EGP " + t, Egp) == Some(v)
  {
    EgpLabel();
    MarkerAppend("EGP ", t, Egp);
    assert "EGP " + t + [] == "EGP " + t;
    MarkedLineGives("EGP ", t, [], v, Egp);
  }

  // ---- Whole confirmations ----

  /** Putting a one-line text between two others, newline-separated, puts its line between their lines. */
  lemma {:induction false} LinesAround(header: string, line: string, footer: string)
    requires '\n' !in line && Unpadded(line)
    ensures Lines(header + "\n" + line + "\n" + footer) == Lines(header) + [line] + Lines(footer)
  {
    LinesAppend(header + "\n" + line, footer);
    LinesAppend(header, line);
    LinesOfOneLine(line);
    TrimUnpadded(line);
  }

  /**
   * Tier 1 on a whole confirmation: when no line above the amount line gives
   * an EGP value, the amount line decides, whatever numbers (dates,
   * references, phone numbers, balances) the other lines carry.
   */
  lemma {:induction false} EgpAmountLineDecides(header: string, pre: string, t: string, post: string, footer: string, v: real)
    requires '\n' !in pre + t + post && Unpadded(pre + t + post)
    requires ReadsAs(t, v) && Separated(pre, post) && NoDigits(pre) && HasMarker(pre + t + post, Egp)
    requires forall j :: 0 <= j < |Lines(header)| ==> MarkedAmount(Lines(header)[j], Egp).None?
    ensures BestAmount(header + "\n" + (pre + t + post) + "\n" + footer) == Some(v)
  {
    var line := pre + t + post;
    LinesAround(header, line, footer);
    MarkedLineGives(pre, t, post, v, Egp);
    EgpAround(Lines(header), line, Lines(footer), v);
  }

  /** Tier 1 over lines: `line` is the first to give an EGP value. */
  lemma {:induction false} EgpAround(a: seq<string>, line: string, b: seq<string>, v: real)
    requires forall j :: 0 <= j < |a| ==> MarkedAmount(a[j], Egp).None?
    requires MarkedAmount(line, Egp) == Some(v)
    ensures SelectAmount(a + [line] + b) == Some(v)
  {
    var lines := a + [line] + b;
    FirstMarkedIsEarliest(lines, Egp);
    assert lines[|a|] == line;
    assert forall j :: 0 <= j < |a| ==> lines[j] == a[j];
  }

  /** A tier finds nothing in lines `a`, then `line`, then `b` when it finds nothing in any of them. */
  lemma {:induction false} NoneAround(a: seq<string>, line: string, b: seq<string>, m: Marker)
    requires forall j :: 0 <= j < |a| ==> MarkedAmount(a[j], m).None?
    requires MarkedAmount(line, m).None?
    requires forall j :: 0 <= j < |b| ==> MarkedAmount(b[j], m).None?
    ensures forall j :: 0 <= j < |a + [line] + b| ==> MarkedAmount((a + [line] + b)[j], m).None?
  {
    forall j | 0 <= j < |a + [line] + b| ensures MarkedAmount((a + [line] + b)[j], m).None? {
      if j < |a| {
        assert (a + [line] + b)[j] == a[j];
      } else if j > |a| {
        assert (a + [line] + b)[j] == b[j - |a| - 1];
      }
    }
  }

  /** Tier 2 over lines: no EGP value anywhere, and `line` is the first to give a "transfer amount" value. */
  lemma {:induction false} TransferAmountAround(a: seq<string>, line: string, b: seq<string>, v: real)
    requires forall j :: 0 <= j < |a| ==> MarkedAmount(a[j], Egp).None?
    requires forall j :: 0 <= j < |b| ==> MarkedAmount(b[j], Egp).None?
    requires forall j :: 0 <= j < |a| ==> MarkedAmount(a[j], TransferAmount).None?
    requires MarkedAmount(line, Egp).None? && MarkedAmount(line, TransferAmount) == Some(v)
    ensures SelectAmount(a + [line] + b) == Some(v)
  {
    var lines := a + [line] + b;
    NoneAround(a, line, b, Egp);
    FirstMarkedIsEarliest(lines, Egp);
    FirstMarkedIsEarliest(lines, TransferAmount);
    assert lines[|a|] == line;
    assert forall j :: 0 <= j < |a| ==> lines[j] == a[j];
  }

  /**
   * Tier 2 on a whole confirmation: with no EGP value anywhere, the first
   * "transfer amount" line with a usable first token decides.
   */
  lemma {:induction false} TransferAmountLineDecides(header: string, pre: string, t: string, post: string, footer: string, v: real)
    requires '\n' !in pre + t + post && Unpadded(pre + t + post)
    requires ReadsAs(t, v) && Separated(pre, post) && NoDigits(pre)
    requires HasMarker(pre + t + post, TransferAmount) && !HasMarker(pre + t + post, Egp)
    requires forall j :: 0 <= j < |Lines(header)| ==> MarkedAmount(Lines(header)[j], Egp).None?
    requires forall j :: 0 <= j < |Lines(footer)| ==> MarkedAmount(Lines(footer)[j], Egp).None?
    requires forall j :: 0 <= j < |Lines(header)| ==> MarkedAmount(Lines(header)[j], TransferAmount).None?
    ensures BestAmount(header + "\n" + (pre + t + post) + "\n" + footer) == Some(v)
  {
    var line := pre + t + post;
    LinesAround(header, line, footer);
    MarkedLineGives(pre, t, post, v, TransferAmount);
    TransferAmountAround(Lines(header), line, Lines(footer), v);
  }

  /** A text without a newline and without padding is a single line. */
  lemma {:induction false} OneLine(line: string)
    requires '\n' !in line && Unpadded(line)
    ensures Lines(line) == [line]
  {
    LinesOfOneLine(line);
    TrimUnpadded(line);
  }

  /** Tier 3 over one line without markers whose only token reads as `v`. */
  lemma {:induction false} FallbackOfOneLine(line: string, t: string, v: real)
    requires !HasMarker(line, Egp) && !HasMarker(line, TransferAmount)
    requires MatchAll(line) == [t] && !IsPhoneLike(t) && ToNumber(t) == Some(v)
    ensures SelectAmount([line]) == Some(v)
  {
    assert [line][1..] == [];
    assert MarkedAmount(line, Egp).None? && MarkedAmount(line, TransferAmount).None?;
    assert FirstMarked([line], Egp).None?;
    assert FirstMarked([line], TransferAmount).None?;
    assert AllTokens([line]) == [t];
    CapNeverBinds(t);
    assert [t][1..] == [];
    assert Candidates([t]) == [v];
    assert Largest([v]) == v;
  }

  /**
   * Tier 3 on a one-line text without markers: an amount token with no other
   * digits around it is the answer.
   */
  lemma {:induction false} LoneTokenFallback(pre: string, t: string, post: string, v: real)
    requires '\n' !in pre + t + post && Unpadded(pre + t + post)
    requires ReadsAs(t, v) && Separated(pre, post) && NoDigits(pre) && NoDigits(post)
    requires !HasMarker(pre + t + post, Egp) && !HasMarker(pre + t + post, TransferAmount)
    ensures BestAmount(pre + t + post) == Some(v)
  {
    var line := pre + t + post;
    OneLine(line);
    MatchAllOfToken(pre, t, post);
    FallbackOfOneLine(line, t, v);
  }

  /** A token on its own is read back as its value. */
  lemma {:induction false} LoneToken(t: string, v: real)
    requires ReadsAs(t, v)
    ensures BestAmount(t) == Some(v)
  {
    AmountTokenNoLetters(t);
    NoLettersNoMarker(t, Egp);
    NoLettersNoMarker(t, TransferAmount);
    assert [] + t + [] == t;
    LoneTokenFallback([], t, [], v);
  }

  /** A printed amount on its own is read back as the amount it stands for. */
  lemma {:induction false} PrintedAmountAlone(pounds: nat, piastres: nat)
    requires pounds < 1000000 && piastres < 100 && pounds + piastres > 0
    ensures BestAmount(Format(pounds, piastres)) == Some(Value(pounds, piastres))
  {
    FormatReadsAs(pounds, piastres);
    LoneToken(Format(pounds, piastres), Value(pounds, piastres));
  }

  /**
   * A confirmation whose amount line is `EGP <amount>`: that amount is the
   * answer when no line above it gives an EGP value.
   */
  lemma {:induction false} EgpLineOfToken(header: string, t: string, footer: string, v: real)
    requires ReadsAs(t, v)
    requires forall j :: 0 <= j < |Lines(header)| ==> MarkedAmount(Lines(header)[j], Egp).None?
    ensures BestAmount(header + "\n" + ("EGP " + t) + "\n" + footer) == Some(v)
  {
    AmountTokenNoLetters(t);
    EgpLine(t);
    EgpAmountLineDecides(header, "EGP ", t, [], footer, v);
    assert "EGP " + t + [] == "EGP " + t;
  }

  /** The label `EGP `: marked, without digits, ending in a space. */
  lemma {:induction false} EgpLabel()
    ensures HasMarker("EGP ", Egp) && NoDigits("EGP ") && Separated("EGP ", [])
  {
    assert MatchesAt("EGP ", 0, "EGP");
  }

  /** A tag that starts with a non-space, before a one-line unpadded text, gives a one-line unpadded text. */
  lemma {:induction false} LabelledLine(tag: string, t: string)
    requires tag != [] && !IsJsSpace(tag[0]) && '\n' !in tag
    requires '\n' !in t && Unpadded(t)
    ensures '\n' !in tag + t && Unpadded(tag + t)
  {
    var line := tag + t;
    assert line[0] == tag[0];
    assert line[|line| - 1] == t[|t| - 1];
  }

  /** `EGP <t>`, for a one-line unpadded `t`, is one unpadded line, marked EGP. */
  lemma {:induction false} EgpLine(t: string)
    requires '\n' !in t && Unpadded(t)
    ensures var line := "EGP " + t + [];
      '\n' !in line && Unpadded(line) && HasMarker(line, Egp) && NoDigits("EGP ") && Separated("EGP ", [])
  {
    assert "EGP " + t + [] == "EGP " + t;
    LabelledLine("EGP ", t);
    EgpMarked(t);
    EgpLabel();
  }

  /** Whatever follows the label, `EGP <t>` is marked EGP. */
  lemma {:induction false} EgpMarked(t: string)
    ensures HasMarker("EGP " + t, Egp)
  {
    EgpLabel();
    MarkerAppend("EGP ", t, Egp);
  }

  /** The same for a printed amount: `EGP 1,250.00` in a confirmation is read back as 1250. */
  lemma {:induction false} PrintedEgpLine(header: string, pounds: nat, piastres: nat, footer: string)
    requires pounds < 1000000 && piastres < 100 && pounds + piastres > 0
    requires forall j :: 0 <= j < |Lines(header)| ==> MarkedAmount(Lines(header)[j], Egp).None?
    ensures BestAmount(header + "\n" + ("EGP " + Format(pounds, piastres)) + "\n" + footer) == Some(Value(pounds, piastres))
  {
    FormatReadsAs(pounds, piastres);
    EgpLineOfToken(header, Format(pounds, piastres), footer, Value(pounds, piastres));
  }

  // ---- A worked example ----

  /** A line without the letter G does not mention EGP. */
  lemma {:induction false} WithoutGNoEgp(s: string)
    requires forall k :: 0 <= k < |s| ==> s[k] != 'g' && s[k] != 'G'
    ensures !HasMarker(s, Egp)
  {
    forall i | 0 <= i <= |s| - 3 ensures !MatchesAt(s, i, "EGP") {
      assert AsciiUpper(s[i + 1]) != "EGP"[1];
    }
  }

  /** The confirmation `Payment Successful / EGP 1,250.00 / To: 01012345678` gives 1250: the EGP line wins over the phone number. */
  lemma {:induction false} PaymentSuccessfulExample()
    ensures BestAmount("Payment Successful" + "\n" + ("EGP " + "1,250.00") + "\n" + "To: 01012345678") == Some(1250.0)
  {
    HeaderGivesNoEgpValue();
    PrintedTwelveFifty();
    PrintedEgpLine("Payment Successful", 1250, 0, "To: 01012345678");
  }

  /** The header `Payment Successful` is one line, and it does not mention EGP. */
  lemma {:induction false} HeaderGivesNoEgpValue()
    ensures forall j :: 0 <= j < |Lines("Payment Successful")| ==> MarkedAmount(Lines("Payment Successful")[j], Egp).None?
  {
    OneLine("Payment Successful");
    WithoutGNoEgp("Payment Successful");
  }

  lemma {:induction false} PrintedTwelveFifty()
    ensures Format(1250, 0) == "1,250.00" && Value(1250, 0) == 1250.0
  {
  }

  // ---- Whole-number examples ----

  /** A line without the letter R does not mention a transfer amount: `TRANSFER` has an R second. */
  lemma {:induction false} WithoutRNoTransferAmount(s: string)
    requires forall k :: 0 <= k < |s| ==> s[k] != 'r' && s[k] != 'R'
    ensures !HasMarker(s, TransferAmount)
  {
    forall i | 0 <= i <= |s| - 8 ensures !MatchesAt(s, i, "TRANSFER") {
      assert AsciiUpper(s[i + 1]) != "TRANSFER"[1];
    }
  }

  /** A digit string read as a number. */
  lemma {:induction false} WholeValue(t: string, v: nat)
    requires WholeToken(t) && DigitsValue(t) == v && 0 < v < 1000000000
    ensures ToNumber(t) == Some(v as real) && (IsPhoneLike(t) <==> |t| >= 9)
  {
    ToNumberOfDigits(t);
    DigitsOfDigits(t);
  }

  lemma {:induction false} FiveHundred()
    ensures WholeToken("500") && DigitsValue("500") == 500
  {
    DigitsValueOfThree('5', '0', '0');
  }

  /** The label `Transfer Amount: ` is a "transfer amount" marker. */
  lemma {:induction false} TransferAmountLabel()
    ensures HasMarker("Transfer Amount: ", TransferAmount)
  {
    var l := "Transfer Amount: ";
    assert MatchesAt(l, 0, "TRANSFER");
    assert AllSpace(l[8..9]);
    assert MatchesAt(l, 9, "AMOUNT");
  }

  /**
   * A marked line whose only digits are a whole number at its end gives that
   * number in the marker's tier, unless it has 9 digits or more.
   */
  lemma {:induction false} MarkedWholeGives(pre: string, t: string, v: nat, m: Marker)
    requires WholeToken(t) && DigitsValue(t) == v && 0 < v && |t| < 9
    requires NoDigits(pre) && (pre == [] || !IsWordChar(pre[|pre| - 1])) && HasMarker(pre + t, m)
    ensures MarkedAmount(pre + t, m) == Some(v as real)
  {
    assert pre + t + [] == pre + t;
    FirstMatchOfWhole(pre, t, []);
    Pow10Monotone(|t|, 8);
    assert Pow10(8) == 100000000;
    WholeValue(t, v);
  }

  /** `Transfer Amount: 500`: a "transfer amount" line whose first token is the whole number 500. */
  lemma {:induction false} TransferAmountFiveHundred()
    ensures MarkedAmount("Transfer Amount: 500", TransferAmount) == Some(500.0)
  {
    var pre, t := "Transfer Amount: ", "500";
    assert pre + t == "Transfer Amount: 500";
    assert NoDigits(pre);
    TransferAmountLabel();
    MarkerAppend(pre, t, TransferAmount);
    FiveHundred();
    MarkedWholeGives(pre, t, 500, TransferAmount);
  }

  /** `Transfer Amount: 500` is one line, without EGP. */
  lemma {:induction false} TransferAmountLine()
    ensures MarkedAmount("Transfer Amount: 500", Egp).None?
    ensures '\n' !in "Transfer Amount: 500" && Unpadded("Transfer Amount: 500")
  {
    WithoutGNoEgp("Transfer Amount: 500");
  }

  /** `Ref: 9988776655` mentions neither marker. */
  lemma {:induction false} ReferenceLine()
    ensures MarkedAmount("Ref: 9988776655", Egp).None? && MarkedAmount("Ref: 9988776655", TransferAmount).None?
    ensures '\n' !in "Ref: 9988776655" && Unpadded("Ref: 9988776655")
  {
    WithoutGNoEgp("Ref: 9988776655");
    assert MarkedAmount("Ref: 9988776655", TransferAmount).None? by {
      assert HasMarker("Ref: 9988776655", TransferAmount) ==> MarkedAmount("Ref: 9988776655", TransferAmount) == FirstTokenAmount("Ref: 9988776655");
      ReferenceHasNoTransferAmount();
    }
  }

  /** `Ref: 9988776655` has an R but no transfer-amount marker: no text is long enough after `R` to hold `TRANSFER`. */
  lemma {:induction false} ReferenceHasNoTransferAmount()
    ensures !HasMarker("Ref: 9988776655", TransferAmount)
  {
    var s := "Ref: 9988776655";
    forall i | 0 <= i <= |s| - 8 ensures !MatchesAt(s, i, "TRANSFER") {
      assert AsciiUpper(s[i + 2]) != "TRANSFER"[2];
    }
  }

  /**
   * `Transfer Amount: 500` over `Ref: 9988776655` gives 500: the "transfer
   * amount" line decides, and the ten-digit reference is never considered.
   */
  lemma {:induction false} TransferAmountExample()
    ensures BestAmount("Transfer Amount: 500" + "\n" + "Ref: 9988776655") == Some(500.0)
  {
    TransferAmountFiveHundred();
    TransferAmountLine();
    ReferenceLine();
    TransferAmountFirstLine("Transfer Amount: 500", "Ref: 9988776655", 500.0);
  }

  /** Tier 2 on two lines without EGP: a first line that gives a "transfer amount" value decides. */
  lemma {:induction false} TransferAmountFirstLine(l0: string, l1: string, v: real)
    requires '\n' !in l0 && Unpadded(l0) && '\n' !in l1 && Unpadded(l1)
    requires MarkedAmount(l0, Egp).None? && MarkedAmount(l1, Egp).None?
    requires MarkedAmount(l0, TransferAmount) == Some(v)
    ensures BestAmount(l0 + "\n" + l1) == Some(v)
  {
    TwoLines(l0, l1);
    TransferAmountLineWins(l0 + "\n" + l1, 0);
  }

  /** Two one-line texts joined by a newline are two lines. */
  lemma {:induction false} TwoLines(a: string, b: string)
    requires '\n' !in a && Unpadded(a) && '\n' !in b && Unpadded(b)
    ensures Lines(a + "\n" + b) == [a, b]
  {
    LinesAppend(a, b);
    OneLine(a);
    OneLine(b);
  }

  /** A line of digits only is one unpadded line without markers, and its own token. */
  lemma {:induction false} DigitLineFacts(t: string)
    requires WholeToken(t)
    ensures '\n' !in t && Unpadded(t) && MatchAll(t) == [t]
    ensures MarkedAmount(t, Egp).None? && MarkedAmount(t, TransferAmount).None?
  {
    NoLettersNoMarker(t, Egp);
    NoLettersNoMarker(t, TransferAmount);
    DigitLine(t);
  }

  /** Three one-line texts joined by newlines are three lines. */
  lemma {:induction false} ThreeLines(a: string, b: string, c: string)
    requires '\n' !in a && Unpadded(a) && '\n' !in b && Unpadded(b) && '\n' !in c && Unpadded(c)
    ensures Lines(a + "\n" + b + "\n" + c) == [a, b, c]
  {
    LinesAppend(a + "\n" + b, c);
    TwoLines(a, b);
    OneLine(c);
  }

  /** A tier finds nothing in three lines none of which gives a value in it. */
  lemma {:induction false} NoneOfThree(a: string, b: string, c: string, m: Marker)
    requires MarkedAmount(a, m).None? && MarkedAmount(b, m).None? && MarkedAmount(c, m).None?
    ensures FirstMarked([a, b, c], m).None?
  {
    assert [a, b, c][1..] == [b, c] && [b, c][1..] == [c] && [c][1..] == [];
    assert FirstMarked([c], m) == FirstMarked([], m);
    assert FirstMarked([b, c], m) == FirstMarked([c], m);
    assert FirstMarked([a, b, c], m) == FirstMarked([b, c], m);
  }

  /** The tokens of three lines, in order. */
  lemma {:induction false} TokensOfThree(a: string, b: string, c: string)
    ensures AllTokens([a, b, c]) == MatchAll(a) + MatchAll(b) + MatchAll(c)
  {
    assert [a, b, c][1..] == [b, c] && [b, c][1..] == [c] && [c][1..] == [];
    assert AllTokens([c]) == MatchAll(c) + [];
    assert AllTokens([b, c]) == MatchAll(b) + AllTokens([c]);
    assert AllTokens([a, b, c]) == MatchAll(a) + AllTokens([b, c]);
  }

  /** Three lines of digits only: no tier-1 or tier-2 value, and each line is its own token. */
  lemma {:induction false} DigitLines(a: string, b: string, c: string)
    requires WholeToken(a) && WholeToken(b) && WholeToken(c)
    ensures Lines(a + "\n" + b + "\n" + c) == [a, b, c] && AllTokens([a, b, c]) == [a, b, c]
    ensures FirstMarked([a, b, c], Egp).None? && FirstMarked([a, b, c], TransferAmount).None?
  {
    DigitLineFacts(a);
    DigitLineFacts(b);
    DigitLineFacts(c);
    ThreeLines(a, b, c);
    NoneOfThree(a, b, c, Egp);
    NoneOfThree(a, b, c, TransferAmount);
    TokensOfThree(a, b, c);
  }

  /**
   * Tier 3 over three lines of digits only, the middle one unusable: the
   * larger of the other two is the answer.
   */
  lemma {:induction false} FallbackOfDigitLines(a: string, b: string, c: string, va: real, vc: real)
    requires WholeToken(a) && WholeToken(b) && WholeToken(c)
    requires Usable(a) && ToNumber(a) == Some(va) && !Usable(b) && Usable(c) && ToNumber(c) == Some(vc) && vc <= va
    ensures BestAmount(a + "\n" + b + "\n" + c) == Some(va)
  {
    DigitLines(a, b, c);
    LargerOfTwoUsable([a, b, c], a, b, c, va, vc);
  }

  /** When no line is marked and only the first and last of three tokens are usable, the larger of their values is selected. */
  lemma {:induction false} LargerOfTwoUsable(lines: seq<string>, a: string, b: string, c: string, va: real, vc: real)
    requires FirstMarked(lines, Egp).None? && FirstMarked(lines, TransferAmount).None? && AllTokens(lines) == [a, b, c]
    requires Usable(a) && ToNumber(a) == Some(va) && !Usable(b) && Usable(c) && ToNumber(c) == Some(vc) && vc <= va
    ensures SelectAmount(lines) == Some(va)
  {
    FallbackOfLines(lines);
    assert a in AllTokens(lines);
    var r := SelectAmount(lines);
    assert r.Some?;
    var t :| t in AllTokens(lines) && Usable(t) && ToNumber(t) == r;
    assert va <= r.value;
    assert t == a || t == c;
    assert r.value == va;
  }

  /**
   * `300`, `01098765432`, `45` on three lines gives 300: the mobile number is
   * dropped as phone-like and the larger of the two amounts is taken.
   */
  lemma {:induction false} FallbackExample()
    ensures BestAmount("300" + "\n" + "01098765432" + "\n" + "45") == Some(300.0)
  {
    DigitsValueOfThree('3', '0', '0');
    WholeValue("300", 300);
    DigitsValueOfTwo('4', '5');
    WholeValue("45", 45);
    MobileNumber();
    FallbackOfDigitLines("300", "01098765432", "45", 300.0, 45.0);
  }

  /**
   * `1,000,000.00` has nine digits, so it is phone-like and never usable: no
   * tier returns a two-decimal amount of a million or more.
   */
  lemma {:induction false} MillionIsPhoneLike()
    ensures IsPhoneLike("1,000,000.00") && !Usable("1,000,000.00")
  {
    MillionDigits();
    NineDigitsUnusable("1,000,000.00");
  }

  /** A token with nine digits or more is phone-like, and so never usable, whatever its commas and point. */
  lemma {:induction false} NineDigitsUnusable(t: string)
    requires |DigitsOf(t)| >= 9
    ensures IsPhoneLike(t) && !Usable(t)
  {
  }

  /** `1,000,000.00` has nine digits. */
  lemma {:induction false} MillionDigits()
    ensures |DigitsOf("1,000,000.00")| == 9
  {
    MillionPieces();
    assert "1,000,000.00" == "1" + ",000" + ",000" + ".00";
    DigitsOfAppend("1" + ",000" + ",000", ".00");
    DigitsOfAppend("1" + ",000", ",000");
    DigitsOfAppend("1", ",000");
  }

  /** The digits of the pieces of `1,000,000.00`. */
  lemma MillionPieces()
    ensures DigitsOf("1") == "1" && DigitsOf(",000") == "000" && DigitsOf(".00") == "00"
  {
  }

  /** `01098765432`, an Egyptian mobile number, is phone-like. */
  lemma {:induction false} MobileNumber()
    ensures WholeToken("01098765432") && IsPhoneLike("01098765432")
  {
    MobileDigits();
    LongWholePhoneLike("01098765432");
  }

  /** `01098765432` is a whole number. */
  lemma MobileDigits()
    ensures WholeToken("01098765432")
  {
  }

  /** A whole number of 9 digits or more is phone-like. */
  lemma {:induction false} LongWholePhoneLike(t: string)
    requires WholeToken(t) && |t| >= 9
    ensures IsPhoneLike(t)
  {
    DigitsOfDigits(t);
  }

  /**
   * Tier 3 on one line without markers whose only token is a whole number of
   * 9 digits or more: that token is phone-like, so there is no answer.
   */
  lemma {:induction false} LongNumberAlone(pre: string, t: string)
    requires '\n' !in pre + t && Unpadded(pre + t)
    requires NoDigits(pre) && (pre == [] || !IsWordChar(pre[|pre| - 1])) && WholeToken(t) && |t| >= 9
    requires !HasMarker(pre + t, Egp) && !HasMarker(pre + t, TransferAmount)
    ensures BestAmount(pre + t) == None
  {
    var line := pre + t;
    assert pre + t + [] == line;
    OneLine(line);
    MatchAllOfWhole(pre, t, []);
    LongWholePhoneLike(t);
    assert AllTokens([line]) == [t] + [];
    FallbackIsLargestUsable(line);
  }

  /** `Account 123456789012` gives nothing: its only number is twelve digits long. */
  lemma {:induction false} AccountExample()
    ensures BestAmount("Account " + "123456789012") == None
  {
    var pre, t := "Account ", "123456789012";
    AccountLine();
    assert NoDigits(pre);
    LongNumberAlone(pre, t);
  }

  /** `Account 123456789012` is one line, without EGP and without a transfer amount. */
  lemma {:induction false} AccountLine()
    ensures '\n' !in "Account " + "123456789012" && Unpadded("Account " + "123456789012")
    ensures !HasMarker("Account " + "123456789012", Egp) && !HasMarker("Account " + "123456789012", TransferAmount)
  {
    WithoutGNoEgp("Account " + "123456789012");
    WithoutRNoTransferAmount("Account " + "123456789012");
  }
}
