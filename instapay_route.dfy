/**
 * `extractBestAmount` of the Instapay OCR route: from the OCR text of a
 * payment confirmation, the single amount most likely to be the transfer
 * amount, or none.
 *
 * Tier 1 takes the first token of the earliest line mentioning EGP that gives a
 * usable value; tier 2 does the same for lines saying "transfer amount"; tier 3
 * takes the largest usable token of the whole text. A token is usable when it
 * has fewer than 9 digits and denotes a positive number.
 */
module InstapayRoute {
  import opened Wrappers
  import opened JsText
  import opened JsNumber
  import opened AmountRegex
  import opened AmountValue

  // ---- Lines ----

  /** A non-empty string with no space character at either end: what `trim` leaves unchanged. */
  predicate Unpadded(line: string) {
    line != [] && !IsJsSpace(line[0]) && !IsJsSpace(line[|line| - 1])
  }

  /** One piece, trimmed, kept only when something is left. */
  function Kept(piece: string): (r: seq<string>)
    ensures r == [] || (|r| == 1 && Unpadded(r[0]))
  {
    var t := Trim(piece);
    if t == [] then [] else assert Unpadded(t); [t]
  }

  /** `.map((l) => l.trim()).filter(Boolean)` over the pieces of the text. */
  function TrimmedNonEmpty(pieces: seq<string>): (lines: seq<string>)
    ensures |lines| <= |pieces|
  {
    if pieces == [] then [] else Kept(pieces[0]) + TrimmedNonEmpty(pieces[1..])
  }

  /** Every line kept is trimmed and non-empty. */
  lemma {:induction false} TrimmedNonEmptyUnpadded(pieces: seq<string>)
    ensures forall k :: 0 <= k < |TrimmedNonEmpty(pieces)| ==> Unpadded(TrimmedNonEmpty(pieces)[k])
  {
    if pieces != [] {
      TrimmedNonEmptyUnpadded(pieces[1..]);
      var head, rest := Kept(pieces[0]), TrimmedNonEmpty(pieces[1..]);
      assert TrimmedNonEmpty(pieces) == head + rest;
      forall k | 0 <= k < |head + rest|
        ensures Unpadded((head + rest)[k])
      {
        if k >= |head| {
          assert (head + rest)[k] == rest[k - |head|];
        }
      }
    }
  }

  lemma {:induction false} TrimmedNonEmptyAppend(a: seq<string>, b: seq<string>)
    ensures TrimmedNonEmpty(a + b) == TrimmedNonEmpty(a) + TrimmedNonEmpty(b)
    decreases |a|
  {
    if a == [] {
      assert a + b == b;
    } else {
      assert (a + b)[0] == a[0];
      assert (a + b)[1..] == a[1..] + b;
      TrimmedNonEmptyAppend(a[1..], b);
      var head, rest := Kept(a[0]), TrimmedNonEmpty(a[1..]);
      assert TrimmedNonEmpty(a + b) == head + (rest + TrimmedNonEmpty(b));
      assert head + (rest + TrimmedNonEmpty(b)) == (head + rest) + TrimmedNonEmpty(b);
    }
  }

  /** The lines the extractor scans: `(text || "").split("\n")`, each trimmed, empty ones dropped. */
  function Lines(text: string): (lines: seq<string>)
    ensures forall k :: 0 <= k < |lines| ==> Unpadded(lines[k])
  {
    TrimmedNonEmptyUnpadded(Split(text, '\n'));
    TrimmedNonEmpty(Split(text, '\n'))
  }

  /** The lines of two texts joined by a newline are the lines of the first followed by those of the second. */
  lemma {:induction false} LinesAppend(a: string, b: string)
    ensures Lines(a + "\n" + b) == Lines(a) + Lines(b)
  {
    SplitAppend(a, b, '\n');
    TrimmedNonEmptyAppend(Split(a, '\n'), Split(b, '\n'));
  }

  /** A text without a newline is one line, trimmed, or no line at all when it is blank. */
  lemma {:induction false} LinesOfOneLine(a: string)
    requires '\n' !in a
    ensures Lines(a) == if Trim(a) == [] then [] else [Trim(a)]
  {
    SplitNoSeparator(a, '\n');
  }

  // ---- Tiers 1 and 2: marked lines ----

  /** The two line markers: `/EGP/i` and `/transfer\s*amount/i`. */
  datatype Marker = Egp | TransferAmount

  /** `/transfer\s*amount/i.test(line)`. */
  predicate HasTransferAmount(line: string) {
    exists i, j :: 0 <= i && i + 8 <= j <= |line| && MatchesAt(line, i, "TRANSFER") &&
      AllSpace(line[i + 8..j]) && MatchesAt(line, j, "AMOUNT")
  }

  predicate HasMarker(line: string, m: Marker) {
    match m
    case Egp => ContainsIgnoringCase(line, "EGP")
    case TransferAmount => HasTransferAmount(line)
  }

  /** The value of the first token of a line, unless that token is phone-like or not a positive number. */
  function FirstTokenAmount(line: string): Option<real> {
    match FirstMatch(line)
    case None => None
    case Some(t) => if IsPhoneLike(t) then None else ToNumber(t)
  }

  /** What a line gives in the tier of marker `m`. */
  function MarkedAmount(line: string, m: Marker): Option<real> {
    if HasMarker(line, m) then FirstTokenAmount(line) else None
  }

  /** The result of the tier of marker `m`: the value of the earliest line that gives one. */
  function FirstMarked(lines: seq<string>, m: Marker): Option<real> {
    if lines == [] then None
    else if MarkedAmount(lines[0], m).Some? then MarkedAmount(lines[0], m)
    else FirstMarked(lines[1..], m)
  }

  /** A tier yields a value exactly when some line gives one, and then it is the value of the earliest such line. */
  lemma {:induction false} FirstMarkedIsEarliest(lines: seq<string>, m: Marker)
    ensures FirstMarked(lines, m).Some? <==> exists i :: 0 <= i < |lines| && MarkedAmount(lines[i], m).Some?
    ensures forall i :: (0 <= i < |lines| && MarkedAmount(lines[i], m).Some? &&
      (forall j :: 0 <= j < i ==> MarkedAmount(lines[j], m).None?)) ==> FirstMarked(lines, m) == MarkedAmount(lines[i], m)
  {
    if lines != [] {
      FirstMarkedIsEarliest(lines[1..], m);
      forall i | 0 <= i < |lines| && MarkedAmount(lines[i], m).Some? &&
        (forall j :: 0 <= j < i ==> MarkedAmount(lines[j], m).None?)
        ensures FirstMarked(lines, m) == MarkedAmount(lines[i], m)
      {
        if i > 0 {
          assert lines[1..][i - 1] == lines[i];
          forall j | 0 <= j < i - 1 ensures MarkedAmount(lines[1..][j], m).None? {
            assert lines[1..][j] == lines[j + 1];
          }
        }
      }
      if MarkedAmount(lines[0], m).None? && exists i :: 0 <= i < |lines| && MarkedAmount(lines[i], m).Some? {
        var i :| 0 <= i < |lines| && MarkedAmount(lines[i], m).Some?;
        assert lines[1..][i - 1] == lines[i];
      }
    }
  }

  /** The `for (const line of lines)` loop of a tier, returning at the first line that gives a value. */
  method ScanMarkedLines(lines: seq<string>, m: Marker) returns (r: Option<real>)
    ensures r == FirstMarked(lines, m)
  {
    for i := 0 to |lines|
      invariant FirstMarked(lines, m) == FirstMarked(lines[i..], m)
    {
      assert lines[i..][1..] == lines[i + 1..];
      if HasMarker(lines[i], m) {
        var t := FirstMatch(lines[i]);
        if t.Some? && !IsPhoneLike(t.value) {
          var n := ToNumber(t.value);
          if n.Some? {
            return n;
          }
        }
      }
    }
    return None;
  }

  // ---- Tier 3: every token ----

  /** `lines.flatMap((l) => l.match(/.../g) || [])`. */
  function AllTokens(lines: seq<string>): seq<string> {
    if lines == [] then [] else MatchAll(lines[0]) + AllTokens(lines[1..])
  }

  /** The tier-3 cap: values at or above 1,000,000,000 are dropped as implausible. */
  const PlausibleCap: real := 1000000000.0

  /** `.filter(!isPhoneLike).map(toNumber).filter(non-null).filter(n < 1e9)`, order kept. */
  function Candidates(tokens: seq<string>): seq<real> {
    if tokens == [] then [] else
      var t := tokens[0];
      var keep := !IsPhoneLike(t) && ToNumber(t).Some? && ToNumber(t).value < PlausibleCap;
      (if keep then [ToNumber(t).value] else []) + Candidates(tokens[1..])
  }

  /** The candidates are exactly the values of the tokens that are not phone-like and are positive numbers below the cap. */
  lemma {:induction false} CandidatesAre(tokens: seq<string>, v: real)
    ensures v in Candidates(tokens) <==>
      exists t :: t in tokens && !IsPhoneLike(t) && ToNumber(t) == Some(v) && v < PlausibleCap
  {
    if tokens != [] {
      CandidatesAre(tokens[1..], v);
      if v in Candidates(tokens[1..]) {
        var t :| t in tokens[1..] && !IsPhoneLike(t) && ToNumber(t) == Some(v) && v < PlausibleCap;
        assert t in tokens;
      }
      if exists t :: t in tokens && !IsPhoneLike(t) && ToNumber(t) == Some(v) && v < PlausibleCap {
        var t :| t in tokens && !IsPhoneLike(t) && ToNumber(t) == Some(v) && v < PlausibleCap;
        if t != tokens[0] {
          assert t in tokens[1..];
        }
      }
    }
  }

  /** Dropping values at or above 1e9 never removes anything: a token that passes the phone test is below 1e8. */
  lemma {:induction false} CapNeverBinds(t: string)
    requires !IsPhoneLike(t) && ToNumber(t).Some?
    ensures ToNumber(t).value < PlausibleCap
  {
    AcceptedBelowHundredMillion(t);
  }

  /** The largest element of a non-empty sequence. */
  function Largest(c: seq<real>): (m: real)
    requires |c| > 0
    ensures m in c && forall k :: 0 <= k < |c| ==> c[k] <= m
  {
    if |c| == 1 then c[0] else
      var m := Largest(c[1..]);
      assert forall k :: 1 <= k < |c| ==> c[k] == c[1..][k - 1];
      if c[0] >= m then c[0] else m
  }

  predicate SortedDescending(a: seq<real>) {
    forall i, j :: 0 <= i < j < |a| ==> a[i] >= a[j]
  }

  /** `candidates.sort((a, b) => b - a)`: in place, largest first. */
  method SortDescending(a: array<real>)
    modifies a
    ensures SortedDescending(a[..])
    ensures multiset(a[..]) == old(multiset(a[..]))
  {
    var n := 0;
    while n < a.Length
      invariant n <= a.Length
      invariant SortedDescending(a[..n])
      invariant multiset(a[..]) == old(multiset(a[..]))
    {
      var k := n;
      InsertionStart(a[..], n);
      while k > 0 && a[k - 1] < a[k]
        invariant 0 <= k <= n < a.Length
        invariant Inserting(a[..], n, k)
        invariant multiset(a[..]) == old(multiset(a[..]))
      {
        ghost var before := a[..];
        a[k - 1], a[k] := a[k], a[k - 1];
        SwapStep(before, a[..], n, k);
        k := k - 1;
      }
      InsertionDone(a[..], n, k);
      n := n + 1;
    }
  }

  /**
   * Midway through inserting `s[n]` into the descending prefix `s[..n]`: the
   * new element sits at `k`, the prefix without it is still descending, and
   * it is larger than everything it has passed.
   */
  predicate Inserting(s: seq<real>, n: nat, k: nat) {
    k <= n < |s| &&
    (forall i, j :: 0 <= i < j <= n && i != k && j != k ==> s[i] >= s[j]) &&
    (forall j :: k < j <= n ==> s[k] > s[j])
  }

  lemma {:induction false} InsertionStart(s: seq<real>, n: nat)
    requires n < |s| && SortedDescending(s[..n])
    ensures Inserting(s, n, n)
  {
    forall i, j | 0 <= i < j <= n && i != n && j != n ensures s[i] >= s[j] {
      assert s[..n][i] == s[i] && s[..n][j] == s[j];
    }
  }

  /** Swapping the new element with a smaller one before it moves the insertion one step left. */
  lemma {:induction false} SwapStep(before: seq<real>, after: seq<real>, n: nat, k: nat)
    requires Inserting(before, n, k) && 0 < k && before[k - 1] < before[k]
    requires after == before[k - 1 := before[k]][k := before[k - 1]]
    ensures Inserting(after, n, k - 1)
    ensures multiset(after) == multiset(before)
  {
    assert after[k - 1] == before[k] && after[k] == before[k - 1];
    assert forall i :: 0 <= i < |after| && i != k - 1 && i != k ==> after[i] == before[i];
  }

  /** When the new element stops moving, the prefix up to it is descending. */
  lemma {:induction false} InsertionDone(s: seq<real>, n: nat, k: nat)
    requires Inserting(s, n, k) && (k == 0 || s[k - 1] >= s[k])
    ensures SortedDescending(s[..n + 1])
  {
    var t := s[..n + 1];
    forall i, j | 0 <= i < j < |t| ensures t[i] >= t[j] {
      assert t[i] == s[i] && t[j] == s[j];
      if j == k && i < k - 1 {
        assert s[i] >= s[k - 1];
      }
    }
  }

  /** The first element of a descending permutation of `c` is the largest element of `c`. */
  lemma {:induction false} SortedHeadIsLargest(c: seq<real>, a: seq<real>)
    requires |c| > 0 && SortedDescending(a) && multiset(a) == multiset(c)
    ensures |a| > 0 && a[0] == Largest(c)
  {
    assert |a| == |c| by { assert |multiset(a)| == |multiset(c)|; }
    var m := Largest(c);
    assert m in multiset(a);
    assert a[0] in multiset(c);
    var i :| 0 <= i < |a| && a[i] == m;
    var j :| 0 <= j < |c| && c[j] == a[0];
  }

  // ---- The extractor ----

  /** The tiers applied to the lines of a text. */
  function SelectAmount(lines: seq<string>): Option<real> {
    var tier1 := FirstMarked(lines, Egp);
    if tier1.Some? then tier1 else
    var tier2 := FirstMarked(lines, TransferAmount);
    if tier2.Some? then tier2 else
    var c := Candidates(AllTokens(lines));
    if c == [] then None else Some(Largest(c))
  }

  /** The answer of `extractBestAmount`. */
  function BestAmount(text: string): Option<real> {
    SelectAmount(Lines(text))
  }

  /** `extractBestAmount(text)`: the two tier loops, then the sort of the fallback candidates. */
  method ExtractBestAmount(text: string) returns (r: Option<real>)
    ensures r == BestAmount(text)
  {
    var lines := Lines(text);
    r := ScanMarkedLines(lines, Egp);
    if r.Some? { return; }
    r := ScanMarkedLines(lines, TransferAmount);
    if r.Some? { return; }
    var c := Candidates(AllTokens(lines));
    if |c| == 0 { return None; }
    var a := new real[|c|](k requires 0 <= k < |c| => c[k]);
    assert a[..] == c;
    SortDescending(a);
    SortedHeadIsLargest(c, a[..]);
    r := Some(a[0]);
  }

  // ---- What the extractor promises ----

  /** A token the extractor can return: not phone-like, and a positive finite number. */
  predicate Usable(t: string) {
    !IsPhoneLike(t) && ToNumber(t).Some?
  }

  /** Every token of a line is a token of the text. */
  lemma {:induction false} LineTokensInAllTokens(lines: seq<string>, i: nat, t: string)
    requires i < |lines| && t in MatchAll(lines[i])
    ensures t in AllTokens(lines)
  {
    assert AllTokens(lines) == MatchAll(lines[0]) + AllTokens(lines[1..]);
    if i > 0 {
      assert lines[1..][i - 1] == lines[i];
      LineTokensInAllTokens(lines[1..], i - 1, t);
    }
  }

  /** A tier's value comes from the first token of one of the lines, which is usable. */
  lemma {:induction false} FirstMarkedFromToken(lines: seq<string>, m: Marker)
    requires FirstMarked(lines, m).Some?
    ensures exists t :: t in AllTokens(lines) && Usable(t) && ToNumber(t) == FirstMarked(lines, m)
  {
    if MarkedAmount(lines[0], m).Some? {
      var t := FirstMatch(lines[0]).value;
      MatchAllStartsWithFirstMatch(lines[0]);
      LineTokensInAllTokens(lines, 0, t);
    } else {
      FirstMarkedFromToken(lines[1..], m);
      var t :| t in AllTokens(lines[1..]) && Usable(t) && ToNumber(t) == FirstMarked(lines, m);
      assert AllTokens(lines) == MatchAll(lines[0]) + AllTokens(lines[1..]);
    }
  }

  lemma {:induction false} SelectedFromUsableToken(lines: seq<string>)
    requires SelectAmount(lines).Some?
    ensures exists t :: t in AllTokens(lines) && Usable(t) && ToNumber(t) == SelectAmount(lines)
  {
    if FirstMarked(lines, Egp).Some? {
      FirstMarkedFromToken(lines, Egp);
    } else if FirstMarked(lines, TransferAmount).Some? {
      FirstMarkedFromToken(lines, TransferAmount);
    } else {
      var c := Candidates(AllTokens(lines));
      CandidatesAre(AllTokens(lines), Largest(c));
    }
  }

  /**
   * Whatever the tier, a result is the value of a usable token of the text: a
   * token with fewer than 9 digits. So it lies strictly between 0 and 100,000,000.
   */
  lemma {:induction false} BestAmountFromUsableToken(text: string)
    requires BestAmount(text).Some?
    ensures exists t :: t in AllTokens(Lines(text)) && Usable(t) && ToNumber(t) == BestAmount(text)
    ensures 0.0 < BestAmount(text).value < 100000000.0
  {
    var lines := Lines(text);
    SelectedFromUsableToken(lines);
    var t :| t in AllTokens(lines) && Usable(t) && ToNumber(t) == SelectAmount(lines);
    AcceptedBelowHundredMillion(t);
  }

  /** An empty text has no lines, so no tier yields anything. */
  lemma {:induction false} BestAmountOfEmpty()
    ensures BestAmount("") == None
  {
    assert Split("", '\n') == [""];
    assert Lines("") == [];
  }

  /**
   * Tier 1: when the earliest line that mentions EGP and has a usable first
   * token is line `i`, the result is that token's value, whatever the other
   * lines say.
   */
  lemma {:induction false} EgpLineWins(text: string, i: nat)
    requires i < |Lines(text)| && MarkedAmount(Lines(text)[i], Egp).Some?
    requires forall j :: 0 <= j < i ==> MarkedAmount(Lines(text)[j], Egp).None?
    ensures BestAmount(text) == MarkedAmount(Lines(text)[i], Egp)
  {
    FirstMarkedIsEarliest(Lines(text), Egp);
  }

  /**
   * Tier 2 is consulted only when no EGP line gives a value; then the earliest
   * "transfer amount" line with a usable first token decides.
   */
  lemma {:induction false} TransferAmountLineWins(text: string, i: nat)
    requires forall j :: 0 <= j < |Lines(text)| ==> MarkedAmount(Lines(text)[j], Egp).None?
    requires i < |Lines(text)| && MarkedAmount(Lines(text)[i], TransferAmount).Some?
    requires forall j :: 0 <= j < i ==> MarkedAmount(Lines(text)[j], TransferAmount).None?
    ensures BestAmount(text) == MarkedAmount(Lines(text)[i], TransferAmount)
  {
    FirstMarkedIsEarliest(Lines(text), Egp);
    FirstMarkedIsEarliest(Lines(text), TransferAmount);
  }

  /**
   * Tier 3: when no marked line gives a value, the result is the largest value
   * of a usable token anywhere in the text, and there is none exactly when no
   * token is usable.
   */
  lemma {:induction false} FallbackIsLargestUsable(text: string)
    requires forall j :: 0 <= j < |Lines(text)| ==> MarkedAmount(Lines(text)[j], Egp).None?
    requires forall j :: 0 <= j < |Lines(text)| ==> MarkedAmount(Lines(text)[j], TransferAmount).None?
    ensures BestAmount(text).None? <==> forall t :: t in AllTokens(Lines(text)) ==> !Usable(t)
    ensures BestAmount(text).Some? ==>
      (exists t :: t in AllTokens(Lines(text)) && Usable(t) && ToNumber(t) == BestAmount(text)) &&
      (forall t :: t in AllTokens(Lines(text)) && Usable(t) ==> ToNumber(t).value <= BestAmount(text).value)
  {
    var lines := Lines(text);
    FirstMarkedIsEarliest(lines, Egp);
    FirstMarkedIsEarliest(lines, TransferAmount);
    FallbackOfLines(lines);
  }

  lemma {:induction false} FallbackOfLines(lines: seq<string>)
    requires FirstMarked(lines, Egp).None? && FirstMarked(lines, TransferAmount).None?
    ensures SelectAmount(lines).None? <==> forall t :: t in AllTokens(lines) ==> !Usable(t)
    ensures SelectAmount(lines).Some? ==>
      (exists t :: t in AllTokens(lines) && Usable(t) && ToNumber(t) == SelectAmount(lines)) &&
      (forall t :: t in AllTokens(lines) && Usable(t) ==> ToNumber(t).value <= SelectAmount(lines).value)
  {
    var c := Candidates(AllTokens(lines));
    assert SelectAmount(lines) == if c == [] then None else Some(Largest(c));
    LargestCandidate(AllTokens(lines));
  }

  /** The candidates are empty exactly when no token is usable; otherwise their largest is the largest usable value. */
  lemma {:induction false} LargestCandidate(tokens: seq<string>)
    ensures var c := Candidates(tokens);
      (c == [] <==> forall t :: t in tokens ==> !Usable(t)) &&
      (c != [] ==> exists t :: t in tokens && Usable(t) && ToNumber(t) == Some(Largest(c))) &&
      (c != [] ==> forall t :: t in tokens && Usable(t) ==> ToNumber(t).value <= Largest(c))
  {
    var c := Candidates(tokens);
    forall t | t in tokens && Usable(t) ensures ToNumber(t).value in c {
      CapNeverBinds(t);
      CandidatesAre(tokens, ToNumber(t).value);
    }
    if c != [] {
      CandidatesAre(tokens, Largest(c));
    }
  }
}
