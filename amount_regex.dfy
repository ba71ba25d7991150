/**
 * The amount pattern of the receipt extractor,
 *
 *     \b(?:\d{1,3}(?:,\d{3})+(?:\.\d{1,2})?|\d+(?:\.\d{1,2})?)\b
 *
 * as a backtracking matcher. Every sub-pattern is given as the list of the
 * positions where it can end, in the order a backtracking engine tries them
 * (greedy quantifiers longest first, an alternation left branch first); a
 * sequence of sub-patterns tries the second one after each end of the first in
 * turn. The match at a position is the first end of the whole body after which
 * the closing `\b` holds.
 */
module AmountRegex {
  import opened Wrappers
  import opened JsText

  predicate DigitAt(s: string, i: int) {
    0 <= i < |s| && IsDigit(s[i])
  }

  predicate CharAt(s: string, i: int, c: char) {
    0 <= i < |s| && s[i] == c
  }

  predicate WordAt(s: string, i: int) {
    0 <= i < |s| && IsWordChar(s[i])
  }

  /** `\b` at position `p`: exactly one of the characters on either side is a word character. */
  predicate Boundary(s: string, p: int) {
    WordAt(s, p - 1) != WordAt(s, p)
  }

  predicate InRange(ends: seq<nat>, lo: int, hi: int) {
    forall k :: 0 <= k < |ends| ==> lo <= ends[k] <= hi
  }

  /** Longest first: every end comes before the shorter ones. */
  predicate Descending(ends: seq<nat>) {
    forall j, k :: 0 <= j < k < |ends| ==> ends[j] > ends[k]
  }

  /** The length of the run of digits that starts at `p`. */
  function DigitRun(s: string, p: nat): (n: nat)
    requires p <= |s|
    ensures p + n <= |s|
    ensures forall k :: p <= k < p + n ==> IsDigit(s[k])
    ensures !DigitAt(s, p + n)
    decreases |s| - p
  {
    if DigitAt(s, p) then 1 + DigitRun(s, p + 1) else 0
  }

  /** The ends of a greedy repetition of single characters, `n` of which are available from `p`: longest first. */
  function Countdown(p: nat, n: nat): (ends: seq<nat>)
    ensures |ends| == n
    ensures forall k :: 0 <= k < n ==> ends[k] == p + n - k
  {
    seq(n, k requires 0 <= k < n => p + n - k)
  }

  /** A countdown tries its ends longest first, and tries every end from `p + 1` to `p + n` and no other. */
  lemma {:induction false} CountdownEnds(p: nat, n: nat)
    ensures Descending(Countdown(p, n))
    ensures forall e :: e in Countdown(p, n) <==> p < e <= p + n
  {
    var ends := Countdown(p, n);
    forall e | p < e <= p + n ensures e in ends { assert ends[p + n - e] == e; }
  }

  /** `\d{1,2}` from `i`. */
  function FracDigits(s: string, i: nat): (ends: seq<nat>)
    requires i <= |s|
    ensures InRange(ends, i + 1, |s|)
  {
    if DigitAt(s, i) && DigitAt(s, i + 1) then [i + 2, i + 1]
    else if DigitAt(s, i) then [i + 1]
    else []
  }

  /**
   * `\d{1,2}` tries two digits, then one: at most two ends, longest first,
   * one or two places on, with one end for each digit there is.
   */
  lemma {:induction false} FracDigitsEnds(s: string, i: nat)
    requires i <= |s|
    ensures var ends := FracDigits(s, i);
      InRange(ends, i + 1, i + 2) && |ends| <= 2 && Descending(ends) &&
      (|ends| >= 1 <==> DigitAt(s, i)) && (|ends| == 2 <==> DigitAt(s, i) && DigitAt(s, i + 1))
  {
  }

  /** `(?:\.\d{1,2})?` from `q`: with a fraction first, then without. */
  function OptFraction(s: string, q: nat): (ends: seq<nat>)
    requires q <= |s|
    ensures InRange(ends, q, |s|) && |ends| >= 1 && ends[|ends| - 1] == q
  {
    (if CharAt(s, q, '.') then FracDigits(s, q + 1) else []) + [q]
  }

  /** One thousands group `,ddd` at `q`. */
  predicate GroupAt(s: string, q: int) {
    CharAt(s, q, ',') && DigitAt(s, q + 1) && DigitAt(s, q + 2) && DigitAt(s, q + 3)
  }

  /** `(?:,\d{3})*` from `q`: as many groups as there are first, down to none. */
  function GroupsStar(s: string, q: nat): (ends: seq<nat>)
    requires q <= |s|
    ensures InRange(ends, q, |s|) && |ends| >= 1
    decreases |s| - q
  {
    (if GroupAt(s, q) then GroupsStar(s, q + 4) else []) + [q]
  }

  /**
   * `(?:,\d{3})*` tries its ends longest first, the last one taking no group,
   * and has more than that one exactly when a thousands group starts at `q`.
   */
  lemma {:induction false} GroupsStarEnds(s: string, q: nat)
    requires q <= |s|
    ensures var ends := GroupsStar(s, q);
      Descending(ends) && ends[|ends| - 1] == q && (|ends| > 1 <==> GroupAt(s, q))
    decreases |s| - q
  {
    if GroupAt(s, q) {
      var more := GroupsStar(s, q + 4);
      GroupsStarEnds(s, q + 4);
      DescendingThen(more, q);
      assert GroupsStar(s, q) == more + [q];
    } else {
      assert GroupsStar(s, q) == [q];
    }
  }

  /** Putting an end below all of `ends` after them keeps them longest first. */
  lemma {:induction false} DescendingThen(ends: seq<nat>, q: nat)
    requires Descending(ends) && forall k :: 0 <= k < |ends| ==> ends[k] > q
    ensures Descending(ends + [q])
  {
    var r := ends + [q];
    forall j, k | 0 <= j < k < |r| ensures r[j] > r[k] {
      assert r[j] == ends[j];
    }
  }

  /** `(?:,\d{3})+` from `q`. */
  function GroupsPlus(s: string, q: nat): (ends: seq<nat>)
    requires q <= |s|
    ensures InRange(ends, q + 4, |s|)
  {
    if GroupAt(s, q) then GroupsStar(s, q + 4) else []
  }

  /** `(?:\.\d{1,2})?` after each of `qs`, in turn. */
  function ThenFraction(s: string, qs: seq<nat>, ghost lo: int): (ends: seq<nat>)
    requires InRange(qs, lo, |s|)
    ensures InRange(ends, lo, |s|)
  {
    if qs == [] then [] else OptFraction(s, qs[0]) + ThenFraction(s, qs[1..], lo)
  }

  /** `(?:,\d{3})+(?:\.\d{1,2})?` after each of `qs`, in turn. */
  function ThenGroups(s: string, qs: seq<nat>, ghost lo: int): (ends: seq<nat>)
    requires InRange(qs, lo, |s|)
    ensures InRange(ends, lo, |s|)
  {
    if qs == [] then [] else ThenFraction(s, GroupsPlus(s, qs[0]), lo) + ThenGroups(s, qs[1..], lo)
  }

  function Least(a: nat, b: nat): nat {
    if a <= b then a else b
  }

  /** The first alternative, `\d{1,3}(?:,\d{3})+(?:\.\d{1,2})?`, from `p`. */
  function GroupedEnds(s: string, p: nat): (ends: seq<nat>)
    requires p <= |s|
    ensures InRange(ends, p + 1, |s|)
  {
    var n := Least(3, DigitRun(s, p));
    ThenGroups(s, Countdown(p, n), p + 1)
  }

  /** The second alternative, `\d+(?:\.\d{1,2})?`, from `p`. */
  function PlainEnds(s: string, p: nat): (ends: seq<nat>)
    requires p <= |s|
    ensures InRange(ends, p + 1, |s|)
  {
    ThenFraction(s, Countdown(p, DigitRun(s, p)), p + 1)
  }

  /** The first of `ends` after which `\b` holds. */
  function FirstAtBoundary(s: string, ends: seq<nat>): (e: Option<nat>)
    ensures e.Some? ==> e.value in ends && Boundary(s, e.value)
    ensures e.None? ==> forall k :: 0 <= k < |ends| ==> !Boundary(s, ends[k])
  {
    if ends == [] then None
    else if Boundary(s, ends[0]) then Some(ends[0])
    else FirstAtBoundary(s, ends[1..])
  }

  /**
   * The end chosen is the first one tried after which `\b` holds: it is the
   * `k`-th end when `\b` holds after that one and after none before it, and
   * whenever an end is chosen some such `k` exists.
   */
  lemma {:induction false} FirstAtBoundaryIsFirst(s: string, ends: seq<nat>)
    ensures forall k :: 0 <= k < |ends| && Boundary(s, ends[k]) && NoBoundaryBefore(s, ends, k) ==>
      FirstAtBoundary(s, ends) == Some(ends[k])
    ensures FirstAtBoundary(s, ends).Some? ==>
      exists k :: 0 <= k < |ends| && FirstAtBoundary(s, ends) == Some(ends[k]) && NoBoundaryBefore(s, ends, k)
  {
    if ends == [] {
    } else if Boundary(s, ends[0]) {
      assert NoBoundaryBefore(s, ends, 0);
    } else {
      var rest := ends[1..];
      FirstAtBoundaryIsFirst(s, rest);
      forall k | 0 <= k < |ends| && Boundary(s, ends[k]) && NoBoundaryBefore(s, ends, k)
        ensures FirstAtBoundary(s, ends) == Some(ends[k])
      {
        assert k > 0 && rest[k - 1] == ends[k];
        forall j | 0 <= j < k - 1 ensures !Boundary(s, rest[j]) {
          assert rest[j] == ends[j + 1];
        }
      }
      if FirstAtBoundary(s, rest).Some? {
        var k :| 0 <= k < |rest| && FirstAtBoundary(s, rest) == Some(rest[k]) && NoBoundaryBefore(s, rest, k);
        assert ends[k + 1] == rest[k];
        forall j | 0 <= j < k + 1 ensures !Boundary(s, ends[j]) {
          if j > 0 { assert ends[j] == rest[j - 1]; }
        }
      }
    }
  }

  /** `\b` holds after none of the ends tried before the `k`-th. */
  predicate NoBoundaryBefore(s: string, ends: seq<nat>, k: int) {
    forall j :: 0 <= j < k && j < |ends| ==> !Boundary(s, ends[j])
  }

  /** Where the match of the whole pattern that starts at `p` ends, if there is one. */
  function MatchAt(s: string, p: nat): (e: Option<nat>)
    requires p <= |s|
    ensures e.Some? ==> p < e.value <= |s| && Boundary(s, p) && Boundary(s, e.value)
  {
    if Boundary(s, p) then FirstAtBoundary(s, GroupedEnds(s, p) + PlainEnds(s, p)) else None
  }

  /** No match starts where there is no digit: both alternatives begin with `\d`. */
  lemma {:induction false} NoMatchAtNonDigit(s: string, k: nat)
    requires k <= |s| && !DigitAt(s, k)
    ensures MatchAt(s, k).None?
  {
    assert DigitRun(s, k) == 0;
    assert Countdown(k, 0) == [];
  }

  /** `(?:,\d{3})+(?:\.\d{1,2})?` contributes nothing after positions that do not start a thousands group. */
  lemma {:induction false} ThenGroupsWithoutGroups(s: string, qs: seq<nat>, lo: int)
    requires InRange(qs, lo, |s|)
    requires forall k :: 0 <= k < |qs| ==> !GroupAt(s, qs[k])
    ensures ThenGroups(s, qs, lo) == []
  {
    if qs != [] {
      assert InRange(qs[1..], lo, |s|);
      ThenGroupsWithoutGroups(s, qs[1..], lo);
    }
  }

  /**
   * `(?:\.\d{1,2})?` at `q` over `.dd` followed by a non-word character: the
   * fraction is taken whole, and `\b` holds after it.
   */
  lemma {:induction false} TwoDigitFraction(s: string, q: nat)
    requires CharAt(s, q, '.') && DigitAt(s, q + 1) && DigitAt(s, q + 2) && !WordAt(s, q + 3)
    ensures OptFraction(s, q) == [q + 3, q + 2, q] && Boundary(s, q + 3)
  {
  }

  /**
   * Unless the digits starting at `p` are followed by a comma, the first
   * alternative has nothing: no thousands group follows any of its leads.
   */
  lemma {:induction false} NoGroupedEnds(s: string, p: nat, lead: nat)
    requires p <= |s| && DigitRun(s, p) == lead && !CharAt(s, p + lead, ',')
    ensures GroupedEnds(s, p) == []
  {
    var qs := Countdown(p, Least(3, lead));
    forall k | 0 <= k < |qs| ensures !GroupAt(s, qs[k]) {
      assert qs[k] == p + lead || DigitAt(s, qs[k]);
    }
    ThenGroupsWithoutGroups(s, qs, p + 1);
  }

  /** The second alternative tries first all the digits and the two-digit fraction. */
  lemma {:induction false} PlainEndsHead(s: string, p: nat, lead: nat)
    requires p <= |s| && DigitRun(s, p) == lead && 1 <= lead
    requires CharAt(s, p + lead, '.') && DigitAt(s, p + lead + 1) && DigitAt(s, p + lead + 2)
    requires !WordAt(s, p + lead + 3)
    ensures |PlainEnds(s, p)| > 0 && PlainEnds(s, p)[0] == p + lead + 3 && Boundary(s, p + lead + 3)
  {
    var q := p + lead;
    var qs := Countdown(p, lead);
    TwoDigitFraction(s, q);
    assert qs[0] == q;
    assert PlainEnds(s, p) == OptFraction(s, q) + ThenFraction(s, qs[1..], p + 1);
  }

  /** The first alternative tries first the lead digits, the one thousands group and the two-digit fraction. */
  lemma {:induction false} GroupedEndsHead(s: string, p: nat, lead: nat)
    requires p <= |s| && DigitRun(s, p) == lead && 1 <= lead <= 3
    requires GroupAt(s, p + lead) && !GroupAt(s, p + lead + 4)
    requires CharAt(s, p + lead + 4, '.') && DigitAt(s, p + lead + 5) && DigitAt(s, p + lead + 6)
    requires !WordAt(s, p + lead + 7)
    ensures |GroupedEnds(s, p)| > 0 && GroupedEnds(s, p)[0] == p + lead + 7 && Boundary(s, p + lead + 7)
  {
    var q := p + lead + 4;
    var qs := Countdown(p, lead);
    assert qs == [p + lead] + qs[1..];
    assert GroupsStar(s, q) == [q];
    assert GroupsPlus(s, p + lead) == [q];
    TwoDigitFraction(s, q);
    assert ThenFraction(s, [q], p + 1) == [q + 3, q + 2, q];
    assert GroupedEnds(s, p) == [q + 3, q + 2, q] + ThenGroups(s, qs[1..], p + 1);
  }

  /**
   * An amount written `d.dd`, `dd.dd` or `ddd.dd` that starts at `p` after a
   * non-word character and is followed by one is matched whole, by the
   * second alternative.
   */
  lemma {:induction false} PlainAmountMatch(s: string, p: nat, lead: nat)
    requires p < |s| && DigitRun(s, p) == lead && 1 <= lead <= 3 && DigitAt(s, p)
    requires p == 0 || !WordAt(s, p - 1)
    requires CharAt(s, p + lead, '.') && DigitAt(s, p + lead + 1) && DigitAt(s, p + lead + 2)
    requires !WordAt(s, p + lead + 3)
    ensures MatchAt(s, p) == Some(p + lead + 3)
  {
    StartsAfterNonWord(s, p);
    PlainEndsHead(s, p, lead);
    PlainMatchOf(s, p, lead, p + lead + 3);
  }


  /** Without a decimal point after them, the second alternative tries first all the digits. */
  lemma {:induction false} WholeEndsHead(s: string, p: nat, n: nat)
    requires p <= |s| && DigitRun(s, p) == n && 1 <= n && !CharAt(s, p + n, '.')
    ensures |PlainEnds(s, p)| > 0 && PlainEnds(s, p)[0] == p + n
  {
    var qs := Countdown(p, n);
    assert qs[0] == p + n;
    NoFraction(s, p + n);
    ThenFractionHead(s, qs, p + 1);
  }

  lemma {:induction false} NoFraction(s: string, q: nat)
    requires q <= |s| && !CharAt(s, q, '.')
    ensures OptFraction(s, q) == [q]
  {
  }

  lemma {:induction false} ThenFractionHead(s: string, qs: seq<nat>, lo: int)
    requires InRange(qs, lo, |s|) && qs != []
    ensures ThenFraction(s, qs, lo) == OptFraction(s, qs[0]) + ThenFraction(s, qs[1..], lo)
  {
  }

  /**
   * A whole number that starts at `p` after a non-word character, and is
   * followed by neither a word character, a decimal point nor a comma, is
   * matched whole, by the second alternative.
   */
  lemma {:induction false} WholeAmountMatch(s: string, p: nat, n: nat)
    requires p <= |s| && DigitRun(s, p) == n && 1 <= n
    requires p == 0 || !WordAt(s, p - 1)
    requires !WordAt(s, p + n) && !CharAt(s, p + n, '.') && !CharAt(s, p + n, ',')
    ensures MatchAt(s, p) == Some(p + n)
  {
    assert DigitAt(s, p) && DigitAt(s, p + n - 1);
    StartsAfterNonWord(s, p);
    WholeEndsHead(s, p, n);
    PlainMatchOf(s, p, n, p + n);
  }

  /**
   * When `\b` holds at `p`, the digits there are not followed by a comma and
   * `\b` holds after the first end the second alternative tries, that end is the match.
   */
  lemma {:induction false} PlainMatchOf(s: string, p: nat, n: nat, e: nat)
    requires p <= |s| && DigitRun(s, p) == n && !CharAt(s, p + n, ',') && Boundary(s, p)
    requires |PlainEnds(s, p)| > 0 && PlainEnds(s, p)[0] == e && Boundary(s, e)
    ensures MatchAt(s, p) == Some(e)
  {
    NoGroupedEnds(s, p, n);
    PlainHeadMatch(s, p, e);
  }

  /**
   * When `\b` holds at `p`, the first alternative has nothing and `\b` holds
   * after the first end the second one tries, that end is the match.
   */
  lemma {:induction false} PlainHeadMatch(s: string, p: nat, e: nat)
    requires p <= |s| && Boundary(s, p) && GroupedEnds(s, p) == []
    requires |PlainEnds(s, p)| > 0 && PlainEnds(s, p)[0] == e && Boundary(s, e)
    ensures MatchAt(s, p) == Some(e)
  {
    var ends := PlainEnds(s, p);
    assert GroupedEnds(s, p) + ends == ends;
    MatchAtOfEnds(s, p, ends);
    FirstAtBoundaryHead(s, ends);
  }

  /**
   * An amount with one thousands group, `d,ddd.dd` to `ddd,ddd.dd`, that
   * starts at `p` after a non-word character and is followed by one is
   * matched whole, by the first alternative.
   */
  lemma {:induction false} GroupedAmountMatch(s: string, p: nat, lead: nat)
    requires p < |s| && DigitRun(s, p) == lead && 1 <= lead <= 3 && DigitAt(s, p)
    requires p == 0 || !WordAt(s, p - 1)
    requires GroupAt(s, p + lead) && !GroupAt(s, p + lead + 4)
    requires CharAt(s, p + lead + 4, '.') && DigitAt(s, p + lead + 5) && DigitAt(s, p + lead + 6)
    requires !WordAt(s, p + lead + 7)
    ensures MatchAt(s, p) == Some(p + lead + 7)
  {
    StartsAfterNonWord(s, p);
    GroupedEndsHead(s, p, lead);
    var ends := GroupedEnds(s, p) + PlainEnds(s, p);
    assert ends[0] == GroupedEnds(s, p)[0];
    MatchAtOfEnds(s, p, ends);
    FirstAtBoundaryHead(s, ends);
  }

  /** Where `\b` holds at `p`, the match there is the first end of either alternative after which `\b` holds. */
  lemma {:induction false} MatchAtOfEnds(s: string, p: nat, ends: seq<nat>)
    requires p <= |s| && Boundary(s, p) && ends == GroupedEnds(s, p) + PlainEnds(s, p)
    ensures MatchAt(s, p) == FirstAtBoundary(s, ends)
  {
  }

  lemma {:induction false} FirstAtBoundaryHead(s: string, ends: seq<nat>)
    requires |ends| > 0 && Boundary(s, ends[0])
    ensures FirstAtBoundary(s, ends) == Some(ends[0])
  {
  }

  lemma {:induction false} StartsAfterNonWord(s: string, p: nat)
    requires DigitAt(s, p) && (p == 0 || !WordAt(s, p - 1))
    ensures Boundary(s, p)
  {
  }

  /** The digit run at `p` of a lead of 1 to 3 digits followed by a non-digit. */
  lemma {:induction false} RunOfLead(s: string, p: nat, lead: nat)
    requires p + lead <= |s| && !DigitAt(s, p + lead)
    requires forall j :: p <= j < p + lead ==> DigitAt(s, j)
    ensures DigitRun(s, p) == lead
    decreases lead
  {
    if lead > 0 {
      RunOfLead(s, p + 1, lead - 1);
    }
  }

  // ---- Searching ----

  /**
   * A match table for a string of length `|t| - 1`: entry `p` is where the
   * match that starts at `p` ends, if there is one, always past `p`.
   */
  predicate IsTable(t: seq<Option<nat>>) {
    |t| >= 1 && forall p :: 0 <= p < |t| && t[p].Some? ==> p < t[p].value < |t|
  }

  /** The values of `f` at 0 to `n - 1`, in order. */
  function Tabulate(f: nat --> Option<nat>, n: nat): (t: seq<Option<nat>>)
    requires forall p :: 0 <= p < n ==> f.requires(p)
    ensures |t| == n
  {
    if n == 0 then [] else Tabulate(f, n - 1) + [f(n - 1)]
  }

  lemma {:induction false} TabulateAt(f: nat --> Option<nat>, n: nat, p: nat)
    requires forall p :: 0 <= p < n ==> f.requires(p)
    requires p < n
    ensures Tabulate(f, n)[p] == f(p)
    decreases n
  {
    if p < n - 1 {
      TabulateAt(f, n - 1, p);
    }
  }

  /** The match at each start position of `s`. */
  function MatchFn(s: string): nat --> Option<nat> {
    (p: nat) requires p <= |s| => MatchAt(s, p)
  }

  lemma {:induction false} MatchesAreTable(s: string)
    ensures IsTable(Tabulate(MatchFn(s), |s| + 1))
  {
    var t := Tabulate(MatchFn(s), |s| + 1);
    forall p | 0 <= p < |t| && t[p].Some? ensures p < t[p].value < |t| {
      TabulateAt(MatchFn(s), |s| + 1, p);
    }
  }

  /** The match at every start position of `s`, from 0 to `|s|`. */
  function Matches(s: string): (t: seq<Option<nat>>)
    ensures |t| == |s| + 1 && IsTable(t)
  {
    MatchesAreTable(s);
    Tabulate(MatchFn(s), |s| + 1)
  }

  lemma {:induction false} MatchTableAt(s: string, p: nat)
    requires p <= |s|
    ensures Matches(s)[p] == MatchAt(s, p)
  {
    TabulateAt(MatchFn(s), |s| + 1, p);
  }

  datatype Span = Span(start: nat, end: nat)

  /** The leftmost match at or after `p`, as a regular expression's `exec` finds it from `lastIndex` `p`. */
  function FirstFrom(t: seq<Option<nat>>, p: nat): (r: Option<Span>)
    requires IsTable(t) && p < |t|
    ensures r.Some? ==> p <= r.value.start < r.value.end < |t|
    decreases |t| - p
  {
    match t[p]
    case Some(e) => Some(Span(p, e))
    case None => if p == |t| - 1 then None else FirstFrom(t, p + 1)
  }

  /** The span the search finds is a match. */
  lemma {:induction false} FirstFromIsMatch(t: seq<Option<nat>>, p: nat)
    requires IsTable(t) && p < |t| && FirstFrom(t, p).Some?
    ensures t[FirstFrom(t, p).value.start] == Some(FirstFrom(t, p).value.end)
    decreases |t| - p
  {
    if t[p].None? {
      FirstFromIsMatch(t, p + 1);
    }
  }

  /** No match starts at any of the positions `lo` to `hi - 1`. */
  predicate NoneIn(t: seq<Option<nat>>, lo: int, hi: int) {
    forall k :: lo <= k < hi && 0 <= k < |t| ==> t[k].None?
  }

  /** No match starts between `p` and the span the search finds: it is the leftmost. */
  lemma {:induction false} FirstFromIsLeftmost(t: seq<Option<nat>>, p: nat)
    requires IsTable(t) && p < |t| && FirstFrom(t, p).Some?
    ensures NoneIn(t, p, FirstFrom(t, p).value.start)
    decreases |t| - p
  {
    if t[p].None? {
      FirstFromIsLeftmost(t, p + 1);
    }
  }

  /** The search finds nothing exactly when no match starts at or after `p`. */
  lemma {:induction false} FirstFromNone(t: seq<Option<nat>>, p: nat)
    requires IsTable(t) && p < |t|
    ensures FirstFrom(t, p).None? <==> NoneIn(t, p, |t|)
    decreases |t| - p
  {
    if t[p].None? && p < |t| - 1 {
      FirstFromNone(t, p + 1);
    }
  }

  /** The search passes over positions where no match starts. */
  lemma {:induction false} FirstFromSkips(t: seq<Option<nat>>, p: nat, q: nat)
    requires IsTable(t) && p <= q < |t| && NoneIn(t, p, q)
    ensures FirstFrom(t, p) == FirstFrom(t, q)
    decreases q - p
  {
    if p < q {
      assert t[p].None?;
      FirstFromSkips(t, p + 1, q);
    }
  }

  /** `s.match(AMOUNT_REGEX)?.[0]`: the text of the leftmost match. */
  function FirstMatch(s: string): Option<string> {
    match FirstFrom(Matches(s), 0)
    case None => None
    case Some(sp) => Some(s[sp.start..sp.end])
  }

  /**
   * The plain match is empty exactly when no match starts anywhere in `s`;
   * otherwise it is the text of a match that starts after no other does.
   */
  lemma {:induction false} FirstMatchIsLeftmost(s: string)
    ensures FirstMatch(s).None? <==> forall k :: 0 <= k <= |s| ==> MatchAt(s, k).None?
    ensures FirstMatch(s).Some? ==>
      exists p: nat, e: nat :: p < e <= |s| && MatchAt(s, p) == Some(e) && FirstMatch(s).value == s[p..e] &&
        forall k :: 0 <= k < p ==> MatchAt(s, k).None?
  {
    var t := Matches(s);
    FirstFromNone(t, 0);
    if FirstFrom(t, 0).Some? {
      var sp := FirstFrom(t, 0).value;
      FirstFromIsMatch(t, 0);
      FirstFromIsLeftmost(t, 0);
      MatchTableAt(s, sp.start);
      forall k | 0 <= k < sp.start ensures MatchAt(s, k).None? {
        MatchTableAt(s, k);
      }
    } else {
      forall k | 0 <= k <= |s| ensures MatchAt(s, k).None? {
        MatchTableAt(s, k);
      }
    }
  }

  /** Every span in `r` lies in `[lo, hi)` and is non-empty. */
  predicate SpansWithin(r: seq<Span>, lo: int, hi: int) {
    forall k :: 0 <= k < |r| ==> lo <= r[k].start < r[k].end < hi
  }

  lemma {:induction false} SpansWithinCons(sp: Span, rest: seq<Span>, lo: int, hi: int)
    requires lo <= sp.start < sp.end < hi && SpansWithin(rest, sp.end, hi)
    ensures SpansWithin([sp] + rest, lo, hi)
  {
    forall k | 0 <= k < |[sp] + rest| ensures lo <= ([sp] + rest)[k].start < ([sp] + rest)[k].end < hi {
      if k > 0 {
        assert ([sp] + rest)[k] == rest[k - 1];
      }
    }
  }

  /** The spans a global match visits from `p`: leftmost first, each search resuming where the previous match ended. */
  function SpansFrom(t: seq<Option<nat>>, p: nat): (r: seq<Span>)
    requires IsTable(t) && p < |t|
    ensures SpansWithin(r, p, |t|)
    decreases |t| - p
  {
    match FirstFrom(t, p)
    case None => []
    case Some(sp) =>
      var rest := SpansFrom(t, sp.end);
      SpansWithinCons(sp, rest, p, |t|);
      [sp] + rest
  }

  /** Every span in `r` is a match in `t`. */
  predicate AllMatches(t: seq<Option<nat>>, r: seq<Span>) {
    r == [] || (r[0].start < |t| && t[r[0].start] == Some(r[0].end) && AllMatches(t, r[1..]))
  }

  /** Each span ends at or before the start of the next one. */
  predicate Ordered(r: seq<Span>) {
    |r| <= 1 || (r[0].end <= r[1].start && Ordered(r[1..]))
  }

  /** No match starts from `p` up to the first span, between two spans, or after the last one. */
  predicate Gaps(t: seq<Option<nat>>, p: int, r: seq<Span>)
    decreases |r|
  {
    if r == [] then NoneIn(t, p, |t|) else NoneIn(t, p, r[0].start) && Gaps(t, r[0].end, r[1..])
  }

  /**
   * Every span visited is a match, the spans do not overlap, the first is the
   * leftmost match, and each later one is the leftmost match from where the
   * one before it ended: no match starts in a gap between spans or after the last.
   */
  lemma {:induction false} SpansAreMatches(t: seq<Option<nat>>, p: nat)
    requires IsTable(t) && p < |t|
    ensures var r := SpansFrom(t, p);
      AllMatches(t, r) && Ordered(r) && (|r| > 0 <==> FirstFrom(t, p).Some?) &&
      (|r| > 0 ==> r[0] == FirstFrom(t, p).value) && Gaps(t, p, r)
    decreases |t| - p
  {
    match FirstFrom(t, p)
    case None =>
      FirstFromNone(t, p);
    case Some(sp) =>
      FirstFromIsMatch(t, p);
      FirstFromIsLeftmost(t, p);
      SpansAreMatches(t, sp.end);
      var rest := SpansFrom(t, sp.end);
      var r := [sp] + rest;
      assert SpansFrom(t, p) == r;
      assert r[0] == sp && r[1..] == rest;
  }

  /** A match that starts at or after `p` starts inside one of the spans visited: the global match skips only matches that overlap one it took. */
  lemma {:induction false} MatchesCovered(t: seq<Option<nat>>, p: nat, k: nat)
    requires IsTable(t) && p <= k < |t| && t[k].Some?
    ensures exists i :: 0 <= i < |SpansFrom(t, p)| && SpansFrom(t, p)[i].start <= k < SpansFrom(t, p)[i].end
    decreases |t| - p
  {
    FirstFromNone(t, p);
    var sp := FirstFrom(t, p).value;
    FirstFromIsLeftmost(t, p);
    FirstFromIsMatch(t, p);
    var r := SpansFrom(t, p);
    assert r[0] == sp;
    if sp.end <= k {
      MatchesCovered(t, sp.end, k);
      var i :| 0 <= i < |SpansFrom(t, sp.end)| && SpansFrom(t, sp.end)[i].start <= k < SpansFrom(t, sp.end)[i].end;
      assert r[i + 1] == SpansFrom(t, sp.end)[i];
    }
  }

  /** `s.match(new RegExp(AMOUNT_REGEX.source, "g")) || []`: the texts of all matches, left to right. */
  function MatchAll(s: string): seq<string> {
    var spans := SpansFrom(Matches(s), 0);
    seq(|spans|, k requires 0 <= k < |spans| => s[spans[k].start..spans[k].end])
  }

  /** Every match of `s` starts inside one of the spans of the global match: no match is missed unless it overlaps one taken before it. */
  lemma {:induction false} GlobalMatchMissesNothing(s: string, k: nat)
    requires k <= |s| && MatchAt(s, k).Some?
    ensures var r := SpansFrom(Matches(s), 0);
      exists i :: 0 <= i < |r| && r[i].start <= k < r[i].end
  {
    MatchTableAt(s, k);
    MatchesCovered(Matches(s), 0, k);
  }

  /** The global match finds something exactly when the plain match does, and its first token is the plain match's. */
  lemma {:induction false} MatchAllStartsWithFirstMatch(s: string)
    ensures |MatchAll(s)| > 0 <==> FirstMatch(s).Some?
    ensures |MatchAll(s)| > 0 ==> MatchAll(s)[0] == FirstMatch(s).value
  {
    SpansAreMatches(Matches(s), 0);
  }
}
