/**
 * The string primitives of ECMAScript that the receipt-amount extractor relies on:
 * `String.prototype.trim`, `String.prototype.split` with a one-character separator,
 * the `\s` and `\w` character classes of regular expressions, and the ASCII case
 * folding of a non-Unicode `/i` regular expression.
 */
module JsText {

  /** A decimal digit, the class `\d` of a regular expression without the `u` flag. */
  predicate IsDigit(c: char) {
    '0' <= c <= '9'
  }

  /** A word character, the class `\w`: ASCII letters, digits and the underscore. */
  predicate IsWordChar(c: char) {
    ('a' <= c <= 'z') || ('A' <= c <= 'Z') || IsDigit(c) || c == '_'
  }

  /**
   * The WhiteSpace and LineTerminator code points of ECMAScript: what `trim`
   * removes and what `\s` matches (tab, vertical tab, form feed, space,
   * no-break space, byte-order mark, the Unicode space separators, and the
   * line terminators LF, CR, U+2028 and U+2029).
   */
  predicate IsJsSpace(c: char) {
    var n := c as int;
    n == 0x09 || n == 0x0A || n == 0x0B || n == 0x0C || n == 0x0D || n == 0x20 ||
    n == 0xA0 || n == 0x1680 || (0x2000 <= n <= 0x200A) || n == 0x2028 || n == 0x2029 ||
    n == 0x202F || n == 0x205F || n == 0x3000 || n == 0xFEFF
  }

  predicate AllDigits(s: string) {
    forall k :: 0 <= k < |s| ==> IsDigit(s[k])
  }

  /** `s.replace(/[^\d]/g, "")`: the digits of `s`, in order. */
  function DigitsOf(s: string): (d: string)
    ensures AllDigits(d) && |d| <= |s|
  {
    if s == [] then [] else (if IsDigit(s[0]) then [s[0]] else []) + DigitsOf(s[1..])
  }

  lemma {:induction false} DigitsOfAppend(a: string, b: string)
    ensures DigitsOf(a + b) == DigitsOf(a) + DigitsOf(b)
    decreases |a|
  {
    if a != [] {
      assert (a + b)[1..] == a[1..] + b;
      DigitsOfAppend(a[1..], b);
    } else {
      assert a + b == b;
    }
  }

  /** The digit string holds exactly the digits of `s`: every non-digit is dropped, and no digit is lost. */
  lemma {:induction false} DigitsOfKeepsDigits(s: string)
    ensures forall c :: c in DigitsOf(s) <==> c in s && IsDigit(c)
    decreases |s|
  {
    if s != [] {
      DigitsOfKeepsDigits(s[1..]);
      assert s == [s[0]] + s[1..];
      forall c ensures c in s <==> c == s[0] || c in s[1..] {
        assert c in s[1..] ==> c in s;
      }
    }
  }

  /** A string made of digits only is its own digit string. */
  lemma {:induction false} DigitsOfDigits(s: string)
    requires AllDigits(s)
    ensures DigitsOf(s) == s
    decreases |s|
  {
    if s != [] { DigitsOfDigits(s[1..]); }
  }

  predicate AllSpace(s: string) {
    forall k :: 0 <= k < |s| ==> IsJsSpace(s[k])
  }

  /** The upper-case form of an ASCII letter; every other character is left alone. */
  function AsciiUpper(c: char): (u: char)
    ensures 'A' <= u <= 'Z' <==> ('a' <= c <= 'z' || 'A' <= c <= 'Z')
    ensures 'A' <= u <= 'Z' ==> c == u || c as int == u as int + 32
    ensures !('a' <= c <= 'z' || 'A' <= c <= 'Z') ==> u == c
  {
    if 'a' <= c <= 'z' then (c as int - 32) as char else c
  }

  /**
   * `pat` (written in upper case) occurs at offset `i` of `s`, letters compared
   * without regard to case. Without the `u` flag, `/i` canonicalizes with
   * `toUpperCase` but never maps a non-ASCII character onto an ASCII one, so for
   * an ASCII pattern this is exactly ASCII case folding.
   */
  predicate MatchesAt(s: string, i: nat, pat: string) {
    i + |pat| <= |s| && forall k :: 0 <= k < |pat| ==> AsciiUpper(s[i + k]) == pat[k]
  }

  /** `new RegExp(pat, "i").test(s)` for a pattern made of ASCII letters. */
  predicate ContainsIgnoringCase(s: string, pat: string) {
    exists i :: 0 <= i <= |s| - |pat| && MatchesAt(s, i, pat)
  }

  /** `s` after removing leading WhiteSpace and LineTerminator characters. */
  function TrimStart(s: string): (r: string)
    ensures |r| <= |s|
    ensures r == [] || !IsJsSpace(r[0])
  {
    if s != [] && IsJsSpace(s[0]) then TrimStart(s[1..]) else s
  }

  /** `TrimStart` drops a prefix made only of space characters. */
  lemma {:induction false} TrimStartDropsSpace(s: string)
    ensures var r := TrimStart(s); r == s[|s| - |r|..] && AllSpace(s[..|s| - |r|])
  {
    if s != [] && IsJsSpace(s[0]) {
      TrimStartDropsSpace(s[1..]);
      var r := TrimStart(s[1..]);
      assert s[1..][..|s[1..]| - |r|] == s[1..|s| - |r|];
    }
  }

  /** `s` after removing trailing WhiteSpace and LineTerminator characters. */
  function TrimEnd(s: string): (r: string)
    ensures |r| <= |s|
    ensures r == [] || (r[0] == s[0] && !IsJsSpace(r[|r| - 1]))
  {
    if s != [] && IsJsSpace(s[|s| - 1]) then TrimEnd(s[..|s| - 1]) else s
  }

  /** `TrimEnd` drops a suffix made only of space characters. */
  lemma {:induction false} TrimEndDropsSpace(s: string)
    ensures var r := TrimEnd(s); r == s[..|r|] && AllSpace(s[|r|..])
  {
    if s != [] && IsJsSpace(s[|s| - 1]) {
      TrimEndDropsSpace(s[..|s| - 1]);
      var r := TrimEnd(s[..|s| - 1]);
      assert s[..|s| - 1][|r|..] + [s[|s| - 1]] == s[|r|..];
    }
  }

  /**
   * `String.prototype.trim`: the infix of `s` left after dropping the maximal
   * run of space characters at each end.
   */
  function Trim(s: string): (r: string)
    ensures |r| <= |s|
    ensures r == [] || (!IsJsSpace(r[0]) && !IsJsSpace(r[|r| - 1]))
  {
    TrimEnd(TrimStart(s))
  }

  /** A prefix `r` of a suffix `t` of `s` sits in `s` right where `t` starts. */
  lemma {:induction false} PrefixOfSuffix(s: string, t: string, r: string)
    requires |t| <= |s| && t == s[|s| - |t|..]
    requires |r| <= |t| && r == t[..|r|]
    ensures var i := |s| - |t|; r == s[i..i + |r|] && t[|r|..] == s[i + |r|..]
  {
  }

  /** What `trim` leaves is an infix of `s`, starting where `TrimStart` cut, with only space characters around it. */
  lemma {:induction false} TrimIsInfix(s: string)
    ensures var i, r := |s| - |TrimStart(s)|, Trim(s);
      i + |r| <= |s| && r == s[i..i + |r|] && AllSpace(s[..i]) && AllSpace(s[i + |r|..])
  {
    var t := TrimStart(s);
    TrimStartDropsSpace(s);
    TrimEndDropsSpace(t);
    PrefixOfSuffix(s, t, TrimEnd(t));
  }

  /** The index of the first occurrence of `c` in `s`. */
  function IndexOf(s: string, c: char): (i: nat)
    requires c in s
    ensures i < |s| && s[i] == c && c !in s[..i]
  {
    if s[0] == c then 0 else
      var i := IndexOf(s[1..], c);
      assert s[..i + 1] == [s[0]] + s[1..][..i];
      i + 1
  }

  /** The inverse of `split`: the pieces with `sep` between each two of them. */
  function Join(pieces: seq<string>, sep: char): string
    requires |pieces| >= 1
  {
    if |pieces| == 1 then pieces[0] else pieces[0] + [sep] + Join(pieces[1..], sep)
  }

  /**
   * `s.split(sep)` for a one-character separator: the pieces between
   * occurrences of `sep`, in order, empty pieces included (`"".split(sep)` is `[""]`).
   */
  function Split(s: string, sep: char): (pieces: seq<string>)
    ensures |pieces| >= 1
    ensures forall k :: 0 <= k < |pieces| ==> sep !in pieces[k]
    ensures Join(pieces, sep) == s
    decreases |s|
  {
    if sep !in s then [s] else
      var i := IndexOf(s, sep);
      var rest := Split(s[i + 1..], sep);
      assert s == s[..i] + [sep] + s[i + 1..];
      [s[..i]] + rest
  }

  /** The pieces that `split` returns are the only separator-free pieces that join back to `s`. */
  lemma {:induction false} SplitUnique(s: string, sep: char, pieces: seq<string>)
    requires |pieces| >= 1
    requires forall k :: 0 <= k < |pieces| ==> sep !in pieces[k]
    requires Join(pieces, sep) == s
    ensures pieces == Split(s, sep)
    decreases |pieces|
  {
    if |pieces| == 1 {
      assert sep !in s;
    } else {
      var tail := Join(pieces[1..], sep);
      assert s == pieces[0] + [sep] + tail;
      assert s[|pieces[0]|] == sep;
      assert sep in s;
      var i := IndexOf(s, sep);
      assert s[..|pieces[0]|] == pieces[0];
      assert i == |pieces[0]|;
      assert s[i + 1..] == tail;
      SplitUnique(tail, sep, pieces[1..]);
      assert s[..i] == pieces[0];
    }
  }

  lemma {:induction false} JoinAppend(a: seq<string>, b: seq<string>, sep: char)
    requires |a| >= 1 && |b| >= 1
    ensures Join(a + b, sep) == Join(a, sep) + [sep] + Join(b, sep)
    decreases |a|
  {
    if |a| == 1 {
      assert (a + b)[1..] == b;
    } else {
      assert (a + b)[1..] == a[1..] + b;
      JoinAppend(a[1..], b, sep);
    }
  }

  /** Splitting distributes over a separator: `(a + sep + b).split(sep)` is `a.split(sep)` followed by `b.split(sep)`. */
  lemma {:induction false} SplitAppend(a: string, b: string, sep: char)
    ensures Split(a + [sep] + b, sep) == Split(a, sep) + Split(b, sep)
  {
    var pa, pb := Split(a, sep), Split(b, sep);
    JoinAppend(pa, pb, sep);
    forall k | 0 <= k < |pa + pb| ensures sep !in (pa + pb)[k] {
      if k < |pa| { assert (pa + pb)[k] == pa[k]; } else { assert (pa + pb)[k] == pb[k - |pa|]; }
    }
    SplitUnique(a + [sep] + b, sep, pa + pb);
  }

  /** A string with no separator in it splits into itself alone. */
  lemma {:induction false} SplitNoSeparator(s: string, sep: char)
    requires sep !in s
    ensures Split(s, sep) == [s]
  {
  }

  /** Trimming leaves a string alone when neither end is a space character. */
  lemma {:induction false} TrimUnpadded(s: string)
    requires s == [] || (!IsJsSpace(s[0]) && !IsJsSpace(s[|s| - 1]))
    ensures Trim(s) == s
  {
  }
}
