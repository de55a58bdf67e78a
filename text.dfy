/** Optional values and results with an error, used by every module below. */
module Wrappers {

  datatype Option<+T> = None | Some(value: T)

  datatype Result<+T, +E> = Success(value: T) | Failure(error: E)
}

/**
  The string primitives the Go code takes from `strings`, `strconv` and `fmt`,
  over `seq<char>`: ASCII digit runs (`\d` in Go's regexp syntax), decimal
  rendering (`%d`), `strings.TrimSpace`, `strings.HasPrefix`/`TrimPrefix`,
  `strings.Contains` and lower-casing.
*/
module Text {

  // ---------------------------------------------------------------------------
  // Digits and decimal numbers
  // ---------------------------------------------------------------------------

  /** `\d` in Go's regexp syntax: the ASCII digits only. */
  predicate IsDigit(c: char) {
    '0' <= c <= '9'
  }

  predicate AllDigits(s: string) {
    forall i :: 0 <= i < |s| ==> IsDigit(s[i])
  }

  function DigitValue(c: char): nat
    requires IsDigit(c)
  {
    (c as int) - ('0' as int)
  }

  function DigitChar(d: nat): (c: char)
    requires d < 10
    ensures IsDigit(c) && DigitValue(c) == d
  {
    (('0' as int) + d) as char
  }

  /**
    The value of a run of decimal digits, leading zeros allowed, as
    `strconv.Atoi` computes it for an unsigned digit string that fits.
  */
  function DigitsValue(s: string): nat
    requires AllDigits(s)
    decreases |s|
  {
    if s == [] then 0 else 10 * DigitsValue(s[..|s| - 1]) + DigitValue(s[|s| - 1])
  }

  /** The form `%d` writes: digits, and a leading '0' only in "0" itself. */
  predicate NoLeadingZero(s: string) {
    |s| > 0 && AllDigits(s) && (s[0] == '0' ==> |s| == 1)
  }

  /** `fmt.Sprintf("%d", n)` for a non-negative `n`. */
  function NatToString(n: nat): (s: string)
    ensures |s| > 0 && AllDigits(s)
    ensures DigitsValue(s) == n
    ensures NoLeadingZero(s)
    ensures s[0] == '0' <==> n == 0
    decreases n
  {
    if n < 10 then
      [DigitChar(n)]
    else
      var front := NatToString(n / 10);
      var s := front + [DigitChar(n % 10)];
      assert s[..|s| - 1] == front;
      assert s[0] == front[0];
      s
  }

  /** A digit string without a leading zero has a positive value unless it is "0". */
  lemma {:induction false} PositiveValue(s: string)
    requires NoLeadingZero(s) && s[0] != '0'
    ensures DigitsValue(s) > 0
    decreases |s|
  {
    if |s| > 1 {
      var front := s[..|s| - 1];
      assert front[0] == s[0];
      PositiveValue(front);
    }
  }

  /** `%d` is the only rendering without a leading zero: reading it and writing it back gives the same text. */
  lemma {:induction false} NatToStringOfValue(s: string)
    requires NoLeadingZero(s)
    ensures NatToString(DigitsValue(s)) == s
    decreases |s|
  {
    if |s| == 1 {
      assert s[..0] == [];
      assert NatToString(DigitsValue(s)) == [s[0]];
    } else {
      var front := s[..|s| - 1];
      assert front[0] == s[0];
      PositiveValue(front);
      NatToStringOfValue(front);
      var n := DigitsValue(s);
      assert n / 10 == DigitsValue(front) && n % 10 == DigitValue(s[|s| - 1]);
      assert s == front + [s[|s| - 1]];
    }
  }

  /** Length of the longest prefix of `s` made of digits (a greedy `\d*`). */
  function DigitRun(s: string): (n: nat)
    ensures n <= |s| && AllDigits(s[..n])
    ensures n < |s| ==> !IsDigit(s[n])
  {
    if s != [] && IsDigit(s[0]) then
      var m := DigitRun(s[1..]);
      assert s[..1 + m] == [s[0]] + s[1..][..m];
      1 + m
    else
      0
  }

  /** A digit run ends at the first character that is not a digit. */
  lemma {:induction false} DigitRunOfConcat(d: string, t: string)
    requires AllDigits(d)
    requires t == [] || !IsDigit(t[0])
    ensures DigitRun(d + t) == |d|
    decreases |d|
  {
    if d == [] {
      assert d + t == t;
    } else {
      assert (d + t)[1..] == d[1..] + t;
      DigitRunOfConcat(d[1..], t);
    }
  }

  // ---------------------------------------------------------------------------
  // White space and trimming
  // ---------------------------------------------------------------------------

  /**
    `unicode.IsSpace`: the six ASCII spaces, U+0085 and U+00A0 in Latin-1, and
    the other characters with the Unicode White_Space property.
  */
  predicate IsSpace(c: char) {
    c == ' ' || c == '\t' || c == '\n' || c == '\r' || c == '\U{0B}' || c == '\U{0C}'
    || c == '\U{85}' || c == '\U{A0}' || c == '\U{1680}'
    || ('\U{2000}' <= c <= '\U{200A}')
    || c == '\U{2028}' || c == '\U{2029}' || c == '\U{202F}' || c == '\U{205F}' || c == '\U{3000}'
  }

  predicate AllSpace(s: string) {
    forall i :: 0 <= i < |s| ==> IsSpace(s[i])
  }

  /** Neither end of `s` is white space. */
  predicate Trimmed(s: string) {
    s == [] || (!IsSpace(s[0]) && !IsSpace(s[|s| - 1]))
  }

  function TrimLeftSpace(s: string): (r: string)
    ensures |r| <= |s| && r == s[|s| - |r|..]
    ensures AllSpace(s[..|s| - |r|])
    ensures r == [] || !IsSpace(r[0])
  {
    if s != [] && IsSpace(s[0]) then
      var r := TrimLeftSpace(s[1..]);
      assert s[..|s| - |r|] == [s[0]] + s[1..][..|s[1..]| - |r|];
      r
    else
      s
  }

  function TrimRightSpace(s: string): (r: string)
    ensures |r| <= |s| && r == s[..|r|]
    ensures AllSpace(s[|r|..])
    ensures r == [] || !IsSpace(r[|r| - 1])
  {
    if s != [] && IsSpace(s[|s| - 1]) then
      var t := s[..|s| - 1];
      var r := TrimRightSpace(t);
      forall j | 0 <= j < |s| - |r|
        ensures IsSpace(s[|r|..][j])
      {
        if |r| + j < |t| {
          assert s[|r|..][j] == t[|r|..][j];
        }
      }
      r
    else
      s
  }

  /** `strings.TrimSpace`: the middle of `s` without white space at either end. */
  function TrimSpace(s: string): (r: string)
    ensures Trimmed(r) && |r| <= |s|
  {
    TrimRightSpace(TrimLeftSpace(s))
  }

  lemma {:induction false} TrimLeftOfPadded(p: string, t: string)
    requires AllSpace(p)
    requires t == [] || !IsSpace(t[0])
    ensures TrimLeftSpace(p + t) == t
    decreases |p|
  {
    if p == [] {
      assert p + t == t;
    } else {
      assert (p + t)[1..] == p[1..] + t;
      TrimLeftOfPadded(p[1..], t);
    }
  }

  lemma {:induction false} TrimRightOfPadded(t: string, q: string)
    requires AllSpace(q)
    requires t == [] || !IsSpace(t[|t| - 1])
    ensures TrimRightSpace(t + q) == t
    decreases |q|
  {
    if q == [] {
      assert t + q == t;
    } else {
      assert (t + q)[..|t + q| - 1] == t + q[..|q| - 1];
      TrimRightOfPadded(t, q[..|q| - 1]);
    }
  }

  /** Trimming removes exactly the white space around a trimmed core. */
  lemma TrimSpaceOfPadded(p: string, t: string, q: string)
    requires AllSpace(p) && AllSpace(q) && Trimmed(t)
    ensures TrimSpace(p + t + q) == t
  {
    if t == [] {
      assert p + t + q == p + q;
      TrimLeftOfPadded(p + q, []);
      assert p + q + [] == p + q;
    } else {
      assert p + t + q == p + (t + q);
      TrimLeftOfPadded(p, t + q);
      TrimRightOfPadded(t, q);
    }
  }

  /** Trimming leaves a string with no white space at either end alone. */
  lemma TrimSpaceOfTrimmed(t: string)
    requires Trimmed(t)
    ensures TrimSpace(t) == t
  {
    if t != [] {
      assert TrimLeftSpace(t) == t;
    }
  }

  /** Every string is its trimmed middle with white space on either side. */
  lemma TrimCore(x: string) returns (a: nat, b: nat)
    ensures a <= b <= |x| && x[a..b] == TrimSpace(x)
    ensures AllSpace(x[..a]) && AllSpace(x[b..])
  {
    var l := TrimLeftSpace(x);
    var t := TrimRightSpace(l);
    a := |x| - |l|;
    b := a + |t|;
    assert l == x[a..];
    assert l[|t|..] == x[b..];
  }

  lemma SplitThree<T>(s: seq<T>, a: int, b: int)
    requires 0 <= a <= b <= |s|
    ensures s == s[..a] + s[a..b] + s[b..]
  {
  }

  // ---------------------------------------------------------------------------
  // Prefixes, substrings, case
  // ---------------------------------------------------------------------------

  /** `strings.HasPrefix`. */
  predicate HasPrefix(s: string, prefix: string) {
    |prefix| <= |s| && s[..|prefix|] == prefix
  }

  /** `strings.TrimPrefix`: drops `prefix` once when `s` starts with it. */
  function TrimPrefix(s: string, prefix: string): (r: string)
    ensures HasPrefix(s, prefix) ==> prefix + r == s
    ensures !HasPrefix(s, prefix) ==> r == s
  {
    if HasPrefix(s, prefix) then s[|prefix|..] else s
  }

  /** `sub` occurs in `s` starting at index `i`. */
  predicate OccursAt(s: string, sub: string, i: int) {
    0 <= i <= |s| - |sub| && s[i..i + |sub|] == sub
  }

  /** `strings.Contains`. */
  predicate Contains(s: string, sub: string) {
    exists i | 0 <= i <= |s| - |sub| :: OccursAt(s, sub, i)
  }

  lemma ContainsMiddle(a: string, b: string, c: string)
    ensures Contains(a + b + c, b)
  {
    assert OccursAt(a + b + c, b, |a|);
  }

  /**
    An ASCII capital becomes the small letter at the same place in the
    alphabet; every other character is left alone.
  */
  function LowerChar(c: char): (r: char)
    ensures 'A' <= c <= 'Z' ==> 'a' <= r <= 'z' && r as int - 'a' as int == c as int - 'A' as int
    ensures !('A' <= c <= 'Z') ==> r == c
  {
    if 'A' <= c <= 'Z' then ((c as int) + 32) as char else c
  }

  /** The characters that lower-case to a small letter are that letter and its capital. */
  lemma LowerCharTo(c: char, d: char)
    requires 'a' <= d <= 'z'
    ensures LowerChar(c) == d <==> c == d || c as int - 'A' as int == d as int - 'a' as int
  {
  }

  /**
    Lower-casing of the ASCII letters. `strings.ToLower` also maps the other
    Unicode upper-case letters; none of them maps to an ASCII letter except
    KELVIN SIGN and LATIN CAPITAL LETTER I WITH DOT ABOVE, which do not matter
    where this is used (comparing against "y" and "yes").
  */
  function ToLower(s: string): (r: string)
    ensures |r| == |s|
    ensures forall i :: 0 <= i < |s| ==> r[i] == LowerChar(s[i])
  {
    seq(|s|, i requires 0 <= i < |s| => LowerChar(s[i]))
  }

  lemma LowerSlices(s: string, a: int, b: int)
    requires 0 <= a <= b <= |s|
    ensures ToLower(s[..a]) == ToLower(s)[..a]
    ensures ToLower(s[a..b]) == ToLower(s)[a..b]
    ensures ToLower(s[b..]) == ToLower(s)[b..]
  {
  }

  /** Lower-casing never turns a character into white space. */
  lemma SpaceOfLower(s: string)
    requires AllSpace(ToLower(s))
    ensures AllSpace(s)
  {
    forall i | 0 <= i < |s|
      ensures IsSpace(s[i])
    {
      assert IsSpace(ToLower(s)[i]);
    }
  }
}
