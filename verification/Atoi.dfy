/** atoi (src/atoi.c), which reads the decimal numbers that the formatter writes. */
module Atoi {
  import opened Text
  import opened Digits

  const INT_MAX: int := 0x7FFF_FFFF
  const INT_MIN: int := -0x8000_0000

  type int32 = x: int | -0x8000_0000 <= x < 0x8000_0000

  function SkipSpaces(s: string): string
  {
    if s != [] && IsSpace(s[0]) then SkipSpaces(s[1..]) else s
  }

  function DigitPrefix(s: string): (r: string)
    ensures |r| <= |s| && r == s[..|r|]
    ensures forall i :: 0 <= i < |r| ==> IsDigit(r[i])
    ensures |r| < |s| ==> !IsDigit(s[|r|])
  {
    if s != [] && IsDigit(s[0]) then [s[0]] + DigitPrefix(s[1..]) else []
  }

  /** The magnitude that atoi accumulates. */
  function Magnitude(s: string): nat
  {
    var t := SkipSpaces(s);
    Denotes(DigitPrefix(if t != [] && t[0] == '-' then t[1..] else t), 10)
  }

  function Negative(s: string): bool
  {
    var t := SkipSpaces(s);
    t != [] && t[0] == '-'
  }

  /** The number a string shows: spaces, at most one '-', decimal digits. */
  function Parsed(s: string): int {
    if Negative(s) then 0 - Magnitude(s) else Magnitude(s)
  }

  lemma {:induction false} PrefixDenotes(s: string, n: nat)
    requires n <= |s|
    ensures Denotes(s[..n], 10) <= Denotes(s, 10)
    decreases |s|
  {
    if n < |s| {
      PrefixDenotes(s[..|s| - 1], n);
      assert s[..|s| - 1][..n] == s[..n];
    } else {
      assert s[..n] == s;
    }
  }

  // The first loop: how far the leading white space goes.
  method PassSpaces(s: cstring) returns (i: nat)
    ensures i <= |s| && s[i..] == SkipSpaces(s)
  {
    i := 0;
    while Peek(s, i) != '\0' && IsSpace(Peek(s, i))
      invariant i <= |s| && SkipSpaces(s[i..]) == SkipSpaces(s)
      decreases |s| - i
    {
      assert s[i..][1..] == s[i + 1..];
      i := i + 1;
    }
  }

  lemma PrefixEnds(t: string, n: nat)
    requires n <= |DigitPrefix(t)|
    ensures n < |t| ==> (IsDigit(t[n]) <==> n < |DigitPrefix(t)|)
    ensures n == |t| ==> n == |DigitPrefix(t)|
  {
  }

  lemma OneMoreDigit(digits: string, n: nat)
    requires n < |digits| && IsDigit(digits[n])
    ensures Denotes(digits[..n], 10) * 10 + (digits[n] as int - '0' as int) == Denotes(digits[..n + 1], 10)
    ensures Denotes(digits[..n + 1], 10) <= Denotes(digits, 10)
  {
    PrefixDenotes(digits, n + 1);
    assert digits[..n + 1][..n] == digits[..n];
  }

  // The second loop: digits are taken in, most significant first, until another character.
  method Accumulate(s: cstring, start: nat) returns (result: int32)
    requires start <= |s| && Denotes(DigitPrefix(s[start..]), 10) <= INT_MAX
    ensures result == Denotes(DigitPrefix(s[start..]), 10)
  {
    result := 0;
    var i := start;
    ghost var t := s[start..];
    ghost var digits := DigitPrefix(t);
    while IsDigit(Peek(s, i))
      invariant start <= i <= |s| && i - start <= |digits|
      invariant result == Denotes(digits[..i - start], 10)
      decreases |s| - i
    {
      PrefixEnds(t, i - start);
      OneMoreDigit(digits, i - start);
      result := result * 10 + (Peek(s, i) as int - '0' as int);
      i := i + 1;
    }
    PrefixEnds(t, i - start);
    assert digits[..i - start] == digits;
  }

  /** The accumulator is an `int`; it never overflows when the magnitude fits. */
  method Atoi(s: cstring) returns (r: int32)
    requires Magnitude(s) <= INT_MAX
    ensures r == Parsed(s)
  {
    var i := PassSpaces(s);
    var minus := Peek(s, i) == '-';
    if minus {
      i := i + 1;
    }
    var result := Accumulate(s, i);
    r := if minus then -result else result;
  }
}
