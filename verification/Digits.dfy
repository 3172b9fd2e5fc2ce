/** Numbers as text: get_digit, char_digit and the digit loops of formatter
    (src/printf.c). */
module Digits {
  import opened Numbers
  import opened Division

  // The low `k` bits of `x`.
  function LowBits(x: nat, k: nat): nat
  {
    if k == 0 then 0 else x % 2 + 2 * LowBits(x / 2, k - 1)
  }

  lemma {:induction false} SplitBits(x: nat, k: nat)
    ensures x == ShiftRight(x, k) * Pow2(k) + LowBits(x, k) && LowBits(x, k) < Pow2(k)
  {
    if k > 0 {
      SplitBits(x / 2, k - 1);
      SplitOneMore(x, x / 2, x % 2, ShiftRight(x / 2, k - 1), Pow2(k - 1), LowBits(x / 2, k - 1));
    }
  }

  lemma SplitOneMore(x: nat, h: nat, b: nat, s: nat, p: nat, low: nat)
    requires x == 2 * h + b && h == s * p + low
    ensures x == s * (2 * p) + (b + 2 * low)
  {
    assert s * (2 * p) == 2 * (s * p);
  }

  /** One digit off the low end of `n`; the in/out parameter comes back as `rest`. The
      shift-and-mask cases agree with the general one. */
  method GetDigit(n: uint64, d: uint32) returns (rest: uint64, digit: uint32)
    requires d != 0
    ensures rest == n / d && digit == n % d
  {
    match d {
      case 2 =>
        Power(n, 1);
        digit, rest := LowBits(n, 1), ShiftRight(n, 1);
      case 8 =>
        Power(n, 3);
        digit, rest := LowBits(n, 3), ShiftRight(n, 3);
      case 16 =>
        Power(n, 4);
        digit, rest := LowBits(n, 4), ShiftRight(n, 4);
      case _ =>
        rest, digit := Umoddiv32(n, d);
    }
  }

  lemma Power(n: nat, k: nat)
    ensures LowBits(n, k) == n % Pow2(k) && ShiftRight(n, k) == n / Pow2(k)
    ensures Pow2(1) == 2 && Pow2(3) == 8 && Pow2(4) == 16
  {
    SplitBits(n, k);
    DivUnique(n, Pow2(k), ShiftRight(n, k), LowBits(n, k));
    assert Pow2(2) == 4;
  }

  // ------------------------------------------------------------------ numerals

  /** char_digit: 0..9, then letters from `a` on. */
  function CharDigit(c: nat, a: char): (r: char)
    requires c < 36 && (a == 'a' || a == 'A')
    ensures r != '\0'
  {
    if c > 9 then (c + a as nat - 10) as char else (c + '0' as nat) as char
  }

  /** The digit a character stands for. */
  function DigitValue(r: char): nat
  {
    if '0' <= r <= '9' then r as nat - '0' as nat
    else if 'a' <= r <= 'z' then r as nat - 'a' as nat + 10
    else if 'A' <= r <= 'Z' then r as nat - 'A' as nat + 10
    else 0
  }

  /** The number a digit string denotes. */
  function Denotes(s: string, base: nat): nat
  {
    if s == [] then 0 else Denotes(s[..|s| - 1], base) * base + DigitValue(s[|s| - 1])
  }

  /** How many digits `v` needs in `base`; none for zero. */
  function Length(v: nat, base: nat): nat
    requires base >= 2
  {
    if v == 0 then 0 else 1 + Length(v / base, base)
  }

  /** The last `n` digits of `v`. */
  function Numeral(v: nat, base: nat, n: nat, a: char): (s: string)
    requires 2 <= base <= 16 && (a == 'a' || a == 'A')
    ensures |s| == n
    decreases n
  {
    if n == 0 then [] else Numeral(v / base, base, n - 1, a) + [CharDigit(v % base, a)]
  }

  /** What %d, %u, %x, %o, %b and %p show of a magnitude: as many digits as it needs, at
      least `precision`, and at least one. */
  function Shown(v: nat, base: nat, precision: nat, a: char): string
    requires 2 <= base <= 16 && (a == 'a' || a == 'A')
  {
    Numeral(v, base, Max(Max(precision, Length(v, base)), 1), a)
  }

  lemma CharDigitValue(c: nat, a: char)
    requires c < 16 && (a == 'a' || a == 'A')
    ensures DigitValue(CharDigit(c, a)) == c
  {
  }

  lemma DenotesSnoc(s: string, c: char, base: nat)
    ensures Denotes(s + [c], base) == Denotes(s, base) * base + DigitValue(c)
  {
    assert (s + [c])[..|s|] == s;
  }

  lemma NumeralStep(v: nat, base: nat, n: nat, a: char) returns (q: nat, r: nat)
    requires 2 <= base <= 16 && (a == 'a' || a == 'A') && n > 0
    ensures r < base && q * base + r == v
    ensures Numeral(v, base, n, a) == Numeral(q, base, n - 1, a) + [CharDigit(r, a)]
    ensures Length(v, base) <= n ==> Length(q, base) <= n - 1
    ensures v > 0 ==> q < v && Length(v, base) == 1 + Length(q, base)
  {
    q, r := v / base, v % base;
    DivMod(v, base);
    LengthStep(v, base);
  }

  lemma NumeralSnoc(t: string, q: nat, r: nat, v: nat, base: nat, a: char)
    requires r < base <= 16 && (a == 'a' || a == 'A') && q * base + r == v && Denotes(t, base) == q
    ensures Denotes(t + [CharDigit(r, a)], base) == v
  {
    CharDigitValue(r, a);
    DenotesSnoc(t, CharDigit(r, a), base);
  }

  /** A numeral with enough digits denotes its number. */
  lemma {:induction false} NumeralDenotes(v: nat, base: nat, n: nat, a: char)
    requires 2 <= base <= 16 && (a == 'a' || a == 'A') && Length(v, base) <= n
    ensures Denotes(Numeral(v, base, n, a), base) == v
    decreases n
  {
    if n > 0 {
      var q, r := NumeralStep(v, base, n, a);
      NumeralDenotes(q, base, n - 1, a);
      NumeralSnoc(Numeral(q, base, n - 1, a), q, r, v, base, a);
    }
  }

  /** The digits shown denote exactly `v`, and number max(precision, needed, 1). */
  lemma ShownDenotes(v: nat, base: nat, precision: nat, a: char)
    requires 2 <= base <= 16 && (a == 'a' || a == 'A')
    ensures Denotes(Shown(v, base, precision, a), base) == v
    ensures |Shown(v, base, precision, a)| == Max(Max(precision, Length(v, base)), 1)
  {
    NumeralDenotes(v, base, Max(Max(precision, Length(v, base)), 1), a);
  }

  /** A 64-bit number needs at most 64 digits in any base. */
  lemma {:induction false} LengthBound(v: nat, base: nat, k: nat)
    requires base >= 2 && v < Pow2(k)
    ensures Length(v, base) <= k
    decreases k
  {
    if v > 0 {
      DivMod(v, base);
      MulMono(v / base, 2, base);
      LengthBound(v / base, base, k - 1);
    }
  }

  // sizeof(digits)
  const BUFFER: nat := 68

  /** `digits` holds the end of the text `whole`, from `start` on; what is missing in
      front of it is the numeral of `v`, of `left` digits. */
  ghost predicate Partial(digits: array<char>, start: nat, v: nat, base: nat, left: nat, a: char, whole: string)
    requires 2 <= base <= 16 && (a == 'a' || a == 'A')
    reads digits
  {
    && digits.Length == BUFFER && start < BUFFER && digits[BUFFER - 1] == '\0'
    && Numeral(v, base, left, a) + digits[start..BUFFER - 1] == whole
  }

  // One more digit goes in front of those already there.
  method PutDigit(digits: array<char>, v: uint64, base: uint32, a: char, start: nat, ghost left: nat,
                  ghost whole: string)
    returns (rest: uint64)
    requires 2 <= base <= 16 && (a == 'a' || a == 'A')
    requires 0 < left && 0 < start && Partial(digits, start, v, base, left, a, whole)
    modifies digits
    ensures rest == v / base && Partial(digits, start - 1, rest, base, left - 1, a, whole)
  {
    var digit;
    rest, digit := GetDigit(v, base);
    ghost var tail := digits[start..BUFFER - 1];
    digits[start - 1] := CharDigit(digit, a);
    assert digits[start - 1..BUFFER - 1] == [CharDigit(digit, a)] + tail;
    assert Numeral(v, base, left, a) + tail
        == Numeral(rest, base, left - 1, a) + ([CharDigit(digit, a)] + tail);
  }

  /** The digit loops (lines 300-312), filling `digits` from its end: `start` is where
      the text begins. The terminating NUL and every digit stay inside the buffer. */
  method Convert(digits: array<char>, v0: uint64, base: uint32, precision: nat, a: char) returns (start: nat)
    requires digits.Length == BUFFER && (base == 2 || base == 8 || base == 10 || base == 16)
    requires precision < BUFFER && (a == 'a' || a == 'A')
    modifies digits
    ensures start < BUFFER && digits[BUFFER - 1] == '\0'
    ensures digits[start..BUFFER - 1] == Shown(v0, base, precision, a)
  {
    LengthOf64(v0, base);
    ghost var whole := Shown(v0, base, precision, a);
    start := BUFFER - 1;
    digits[start] := '\0';
    assert digits[start..BUFFER - 1] == [];
    var v := PutPrecision(digits, v0, base, precision, a, Max(Max(precision, Length(v0, base)), 1), whole);
    start := start - precision;
    if precision == 0 && v == 0 {
      PutZero(digits, base, a, start, whole);
      start := start - 1;
    }
    start := PutRest(digits, v, base, a, start, whole);
  }

  // The digits that the precision asks for, whatever the value.
  method PutPrecision(digits: array<char>, v0: uint64, base: uint32, precision: nat, a: char, ghost total: nat,
                      ghost whole: string)
    returns (v: uint64)
    requires 2 <= base <= 16 && (a == 'a' || a == 'A') && precision < BUFFER
    requires precision <= total && Partial(digits, BUFFER - 1, v0, base, total, a, whole)
    modifies digits
    ensures Partial(digits, BUFFER - 1 - precision, v, base, total - precision, a, whole)
    ensures Length(v, base) == if Length(v0, base) < precision then 0 else Length(v0, base) - precision
    ensures precision == 0 ==> v == v0
  {
    v := v0;
    for i := 0 to precision
      invariant Length(v, base) == if Length(v0, base) < i then 0 else Length(v0, base) - i
      invariant Partial(digits, BUFFER - 1 - i, v, base, total - i, a, whole)
      invariant i == 0 ==> v == v0
    {
      LengthStep(v, base);
      v := PutDigit(digits, v, base, a, BUFFER - 1 - i, total - i, whole);
    }
  }

  // Zero without a precision still shows one digit.
  method PutZero(digits: array<char>, base: uint32, a: char, start: nat, ghost whole: string)
    requires 2 <= base <= 16 && (a == 'a' || a == 'A')
    requires 0 < start && Partial(digits, start, 0, base, 1, a, whole)
    modifies digits
    ensures Partial(digits, start - 1, 0, base, 0, a, whole)
  {
    ghost var tail := digits[start..BUFFER - 1];
    digits[start - 1] := '0';
    assert digits[start - 1..BUFFER - 1] == ['0'] + tail && ['0'] == Numeral(0, base, 1, a);
  }

  // The digits that the value needs beyond the precision.
  method PutRest(digits: array<char>, w: uint64, base: uint32, a: char, start0: nat, ghost whole: string)
    returns (start: nat)
    requires 2 <= base <= 16 && (a == 'a' || a == 'A')
    requires Partial(digits, start0, w, base, Length(w, base), a, whole) && Length(w, base) <= start0
    modifies digits
    ensures start == start0 - Length(w, base) && Partial(digits, start, 0, base, 0, a, whole)
  {
    var v: uint64 := w;
    start := start0;
    while v != 0
      invariant Length(v, base) <= start && start - Length(v, base) == start0 - Length(w, base)
      invariant Partial(digits, start, v, base, Length(v, base), a, whole)
      decreases v
    {
      LengthStep(v, base);
      v := PutDigit(digits, v, base, a, start, Length(v, base), whole);
      start := start - 1;
    }
  }

  lemma LengthStep(v: nat, base: nat)
    requires base >= 2
    ensures Length(v, base) == (if v == 0 then 0 else 1 + Length(v / base, base))
    ensures v > 0 ==> v / base < v
    ensures v == 0 ==> v / base == 0
  {
    DivMod(v, base);
    QuotientSmaller(v, base, v / base, v % base);
  }

  lemma QuotientSmaller(v: nat, base: nat, q: nat, r: nat)
    requires v == base * q + r && base >= 2
    ensures v > 0 ==> q < v
    ensures v == 0 ==> q == 0
  {
    MulMono(q, 2, base);
  }

  lemma LengthOf64(v: uint64, base: nat)
    requires base >= 2
    ensures Length(v, base) <= 64
  {
    Pow2Of32();
    Pow2Add(32, 32);
    LengthBound(v, base, 64);
  }
}
