/** 64-bit by 32-bit unsigned division from 32-bit operations
    (src/support/umoddiv.c): Knuth's long division on 16-bit digits. All values
    are 32-bit unless said otherwise, and every operation that can wrap is written
    with its `% TWO32`. A shift by `k` multiplies or divides by 2^k; an `|` of two
    operands with no common bit is a sum (see OrIsSum). */
module Division {

  const TWO16: nat := 0x1_0000
  const TWO31: nat := 0x8000_0000
  const TWO32: nat := 0x1_0000_0000

  type uint32 = x: int | 0 <= x < 0x1_0000_0000
  type uint64 = x: int | 0 <= x < 0x1_0000_0000_0000_0000

  /** A word shifted left by k and one shifted right by 32 - k share no bit. */
  lemma OrIsSum(x: bv32, y: bv32, k: bv6)
    requires 0 < k < 32
    ensures (x << k) | (y >> (32 - k)) == (x << k) + (y >> (32 - k))
  {
  }

  function Add32(a: uint32, b: uint32): (r: uint32)
    ensures r == (a + b) % TWO32
  {
    if a + b < TWO32 then a + b else a + b - TWO32
  }

  function Sub32(a: uint32, b: uint32): (r: uint32)
    ensures r == (a - b) % TWO32
  {
    if b <= a then a - b else a - b + TWO32
  }

  function Mul32(a: nat, b: nat): (r: uint32)
    ensures a * b < TWO32 ==> r == a * b
  {
    (a * b) % TWO32
  }

  // ------------------------------------------------------------ udiv_adjusted

  lemma MulMono(a: nat, x: nat, y: nat)
    requires x <= y
    ensures a * x <= a * y
  {
  }

  lemma DivMod(n: nat, d: nat)
    requires d > 0
    ensures n == d * (n / d) + n % d && n % d < d
  {
  }

  /** The trial quotient, by the top digit of the divisor alone, is at most
      2^16 + 1, and neither product of the step overflows. */
  lemma TrialQuotient(nHi: nat, dHi: nat, dLo: nat, q: nat)
    requires TWO16 / 2 <= dHi < TWO16 && dLo < TWO16
    requires nHi < dHi * TWO16 + dLo && q == nHi / dHi
    ensures q <= TWO16 + 1
    ensures q * dLo < TWO32 && q * dLo <= q * TWO16
    ensures q * dHi <= nHi && nHi - q * dHi < dHi
  {
    DivMod(nHi, dHi);
    if q >= TWO16 + 2 {
      MulMono(dHi, TWO16 + 2, q);
    }
    MulMono(dLo, q, TWO16 + 1);
    MulMono(q, dLo, TWO16);
  }

  /** q * d, split at the digits of d and of the remainder so far. */
  lemma TrialIdentity(nHi: nat, t: nat, dHi: nat, dLo: nat, q: nat)
    ensures nHi * TWO16 + t - q * (dHi * TWO16 + dLo) == (nHi - q * dHi) * TWO16 + t - q * dLo
  {
    assert q * (dHi * TWO16 + dLo) == q * (dHi * TWO16) + q * dLo;
    assert q * (dHi * TWO16) == (q * dHi) * TWO16;
  }

  /** The corrections (lines 83-92 and 102-111). At most two are needed. The first
      may carry `r` past 2^32; then, and only then, it reads as less than `d`, and
      no second correction is due. */
  method Correct(q0: uint32, r0: uint32, m: uint32, d: uint32) returns (q: uint32, r: uint32)
    requires d >= TWO31 && r0 < d && m <= q0 * TWO16
    ensures q0 - 2 <= q <= q0
    ensures r == r0 - m + (q0 - q) * d && r < d
  {
    q, r := q0, r0;
    if r < m {
      q := q - 1;
      r := Add32(r, d);
      if r >= d {
        if r < m {
          q := q - 1;
          r := Add32(r, d);
        }
      }
    }
    r := Sub32(r, m);
  }

  /** The trial quotient and the two numbers whose comparison judges it (lines
      77-80, and again 96-99). */
  method Trial(nHi: uint32, t: nat, d: uint32) returns (q: uint32, r: uint32, m: uint32)
    requires d >= TWO31 && nHi < d && t < TWO16
    ensures nHi * TWO16 + t - q * d == r - m
    ensures r < d && m <= q * TWO16
  {
    var dHi, dLo := d / TWO16, d % TWO16;
    q := nHi / dHi;
    TrialQuotient(nHi, dHi, dLo, q);
    TrialIdentity(nHi, t, dHi, dLo, q);
    var p := Mul32(q, dHi);
    m := Mul32(q, dLo);
    r := Sub32(nHi, p);
    r := Mul32(r, TWO16) + t;
  }

  /** One digit of the quotient (lines 77-92, and again 96-111). */
  method QuotientDigit(nHi: uint32, t: nat, d: uint32) returns (q: uint32, r: uint32)
    requires d >= TWO31 && nHi < d && t < TWO16
    ensures nHi * TWO16 + t == q * d + r && r < d
    ensures q < TWO16
  {
    var q0, r0, m := Trial(nHi, t, d);
    q, r := Correct(q0, r0, m, d);
    RedistributeDigit(q0, q, d);
    DigitFits(q, r, d, nHi * TWO16 + t);
  }

  lemma RedistributeDigit(q0: nat, q: nat, d: nat)
    ensures q0 * d == q * d + (q0 - q) * d
  {
  }

  lemma DigitFits(q: nat, r: nat, d: nat, exact: nat)
    requires exact == q * d + r && exact < d * TWO16
    ensures q < TWO16
  {
    if q >= TWO16 {
      MulMono(d, TWO16, q);
    }
  }

  /** Divides nHi * 2^32 + nLo by a divisor with its top bit set. */
  method UdivAdjusted(nHi: uint32, nLo: uint32, d: uint32) returns (q: uint32, r: uint32)
    requires d >= TWO31 && nHi < d
    ensures nHi * TWO32 + nLo == q * d + r && r < d
  {
    var qHi, rHi := QuotientDigit(nHi, nLo / TWO16, d);
    var qLo, rLo := QuotientDigit(rHi, nLo % TWO16, d);
    q := Mul32(qHi, TWO16) + qLo;
    r := rLo;
    TwoDigits(nHi, nLo / TWO16, nLo % TWO16, d, qHi, rHi, qLo, rLo);
  }

  lemma TwoDigits(n: nat, t1: nat, t0: nat, d: nat, qHi: nat, rHi: nat, qLo: nat, rLo: nat)
    requires n * TWO16 + t1 == qHi * d + rHi
    requires rHi * TWO16 + t0 == qLo * d + rLo
    ensures n * TWO32 + (t1 * TWO16 + t0) == (qHi * TWO16 + qLo) * d + rLo
  {
    assert (qHi * TWO16 + qLo) * d == (qHi * d) * TWO16 + qLo * d by {
      assert (qHi * TWO16) * d == (qHi * d) * TWO16;
    }
  }

  // ---------------------------------------------------------------- umoddiv32

  function Pow2(n: nat): (p: nat)
    ensures p > 0
  {
    if n == 0 then 1 else 2 * Pow2(n - 1)
  }

  /** stdc_leading_zerosui: 32 for zero, else the shift that sets the top bit. */
  function LeadingZeros(x: uint32): (n: nat)
    ensures n <= 32 && (n == 32 <==> x == 0)
    ensures x != 0 ==> TWO31 <= x * Pow2(n) < TWO32
  {
    if x == 0 then 32 else
      Pow2Of32();
      CountZeros(x, 0)
  }

  lemma Pow2Of32()
    ensures Pow2(16) == TWO16 && Pow2(32) == TWO32
  {
    assert Pow2(8) == 256;
    Pow2Add(8, 8);
    Pow2Add(16, 16);
  }

  lemma {:induction false} Pow2Add(m: nat, n: nat)
    ensures Pow2(m + n) == Pow2(m) * Pow2(n)
  {
    if m > 0 {
      Pow2Add(m - 1, n);
      Doubling(Pow2(n), Pow2(m - 1));
    }
  }

  function CountZeros(x: nat, n: nat): (r: nat)
    requires n < 32 && 0 < x * Pow2(n) < TWO32
    requires TWO32 <= x * Pow2(32)
    ensures n <= r < 32
    ensures TWO31 <= x * Pow2(r) < TWO32
    decreases 32 - n
  {
    var scaled := x * Pow2(n);
    if scaled >= TWO31 then n else
      assert x * Pow2(n + 1) == 2 * scaled by { Doubling(x, Pow2(n)); }
      CountZeros(x, n + 1)
  }

  lemma Doubling(x: nat, p: nat)
    ensures x * (2 * p) == 2 * (x * p)
  {
  }

  // Shifting left one bit at a time: what passes bit 31 is lost.
  function ShiftLeft(x: uint32, k: nat): uint32
    decreases k
  {
    if k == 0 then x else ShiftLeft(Add32(x, x), k - 1)
  }

  // Shifting right one bit at a time.
  function ShiftRight(x: nat, k: nat): (r: nat)
    ensures r <= x
  {
    if k == 0 then x else ShiftRight(x / 2, k - 1)
  }

  lemma {:induction false} ShiftRightDivides(x: nat, k: nat)
    ensures ShiftRight(x, k) == x / Pow2(k)
  {
    if k > 0 {
      ShiftRightDivides(x / 2, k - 1);
      HalveThenDivide(x, Pow2(k - 1));
    }
  }

  lemma HalveThenDivide(x: nat, p: nat)
    requires p > 0
    ensures (x / 2) / p == x / (2 * p)
  {
    var h := x / 2;
    DivMod(h, p);
    RegroupHalf(x, h, x % 2, p, h / p, h % p);
    DivUnique(x, 2 * p, h / p, 2 * (h % p) + x % 2);
  }

  lemma RegroupHalf(x: nat, h: nat, b: nat, p: nat, q: nat, r: nat)
    requires x == 2 * h + b && b < 2 && h == p * q + r && r < p
    ensures x == q * (2 * p) + (2 * r + b) && 2 * r + b < 2 * p
  {
    assert q * (2 * p) == 2 * (p * q);
  }

  lemma {:induction false} ShiftLeftMultiplies(x: uint32, k: nat) returns (lost: nat)
    ensures x * Pow2(k) == lost * TWO32 + ShiftLeft(x, k)
    decreases k
  {
    if k == 0 {
      lost := 0;
    } else {
      var y := Add32(x, x);
      var rest := ShiftLeftMultiplies(y, k - 1);
      var p := Pow2(k - 1);
      var carry := if 2 * x == y then 0 else 1;
      lost := rest + carry * p;
      ShiftOnce(x, p, y, carry, rest, ShiftLeft(x, k));
    }
  }

  lemma ShiftOnce(x: nat, p: nat, y: nat, carry: nat, rest: nat, r: nat)
    requires 2 * x == carry * TWO32 + y && y * p == rest * TWO32 + r
    ensures x * (2 * p) == (rest + carry * p) * TWO32 + r
  {
    assert x * (2 * p) == (2 * x) * p == (carry * TWO32 + y) * p == (carry * TWO32) * p + y * p;
    assert (carry * TWO32) * p == (carry * p) * TWO32;
  }

  lemma SplitProduct(x: nat, p: nat, q: nat)
    requires p > 0 && q > 0 && p * q == TWO32 && x < TWO32
    ensures x / q < p
    ensures (x % q) * p <= TWO32 - p
    ensures x * p == (x / q) * TWO32 + (x % q) * p
  {
    var t, low := x / q, x % q;
    DivMod(x, q);
    assert (q * t) * p == t * (p * q);
    assert x * p == (q * t + low) * p == (q * t) * p + low * p;
    MulMono(p, low, q - 1);
    assert p * (q - 1) == p * q - p;
    if t >= p {
      MulMono(q, p, t);
    }
  }

  /** Multiplying by 2^bm pushes the top bits out into `ShiftRight(x, 32 - bm)` and
      leaves the lowest bm bits clear. */
  lemma ShiftSplit(x: uint32, bm: nat)
    requires bm <= 32
    ensures x * Pow2(bm) == ShiftRight(x, 32 - bm) * TWO32 + ShiftLeft(x, bm)
    ensures ShiftLeft(x, bm) <= TWO32 - Pow2(bm)
    ensures ShiftRight(x, 32 - bm) < Pow2(bm)
  {
    var p, q := Pow2(bm), Pow2(32 - bm);
    Pow2Add(bm, 32 - bm);
    Pow2Of32();
    ShiftRightDivides(x, 32 - bm);
    var lost := ShiftLeftMultiplies(x, bm);
    SplitShifted(x, p, q, lost, ShiftLeft(x, bm));
  }

  lemma SplitShifted(x: nat, p: nat, q: nat, lost: nat, left: nat)
    requires p > 0 && q > 0 && p * q == TWO32 && x < TWO32
    requires x * p == lost * TWO32 + left && left < TWO32
    ensures lost == x / q < p && left <= TWO32 - p
  {
    SplitProduct(x, p, q);
    SameWord(lost, left, x / q, (x % q) * p);
  }

  lemma SameWord(k: nat, y: nat, l: nat, z: nat)
    requires k * TWO32 + y == l * TWO32 + z && y < TWO32 && z < TWO32
    ensures k == l && y == z
  {
  }

  lemma DivUnique(n: nat, d: nat, q: nat, r: nat)
    requires n == q * d + r && r < d
    ensures q == n / d && r == n % d
  {
    DivMod(n, d);
    var k := n / d;
    if q < k {
      MulMono(d, q + 1, k);
    } else if q > k {
      MulMono(d, k + 1, q);
    }
  }

  /** Dividing p times the dividend by p times the divisor: same quotient, and the
      remainder is p times too large. */
  lemma Unscale(n: nat, d: nat, p: nat, q: nat, r: nat)
    requires p > 0 && n * p == q * (d * p) + r && r < d * p
    ensures n == q * d + r / p && r / p < d
  {
    var k := n - q * d;
    assert k * p == n * p - q * (d * p);
    assert k >= 0;
    DivUnique(r, p, k, 0);
    if k >= d {
      MulMono(p, d, k);
    }
  }

  lemma ScaleWords(nHi: nat, nLo: nat, p: nat, a: nat, b: nat, c: nat, e: nat)
    requires nHi * p == a * TWO32 + b && nLo * p == c * TWO32 + e
    ensures (nHi * TWO32 + nLo) * p == (a * TWO32 + (b + c)) * TWO32 + e
  {
    assert (nHi * TWO32 + nLo) * p == (nHi * TWO32) * p + nLo * p;
    assert (nHi * TWO32) * p == (nHi * p) * TWO32;
  }

  /** Scaling the dividend by 2^bm gives the three words the source computes. */
  lemma Normalize(nHi: uint32, nLo: uint32, bm: nat)
    requires bm <= 32
    ensures ShiftLeft(nHi, bm) + ShiftRight(nLo, 32 - bm) < TWO32
    ensures (nHi * TWO32 + nLo) * Pow2(bm)
         == (ShiftRight(nHi, 32 - bm) * TWO32 + (ShiftLeft(nHi, bm) + ShiftRight(nLo, 32 - bm))) * TWO32
            + ShiftLeft(nLo, bm)
  {
    ShiftSplit(nHi, bm);
    ShiftSplit(nLo, bm);
    ScaleWords(nHi, nLo, Pow2(bm), ShiftRight(nHi, 32 - bm), ShiftLeft(nHi, bm), ShiftRight(nLo, 32 - bm),
      ShiftLeft(nLo, bm));
  }

  lemma SmallScale(nHi: nat, d: nat, p: nat, a: nat, b: nat, c: nat)
    requires nHi < d && d * p < TWO32 && nHi * p == a * TWO32 + b && c < p
    ensures a == 0 && b + c < d * p
  {
    MulMono(p, nHi + 1, d);
    assert p * (nHi + 1) == nHi * p + p;
  }

  /** When the divisor exceeds the high word, normalizing shifts nothing out and
      the high word stays below the divisor. */
  lemma NormalizeSmall(nHi: uint32, nLo: uint32, d: uint32, bm: nat)
    requires bm <= 32 && nHi < d && d * Pow2(bm) < TWO32
    ensures ShiftRight(nHi, 32 - bm) == 0
    ensures ShiftLeft(nHi, bm) + ShiftRight(nLo, 32 - bm) < d * Pow2(bm)
  {
    ShiftSplit(nHi, bm);
    ShiftSplit(nLo, bm);
    SmallScale(nHi, d, Pow2(bm), ShiftRight(nHi, 32 - bm), ShiftLeft(nHi, bm), ShiftRight(nLo, 32 - bm));
  }

  lemma TopFits(nHi: uint32, d: uint32, bm: nat)
    requires 0 < bm < 32 && d >= TWO31
    ensures ShiftRight(nHi, 32 - bm) < d
  {
    ShiftSplit(nHi, bm);
    Pow2Add(bm, 32 - bm);
    Pow2Of32();
    assert Pow2(32 - bm) == 2 * Pow2(31 - bm);
    MulMono(Pow2(bm), 2, Pow2(32 - bm));
  }

  /** Normalization of the dividend and the first step of the division (lines
      38-62): what is left is one division of two words by a normalized divisor. */
  method FirstWord(nHi0: uint32, nLo0: uint32, d0: uint32, bm: nat)
    returns (qHi: uint32, nHi: uint32, nLo: uint32, d: uint32)
    requires d0 != 0 && bm == LeadingZeros(d0)
    ensures d == d0 * Pow2(bm) && nHi < d
    ensures (nHi0 * TWO32 + nLo0) * Pow2(bm) == qHi * TWO32 * d + (nHi * TWO32 + nLo)
  {
    nHi, nLo, d := nHi0, nLo0, d0;
    NormalizeDivisor(d0, bm);
    if d > nHi {
      // Shift until the top bit of the divisor is set
      if bm != 0 {
        NormalizeSmall(nHi, nLo, d, bm);
        Normalize(nHi, nLo, bm);
        d := ShiftLeft(d, bm);
        nHi := ShiftLeft(nHi, bm) + ShiftRight(nLo, 32 - bm);
        nLo := ShiftLeft(nLo, bm);
      }
      qHi := 0;
    } else {
      if bm == 0 {
        nHi := nHi - d;
        qHi := 1;
      } else {
        Normalize(nHi, nLo, bm);
        d := ShiftLeft(d, bm);
        TopFits(nHi, d, bm);
        // The shift pushes bits of the dividend into a third word
        var nTop := ShiftRight(nHi, 32 - bm);
        nHi := ShiftLeft(nHi, bm) + ShiftRight(nLo, 32 - bm);
        nLo := ShiftLeft(nLo, bm);
        ghost var hi := nHi;
        qHi, nHi := UdivAdjusted(nTop, nHi, d);
        Reassociate(nTop, hi, nLo, d, qHi, nHi);
      }
    }
  }

  lemma Reassociate(top: nat, hi: nat, lo: nat, d: nat, qHi: nat, r: nat)
    requires top * TWO32 + hi == qHi * d + r
    ensures (top * TWO32 + hi) * TWO32 + lo == qHi * TWO32 * d + (r * TWO32 + lo)
  {
    assert qHi * TWO32 * d == (qHi * d) * TWO32;
  }

  lemma NormalizeDivisor(d: uint32, bm: nat)
    requires d != 0 && bm == LeadingZeros(d)
    ensures bm < 32 && ShiftLeft(d, bm) == d * Pow2(bm) && TWO31 <= d * Pow2(bm) < TWO32
  {
    var lost := ShiftLeftMultiplies(d, bm);
    SameWord(lost, ShiftLeft(d, bm), 0, d * Pow2(bm));
  }

  /** The in/out parameter `*n` is `n` going in and `quotient` coming out. The
      source's own one-line form for platforms with 64-bit division
      (include/noc_internal/common.h:63-67) is exactly the postcondition. */
  method Umoddiv32(n: uint64, d0: uint32) returns (quotient: uint64, remainder: uint32)
    requires d0 != 0
    ensures quotient == n / d0 && remainder == n % d0
  {
    var nHi, nLo := n / TWO32, n % TWO32;
    if d0 == 0 || nHi == 0 {
      return nLo / d0, nLo % d0;
    }
    var bm := LeadingZeros(d0);
    var qHi, qLo, d;
    qHi, nHi, nLo, d := FirstWord(nHi, nLo, d0, bm);
    NormalizeDivisor(d0, bm);
    ghost var low := nHi * TWO32 + nLo;
    qLo, nLo := UdivAdjusted(nHi, nLo, d);
    quotient := qHi * TWO32 + qLo;
    remainder := ShiftRight(nLo, bm);
    ShiftRightDivides(nLo, bm);
    Finish(n, d0, Pow2(bm), d, qHi, low, qLo, nLo);
  }

  lemma Finish(n: nat, d0: nat, p: nat, d: nat, qHi: nat, low: nat, qLo: nat, r: nat)
    requires p > 0 && d0 > 0 && d == d0 * p && r < d
    requires n * p == qHi * TWO32 * d + low && low == qLo * d + r
    ensures qHi * TWO32 + qLo == n / d0 && r / p == n % d0
  {
    var q := qHi * TWO32 + qLo;
    assert q * d == qHi * TWO32 * d + qLo * d;
    Unscale(n, d0, p, q, r);
    DivUnique(n, d0, q, r / p);
  }
}
