/** The xoroshiro64** generator behind rand and srand (src/rand.c). */
module Random {

  // RAND_MAX is INT32_MAX.
  const RAND_MAX: int := 0x7FFF_FFFF

  // rol32 at the three distances the generator uses
  function Rol5(x: bv32): bv32 { (x << 5) | (x >> 27) }
  function Rol13(x: bv32): bv32 { (x << 13) | (x >> 19) }
  function Rol26(x: bv32): bv32 { (x << 26) | (x >> 6) }

  // ------------------------------------------------------------ the state step

  datatype State = State(s0: bv32, s1: bv32)

  const ZERO := State(0, 0)

  function Fold(a: bv32, x: bv32): bv32 { a ^ x ^ (x << 9) }

  // The two words of the next state, from a state that is not zero.
  function Mix0(s0: bv32, s1: bv32): bv32 { Fold(Rol26(s0), s1 ^ s0) }
  function Mix1(s0: bv32, s1: bv32): bv32 { Rol13(s1 ^ s0) }

  function TimesGolden(x: bv32): bv32 { x * 0x9E37_79BB }
  function Times5(x: bv32): bv32 { x * 5 }

  function Scramble(x: bv32): bv32 { Times5(Rol5(TimesGolden(x))) }

  // The all-zero state, which Mix could not leave, is treated as (1, 0).
  function Unstick(s: State): State { if s == ZERO then State(1, 0) else s }

  function Mix(s: State): State { State(Mix0(s.s0, s.s1), Mix1(s.s0, s.s1)) }

  /** What one call of `next` does to the state, and what it returns. */
  function Step(s: State): State { Mix(Unstick(s)) }

  function Output(s: State): bv32 { Scramble(Unstick(s).s0) }

  /** The state after `n` calls. */
  function Run(s: State, n: nat): State
    decreases n
  {
    if n == 0 then s else Run(Step(s), n - 1)
  }

  // The 32-bit output read as a fraction of RAND_MAX.
  function Scaled(bits: bv32): int { (RAND_MAX * (bits as int)) / 0x1_0000_0000 }

  lemma ScaledRange(bits: bv32)
    ensures 0 <= Scaled(bits) < RAND_MAX
  {
    FractionRange(bits as int);
  }

  lemma FractionRange(b: int)
    requires 0 <= b < 0x1_0000_0000
    ensures 0 <= (RAND_MAX * b) / 0x1_0000_0000 < RAND_MAX
  {
  }

  class Generator {
    var state0: bv32
    var state1: bv32

    function Current(): State
      reads this
    {
      State(state0, state1)
    }

    constructor ()
      ensures Current() == ZERO
    {
      state0, state1 := 0, 0;
    }

    method Next() returns (result: bv32)
      modifies this
      ensures result == Output(old(Current()))
      ensures Current() == Step(old(Current()))
      ensures Current() != ZERO
    {
      StepLeavesZero(Current());
      OrIsZero(state0, state1);
      // The state before any seed is all zero
      var s0 := if (state0 | state1) == 0 then 1 else state0;
      result := Scramble(s0);
      state0, state1 := Mix0(s0, state1), Mix1(s0, state1);
    }

    method Rand() returns (r: int)
      modifies this
      ensures r == Scaled(Output(old(Current())))
      ensures 0 <= r < RAND_MAX
      ensures Current() == Step(old(Current()))
    {
      var bits := Next();
      ScaledRange(bits);
      r := Scaled(bits);
    }

    method Srand(seed: bv32)
      modifies this
      ensures Current() == State(seed, seed)
    {
      state0 := seed;
      state1 := seed;
    }
  }

  lemma OrIsZero(x: bv32, y: bv32)
    ensures (x | y) == 0 <==> x == 0 && y == 0
  {
  }

  // -------------------------------------------------------- the step inverted

  function Ror13(x: bv32): bv32 { (x >> 13) | (x << 19) }
  function Ror26(x: bv32): bv32 { (x >> 26) | (x << 6) }

  function Unmix0(t0: bv32, t1: bv32): bv32 { Ror26(Fold(t0, Ror13(t1))) }
  function Unmix1(t0: bv32, t1: bv32): bv32 { Ror13(t1) ^ Unmix0(t0, t1) }

  /** The inverse of Mix. */
  function Unmix(t: State): State { State(Unmix0(t.s0, t.s1), Unmix1(t.s0, t.s1)) }

  lemma RotateBack(x: bv32)
    ensures Ror13(Rol13(x)) == x && Rol13(Ror13(x)) == x
    ensures Ror26(Rol26(x)) == x && Rol26(Ror26(x)) == x
  {
  }

  lemma FoldTwice(a: bv32, x: bv32)
    ensures Fold(Fold(a, x), x) == a
  {
  }

  lemma XorCancels(a: bv32, x: bv32)
    ensures (a ^ x) ^ x == a && x ^ (x ^ a) == a
  {
  }

  lemma UnmixMixWords(s0: bv32, s1: bv32)
    ensures Unmix0(Mix0(s0, s1), Mix1(s0, s1)) == s0
    ensures Unmix1(Mix0(s0, s1), Mix1(s0, s1)) == s1
  {
    var x := s1 ^ s0;
    RotateBack(x);
    RotateBack(s0);
    FoldTwice(Rol26(s0), x);
    XorCancels(s1, s0);
  }

  lemma MixUnmixWords(t0: bv32, t1: bv32)
    ensures Mix0(Unmix0(t0, t1), Unmix1(t0, t1)) == t0
    ensures Mix1(Unmix0(t0, t1), Unmix1(t0, t1)) == t1
  {
    var x := Ror13(t1);
    RotateBack(t1);
    RotateBack(Fold(t0, x));
    FoldTwice(t0, x);
    XorCancels(x, Ror26(Fold(t0, x)));
  }

  /** Mix is a permutation of the 2^64 states, with inverse Unmix. */
  lemma MixIsPermutation(s: State)
    ensures Unmix(Mix(s)) == s && Mix(Unmix(s)) == s
  {
    UnmixMixWords(s.s0, s.s1);
    MixUnmixWords(s.s0, s.s1);
  }

  lemma MixOfZero()
    ensures Mix(ZERO) == ZERO
  {
    assert Mix0(0, 0) == 0 && Mix1(0, 0) == 0;
  }

  /** After any call, from any state, the state is not zero: the generator is
      never stuck, and the repair of the zero state acts on the first call only. */
  lemma StepLeavesZero(s: State)
    ensures Step(s) != ZERO
    ensures s != ZERO ==> Step(s) == Mix(s)
  {
    MixOfZero();
    MixIsPermutation(ZERO);
    MixIsPermutation(Unstick(s));
  }

  // ---------------------------------------------------------------- whole runs

  lemma {:induction false} RunAdd(s: State, m: nat, n: nat)
    ensures Run(s, m + n) == Run(Run(s, m), n)
    decreases m
  {
    if m > 0 {
      RunAdd(Step(s), m - 1, n);
    }
  }

  lemma {:induction false} RunLeavesZero(s: State, n: nat)
    requires s != ZERO
    ensures Run(s, n) != ZERO
    decreases n
  {
    if n > 0 {
      StepLeavesZero(s);
      RunLeavesZero(Step(s), n - 1);
    }
  }

  /** Distinct non-zero states stay distinct for ever. */
  lemma {:induction false} RunInjective(s: State, t: State, n: nat)
    requires s != ZERO && t != ZERO && Run(s, n) == Run(t, n)
    ensures s == t
    decreases n
  {
    if n > 0 {
      StepLeavesZero(s);
      StepLeavesZero(t);
      RunInjective(Step(s), Step(t), n - 1);
      MixIsPermutation(s);
      MixIsPermutation(t);
    }
  }

  /** No tail before the cycle: the first state to come round again is the start. */
  lemma NoTail(s: State, i: nat, j: nat)
    requires s != ZERO && i < j && Run(s, i) == Run(s, j)
    ensures Run(s, j - i) == s
  {
    RunAdd(s, j - i, i);
    RunLeavesZero(s, j - i);
    RunInjective(s, Run(s, j - i), i);
  }

  function Code(s: State): nat { (s.s0 as nat) * 0x1_0000_0000 + s.s1 as nat }

  lemma ToNatInjective(x: bv32, y: bv32)
    requires x as nat == y as nat
    ensures x == y
  {
    assert (x as nat) as bv32 == x;
  }

  lemma DigitsUnique(a: nat, b: nat, c: nat, d: nat)
    requires b < 0x1_0000_0000 && d < 0x1_0000_0000
    requires a * 0x1_0000_0000 + b == c * 0x1_0000_0000 + d
    ensures a == c && b == d
  {
  }

  lemma CodeInjective(s: State, t: State)
    requires Code(s) == Code(t)
    ensures s == t
  {
    DigitsUnique(s.s0 as nat, s.s1 as nat, t.s0 as nat, t.s1 as nat);
    ToNatInjective(s.s0, t.s0);
    ToNatInjective(s.s1, t.s1);
  }

  function Upto(n: nat): (r: set<nat>)
    ensures forall x :: x in r <==> 0 <= x < n
  {
    if n == 0 then {} else Upto(n - 1) + {n - 1}
  }

  lemma {:induction false} UptoSize(n: nat)
    ensures |Upto(n)| == n
  {
    if n > 0 {
      UptoSize(n - 1);
    }
  }

  lemma SubsetSize(a: set<nat>, b: set<nat>)
    requires a <= b
    ensures |a| <= |b|
  {
    assert b == a + (b - a);
  }

  ghost function Visited(s: State, n: nat): set<nat>
  {
    set i: nat | i < n :: Code(Run(s, i))
  }

  lemma {:induction false} VisitedSize(s: State, n: nat)
    requires s != ZERO
    requires forall p :: 0 < p < n ==> Run(s, p) != s
    ensures |Visited(s, n)| == n
  {
    if n > 0 {
      VisitedSize(s, n - 1);
      assert Visited(s, n) == Visited(s, n - 1) + {Code(Run(s, n - 1))};
      VisitedIsNew(s, n - 1);
    }
  }

  lemma VisitedIsNew(s: State, n: nat)
    requires s != ZERO
    requires forall p :: 0 < p <= n ==> Run(s, p) != s
    ensures Code(Run(s, n)) !in Visited(s, n)
  {
    if Code(Run(s, n)) in Visited(s, n) {
      var i: nat :| i < n && Code(Run(s, n)) == Code(Run(s, i));
      CodeInjective(Run(s, n), Run(s, i));
      NoTail(s, i, n);
      assert false;
    }
  }

  /** Every non-zero state lies on a cycle, of length below 2^64. */
  lemma EveryStateRecurs(s: State) returns (p: nat)
    requires s != ZERO
    ensures 0 < p < 0x1_0000_0000_0000_0000 && Run(s, p) == s
  {
    p := Recurs(s, 0x1_0000_0000_0000_0000);
  }

  lemma Recurs(s: State, n: nat) returns (p: nat)
    requires s != ZERO && n == 0x1_0000_0000_0000_0000
    ensures 0 < p < n && Run(s, p) == s
  {
    if forall p :: 0 < p < n ==> Run(s, p) != s {
      VisitedSize(s, n);
      VisitedFits(s, n);
      SubsetSize(Visited(s, n), Upto(n) - {0});
      UptoSize(n);
      assert false;
    }
    p :| 0 < p < n && Run(s, p) == s;
  }

  lemma VisitedFits(s: State, n: nat)
    requires s != ZERO && n == 0x1_0000_0000_0000_0000
    ensures Visited(s, n) <= Upto(n) - {0}
  {
    forall c | c in Visited(s, n)
      ensures c in Upto(n) - {0}
    {
      var i: nat :| i < n && c == Code(Run(s, i));
      RunLeavesZero(s, i);
      CodeOfNonZero(Run(s, i));
    }
  }

  lemma CodeOfNonZero(s: State)
    ensures Code(s) < 0x1_0000_0000_0000_0000
    ensures s != ZERO ==> Code(s) != 0
  {
    if Code(s) == 0 {
      CodeInjective(s, ZERO);
    }
  }

  // -------------------------------------------------------------- seeding

  // The inverses of the two odd multipliers modulo 2^32.
  function Divide5(x: bv32): bv32 { x * 0xCCCC_CCCD }
  function DivideGolden(x: bv32): bv32 { x * 0xBE73_6373 }

  lemma Inverse5(x: bv32)
    ensures (x * 5) * 0xCCCC_CCCD == x
  {
  }

  lemma InverseGolden(x: bv32)
    ensures (x * 0x9E37_79BB) * 0xBE73_6373 == x
  {
  }

  lemma Divide5Product(x: bv32)
    ensures Divide5(x * 5) == x
  {
    Inverse5(x);
  }

  lemma DivideGoldenProduct(x: bv32)
    ensures DivideGolden(x * 0x9E37_79BB) == x
  {
    InverseGolden(x);
  }

  lemma Times5Undone(x: bv32)
    ensures Divide5(Times5(x)) == x
  {
    Divide5Product(x);
  }

  lemma TimesGoldenUndone(x: bv32)
    ensures DivideGolden(TimesGolden(x)) == x
  {
    DivideGoldenProduct(x);
  }

  lemma Times5Injective(x: bv32, y: bv32)
    requires Times5(x) == Times5(y)
    ensures x == y
  {
    Times5Undone(x);
    Times5Undone(y);
  }

  lemma TimesGoldenInjective(x: bv32, y: bv32)
    requires TimesGolden(x) == TimesGolden(y)
    ensures x == y
  {
    TimesGoldenUndone(x);
    TimesGoldenUndone(y);
  }

  lemma Rol5Injective(x: bv32, y: bv32)
    requires Rol5(x) == Rol5(y)
    ensures x == y
  {
  }

  /** The output determines the first word of the state. */
  lemma ScrambleIsInjective(x: bv32, y: bv32)
    requires Scramble(x) == Scramble(y)
    ensures x == y
  {
    Times5Injective(Rol5(TimesGolden(x)), Rol5(TimesGolden(y)));
    Rol5Injective(TimesGolden(x), TimesGolden(y));
    TimesGoldenInjective(x, y);
  }

  // The number that `rand` returns after `n` others, from state `s`.
  function Number(s: State, n: nat): int { Scaled(Output(Run(s, n))) }

  // What the first two steps from the states at issue come to, word by word.
  lemma FirstWords()
    ensures Scramble(1) == 0xE2AC_153F && Scramble(0xB294_8E2F) == 0xE2AC_153E
  {
  }

  lemma SecondWords()
    ensures Mix0(1, 0) == 0x0400_0201 && Mix0(1, 1) == 0x0400_0000
    ensures Mix0(0xB294_8E2F, 0xB294_8E2F) == 0xBECA_5238
  {
  }

  lemma SecondOutputs()
    ensures Scramble(0x0400_0201) == 0xBAD5_D57B && Scramble(0x0400_0000) == 0x8000_0091
    ensures Scramble(0xBECA_5238) == 0x6D14_5123
  {
  }

  lemma ScaledOutputs()
    ensures Scaled(0xE2AC_153E) == Scaled(0xE2AC_153F) == 1901464222
    ensures Scaled(0xBAD5_D57B) == 1567287996
    ensures Scaled(0x8000_0091) == 1073741895 && Scaled(0x6D14_5123) == 915024017
  {
  }

  /** The first two numbers without a seed, after srand(1), and after the only other seed
      whose first number is the same. */
  lemma FirstTwoNumbers()
    ensures Number(ZERO, 0) == Number(State(1, 1), 0) == Number(State(0xB294_8E2F, 0xB294_8E2F), 0) == 1901464222
    ensures Number(ZERO, 1) == 1567287996
    ensures Number(State(1, 1), 1) == 1073741895 && Number(State(0xB294_8E2F, 0xB294_8E2F), 1) == 915024017
  {
    FirstWords();
    SecondWords();
    SecondOutputs();
    ScaledOutputs();
    SecondNumber(ZERO);
    SecondNumber(State(1, 1));
    SecondNumber(State(0xB294_8E2F, 0xB294_8E2F));
  }

  lemma SecondNumber(s: State)
    ensures Number(s, 1) == if s.s0 == 0 && s.s1 == 0 then Scaled(Scramble(Mix0(1, 0)))
      else if Mix0(s.s0, s.s1) == 0 && Mix1(s.s0, s.s1) == 0 then Scaled(Scramble(1))
      else Scaled(Scramble(Mix0(s.s0, s.s1)))
  {
    StepLeavesZero(s);
    assert Run(s, 1) == Run(Step(s), 0) == Step(s);
  }

  // Two more steps after srand(1), word by word.
  lemma LaterWords()
    ensures Mix0(0x0400_0000, 0) == 0x0410_0000 && Mix1(0x0400_0000, 0) == 0x80
    ensures Mix0(0x0410_0000, 0x80) == 0x2401_4080 && Mix1(0x0410_0000, 0x80) == 0x0010_0082
    ensures Mix0(1, 1) == 0x0400_0000 && Mix1(1, 1) == 0
  {
  }

  lemma LaterOutputs()
    ensures Scramble(0x0410_0000) == 0xCE00_0050 && Scramble(0x2401_4080) == 0xF022_7073
  {
  }

  lemma LaterScaled()
    ensures Scaled(0xCE00_0050) == 1728053287 && Scaled(0xF022_7073) == 2014394424
  {
  }

  lemma LaterStates()
    ensures Step(State(1, 1)) == State(0x0400_0000, 0)
    ensures Step(State(0x0400_0000, 0)) == State(0x0410_0000, 0x80)
    ensures Step(State(0x0410_0000, 0x80)) == State(0x2401_4080, 0x0010_0082)
  {
    LaterWords();
  }

  lemma NextNumber(s: State, n: nat)
    ensures Number(s, n + 1) == Number(Step(s), n)
  {
    assert Run(s, n + 1) == Run(Step(s), n);
  }

  lemma NumberFrom(s: State, output: bv32, number: int)
    requires s != ZERO && Scramble(s.s0) == output && Scaled(output) == number
    ensures Number(s, 0) == number
  {
  }

  lemma ThirdNumber()
    ensures Number(State(0x0410_0000, 0x80), 0) == 1728053287
  {
    LaterOutputs();
    LaterScaled();
    NumberFrom(State(0x0410_0000, 0x80), 0xCE00_0050, 1728053287);
  }

  lemma FourthNumber()
    ensures Number(State(0x2401_4080, 0x0010_0082), 0) == 2014394424
  {
    LaterOutputs();
    LaterScaled();
    NumberFrom(State(0x2401_4080, 0x0010_0082), 0xF022_7073, 2014394424);
  }

  /** The numbers after srand(1): every step, and both words of the state, count. */
  lemma NumbersAfterSeedOne()
    ensures Number(State(1, 1), 0) == 1901464222 && Number(State(1, 1), 1) == 1073741895
    ensures Number(State(1, 1), 2) == 1728053287 && Number(State(1, 1), 3) == 2014394424
  {
    FirstTwoNumbers();
    LaterStates();
    ThirdNumber();
    FourthNumber();
    NextNumber(State(1, 1), 1);
    NextNumber(State(0x0400_0000, 0), 0);
    NextNumber(State(1, 1), 2);
    NextNumber(State(0x0400_0000, 0), 1);
    NextNumber(State(0x0410_0000, 0x80), 0);
  }

  /** include/stdlib.h promises that an unseeded generator repeats srand(1). It does
      not: the first number is the same, the second is not. */
  lemma SeedOneIsNotUnseeded()
    ensures Number(ZERO, 0) == Number(State(1, 1), 0)
    ensures Number(ZERO, 1) != Number(State(1, 1), 1)
  {
    FirstTwoNumbers();
  }

  ghost predicate SameNumbers(s: State, t: State)
  {
    forall n: nat :: Number(s, n) == Number(t, n)
  }

  /** The only seed after which `rand` repeats the unseeded sequence is 0. */
  lemma UnseededIsSeedZero(seed: bv32)
    ensures SameNumbers(State(seed, seed), ZERO) <==> seed == 0
  {
    if seed != 0 {
      var n := SomeNumberDiffers(seed);
      assert Number(State(seed, seed), n) != Number(ZERO, n);
    }
  }

  lemma SomeNumberDiffers(seed: bv32) returns (n: nat)
    requires seed != 0
    ensures Number(State(seed, seed), n) != Number(ZERO, n)
  {
    FirstTwoNumbers();
    if seed == 1 || seed == 0xB294_8E2F {
      n := 1;
    } else {
      n := 0;
      FirstNumberDiffers(seed);
    }
  }

  lemma FirstNumberDiffers(seed: bv32)
    requires seed != 0 && seed != 1 && seed != 0xB294_8E2F
    ensures Number(State(seed, seed), 0) != 1901464222
  {
    FirstNumber(State(seed, seed));
    OtherOutput(seed, Scramble(seed));
  }

  lemma OtherOutput(seed: bv32, output: bv32)
    requires seed != 1 && seed != 0xB294_8E2F && output == Scramble(seed)
    ensures Scaled(output) != 1901464222
  {
    if Scaled(output) == 1901464222 {
      SameOutput(output);
      SeedOf(seed, output);
    }
  }

  lemma FirstNumber(s: State)
    ensures Number(s, 0) == Scaled(Scramble(if s.s0 == 0 && s.s1 == 0 then 1 else s.s0))
  {
  }

  lemma SeedOf(seed: bv32, output: bv32)
    requires output == Scramble(seed) && (output == 0xE2AC_153E || output == 0xE2AC_153F)
    ensures seed == 1 || seed == 0xB294_8E2F
  {
    FirstWords();
    if output == 0xE2AC_153F {
      ScrambleIsInjective(seed, 1);
    } else {
      ScrambleIsInjective(seed, 0xB294_8E2F);
    }
  }

  // Scaling loses a bit: two outputs share this number.
  lemma SameOutput(output: bv32)
    requires Scaled(output) == 1901464222
    ensures output == 0xE2AC_153E || output == 0xE2AC_153F
  {
    var b := output as int;
    SameScaled(b);
    if b == 0xE2AC_153F {
      ToNatInjective(output, 0xE2AC_153F);
    } else {
      ToNatInjective(output, 0xE2AC_153E);
    }
  }

  lemma SameScaled(b: int)
    requires (RAND_MAX * b) / 0x1_0000_0000 == 1901464222
    ensures b == 0xE2AC_153E || b == 0xE2AC_153F
  {
  }
}
