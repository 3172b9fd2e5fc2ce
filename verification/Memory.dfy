/** Byte-addressed memory: little-endian machine words and the one way this
    library ever changes memory, overwriting a contiguous range. */
module Memory {

  type byte = x: int | 0 <= x < 256

  // sizeof(void *) == sizeof(size_t) == MALLOC_ALIGN on the modelled target.
  const WORD: nat := 8

  // Pointers and sizes are 64-bit; the address space is below INTPTR_MAX.
  const SIZE_MAX: nat := 0xFFFF_FFFF_FFFF_FFFF
  const INTPTR_MAX: nat := 0x7FFF_FFFF_FFFF_FFFF

  predicate Aligned(a: int) { a % WORD == 0 }

  // The word boundary at or below `a`.
  function FloorWord(a: nat): (r: nat)
    ensures Aligned(r) && r <= a < r + WORD
  {
    a - a % WORD
  }

  // The word boundary at or above `a`.
  function CeilWord(a: nat): (r: nat)
    ensures Aligned(r) && a <= r < a + WORD
  {
    FloorWord(a + (WORD - 1))
  }

  // ---------------------------------------------------------------- splicing

  /** Memory `m` with the bytes `s` written at address `a`. */
  function Splice(m: seq<byte>, a: nat, s: seq<byte>): (r: seq<byte>)
    requires a + |s| <= |m|
    ensures |r| == |m|
  {
    m[..a] + s + m[a + |s|..]
  }

  lemma SpliceInside(m: seq<byte>, a: nat, s: seq<byte>)
    requires a + |s| <= |m|
    ensures Splice(m, a, s)[a..a + |s|] == s
  {
  }

  lemma SpliceOutside(m: seq<byte>, a: nat, s: seq<byte>, lo: nat, hi: nat)
    requires a + |s| <= |m| && lo <= hi <= |m|
    requires hi <= a || a + |s| <= lo
    ensures Splice(m, a, s)[lo..hi] == m[lo..hi]
  {
  }

  // ------------------------------------------------------------------- words

  /** The number whose little-endian base-256 digits are `s`. */
  function Value(s: seq<byte>): nat
  {
    if s == [] then 0 else s[0] + 256 * Value(s[1..])
  }

  /** The `n` low base-256 digits of `v`. */
  function Bytes(v: nat, n: nat): (s: seq<byte>)
    ensures |s| == n
  {
    if n == 0 then [] else [v % 256] + Bytes(v / 256, n - 1)
  }

  function Pow256(n: nat): (p: nat)
    ensures p > 0
  {
    if n == 0 then 1 else 256 * Pow256(n - 1)
  }

  lemma WordRange()
    ensures Pow256(WORD) == SIZE_MAX + 1
  {
    assert Pow256(4) == 0x1_0000_0000;
    assert Pow256(8) == 256 * (256 * (256 * (256 * Pow256(4))));
  }

  lemma {:induction false} ValueOfBytes(v: nat, n: nat)
    requires v < Pow256(n)
    ensures Value(Bytes(v, n)) == v
  {
    if n > 0 {
      assert Bytes(v, n)[1..] == Bytes(v / 256, n - 1);
      ValueOfBytes(v / 256, n - 1);
    }
  }

  lemma {:induction false} BytesOfValue(s: seq<byte>)
    ensures Bytes(Value(s), |s|) == s
  {
    if s != [] {
      var rest := Value(s[1..]);
      assert Value(s) % 256 == s[0] && Value(s) / 256 == rest;
      BytesOfValue(s[1..]);
      assert s == [s[0]] + s[1..];
    }
  }

  lemma {:induction false} ValueBound(s: seq<byte>)
    ensures Value(s) < Pow256(|s|)
  {
    if s != [] {
      ValueBound(s[1..]);
    }
  }

  /** The word stored at address `a`. */
  function Load(m: seq<byte>, a: nat): nat
    requires a + WORD <= |m|
  {
    Value(m[a..a + WORD])
  }

  /** Memory after the word `v` is stored at address `a`. */
  function Store(m: seq<byte>, a: nat, v: nat): (r: seq<byte>)
    requires a + WORD <= |m|
    ensures |r| == |m|
  {
    Splice(m, a, Bytes(v, WORD))
  }

  lemma LoadStore(m: seq<byte>, a: nat, v: nat)
    requires a + WORD <= |m| && v <= SIZE_MAX
    ensures Load(Store(m, a, v), a) == v
  {
    WordRange();
    ValueOfBytes(v, WORD);
    SpliceInside(m, a, Bytes(v, WORD));
  }

  lemma StoreLoad(m: seq<byte>, d: nat, s: nat)
    requires d + WORD <= |m| && s + WORD <= |m|
    ensures Store(m, d, Load(m, s)) == Splice(m, d, m[s..s + WORD])
  {
    BytesOfValue(m[s..s + WORD]);
  }

  method LoadWord(mem: array<byte>, a: nat) returns (v: nat)
    requires Aligned(a) && a + WORD <= mem.Length
    ensures v == Load(mem[..], a) && v <= SIZE_MAX
  {
    v := 0;
    var i := WORD;
    while i > 0
      invariant 0 <= i <= WORD
      invariant v == Value(mem[a + i..a + WORD])
    {
      i := i - 1;
      v := mem[a + i] + 256 * v;
      assert mem[a + i..a + WORD] == [mem[a + i]] + mem[a + i + 1..a + WORD];
    }
    ghost var m := mem[..];
    assert mem[a..a + WORD] == m[a..a + WORD];
    ValueBound(m[a..a + WORD]);
    WordRange();
  }

  method StoreWord(mem: array<byte>, a: nat, v: nat)
    requires Aligned(a) && a + WORD <= mem.Length
    modifies mem
    ensures mem[..] == Store(old(mem[..]), a, v)
  {
    ghost var m := mem[..];
    var i, rest := 0, v;
    Splice0(m, a);
    while i < WORD
      invariant 0 <= i <= WORD
      invariant Bytes(v, WORD) == Bytes(v, WORD)[..i] + Bytes(rest, WORD - i)
      invariant mem[..] == Splice(m, a, Bytes(v, WORD)[..i])
    {
      SpliceNext(m, a, Bytes(v, WORD), i, Bytes(rest, WORD - i));
      mem[a + i] := rest % 256;
      rest := rest / 256;
      i := i + 1;
    }
    assert Bytes(v, WORD)[..WORD] == Bytes(v, WORD);
  }

  lemma Splice0(m: seq<byte>, a: nat)
    requires a <= |m|
    ensures Splice(m, a, []) == m
  {
  }

  // The next of the bytes `s` is the first of those still to come.
  lemma SpliceNext(m: seq<byte>, a: nat, s: seq<byte>, i: nat, rest: seq<byte>)
    requires a + |s| <= |m| && i < |s| && s == s[..i] + rest
    ensures Splice(m, a, s[..i])[a + i := rest[0]] == Splice(m, a, s[..i + 1])
    ensures s == s[..i + 1] + rest[1..]
  {
  }
}
