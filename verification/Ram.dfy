/** The bytes of memory seen as aligned machine words. The allocator only ever
    reads, writes and moves whole aligned words, so its proofs are about words; this
    module is what ties them to the bytes. */
module Ram {
  import opened Memory
  import opened BlockOps

  // The word at each aligned address.
  type Words = map<nat, nat>

  predicate IsWord(length: nat, a: nat) { Aligned(a) && a + WORD <= length }

  ghost predicate Holds(m: seq<byte>, words: Words, a: nat)
    requires a in words
  {
    IsWord(|m|, a) && Load(m, a) == words[a]
  }

  ghost predicate Reflects(m: seq<byte>, words: Words)
  {
    && (forall a {:trigger Holds(m, words, a)} :: a in words ==> Holds(m, words, a))
    && (forall a {:trigger IsWord(|m|, a)} :: IsWord(|m|, a) ==> a in words)
  }

  lemma StoreReflects(m: seq<byte>, words: Words, x: nat, v: nat)
    requires Reflects(m, words) && x in words && v <= SIZE_MAX
    ensures IsWord(|m|, x) && Reflects(Store(m, x, v), words[x := v])
  {
    assert Holds(m, words, x);
    var m' := Store(m, x, v);
    forall a | a in words
      ensures Holds(m', words[x := v], a)
    {
      assert Holds(m, words, a);
      if a == x {
        LoadStore(m, x, v);
      } else {
        assert a + WORD <= x || x + WORD <= a;
        SpliceOutside(m, x, Bytes(v, WORD), a, a + WORD);
      }
    }
  }

  /** What moving `len` bytes between aligned addresses does to the words. */
  ghost predicate WordsMoved(words: Words, words': Words, dest: nat, src: nat, len: nat)
  {
    && words'.Keys == words.Keys
    && (forall x {:trigger words'[x]} :: x in words && (x < dest || dest + len <= x) ==> words'[x] == words[x])
    && (forall x {:trigger words'[x]} :: x in words && dest <= x < dest + len ==>
          x - dest + src in words && words'[x] == words[x - dest + src])
  }

  lemma MoveReflects(m: seq<byte>, words: Words, dest: nat, src: nat, len: nat) returns (words': Words)
    requires Reflects(m, words) && Aligned(dest) && Aligned(src) && Aligned(len)
    requires dest + len <= |m| && src + len <= |m|
    ensures Reflects(Moved(m, dest, src, len), words') && WordsMoved(words, words', dest, src, len)
  {
    var m' := Moved(m, dest, src, len);
    words' := map x: nat | x in words && Holds(m, words, x) :: Load(m', x);
    forall x | x in words
      ensures Holds(m, words, x)
    {
    }
    assert words'.Keys == words.Keys;
    forall x | x in words
      ensures x < dest || dest + len <= x ==> words'[x] == words[x]
      ensures dest <= x < dest + len ==> x - dest + src in words && words'[x] == words[x - dest + src]
    {
      MovedWord(m, dest, src, len, x);
      if dest <= x < dest + len {
        assert IsWord(|m|, x - dest + src);
      }
    }
  }

  lemma MovedWord(m: seq<byte>, dest: nat, src: nat, len: nat, x: nat)
    requires Aligned(dest) && Aligned(src) && Aligned(len) && IsWord(|m|, x)
    requires dest + len <= |m| && src + len <= |m|
    ensures x < dest || dest + len <= x ==> Load(Moved(m, dest, src, len), x) == Load(m, x)
    ensures dest <= x < dest + len ==>
              IsWord(|m|, x - dest + src) && Load(Moved(m, dest, src, len), x) == Load(m, x - dest + src)
  {
    if x < dest || dest + len <= x {
      assert x + WORD <= dest || dest + len <= x;
      SpliceOutside(m, dest, m[src..src + len], x, x + WORD);
    } else {
      assert x + WORD <= dest + len && Aligned(x - dest + src);
      MovedInside(m, dest, src, len, x - dest);
    }
  }

  lemma MovedInside(m: seq<byte>, dest: nat, src: nat, len: nat, i: nat)
    requires dest + len <= |m| && src + len <= |m| && i + WORD <= len
    ensures Load(Moved(m, dest, src, len), dest + i) == Load(m, src + i)
  {
    SpliceInside(m, dest, m[src..src + len]);
    SliceOfSlice(Moved(m, dest, src, len), dest, len, i, WORD);
    SliceOfSlice(m, src, len, i, WORD);
  }

  lemma SliceOfSlice(m: seq<byte>, a: nat, n: nat, i: nat, k: nat)
    requires a + n <= |m| && i + k <= n
    ensures m[a..a + n][i..i + k] == m[a + i..a + i + k]
  {
    var s := m[a..a + n];
    var u := s[i..i + k];
    forall t | 0 <= t < |u|
      ensures u[t] == m[a + i..a + i + k][t]
    {
      assert s[i + t] == m[a + (i + t)];
    }
  }

  /** Equal words are equal bytes: if each word of [b, b + n) is the word of the other
      memory that lies as far into [a, a + n), the bytes of the two ranges agree. */
  lemma WordsGiveBytes(m: seq<byte>, w: Words, m': seq<byte>, w': Words, a: nat, b: nat, n: nat)
    requires Reflects(m, w) && Reflects(m', w') && Aligned(a) && Aligned(b) && Aligned(n)
    requires a + n <= |m| && b + n <= |m'|
    requires forall x {:trigger w'[x]} :: x in w' && b <= x < b + n ==> x - b + a in w && w'[x] == w[x - b + a]
    ensures m'[b..b + n] == m[a..a + n]
  {
    var s, t := m[a..a + n], m'[b..b + n];
    forall i | 0 <= i < n
      ensures t[i] == s[i]
    {
      var k := FloorWord(i);
      WordBytes(m, w, a + k);
      WordBytes(m', w', b + k);
      assert w'[b + k] == w[a + k];
      assert m'[b + k..b + k + WORD] == m[a + k..a + k + WORD];
      assert m'[b + i] == m'[b + k..b + k + WORD][i - k] == m[a + k..a + k + WORD][i - k] == m[a + i];
    }
  }

  lemma WordBytes(m: seq<byte>, w: Words, x: nat)
    requires Reflects(m, w) && IsWord(|m|, x)
    ensures x in w && Bytes(w[x], WORD) == m[x..x + WORD]
  {
    assert Holds(m, w, x);
    BytesOfValue(m[x..x + WORD]);
  }

  ghost function WordsOf(m: seq<byte>): Words { map a: nat | a < |m| && IsWord(|m|, a) :: Load(m, a) }

  lemma WordsOfReflect(m: seq<byte>)
    ensures Reflects(m, WordsOf(m))
  {
    var w := WordsOf(m);
    forall a | a in w
      ensures Holds(m, w, a)
    {
    }
    forall a: nat | IsWord(|m|, a)
      ensures a in w
    {
      assert a < |m|;
    }
  }

  class Ram {
    const bytes: array<byte>
    ghost var words: Words

    ghost predicate Valid()
      reads this, bytes
    {
      InAddressSpace(bytes) && Reflects(bytes[..], words)
    }

    constructor (size: nat)
      requires size <= SIZE_MAX - WORD
      ensures Valid() && bytes.Length == size && fresh(bytes)
    {
      bytes := new byte[size](_ => 0);
      new;
      words := WordsOf(bytes[..]);
      WordsOfReflect(bytes[..]);
    }

    method Get(a: nat) returns (v: nat)
      requires Valid() && a in words
      ensures v == words[a]
    {
      assert Holds(bytes[..], words, a);
      v := LoadWord(bytes, a);
    }

    method Set(a: nat, v: nat)
      requires Valid() && a in words && v <= SIZE_MAX
      modifies this, bytes
      ensures Valid() && words == old(words)[a := v]
    {
      StoreReflects(bytes[..], words, a, v);
      StoreWord(bytes, a, v);
      words := words[a := v];
    }

    /** memmove between aligned addresses, whatever the overlap. */
    method Move(dest: nat, src: nat, len: nat)
      requires Valid() && Aligned(dest) && Aligned(src) && Aligned(len)
      requires dest + len <= bytes.Length && src + len <= bytes.Length
      modifies this, bytes
      ensures Valid() && WordsMoved(old(words), words, dest, src, len)
    {
      ghost var words' := MoveReflects(bytes[..], words, dest, src, len);
      Memmove(bytes, dest, src, len);
      words := words';
    }

    /** memcpy between aligned addresses that do not overlap. */
    method Copy(dest: nat, src: nat, len: nat)
      requires Valid() && Aligned(dest) && Aligned(src) && Aligned(len)
      requires dest + len <= bytes.Length && src + len <= bytes.Length
      requires dest + len <= src || src + len <= dest
      modifies this, bytes
      ensures Valid() && WordsMoved(old(words), words, dest, src, len)
    {
      ghost var words' := MoveReflects(bytes[..], words, dest, src, len);
      Memcpy(bytes, dest, src, len);
      words := words';
    }
  }
}
