/** How the allocator divides the memory it owns: an abstract picture of the heap
    of src/malloc.c, and what must be true of it after every operation. */
module Layout {
  import opened Memory

  // sizeof(struct free_chunk): the smallest chunk that can carry a list node.
  const MALLOC_MIN_SIZE: nat := 2 * WORD

  /** [lo, hi) is the heap. `chunks` maps the address of every chunk, allocated or
      free, to its size; `free` lists the free ones in list order. */
  datatype Layout = Layout(lo: nat, hi: nat, chunks: map<nat, nat>, free: seq<nat>)
  {
    function End(c: nat): nat
      requires c in chunks
    {
      c + chunks[c]
    }

    /** The blocks in use. */
    function Live(): map<nat, nat> { map c | c in chunks && c !in free :: chunks[c] }
  }

  type Chunks = map<nat, nat>

  predicate ChunkOk(lo: nat, hi: nat, c: nat, size: nat)
  {
    && lo <= c && c + size <= hi
    && Aligned(c) && Aligned(size) && MALLOC_MIN_SIZE <= size
  }

  /** The chunks tile [lo, hi): each is aligned and large enough, no two overlap,
      and each ends where another starts or at the end of the heap. */
  ghost predicate Tiled(lo: nat, hi: nat, chunks: Chunks)
  {
    && Aligned(lo) && Aligned(hi) && lo <= hi
    && (lo < hi ==> lo in chunks)
    && Sized(lo, hi, chunks) && Apart(chunks) && Chained(hi, chunks)
  }

  ghost predicate Sized(lo: nat, hi: nat, chunks: Chunks)
  {
    forall c {:trigger ChunkOk(lo, hi, c, chunks[c])} :: c in chunks ==> ChunkOk(lo, hi, c, chunks[c])
  }

  ghost predicate Apart(chunks: Chunks)
  {
    forall c, d {:trigger ApartAt(chunks, c, d)} :: c in chunks && d in chunks ==> ApartAt(chunks, c, d)
  }

  ghost predicate ApartAt(chunks: Chunks, c: nat, d: nat)
    requires c in chunks && d in chunks
  {
    c < d ==> c + chunks[c] <= d
  }

  /** Nothing overlaps chunk `c`, and it lies in the heap. */
  lemma ClearOf(lo: nat, hi: nat, chunks: Chunks, c: nat)
    requires Sized(lo, hi, chunks) && Apart(chunks) && c in chunks
    ensures lo <= c && MALLOC_MIN_SIZE <= chunks[c] && c + chunks[c] <= hi
    ensures forall d :: d in chunks && d != c ==> d + chunks[d] <= c || c + chunks[c] <= d
    ensures forall d :: d in chunks ==> MALLOC_MIN_SIZE <= chunks[d] && d + chunks[d] <= hi
  {
    forall d | d in chunks
      ensures MALLOC_MIN_SIZE <= chunks[d] && d + chunks[d] <= hi
      ensures d != c ==> d + chunks[d] <= c || c + chunks[c] <= d
    {
      assert ChunkOk(lo, hi, d, chunks[d]) && ApartAt(chunks, c, d) && ApartAt(chunks, d, c);
    }
    assert ChunkOk(lo, hi, c, chunks[c]);
  }

  lemma InHeap(lo: nat, hi: nat, chunks: Chunks, c: nat)
    requires Sized(lo, hi, chunks) && c in chunks
    ensures lo <= c && MALLOC_MIN_SIZE <= chunks[c] && c + chunks[c] <= hi
  {
    assert ChunkOk(lo, hi, c, chunks[c]);
  }

  ghost predicate Chained(hi: nat, chunks: Chunks)
  {
    forall c {:trigger ChainedAt(hi, chunks, c)} :: c in chunks ==> ChainedAt(hi, chunks, c)
  }

  ghost predicate ChainedAt(hi: nat, chunks: Chunks, c: nat)
    requires c in chunks
  {
    c + chunks[c] == hi || c + chunks[c] in chunks
  }

  ghost predicate Listed(l: Layout)
  {
    forall i {:trigger l.free[i] in l.chunks} :: 0 <= i < |l.free| ==> l.free[i] in l.chunks
  }

  /** In address order, and no free chunk touches the next, except that the one at
      index `gap` may (`gap == -1`: no exception). */
  ghost predicate Separated(l: Layout, gap: int)
  {
    forall i, j {:trigger InOrder(l, gap, i, j)} :: 0 <= i < j < |l.free| ==> InOrder(l, gap, i, j)
  }

  ghost predicate InOrder(l: Layout, gap: int, i: nat, j: nat)
    requires i < j < |l.free|
  {
    && l.free[i] in l.chunks && l.free[i] < l.free[j]
    && (!(i == gap && j == gap + 1) ==> l.End(l.free[i]) < l.free[j])
  }

  ghost predicate WellFormed(l: Layout)
  {
    Tiled(l.lo, l.hi, l.chunks) && Listed(l) && Separated(l, -1)
  }

  // ------------------------------------------------- cutting and joining chunks

  function Join(chunks: Chunks, a: nat, b: nat): Chunks
    requires a in chunks && b in chunks
  {
    (map c | c in chunks && c != b :: if c == a then chunks[a] + chunks[b] else chunks[c])
  }

  function Split(chunks: Chunks, a: nat, size: nat): Chunks
    requires a in chunks && size <= chunks[a]
  {
    chunks[a := size][a + size := chunks[a] - size]
  }

  lemma JoinTiled(lo: nat, hi: nat, chunks: Chunks, a: nat, b: nat)
    requires Tiled(lo, hi, chunks) && a in chunks && b in chunks && a + chunks[a] == b
    ensures Tiled(lo, hi, Join(chunks, a, b))
  {
    var joined := Join(chunks, a, b);
    assert Sized(lo, hi, joined) by { JoinSized(lo, hi, chunks, a, b); }
    assert Apart(joined) by { JoinApart(chunks, a, b); }
    assert Chained(hi, joined) by { JoinChained(lo, hi, chunks, a, b); }
    assert ChunkOk(lo, hi, a, chunks[a]);
  }

  lemma JoinSized(lo: nat, hi: nat, chunks: Chunks, a: nat, b: nat)
    requires Sized(lo, hi, chunks) && a in chunks && b in chunks && a + chunks[a] == b
    ensures Sized(lo, hi, Join(chunks, a, b))
  {
    assert ChunkOk(lo, hi, a, chunks[a]) && ChunkOk(lo, hi, b, chunks[b]);
  }

  lemma JoinApart(chunks: Chunks, a: nat, b: nat)
    requires Apart(chunks) && a in chunks && b in chunks && a + chunks[a] == b
    ensures Apart(Join(chunks, a, b))
  {
    var joined := Join(chunks, a, b);
    forall c, d | c in joined && d in joined
      ensures ApartAt(joined, c, d)
    {
      assert ApartAt(chunks, c, d);
      if c == a { assert ApartAt(chunks, b, d) && ApartAt(chunks, d, b); }
    }
  }

  lemma JoinChained(lo: nat, hi: nat, chunks: Chunks, a: nat, b: nat)
    requires Sized(lo, hi, chunks) && Apart(chunks) && Chained(hi, chunks)
    requires a in chunks && b in chunks && a + chunks[a] == b
    ensures Chained(hi, Join(chunks, a, b))
  {
    var joined := Join(chunks, a, b);
    ClearOf(lo, hi, chunks, a);
    ClearOf(lo, hi, chunks, b);
    forall c | c in joined
      ensures ChainedAt(hi, joined, c)
    {
      assert ChainedAt(hi, chunks, c) && ChainedAt(hi, chunks, b);
    }
  }

  lemma SplitTiled(lo: nat, hi: nat, chunks: Chunks, a: nat, size: nat)
    requires Tiled(lo, hi, chunks) && a in chunks
    requires Aligned(size) && MALLOC_MIN_SIZE <= size && size + MALLOC_MIN_SIZE <= chunks[a]
    ensures a + size !in chunks
    ensures Tiled(lo, hi, Split(chunks, a, size))
  {
    ClearOf(lo, hi, chunks, a);
    assert a + size !in chunks;
    var split := Split(chunks, a, size);
    assert Sized(lo, hi, split) by { SplitSized(lo, hi, chunks, a, size); }
    assert Apart(split) by { SplitApart(chunks, a, size); }
    assert Chained(hi, split) by { SplitChained(hi, chunks, a, size); }
  }

  lemma SplitSized(lo: nat, hi: nat, chunks: Chunks, a: nat, size: nat)
    requires Sized(lo, hi, chunks) && a in chunks
    requires Aligned(size) && MALLOC_MIN_SIZE <= size && size + MALLOC_MIN_SIZE <= chunks[a]
    ensures Sized(lo, hi, Split(chunks, a, size))
  {
    assert ChunkOk(lo, hi, a, chunks[a]);
    assert ChunkOk(lo, hi, a, size) && ChunkOk(lo, hi, a + size, chunks[a] - size);
  }

  lemma SplitApart(chunks: Chunks, a: nat, size: nat)
    requires Apart(chunks) && a in chunks && size <= chunks[a]
    ensures Apart(Split(chunks, a, size))
  {
    var split := Split(chunks, a, size);
    forall c, d | c in split && d in split
      ensures ApartAt(split, c, d)
    {
      if c in chunks && d in chunks { assert ApartAt(chunks, c, d); }
      if c in chunks { assert ApartAt(chunks, c, a) && ApartAt(chunks, a, c); }
      if d in chunks { assert ApartAt(chunks, d, a) && ApartAt(chunks, a, d); }
    }
  }

  lemma SplitChained(hi: nat, chunks: Chunks, a: nat, size: nat)
    requires Chained(hi, chunks) && a in chunks && size <= chunks[a] && a + size !in chunks
    ensures Chained(hi, Split(chunks, a, size))
  {
    var split := Split(chunks, a, size);
    forall c | c in split
      ensures ChainedAt(hi, split, c)
    {
      assert ChainedAt(hi, chunks, if c in chunks then c else a);
    }
  }

  lemma AppendTiled(lo: nat, hi: nat, chunks: Chunks, size: nat)
    requires Tiled(lo, hi, chunks) && Aligned(size) && MALLOC_MIN_SIZE <= size
    ensures hi !in chunks
    ensures Tiled(lo, hi + size, chunks[hi := size])
  {
    AllBelow(lo, hi, chunks);
    AppendSized(lo, hi, chunks, size);
    AppendApart(lo, hi, chunks, size);
  }

  lemma AppendApart(lo: nat, hi: nat, chunks: Chunks, size: nat)
    requires Sized(lo, hi, chunks) && Apart(chunks) && Chained(hi, chunks)
    ensures Apart(chunks[hi := size]) && Chained(hi + size, chunks[hi := size])
  {
    AllBelow(lo, hi, chunks);
    var more := chunks[hi := size];
    forall c, d | c in more && d in more
      ensures ApartAt(more, c, d)
    {
      if c in chunks && d in chunks { assert ApartAt(chunks, c, d); }
    }
    forall c | c in chunks
      ensures ChainedAt(hi + size, chunks[hi := size], c)
    {
      assert ChainedAt(hi, chunks, c);
    }
    assert ChainedAt(hi + size, chunks[hi := size], hi);
  }

  lemma AllBelow(lo: nat, hi: nat, chunks: Chunks)
    requires Sized(lo, hi, chunks)
    ensures forall c :: c in chunks ==> lo <= c < c + chunks[c] <= hi
  {
    forall c | c in chunks
      ensures lo <= c < c + chunks[c] <= hi
    {
      assert ChunkOk(lo, hi, c, chunks[c]);
    }
  }

  lemma AppendSized(lo: nat, hi: nat, chunks: Chunks, size: nat)
    requires Sized(lo, hi, chunks) && ChunkOk(lo, hi + size, hi, size)
    ensures Sized(lo, hi + size, chunks[hi := size])
  {
    forall c | c in chunks
      ensures ChunkOk(lo, hi + size, c, chunks[c])
    {
      assert ChunkOk(lo, hi, c, chunks[c]);
    }
  }

  lemma GrowTiled(lo: nat, hi: nat, chunks: Chunks, c: nat, more: nat)
    requires Tiled(lo, hi, chunks) && c in chunks && c + chunks[c] == hi
    requires Aligned(more) && MALLOC_MIN_SIZE <= more
    ensures Tiled(lo, hi + more, chunks[c := chunks[c] + more])
  {
    AppendTiled(lo, hi, chunks, more);
    var appended := chunks[hi := more];
    JoinTiled(lo, hi + more, appended, c, hi);
    assert Join(appended, c, hi) == chunks[c := chunks[c] + more];
  }

  // ----------------------------------------------------------- what it means

  /** Every address of the heap lies in exactly one chunk. */
  lemma EveryAddressInOneChunk(l: Layout, a: nat)
    requires Tiled(l.lo, l.hi, l.chunks) && l.lo <= a < l.hi
    ensures exists c :: c in l.chunks && c <= a < l.End(c)
                        && forall d :: d in l.chunks && d <= a < l.End(d) ==> d == c
  {
    var c := ChunkAt(l, l.lo, a);
    ClearOf(l.lo, l.hi, l.chunks, c);
    assert forall d :: d in l.chunks && d <= a < l.End(d) ==> d == c;
  }

  lemma ChunkAt(l: Layout, from: nat, a: nat) returns (c: nat)
    requires Tiled(l.lo, l.hi, l.chunks) && from in l.chunks && from <= a < l.hi
    ensures c in l.chunks && c <= a < l.End(c)
    decreases l.hi - from
  {
    assert ChunkOk(l.lo, l.hi, from, l.chunks[from]) && ChainedAt(l.hi, l.chunks, from);
    if a < l.End(from) {
      c := from;
    } else {
      c := ChunkAt(l, l.End(from), a);
    }
  }

  /** The free list is canonical: heap bounds and allocated blocks determine it,
      and with it every chunk. No order of operations can show. */
  lemma Canonical(k: Layout, l: Layout)
    requires WellFormed(k) && WellFormed(l)
    requires k.lo == l.lo && k.hi == l.hi && k.Live() == l.Live()
    ensures k == l
  {
    if k.lo < k.hi {
      SameChunksFrom(k, l, k.lo);
    }
    forall c
      ensures c in k.chunks <==> c in l.chunks
      ensures c in k.chunks ==> k.chunks[c] == l.chunks[c]
    {
      AllBelow(k.lo, k.hi, k.chunks);
      AllBelow(l.lo, l.hi, l.chunks);
      assert k.lo <= c && k.lo < k.hi ==> SameChunkAt(k, l, c);
    }
    assert k.chunks == l.chunks;
    forall c ensures c in k.free <==> c in l.free {
      LiveOrFree(k, c);
      LiveOrFree(l, c);
    }
    ListSorted(k, -1);
    ListSorted(l, -1);
    SortedUnique(k.free, l.free);
  }

  lemma ListSorted(l: Layout, gap: int)
    requires Separated(l, gap)
    ensures Sorted(l.free)
  {
    forall i, j | 0 <= i < j < |l.free|
      ensures l.free[i] < l.free[j]
    {
      assert InOrder(l, gap, i, j);
    }
  }

  lemma LiveOrFree(l: Layout, c: nat)
    requires Listed(l)
    ensures c in l.chunks <==> c in l.Live() || c in l.free
    ensures !(c in l.Live() && c in l.free)
  {
  }

  ghost predicate SameChunkAt(k: Layout, l: Layout, c: nat)
  {
    (c in k.chunks <==> c in l.chunks) && (c in k.chunks ==> k.chunks[c] == l.chunks[c])
  }

  lemma SameChunksFrom(k: Layout, l: Layout, a: nat)
    requires WellFormed(k) && WellFormed(l)
    requires k.lo == l.lo && k.hi == l.hi && k.Live() == l.Live()
    requires a in k.chunks && a in l.chunks
    ensures forall c :: a <= c ==> SameChunkAt(k, l, c)
    decreases k.hi - a
  {
    NotLonger(k, l, a);
    NotLonger(l, k, a);
    var e := k.End(a);
    assert ChunkOk(k.lo, k.hi, a, k.chunks[a]);
    assert ChainedAt(k.hi, k.chunks, a) && ChainedAt(l.hi, l.chunks, a);
    AllBelow(k.lo, k.hi, k.chunks);
    ClearOf(k.lo, k.hi, k.chunks, a);
    ClearOf(l.lo, l.hi, l.chunks, a);
    if e < k.hi {
      SameChunksFrom(k, l, e);
    }
    forall c | a <= c
      ensures SameChunkAt(k, l, c)
    {
      if a < c < e {
        assert c !in k.chunks && c !in l.chunks;
      }
    }
  }

  /** A chunk of one layout is no longer than the chunk of the other that starts at
      the same place: free chunks are maximal, because no two of them touch. */
  lemma NotLonger(k: Layout, l: Layout, a: nat)
    requires WellFormed(k) && WellFormed(l)
    requires k.hi == l.hi && k.Live() == l.Live()
    requires a in k.chunks && a in l.chunks
    ensures k.chunks[a] <= l.chunks[a]
  {
    if a in l.Live() {
      assert a in k.Live();
    } else if l.chunks[a] < k.chunks[a] {
      var e := l.End(a);
      ClearOf(k.lo, k.hi, k.chunks, a);
      assert ChunkOk(l.lo, l.hi, a, l.chunks[a]);
      assert ChainedAt(l.hi, l.chunks, a);
      if e in l.free {
        Touching(l, a, e);
      }
      LiveOrFree(l, e);
      assert false;
    }
  }

  lemma Touching(l: Layout, a: nat, b: nat)
    requires WellFormed(l) && a in l.free && b in l.free && a < b
    ensures l.End(a) < b
  {
    var i :| 0 <= i < |l.free| && l.free[i] == a;
    var j :| 0 <= j < |l.free| && l.free[j] == b;
    ListSorted(l, -1);
    assert InOrder(l, -1, i, j);
  }

  ghost predicate Sorted(s: seq<nat>)
  {
    forall i, j :: 0 <= i < j < |s| ==> s[i] < s[j]
  }

  lemma {:induction false} SortedUnique(s: seq<nat>, t: seq<nat>)
    requires Sorted(s) && Sorted(t)
    requires forall c :: c in s <==> c in t
    ensures s == t
  {
    if s == [] {
      if t != [] {
        HeadIn(t);
        assert false;
      }
    } else {
      HeadIn(s);
      HeadIn(t);
      assert s[0] == t[0];
      forall c
        ensures c in s[1..] <==> c in t[1..]
      {
        TailElement(s, c);
        TailElement(t, c);
      }
      SortedUnique(s[1..], t[1..]);
      assert s == [s[0]] + s[1..] && t == [t[0]] + t[1..];
    }
  }

  lemma HeadIn(s: seq<nat>)
    requires s != []
    ensures s[0] in s
  {
  }

  lemma TailElement(s: seq<nat>, c: nat)
    requires Sorted(s) && s != []
    ensures c in s[1..] <==> c in s && c != s[0]
  {
    if c in s && c != s[0] {
      var i :| 0 <= i < |s| && s[i] == c;
      assert s[1..][i - 1] == c;
    }
  }

  /** With nothing allocated, one free chunk spans the whole heap. */
  lemma AllFree(l: Layout)
    requires WellFormed(l) && l.lo < l.hi && l.Live() == map[]
    ensures l.free == [l.lo] && l.chunks == map[l.lo := l.hi - l.lo]
  {
    var one := Layout(l.lo, l.hi, map[l.lo := l.hi - l.lo], [l.lo]);
    assert ChunkOk(l.lo, l.hi, l.lo, l.chunks[l.lo]) && ChainedAt(l.hi, l.chunks, l.lo);
    if l.End(l.lo) in l.chunks {
      LiveOrFree(l, l.lo);
      LiveOrFree(l, l.End(l.lo));
      Touching(l, l.lo, l.End(l.lo));
      assert false;
    }
    assert ChunkOk(l.lo, l.hi, l.lo, one.chunks[l.lo]);
    assert WellFormed(one);
    assert one.Live() == map[];
    Canonical(l, one);
  }
}
