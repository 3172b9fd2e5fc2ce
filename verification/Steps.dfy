/** What each group of stores in noc_free, noc_malloc and noc_realloc does to the
    heap picture: which layout it leads to, that the picture is in place again, and
    that no allocated block loses data. */
module Steps {
  import opened Memory
  import opened Layout
  import opened Ram
  import opened Image

  // ----------------------------------------------------------- freeing a block

  function Put(free: seq<nat>, j: nat, c: nat): seq<nat>
    requires j <= |free|
  {
    free[..j] + [c] + free[j..]
  }

  lemma PutAt(free: seq<nat>, j: nat, c: nat, k: nat)
    requires j <= |free| && k <= |free|
    ensures Put(free, j, c)[k] == if k < j then free[k] else if k == j then c else free[k - 1]
  {
  }

  /** Where chunk `c` belongs in the list: after the nodes below it, none of which
      ends at it, and before the nodes above it. */
  ghost predicate Slot(l: Layout, j: nat, c: nat)
  {
    j <= |l.free| && forall k {:trigger SlotAt(l, j, c, k)} :: 0 <= k < |l.free| ==> SlotAt(l, j, c, k)
  }

  ghost predicate SlotAt(l: Layout, j: nat, c: nat, k: nat)
    requires k < |l.free|
  {
    if k < j then Below(l, c, k) else c < l.free[k]
  }

  ghost predicate Below(l: Layout, c: nat, k: nat)
    requires k < |l.free|
  {
    l.free[k] < c && l.free[k] in l.chunks && l.End(l.free[k]) != c
  }

  lemma PutSeparated(l: Layout, j: nat, c: nat)
    requires Tiled(l.lo, l.hi, l.chunks) && Listed(l) && Separated(l, -1)
    requires c in l.chunks && Slot(l, j, c)
    ensures Listed(l.(free := Put(l.free, j, c))) && Separated(l.(free := Put(l.free, j, c)), j)
  {
    var l' := l.(free := Put(l.free, j, c));
    forall k | 0 <= k < |l'.free|
      ensures l'.free[k] in l'.chunks
    {
      PutAt(l.free, j, c, k);
      if k != j { assert l.free[if k < j then k else k - 1] in l.chunks; }
    }
    forall a, b | 0 <= a < b < |l'.free|
      ensures InOrder(l', j, a, b)
    {
      PutInOrder(l, j, c, a, b);
    }
  }

  lemma PutInOrder(l: Layout, j: nat, c: nat, a: nat, b: nat)
    requires Tiled(l.lo, l.hi, l.chunks) && Listed(l) && Separated(l, -1)
    requires c in l.chunks && Slot(l, j, c) && a < b <= |l.free|
    ensures InOrder(l.(free := Put(l.free, j, c)), j, a, b)
  {
    ClearOf(l.lo, l.hi, l.chunks, c);
    PutAt(l.free, j, c, a);
    PutAt(l.free, j, c, b);
    if b < j {
      assert InOrder(l, -1, a, b);
    } else if b == j {
      assert SlotAt(l, j, c, a);
    } else if a < j {
      assert InOrder(l, -1, a, b - 1);
    } else if a > j {
      assert InOrder(l, -1, a - 1, b - 1);
    } else {
      assert SlotAt(l, j, c, b - 1);
      if b > j + 1 {
        assert SlotAt(l, j, c, j) && InOrder(l, -1, j, b - 1);
        assert l.free[j] in l.chunks;
      }
    }
  }

  lemma PutTail(w: Words, free: seq<nat>, j: nat, c: nat)
    requires LinksFrom(w, free, 0) && j <= |free|
    requires c + WORD in w && w[c + WORD] == NodeOf(free, j)
    ensures LinksFrom(w, Put(free, j, c), j)
  {
    var free' := Put(free, j, c);
    forall k | j <= k < |free'|
      ensures LinkAt(w, free', k)
    {
      PutAt(free, j, c, k);
      if k < |free| { PutAt(free, j, c, k + 1); }
      if k > j { assert LinkAt(w, free, k - 1); }
    }
  }

  lemma InsertLinks(w: Words, head: nat, l: Layout, j: nat, c: nat)
    requires Tiled(l.lo, l.hi, l.chunks) && Listed(l)
    requires head == NodeOf(l.free, 0) && LinksFrom(w, l.free, 0)
    requires j <= |l.free| && c in l.chunks && c !in l.free && c + WORD in w
    requires Sorted(Put(l.free, j, c))
    ensures LinkedHead(head, j, c) == NodeOf(Put(l.free, j, c), 0)
    ensures LinksFrom(Linked(w[c + WORD := NodeOf(l.free, j)], l.free, j, c), Put(l.free, j, c), 0)
  {
    var v := NodeOf(l.free, j);
    var w1 := w[c + WORD := v];
    var free' := Put(l.free, j, c);
    ClearOf(l.lo, l.hi, l.chunks, c);
    InnerKeepsLinks(w, l, c, c + WORD, v);
    PutTail(w1, l.free, j, c);
    assert l.free[..j] == free'[..j];
    PutAt(l.free, j, c, j);
    if j > 0 { assert LinkAt(w1, l.free, j - 1); }
    Relink(w1, head, l.free, free', j, c);
  }

  /** Linking chunk `c` in before node `j`. It may now touch the node after it. */
  lemma Insert(w: Words, head: nat, l: Layout, j: nat, c: nat)
    requires InPlace(w, head, l, -1) && c in l.Live() && Slot(l, j, c)
    ensures var w' := Linked(w[c + WORD := NodeOf(l.free, j)], l.free, j, c);
            var l' := l.(free := Put(l.free, j, c));
            && c + WORD in w && InPlace(w', LinkedHead(head, j, c), l', j)
            && l'.Live() == l.Live() - {c}
            && SameData(w, w', l'.Live())
  {
    var live := l.Live() - {c};
    var v := NodeOf(l.free, j);
    var w1 := w[c + WORD := v];
    var l' := l.(free := Put(l.free, j, c));
    SetNext(w, l.lo, l.hi, l.chunks, live, c, v);
    if j > 0 { NodeRoom(l, j - 1); }
    LinkedFrame(w1, l.lo, l.hi, l.free, l.chunks, live, j, c);
    SameDataTrans(w, w1, Linked(w1, l.free, j, c), live);
    PutSeparated(l, j, c);
    ListSorted(l', j);
    InsertLinks(w, head, l, j, c);
    assert l'.Live() == live;
  }

  /** The size store of a merge: chunk `a` grows over `b`, which it touches. */
  lemma JoinSizes(w: Words, lo: nat, hi: nat, chunks: Chunks, live: Chunks, a: nat, b: nat)
    requires Tiled(lo, hi, chunks) && Sizes(w, chunks - {b})
    requires a in chunks && b in chunks && a + chunks[a] == b
    requires Among(live, Join(chunks, a, b) - {a})
    ensures Tiled(lo, hi, Join(chunks, a, b)) && a in Join(chunks, a, b)
    ensures Sizes(w[a := chunks[a] + chunks[b]], Join(chunks, a, b))
    ensures SameData(w, w[a := chunks[a] + chunks[b]], live)
  {
    var joined := Join(chunks, a, b);
    ClearOf(lo, hi, chunks, b);
    JoinTiled(lo, hi, chunks, a, b);
    SizesSubset(w, chunks - {b}, joined - {a});
    assert SizeAt(w, chunks - {b}, a);
    SetSize(w, lo, hi, joined, live, a);
  }

  /** Growing free chunk `j` over the allocated chunk `c` to its right. */
  lemma MergeLeft(w: Words, head: nat, l: Layout, j: nat, c: nat)
    requires InPlace(w, head, l, -1) && j < |l.free| && c in l.Live()
    requires l.free[j] in l.chunks && l.End(l.free[j]) == c
    ensures var p := l.free[j];
            var w' := w[p := l.chunks[p] + l.chunks[c]];
            var l' := l.(chunks := Join(l.chunks, p, c));
            && p in w && InPlace(w', head, l', j)
            && l'.Live() == l.Live() - {c}
            && SameData(w, w', l'.Live())
  {
    var p := l.free[j];
    NodeRoom(l, j);
    assert SizeAt(w, l.chunks, p);
    SizesSubset(w, l.chunks, l.chunks - {c});
    JoinSizes(w, l.lo, l.hi, l.chunks, l.Live() - {c}, p, c);
    SizeKeepsLinks(w, l, p, l.chunks[p] + l.chunks[c]);
    JoinLeftSeparated(l, j, c);
    assert l.(chunks := Join(l.chunks, p, c)).Live() == l.Live() - {c};
  }

  lemma JoinLeftSeparated(l: Layout, j: nat, c: nat)
    requires Tiled(l.lo, l.hi, l.chunks) && Listed(l) && Separated(l, -1)
    requires j < |l.free| && c in l.chunks && c !in l.free
    requires l.free[j] in l.chunks && l.End(l.free[j]) == c
    ensures Listed(l.(chunks := Join(l.chunks, l.free[j], c)))
    ensures Separated(l.(chunks := Join(l.chunks, l.free[j], c)), j)
  {
    var l' := l.(chunks := Join(l.chunks, l.free[j], c));
    forall k | 0 <= k < |l.free|
      ensures l'.free[k] in l'.chunks
    {
      assert l.free[k] in l.chunks && l.free[k] in l.free;
    }
    ListSorted(l, -1);
    forall a, b | 0 <= a < b < |l.free|
      ensures InOrder(l', j, a, b)
    {
      assert InOrder(l, -1, a, b);
      assert l'.free[a] in l'.chunks;
      if a == j && b > j + 1 {
        assert InOrder(l, -1, j, j + 1) && InOrder(l, -1, j + 1, b);
        NodeClear(l, c, j + 1);
      }
    }
  }

  /** Growing free chunk `j` over the free chunk to its right, which leaves the list. */
  lemma MergeRight(w: Words, head: nat, l: Layout, j: nat)
    requires InPlace(w, head, l, j) && j + 1 < |l.free|
    requires l.free[j] in l.chunks && l.free[j + 1] in l.chunks
    requires l.End(l.free[j]) == l.free[j + 1]
    ensures var c, e := l.free[j], l.free[j + 1];
            var w' := w[c := l.chunks[c] + l.chunks[e]][c + WORD := NodeOf(l.free, j + 2)];
            var l' := l.(chunks := Join(l.chunks, c, e), free := Take(l.free, j + 1));
            && c in w && c + WORD in w && InPlace(w', head, l', -1)
            && l'.Live() == l.Live()
            && SameData(w, w', l.Live())
  {
    var c, e := l.free[j], l.free[j + 1];
    var size := l.chunks[c] + l.chunks[e];
    var w1 := w[c := size];
    NodeRoom(l, j);
    NodeRoom(l, j + 1);
    assert SizeAt(w, l.chunks, c) && LinkAt(w, l.free, j);
    SizesSubset(w, l.chunks, l.chunks - {e});
    JoinSizes(w, l.lo, l.hi, l.chunks, l.Live(), c, e);
    SizeKeepsLinks(w, l, c, size);
    ListSorted(l, j);
    TakeLinks(w1, head, l.free, j + 1);
    JoinRightSeparated(l, j);
    LinkedFrame(w1, l.lo, l.hi, l.free, Join(l.chunks, c, e), l.Live(), j + 1, NodeOf(l.free, j + 2));
    SameDataTrans(w, w1, Linked(w1, l.free, j + 1, NodeOf(l.free, j + 2)), l.Live());
  }

  lemma JoinRightSeparated(l: Layout, j: nat)
    requires Tiled(l.lo, l.hi, l.chunks) && Listed(l) && Separated(l, j) && j + 1 < |l.free|
    requires l.free[j] in l.chunks && l.free[j + 1] in l.chunks
    requires l.End(l.free[j]) == l.free[j + 1]
    ensures var l' := l.(chunks := Join(l.chunks, l.free[j], l.free[j + 1]), free := Take(l.free, j + 1));
            Listed(l') && Separated(l', -1) && l'.Live() == l.Live()
  {
    var c, e := l.free[j], l.free[j + 1];
    ListSorted(l, j);
    NodeIn(l, j);
    NodeIn(l, j + 1);
    var l' := l.(chunks := Join(l.chunks, c, e), free := Take(l.free, j + 1));
    forall x
      ensures x in l'.free <==> x in l.free && x != e
    {
      InTake(l.free, j + 1, x);
    }
    assert l'.Live() == l.Live();
    forall i | 0 <= i < |l'.free|
      ensures l'.free[i] in l'.chunks
    {
      TakeAt(l.free, j + 1, i);
      assert l.free[Untake(j + 1, i)] in l.chunks;
    }
    forall a, b | 0 <= a < b < |l'.free|
      ensures InOrder(l', -1, a, b)
    {
      JoinRightInOrder(l, j, a, b);
    }
  }

  lemma JoinRightInOrder(l: Layout, j: nat, a: nat, b: nat)
    requires Listed(l) && Separated(l, j) && j + 1 < |l.free| && a < b < |l.free| - 1
    requires l.free[j] in l.chunks && l.free[j + 1] in l.chunks
    requires l.End(l.free[j]) == l.free[j + 1]
    ensures InOrder(l.(chunks := Join(l.chunks, l.free[j], l.free[j + 1]), free := Take(l.free, j + 1)), -1, a, b)
  {
    ListSorted(l, j);
    TakeAt(l.free, j + 1, a);
    TakeAt(l.free, j + 1, b);
    assert InOrder(l, j, Untake(j + 1, a), Untake(j + 1, b));
    if a == j { assert InOrder(l, j, j + 1, b + 1); }
  }

  lemma NodeIn(l: Layout, j: nat)
    requires j < |l.free|
    ensures l.free[j] in l.free
  {
  }

  /** If the chunk at the gap does not touch the next node, there is no gap. */
  lemma NoGap(w: Words, head: nat, l: Layout, j: nat)
    requires InPlace(w, head, l, j) && j < |l.free| && l.free[j] in l.chunks
    requires j + 1 < |l.free| ==> l.End(l.free[j]) != l.free[j + 1]
    ensures InPlace(w, head, l, -1)
  {
    forall a, b | 0 <= a < b < |l.free|
      ensures InOrder(l, -1, a, b)
    {
      assert InOrder(l, j, a, b);
      if a == j && b == j + 1 { NodeClear(l, l.free[j], j + 1); }
    }
  }

  // --------------------------------------------------------- allocating a block

  /** Unlinking node `i`: the whole chunk becomes allocated. */
  lemma Unlink(w: Words, head: nat, l: Layout, i: nat)
    requires InPlace(w, head, l, -1) && i < |l.free|
    ensures l.free[i] in l.chunks && (i > 0 ==> l.free[i - 1] + WORD in w)
    ensures var v := NodeOf(l.free, i + 1);
            var w' := Linked(w, l.free, i, v);
            var l' := l.(free := Take(l.free, i));
            && InPlace(w', LinkedHead(head, i, v), l', -1)
            && l'.Live() == l.Live()[l.free[i] := l.chunks[l.free[i]]]
            && SameData(w, w', l.Live())
  {
    NodeRoom(l, i);
    if i > 0 { NodeRoom(l, i - 1); assert LinkAt(w, l.free, i - 1); }
    ListSorted(l, -1);
    TakeLinks(w, head, l.free, i);
    TakeSeparated(l, -1, i);
    TakeLive(l, i);
    LiveAmong(l);
    LinkedFrame(w, l.lo, l.hi, l.free, l.chunks, l.Live(), i, NodeOf(l.free, i + 1));
  }

  /** The layout once the first `size` bytes of free chunk `i` are handed out and the
      rest has taken its place in the list. */
  function Carved(l: Layout, i: nat, size: nat): Layout
    requires i < |l.free| && l.free[i] in l.chunks && size <= l.chunks[l.free[i]]
  {
    l.(chunks := Split(l.chunks, l.free[i], size), free := l.free[i := l.free[i] + size])
  }

  ghost predicate Carvable(l: Layout, i: nat, size: nat)
  {
    && i < |l.free| && l.free[i] in l.chunks
    && Aligned(size) && MALLOC_MIN_SIZE <= size && size + MALLOC_MIN_SIZE <= l.chunks[l.free[i]]
  }

  /** Cutting free chunk `i`: its first part is handed out, the rest takes its place
      in the list. The stores are those of the source, in its order. */
  lemma Carve(w: Words, head: nat, l: Layout, i: nat, size: nat)
    requires InPlace(w, head, l, -1) && Carvable(l, i, size)
    ensures var c := l.free[i];
            var o := c + size;
            var w2 := w[o := l.chunks[c] - size][o + WORD := NodeOf(l.free, i + 1)];
            var w' := Linked(w2, l.free, i, o)[c := size];
            && c in w && o in w && o + WORD in w && (i > 0 ==> l.free[i - 1] + WORD in w)
            && InPlace(w', LinkedHead(head, i, o), Carved(l, i, size), -1)
            && Carved(l, i, size).Live() == l.Live()[c := size]
            && SameData(w, w', l.Live())
  {
    var c := l.free[i];
    var o := c + size;
    CarveRoom(w, head, l, i, size);
    CarveLayout(l, i, size);
    CarveSizes(w, l.lo, l.hi, l.chunks, l.Live(), l.free, i, size);
    CarveLinks(w, head, l, i, size);
    var w2 := w[o := l.chunks[c] - size][o + WORD := NodeOf(l.free, i + 1)];
    SizeKeepsLinks(Linked(w2, l.free, i, o), Carved(l, i, size), c, size);
  }

  lemma CarveRoom(w: Words, head: nat, l: Layout, i: nat, size: nat)
    requires InPlace(w, head, l, -1) && Carvable(l, i, size)
    ensures var c := l.free[i];
            && c in w && c + size in w && c + size + WORD in w
            && c !in l.Live() && Among(l.Live(), l.chunks)
            && (i > 0 ==> var p := l.free[i - 1]; p + WORD in w && p in l.chunks && p !in l.Live() && p != c)
  {
    var c: nat := l.free[i];
    NodeRoom(l, i);
    if i > 0 { NodeRoom(l, i - 1); assert LinkAt(w, l.free, i - 1) && InOrder(l, -1, i - 1, i); }
    assert ChunkOk(l.lo, l.hi, c, l.chunks[c]) && IsWord(l.hi, c + size) && IsWord(l.hi, c + size + WORD);
    assert SizeAt(w, l.chunks, c);
  }

  lemma CarveLayout(l: Layout, i: nat, size: nat)
    requires Tiled(l.lo, l.hi, l.chunks) && Listed(l) && Separated(l, -1) && Carvable(l, i, size)
    ensures var l' := Carved(l, i, size);
            && Tiled(l.lo, l.hi, l'.chunks) && Listed(l') && Separated(l', -1) && Sorted(l'.free)
            && l'.Live() == l.Live()[l.free[i] := size]
  {
    SplitTiled(l.lo, l.hi, l.chunks, l.free[i], size);
    CarveSeparated(l, i, size);
    ListSorted(Carved(l, i, size), -1);
  }

  lemma CarveSeparated(l: Layout, i: nat, size: nat)
    requires Tiled(l.lo, l.hi, l.chunks) && Listed(l) && Separated(l, -1)
    requires i < |l.free| && l.free[i] in l.chunks && 0 < size < l.chunks[l.free[i]]
    requires l.free[i] + size !in l.chunks
    ensures var l' := Carved(l, i, size);
            Listed(l') && Separated(l', -1) && l'.Live() == l.Live()[l.free[i] := size]
  {
    var c, o := l.free[i], l.free[i] + size;
    var l' := Carved(l, i, size);
    forall k | 0 <= k < |l'.free|
      ensures l'.free[k] in l'.chunks
    {
      assert l.free[k] in l.chunks;
    }
    ListSorted(l, -1);
    forall a, b | 0 <= a < b < |l'.free|
      ensures InOrder(l', -1, a, b)
    {
      assert InOrder(l, -1, a, b);
      assert l'.free[a] in l'.chunks && l.free[b] in l.chunks;
    }
    forall x
      ensures x in l'.free <==> (x in l.free && x != c) || x == o
    {
      InReplaced(l.free, i, o, x);
    }
    NodeIn(l, i);
    assert l'.Live() == l.Live()[c := size];
  }

  lemma InReplaced(free: seq<nat>, i: nat, o: nat, x: nat)
    requires Sorted(free) && i < |free|
    ensures x in free[i := o] <==> (x in free && x != free[i]) || x == o
  {
    var free' := free[i := o];
    assert free'[i] == o;
    if x in free && x != free[i] {
      var k :| 0 <= k < |free| && free[k] == x;
      assert free'[k] == x;
    }
    if x in free' && x != o {
      var k :| 0 <= k < |free'| && free'[k] == x;
      assert k != i && free[k] == x;
    }
  }

  lemma FewerChunks(lo: nat, hi: nat, chunks: Chunks, fewer: Chunks)
    requires Sized(lo, hi, chunks) && Apart(chunks) && Among(fewer, chunks)
    ensures Sized(lo, hi, fewer) && Apart(fewer)
  {
    forall c | c in fewer
      ensures ChunkOk(lo, hi, c, fewer[c])
    {
      assert ChunkOk(lo, hi, c, chunks[c]);
    }
    forall c, d | c in fewer && d in fewer
      ensures ApartAt(fewer, c, d)
    {
      assert ApartAt(chunks, c, d);
    }
  }

  lemma RestOfSplit(lo: nat, hi: nat, chunks: Chunks, live: Chunks, c: nat, size: nat)
    requires Tiled(lo, hi, chunks) && c in chunks && Among(live, chunks) && c !in live
    requires Aligned(size) && MALLOC_MIN_SIZE <= size && size + MALLOC_MIN_SIZE <= chunks[c]
    ensures var split, rest := Split(chunks, c, size), Split(chunks, c, size) - {c};
            && Tiled(lo, hi, split) && Sized(lo, hi, rest) && Apart(rest)
            && c + size !in chunks && c + size in rest && rest[c + size] == chunks[c] - size
            && Among(live, rest) && Among(rest - {c + size}, chunks)
  {
    SplitTiled(lo, hi, chunks, c, size);
    FewerChunks(lo, hi, Split(chunks, c, size), Split(chunks, c, size) - {c});
  }

  lemma CarveSizes(w: Words, lo: nat, hi: nat, chunks: Chunks, live: Chunks, free: seq<nat>, i: nat, size: nat)
    requires Tiled(lo, hi, chunks) && Sizes(w, chunks)
    requires i < |free| && free[i] in chunks && Among(live, chunks) && free[i] !in live
    requires Aligned(size) && MALLOC_MIN_SIZE <= size && size + MALLOC_MIN_SIZE <= chunks[free[i]]
    requires free[i] + size in w && free[i] + size + WORD in w
    requires i > 0 ==> free[i - 1] in chunks && free[i - 1] !in live && free[i - 1] != free[i]
    ensures var c := free[i];
            var o := c + size;
            var w2 := w[o := chunks[c] - size][o + WORD := NodeOf(free, i + 1)];
            var w' := Linked(w2, free, i, o)[c := size];
            Sizes(w', Split(chunks, c, size)) && SameData(w, w', live)
  {
    var c := free[i];
    var o := c + size;
    var split := Split(chunks, c, size);
    RestOfSplit(lo, hi, chunks, live, c, size);
    assert SizeAt(w, chunks, c);
    var w2 := NewChunk(w, lo, hi, split - {c}, chunks, live, o, NodeOf(free, i + 1));
    LinkedFrame(w2, lo, hi, free, split - {c}, live, i, o);
    var w3 := Linked(w2, free, i, o);
    SetSize(w3, lo, hi, split, live, c);
    SameDataTrans(w, w2, w3, live);
    SameDataTrans(w, w3, w3[c := size], live);
  }

  // The two stores that make a chunk of its own out of part of another.
  lemma NewChunk(w: Words, lo: nat, hi: nat, chunks: Chunks, known: Chunks, live: Chunks, o: nat, v: nat)
    returns (w2: Words)
    requires Sized(lo, hi, chunks) && Apart(chunks)
    requires o in chunks && Sizes(w, known) && Among(chunks - {o}, known)
    requires Among(live, chunks) && o !in live && o in w && o + WORD in w
    ensures w2 == w[o := chunks[o]][o + WORD := v]
    ensures Sizes(w2, chunks) && SameData(w, w2, live)
  {
    var w1 := w[o := chunks[o]];
    SizesSubset(w, known, chunks - {o});
    SetSize(w, lo, hi, chunks, live, o);
    SetNext(w1, lo, hi, chunks, live, o, v);
    w2 := w1[o + WORD := v];
    SameDataTrans(w, w1, w2, live);
  }

  lemma ReplaceTail(w: Words, free: seq<nat>, i: nat, o: nat)
    requires LinksFrom(w, free, 0) && i < |free|
    requires o + WORD in w && w[o + WORD] == NodeOf(free, i + 1)
    ensures LinksFrom(w, free[i := o], i)
  {
    var free' := free[i := o];
    forall k | i <= k < |free'|
      ensures LinkAt(w, free', k)
    {
      if k > i { assert LinkAt(w, free, k); }
    }
  }

  lemma CarveLinks(w: Words, head: nat, l: Layout, i: nat, size: nat)
    requires Tiled(l.lo, l.hi, l.chunks) && Listed(l)
    requires head == NodeOf(l.free, 0) && LinksFrom(w, l.free, 0)
    requires i < |l.free| && l.free[i] in l.chunks
    requires MALLOC_MIN_SIZE <= size && size + MALLOC_MIN_SIZE <= l.chunks[l.free[i]]
    requires l.free[i] + size in w && l.free[i] + size + WORD in w
    requires Sorted(l.free[i := l.free[i] + size])
    ensures var o := l.free[i] + size;
            var w2 := w[o := l.chunks[l.free[i]] - size][o + WORD := NodeOf(l.free, i + 1)];
            && LinkedHead(head, i, o) == NodeOf(l.free[i := o], 0)
            && LinksFrom(Linked(w2, l.free, i, o), l.free[i := o], 0)
  {
    var c := l.free[i];
    var o := c + size;
    var v := NodeOf(l.free, i + 1);
    var free' := l.free[i := o];
    var w1 := w[o := l.chunks[c] - size];
    var w2 := w1[o + WORD := v];
    forall k | 0 <= k < |l.free|
      ensures l.free[k] + WORD != o && l.free[k] + WORD != o + WORD
    {
      NodeClear(l, c, k);
    }
    LinksFrame(w, l.free, 0, o, l.chunks[c] - size);
    LinksFrame(w1, l.free, 0, o + WORD, v);
    ReplaceTail(w2, l.free, i, o);
    assert l.free[..i] == free'[..i];
    if i > 0 { assert LinkAt(w2, l.free, i - 1); }
    Relink(w2, head, l.free, free', i, o);
  }

  // The list is in order whatever happens to chunks that are not on it.
  lemma SameOrder(l: Layout, l': Layout)
    requires Listed(l) && Separated(l, -1) && l'.free == l.free
    requires forall c :: c in l.chunks && c in l.free ==> c in l'.chunks && l'.chunks[c] == l.chunks[c]
    ensures Listed(l') && Separated(l', -1)
  {
    forall i | 0 <= i < |l'.free|
      ensures l'.free[i] in l'.chunks
    {
      assert l.free[i] in l.chunks;
      NodeIn(l, i);
    }
    forall i, j | 0 <= i < j < |l'.free|
      ensures InOrder(l', -1, i, j)
    {
      assert InOrder(l, -1, i, j);
      NodeIn(l, i);
    }
  }

  /** The fresh memory at the top of the heap becomes an allocated chunk. */
  lemma Append(w: Words, head: nat, l: Layout, size: nat)
    requires InPlace(w, head, l, -1) && Covers(w, l.hi + size)
    requires Aligned(size) && MALLOC_MIN_SIZE <= size
    ensures var w' := w[l.hi := size];
            var l' := l.(hi := l.hi + size, chunks := l.chunks[l.hi := size]);
            && l.hi in w && InPlace(w', head, l', -1)
            && l.hi !in l.chunks && l'.Live() == l.Live()[l.hi := size]
            && SameData(w, w', l.Live())
  {
    var l' := l.(hi := l.hi + size, chunks := l.chunks[l.hi := size]);
    AppendTiled(l.lo, l.hi, l.chunks, size);
    assert IsWord(l'.hi, l.hi) && IsWord(l'.hi, l.hi + WORD);
    SizesSubset(w, l.chunks, l'.chunks - {l.hi});
    SetSize(w, l'.lo, l'.hi, l'.chunks, l.Live(), l.hi);
    SameOrder(l, l');
    SizeKeepsLinks(w, l', l.hi, size);
    TopNotListed(l);
    assert l'.Live() == l.Live()[l.hi := size];
  }

  lemma TopNotListed(l: Layout)
    requires Tiled(l.lo, l.hi, l.chunks) && Listed(l)
    ensures l.hi !in l.free
  {
    forall k | 0 <= k < |l.free|
      ensures l.free[k] != l.hi
    {
      NodeRoom(l, k);
    }
  }

  /** The allocated chunk at the top of the heap grows into fresh memory. */
  lemma GrowTop(w: Words, head: nat, l: Layout, c: nat, more: nat)
    requires InPlace(w, head, l, -1) && Covers(w, l.hi + more)
    requires c in l.Live() && l.End(c) == l.hi
    requires Aligned(more) && MALLOC_MIN_SIZE <= more
    ensures var w' := w[c := l.chunks[c] + more];
            var l' := l.(hi := l.hi + more, chunks := l.chunks[c := l.chunks[c] + more]);
            && c in w && InPlace(w', head, l', -1)
            && l'.Live() == l.Live()[c := l.chunks[c] + more]
            && SameData(w, w', l.Live())
  {
    var l' := l.(hi := l.hi + more, chunks := l.chunks[c := l.chunks[c] + more]);
    GrowTiled(l.lo, l.hi, l.chunks, c, more);
    assert SizeAt(w, l.chunks, c);
    SizesSubset(w, l.chunks, l'.chunks - {c});
    SetSize(w, l'.lo, l'.hi, l'.chunks, map[], c);
    HeaderKeepsData(w, l, c, l.chunks[c] + more);
    SameOrder(l, l');
    SizeKeepsLinks(w, l', c, l.chunks[c] + more);
    assert l'.Live() == l.Live()[c := l.chunks[c] + more];
  }

  // Storing a header never touches the data of any block.
  lemma HeaderKeepsData(w: Words, l: Layout, c: nat, v: nat)
    requires Tiled(l.lo, l.hi, l.chunks) && c in l.chunks && c in w
    ensures SameData(w, w[c := v], l.Live())
  {
    ClearOf(l.lo, l.hi, l.chunks, c);
    DataFrame(w, l.Live(), c, v);
  }

  // -------------------------------------------------------- resizing in place

  /** The data of a block of chunk size `size` has moved from chunk `c` to `c'`. */
  ghost predicate Carried(w: Words, c: nat, w': Words, c': nat, size: nat)
  {
    forall x {:trigger w'[x]} :: x in w' && c' + WORD <= x < c' + size ==>
      x - c' + c in w && w'[x] == w[x - c' + c]
  }

  /** Merging two allocated chunks that touch; the memory `w` may already have lost
      the header of the second. */
  lemma JoinLive(w: Words, head: nat, l: Layout, a: nat, b: nat)
    requires WellFormed(l) && Covers(w, l.hi) && Sizes(w, l.chunks - {b})
    requires head == NodeOf(l.free, 0) && LinksFrom(w, l.free, 0)
    requires a in l.Live() && b in l.Live() && l.End(a) == b
    ensures var size := l.chunks[a] + l.chunks[b];
            var l' := l.(chunks := Join(l.chunks, a, b));
            && a in w && InPlace(w[a := size], head, l', -1)
            && l'.Live() == (l.Live() - {b})[a := size]
            && SameData(w, w[a := size], l'.Live())
  {
    var size := l.chunks[a] + l.chunks[b];
    var l' := l.(chunks := Join(l.chunks, a, b));
    ClearOf(l.lo, l.hi, l.chunks, b);
    assert SizeAt(w, l.chunks - {b}, a);
    JoinSizes(w, l.lo, l.hi, l.chunks, map[], a, b);
    SameOrder(l, l');
    SizeKeepsLinks(w, l, a, size);
    HeaderKeepsData(w, l', a, size);
    assert l'.Live() == (l.Live() - {b})[a := size];
  }

  /** Moving the data of block `b` down to block `a` just below it: the header of
      `b` may be lost, nothing else is. */
  lemma MoveDown(w: Words, w': Words, head: nat, l: Layout, a: nat, b: nat)
    requires InPlace(w, head, l, -1) && a in l.Live() && b in l.Live() && l.End(a) == b
    requires WORD <= l.chunks[b] && WordsMoved(w, w', a + WORD, b + WORD, l.chunks[b] - WORD)
    ensures Covers(w', l.hi) && Sizes(w', l.chunks - {b}) && LinksFrom(w', l.free, 0)
    ensures SameData(w, w', l.Live() - {a} - {b})
    ensures Carried(w, b, w', a, l.chunks[b])
  {
    MoveDownSizes(w, w', l, a, b);
    MoveDownLinks(w, w', l, a, b);
    MoveDownData(w, w', l, a, b);
  }

  lemma MoveDownSizes(w: Words, w': Words, l: Layout, a: nat, b: nat)
    requires Tiled(l.lo, l.hi, l.chunks) && Covers(w, l.hi) && Sizes(w, l.chunks)
    requires a in l.chunks && b in l.chunks && l.End(a) == b
    requires WORD <= l.chunks[b] && WordsMoved(w, w', a + WORD, b + WORD, l.chunks[b] - WORD)
    ensures Covers(w', l.hi) && Sizes(w', l.chunks - {b})
  {
    ClearOf(l.lo, l.hi, l.chunks, a);
    ClearOf(l.lo, l.hi, l.chunks, b);
    forall c | c in l.chunks && c != b
      ensures SizeAt(w', l.chunks - {b}, c)
    {
      assert SizeAt(w, l.chunks, c);
    }
    forall x | IsWord(l.hi, x)
      ensures x in w'
    {
      assert x in w;
    }
  }

  lemma MoveDownLinks(w: Words, w': Words, l: Layout, a: nat, b: nat)
    requires Tiled(l.lo, l.hi, l.chunks) && Listed(l) && LinksFrom(w, l.free, 0)
    requires a in l.Live() && b in l.Live() && l.End(a) == b
    requires WORD <= l.chunks[b] && WordsMoved(w, w', a + WORD, b + WORD, l.chunks[b] - WORD)
    ensures LinksFrom(w', l.free, 0)
  {
    forall i | 0 <= i < |l.free|
      ensures LinkAt(w', l.free, i)
    {
      assert LinkAt(w, l.free, i);
      NodeRoom(l, i);
      NodeClear(l, a, i);
      NodeClear(l, b, i);
    }
  }

  lemma MoveDownData(w: Words, w': Words, l: Layout, a: nat, b: nat)
    requires Tiled(l.lo, l.hi, l.chunks)
    requires a in l.Live() && b in l.Live() && l.End(a) == b
    requires WORD <= l.chunks[b] && WordsMoved(w, w', a + WORD, b + WORD, l.chunks[b] - WORD)
    ensures SameData(w, w', l.Live() - {a} - {b})
    ensures Carried(w, b, w', a, l.chunks[b])
  {
    ClearOf(l.lo, l.hi, l.chunks, a);
    ClearOf(l.lo, l.hi, l.chunks, b);
    var live := l.Live() - {a} - {b};
    forall d | d in live
      ensures SameBlock(w, w', d, live[d])
    {
      assert d in l.chunks && d != a && d != b;
    }
  }

  /** A store into the data of block `c` spoils only what lies from there on. */
  lemma InnerStore(w: Words, head: nat, l: Layout, c: nat, x: nat, v: nat)
    requires InPlace(w, head, l, -1) && c in l.Live() && x in w && c + WORD <= x < l.End(c)
    ensures InPlace(w[x := v], head, l, -1)
    ensures SameData(w, w[x := v], l.Live()[c := x - c])
  {
    ClearOf(l.lo, l.hi, l.chunks, c);
    SizesFrame(w, l.chunks, x, v);
    InnerKeepsLinks(w, l, c, x, v);
    DataFrame(w, l.Live()[c := x - c], x, v);
  }

  /** Cutting an allocated chunk in two. */
  lemma SplitLive(w: Words, head: nat, l: Layout, c: nat, size: nat)
    requires InPlace(w, head, l, -1) && c in l.Live()
    requires Aligned(size) && MALLOC_MIN_SIZE <= size && size + MALLOC_MIN_SIZE <= l.chunks[c]
    ensures var o := c + size;
            var w' := w[c := size][o := l.chunks[c] - size];
            var l' := l.(chunks := Split(l.chunks, c, size));
            && c in w && o in w && o !in l.chunks && InPlace(w', head, l', -1)
            && l'.Live() == l.Live()[c := size][o := l.chunks[c] - size]
            && SameData(w, w', l.Live()[c := size])
  {
    var o := c + size;
    var l' := l.(chunks := Split(l.chunks, c, size));
    SplitTiled(l.lo, l.hi, l.chunks, c, size);
    ClearOf(l.lo, l.hi, l.chunks, c);
    assert ChunkOk(l.lo, l.hi, c, l.chunks[c]) && IsWord(l.hi, o) && IsWord(l.hi, o + WORD);
    assert SizeAt(w, l.chunks, c);
    SplitLiveSizes(w, l, c, size);
    SameOrder(l, l');
    var w1 := w[c := size];
    SizeKeepsLinks(w, l, c, size);
    InnerKeepsLinks(w1, l, c, o, l.chunks[c] - size);
    NotListed(l, o);
    assert l'.Live() == l.Live()[c := size][o := l.chunks[c] - size];
  }

  lemma NotListed(l: Layout, o: nat)
    requires Listed(l) && o !in l.chunks
    ensures o !in l.free
  {
    forall k | 0 <= k < |l.free|
      ensures l.free[k] != o
    {
      assert l.free[k] in l.chunks;
    }
  }

  lemma SplitLiveSizes(w: Words, l: Layout, c: nat, size: nat)
    requires Tiled(l.lo, l.hi, l.chunks) && Sizes(w, l.chunks) && c in l.Live()
    requires MALLOC_MIN_SIZE <= size && size + MALLOC_MIN_SIZE <= l.chunks[c]
    requires Tiled(l.lo, l.hi, Split(l.chunks, c, size)) && c + size !in l.chunks
    requires c in w && c + WORD in w && c + size in w && c + size + WORD in w
    ensures var w' := w[c := size][c + size := l.chunks[c] - size];
            Sizes(w', Split(l.chunks, c, size)) && SameData(w, w', l.Live()[c := size])
  {
    var o := c + size;
    var split := Split(l.chunks, c, size);
    var w1 := w[c := size];
    var w' := w1[o := l.chunks[c] - size];
    ClearOf(l.lo, l.hi, l.chunks, c);
    forall d | d in split
      ensures SizeAt(w', split, d)
    {
      if d != c && d != o { assert SizeAt(w, l.chunks, d); }
    }
    DataFrame(w, l.Live()[c := size], c, size);
    DataFrame(w1, l.Live()[c := size], o, l.chunks[c] - size);
    SameDataTrans(w, w1, w', l.Live()[c := size]);
  }

  /** Copying into the data part of block `a` from elsewhere. */
  lemma CopyInto(w: Words, w': Words, head: nat, l: Layout, a: nat, src: nat, size: nat)
    requires InPlace(w, head, l, -1) && a in l.Live()
    requires WORD <= size <= l.chunks[a] && WordsMoved(w, w', a + WORD, src + WORD, size - WORD)
    ensures InPlace(w', head, l, -1)
    ensures SameData(w, w', l.Live() - {a})
    ensures Carried(w, src, w', a, size)
  {
    ClearOf(l.lo, l.hi, l.chunks, a);
    CopySizes(w, w', l, a, size, src);
    CopyLinks(w, w', l, a, size, src);
    forall d | d in l.Live() && d != a
      ensures SameBlock(w, w', d, l.Live()[d])
    {
      assert d in l.chunks;
    }
  }

  lemma CopySizes(w: Words, w': Words, l: Layout, a: nat, size: nat, src: nat)
    requires Tiled(l.lo, l.hi, l.chunks) && Covers(w, l.hi) && Sizes(w, l.chunks) && a in l.chunks
    requires WORD <= size <= l.chunks[a] && WordsMoved(w, w', a + WORD, src + WORD, size - WORD)
    ensures Covers(w', l.hi) && Sizes(w', l.chunks)
  {
    ClearOf(l.lo, l.hi, l.chunks, a);
    forall c | c in l.chunks
      ensures SizeAt(w', l.chunks, c)
    {
      assert SizeAt(w, l.chunks, c);
    }
    forall x | IsWord(l.hi, x)
      ensures x in w'
    {
      assert x in w;
    }
  }

  lemma CopyLinks(w: Words, w': Words, l: Layout, a: nat, size: nat, src: nat)
    requires Tiled(l.lo, l.hi, l.chunks) && Listed(l) && LinksFrom(w, l.free, 0) && a in l.Live()
    requires WORD <= size <= l.chunks[a] && WordsMoved(w, w', a + WORD, src + WORD, size - WORD)
    ensures LinksFrom(w', l.free, 0)
  {
    forall i | 0 <= i < |l.free|
      ensures LinkAt(w', l.free, i)
    {
      assert LinkAt(w, l.free, i);
      NodeRoom(l, i);
      NodeClear(l, a, i);
    }
  }
}
