/** The layout as it is written into memory: every chunk starts with its size, and
    the second word of a free chunk links to the next free chunk. The lemmas say
    what storing one word does to that picture and to the data of allocated blocks. */
module Image {
  import opened Memory
  import opened Layout
  import opened Ram

  // ---------------------------------------------------------------- the picture

  ghost predicate SizeAt(w: Words, chunks: Chunks, c: nat)
    requires c in chunks
  {
    c in w && c + WORD in w && w[c] == chunks[c]
  }

  ghost predicate Sizes(w: Words, chunks: Chunks)
  {
    forall c {:trigger SizeAt(w, chunks, c)} :: c in chunks ==> SizeAt(w, chunks, c)
  }

  // The address of list node `i`; past the end of the list, NULL.
  function NodeOf(free: seq<nat>, i: nat): nat { if i < |free| then free[i] else 0 }

  ghost predicate LinkAt(w: Words, free: seq<nat>, i: nat)
    requires i < |free|
  {
    free[i] + WORD in w && w[free[i] + WORD] == NodeOf(free, i + 1)
  }

  ghost predicate LinksFrom(w: Words, free: seq<nat>, from: nat)
  {
    forall i {:trigger LinkAt(w, free, i)} :: from <= i < |free| ==> LinkAt(w, free, i)
  }

  // Every aligned word of the heap exists.
  ghost predicate Covers(w: Words, hi: nat)
  {
    forall a {:trigger IsWord(hi, a)} :: IsWord(hi, a) ==> a in w
  }

  ghost predicate Stored(w: Words, head: nat, l: Layout)
  {
    Sizes(w, l.chunks) && head == NodeOf(l.free, 0) && LinksFrom(w, l.free, 0)
  }

  /** The whole invariant. Between operations gap == -1; in the middle of a free the
      chunk at index `gap` of the list may touch the next one. */
  ghost predicate InPlace(w: Words, head: nat, l: Layout, gap: int)
  {
    && Tiled(l.lo, l.hi, l.chunks) && Listed(l) && Separated(l, gap)
    && Covers(w, l.hi) && Stored(w, head, l)
  }

  // The data of a block of chunk size `size` at chunk `c` starts one word in.
  ghost predicate SameBlock(w: Words, w': Words, c: nat, size: nat)
  {
    forall x {:trigger w'[x]} :: x in w && x in w' && c + WORD <= x < c + size ==> w'[x] == w[x]
  }

  /** The data of every block of `live` is the same in both memories. */
  ghost predicate SameData(w: Words, w': Words, live: Chunks)
  {
    && w'.Keys == w.Keys
    && (forall d {:trigger SameBlock(w, w', d, live[d])} :: d in live ==> SameBlock(w, w', d, live[d]))
  }

  lemma SameDataTrans(a: Words, b: Words, c: Words, live: Chunks)
    requires SameData(a, b, live) && SameData(b, c, live)
    ensures SameData(a, c, live)
  {
    forall d | d in live
      ensures SameBlock(a, c, d, live[d])
    {
      assert SameBlock(a, b, d, live[d]) && SameBlock(b, c, d, live[d]);
      assert forall x {:trigger c[x]} :: x in c && d + WORD <= x < d + live[d] ==> c[x] == b[x] == a[x];
    }
  }

  lemma SameDataFewer(w: Words, w': Words, live: Chunks, fewer: Chunks)
    requires SameData(w, w', live)
    requires forall d {:trigger d in fewer} :: d in fewer ==> d in live && fewer[d] <= live[d]
    ensures SameData(w, w', fewer)
  {
    forall d | d in fewer
      ensures SameBlock(w, w', d, fewer[d])
    {
      assert SameBlock(w, w', d, live[d]);
    }
  }

  // --------------------------------------------------- what a store leaves alone

  lemma SizesFrame(w: Words, chunks: Chunks, x: nat, v: nat)
    requires Sizes(w, chunks) && x in w && x !in chunks
    ensures Sizes(w[x := v], chunks)
  {
    forall c | c in chunks
      ensures SizeAt(w[x := v], chunks, c)
    {
      assert SizeAt(w, chunks, c);
    }
  }

  lemma LinksFrame(w: Words, free: seq<nat>, from: nat, x: nat, v: nat)
    requires LinksFrom(w, free, from) && x in w
    requires forall i :: from <= i < |free| ==> free[i] + WORD != x
    ensures LinksFrom(w[x := v], free, from)
  {
    var w' := w[x := v];
    forall i | from <= i < |free|
      ensures LinkAt(w', free, i)
    {
      assert LinkAt(w, free, i);
    }
  }

  lemma DataFrame(w: Words, live: Chunks, x: nat, v: nat)
    requires x in w
    requires forall d :: d in live ==> x < d + WORD || d + live[d] <= x
    ensures SameData(w, w[x := v], live)
  {
  }

  // -------------------------------------------- stores into a chunk's two words

  ghost predicate Among(live: Chunks, chunks: Chunks)
  {
    forall d {:trigger d in live} :: d in live ==> d in chunks && live[d] == chunks[d]
  }

  lemma LiveAmong(l: Layout)
    ensures Among(l.Live(), l.chunks)
  {
  }

  lemma SizesSubset(w: Words, chunks: Chunks, fewer: Chunks)
    requires Sizes(w, chunks) && Among(fewer, chunks)
    ensures Sizes(w, fewer)
  {
    forall c | c in fewer
      ensures SizeAt(w, fewer, c)
    {
      assert SizeAt(w, chunks, c);
    }
  }

  /** Storing the size of a chunk. */
  lemma SetSize(w: Words, lo: nat, hi: nat, chunks: Chunks, live: Chunks, c: nat)
    requires Sized(lo, hi, chunks) && Apart(chunks) && Sizes(w, chunks - {c})
    requires c in chunks && c in w && c + WORD in w && Among(live, chunks)
    ensures Sizes(w[c := chunks[c]], chunks)
    ensures SameData(w, w[c := chunks[c]], live)
  {
    ClearOf(lo, hi, chunks, c);
    var w' := w[c := chunks[c]];
    forall d | d in chunks
      ensures SizeAt(w', chunks, d)
    {
      if d != c { assert SizeAt(w, chunks - {c}, d); }
    }
    DataFrame(w, live, c, chunks[c]);
  }

  /** Storing the second word of a chunk whose data does not matter. */
  lemma SetNext(w: Words, lo: nat, hi: nat, chunks: Chunks, live: Chunks, c: nat, v: nat)
    requires Sized(lo, hi, chunks) && Apart(chunks) && Sizes(w, chunks)
    requires c in chunks && Among(live, chunks) && c !in live
    ensures c + WORD in w
    ensures Sizes(w[c + WORD := v], chunks)
    ensures SameData(w, w[c + WORD := v], live)
  {
    assert SizeAt(w, chunks, c);
    ClearOf(lo, hi, chunks, c);
    SizesFrame(w, chunks, c + WORD, v);
    DataFrame(w, live, c + WORD, v);
  }

  // ---------------------------------------------------------------- list nodes

  lemma NodeRoom(l: Layout, i: nat)
    requires Tiled(l.lo, l.hi, l.chunks) && Listed(l) && i < |l.free|
    ensures l.free[i] in l.chunks && l.free[i] in l.free && l.free[i] !in l.Live()
    ensures l.lo <= l.free[i] && l.free[i] + MALLOC_MIN_SIZE <= l.End(l.free[i]) <= l.hi
  {
    assert l.free[i] in l.chunks;
    assert ChunkOk(l.lo, l.hi, l.free[i], l.chunks[l.free[i]]);
  }

  // A node other than `c` does not reach into `c`, nor `c` into it.
  lemma NodeClear(l: Layout, c: nat, i: nat)
    requires Tiled(l.lo, l.hi, l.chunks) && Listed(l) && c in l.chunks && i < |l.free|
    ensures l.free[i] == c || l.free[i] + MALLOC_MIN_SIZE <= c || c + l.chunks[c] <= l.free[i]
  {
    NodeRoom(l, i);
    ClearOf(l.lo, l.hi, l.chunks, c);
  }

  /** Memory once the link that leads to node `i` holds `v`. */
  function Linked(w: Words, free: seq<nat>, i: nat, v: nat): Words
    requires i <= |free|
  {
    if i == 0 then w else w[free[i - 1] + WORD := v]
  }

  function LinkedHead(head: nat, i: nat, v: nat): nat { if i == 0 then v else head }

  ghost predicate SameUpTo(free: seq<nat>, free': seq<nat>, i: nat)
  {
    i <= |free| && i <= |free'| && free[..i] == free'[..i]
  }

  /** Redirecting the link to node `i` turns one list into another that agrees with
      it up to there and is already in place from there on. */
  lemma Relink(w: Words, head: nat, free: seq<nat>, free': seq<nat>, i: nat, v: nat)
    requires SameUpTo(free, free', i) && v == NodeOf(free', i)
    requires i > 0 ==> free[i - 1] + WORD in w
    requires head == NodeOf(free, 0) && LinksFrom(w, free, 0) && LinksFrom(w, free', i)
    requires Sorted(free')
    ensures LinkedHead(head, i, v) == NodeOf(free', 0)
    ensures LinksFrom(Linked(w, free, i, v), free', 0)
  {
    if i > 0 {
      assert free[0] == free[..i][0] == free'[..i][0] == free'[0];
      var w' := Linked(w, free, i, v);
      forall k | 0 <= k < |free'|
        ensures LinkAt(w', free', k)
      {
        RelinkAt(w, free, free', i, v, k);
      }
    }
  }

  lemma RelinkAt(w: Words, free: seq<nat>, free': seq<nat>, i: nat, v: nat, k: nat)
    requires 0 < i && SameUpTo(free, free', i) && v == NodeOf(free', i) && k < |free'|
    requires free[i - 1] + WORD in w
    requires LinksFrom(w, free, 0) && LinksFrom(w, free', i)
    requires Sorted(free')
    ensures LinkAt(w[free[i - 1] + WORD := v], free', k)
  {
    assert free[i - 1] == free[..i][i - 1] == free'[..i][i - 1] == free'[i - 1];
    if k < i - 1 {
      assert free[k] == free[..i][k] == free'[..i][k] == free'[k];
      assert free[k + 1] == free[..i][k + 1] == free'[..i][k + 1] == free'[k + 1];
      assert LinkAt(w, free, k);
    } else if k >= i {
      assert LinkAt(w, free', k);
    }
  }

  /** Redirecting a link keeps the sizes, and the data of every allocated block. */
  lemma LinkedFrame(w: Words, lo: nat, hi: nat, free: seq<nat>, chunks: Chunks, live: Chunks, i: nat, v: nat)
    requires Sized(lo, hi, chunks) && Apart(chunks) && Sizes(w, chunks)
    requires Among(live, chunks) && i <= |free|
    requires i > 0 ==> free[i - 1] in chunks && free[i - 1] !in live
    ensures i > 0 ==> free[i - 1] + WORD in w
    ensures Sizes(Linked(w, free, i, v), chunks)
    ensures SameData(w, Linked(w, free, i, v), live)
  {
    if i > 0 {
      SetNext(w, lo, hi, chunks, live, free[i - 1], v);
    }
  }

  /** The header store of a chunk misses every link. */
  lemma SizeKeepsLinks(w: Words, l: Layout, c: nat, v: nat)
    requires Tiled(l.lo, l.hi, l.chunks) && Listed(l)
    requires LinksFrom(w, l.free, 0) && c in l.chunks && c in w
    ensures LinksFrom(w[c := v], l.free, 0)
  {
    forall i | 0 <= i < |l.free|
      ensures l.free[i] + WORD != c
    {
      NodeClear(l, c, i);
      ClearOf(l.lo, l.hi, l.chunks, c);
    }
    LinksFrame(w, l.free, 0, c, v);
  }

  // A store inside an unlisted chunk, past its header, misses every link.
  lemma InnerKeepsLinks(w: Words, l: Layout, c: nat, x: nat, v: nat)
    requires Tiled(l.lo, l.hi, l.chunks) && Listed(l)
    requires LinksFrom(w, l.free, 0) && c in l.chunks && c !in l.free && x in w
    requires c <= x < c + l.chunks[c]
    ensures LinksFrom(w[x := v], l.free, 0)
  {
    forall i | 0 <= i < |l.free|
      ensures l.free[i] + WORD != x
    {
      NodeClear(l, c, i);
      NodeRoom(l, i);
    }
    LinksFrame(w, l.free, 0, x, v);
  }

  // --------------------------------------------------------- unlinking a chunk

  function Take(free: seq<nat>, i: nat): seq<nat>
    requires i < |free|
  {
    free[..i] + free[i + 1..]
  }

  // The index in `free` of what stands at index `k` of Take(free, i).
  function Untake(i: nat, k: nat): nat { if k < i then k else k + 1 }

  lemma TakeAt(free: seq<nat>, i: nat, k: nat)
    requires i < |free| && k < |free| - 1
    ensures Take(free, i)[k] == free[Untake(i, k)]
  {
  }

  lemma TakeTail(w: Words, free: seq<nat>, i: nat)
    requires LinksFrom(w, free, 0) && i < |free|
    ensures LinksFrom(w, Take(free, i), i)
  {
    var free' := Take(free, i);
    forall k | i <= k < |free'|
      ensures LinkAt(w, free', k)
    {
      assert LinkAt(w, free, k + 1);
    }
  }

  lemma TakeSorted(free: seq<nat>, i: nat)
    requires Sorted(free) && i < |free|
    ensures Sorted(Take(free, i))
  {
    var free' := Take(free, i);
    forall j, k | 0 <= j < k < |free'|
      ensures free'[j] < free'[k]
    {
      TakeAt(free, i, j);
      TakeAt(free, i, k);
    }
  }

  lemma TakeLinks(w: Words, head: nat, free: seq<nat>, i: nat)
    requires head == NodeOf(free, 0) && LinksFrom(w, free, 0) && Sorted(free) && i < |free|
    requires i > 0 ==> free[i - 1] + WORD in w
    ensures LinkedHead(head, i, NodeOf(free, i + 1)) == NodeOf(Take(free, i), 0)
    ensures LinksFrom(Linked(w, free, i, NodeOf(free, i + 1)), Take(free, i), 0)
  {
    TakeTail(w, free, i);
    TakeSorted(free, i);
    assert SameUpTo(free, Take(free, i), i);
    assert NodeOf(free, i + 1) == NodeOf(Take(free, i), i);
    Relink(w, head, free, Take(free, i), i, NodeOf(free, i + 1));
  }

  lemma InTake(free: seq<nat>, i: nat, c: nat)
    requires Sorted(free) && i < |free|
    ensures c in Take(free, i) <==> c in free && c != free[i]
  {
    if c in free && c != free[i] {
      var k :| 0 <= k < |free| && free[k] == c;
      TakeAt(free, i, if k < i then k else k - 1);
    }
    if c in Take(free, i) {
      var k :| 0 <= k < |free| - 1 && Take(free, i)[k] == c;
      TakeAt(free, i, k);
    }
  }

  lemma TakeSeparated(l: Layout, gap: int, i: nat)
    requires Listed(l) && Separated(l, gap) && i < |l.free|
    requires gap == -1 || gap == i - 1
    ensures Listed(l.(free := Take(l.free, i))) && Separated(l.(free := Take(l.free, i)), -1)
  {
    var l' := l.(free := Take(l.free, i));
    forall k | 0 <= k < |l'.free|
      ensures l'.free[k] in l'.chunks
    {
      TakeAt(l.free, i, k);
      assert l.free[Untake(i, k)] in l.chunks;
    }
    forall j, k | 0 <= j < k < |l'.free|
      ensures InOrder(l', -1, j, k)
    {
      TakeAt(l.free, i, j);
      TakeAt(l.free, i, k);
      assert InOrder(l, gap, Untake(i, j), Untake(i, k));
    }
  }

  /** A chunk taken off the list is allocated. */
  lemma TakeLive(l: Layout, i: nat)
    requires Sorted(l.free) && i < |l.free| && l.free[i] in l.chunks
    ensures l.(free := Take(l.free, i)).Live() == l.Live()[l.free[i] := l.chunks[l.free[i]]]
  {
    var l' := l.(free := Take(l.free, i));
    forall c
      ensures c in l'.free <==> c in l.free && c != l.free[i]
    {
      InTake(l.free, i, c);
    }
    assert l.free[i] in l.free;
  }
}
