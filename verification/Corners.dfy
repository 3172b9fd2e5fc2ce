/** Runs of the allocator in which it does what its documentation does not say. */
module Corners {
  import opened Memory
  import opened Layout
  import opened Ram
  import opened Allocator
  import opened Client

  // ---------------------------------------------------------------- free(NULL)

  /** The first malloc decides whether free(NULL) stays a no-op: it does unless the platform
      gives memory at a misaligned address and then refuses the padding. */
  method FirstMalloc(heap: Heap, size: nat) returns (ptr: nat)
    requires heap.Valid() && heap.sbrkStart == 0 && heap.sbrkEnd == 0 && 0 < size <= MAX_REQUEST
    modifies heap, heap.ram, heap.ram.bytes
    ensures heap.Valid()
    ensures Ignored(0, heap.sbrkStart, heap.sbrkEnd) <==> !old(heap.Env()).Strands(ChunkSizeForData(size))
  {
    EmptyHeap(heap.layout);
    ChunkSizeFits(size);
    ptr := heap.Malloc(size);
    heap.FreeNullIsIgnored();
  }

  /** That happens: the break starts at 1, and the second call of sbrk is refused. */
  method FreeNullMatters() returns (heap: Heap)
    ensures heap.Valid() && !Ignored(0, heap.sbrkStart, heap.sbrkEnd)
  {
    var ram := new Ram(64);
    heap := new Heap(ram, 1, call => call == 1);
    assert ChunkSizeForData(8) == 16;
    assert heap.Env().Strands(16);
    var ptr := FirstMalloc(heap, 8);
  }

  // ------------------------------------------------------------------- realloc

  /** Whenever a free chunk ends where a block starts, a request that cannot be met loses
      the program its pointer: realloc returns NULL and the block is elsewhere. */
  method ReallocMovesAndFails(heap: Heap, ptr: nat, ghost i: nat) returns (r: nat)
    requires heap.Valid() && heap.Owns(ptr) && EndsAt(heap.layout, i, ptr - WORD)
    modifies heap, heap.ram, heap.ram.bytes
    ensures heap.Valid() && r == 0 && !heap.Owns(ptr)
  {
    ghost var l, w, c := heap.layout, heap.ram.words, ptr - WORD;
    var size := heap.ram.bytes.Length;
    ChunkSizeFits(size);
    r := CallRealloc(heap, ptr, size);
    TooLarge(l, w, heap.layout, heap.ram.words, c, ChunkSizeForData(size), r, i);
  }

  lemma TooLarge(l: Layout, w: Words, l': Layout, w': Words, c: nat, need: nat, r: nat, i: nat)
    requires WellFormed(l) && WellFormed(l') && Resized(l, w, l', w', c, need, r) && l'.hi < need && EndsAt(l, i, c)
    ensures r == 0 && c !in l'.Live()
  {
    if r != 0 {
      NodeBounds(l', r - WORD);
    } else {
      FailedRealloc(l, w, l', w', c, need);
    }
  }

  /** That happens: two blocks, of which the first is freed. */
  method ReallocLosesPointer() returns (heap: Heap, ptr: nat, r: nat)
    ensures heap.Valid() && ptr != 0 && r == 0 && !heap.Owns(ptr)
  {
    var ram := new Ram(64);
    heap := new Heap(ram, 8, call => false);
    SmallRequest();
    var first;
    first, ptr := TwoBlocks(heap, 8, 16);
    FreeFirst(heap, first, ptr, 16);
    ghost var i := FreeBefore(heap.layout, ptr - WORD);
    r := ReallocMovesAndFails(heap, ptr, i);
  }

  lemma SmallRequest()
    ensures ChunkSizeForData(8) == 16
  {
  }

  // A new heap, a platform that refuses nothing: two blocks side by side, nothing else.
  method TwoBlocks(heap: Heap, size: nat, ghost need: nat) returns (first: nat, second: nat)
    requires heap.Valid() && heap.sbrkStart == 0 && Aligned(heap.brk) && forall call :: !heap.refuses(call)
    requires 0 < size <= MAX_REQUEST && need == ChunkSizeForData(size)
    requires need <= INTPTR_MAX && heap.brk + need + 16 <= heap.ram.bytes.Length
    modifies heap, heap.ram, heap.ram.bytes
    ensures heap.Valid() && WORD < first && second == first + need && heap.layout.hi == second + WORD
    ensures heap.layout.lo == first - WORD && heap.layout.Live() == map[first - WORD := need, second - WORD := 16]
    ensures heap.brk == old(heap.brk) + need + 16
  {
    first := OneBlock(heap, size, need);
    ghost var l := heap.layout;
    NothingFree(l, first - WORD);
    heap.BreakAligned(first - WORD, 16);
    SmallRequest();
    second := heap.Malloc(8);
    assert heap.layout.Live() == l.Live()[second - WORD := 16];
  }

  lemma SameBoundary(a: nat, b: nat)
    requires Aligned(a) && Aligned(b) && b <= a < b + WORD
    ensures a == b
  {
  }

  method FreeFirst(heap: Heap, first: nat, ghost second: nat, ghost need: nat)
    requires heap.Valid() && WORD < first < second
    requires heap.layout.Live() == map[first - WORD := need, second - WORD := 16]
    modifies heap, heap.ram, heap.ram.bytes
    ensures heap.Valid() && heap.layout.Live().Keys == {second - WORD} && heap.layout.Live()[second - WORD] == 16
    ensures heap.layout.lo == old(heap.layout.lo) && heap.layout.hi == old(heap.layout.hi)
    ensures heap.Env() == old(heap.Env())
  {
    heap.Free(first);
  }

  method OneBlock(heap: Heap, size: nat, ghost need: nat) returns (ptr: nat)
    requires heap.Valid() && heap.sbrkStart == 0 && Aligned(heap.brk) && forall call :: !heap.refuses(call)
    requires 0 < size <= MAX_REQUEST && need == ChunkSizeForData(size)
    requires need <= INTPTR_MAX && heap.brk + need <= heap.ram.bytes.Length
    modifies heap, heap.ram, heap.ram.bytes
    ensures heap.Valid() && WORD < ptr && ptr - WORD == old(heap.brk) && heap.brk == heap.layout.hi == ptr - WORD + need
    ensures heap.layout.lo == ptr - WORD && heap.layout.Live() == map[ptr - WORD := need]
  {
    EmptyHeap(heap.layout);
    assert heap.layout.Live() == map[];
    ghost var brk := heap.brk;
    ptr := heap.Malloc(size);
    assert heap.layout.Live() == map[][ptr - WORD := need];
    SameBoundary(ptr - WORD, brk);
  }

  lemma ChunkBefore(l: Layout, c: nat) returns (d: nat)
    requires WellFormed(l) && c in l.chunks && l.lo < c
    ensures d in l.chunks && l.End(d) == c
  {
    ClearOf(l.lo, l.hi, l.chunks, c);
    EveryAddressInOneChunk(l, c - 1);
    d :| d in l.chunks && d <= c - 1 < l.End(d);
    assert ApartAt(l.chunks, d, c);
  }

  /** The only block in use, if not at the start of the heap, has a free chunk before it. */
  lemma FreeBefore(l: Layout, c: nat) returns (i: nat)
    requires WellFormed(l) && l.Live().Keys == {c} && l.lo < c
    ensures EndsAt(l, i, c)
  {
    assert c in l.Live();
    var d := ChunkBefore(l, c);
    assert d != c by { ClearOf(l.lo, l.hi, l.chunks, d); }
    LiveOrFree(l, d);
    assert d !in l.Live().Keys;
    i :| 0 <= i < |l.free| && l.free[i] == d;
  }

  // ------------------------------------------------------------------ slack

  /** A chunk whose slack reaches the cap of min_extra is passed over, however large it is:
      here the only free one, of more than 4 GiB, for a request of 8 bytes. The block comes
      from new memory behind the heap as it was, `l`. */
  method LargeChunkPassedOver() returns (heap: Heap, large: nat, ptr: nat, ghost l: Layout)
    ensures heap.Valid() && large in l.free && large in l.chunks
    ensures ChunkSizeForData(8) <= l.chunks[large] && ptr - WORD == l.hi
  {
    var ram := new Ram(0x2_0000_0000);
    heap := new Heap(ram, 8, call => false);
    LargeRequest();
    var first, second := TwoBlocks(heap, 0x1_1000_0000, 0x1_1000_0008);
    large := first - WORD;
    ptr, l := PassOver(heap, first, second, 0x1_1000_0008);
  }

  // The first block is freed and leaves a chunk with too much slack.
  method PassOver(heap: Heap, first: nat, ghost second: nat, ghost need: nat) returns (ptr: nat, ghost l: Layout)
    requires heap.Valid() && WORD < first && second == first + need && SLACK_CAP + 16 <= need
    requires heap.layout.Live() == map[first - WORD := need, second - WORD := 16]
    requires heap.layout.lo == first - WORD && heap.layout.hi == second + WORD
    requires heap.Env().More(heap.calls, 16)
    modifies heap, heap.ram, heap.ram.bytes
    ensures heap.Valid() && first - WORD in l.free && first - WORD in l.chunks && 16 <= l.chunks[first - WORD]
    ensures ptr != 0 && ptr - WORD == l.hi
  {
    FreeFirst(heap, first, second, need);
    l := heap.layout;
    OnlyLargeFree(l, first - WORD, second - WORD);
    ptr := FreshBlock(heap, second);
  }

  lemma LargeRequest()
    ensures ChunkSizeForData(0x1_1000_0000) == 0x1_1000_0008
  {
  }

  // Nothing fits, and the platform gives memory.
  method FreshBlock(heap: Heap, ghost second: nat) returns (ptr: nat)
    requires heap.Valid() && heap.Owns(second) && NoFit(heap.layout, 16) && heap.Env().More(heap.calls, 16)
    modifies heap, heap.ram, heap.ram.bytes
    ensures heap.Valid() && ptr != 0 && ptr - WORD == old(heap.layout).hi
  {
    SmallRequest();
    heap.BreakAligned(second - WORD, 16);
    ptr := heap.Malloc(8);
  }

  // A block that spans the heap leaves nothing free.
  lemma NothingFree(l: Layout, c: nat)
    requires WellFormed(l) && l.Live().Keys == {c} && l.lo == c && c in l.chunks && l.End(c) == l.hi
    ensures l.free == []
  {
    ClearOf(l.lo, l.hi, l.chunks, c);
    assert c in l.Live();
    if l.free != [] {
      assert l.free[0] in l.free;
      FreeInChunks(l, l.free[0]);
      InHeap(l.lo, l.hi, l.chunks, l.free[0]);
    }
  }

  lemma OnlyLargeFree(l: Layout, large: nat, c: nat)
    requires WellFormed(l) && l.Live().Keys == {c} && c in l.chunks
    requires l.lo == large && large + SLACK_CAP + 16 <= c && l.hi == l.End(c)
    ensures large in l.free && large in l.chunks && 16 <= l.chunks[large] && NoFit(l, 16)
  {
    var i := FreeBefore(l, c);
    var d := l.free[i];
    FreeInChunks(l, d);
    ClearOf(l.lo, l.hi, l.chunks, d);
    if d > l.lo {
      var e := ChunkBefore(l, d);
      LiveOrFree(l, e);
      assert c in l.Live();
      Touching(l, e, d);
    }
    ClearOf(l.lo, l.hi, l.chunks, c);
    forall k: nat
      ensures !Fits(l, 16, k)
    {
      if k < |l.free| {
        FreeInChunks(l, l.free[k]);
        InHeap(l.lo, l.hi, l.chunks, l.free[k]);
      }
    }
  }
}
