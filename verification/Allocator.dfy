/** The allocator (src/malloc.c). A Heap holds the state of `struct malloc_state`,
    the memory it manages, and the program break that `sbrk` moves. */
module Allocator {
  import opened Numbers
  import opened Memory
  import opened Layout
  import opened Ram
  import opened Image
  import opened Steps

  // SBRK_FAILURE, (void *)-1
  const SBRK_FAILURE: int := -1

  // The initial min_extra, -1U: slack from here on disqualifies a free chunk.
  const SLACK_CAP: nat := 0xFFFF_FFFF

  // The largest request whose chunk size does not wrap around 2^64.
  const MAX_REQUEST: nat := SIZE_MAX - 15

  // A sum of two size_t values.
  function AddSize(a: nat, b: nat): nat
    requires a <= SIZE_MAX && b <= SIZE_MAX
  {
    if a + b <= SIZE_MAX then a + b else a + b - (SIZE_MAX + 1)
  }

  /** chunk_size_for_data, in size_t arithmetic. */
  function ChunkSizeForData(size: nat): nat
    requires size <= SIZE_MAX
  {
    var pad := size % WORD;
    AddSize(if pad != 0 then AddSize(size, WORD - pad) else size, WORD)
  }

  /** The chunk has room for its header and `size` bytes of data exactly when the
      request is at most MAX_REQUEST; beyond that the computation wraps to 0 or 8. */
  lemma ChunkSizeFits(size: nat)
    requires size <= SIZE_MAX
    ensures ChunkSizeForData(size) >= WORD + size <==> size <= MAX_REQUEST
    ensures size <= MAX_REQUEST ==> Aligned(ChunkSizeForData(size)) && ChunkSizeForData(size) < size + 2 * WORD
    ensures size > MAX_REQUEST ==> ChunkSizeForData(size) <= WORD
    ensures 0 < size <= MAX_REQUEST ==> MALLOC_MIN_SIZE <= ChunkSizeForData(size)
  {
    PaddedSize(size / WORD, size % WORD, size);
  }

  lemma PaddedSize(k: nat, pad: nat, size: nat)
    requires size == WORD * k + pad && pad < WORD && size <= SIZE_MAX && pad == size % WORD
    ensures var need := ChunkSizeForData(size);
            && (size <= MAX_REQUEST ==> need == (if pad != 0 then WORD * (k + 2) else WORD * (k + 1)))
            && (size > MAX_REQUEST ==> need <= WORD)
  {
    assert SIZE_MAX + 1 == WORD * 0x2000_0000_0000_0000;
  }

  // ---------------------------------------------------------------- best fit

  /** Free chunk `i` can serve a chunk of size `need` and is not disqualified. */
  ghost predicate Fits(l: Layout, need: nat, i: nat)
  {
    && i < |l.free| && l.free[i] in l.chunks
    && need <= l.chunks[l.free[i]] && l.chunks[l.free[i]] - need < SLACK_CAP
  }

  function Slack(l: Layout, need: nat, i: nat): int
    requires i < |l.free| && l.free[i] in l.chunks
  {
    l.chunks[l.free[i]] - need
  }

  /** Of the first `n` free chunks, `i` leaves the least over, and is the first such. */
  ghost predicate BestOf(l: Layout, need: nat, n: nat, i: nat)
  {
    && i < n && Fits(l, need, i)
    && forall k {:trigger Fits(l, need, k)} :: 0 <= k < n && Fits(l, need, k) ==>
         Slack(l, need, i) <= Slack(l, need, k) && (Slack(l, need, k) == Slack(l, need, i) ==> i <= k)
  }

  ghost predicate NoneOf(l: Layout, need: nat, n: nat)
  {
    forall k {:trigger Fits(l, need, k)} :: 0 <= k < n ==> !Fits(l, need, k)
  }

  ghost predicate BestFit(l: Layout, need: nat, i: nat) { BestOf(l, need, |l.free|, i) }

  ghost predicate NoFit(l: Layout, need: nat) { NoneOf(l, need, |l.free|) }

  // What is handed out of a chunk that leaves `extra` over: all of it if the rest
  // could not be a chunk.
  function Granted(need: nat, extra: nat): nat { if extra < MALLOC_MIN_SIZE then need + extra else need }

  // ------------------------------------------------------------------ the state

  // struct free_chunk **: the list head, or the `next` field of a free chunk.
  datatype Link = Head | Next(chunk: nat)

  function LinkTo(free: seq<nat>, i: nat): Link
    requires i <= |free|
  {
    if i == 0 then Head else Next(free[i - 1])
  }

  // ---------------------------------------------------------------- the environment

  /** The bytes from `a` to the next aligned address. */
  function Padding(a: nat): (r: nat)
    ensures r < WORD && Aligned(a + r) && (r == 0 <==> Aligned(a))
  {
    if a % WORD == 0 then 0 else WORD - a % WORD
  }

  lemma SameAlignment(a: nat, size: nat)
    requires Aligned(size)
    ensures Aligned(a + size) <==> Aligned(a)
  {
  }

  /** What the platform will do: which calls of sbrk it refuses, how often it was called,
      where the break is, and where its memory ends. Nothing is assumed of `refuses`. */
  datatype Platform = Platform(refuses: nat -> bool, calls: nat, brk: nat, limit: nat)
  {
    /** Call number `call` of sbrk, for `size` more bytes, would succeed. */
    predicate Answers(call: nat, size: nat) { !refuses(call) && brk + size <= limit }

    /** A request for memory behind an aligned break would succeed at that call. */
    predicate More(call: nat, size: nat) { size <= INTPTR_MAX && Answers(call, size) }

    /** A request for aligned memory made now would succeed: if the break is misaligned the
        platform has to answer a second call, for the padding. */
    predicate Grants(size: nat)
    {
      More(calls, size) && (Padding(brk) == 0 || Answers(calls + 1, size + Padding(brk)))
    }

    /** A request for aligned memory made now would get it, and not the padding. */
    predicate Strands(size: nat) { More(calls, size) && !Grants(size) }

    // How often that request would call sbrk.
    function Asks(size: nat): nat
    {
      if size > INTPTR_MAX then 0 else if Padding(brk) != 0 && Answers(calls, size) then 2 else 1
    }
  }

  class Heap {
    const ram: Ram

    // The environment: the program break, how often sbrk was called, and which of its
    // calls the platform refuses. Nothing is assumed of the last.
    var brk: nat
    var calls: nat
    const refuses: nat -> bool

    // struct malloc_state
    var sbrkStart: nat
    var sbrkEnd: nat
    var head: nat

    // What the memory is meant to show.
    ghost var layout: Layout

    /** The memory shows the layout, which is in order. */
    ghost predicate Sound()
      reads this, ram, ram.bytes
    {
      && ram.Valid() && layout.hi <= ram.bytes.Length <= INTPTR_MAX
      && (layout.lo == 0 ==> layout.hi == 0)
      && InPlace(ram.words, head, layout, -1)
    }

    /** The layout lies where sbrk gave memory. Before the first success there is none;
        sbrk_end is then NULL, or a break at which the padding was missing. */
    ghost predicate Anchored()
      reads this
    {
      && 0 < brk <= ram.bytes.Length
      && layout.lo == sbrkStart && layout.hi == (if sbrkStart == 0 then 0 else sbrkEnd)
      && (sbrkStart != 0 ==> sbrkEnd == brk)
      && (sbrkStart == 0 ==> sbrkEnd == 0 || (sbrkEnd == brk && !Aligned(brk)))
    }

    ghost predicate Valid()
      reads this, ram, ram.bytes
    {
      Sound() && Anchored()
    }

    /** The environment, as the next call of sbrk finds it. */
    function Env(): Platform
      reads this
    {
      Platform(refuses, calls, brk, ram.bytes.Length)
    }

    // Once there are blocks the break is aligned, and no padding is asked for.
    lemma BreakAligned(c: nat, size: nat)
      requires Valid() && c in layout.Live()
      ensures Aligned(brk) && sbrkStart != 0 && sbrkEnd == brk == layout.hi
      ensures Env().Grants(size) <==> Env().More(calls, size)
      ensures c in layout.chunks && c + layout.chunks[c] <= layout.hi
    {
      InHeap(layout.lo, layout.hi, layout.chunks, c);
    }

    /** free(NULL) is ignored, as C11 section 7.22.3.3 wants, whenever the break is aligned;
        in other states, once there is a heap or sbrk was never answered. */
    lemma FreeNullIsIgnored()
      requires Valid()
      ensures Aligned(brk) ==> Ignored(0, sbrkStart, sbrkEnd)
      ensures Ignored(0, sbrkStart, sbrkEnd) <==> layout.hi != 0 || sbrkEnd == 0
    {
      AllBelow(layout.lo, layout.hi, layout.chunks);
    }

    /** `ptr` was handed out and not yet taken back. */
    ghost predicate Owns(ptr: nat)
      reads this
    {
      WORD <= ptr && ptr - WORD in layout.Live()
    }

    constructor (ram: Ram, brk: nat, refuses: nat -> bool)
      requires ram.Valid() && ram.bytes.Length <= INTPTR_MAX && 0 < brk <= ram.bytes.Length
      ensures Valid() && this.ram == ram && layout == Layout(0, 0, map[], []) && this.brk == brk
      ensures sbrkEnd == 0 && calls == 0 && this.refuses == refuses
    {
      this.ram, this.brk, this.refuses, calls := ram, brk, refuses, 0;
      sbrkStart, sbrkEnd, head := 0, 0, 0;
      layout := Layout(0, 0, map[], []);
      new;
      CoversFromRam(0);
    }

    lemma CoversFromRam(hi: nat)
      requires ram.Valid() && hi <= ram.bytes.Length
      ensures Covers(ram.words, hi)
    {
      forall a | IsWord(hi, a)
        ensures a in ram.words
      {
        assert IsWord(|ram.bytes[..]|, a);
      }
    }

    // ------------------------------------------------------------ environment

    /** sbrk as include/unistd.h describes it, with no other user: failure at any
        time, or the previous break. */
    method Sbrk(incr: nat) returns (p: int)
      requires brk <= ram.bytes.Length
      modifies this`brk, this`calls
      ensures calls == old(calls) + 1
      ensures p == SBRK_FAILURE <==> !old(Env()).Answers(old(calls), incr)
      ensures p == SBRK_FAILURE ==> brk == old(brk)
      ensures p != SBRK_FAILURE ==> p == old(brk) && brk == old(brk) + incr <= ram.bytes.Length
    {
      var refuse := refuses(calls);
      calls := calls + 1;
      if refuse || brk + incr > ram.bytes.Length {
        return SBRK_FAILURE;
      }
      p := brk;
      brk := brk + incr;
    }

    method AlignedSbrk(size: nat) returns (p: int)
      requires Valid() && Aligned(size) && size > 0
      modifies this`brk, this`calls, this`sbrkStart, this`sbrkEnd
      ensures p == SBRK_FAILURE <==> !old(Env()).Grants(size)
      ensures p == SBRK_FAILURE ==> Valid() && sbrkStart == old(sbrkStart)
      ensures p == SBRK_FAILURE ==>
        if old(Env()).Strands(size) then sbrkStart == 0 && sbrkEnd == brk == old(brk) + size
        else sbrkEnd == old(sbrkEnd) && brk == old(brk)
      ensures calls == old(calls) + old(Env()).Asks(size)
      ensures p != SBRK_FAILURE ==>
        && 0 < p && Aligned(p) && old(brk) <= p < old(brk) + WORD && p + size == sbrkEnd == brk <= ram.bytes.Length
        && (if old(sbrkStart) == 0 then sbrkStart == p else sbrkStart == old(sbrkStart) && p == old(sbrkEnd))
    {
      if size > INTPTR_MAX { return SBRK_FAILURE; }
      SameAlignment(brk, size);
      p := Sbrk(size);
      if p == SBRK_FAILURE { return p; }
      sbrkEnd := p + size;
      if Padding(p) != 0 {
        // A misaligned break: ask for the bytes up to the next boundary
        var pad := Sbrk(Padding(p));
        if pad != sbrkEnd {
          return SBRK_FAILURE;
        }
        sbrkEnd := pad + Padding(p);
        p := p + Padding(p);
      }
      if sbrkStart == 0 { sbrkStart := p; }
    }

    // ------------------------------------------------------------ list access

    method ReadLink(link: Link, ghost j: nat) returns (chunk: nat)
      requires ram.Valid() && j <= |layout.free| && link == LinkTo(layout.free, j)
      requires head == NodeOf(layout.free, 0) && LinksFrom(ram.words, layout.free, 0)
      ensures chunk == NodeOf(layout.free, j)
    {
      match link {
        case Head =>
          chunk := head;
        case Next(c) =>
          assert LinkAt(ram.words, layout.free, j - 1);
          chunk := ram.Get(c + WORD);
      }
    }

    // The size of free chunk `j`.
    method NodeSize(chunk: nat, ghost j: nat) returns (size: nat)
      requires ram.Valid() && InPlace(ram.words, head, layout, -1) && j < |layout.free| && chunk == layout.free[j]
      ensures chunk in layout.chunks && size == layout.chunks[chunk]
      ensures layout.lo <= chunk && MALLOC_MIN_SIZE <= size && chunk + size <= layout.hi
    {
      NodeRoom(layout, j);
      assert SizeAt(ram.words, layout.chunks, chunk);
      size := ram.Get(chunk);
    }

    method StoreNode(c: nat, size: nat, next: nat)
      requires ram.Valid() && c in ram.words && c + WORD in ram.words && size <= SIZE_MAX && next <= SIZE_MAX
      modifies ram, ram.bytes
      ensures ram.Valid() && ram.words == old(ram.words)[c := size][c + WORD := next]
    {
      ram.Set(c, size);
      ram.Set(c + WORD, next);
    }

    method WriteLink(link: Link, v: nat, ghost free: seq<nat>, ghost j: nat)
      requires ram.Valid() && j <= |free| && link == LinkTo(free, j) && v <= SIZE_MAX
      requires j > 0 ==> free[j - 1] + WORD in ram.words
      modifies this`head, ram, ram.bytes
      ensures ram.Valid()
      ensures ram.words == Linked(old(ram.words), free, j, v)
      ensures head == LinkedHead(old(head), j, v)
    {
      match link {
        case Head =>
          head := v;
        case Next(c) =>
          ram.Set(c + WORD, v);
      }
    }

    // ------------------------------------------------------------------- free

    /** The search of noc_free: where in the list chunk `c` belongs, or the free chunk
        that ends where it starts. */
    method FindSlot(c: nat) returns (parent: Link, prev: nat, touches: bool, ghost j: nat)
      requires ram.Valid() && InPlace(ram.words, head, layout, -1) && 0 < layout.lo
      requires c in layout.Live()
      ensures j <= |layout.free| && parent == LinkTo(layout.free, j) && prev == NodeOf(layout.free, j)
      ensures touches ==> j < |layout.free| && prev in layout.chunks && layout.End(prev) == c
      ensures !touches ==> Slot(layout, j, c)
      ensures touches <==> exists i: nat :: EndsAt(layout, i, c)
    {
      parent, touches, j := Head, false, 0;
      prev := ReadLink(parent, j);
      while prev != 0 && prev < c
        invariant j <= |layout.free| && parent == LinkTo(layout.free, j) && prev == NodeOf(layout.free, j)
        invariant forall k {:trigger Below(layout, c, k)} :: 0 <= k < j ==> Below(layout, c, k)
        decreases |layout.free| - j
      {
        var prevSize := NodeSize(prev, j);
        if prev + prevSize == c {
          touches := true;
          assert EndsAt(layout, j, c);
          return;
        }
        assert Below(layout, c, j);
        parent, j := Next(prev), j + 1;
        prev := ReadLink(parent, j);
      }
      NodeAddress(layout, j);
      SlotFound(layout, c, j);
    }

    /** free(ptr) of a block in use, or of NULL. For NULL the range test that opens
        noc_free is what makes it a no-op; see FreeNullIsIgnored. */
    method Free(ptr: nat)
      requires Valid()
      requires Owns(ptr) || (ptr == 0 && Ignored(0, sbrkStart, sbrkEnd))
      modifies this`head, this`layout, ram, ram.bytes
      ensures Valid()
      ensures ptr == 0 ==> layout == old(layout) && ram.words == old(ram.words)
      ensures ptr != 0 ==> layout.Live() == old(layout.Live()) - {ptr - WORD}
      ensures layout.lo == old(layout.lo) && layout.hi == old(layout.hi)
      ensures SameData(old(ram.words), ram.words, layout.Live())
    {
      if ptr != 0 { ClearOf(layout.lo, layout.hi, layout.chunks, ptr - WORD); }
      if Ignored(ptr, sbrkStart, sbrkEnd) { return; }
      var chunk := ptr - WORD;
      ghost var c, l0, w0 := chunk, layout, ram.words;
      assert SizeAt(ram.words, layout.chunks, chunk);
      var size := ram.Get(chunk);
      if chunk + size > sbrkEnd { return; }
      // The first word of the data becomes the link
      InnerStore(ram.words, head, layout, c, ptr, 0);
      ram.Set(ptr, 0);
      ghost var w1 := ram.words;
      SameDataFewer(w0, w1, l0.Live()[c := WORD], l0.Live() - {c});
      var parent, prev, touches, j := FindSlot(chunk);
      chunk, prev := LinkIn(chunk, parent, prev, touches, j);
      ghost var w2 := ram.words;
      MergeNext(chunk, prev, j);
      SameDataTrans(w0, w1, w2, layout.Live());
      SameDataTrans(w0, w2, ram.words, layout.Live());
    }

    /** Chunk `c` goes on the list: the free chunk it touches on its left grows over
        it, or it becomes a node of its own. */
    method LinkIn(c: nat, parent: Link, prev0: nat, touches: bool, ghost j: nat) returns (chunk: nat, prev: nat)
      requires ram.Valid() && InPlace(ram.words, head, layout, -1) && layout.hi <= INTPTR_MAX
      requires c in layout.Live()
      requires j <= |layout.free| && parent == LinkTo(layout.free, j) && prev0 == NodeOf(layout.free, j)
      requires touches ==> j < |layout.free| && prev0 in layout.chunks && layout.End(prev0) == c
      requires !touches ==> Slot(layout, j, c)
      modifies this`head, this`layout, ram, ram.bytes
      ensures ram.Valid() && InPlace(ram.words, head, layout, j)
      ensures j < |layout.free| && chunk == layout.free[j] && prev == NodeOf(layout.free, j + 1)
      ensures layout.Live() == old(layout.Live()) - {c}
      ensures layout.lo == old(layout.lo) && layout.hi == old(layout.hi)
      ensures SameData(old(ram.words), ram.words, layout.Live())
    {
      if touches {
        chunk := prev0;
        prev := JoinLeft(c, prev0, j);
      } else {
        chunk, prev := c, prev0;
        PutIn(c, parent, prev0, j);
      }
    }

    // Free chunk `p`, at index `j` of the list, takes over chunk `c` behind it.
    method JoinLeft(c: nat, p: nat, ghost j: nat) returns (next: nat)
      requires ram.Valid() && InPlace(ram.words, head, layout, -1) && layout.hi <= INTPTR_MAX
      requires c in layout.Live() && j < |layout.free| && p == layout.free[j]
      requires p in layout.chunks && layout.End(p) == c
      modifies this`layout, ram, ram.bytes
      ensures ram.Valid() && InPlace(ram.words, head, layout, j)
      ensures layout.free == old(layout).free && next == NodeOf(layout.free, j + 1)
      ensures layout.Live() == old(layout.Live()) - {c}
      ensures layout.lo == old(layout.lo) && layout.hi == old(layout.hi)
      ensures SameData(old(ram.words), ram.words, layout.Live())
    {
      ghost var l, w := layout, ram.words;
      InHeap(l.lo, l.hi, l.chunks, c);
      NodeRoom(l, j);
      MergeLeft(w, head, l, j, c);
      assert SizeAt(w, l.chunks, p) && SizeAt(w, l.chunks, c) && LinkAt(w, l.free, j);
      next := ram.Get(p + WORD);
      var prevSize := ram.Get(p);
      var size := ram.Get(c);
      ram.Set(p, prevSize + size);
      layout := l.(chunks := Join(l.chunks, p, c));
    }

    // Chunk `c` becomes node `j` of the list, in front of `prev`.
    method PutIn(c: nat, parent: Link, prev: nat, ghost j: nat)
      requires ram.Valid() && InPlace(ram.words, head, layout, -1) && layout.hi <= INTPTR_MAX
      requires c in layout.Live() && Slot(layout, j, c)
      requires parent == LinkTo(layout.free, j) && prev == NodeOf(layout.free, j)
      modifies this`head, this`layout, ram, ram.bytes
      ensures ram.Valid() && InPlace(ram.words, head, layout, j)
      ensures j < |layout.free| && c == layout.free[j] && prev == NodeOf(layout.free, j + 1)
      ensures layout.Live() == old(layout.Live()) - {c}
      ensures layout.lo == old(layout.lo) && layout.hi == old(layout.hi)
      ensures SameData(old(ram.words), ram.words, layout.Live())
    {
      ghost var l, w := layout, ram.words;
      InHeap(l.lo, l.hi, l.chunks, c);
      Insert(w, head, l, j, c);
      if j > 0 { NodeRoom(l, j - 1); assert LinkAt(w, l.free, j - 1); }
      NodeAddress(l, j);
      ram.Set(c + WORD, prev);
      WriteLink(parent, c, l.free, j);
      layout := l.(free := Put(l.free, j, c));
      PutAt(l.free, j, c, j);
      if j < |l.free| { PutAt(l.free, j, c, j + 1); }
    }

    /** The `right` merge that ends noc_free. */
    method MergeNext(chunk: nat, prev: nat, ghost j: nat)
      requires ram.Valid() && InPlace(ram.words, head, layout, j) && layout.hi <= INTPTR_MAX
      requires j < |layout.free| && chunk == layout.free[j] && prev == NodeOf(layout.free, j + 1)
      modifies this`layout, ram, ram.bytes
      ensures ram.Valid() && InPlace(ram.words, head, layout, -1)
      ensures layout.Live() == old(layout.Live())
      ensures layout.lo == old(layout.lo) && layout.hi == old(layout.hi)
      ensures SameData(old(ram.words), ram.words, layout.Live())
    {
      ghost var l, w := layout, ram.words;
      NodeRoom(l, j);
      assert SizeAt(w, l.chunks, chunk);
      var size := ram.Get(chunk);
      if chunk + size == prev {
        NodeRoom(l, j + 1);
        MergeRight(w, head, l, j);
        assert SizeAt(w, l.chunks, prev) && LinkAt(w, l.free, j + 1);
        NodeAddress(l, j + 2);
        var prevSize := ram.Get(prev);
        var next := ram.Get(prev + WORD);
        StoreNode(chunk, size + prevSize, next);
        layout := l.(chunks := Join(l.chunks, chunk, prev), free := Take(l.free, j + 1));
      } else {
        NoGap(w, head, l, j);
      }
    }

    /** insert_free_chunk: the `size` bytes from `c` on, just cut off a block in use,
        become a free chunk. Until its size is stored the heap is not in order. */
    method InsertFreeChunk(c: nat, size: nat)
      requires ram.Valid() && ram.bytes.Length <= INTPTR_MAX && 0 < brk <= ram.bytes.Length
      requires sbrkStart != 0 && layout.lo == sbrkStart && layout.hi == sbrkEnd == brk
      requires c in ram.words && InPlace(ram.words[c := size], head, layout, -1) && c in layout.Live()
      requires size <= SIZE_MAX
      modifies this`head, this`layout, ram, ram.bytes
      ensures Valid()
      ensures layout.Live() == old(layout.Live()) - {c}
      ensures layout.lo == old(layout.lo) && layout.hi == old(layout.hi)
      ensures SameData(old(ram.words)[c := size], ram.words, layout.Live())
    {
      ram.Set(c, size);
      Free(c + WORD);
    }

    // ------------------------------------------------------------------- growth

    /** chunk_grow: extends the block at chunk `c` in place if it is the last of the
        heap and the break can be moved. */
    method ChunkGrow(c: nat, newSize: nat) returns (grown: bool)
      requires Valid() && newSize <= SIZE_MAX && Aligned(newSize)
      requires c != 0 ==> c in layout.Live() && layout.chunks[c] < newSize
      modifies this`brk, this`calls, this`sbrkStart, this`sbrkEnd, this`layout, ram, ram.bytes
      ensures Valid() && sbrkStart == old(sbrkStart)
      ensures grown ==> c != 0 && old(layout.End(c)) == old(layout.hi)
      ensures grown ==>
        c in layout.chunks && layout.chunks[c] == old(layout.chunks[c] + Extra(layout.chunks[c], newSize))
      ensures grown ==> layout.Live() == old(layout.Live())[c := layout.chunks[c]]
      ensures grown ==> layout.free == old(layout.free)
      ensures grown ==> layout.hi == old(layout.hi) + old(Extra(layout.chunks[c], newSize))
      ensures grown <==> c != 0 && CanGrow(old(layout), old(Env()), c, newSize)
      ensures !grown ==> calls == old(calls) + (if c != 0 && Tries(old(layout), c, newSize) then 1 else 0)
      ensures !grown ==> layout == old(layout) && ram.words == old(ram.words)
      ensures !grown ==> brk == old(brk) && sbrkEnd == old(sbrkEnd)
      ensures SameData(old(ram.words), ram.words, old(layout.Live()))
    {
      if c == 0 { return false; }
      LastBlock(c);
      assert SizeAt(ram.words, layout.chunks, c);
      var size := ram.Get(c);
      if c + size != sbrkEnd { return false; }
      // Less than a minimal chunk is never asked for
      var addSize := newSize - size;
      if addSize < MALLOC_MIN_SIZE { addSize := MALLOC_MIN_SIZE; }
      AlignedExtra(size, newSize);
      grown := AskForMore(c, size, addSize);
    }

    lemma LastBlock(c: nat)
      requires Valid() && c in layout.Live()
      ensures c in layout.chunks && Aligned(layout.chunks[c]) && sbrkEnd == layout.hi
    {
      assert ChunkOk(layout.lo, layout.hi, c, layout.chunks[c]);
    }

    // Block `c` is the last one and gets `add` more bytes, or nothing happens.
    method AskForMore(c: nat, size: nat, add: nat) returns (grown: bool)
      requires Valid() && c in layout.Live() && size == layout.chunks[c] && layout.End(c) == layout.hi
      requires Aligned(add) && MALLOC_MIN_SIZE <= add
      modifies this`brk, this`calls, this`sbrkStart, this`sbrkEnd, this`layout, ram, ram.bytes
      ensures Valid() && sbrkStart == old(sbrkStart)
      ensures grown <==> old(Env()).More(old(calls), add)
      ensures grown ==> c in layout.chunks && layout.chunks[c] == size + add
      ensures grown ==> layout.Live() == old(layout.Live())[c := layout.chunks[c]] && layout.free == old(layout.free)
      ensures grown ==> layout.hi == old(layout.hi) + add
      ensures !grown ==> layout == old(layout) && ram.words == old(ram.words)
      ensures !grown ==> brk == old(brk) && sbrkEnd == old(sbrkEnd)
      ensures !grown ==> calls == old(calls) + (if add <= INTPTR_MAX then 1 else 0)
      ensures SameData(old(ram.words), ram.words, old(layout.Live()))
    {
      BreakAligned(c, add);
      var heap := AlignedSbrk(add);
      if heap == c + size {
        GrowLast(c, size, add);
        return true;
      }
      // With no other user of sbrk the memory is right behind the block, or refused.
      assert heap == SBRK_FAILURE;
      SameDataRefl(ram.words, layout.Live());
      return false;
    }

    // There is memory for `add` more bytes behind the last block, `c`.
    method GrowLast(c: nat, size: nat, add: nat)
      requires Sound() && c in layout.Live() && size == layout.chunks[c] && layout.End(c) == layout.hi
      requires Aligned(add) && MALLOC_MIN_SIZE <= add && layout.hi + add <= ram.bytes.Length
      modifies this`layout, ram, ram.bytes
      ensures Sound() && layout.lo == old(layout.lo) && layout.hi == old(layout.hi) + add
      ensures c in layout.chunks && layout.chunks[c] == size + add
      ensures layout.Live() == old(layout.Live())[c := layout.chunks[c]] && layout.free == old(layout.free)
      ensures SameData(old(ram.words), ram.words, old(layout.Live()))
    {
      InHeap(layout.lo, layout.hi, layout.chunks, c);
      CoversFromRam(layout.hi + add);
      GrowTop(ram.words, head, layout, c, add);
      ram.Set(c, size + add);
      layout := layout.(hi := layout.hi + add, chunks := layout.chunks[c := size + add]);
    }

    // ------------------------------------------------------------------- malloc

    /** The search of noc_malloc. `parent` is the link the search ended on. */
    method FindBestFit(need: nat)
      returns (found: bool, minParent: Link, minExtra: nat, parent: Link, ghost best: nat, ghost end: nat)
      requires Sound() && Aligned(need)
      ensures found ==> BestFit(layout, need, best)
      ensures found ==> minParent == LinkTo(layout.free, best) && minExtra == Slack(layout, need, best)
      ensures found <==> !NoFit(layout, need)
      ensures !found ==> end == |layout.free| && parent == LinkTo(layout.free, end)
    {
      parent, minParent, found, minExtra, best, end := Head, Head, false, SLACK_CAP, 0, 0;
      EmptyHeap(layout);
      NodeAddress(layout, 0);
      var chunk := ReadLink(parent, end);
      while chunk != 0
        invariant end <= |layout.free| && parent == LinkTo(layout.free, end) && chunk == NodeOf(layout.free, end)
        invariant chunk == 0 ==> end == |layout.free|
        invariant found ==> BestOf(layout, need, end, best)
        invariant found ==> minParent == LinkTo(layout.free, best) && minExtra == Slack(layout, need, best)
        invariant !found ==> NoneOf(layout, need, end) && minExtra == SLACK_CAP
        decreases |layout.free| - end
      {
        var size := NodeSize(chunk, end);
        if size >= need {
          var extra := size - need;
          if extra < minExtra {
            minExtra, minParent, found, best := extra, parent, true, end;
            // Sizes are aligned, so nothing is left over: no chunk is better
            if extra < WORD {
              AlignedSlack(layout, need, end);
              NoSlackIsBest(layout, need, end);
              return;
            }
          }
        }
        parent, end := Next(chunk), end + 1;
        NodeAddress(layout, end);
        chunk := ReadLink(parent, end);
      }
    }

    /** Free chunk `i` leaves the list: the link to it skips to the next node. */
    method Detach(parent: Link, ghost i: nat) returns (chunk: nat)
      requires Sound() && i < |layout.free| && parent == LinkTo(layout.free, i)
      modifies this`head, this`layout, ram, ram.bytes
      ensures Sound() && chunk == old(layout).free[i] && chunk in old(layout).chunks
      ensures layout == old(layout).(free := Take(old(layout).free, i))
      ensures layout.Live() == old(layout.Live())[chunk := old(layout).chunks[chunk]]
      ensures SameData(old(ram.words), ram.words, old(layout.Live()))
    {
      ghost var l, w := layout, ram.words;
      NodeRoom(l, i);
      Unlink(w, head, l, i);
      chunk := ReadLink(parent, i);
      assert LinkAt(w, l.free, i);
      var next := ram.Get(chunk + WORD);
      NodeAddress(l, i + 1);
      WriteLink(parent, next, l.free, i);
      layout := l.(free := Take(l.free, i));
    }

    // The whole of free chunk `best` is handed out.
    method TakeWhole(size: nat, parent: Link, ghost best: nat) returns (chunk: nat)
      requires Sound() && best < |layout.free| && parent == LinkTo(layout.free, best)
      requires layout.free[best] in layout.chunks && size == layout.chunks[layout.free[best]]
      modifies this`head, this`layout, ram, ram.bytes
      ensures Sound() && chunk == old(layout).free[best] && chunk in old(layout).chunks
      ensures layout == old(layout).(free := Take(old(layout).free, best))
      ensures layout.Live() == old(layout.Live())[chunk := old(layout).chunks[chunk]]
      ensures SameData(old(ram.words), ram.words, old(layout.Live()))
    {
      chunk := Detach(parent, best);
      ghost var w1 := ram.words;
      assert SizeAt(w1, layout.chunks, chunk);
      assert ChunkOk(layout.lo, layout.hi, chunk, layout.chunks[chunk]);
      ram.Set(chunk, size);
      assert ram.words == w1;
    }

    // The front of free chunk `best` is handed out; the rest stays free.
    method CutFront(need: nat, minExtra: nat, parent: Link, ghost best: nat) returns (chunk: nat)
      requires Sound() && Carvable(layout, best, need) && minExtra == layout.chunks[layout.free[best]] - need
      requires parent == LinkTo(layout.free, best)
      modifies this`head, this`layout, ram, ram.bytes
      ensures Sound() && chunk == old(layout).free[best]
      ensures Carvable(old(layout), best, need) && layout == Carved(old(layout), best, need)
      ensures layout.Live() == old(layout.Live())[chunk := need]
      ensures SameData(old(ram.words), ram.words, old(layout.Live()))
    {
      ghost var l, w := layout, ram.words;
      NodeRoom(l, best);
      Carve(w, head, l, best, need);
      chunk := ReadLink(parent, best);
      assert LinkAt(w, l.free, best);
      var next := ram.Get(chunk + WORD);
      NodeAddress(l, best + 1);
      CutStores(chunk, need, minExtra, next, parent, l.free, best);
      layout := Carved(l, best, need);
    }

    // The stores of the split: the node of the rest, the link to it, the size of the block.
    method CutStores(chunk: nat, need: nat, rest: nat, next: nat, parent: Link, ghost free: seq<nat>, ghost i: nat)
      requires ram.Valid() && i <= |free| && parent == LinkTo(free, i) && (i > 0 ==> free[i - 1] + WORD in ram.words)
      requires chunk in ram.words && chunk + need in ram.words && chunk + need + WORD in ram.words
      requires chunk + need <= SIZE_MAX && rest <= SIZE_MAX && next <= SIZE_MAX
      modifies this`head, ram, ram.bytes
      ensures ram.Valid() && head == LinkedHead(old(head), i, chunk + need)
      ensures var w := old(ram.words)[chunk + need := rest][chunk + need + WORD := next];
              ram.words == Linked(w, free, i, chunk + need)[chunk := need]
    {
      StoreNode(chunk + need, rest, next);
      WriteLink(parent, chunk + need, free, i);
      ram.Set(chunk, need);
    }

    // A block from fresh memory.
    method Extend(need: nat) returns (ptr: nat)
      requires Valid() && Aligned(need) && MALLOC_MIN_SIZE <= need
      modifies this`brk, this`calls, this`sbrkStart, this`sbrkEnd, this`layout, ram, ram.bytes
      ensures Valid()
      ensures ptr == 0 <==> !old(Env()).Grants(need)
      ensures ptr == 0 ==> layout == old(layout) && ram.words == old(ram.words)
      ensures ptr == 0 ==>
        sbrkStart == old(sbrkStart) && sbrkEnd == if old(Env()).Strands(need) then brk else old(sbrkEnd)
      ensures ptr != 0 ==> WORD < ptr && ptr - WORD !in old(layout).Live()
      ensures ptr != 0 ==> layout.Live() == old(layout.Live())[ptr - WORD := need]
      ensures ptr != 0 ==> layout.hi == ptr - WORD + need
      ensures ptr != 0 ==> old(brk) <= ptr - WORD < old(brk) + WORD
      ensures ptr != 0 ==>
        if old(layout).lo == 0 then layout.lo == ptr - WORD
        else layout.lo == old(layout).lo && ptr - WORD == old(layout).hi
      ensures SameData(old(ram.words), ram.words, old(layout.Live()))
    {
      var chunk := AlignedSbrk(need);
      if chunk == SBRK_FAILURE { return 0; }
      ghost var base := if layout.lo == 0 then Layout(chunk, chunk, map[], []) else layout;
      EmptyHeap(layout);
      CoversFromRam(chunk);
      CoversFromRam(sbrkEnd);
      assert layout.lo == 0 ==> layout.Live() == map[] && base.Live() == map[];
      assert InPlace(ram.words, head, base, -1);
      Append(ram.words, head, base, need);
      ram.Set(chunk, need);
      layout := base.(hi := base.hi + need, chunks := base.chunks[base.hi := need]);
      ptr := chunk + WORD;
    }

    // The best fit serves the request, whole or in part.
    method ServeFit(need: nat, minParent: Link, minExtra: nat, ghost best: nat) returns (ptr: nat)
      requires Valid() && Aligned(need) && MALLOC_MIN_SIZE <= need && BestFit(layout, need, best)
      requires minParent == LinkTo(layout.free, best) && minExtra == Slack(layout, need, best)
      modifies this`head, this`layout, ram, ram.bytes
      ensures Valid() && ptr != 0 && Served(old(layout), layout, need, ptr) && !NoFit(old(layout), need)
      ensures LittleWaste(layout, ptr, need)
      ensures SameData(old(ram.words), ram.words, old(layout.Live()))
    {
      ghost var l := layout;
      NodeAddress(l, best);
      NodeRoom(l, best);
      assert ChunkOk(l.lo, l.hi, l.free[best], l.chunks[l.free[best]]);
      var chunk;
      if minExtra < MALLOC_MIN_SIZE {
        // What is left could not be a chunk
        chunk := TakeWhole(need + minExtra, minParent, best);
      } else {
        chunk := CutFront(need, minExtra, minParent, best);
      }
      ptr := chunk + WORD;
      ServedFromList(l, layout, need, best);
    }

    // Nothing fits: a block from new memory, if the platform gives any.
    method ServeFresh(need: nat, parent: Link, ghost end: nat) returns (ptr: nat)
      requires Valid() && Aligned(need) && MALLOC_MIN_SIZE <= need <= SIZE_MAX && NoFit(layout, need)
      requires end == |layout.free| && parent == LinkTo(layout.free, end)
      modifies this`brk, this`calls, this`sbrkStart, this`sbrkEnd, this`layout, ram, ram.bytes
      ensures Valid()
      ensures ptr == 0 <==> !old(Env()).Grants(need)
      ensures ptr == 0 ==> layout == old(layout) && ram.words == old(ram.words)
      ensures ptr == 0 ==> sbrkEnd == if old(Env()).Strands(need) then brk else old(sbrkEnd)
      ensures ptr != 0 ==> Served(old(layout), layout, need, ptr) && LittleWaste(layout, ptr, need)
      ensures ptr != 0 ==> old(brk) <= ptr - WORD < old(brk) + WORD && brk == layout.hi
      ensures SameData(old(ram.words), ram.words, old(layout.Live()))
    {
      // The search ended at the NULL link, so there is no last block to extend
      var last := ReadLink(parent, end);
      var grown := ChunkGrow(last, need);
      assert !grown;
      ghost var l := layout;
      ptr := Extend(need);
      if ptr != 0 { ServedFresh(l, layout, need, ptr); }
    }

    /** malloc(size): serves the best fit among the free chunks, and moves the break
        only when none fits. */
    method Malloc(size: nat) returns (ptr: nat)
      requires Valid() && size <= MAX_REQUEST
      modifies this, ram, ram.bytes
      ensures Valid()
      ensures ptr == 0 <==>
        size == 0 || (NoFit(old(layout), ChunkSizeForData(size)) && !old(Env()).Grants(ChunkSizeForData(size)))
      ensures ptr == 0 ==> layout == old(layout) && ram.words == old(ram.words)
      ensures ptr == 0 ==>
        sbrkEnd == if size != 0 && old(Env()).Strands(ChunkSizeForData(size)) then brk else old(sbrkEnd)
      ensures ptr != 0 ==> Served(old(layout), layout, ChunkSizeForData(size), ptr)
      ensures ptr != 0 ==> LittleWaste(layout, ptr, ChunkSizeForData(size))
      ensures size == 0 || !NoFit(old(layout), ChunkSizeForData(size)) ==> calls == old(calls) && brk == old(brk)
      ensures ptr != 0 && NoFit(old(layout), ChunkSizeForData(size)) ==>
        old(brk) <= ptr - WORD < old(brk) + WORD && brk == layout.hi
      ensures SameData(old(ram.words), ram.words, old(layout.Live()))
    {
      if size == 0 { return 0; }
      ChunkSizeFits(size);
      var need := ChunkSizeForData(size);
      var found, minParent, minExtra, parent, best, end := FindBestFit(need);
      if found {
        ptr := ServeFit(need, minParent, minExtra, best);
      } else {
        ptr := ServeFresh(need, parent, end);
      }
    }

    // ------------------------------------------------------------------ realloc

    /** The data of block `c` moves down into block `p`, which it touches, and `p`
        takes over the room of both (lines 358-361). */
    method SlideDown(p: nat, c: nat, total: nat)
      requires Sound() && p in layout.Live() && c in layout.Live() && layout.End(p) == c
      requires total == layout.chunks[p] + layout.chunks[c]
      modifies this`layout, ram, ram.bytes
      ensures Sound()
      ensures layout.free == old(layout).free && layout.chunks == Join(old(layout).chunks, p, c)
      ensures layout.Live() == (old(layout).Live() - {c})[p := total]
      ensures layout.lo == old(layout.lo) && layout.hi == old(layout.hi)
      ensures SameData(old(ram.words), ram.words, old(layout.Live()) - {p} - {c})
      ensures Carried(old(ram.words), c, ram.words, p, old(layout).chunks[c])
    {
      ghost var l := layout;
      InHeap(l.lo, l.hi, l.chunks, c);
      MoveBlock(p, c);
      ram.Set(p, total);
      layout := l.(chunks := Join(l.chunks, p, c));
    }

    // The data moves; once the header of `p` is stored the heap is in order again.
    method MoveBlock(p: nat, c: nat)
      requires Sound() && p in layout.Live() && c in layout.Live() && layout.End(p) == c
      modifies ram, ram.bytes
      ensures ram.Valid() && Slid(old(ram.words), ram.words, head, layout, p, c)
    {
      ghost var w := ram.words;
      InHeap(layout.lo, layout.hi, layout.chunks, p);
      MoveData(p, c);
      Slide(w, ram.words, head, layout, p, c);
    }

    // The data of chunk `c` moves to where that of `p` starts; the two may overlap.
    method MoveData(p: nat, c: nat)
      requires Sound() && p in layout.chunks && c in layout.chunks && p < c
      modifies ram, ram.bytes
      ensures ram.Valid() && WORD <= layout.chunks[c]
      ensures WordsMoved(old(ram.words), ram.words, p + WORD, c + WORD, layout.chunks[c] - WORD)
    {
      assert SizeAt(ram.words, layout.chunks, c);
      assert ChunkOk(layout.lo, layout.hi, c, layout.chunks[c]) && ChunkOk(layout.lo, layout.hi, p, layout.chunks[p]);
      MoveAligned(p, c, layout.chunks[c]);
      var size := ram.Get(c);
      ram.Move(p + WORD, c + WORD, size - WORD);
    }

    /** The free chunk `i`, which ends where block `c` starts, and the block merge; the
        data moves to the front (lines 353-368). */
    method AbsorbLeft(p0: nat, c: nat, total: nat, parent: Link, ghost i: nat)
      requires Sound() && c in layout.Live()
      requires i < |layout.free| && p0 == layout.free[i] && parent == LinkTo(layout.free, i)
      requires p0 in layout.chunks && layout.End(p0) == c && total == layout.chunks[p0] + layout.chunks[c]
      modifies this`head, this`layout, ram, ram.bytes
      ensures Sound()
      ensures layout.free == Take(old(layout).free, i)
      ensures layout.chunks == Join(old(layout).chunks, p0, c)
      ensures layout.Live() == (old(layout).Live() - {c})[p0 := total]
      ensures layout.lo == old(layout.lo) && layout.hi == old(layout.hi)
      ensures SameData(old(ram.words), ram.words, old(layout.Live()) - {c})
      ensures Carried(old(ram.words), c, ram.words, p0, old(layout).chunks[c])
    {
      ghost var l, w := layout, ram.words;
      NodeRoom(l, i);
      var p := Detach(parent, i);
      ghost var w1 := ram.words;
      SlideDown(p, c, total);
      AbsorbedData(w, w1, ram.words, l, p, c);
    }

    /** The free chunk `i`, which starts where block `c` ends, becomes part of the block
        (lines 369-381). */
    method AbsorbRight(c: nat, total: nat, parent: Link, ghost i: nat)
      requires Sound() && c in layout.Live()
      requires i < |layout.free| && layout.free[i] in layout.chunks && layout.End(c) == layout.free[i]
      requires parent == LinkTo(layout.free, i)
      requires total == layout.chunks[c] + layout.chunks[layout.free[i]]
      modifies this`head, this`layout, ram, ram.bytes
      ensures Sound()
      ensures layout.free == Take(old(layout).free, i)
      ensures layout.chunks == Join(old(layout).chunks, c, old(layout).free[i])
      ensures layout.Live() == old(layout).Live()[c := total]
      ensures layout.lo == old(layout.lo) && layout.hi == old(layout.hi)
      ensures SameData(old(ram.words), ram.words, old(layout.Live()))
    {
      ghost var l, w := layout, ram.words;
      NodeRoom(l, i);
      ClearOf(l.lo, l.hi, l.chunks, c);
      var e := Detach(parent, i);
      ghost var l1, w1 := layout, ram.words;
      JoinLiveStored(w1, head, l1, c, e);
      ClearOf(l1.lo, l1.hi, l1.chunks, e);
      ram.Set(c, total);
      layout := l1.(chunks := Join(l1.chunks, c, e));
      ghost var w2 := ram.words;
      EraseInner(c, e);
      RightData(w, w1, w2, ram.words, l, c, e);
    }

    // The header that now lies inside block `c` is cleared.
    method EraseInner(ghost c: nat, e: nat)
      requires Sound() && c in layout.Live() && e in ram.words && e + WORD in ram.words
      requires c + WORD <= e && e + WORD < layout.End(c)
      modifies ram, ram.bytes
      ensures Sound() && SameData(old(ram.words), ram.words, layout.Live()[c := e - c])
    {
      EraseHeader(ram.words, head, layout, c, e);
      ram.Set(e, 0);
      ram.Set(e + WORD, 0);
    }

    // The search has come to the free chunk on the left.
    method StepLeft(ghost l0: Layout, ghost w0: Words, ghost c: nat, adjacent: nat, chunk: nat, size: nat,
                    adjacentSize: nat, parent: Link, ghost merged: bool, ghost j: nat)
      requires Sound() && WellFormed(l0) && Searching(l0, w0, layout, ram.words, c, chunk, size, merged, j)
      requires EndsAt(layout, j, chunk) && parent == LinkTo(layout.free, j)
      requires adjacent == layout.free[j] && adjacentSize == layout.chunks[adjacent]
      modifies this`head, this`layout, ram, ram.bytes
      ensures Sound()
      ensures Searching(l0, w0, layout, ram.words, c, adjacent, size + adjacentSize, true, j)
      ensures parent == LinkTo(layout.free, j) && |layout.free| == old(|layout.free|) - 1
      ensures FreeKept(l0, layout, c)
    {
      ghost var l, w := layout, ram.words;
      if j > 0 { TakeAt(l.free, j, j - 1); }
      AbsorbLeft(adjacent, chunk, size + adjacentSize, parent, j);
      SearchLeft(l0, w0, l, w, layout, ram.words, c, chunk, size, merged, j);
      FreeKeptLeft(l0, layout, c, j);
    }

    // The search has come to the free chunk on the right, and ends.
    method StepRight(ghost l0: Layout, ghost w0: Words, ghost c: nat, chunk: nat, size: nat, adjacentSize: nat,
                     parent: Link, ghost merged: bool, ghost j: nat)
      requires Sound() && WellFormed(l0) && Searching(l0, w0, layout, ram.words, c, chunk, size, merged, j)
      requires j < |layout.free| && layout.free[j] == l0.End(c) && layout.free[j] in layout.chunks
      requires parent == LinkTo(layout.free, j) && adjacentSize == layout.chunks[layout.free[j]]
      requires FreeKept(l0, layout, c)
      modifies this`head, this`layout, ram, ram.bytes
      ensures Sound()
      ensures Absorbed(l0, w0, layout, ram.words, c, chunk, size + adjacentSize)
      ensures FreeKept(l0, layout, c)
    {
      ghost var l, w := layout, ram.words;
      SearchSettled(l0, w0, l, w, c, chunk, size, merged, j);
      NodeIn(l, j);
      AbsorbRight(chunk, size + adjacentSize, parent, j);
      RightMerged(l0, w0, l, w, ram.words, c, chunk, size + adjacentSize);
      FreeKeptRight(l0, l, layout, c, chunk, j);
    }

    // The search looks at free chunk `j0`, which lies at or below the end of the block.
    method SearchStep(ghost l0: Layout, ghost w0: Words, ghost c: nat, adjacent: nat, chunk0: nat, size0: nat,
                      parent0: Link, ghost merged0: bool, ghost j0: nat)
      returns (chunk: nat, size: nat, parent: Link, ghost merged: bool, ghost j: nat, done: bool)
      requires Sound() && WellFormed(l0) && Searching(l0, w0, layout, ram.words, c, chunk0, size0, merged0, j0)
      requires FreeKept(l0, layout, c) && parent0 == LinkTo(layout.free, j0)
      requires j0 < |layout.free| && adjacent == layout.free[j0] && adjacent <= l0.End(c)
      modifies this`head, this`layout, ram, ram.bytes
      ensures Sound() && FreeKept(l0, layout, c)
      ensures !done ==> Searching(l0, w0, layout, ram.words, c, chunk, size, merged, j)
      ensures !done ==> parent == LinkTo(layout.free, j) && |layout.free| - j < old(|layout.free|) - j0
      ensures done ==> Absorbed(l0, w0, layout, ram.words, c, chunk, size)
    {
      chunk, size, parent, merged, j, done := chunk0, size0, parent0, merged0, j0, false;
      var adjacentSize := NodeSize(adjacent, j);
      if adjacent + adjacentSize == chunk {
        StepLeft(l0, w0, c, adjacent, chunk, size, adjacentSize, parent, merged, j);
        size, chunk, merged := size + adjacentSize, adjacent, true;
      } else if adjacent == chunk + size {
        StepRight(l0, w0, c, chunk, size, adjacentSize, parent, merged, j);
        size, done := size + adjacentSize, true;
      } else {
        SearchOn(l0, w0, layout, ram.words, c, chunk, size, merged, j);
        parent, j := Next(adjacent), j + 1;
      }
    }

    /** The search of noc_realloc for free neighbours of block `c` (lines 347-384): all
        of them are merged into the block, first left, then right. */
    method Absorb(c: nat) returns (chunk: nat, size: nat)
      requires Sound() && c in layout.Live()
      modifies this`head, this`layout, ram, ram.bytes
      ensures Sound() && FreeKept(old(layout), layout, c)
      ensures Absorbed(old(layout), old(ram.words), layout, ram.words, c, chunk, size)
    {
      ghost var l0, w0 := layout, ram.words;
      ghost var merged, j := false, 0;
      assert SizeAt(w0, l0.chunks, c);
      AllFreeKept(l0, c);
      size := ram.Get(c);
      chunk := c;
      var chunkEnd := c + size;
      var parent, done := Head, false;
      var adjacent := ReadLink(parent, j);
      while adjacent != 0 && adjacent <= chunkEnd
        invariant Sound() && FreeKept(l0, layout, c)
        invariant Searching(l0, w0, layout, ram.words, c, chunk, size, merged, j)
        invariant parent == LinkTo(layout.free, j) && adjacent == NodeOf(layout.free, j)
        decreases |layout.free| - j
      {
        chunk, size, parent, merged, j, done := SearchStep(l0, w0, c, adjacent, chunk, size, parent, merged, j);
        if done { return; }
        adjacent := ReadLink(parent, j);
      }
      EmptyHeap(layout);
      NodeAddress(layout, j);
      SearchDone(l0, w0, layout, ram.words, c, chunk, size, merged, j);
    }

    /** Splitting an oversized block (lines 390-397): a rest that can be a chunk is
        freed. */
    method Trim(chunk: nat, oldSize: nat, need: nat)
      requires Valid() && chunk in layout.Live() && Aligned(need) && MALLOC_MIN_SIZE <= need <= oldSize
      requires oldSize == need || oldSize == layout.chunks[chunk]
      modifies this`head, this`layout, ram, ram.bytes
      ensures Valid()
      ensures oldSize == need ==> layout == old(layout)
      ensures oldSize != need ==> layout.Live() == old(layout.Live())[chunk := Trimmed(oldSize, need)]
      ensures oldSize == old(layout.chunks[chunk]) ==> LittleWaste(layout, chunk + WORD, need)
      ensures layout.lo == old(layout.lo) && layout.hi == old(layout.hi)
      ensures SameData(old(ram.words), ram.words, layout.Live())
    {
      ghost var l, w := layout, ram.words;
      var extra := oldSize - need;
      if extra >= MALLOC_MIN_SIZE {
        SplitLive(w, head, l, chunk, need);
        InHeap(l.lo, l.hi, l.chunks, chunk);
        ram.Set(chunk, need);
        layout := l.(chunks := Split(l.chunks, chunk, need));
        InsertFreeChunk(chunk + need, extra);
        TrimData(w, ram.words, l, layout, chunk, need);
      } else {
        assert l.Live() == l.Live()[chunk := l.chunks[chunk]];
        SameDataRefl(w, l.Live());
      }
    }

    /** The last resort of noc_realloc (lines 402-407): a new block, a copy, and the old
        block freed. */
    method Relocate(chunk: nat, size: nat) returns (r: nat)
      requires Valid() && 0 < size <= MAX_REQUEST && chunk in layout.Live()
      requires layout.chunks[chunk] < ChunkSizeForData(size)
      modifies this, ram, ram.bytes
      ensures Valid()
      ensures r == 0 <==>
        NoFit(old(layout), ChunkSizeForData(size)) && !old(Env()).More(old(calls), ChunkSizeForData(size))
      ensures r == 0 ==> layout == old(layout) && ram.words == old(ram.words)
      ensures r != 0 ==> WORD < r && r - WORD !in old(layout).Live() && r - WORD in layout.chunks
      ensures r != 0 ==> layout.Live() == (old(layout).Live() - {chunk})[r - WORD := layout.chunks[r - WORD]]
      ensures r != 0 ==> ChunkSizeForData(size) <= layout.chunks[r - WORD] < ChunkSizeForData(size) + 16
      ensures SameData(old(ram.words), ram.words, old(layout.Live()) - {chunk})
      ensures r != 0 ==> Carried(old(ram.words), chunk, ram.words, r - WORD, old(layout).chunks[chunk])
    {
      ghost var l, w := layout, ram.words;
      r := AnotherBlock(chunk, size);
      if r == 0 {
        SameDataRefl(w, l.Live() - {chunk});
        return;
      }
      ghost var l1, w1 := layout, ram.words;
      MoveOver(r - WORD, chunk);
      RelocatedData(w, w1, ram.words, l, l1, layout, chunk, r - WORD);
    }

    // A new block beside block `c`, or nothing.
    method AnotherBlock(ghost c: nat, size: nat) returns (r: nat)
      requires Valid() && 0 < size <= MAX_REQUEST && c in layout.Live() && layout.chunks[c] < ChunkSizeForData(size)
      modifies this, ram, ram.bytes
      ensures Valid()
      ensures r == 0 <==>
        NoFit(old(layout), ChunkSizeForData(size)) && !old(Env()).More(old(calls), ChunkSizeForData(size))
      ensures r == 0 ==> layout == old(layout) && ram.words == old(ram.words)
      ensures r != 0 ==>
        && WORD < r && r - WORD !in old(layout).Live() && r - WORD in layout.Live()
        && c in layout.Live() && r - WORD != c
        && layout.Live() == old(layout).Live()[r - WORD := layout.chunks[r - WORD]]
        && layout.chunks[c] == old(layout).chunks[c]
        && ChunkSizeForData(size) <= layout.chunks[r - WORD] < ChunkSizeForData(size) + 16
      ensures SameData(old(ram.words), ram.words, old(layout.Live()))
    {
      ghost var l := layout;
      BreakAligned(c, ChunkSizeForData(size));
      r := Malloc(size);
      if r != 0 { NewBlock(l, layout, ChunkSizeForData(size), r, c); }
    }

    // The data of block `c` goes to block `a`, and `c` is freed.
    method MoveOver(a: nat, c: nat)
      requires Valid() && a in layout.Live() && c in layout.Live() && a != c && layout.chunks[c] <= layout.chunks[a]
      modifies this`head, this`layout, ram, ram.bytes
      ensures Valid() && layout.Live() == old(layout).Live() - {c}
      ensures layout.lo == old(layout.lo) && layout.hi == old(layout.hi)
      ensures SameData(old(ram.words), ram.words, old(layout).Live() - {a} - {c})
      ensures Carried(old(ram.words), c, ram.words, a, old(layout).chunks[c])
    {
      ghost var l, w := layout, ram.words;
      CopyData(a, c);
      ghost var w1 := ram.words;
      InHeap(l.lo, l.hi, l.chunks, c);
      Free(c + WORD);
      MovedOver(w, w1, ram.words, l, layout, a, c);
    }

    // The data of block `c` is copied to block `a`, which lies elsewhere.
    method CopyData(a: nat, c: nat)
      requires Sound() && a in layout.Live() && c in layout.Live() && a != c
      requires layout.chunks[c] <= layout.chunks[a]
      modifies ram, ram.bytes
      ensures Sound()
      ensures SameData(old(ram.words), ram.words, layout.Live() - {a})
      ensures Carried(old(ram.words), c, ram.words, a, layout.chunks[c])
    {
      ghost var w := ram.words;
      assert SizeAt(w, layout.chunks, c);
      assert ChunkOk(layout.lo, layout.hi, c, layout.chunks[c]) && ChunkOk(layout.lo, layout.hi, a, layout.chunks[a]);
      ClearOf(layout.lo, layout.hi, layout.chunks, c);
      MoveAligned(a, c, layout.chunks[c]);
      var size := ram.Get(c);
      ram.Copy(a + WORD, c + WORD, size - WORD);
      CopyInto(w, ram.words, head, layout, a, c, size);
    }

    /** Making room for a larger block (lines 341-386): at the top of the heap the block
        grows; otherwise, or if the break cannot be moved, it absorbs its free
        neighbours. */
    method MakeRoom(c: nat, size: nat, need: nat) returns (chunk: nat, oldSize: nat)
      requires Valid() && c in layout.Live() && Aligned(need) && need <= SIZE_MAX && size == layout.chunks[c]
      modifies this, ram, ram.bytes
      ensures Valid()
      ensures Prepared(old(layout), old(ram.words), layout, ram.words, c, need, chunk, oldSize)
      ensures oldSize < need <==> Cramped(old(layout), old(Env()), c, need)
      ensures oldSize < need ==> brk == old(brk) && calls == LaterCall(old(layout), old(Env()), c, need)
      ensures oldSize < need ==> (NoFit(layout, need) <==> NoFit(old(layout), need))
      ensures size < need && CanGrow(old(layout), old(Env()), c, need) ==>
        chunk == c && oldSize == need && HasGrown(old(layout), layout, c, need)
    {
      ghost var l, w := layout, ram.words;
      NodeBounds(l, c);
      RoomAtLeast(l, c);
      if size >= need {
        chunk, oldSize := c, size;
        RoomyPrepared(l, w, c, need);
        return;
      }
      var grown := ChunkGrow(c, need);
      if grown {
        chunk, oldSize := c, need;
        GrownPrepared(l, w, layout, ram.words, c, need);
      } else {
        chunk, oldSize := Absorb(c);
        AbsorbedPrepared(l, w, layout, ram.words, c, need, chunk, oldSize);
        if oldSize < need { NoFitKept(l, layout, c, need); }
      }
    }

    /** realloc of a block in use to a non-zero size. */
    method ReallocBlock(ptr: nat, size: nat) returns (r: nat)
      requires Valid() && 0 < size <= MAX_REQUEST && Owns(ptr)
      modifies this, ram, ram.bytes
      ensures Valid()
      ensures Resized(old(layout), old(ram.words), layout, ram.words, ptr - WORD, ChunkSizeForData(size), r)
      ensures r == 0 <==> Hopeless(old(layout), old(Env()), ptr - WORD, ChunkSizeForData(size))
      ensures Grows(old(layout), old(Env()), ptr - WORD, ChunkSizeForData(size)) ==>
        r == ptr && HasGrown(old(layout), layout, ptr - WORD, ChunkSizeForData(size))
    {
      ghost var l, w := layout, ram.words;
      var c := ptr - WORD;
      NodeBounds(l, c);
      ClearOf(l.lo, l.hi, l.chunks, c);
      r := 0;
      if ptr < sbrkStart || ptr > sbrkEnd { return; }
      assert SizeAt(w, l.chunks, c);
      var oldSize := ram.Get(c);
      // A header that points beyond the heap
      if c + oldSize > sbrkEnd { return; }
      var need := ChunkSizeForData(size);
      r := Resize(c, oldSize, size, need);
    }

    method Resize(c: nat, oldSize: nat, size: nat, need: nat) returns (r: nat)
      requires Valid() && 0 < size <= MAX_REQUEST && need == ChunkSizeForData(size)
      requires c in layout.Live() && oldSize == layout.chunks[c]
      modifies this, ram, ram.bytes
      ensures Valid()
      ensures Resized(old(layout), old(ram.words), layout, ram.words, c, need, r)
      ensures r == 0 <==> Hopeless(old(layout), old(Env()), c, need)
      ensures Grows(old(layout), old(Env()), c, need) ==> r == c + WORD && HasGrown(old(layout), layout, c, need)
    {
      ghost var l, w := layout, ram.words;
      ChunkSizeFits(size);
      var chunk, room := MakeRoom(c, oldSize, need);
      r := Settle(l, w, c, chunk, room, size, need);
    }

    /** The end of noc_realloc (lines 388-407): the block is large enough now and loses
        what it does not need, or it moves to a new place. */
    method Settle(ghost l: Layout, ghost w: Words, ghost c: nat, chunk: nat, oldSize: nat, size: nat, need: nat)
      returns (r: nat)
      requires Valid() && 0 < size <= MAX_REQUEST && need == ChunkSizeForData(size)
      requires Aligned(need) && MALLOC_MIN_SIZE <= need
      requires Prepared(l, w, layout, ram.words, c, need, chunk, oldSize)
      modifies this, ram, ram.bytes
      ensures Valid()
      ensures Resized(l, w, layout, ram.words, c, need, r)
      ensures r == 0 <==> oldSize < need && NoFit(old(layout), need) && !old(Env()).More(old(calls), need)
      ensures oldSize == need ==> r == chunk + WORD && layout == old(layout)
    {
      ghost var l1, w1 := layout, ram.words;
      if oldSize >= need {
        Trim(chunk, oldSize, need);
        TrimmedResized(l, w, l1, w1, layout, ram.words, c, need, chunk, oldSize);
        return chunk + WORD;
      }
      // No room here
      r := Relocate(chunk, size);
      RelocatedResized(l, w, l1, w1, layout, ram.words, c, need, chunk, oldSize, r);
    }

    /** realloc(ptr, size). `Resized` says what becomes of a block in use. */
    method Realloc(ptr: nat, size: nat) returns (r: nat)
      requires Valid() && size <= MAX_REQUEST && (ptr == 0 || Owns(ptr))
      modifies this, ram, ram.bytes
      ensures Valid()
      ensures ptr == 0 ==>
        (r == 0 <==>
          size == 0 || (NoFit(old(layout), ChunkSizeForData(size)) && !old(Env()).Grants(ChunkSizeForData(size))))
      ensures ptr == 0 && r == 0 ==> layout == old(layout)
      ensures ptr == 0 && r != 0 ==> Served(old(layout), layout, ChunkSizeForData(size), r)
      ensures ptr == 0 ==> SameData(old(ram.words), ram.words, old(layout.Live()))
      ensures ptr != 0 && size == 0 ==> r == 0 && layout.Live() == old(layout.Live()) - {ptr - WORD}
      ensures ptr != 0 && size == 0 ==> SameData(old(ram.words), ram.words, layout.Live())
      ensures ptr != 0 && size != 0 ==>
        && Resized(old(layout), old(ram.words), layout, ram.words, ptr - WORD, ChunkSizeForData(size), r)
        && (r == 0 <==> Hopeless(old(layout), old(Env()), ptr - WORD, ChunkSizeForData(size)))
        && (Grows(old(layout), old(Env()), ptr - WORD, ChunkSizeForData(size)) ==>
              r == ptr && HasGrown(old(layout), layout, ptr - WORD, ChunkSizeForData(size)))
      ensures ptr != 0 && size != 0 && r != 0 ==> LittleWaste(layout, r, ChunkSizeForData(size))
    {
      if ptr == 0 {
        r := Malloc(size);
      } else if size == 0 {
        Free(ptr);
        r := 0;
      } else {
        r := ReallocBlock(ptr, size);
      }
    }

    /** mem_free: what is on the list. */
    method MemFree() returns (count: nat)
      requires Valid()
      ensures count == ListTotal(layout.chunks, layout.free)
      ensures count + Total(layout.Live()) == layout.hi - layout.lo
    {
      ghost var j := 0;
      count := 0;
      EmptyHeap(layout);
      var node := head;
      NodeAddress(layout, 0);
      assert layout.free[0..] == layout.free;
      while node != 0
        invariant j <= |layout.free| && node == NodeOf(layout.free, j)
        invariant node == 0 ==> j == |layout.free|
        invariant count + ListTotal(layout.chunks, layout.free[j..]) == ListTotal(layout.chunks, layout.free)
        decreases |layout.free| - j
      {
        NodeRoom(layout, j);
        assert SizeAt(ram.words, layout.chunks, node) && LinkAt(ram.words, layout.free, j);
        var size := ram.Get(node);
        assert layout.free[j..][0] == node && layout.free[j..][1..] == layout.free[j + 1..];
        count, j := count + size, j + 1;
        node := ram.Get(node + WORD);
        NodeAddress(layout, j);
      }
      assert layout.free[j..] == [];
      Conservation(layout);
    }

    /** A client storing a word into a block it owns. */
    method ClientWrite(ptr: nat, offset: nat, v: nat)
      requires Valid() && Owns(ptr) && Aligned(offset) && v <= SIZE_MAX
      requires ptr + offset < layout.End(ptr - WORD)
      modifies ram, ram.bytes
      ensures Valid() && ptr + offset in old(ram.words)
      ensures ram.words == old(ram.words)[ptr + offset := v]
      ensures SameData(old(ram.words), ram.words, layout.Live() - {ptr - WORD})
    {
      ghost var c, x := ptr - WORD, ptr + offset;
      assert ChunkOk(layout.lo, layout.hi, c, layout.chunks[c]);
      assert IsWord(layout.hi, x);
      InnerStore(ram.words, head, layout, c, x, v);
      SameDataFewer(ram.words, ram.words[x := v], layout.Live()[c := x - c], layout.Live() - {c});
      ram.Set(ptr + offset, v);
    }
  }

  // ------------------------------------------------------------- conservation

  ghost function Total(m: Chunks): nat
  {
    if m == map[] then 0 else var k :| k in m; m[k] + Total(m - {k})
  }

  lemma {:induction false} TotalRemove(m: Chunks, c: nat)
    requires c in m
    ensures Total(m) == m[c] + Total(m - {c})
  {
    var k :| k in m && Total(m) == m[k] + Total(m - {k});
    if k != c {
      TotalRemove(m - {k}, c);
      TotalRemove(m - {c}, k);
      assert m - {k} - {c} == m - {c} - {k};
    }
  }

  // The sizes of the chunks of a list.
  function ListTotal(chunks: Chunks, free: seq<nat>): nat
  {
    if free == [] then 0
    else (if free[0] in chunks then chunks[free[0]] else 0) + ListTotal(chunks, free[1..])
  }

  lemma {:induction false} TiledTotal(lo: nat, hi: nat, chunks: Chunks)
    requires Tiled(lo, hi, chunks)
    ensures Total(chunks) == hi - lo
    decreases hi - lo
  {
    AllBelow(lo, hi, chunks);
    if lo < hi {
      RestTiled(lo, hi, chunks);
      TiledTotal(lo + chunks[lo], hi, chunks - {lo});
      TotalRemove(chunks, lo);
    } else {
      assert chunks == map[];
    }
  }

  // Without its first chunk the heap is tiled from where that one ended.
  lemma RestTiled(lo: nat, hi: nat, chunks: Chunks)
    requires Tiled(lo, hi, chunks) && lo < hi
    ensures lo < lo + chunks[lo] <= hi && Tiled(lo + chunks[lo], hi, chunks - {lo})
  {
    var next, rest := lo + chunks[lo], chunks - {lo};
    ClearOf(lo, hi, chunks, lo);
    assert ChunkOk(lo, hi, lo, chunks[lo]) && ChainedAt(hi, chunks, lo);
    forall c | c in rest
      ensures ChunkOk(next, hi, c, rest[c]) && ChainedAt(hi, rest, c)
    {
      assert ChunkOk(lo, hi, c, chunks[c]) && ChainedAt(hi, chunks, c);
    }
    forall c, d | c in rest && d in rest
      ensures ApartAt(rest, c, d)
    {
      assert ApartAt(chunks, c, d);
    }
  }

  ghost function Unlisted(chunks: Chunks, free: seq<nat>): Chunks { map c | c in chunks && c !in free :: chunks[c] }

  lemma {:induction false} ListedTotal(chunks: Chunks, free: seq<nat>)
    requires Sorted(free) && forall c :: c in free ==> c in chunks
    ensures Total(chunks) == ListTotal(chunks, free) + Total(Unlisted(chunks, free))
  {
    if free == [] {
      assert Unlisted(chunks, free) == chunks;
    } else {
      var c, rest := free[0], free[1..];
      HeadIn(free);
      forall d
        ensures d in rest <==> d in free && d != c
      {
        TailElement(free, d);
      }
      ListedTotal(chunks, rest);
      assert c in Unlisted(chunks, rest);
      TotalRemove(Unlisted(chunks, rest), c);
      assert Unlisted(chunks, rest) - {c} == Unlisted(chunks, free);
    }
  }

  /** Free and allocated chunks together account for every byte of the heap. */
  lemma Conservation(l: Layout)
    requires WellFormed(l)
    ensures ListTotal(l.chunks, l.free) + Total(l.Live()) == l.hi - l.lo
  {
    TiledTotal(l.lo, l.hi, l.chunks);
    ListSorted(l, -1);
    forall c | c in l.free
      ensures c in l.chunks
    {
      var i :| 0 <= i < |l.free| && l.free[i] == c;
      assert l.free[i] in l.chunks;
    }
    ListedTotal(l.chunks, l.free);
    assert Unlisted(l.chunks, l.free) == l.Live();
  }

  // The range test that opens noc_free.
  predicate Ignored(ptr: nat, sbrkStart: nat, sbrkEnd: nat) { ptr < sbrkStart || ptr >= sbrkEnd }

  lemma MoveAligned(a: nat, c: nat, size: nat)
    requires Aligned(a) && Aligned(c) && Aligned(size) && MALLOC_MIN_SIZE <= size
    ensures Aligned(a + WORD) && Aligned(c + WORD) && Aligned(size - WORD)
  {
  }

  lemma NodeBounds(l: Layout, c: nat)
    requires WellFormed(l) && c in l.Live()
    ensures l.lo <= c && c in l.chunks && 0 < l.chunks[c] && c + l.chunks[c] <= l.hi
  {
    ClearOf(l.lo, l.hi, l.chunks, c);
  }

  ghost predicate HasGrown(l0: Layout, l: Layout, c: nat, need: nat)
  {
    && c in l0.chunks && l0.End(c) == l0.hi && c in l.chunks && l.chunks[c] == l0.chunks[c] + Extra(l0.chunks[c], need)
    && l.hi == l0.hi + Extra(l0.chunks[c], need)
  }

  /** Block `c` has become block `chunk`, with room for `oldSize` at least: nothing is
      lost, and where it stands is determined. */
  ghost predicate Prepared(l0: Layout, w0: Words, l: Layout, w: Words, c: nat, need: nat, chunk: nat, oldSize: nat)
  {
    && c in l0.Live() && chunk in l.Live() && 0 < chunk && (chunk == c || chunk !in l0.Live())
    && l.Live() == (l0.Live() - {c})[chunk := l.chunks[chunk]]
    && SameData(w0, w, l0.Live() - {c})
    && Carried(w0, c, w, chunk, l0.chunks[c]) && l0.chunks[c] <= l.chunks[chunk]
    && l.lo == l0.lo
    && (|| (need <= l0.chunks[c] && chunk == c && oldSize == l0.chunks[c] == l.chunks[c] && l.hi == l0.hi)
        || (l0.chunks[c] < need && chunk == c && oldSize == need && HasGrown(l0, l, c, need))
        || (l0.chunks[c] < need && chunk == LeftOf(l0, c) && oldSize == Room(l0, c) == l.chunks[chunk]
          && l.hi == l0.hi))
  }

  lemma RoomyPrepared(l: Layout, w: Words, c: nat, need: nat)
    requires c in l.Live() && 0 < c && need <= l.chunks[c]
    ensures Prepared(l, w, l, w, c, need, c, l.chunks[c])
  {
    SameDataRefl(w, l.Live() - {c});
    assert l.Live() == (l.Live() - {c})[c := l.chunks[c]];
  }

  lemma GrownPrepared(l: Layout, w: Words, l': Layout, w': Words, c: nat, need: nat)
    requires c in l.Live() && 0 < c && l.chunks[c] < need && l'.lo == l.lo && l.End(c) == l.hi
    requires c in l'.chunks && l'.chunks[c] == l.chunks[c] + Extra(l.chunks[c], need)
    requires l'.Live() == l.Live()[c := l'.chunks[c]]
    requires l'.hi == l.hi + Extra(l.chunks[c], need)
    requires SameData(w, w', l.Live())
    ensures Prepared(l, w, l', w', c, need, c, need)
  {
    LiveAmong(l');
    assert c in l'.Live();
    SameDataFewer(w, w', l.Live(), l.Live() - {c});
    assert SameBlock(w, w', c, l.Live()[c]);
    assert l'.Live() == (l.Live() - {c})[c := l'.chunks[c]];
  }

  lemma AbsorbedPrepared(l: Layout, w: Words, l': Layout, w': Words, c: nat, need: nat, chunk: nat, size: nat)
    requires WellFormed(l) && 0 < l.lo && c in l.Live() && l.chunks[c] < need
    requires Absorbed(l, w, l', w', c, chunk, size)
    ensures Prepared(l, w, l', w', c, need, chunk, size)
  {
    LiveAmong(l');
    assert chunk in l'.Live();
    RoomAtLeast(l, c);
  }

  /** The block `c` starts at, once it has absorbed its left neighbour, was not in use. */
  lemma RoomAtLeast(l: Layout, c: nat)
    requires WellFormed(l) && c in l.Live()
    ensures l.chunks[c] <= Room(l, c) && l.lo <= LeftOf(l, c) <= c
    ensures LeftOf(l, c) == c || LeftOf(l, c) !in l.Live()
  {
    ClearOf(l.lo, l.hi, l.chunks, c);
    if i: nat :| EndsAt(l, i, c) {
      LeftIs(l, c, i);
      NodeRoom(l, i);
    }
  }

  /** What realloc makes of block `c`, given that a chunk of size `need` is asked for. */
  ghost predicate Resized(l0: Layout, w0: Words, l: Layout, w: Words, c: nat, need: nat, r: nat)
  {
    && c in l0.Live()
    && SameData(w0, w, l0.Live() - {c})
    && (if r != 0 then Delivered(l0, w0, l, w, c, need, r - WORD) else Kept(l0, w0, l, w, c, need))
    && (need <= l0.chunks[c] ==> InPlaceOf(l0, l, c, Trimmed(l0.chunks[c], need), r))
    && (l0.chunks[c] < need <= Room(l0, c) ==>
          || InPlaceOf(l0, l, LeftOf(l0, c), Trimmed(Room(l0, c), need), r)
          || (r == c + WORD && HasGrown(l0, l, c, need)))
  }

  // The block stands at `a` with size `size`, and the heap has kept its bounds.
  ghost predicate InPlaceOf(l0: Layout, l: Layout, a: nat, size: int, r: nat)
  {
    r == a + WORD && l.lo == l0.lo && l.hi == l0.hi && a in l.Live() && l.Live()[a] == size
  }

  /** Success: the block stands at `a`, large enough, with its data up to the smaller of
      the two sizes; every other block stays where it was. */
  ghost predicate Delivered(l0: Layout, w0: Words, l: Layout, w: Words, c: nat, need: nat, a: int)
    requires c in l0.chunks
  {
    && 0 < a && (a == c || a !in l0.Live()) && a in l.Live() && need <= l.Live()[a] < need + 16
    && l.Live() == (l0.Live() - {c})[a := l.Live()[a]]
    && Carried(w0, c, w, a, Min(l.Live()[a], l0.chunks[c]))
  }

  /** Failure: no room, and the block still exists, but it has absorbed its free
      neighbours and stands where the left one started. */
  ghost predicate Kept(l0: Layout, w0: Words, l: Layout, w: Words, c: nat, need: nat)
    requires c in l0.chunks
  {
    && Room(l0, c) < need && l.lo == l0.lo && l.hi == l0.hi
    && l.Live() == (l0.Live() - {c})[LeftOf(l0, c) := Room(l0, c)]
    && Carried(w0, c, w, LeftOf(l0, c), l0.chunks[c])
  }

  /** When realloc fails, the old block is still in use, at its address and with its
      data, exactly when no free chunk ended where it starts. C11 section 7.22.3.5
      promises it always. */
  lemma FailedRealloc(l0: Layout, w0: Words, l: Layout, w: Words, c: nat, need: nat)
    requires WellFormed(l0) && Resized(l0, w0, l, w, c, need, 0)
    ensures c in l.Live() <==> forall i: nat :: !EndsAt(l0, i, c)
    ensures c in l.Live() ==> Carried(w0, c, w, c, l0.chunks[c]) && l0.chunks[c] <= l.Live()[c]
  {
    RoomAtLeast(l0, c);
    if i: nat :| EndsAt(l0, i, c) {
      LeftIs(l0, c, i);
    } else {
      assert LeftOf(l0, c) == c;
    }
  }

  /** The same on bytes: after a realloc that succeeds the block holds the bytes it held
      before, as far as both sizes go. */
  lemma ResizedBytes(m: seq<byte>, w: Words, m': seq<byte>, w': Words, l: Layout, l': Layout, c: nat, need: nat, r: nat)
    requires Reflects(m, w) && Reflects(m', w') && WellFormed(l) && WellFormed(l') && l.hi <= |m| && l'.hi <= |m'|
    requires Resized(l, w, l', w', c, need, r) && r != 0
    ensures c in l.chunks && r - WORD in l'.Live() && c + l.chunks[c] <= |m| && r - WORD + l'.Live()[r - WORD] <= |m'|
    ensures var n := Min(l'.Live()[r - WORD], l.chunks[c]) - WORD;
      n >= 0 && m'[r..r + n] == m[c + WORD..c + WORD + n]
  {
    var a: nat := r - WORD;
    LiveAmong(l');
    assert ChunkOk(l.lo, l.hi, c, l.chunks[c]) && ChunkOk(l'.lo, l'.hi, a, l'.chunks[a]);
    MoveAligned(a, c, l.chunks[c]);
    MoveAligned(c, a, l'.chunks[a]);
    CarriedBytes(m, w, m', w', c, a, Min(l'.chunks[a], l.chunks[c]));
  }

  lemma CarriedBytes(m: seq<byte>, w: Words, m': seq<byte>, w': Words, c: nat, a: nat, size: nat)
    requires Reflects(m, w) && Reflects(m', w') && Carried(w, c, w', a, size) && WORD <= size
    requires Aligned(c + WORD) && Aligned(a + WORD) && Aligned(size - WORD) && c + size <= |m| && a + size <= |m'|
    ensures m'[a + WORD..a + size] == m[c + WORD..c + size]
  {
    var n: nat := size - WORD;
    forall x | x in w' && a + WORD <= x < a + WORD + n
      ensures x - (a + WORD) + (c + WORD) in w && w'[x] == w[x - (a + WORD) + (c + WORD)]
    {
      assert w'[x] == w[x - a + c];
    }
    WordsGiveBytes(m, w, m', w', c + WORD, a + WORD, n);
  }

  /** And every other block holds the bytes it held. */
  lemma SameDataBytes(m: seq<byte>, w: Words, m': seq<byte>, w': Words, l: Layout, live: Chunks, d: nat)
    requires Reflects(m, w) && Reflects(m', w') && WellFormed(l) && l.hi <= |m| == |m'|
    requires SameData(w, w', live) && d in live && d in l.chunks && live[d] == l.chunks[d]
    ensures d + live[d] <= |m| && WORD <= live[d] && m'[d + WORD..d + live[d]] == m[d + WORD..d + live[d]]
  {
    assert ChunkOk(l.lo, l.hi, d, l.chunks[d]) && SameBlock(w, w', d, live[d]);
    MoveAligned(d, d, live[d]);
    CarriedBytes(m, w, m', w', d, d, live[d]);
  }

  lemma CarriedLess(w: Words, c: nat, w': Words, c': nat, size: nat, less: nat)
    requires Carried(w, c, w', c', size) && less <= size
    ensures Carried(w, c, w', c', less)
  {
  }

  lemma TrimmedResized(l0: Layout, w0: Words, l1: Layout, w1: Words, l: Layout, w: Words,
                       c: nat, need: nat, chunk: nat, oldSize: nat)
    requires Prepared(l0, w0, l1, w1, c, need, chunk, oldSize) && need <= oldSize
    requires oldSize == need ==> l == l1
    requires oldSize != need ==> l.Live() == l1.Live()[chunk := Trimmed(oldSize, need)]
    requires l.lo == l1.lo && l.hi == l1.hi
    requires SameData(w1, w, l.Live())
    ensures Resized(l0, w0, l, w, c, need, chunk + WORD)
  {
    var rest := l0.Live() - {c};
    var n := l.Live()[chunk];
    assert l.Live() == rest[chunk := n];
    SettledData(w0, w1, w, rest, l.Live(), chunk);
    assert SameBlock(w1, w, chunk, n);
    CarriedLess(w0, c, w1, chunk, l0.chunks[c], Min(n, l0.chunks[c]));
    CarriedOn(w0, c, w1, chunk, w, Min(n, l0.chunks[c]), n);
    LiveAmong(l);
  }

  lemma RelocatedResized(l0: Layout, w0: Words, l1: Layout, w1: Words, l: Layout, w: Words,
                         c: nat, need: nat, chunk: nat, oldSize: nat, r: nat)
    requires Prepared(l0, w0, l1, w1, c, need, chunk, oldSize) && oldSize < need
    requires r == 0 ==> l == l1 && w == w1
    requires r != 0 ==> WORD < r && r - WORD !in l1.Live() && r - WORD in l.chunks
    requires r != 0 ==> need <= l.chunks[r - WORD] < need + 16
    requires r != 0 ==> l.Live() == (l1.Live() - {chunk})[r - WORD := l.chunks[r - WORD]]
    requires SameData(w1, w, l1.Live() - {chunk})
    requires r != 0 ==> Carried(w1, chunk, w, r - WORD, l1.chunks[chunk])
    ensures Resized(l0, w0, l, w, c, need, r)
  {
    var rest := l0.Live() - {c};
    assert l1.Live() - {chunk} == rest;
    SameDataTrans(w0, w1, w, rest);
    if r != 0 {
      var a: nat := r - WORD;
      assert a in l.Live();
      CarriedTwice(w0, c, w1, chunk, w, a, l0.chunks[c], l1.chunks[chunk]);
    }
  }

  lemma CarriedTwice(w: Words, c: nat, w1: Words, c': nat, w2: Words, c'': nat, size: nat, more: nat)
    requires Carried(w, c, w1, c', size) && Carried(w1, c', w2, c'', more) && size <= more
    ensures Carried(w, c, w2, c'', size)
  {
    forall y | y in w2 && c'' + WORD <= y < c'' + size
      ensures y - c'' + c in w && w2[y] == w[y - c'' + c]
    {
      var x: nat := y - c'' + c';
      assert w2[y] == w1[x];
      assert w1[x] == w[x - c' + c];
    }
  }

  // What is left of a block of size `size` that needs only `need`.
  function Trimmed(size: nat, need: nat): nat
  {
    if need + MALLOC_MIN_SIZE <= size then need else size
  }

  lemma TrimData(w: Words, w': Words, l: Layout, l': Layout, c: nat, need: nat)
    requires c in l.Live() && 0 < need < l.chunks[c] && c + need !in l.chunks
    requires var split := l.Live()[c := need][c + need := l.chunks[c] - need];
             && l'.Live() == split - {c + need}
             && SameData(w[c := need][c + need := l.chunks[c] - need], w', l'.Live())
    requires c in w && c + need in w
    requires SameData(w, w[c := need][c + need := l.chunks[c] - need], l.Live()[c := need])
    ensures l'.Live() == l.Live()[c := need]
    ensures SameData(w, w', l.Live()[c := need])
  {
    LiveAmong(l);
    assert c + need !in l.Live()[c := need];
    assert l'.Live() == l.Live()[c := need];
    SameDataTrans(w, w[c := need][c + need := l.chunks[c] - need], w', l.Live()[c := need]);
  }

  lemma MovedOver(w: Words, w1: Words, w2: Words, l: Layout, l': Layout, a: nat, c: nat)
    requires a in l.Live() && c in l.Live() && a != c && l.chunks[c] <= l.chunks[a] && l'.Live() == l.Live() - {c}
    requires SameData(w, w1, l.Live() - {a}) && Carried(w, c, w1, a, l.chunks[c])
    requires SameData(w1, w2, l'.Live())
    ensures SameData(w, w2, l.Live() - {a} - {c})
    ensures Carried(w, c, w2, a, l.chunks[c])
  {
    var live := l.Live() - {a} - {c};
    SameDataFewer(w, w1, l.Live() - {a}, live);
    SameDataFewer(w1, w2, l'.Live(), live);
    SameDataTrans(w, w1, w2, live);
    assert SameBlock(w1, w2, a, l'.Live()[a]);
    CarriedOn(w, c, w1, a, w2, l.chunks[c], l'.Live()[a]);
  }

  lemma NewBlock(l: Layout, l': Layout, need: nat, ptr: nat, c: nat)
    requires Served(l, l', need, ptr) && c in l.Live() && l.chunks[c] < need
    ensures var a := ptr - WORD;
      && 0 < a && a !in l.Live() && a in l'.Live() && c in l'.Live() && a != c
      && l'.Live() == l.Live()[a := l'.chunks[a]]
      && l'.chunks[c] == l.chunks[c] && need <= l'.chunks[a] < need + 16
  {
    assert ptr - WORD in l'.Live() && c in l'.Live();
    assert l'.Live()[c] == l.Live()[c];
  }

  lemma RelocatedData(w: Words, w1: Words, w2: Words, l: Layout, l1: Layout, l2: Layout, c: nat, a: nat)
    requires c in l.Live() && a !in l.Live() && a in l1.chunks && l1.Live() == l.Live()[a := l1.chunks[a]]
    requires l.chunks[c] <= l1.chunks[a] && l2.Live() == l1.Live() - {c}
    requires SameData(w, w1, l.Live())
    requires SameData(w1, w2, l1.Live() - {a} - {c}) && Carried(w1, c, w2, a, l1.Live()[c])
    ensures SameData(w, w2, l.Live() - {c})
    ensures Carried(w, c, w2, a, l.chunks[c])
    ensures a in l2.chunks && l2.chunks[a] == l1.chunks[a]
    ensures l2.Live() == (l.Live() - {c})[a := l1.chunks[a]]
  {
    var live := l.Live() - {c};
    assert l1.Live() - {a} - {c} == live;
    SameDataFewer(w, w1, l.Live(), live);
    SameDataTrans(w, w1, w2, live);
    assert a in l2.Live();
    assert SameBlock(w, w1, c, l.Live()[c]);
    CarriedFrom(w, w1, c, w2, a, l.chunks[c]);
  }

  // Data that stays and then moves.
  lemma CarriedFrom(w: Words, w1: Words, c: nat, w2: Words, c': nat, size: nat)
    requires SameBlock(w, w1, c, size) && w1.Keys == w.Keys && Carried(w1, c, w2, c', size)
    ensures Carried(w, c, w2, c', size)
  {
    forall y | y in w2 && c' + WORD <= y < c' + size
      ensures y - c' + c in w && w2[y] == w[y - c' + c]
    {
      assert w2[y] == w1[y - c' + c];
    }
  }

  // Merging with the right neighbour: both headers are still in place.
  lemma JoinLiveStored(w: Words, head: nat, l: Layout, a: nat, b: nat)
    requires InPlace(w, head, l, -1) && a in l.Live() && b in l.Live() && l.End(a) == b
    ensures var size := l.chunks[a] + l.chunks[b];
            var l' := l.(chunks := Join(l.chunks, a, b));
            && a in w && b in w && b + WORD in w && InPlace(w[a := size], head, l', -1)
            && l'.Live() == (l.Live() - {b})[a := size]
            && SameData(w, w[a := size], l'.Live())
  {
    assert SizeAt(w, l.chunks, b);
    SizesSubset(w, l.chunks, l.chunks - {b});
    JoinLive(w, head, l, a, b);
  }

  // Zeroing the header that a merge has left inside block `c`.
  lemma EraseHeader(w: Words, head: nat, l: Layout, c: nat, e: nat)
    requires InPlace(w, head, l, -1) && c in l.Live() && e in w && e + WORD in w
    requires c + WORD <= e && e + WORD < l.End(c)
    ensures InPlace(w[e := 0][e + WORD := 0], head, l, -1)
    ensures SameData(w, w[e := 0][e + WORD := 0], l.Live()[c := e - c])
  {
    InnerStore(w, head, l, c, e, 0);
    InnerStore(w[e := 0], head, l, c, e + WORD, 0);
    SameDataFewer(w[e := 0], w[e := 0][e + WORD := 0], l.Live()[c := e + WORD - c], l.Live()[c := e - c]);
    SameDataTrans(w, w[e := 0], w[e := 0][e + WORD := 0], l.Live()[c := e - c]);
  }

  lemma RightData(w: Words, w1: Words, w2: Words, w3: Words, l: Layout, c: nat, e: nat)
    requires c in l.Live() && e in l.chunks && e in l.free && e - c == l.chunks[c]
    requires SameData(w, w1, l.Live())
    requires SameData(w1, w2, (l.Live()[e := l.chunks[e]] - {e})[c := l.chunks[c] + l.chunks[e]])
    requires SameData(w2, w3, (l.Live()[e := l.chunks[e]] - {e})[c := l.chunks[c] + l.chunks[e]][c := e - c])
    ensures SameData(w, w3, l.Live())
  {
    var after := (l.Live()[e := l.chunks[e]] - {e})[c := l.chunks[c] + l.chunks[e]];
    SameDataFewer(w1, w2, after, l.Live());
    SameDataFewer(w2, w3, after[c := e - c], l.Live());
    SameDataTrans(w, w1, w2, l.Live());
    SameDataTrans(w, w2, w3, l.Live());
  }

  lemma AbsorbedData(w: Words, w1: Words, w2: Words, l: Layout, p: nat, c: nat)
    requires p in l.chunks && p in l.free && c in l.Live()
    requires SameData(w, w1, l.Live())
    requires SameData(w1, w2, l.Live()[p := l.chunks[p]] - {p} - {c}) && Carried(w1, c, w2, p, l.chunks[c])
    ensures SameData(w, w2, l.Live() - {c})
    ensures Carried(w, c, w2, p, l.chunks[c])
  {
    var live := l.Live() - {c};
    SameDataFewer(w, w1, l.Live(), live);
    SameDataFewer(w1, w2, l.Live()[p := l.chunks[p]] - {p} - {c}, live);
    SameDataTrans(w, w1, w2, live);
    assert SameBlock(w, w1, c, l.Live()[c]);
    forall y | y in w2 && p + WORD <= y < p + l.chunks[c]
      ensures y - p + c in w && w2[y] == w[y - p + c]
    {
      assert w2[y] == w1[y - p + c];
    }
  }

  /** The data of block `c` is in place behind `p`; once the header of `p` is stored the
      two are one block. */
  ghost predicate Slid(w: Words, w1: Words, head: nat, l: Layout, p: nat, c: nat)
    requires p in l.chunks && c in l.chunks
  {
    var w2 := w1[p := l.chunks[p] + l.chunks[c]];
    var l' := l.(chunks := Join(l.chunks, p, c));
    && p in w1 && InPlace(w2, head, l', -1)
    && l'.Live() == (l.Live() - {c})[p := l.chunks[p] + l.chunks[c]]
    && SameData(w, w2, l.Live() - {p} - {c})
    && Carried(w, c, w2, p, l.chunks[c])
  }

  lemma Slide(w: Words, w1: Words, head: nat, l: Layout, p: nat, c: nat)
    requires InPlace(w, head, l, -1) && p in l.Live() && c in l.Live() && l.End(p) == c
    requires WORD <= l.chunks[c] && WordsMoved(w, w1, p + WORD, c + WORD, l.chunks[c] - WORD)
    ensures Slid(w, w1, head, l, p, c)
  {
    ClearOf(l.lo, l.hi, l.chunks, c);
    MoveDown(w, w1, head, l, p, c);
    JoinLive(w1, head, l, p, c);
    SlideData(w, w1, w1[p := l.chunks[p] + l.chunks[c]], l, p, c);
  }

  lemma SlideData(w: Words, w1: Words, w2: Words, l: Layout, p: nat, c: nat)
    requires p in l.Live() && c in l.Live() && p != c
    requires SameData(w, w1, l.Live() - {p} - {c}) && Carried(w, c, w1, p, l.chunks[c])
    requires SameData(w1, w2, (l.Live() - {c})[p := l.chunks[p] + l.chunks[c]])
    ensures SameData(w, w2, l.Live() - {p} - {c})
    ensures Carried(w, c, w2, p, l.chunks[c])
  {
    var rest := l.Live() - {p} - {c};
    var after := (l.Live() - {c})[p := l.chunks[p] + l.chunks[c]];
    SameDataFewer(w1, w2, after, rest);
    SameDataTrans(w, w1, w2, rest);
    assert SameBlock(w1, w2, p, after[p]);
    assert SameBlock(w1, w2, p, l.chunks[p] + l.chunks[c]);
    CarriedOn(w, c, w1, p, w2, l.chunks[c], l.chunks[p] + l.chunks[c]);
  }

  // Data that has moved and then stays.
  lemma CarriedOn(w: Words, c: nat, w1: Words, c': nat, w2: Words, size: nat, more: nat)
    requires Carried(w, c, w1, c', size) && SameBlock(w1, w2, c', more) && size <= more && w1.Keys == w2.Keys
    ensures Carried(w, c, w2, c', size)
  {
    forall y | y in w2 && c' + WORD <= y < c' + size
      ensures y - c' + c in w && w2[y] == w[y - c' + c]
    {
      assert y in w1 && w2[y] == w1[y];
    }
  }

  // Free chunk `i` ends where chunk `c` starts.
  ghost predicate EndsAt(l: Layout, i: nat, c: nat)
  {
    i < |l.free| && l.free[i] in l.chunks && l.End(l.free[i]) == c
  }

  /** Where block `c` starts once it has absorbed a free chunk on its left, if any. */
  ghost function LeftOf(l: Layout, c: nat): nat
  {
    if exists i: nat :: EndsAt(l, i, c) then var i: nat :| EndsAt(l, i, c); l.free[i] else c
  }

  ghost function RightEnd(l: Layout, e: nat): nat
  {
    if e in l.free && e in l.chunks then l.End(e) else e
  }

  /** The size of block `c` together with its free neighbours. */
  ghost function Room(l: Layout, c: nat): int
    requires c in l.chunks
  {
    RightEnd(l, l.End(c)) - LeftOf(l, c)
  }

  lemma LeftIs(l: Layout, c: nat, i: nat)
    requires Tiled(l.lo, l.hi, l.chunks) && EndsAt(l, i, c)
    ensures LeftOf(l, c) == l.free[i] && l.free[i] < c
  {
    ClearOf(l.lo, l.hi, l.chunks, l.free[i]);
  }

  lemma NoLeft(l: Layout, c: nat, j: nat)
    requires Listed(l) && Separated(l, -1) && j <= |l.free|
    requires forall k {:trigger EndsAt(l, k, c)} :: 0 <= k < j ==> !EndsAt(l, k, c)
    requires j < |l.free| ==> c < l.free[j]
    ensures LeftOf(l, c) == c
  {
    ListSorted(l, -1);
    forall k: nat
      ensures !EndsAt(l, k, c)
    {
    }
  }

  /** What Absorb has reached so far: the block is at its final address `chunk`, and
      what lies at its right end is as it was. */
  ghost predicate Settled(l0: Layout, w0: Words, l: Layout, w: Words, c: nat, chunk: nat)
  {
    && c in l0.Live() && chunk == LeftOf(l0, c) && chunk in l.chunks
    && l.Live() == (l0.Live() - {c})[chunk := l.chunks[chunk]]
    && SameData(w0, w, l0.Live() - {c})
    && Carried(w0, c, w, chunk, l0.chunks[c]) && l0.chunks[c] <= l.chunks[chunk]
    && RightEnd(l, l0.End(c)) == RightEnd(l0, l0.End(c))
  }

  /** The invariant of the search: the first `j` free chunks lie below the end of the
      block, and none of them, nor after a left merge any other, ends at the block. */
  ghost predicate Searching(l0: Layout, w0: Words, l: Layout, w: Words, c: nat, chunk: nat, size: nat, merged: bool,
                            j: nat)
  {
    && c in l0.Live() && l.lo == l0.lo && l.hi == l0.hi
    && j <= |l.free| && chunk in l.Live() && size == l.chunks[chunk] && chunk + size == l0.End(c)
    && (forall k :: 0 <= k < j ==> l.free[k] < l0.End(c))
    && (forall k {:trigger EndsAt(l, k, chunk)} :: 0 <= k < (if merged then |l.free| else j) ==> !EndsAt(l, k, chunk))
    && (if merged then Settled(l0, w0, l, w, c, chunk) else chunk == c && l == l0 && w == w0)
  }

  /** The free chunks of `l` are those of `l0`, except perhaps the neighbours of block `c`. */
  ghost predicate FreeKept(l0: Layout, l: Layout, c: nat)
  {
    && c in l0.chunks
    && (forall f :: f in l.free ==> f in l0.free && f in l0.chunks && f in l.chunks && l.chunks[f] == l0.chunks[f])
    && (forall f :: f in l0.free ==> f in l.free || f == l0.End(c) || (f in l0.chunks && l0.End(f) == c))
  }

  lemma FreeInChunks(l: Layout, f: nat)
    requires WellFormed(l) && f in l.free
    ensures f in l.chunks && f !in l.Live() && MALLOC_MIN_SIZE <= l.chunks[f]
  {
    var i :| 0 <= i < |l.free| && l.free[i] == f;
    NodeRoom(l, i);
  }

  lemma AllFreeKept(l: Layout, c: nat)
    requires WellFormed(l) && c in l.chunks
    ensures FreeKept(l, l, c)
  {
    forall f | f in l.free
      ensures f in l.chunks
    {
      FreeInChunks(l, f);
    }
  }

  lemma FreeKeptLeft(l0: Layout, l: Layout, c: nat, i: nat)
    requires WellFormed(l0) && c in l0.Live() && EndsAt(l0, i, c)
    requires l.free == Take(l0.free, i) && l.chunks == Join(l0.chunks, l0.free[i], c)
    ensures FreeKept(l0, l, c)
  {
    ListSorted(l0, -1);
    forall f
      ensures f in l.free <==> f in l0.free && f != l0.free[i]
      ensures f in l0.free ==> f in l0.chunks && f != c
    {
      InTake(l0.free, i, f);
      if f in l0.free { FreeInChunks(l0, f); }
    }
  }

  lemma FreeKeptRight(l0: Layout, l1: Layout, l: Layout, c: nat, chunk: nat, i: nat)
    requires WellFormed(l1) && FreeKept(l0, l1, c) && chunk in l1.Live()
    requires i < |l1.free| && l1.free[i] == l0.End(c) && l1.free[i] in l1.chunks
    requires l.free == Take(l1.free, i) && l.chunks == Join(l1.chunks, chunk, l1.free[i])
    ensures FreeKept(l0, l, c)
  {
    ListSorted(l1, -1);
    forall f
      ensures f in l.free <==> f in l1.free && f != l1.free[i]
      ensures f in l1.free ==> f in l1.chunks && f != chunk
    {
      InTake(l1.free, i, f);
      if f in l1.free { FreeInChunks(l1, f); }
    }
  }

  /** A request too large for the room around the block fits no chunk it could absorb. */
  lemma NoFitKept(l0: Layout, l: Layout, c: nat, need: nat)
    requires WellFormed(l0) && c in l0.Live() && FreeKept(l0, l, c) && Room(l0, c) < need
    ensures NoFit(l, need) <==> NoFit(l0, need)
  {
    if i: nat :| Fits(l, need, i) {
      var f := l.free[i];
      var k :| 0 <= k < |l0.free| && l0.free[k] == f;
      assert Fits(l0, need, k);
    }
    if k: nat :| Fits(l0, need, k) {
      var f := l0.free[k];
      NeighbourInRoom(l0, c, k);
      assert f in l0.free;
      var i :| 0 <= i < |l.free| && l.free[i] == f;
      assert Fits(l, need, i);
    }
  }

  lemma NeighbourInRoom(l: Layout, c: nat, i: nat)
    requires WellFormed(l) && c in l.Live() && i < |l.free| && l.free[i] in l.chunks
    ensures EndsAt(l, i, c) || l.free[i] == l.End(c) ==> l.chunks[l.free[i]] <= Room(l, c)
  {
    ClearOf(l.lo, l.hi, l.chunks, c);
    RoomAtLeast(l, c);
    if EndsAt(l, i, c) {
      LeftIs(l, c, i);
    } else if l.free[i] == l.End(c) {
      assert l.free[i] in l.free;
    }
  }

  /** The block has become one with its free neighbours, whichever there were; start and
      size are what the layout before says. */
  ghost predicate Absorbed(l0: Layout, w0: Words, l: Layout, w: Words, c: nat, chunk: nat, size: nat)
    requires c in l0.chunks
  {
    && chunk == LeftOf(l0, c) && size == Room(l0, c)
    && l.Live() == (l0.Live() - {c})[chunk := size]
    && l.lo == l0.lo && l.hi == l0.hi
    && SameData(w0, w, l0.Live() - {c})
    && Carried(w0, c, w, chunk, l0.chunks[c])
  }

  lemma SearchOn(l0: Layout, w0: Words, l: Layout, w: Words, c: nat, chunk: nat, size: nat, merged: bool, j: nat)
    requires Searching(l0, w0, l, w, c, chunk, size, merged, j)
    requires j < |l.free| && l.free[j] < l0.End(c) && !EndsAt(l, j, chunk)
    ensures Searching(l0, w0, l, w, c, chunk, size, merged, j + 1)
  {
  }

  lemma SearchLeft(l0: Layout, w0: Words, l: Layout, w: Words, l': Layout, w': Words, c: nat, chunk: nat, size: nat,
                   merged: bool, j: nat)
    requires WellFormed(l0) && Searching(l0, w0, l, w, c, chunk, size, merged, j) && EndsAt(l, j, chunk)
    requires l'.lo == l.lo && l'.hi == l.hi
    requires l'.free == Take(l.free, j) && l'.chunks == Join(l.chunks, l.free[j], chunk)
    requires l'.Live() == (l.Live() - {chunk})[l.free[j] := l.chunks[l.free[j]] + l.chunks[chunk]]
    requires SameData(w, w', l.Live() - {chunk}) && Carried(w, chunk, w', l.free[j], l.chunks[chunk])
    ensures Searching(l0, w0, l', w', c, l.free[j], l.chunks[l.free[j]] + size, true, j)
  {
    LeftMerged(l, w, l', w', chunk, j);
    NodeIn(l, j);
    forall k | 0 <= k < j
      ensures l'.free[k] < l0.End(c)
    {
      TakeAt(l.free, j, k);
    }
  }

  lemma SearchSettled(l0: Layout, w0: Words, l: Layout, w: Words, c: nat, chunk: nat, size: nat, merged: bool, j: nat)
    requires WellFormed(l0) && Searching(l0, w0, l, w, c, chunk, size, merged, j)
    requires j < |l.free| ==> l0.End(c) <= l.free[j]
    ensures Settled(l0, w0, l, w, c, chunk)
    ensures forall k :: 0 <= k < j ==> l.free[k] < l0.End(c)
  {
    if !merged {
      ClearOf(l0.lo, l0.hi, l0.chunks, c);
      Unmoved(l, w, c, j);
    }
  }

  // The search ran out of chunks, or is past the end of the block.
  lemma SearchDone(l0: Layout, w0: Words, l: Layout, w: Words, c: nat, chunk: nat, size: nat, merged: bool, j: nat)
    requires WellFormed(l0) && WellFormed(l) && Searching(l0, w0, l, w, c, chunk, size, merged, j)
    requires j < |l.free| ==> l0.End(c) < l.free[j]
    ensures Absorbed(l0, w0, l, w, c, chunk, size)
  {
    SearchSettled(l0, w0, l, w, c, chunk, size, merged, j);
    NothingRight(l, chunk + size, j);
  }

  lemma Unmoved(l: Layout, w: Words, c: nat, j: nat)
    requires Listed(l) && Separated(l, -1) && c in l.Live() && j <= |l.free|
    requires forall k {:trigger EndsAt(l, k, c)} :: 0 <= k < j ==> !EndsAt(l, k, c)
    requires j < |l.free| ==> c < l.free[j]
    ensures Settled(l, w, l, w, c, c)
  {
    NoLeft(l, c, j);
    assert l.Live() == (l.Live() - {c})[c := l.chunks[c]];
    SameDataRefl(w, l.Live() - {c});
  }

  lemma SameDataRefl(w: Words, live: Chunks)
    ensures SameData(w, w, live)
  {
  }

  lemma LeftMerged(l0: Layout, w0: Words, l: Layout, w: Words, c: nat, j: nat)
    requires WellFormed(l0) && j < |l0.free| && EndsAt(l0, j, c) && c in l0.Live()
    requires l.free == Take(l0.free, j) && l.chunks == Join(l0.chunks, l0.free[j], c)
    requires l.Live() == (l0.Live() - {c})[l0.free[j] := l0.chunks[l0.free[j]] + l0.chunks[c]]
    requires SameData(w0, w, l0.Live() - {c}) && Carried(w0, c, w, l0.free[j], l0.chunks[c])
    ensures Settled(l0, w0, l, w, c, l0.free[j])
    ensures forall k {:trigger EndsAt(l, k, l0.free[j])} :: 0 <= k < |l.free| ==> !EndsAt(l, k, l0.free[j])
  {
    var p := l0.free[j];
    LeftIs(l0, c, j);
    ListSorted(l0, -1);
    InTake(l0.free, j, l0.End(c));
    ClearOf(l0.lo, l0.hi, l0.chunks, c);
    forall k | 0 <= k < |l.free|
      ensures !EndsAt(l, k, p)
    {
      TakeAt(l0.free, j, k);
      NodeRoom(l0, Untake(j, k));
      if k < j { assert InOrder(l0, -1, k, j); }
    }
  }

  lemma RightMerged(l0: Layout, w0: Words, l1: Layout, w1: Words, w2: Words, c: nat, chunk: nat, total: nat)
    requires Settled(l0, w0, l1, w1, c, chunk) && SameData(w1, w2, l1.Live())
    requires chunk in l1.Live() && l1.End(chunk) == l0.End(c)
    requires l0.End(c) in l1.free && l0.End(c) in l1.chunks && total == l1.chunks[chunk] + l1.chunks[l0.End(c)]
    ensures total == Room(l0, c)
    ensures l1.Live()[chunk := total] == (l0.Live() - {c})[chunk := total]
    ensures SameData(w0, w2, l0.Live() - {c})
    ensures Carried(w0, c, w2, chunk, l0.chunks[c])
  {
    var rest := l0.Live() - {c};
    SettledData(w0, w1, w2, rest, l1.Live(), chunk);
    assert SameBlock(w1, w2, chunk, l1.Live()[chunk]);
    CarriedOn(w0, c, w1, chunk, w2, l0.chunks[c], l1.chunks[chunk]);
  }

  lemma SettledData(w0: Words, w1: Words, w2: Words, rest: Chunks, live: Chunks, chunk: nat)
    requires SameData(w0, w1, rest) && SameData(w1, w2, live)
    requires forall d {:trigger d in rest} :: d in rest ==> d in live && rest[d] <= live[d]
    ensures SameData(w0, w2, rest)
  {
    SameDataFewer(w1, w2, live, rest);
    SameDataTrans(w0, w1, w2, rest);
  }

  // The search ended without a free chunk at `e`.
  lemma NothingRight(l: Layout, e: nat, j: nat)
    requires Listed(l) && Separated(l, -1) && j <= |l.free|
    requires forall k :: 0 <= k < j ==> l.free[k] < e
    requires j < |l.free| ==> e < l.free[j]
    ensures RightEnd(l, e) == e
  {
    ListSorted(l, -1);
    forall k | 0 <= k < |l.free|
      ensures l.free[k] != e
    {
    }
  }

  // What chunk_grow asks for: never less than a minimal chunk.
  function Extra(size: nat, newSize: nat): nat
  {
    if newSize < size + MALLOC_MIN_SIZE then MALLOC_MIN_SIZE else newSize - size
  }

  lemma AlignedExtra(size: nat, newSize: nat)
    requires Aligned(size) && Aligned(newSize) && size < newSize
    ensures Aligned(Extra(size, newSize)) && MALLOC_MIN_SIZE <= Extra(size, newSize)
    ensures Extra(size, newSize) == if newSize - size < MALLOC_MIN_SIZE then MALLOC_MIN_SIZE else newSize - size
  {
  }

  // Block `c` is the last of the heap, and the platform is asked for more behind it.
  predicate Tries(l: Layout, c: nat, newSize: nat)
  {
    c in l.chunks && l.End(c) == l.hi && Extra(l.chunks[c], newSize) <= INTPTR_MAX
  }

  /** Block `c` is the last of the heap, and the platform gives what is asked for. */
  predicate CanGrow(l: Layout, env: Platform, c: nat, newSize: nat)
  {
    c in l.chunks && l.End(c) == l.hi && env.More(env.calls, Extra(l.chunks[c], newSize))
  }

  /** Block `c` is too small and grows where it is. */
  predicate Grows(l: Layout, env: Platform, c: nat, need: nat)
  {
    c in l.chunks && l.chunks[c] < need && CanGrow(l, env, c, need)
  }

  /** Block `c` is too small, cannot grow at the top of the heap, and has too little free
      room around it. */
  ghost predicate Cramped(l: Layout, env: Platform, c: nat, need: nat)
  {
    c in l.chunks && l.chunks[c] < need && Room(l, c) < need && !CanGrow(l, env, c, need)
  }

  // The next call of sbrk after an attempt to grow block `c`, if there was one.
  function LaterCall(l: Layout, env: Platform, c: nat, need: nat): nat
  {
    if c in l.chunks && l.chunks[c] < need && Tries(l, c, need) then env.calls + 1 else env.calls
  }

  /** There is no room for block `c` anywhere: not where it is, in no free chunk, and not
      behind the heap. */
  ghost predicate Hopeless(l: Layout, env: Platform, c: nat, need: nat)
  {
    Cramped(l, env, c, need) && NoFit(l, need) && !env.More(LaterCall(l, env, c, need), need)
  }

  /** A block handed out for a chunk of size `need` is that large, and less than 16 bytes
      larger: the rest of a larger chunk stays free. */
  predicate LittleWaste(l: Layout, ptr: nat, need: nat)
  {
    8 <= ptr && ptr - 8 in l.Live() && need <= l.Live()[ptr - 8] < need + 16
  }

  /** A successful malloc: one new block, at least as large as needed, and where. */
  ghost predicate Served(l: Layout, l': Layout, need: nat, ptr: nat)
  {
    && WORD < ptr && ptr - WORD !in l.Live() && ptr - WORD in l'.chunks
    && l'.Live() == l.Live()[ptr - WORD := l'.chunks[ptr - WORD]]
    && need <= l'.chunks[ptr - WORD] < need + 16
    && (NoFit(l, need) ==>
          && l'.chunks[ptr - WORD] == need && l'.hi == ptr - WORD + need
          && (if l.lo == 0 then l'.lo == ptr - WORD else l'.lo == l.lo && ptr - WORD == l.hi))
    && (!NoFit(l, need) ==>
          && l'.lo == l.lo && l'.hi == l.hi
          && exists i: nat {:trigger BestFit(l, need, i)} :: BestFit(l, need, i)
               && ptr - WORD == l.free[i] && l'.chunks[ptr - WORD] == Granted(need, Slack(l, need, i)))
  }

  lemma ServedFromList(l: Layout, l': Layout, need: nat, i: nat)
    requires WellFormed(l) && BestFit(l, need, i) && 0 < l.free[i]
    requires l'.lo == l.lo && l'.hi == l.hi && l.free[i] in l'.chunks
    requires l'.chunks[l.free[i]] == Granted(need, Slack(l, need, i))
    requires l'.Live() == l.Live()[l.free[i] := l'.chunks[l.free[i]]]
    ensures Served(l, l', need, l.free[i] + WORD) && !NoFit(l, need)
  {
    NodeRoom(l, i);
    assert Fits(l, need, i);
  }

  lemma ServedFresh(l: Layout, l': Layout, need: nat, ptr: nat)
    requires NoFit(l, need) && WORD < ptr && ptr - WORD !in l.Live()
    requires l'.Live() == l.Live()[ptr - WORD := need]
    requires l'.hi == ptr - WORD + need
    requires if l.lo == 0 then l'.lo == ptr - WORD else l'.lo == l.lo && ptr - WORD == l.hi
    ensures Served(l, l', need, ptr)
  {
    LiveAmong(l');
    assert ptr - WORD in l'.Live();
  }

  // Before the first allocation there are no chunks.
  lemma EmptyHeap(l: Layout)
    requires WellFormed(l)
    ensures l.lo == l.hi ==> l.chunks == map[] && l.free == []
  {
    AllBelow(l.lo, l.hi, l.chunks);
    if l.free != [] { NodeRoom(l, 0); }
  }

  lemma AlignedSlack(l: Layout, need: nat, i: nat)
    requires WellFormed(l) && Aligned(need) && i < |l.free| && l.free[i] in l.chunks
    requires 0 <= Slack(l, need, i) < WORD
    ensures Slack(l, need, i) == 0
  {
    assert ChunkOk(l.lo, l.hi, l.free[i], l.chunks[l.free[i]]);
  }

  lemma NoSlackIsBest(l: Layout, need: nat, i: nat)
    requires Listed(l) && Fits(l, need, i)
    requires forall k {:trigger Fits(l, need, k)} :: 0 <= k < i && Fits(l, need, k) ==>
      Slack(l, need, k) > Slack(l, need, i)
    requires Slack(l, need, i) == 0
    ensures BestFit(l, need, i)
  {
  }

  lemma SlotFound(l: Layout, c: nat, j: nat)
    requires Listed(l) && Separated(l, -1) && c in l.Live() && j <= |l.free|
    requires forall k {:trigger Below(l, c, k)} :: 0 <= k < j ==> Below(l, c, k)
    requires j < |l.free| ==> c <= l.free[j]
    ensures Slot(l, j, c) && forall k: nat :: !EndsAt(l, k, c)
  {
    ListSorted(l, -1);
    forall k | 0 <= k < |l.free|
      ensures SlotAt(l, j, c, k)
    {
      if k < j { assert Below(l, c, k); }
      NodeIn(l, k);
    }
    forall k: nat
      ensures !EndsAt(l, k, c)
    {
      if k < |l.free| { assert SlotAt(l, j, c, k); }
    }
  }

  lemma NodeAddress(l: Layout, i: nat)
    requires Tiled(l.lo, l.hi, l.chunks) && Listed(l)
    ensures NodeOf(l.free, i) <= l.hi
    ensures 0 < l.lo && i < |l.free| ==> NodeOf(l.free, i) != 0
  {
    if i < |l.free| { NodeRoom(l, i); }
  }
}
