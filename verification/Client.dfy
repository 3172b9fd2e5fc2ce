/** Programs that use the allocator: what they can rely on over whole runs. */
module Client {
  import opened Numbers
  import opened Memory
  import opened Layout
  import opened Ram
  import opened Image
  import opened Steps
  import opened Allocator

  /** A request served from the free list, and given back, leaves no trace: the whole
      layout, and with it the free list, is what it was. */
  method AllocateAndRelease(heap: Heap, size: nat) returns (served: bool)
    requires heap.Valid() && 0 < size <= MAX_REQUEST
    modifies heap, heap.ram, heap.ram.bytes
    ensures heap.Valid()
    ensures !NoFit(old(heap.layout), ChunkSizeForData(size)) ==> served && heap.layout == old(heap.layout)
  {
    ghost var l := heap.layout;
    var ptr := heap.Malloc(size);
    served := ptr != 0;
    if served {
      ghost var l1 := heap.layout;
      assert ptr - WORD in l1.Live();
      heap.Free(ptr);
      assert heap.layout.Live() == l.Live();
      if !NoFit(l, ChunkSizeForData(size)) {
        Canonical(heap.layout, l);
      }
    }
  }

  /** There is no room for an allocation. */
  ghost predicate Refused(l: Layout, env: Platform, size: nat)
    requires size <= MAX_REQUEST
  {
    size == 0 || (NoFit(l, ChunkSizeForData(size)) && !env.Grants(ChunkSizeForData(size)))
  }

  /** A resize gives no block: it was a release, or there is no room. */
  ghost predicate ResizeRefused(l: Layout, env: Platform, ptr: nat, size: nat)
    requires size <= MAX_REQUEST
  {
    size == 0 || (WORD <= ptr && Hopeless(l, env, ptr - WORD, ChunkSizeForData(size)))
  }

  /** What a program sees of realloc of a block in use. */
  method CallRealloc(heap: Heap, ptr: nat, size: nat) returns (r: nat)
    requires heap.Valid() && size <= MAX_REQUEST && heap.Owns(ptr)
    modifies heap, heap.ram, heap.ram.bytes
    ensures heap.Valid()
    ensures size == 0 ==> r == 0 && heap.layout.Live() == old(heap.layout.Live()) - {ptr - WORD}
    ensures size == 0 ==> SameData(old(heap.ram.words), heap.ram.words, heap.layout.Live())
    ensures size != 0 ==>
      Resized(old(heap.layout), old(heap.ram.words), heap.layout, heap.ram.words, ptr - WORD, ChunkSizeForData(size), r)
    ensures r == 0 <==> ResizeRefused(old(heap.layout), old(heap.Env()), ptr, size)
  {
    r := heap.Realloc(ptr, size);
  }

  /** The leading bytes of the block, as many as the old data and the request have in
      common, are the same after a realloc that succeeds. */
  method ReallocKeepsBytes(heap: Heap, ptr: nat, size: nat) returns (r: nat)
    requires heap.Valid() && 0 < size <= MAX_REQUEST && heap.Owns(ptr)
    modifies heap, heap.ram, heap.ram.bytes
    ensures heap.Valid() && (r != 0 ==> heap.Owns(r))
    ensures BytesKept(old(heap.ram.bytes[..]), heap.ram.bytes[..], old(heap.layout), heap.layout, ptr, size, r)
  {
    ghost var l, w, m := heap.layout, heap.ram.words, heap.ram.bytes[..];
    r := CallRealloc(heap, ptr, size);
    BytesAfterRealloc(m, w, heap.ram.bytes[..], heap.ram.words, l, heap.layout, ptr, size, r);
  }

  /** A success keeps the first bytes of the block, as many as its data and the request have
      in common; every other block keeps its place and its bytes, also on a failure. */
  ghost predicate BytesKept(m: seq<byte>, m': seq<byte>, l: Layout, l': Layout, ptr: nat, size: nat, r: nat)
  {
    && WORD <= ptr && ptr - WORD in l.chunks
    && (r != 0 ==>
          var n := if size < l.chunks[ptr - WORD] - WORD then size else l.chunks[ptr - WORD] - WORD;
          n >= 0 && ptr + n <= |m| && r + n <= |m'| && m'[r..r + n] == m[ptr..ptr + n])
    && (forall d :: d in l.Live() && d != ptr - WORD ==> BlockKept(m, m', l, l', d))
  }

  lemma BytesAfterRealloc(m: seq<byte>, w: Words, m': seq<byte>, w': Words, l: Layout, l': Layout, ptr: nat, size: nat,
                          r: nat)
    requires Reflects(m, w) && Reflects(m', w') && WellFormed(l) && WellFormed(l') && l.hi <= |m| == |m'|
      && l'.hi <= |m'|
    requires WORD <= ptr && 0 < size <= MAX_REQUEST
    requires Resized(l, w, l', w', ptr - WORD, ChunkSizeForData(size), r)
    ensures BytesKept(m, m', l, l', ptr, size, r)
    ensures r != 0 ==> WORD <= r && r - WORD in l'.Live()
  {
    OthersKept(m, w, m', w', l, l', ptr, size, r);
    InHeap(l.lo, l.hi, l.chunks, ptr - WORD);
    if r != 0 { LeadingBytes(m, w, m', w', l, l', ptr, size, r); }
  }

  /** Block `d` is still in use, with the bytes it held. */
  ghost predicate BlockKept(m: seq<byte>, m': seq<byte>, l: Layout, l': Layout, d: nat)
  {
    && d in l.Live() && d in l'.Live() && l'.Live()[d] == l.Live()[d] && WORD <= l.Live()[d]
    && d + l.Live()[d] <= |m| == |m'| && m'[d + WORD..d + l.Live()[d]] == m[d + WORD..d + l.Live()[d]]
  }

  lemma OthersKept(m: seq<byte>, w: Words, m': seq<byte>, w': Words, l: Layout, l': Layout, ptr: nat, size: nat, r: nat)
    requires Reflects(m, w) && Reflects(m', w') && WellFormed(l) && WellFormed(l') && l.hi <= |m| == |m'|
    requires WORD <= ptr && size <= MAX_REQUEST && Resized(l, w, l', w', ptr - WORD, ChunkSizeForData(size), r)
    ensures forall d :: d in l.Live() && d != ptr - WORD ==> BlockKept(m, m', l, l', d)
  {
    var c: nat := ptr - WORD;
    var rest := l.Live() - {c};
    OthersLive(l, w, l', w', c, ChunkSizeForData(size), r);
    forall d | d in l.Live() && d != c
      ensures BlockKept(m, m', l, l', d)
    {
      assert d in rest;
      SameDataBytes(m, w, m', w', l, rest, d);
    }
  }

  lemma OthersLive(l: Layout, w: Words, l': Layout, w': Words, c: nat, need: nat, r: nat)
    requires WellFormed(l) && Resized(l, w, l', w', c, need, r)
    ensures Among(l.Live() - {c}, l'.Live()) && SameData(w, w', l.Live() - {c})
    ensures forall d :: d in l.Live() - {c} ==> d in l'.Live() && l'.Live()[d] == l.Live()[d]
  {
    RoomAtLeast(l, c);
  }

  // chunk_data_size of the block, or the request if that is less.
  ghost function Common(l: Layout, ptr: nat, size: nat): nat
    requires WORD <= ptr && ptr - WORD in l.chunks
  {
    Min(size, Sub(l.chunks[ptr - WORD], WORD))
  }

  lemma SamePart(m: seq<byte>, m': seq<byte>, a: nat, b: nat, k: nat, n: nat)
    requires n <= k && a + k <= |m| && b + k <= |m'| && m'[b..b + k] == m[a..a + k]
    ensures m'[b..b + n] == m[a..a + n]
  {
    assert m'[b..b + n] == m'[b..b + k][..n] && m[a..a + n] == m[a..a + k][..n];
  }

  lemma LeadingBytes(m: seq<byte>, w: Words, m': seq<byte>, w': Words, l: Layout, l': Layout, ptr: nat, size: nat,
                     r: nat)
    requires Reflects(m, w) && Reflects(m', w') && WellFormed(l) && WellFormed(l') && l.hi <= |m| && l'.hi <= |m'|
    requires WORD <= ptr && 0 < size <= MAX_REQUEST
      && Resized(l, w, l', w', ptr - WORD, ChunkSizeForData(size), r) && r != 0
    ensures var n := Common(l, ptr, size); ptr + n <= |m| && r + n <= |m'| && m'[r..r + n] == m[ptr..ptr + n]
    ensures WORD <= r && r - WORD in l'.Live()
  {
    ChunkSizeFits(size);
    ResizedBytes(m, w, m', w', l, l', ptr - WORD, ChunkSizeForData(size), r);
    var n, k := Common(l, ptr, size), Min(l'.Live()[r - WORD], l.chunks[ptr - WORD]) - WORD;
    SamePart(m, m', ptr, r, k, n);
  }

  ghost predicate AllOwned(l: Layout, ptrs: seq<nat>)
  {
    && (forall i :: 0 <= i < |ptrs| ==> WORD <= ptrs[i] && ptrs[i] - WORD in l.Live())
    && (forall i, j :: 0 <= i < j < |ptrs| ==> ptrs[i] != ptrs[j])
  }

  ghost function Without(live: map<nat, nat>, ptrs: seq<nat>): map<nat, nat>
  {
    map c | c in live && c + WORD !in ptrs :: live[c]
  }

  /** Frees distinct blocks, in the order given. */
  method ReleaseAll(heap: Heap, ptrs: seq<nat>)
    requires heap.Valid() && AllOwned(heap.layout, ptrs)
    modifies heap, heap.ram, heap.ram.bytes
    ensures heap.Valid()
    ensures heap.layout.lo == old(heap.layout.lo) && heap.layout.hi == old(heap.layout.hi)
    ensures heap.layout.Live() == Without(old(heap.layout.Live()), ptrs)
  {
    ghost var live := heap.layout.Live();
    assert Without(live, ptrs[..0]) == live;
    for i := 0 to |ptrs|
      invariant heap.Valid()
      invariant heap.layout.lo == old(heap.layout.lo) && heap.layout.hi == old(heap.layout.hi)
      invariant heap.layout.Live() == Without(live, ptrs[..i])
    {
      assert ptrs[i] !in ptrs[..i];
      assert ptrs[i] - WORD in live;
      heap.Free(ptrs[i]);
      assert ptrs[..i + 1] == ptrs[..i] + [ptrs[i]];
      assert heap.layout.Live() == Without(live, ptrs[..i + 1]);
    }
    assert ptrs[..|ptrs|] == ptrs;
  }

  /** Two heaps that released the same blocks, each in its own order, have the same
      free list; if these were all the blocks, it is one chunk spanning the heap. */
  lemma ReleaseOrderIrrelevant(l: Layout, a: Layout, b: Layout, ptrs: seq<nat>, others: seq<nat>)
    requires WellFormed(a) && WellFormed(b)
    requires a.lo == b.lo == l.lo && a.hi == b.hi == l.hi
    requires multiset(ptrs) == multiset(others)
    requires a.Live() == Without(l.Live(), ptrs) && b.Live() == Without(l.Live(), others)
    ensures a == b
    ensures l.lo < l.hi && (forall c :: c in l.Live() ==> c + WORD in ptrs) ==>
      a.free == [l.lo] && a.chunks == map[l.lo := l.hi - l.lo]
  {
    assert forall p :: p in ptrs <==> p in multiset(ptrs);
    assert forall p :: p in others <==> p in multiset(others);
    Canonical(a, b);
    if l.lo < l.hi && (forall c :: c in l.Live() ==> c + WORD in ptrs) {
      assert a.Live() == map[];
      AllFree(a);
    }
  }

  // ------------------------------------------------------------------ any run

  /** What a program may do with one of its pointers. */
  datatype Op =
    | Allocate(slot: nat, size: nat)
    | Release(slot: nat)
    | Resize(slot: nat, size: nat)
    | Write(slot: nat, offset: nat, value: nat)

  /** A pointer variable and the size last asked for through it. */
  datatype Slot = Slot(ptr: nat, size: nat)

  const EMPTY := Slot(0, 0)

  /** What the program has stored through a pointer and not given up: words by offset. */
  type Record = map<nat, nat>

  ghost predicate SlotOk(l: Layout, w: Words, s: Slot, stored: Record)
  {
    if s.ptr == 0 then stored == map[]
    else
      && WORD < s.ptr && s.ptr - WORD in l.Live() && s.size + WORD <= l.Live()[s.ptr - WORD]
      && RecordOk(w, s.ptr, l.Live()[s.ptr - WORD], stored)
  }

  ghost predicate RecordOk(w: Words, ptr: nat, chunkSize: nat, stored: Record)
  {
    forall o {:trigger RecordAt(w, ptr, chunkSize, stored, o)} :: o in stored ==> RecordAt(w, ptr, chunkSize, stored, o)
  }

  ghost predicate RecordAt(w: Words, ptr: nat, chunkSize: nat, stored: Record, o: nat)
    requires o in stored
  {
    Aligned(o) && o + WORD < chunkSize && ptr + o in w && w[ptr + o] == stored[o]
  }

  /** What survives a resize: the words that start within the new size. */
  function Surviving(stored: Record, size: nat): Record { map o | o in stored && o < size :: stored[o] }

  function Recorded(stored: Record, offset: nat, value: nat): Record { stored[offset := value] }

  ghost predicate AllOk(l: Layout, w: Words, slots: seq<Slot>, stored: seq<Record>)
  {
    && |slots| == |stored|
    && (forall i {:trigger slots[i]} :: 0 <= i < |slots| ==> SlotOk(l, w, slots[i], stored[i]))
    && (forall i, j :: 0 <= i < |slots| && 0 <= j < |slots| && i != j && slots[i].ptr != 0 ==>
      slots[i].ptr != slots[j].ptr)
  }

  // The blocks that an operation on slot `s` must leave alone.
  function Rest(l: Layout, s: Slot): map<nat, nat>
  {
    if s.ptr < WORD then l.Live() else l.Live() - {s.ptr - WORD}
  }

  lemma SlotKept(l: Layout, w: Words, l': Layout, w': Words, rest: Chunks, s: Slot, stored: Record)
    requires SlotOk(l, w, s, stored) && (s.ptr != 0 ==> s.ptr - WORD in rest)
    requires Among(rest, l.Live()) && Among(rest, l'.Live()) && SameData(w, w', rest)
    ensures SlotOk(l', w', s, stored)
  {
    if s.ptr != 0 {
      var size := rest[s.ptr - WORD];
      assert SameBlock(w, w', s.ptr - WORD, size);
      forall o | o in stored
        ensures RecordAt(w', s.ptr, size, stored, o)
      {
        assert RecordAt(w, s.ptr, size, stored, o);
      }
    }
  }

  /** One slot changes; the others keep their pointers and their data. */
  lemma OneSlot(l: Layout, w: Words, l': Layout, w': Words, slots: seq<Slot>, stored: seq<Record>, k: nat, s: Slot,
                r: Record)
    requires AllOk(l, w, slots, stored) && k < |slots|
    requires Among(Rest(l, slots[k]), l'.Live()) && SameData(w, w', Rest(l, slots[k]))
    requires SlotOk(l', w', s, r) && (s.ptr != 0 ==> s.ptr - WORD !in Rest(l, slots[k]))
    ensures AllOk(l', w', slots[k := s], stored[k := r])
  {
    var rest := Rest(l, slots[k]);
    forall i | 0 <= i < |slots|
      ensures SlotOk(l', w', slots[k := s][i], stored[k := r][i])
      ensures i != k && slots[i].ptr != 0 ==> slots[i].ptr - WORD in rest
    {
      assert SlotOk(l, w, slots[i], stored[i]);
      if i != k { SlotKept(l, w, l', w', rest, slots[i], stored[i]); }
    }
  }

  /** A program's pointers and what it stored through them, and the heap and the platform
      it runs on. */
  datatype State = State(slots: seq<Slot>, stored: seq<Record>, layout: Layout, env: Platform)

  predicate IsNewBlock(l: Layout, l': Layout, ptr: nat)
  {
    WORD <= ptr && ptr - WORD !in l.Live() && ptr - WORD in l'.Live()
  }

  /** What an operation does: an allocation gives an empty record, or nothing if there is
      no room; a release forgets; a resize keeps the words that survive, or fails for want
      of room and drops the pointer; a store records a word. No other slot is touched. */
  ghost predicate Acts(op: Op, s: State, t: State)
  {
    var k := op.slot;
    if !(k < |s.slots| == |s.stored|) then t == s
    else
      && |t.slots| == |t.stored| == |s.slots|
      && t.slots == s.slots[k := t.slots[k]] && t.stored == s.stored[k := t.stored[k]]
      && match op
         case Allocate(_, size) =>
           if s.slots[k].ptr != 0 || size > MAX_REQUEST then t == s
           else
             && t.stored[k] == map[]
             && (t.slots[k].ptr != 0 ==> t.slots[k].size == size && IsNewBlock(s.layout, t.layout, t.slots[k].ptr))
             && (t.slots[k].ptr == 0 <==> Refused(s.layout, s.env, size))
         case Release(_) =>
           if s.slots[k].ptr == 0 then t == s
           else
             && t.slots[k] == EMPTY && t.stored[k] == map[]
             && t.layout.Live() == s.layout.Live() - {Sub(s.slots[k].ptr, WORD)}
         case Resize(_, size) =>
           if s.slots[k].ptr == 0 || size > MAX_REQUEST then t == s
           else
             && (t.slots[k].ptr == 0 <==> ResizeRefused(s.layout, s.env, s.slots[k].ptr, size))
             && if t.slots[k].ptr == 0 then t.stored[k] == map[]
                else t.slots[k].size == size && t.stored[k] == Surviving(s.stored[k], size)
         case Write(_, offset, value) =>
           if s.slots[k].ptr == 0 || !Aligned(offset) || offset >= s.slots[k].size || value > SIZE_MAX then t == s
           else
             && t.slots == s.slots && t.stored[k] == Recorded(s.stored[k], offset, value)
             && t.layout == s.layout && t.env == s.env
  }

  ghost predicate Traced(ops: seq<Op>, trace: seq<State>, n: nat)
  {
    n <= |ops| && n < |trace| && forall i {:trigger ops[i]} :: 0 <= i < n ==> Acts(ops[i], trace[i], trace[i + 1])
  }

  lemma TraceOneMore(ops: seq<Op>, trace: seq<State>, n: nat, s: State)
    requires n < |ops| && |trace| == n + 1 && Traced(ops, trace, n) && Acts(ops[n], trace[n], s)
    ensures Traced(ops, trace + [s], n + 1)
  {
  }

  /** A program that drops a pointer when realloc refuses it. */
  class Program {
    const heap: Heap
    var slots: seq<Slot>
    ghost var stored: seq<Record>

    /** The heap is in order, distinct pointers are distinct blocks, and every word the
        program stored is still there. */
    ghost predicate Valid()
      reads this, heap, heap.ram, heap.ram.bytes
    {
      heap.Valid() && AllOk(heap.layout, heap.ram.words, slots, stored)
    }

    ghost function Now(): State
      reads this, heap
    {
      State(slots, stored, heap.layout, heap.Env())
    }

    constructor (heap: Heap, count: nat)
      requires heap.Valid()
      ensures Valid() && this.heap == heap && slots == seq(count, _ => EMPTY)
    {
      this.heap := heap;
      slots := seq(count, _ => EMPTY);
      stored := seq(count, _ => map[]);
    }

    method Allocate(k: nat, size: nat)
      requires Valid() && k < |slots| && slots[k].ptr == 0 && size <= MAX_REQUEST
      modifies this, heap, heap.ram, heap.ram.bytes
      ensures Valid()
      ensures |slots| == |old(slots)| && slots == old(slots)[k := slots[k]] && stored == old(stored)[k := map[]]
      ensures slots[k].ptr != 0 ==> slots[k].size == size && IsNewBlock(old(heap.layout), heap.layout, slots[k].ptr)
      ensures slots[k].ptr == 0 <==> Refused(old(heap.layout), old(heap.Env()), size)
    {
      ghost var l, w := heap.layout, heap.ram.words;
      var ptr := heap.Malloc(size);
      var s := if ptr == 0 then EMPTY else Slot(ptr, size);
      ChunkSizeFits(size);
      if ptr != 0 { assert ptr - WORD in heap.layout.Live(); }
      OneSlot(l, w, heap.layout, heap.ram.words, slots, stored, k, s, map[]);
      slots, stored := slots[k := s], stored[k := map[]];
    }

    method Release(k: nat)
      requires Valid() && k < |slots| && slots[k].ptr != 0
      modifies this, heap, heap.ram, heap.ram.bytes
      ensures Valid()
      ensures slots == old(slots)[k := EMPTY] && stored == old(stored)[k := map[]]
      ensures heap.layout.Live() == old(heap.layout.Live()) - {Sub(old(slots)[k].ptr, WORD)}
    {
      ghost var l, w := heap.layout, heap.ram.words;
      heap.Free(slots[k].ptr);
      OneSlot(l, w, heap.layout, heap.ram.words, slots, stored, k, EMPTY, map[]);
      slots, stored := slots[k := EMPTY], stored[k := map[]];
    }

    method Write(k: nat, offset: nat, value: nat)
      requires Valid() && k < |slots| && Aligned(offset) && offset < slots[k].size && slots[k].ptr != 0
      requires value <= SIZE_MAX
      modifies this, heap, heap.ram, heap.ram.bytes
      ensures Valid()
      ensures slots == old(slots) && |stored| == |old(stored)|
      ensures heap.layout == old(heap.layout) && heap.Env() == old(heap.Env())
      ensures stored == old(stored)[k := Recorded(old(stored)[k], offset, value)]
    {
      ghost var l, w := heap.layout, heap.ram.words;
      var s := slots[k];
      heap.ClientWrite(s.ptr, offset, value);
      ghost var r := Recorded(stored[k], offset, value);
      forall o | o in r
        ensures RecordAt(heap.ram.words, s.ptr, l.Live()[s.ptr - WORD], r, o)
      {
        if o != offset { assert RecordAt(w, s.ptr, l.Live()[s.ptr - WORD], stored[k], o); }
      }
      OneSlot(l, w, heap.layout, heap.ram.words, slots, stored, k, s, r);
      stored := stored[k := r];
      assert slots[k := s] == slots;
    }

    /** The words below the new size survive, wherever the block goes. */
    method Resize(k: nat, size: nat)
      requires Valid() && k < |slots| && slots[k].ptr != 0 && size <= MAX_REQUEST
      modifies this, heap, heap.ram, heap.ram.bytes
      ensures Valid()
      ensures |slots| == |old(slots)| && |stored| == |old(stored)| && slots == old(slots)[k := slots[k]]
      ensures stored == old(stored)[k := if slots[k].ptr == 0 then map[] else Surviving(old(stored)[k], size)]
      ensures slots[k].ptr != 0 ==> slots[k].size == size
      ensures slots[k].ptr == 0 <==> ResizeRefused(old(heap.layout), old(heap.Env()), old(slots)[k].ptr, size)
    {
      ghost var l, w := heap.layout, heap.ram.words;
      ghost var r := if size == 0 then map[] else Surviving(stored[k], size);
      var s := Reallocate(slots[k], size, stored[k]);
      if s.ptr == 0 { r := map[]; }
      OneSlot(l, w, heap.layout, heap.ram.words, slots, stored, k, s, r);
      slots, stored := slots[k := s], stored[k := r];
    }

    // realloc for one slot; a refusal leaves it empty.
    method Reallocate(s: Slot, size: nat, ghost r: Record) returns (t: Slot)
      requires heap.Valid() && s.ptr != 0 && size <= MAX_REQUEST && SlotOk(heap.layout, heap.ram.words, s, r)
      modifies heap, heap.ram, heap.ram.bytes
      ensures heap.Valid() && (t == EMPTY || (t.ptr != 0 && t.size == size))
      ensures t.ptr == 0 <==> ResizeRefused(old(heap.layout), old(heap.Env()), s.ptr, size)
      ensures SlotMoved(old(heap.layout), old(heap.ram.words), heap.layout, heap.ram.words, s, size, r, t)
    {
      ghost var l, w := heap.layout, heap.ram.words;
      var ptr := CallRealloc(heap, s.ptr, size);
      t := if ptr == 0 then EMPTY else Slot(ptr, size);
      AfterCall(l, w, heap.layout, heap.ram.words, s, size, ptr, r, t);
    }

    /** What the program stored is what it reads. */
    method Read(k: nat, offset: nat) returns (value: nat)
      requires Valid() && k < |slots| && offset in stored[k]
      ensures value == stored[k][offset]
    {
      assert SlotOk(heap.layout, heap.ram.words, slots[k], stored[k]);
      assert RecordAt(heap.ram.words, slots[k].ptr, heap.layout.Live()[slots[k].ptr - WORD], stored[k], offset);
      value := heap.ram.Get(slots[k].ptr + offset);
    }

    // One operation; one that makes no sense is skipped.
    method Do(op: Op)
      requires Valid()
      modifies this, heap, heap.ram, heap.ram.bytes
      ensures Valid() && Acts(op, old(Now()), Now())
    {
      var k := op.slot;
      if k >= |slots| { return; }
      match op {
        case Allocate(_, size) =>
          if slots[k].ptr == 0 && size <= MAX_REQUEST { Allocate(k, size); }
        case Release(_) =>
          if slots[k].ptr != 0 { Release(k); }
        case Resize(_, size) =>
          if slots[k].ptr != 0 && size <= MAX_REQUEST { Resize(k, size); }
        case Write(_, offset, value) =>
          if slots[k].ptr != 0 && Aligned(offset) && offset < slots[k].size && value <= SIZE_MAX {
            Write(k, offset, value);
          }
      }
    }

    /** Any sequence of operations: each acts on the slots and records as it would on
        separate objects, and the heap stays in order. */
    method Run(ops: seq<Op>) returns (ghost trace: seq<State>)
      requires Valid()
      modifies this, heap, heap.ram, heap.ram.bytes
      ensures Valid() && |trace| == |ops| + 1
      ensures trace[0] == old(Now()) && trace[|ops|] == Now()
      ensures forall i {:trigger ops[i]} :: 0 <= i < |ops| ==> Acts(ops[i], trace[i], trace[i + 1])
    {
      trace := [Now()];
      for i := 0 to |ops|
        invariant Valid() && |trace| == i + 1
        invariant trace[0] == old(Now()) && trace[i] == Now()
        invariant Traced(ops, trace, i)
      {
        Do(ops[i]);
        TraceOneMore(ops, trace, i, Now());
        trace := trace + [Now()];
      }
    }
  }

  /** The block of slot `s` goes from chunk `c` to where `ptr` points. */
  lemma ResizedRecord(l: Layout, w: Words, l': Layout, w': Words, c: nat, ptr: nat, size: nat, s: Slot, stored: Record)
    requires ptr != 0 && 0 < size <= MAX_REQUEST && s.ptr == c + WORD && SlotOk(l, w, s, stored)
    requires Resized(l, w, l', w', c, ChunkSizeForData(size), ptr)
    requires Covers(w', l'.hi) && WellFormed(l')
    ensures SlotOk(l', w', Slot(ptr, size), Surviving(stored, size))
    ensures ptr - WORD !in l.Live() - {c} && Among(l.Live() - {c}, l'.Live())
  {
    ChunkSizeFits(size);
    var a: nat := ptr - WORD;
    WhereItIs(l, w, l', w', c, ChunkSizeForData(size), a);
    MovedRecord(w, w', c, a, l.Live()[c], l'.Live()[a], size, l'.hi, stored);
  }

  /** Slot `s` has become slot `t`, with the words that survive; no other block is touched. */
  ghost predicate SlotMoved(l: Layout, w: Words, l': Layout, w': Words, s: Slot, size: nat, r: Record, t: Slot)
  {
    && SlotOk(l', w', t, if t.ptr == 0 then map[] else Surviving(r, size))
    && Among(Rest(l, s), l'.Live()) && SameData(w, w', Rest(l, s))
    && (t.ptr != 0 ==> t.ptr - WORD !in Rest(l, s))
  }

  lemma AfterCall(l: Layout, w: Words, l': Layout, w': Words, s: Slot, size: nat, ptr: nat, r: Record, t: Slot)
    requires WellFormed(l) && SlotOk(l, w, s, r) && s.ptr != 0 && size <= MAX_REQUEST
    requires t == if ptr == 0 then EMPTY else Slot(ptr, size)
    requires size == 0 ==> ptr == 0 && l'.Live() == l.Live() - {s.ptr - WORD} && SameData(w, w', l'.Live())
    requires size != 0 ==> Resized(l, w, l', w', s.ptr - WORD, ChunkSizeForData(size), ptr)
    requires Covers(w', l'.hi) && WellFormed(l')
    ensures SlotMoved(l, w, l', w', s, size, r, t)
  {
    if size == 0 {
      AfterRelease(l, w, l', w', s);
    } else {
      AfterRealloc(l, w, l', w', s, size, ptr, r);
    }
  }

  lemma AfterRelease(l: Layout, w: Words, l': Layout, w': Words, s: Slot)
    requires s.ptr >= WORD && l'.Live() == l.Live() - {s.ptr - WORD} && SameData(w, w', l'.Live())
    ensures SameData(w, w', Rest(l, s)) && Among(Rest(l, s), l'.Live())
  {
  }

  lemma AfterRealloc(l: Layout, w: Words, l': Layout, w': Words, s: Slot, size: nat, ptr: nat, r: Record)
    requires WellFormed(l) && SlotOk(l, w, s, r) && s.ptr != 0 && 0 < size <= MAX_REQUEST
    requires Resized(l, w, l', w', s.ptr - WORD, ChunkSizeForData(size), ptr)
    requires Covers(w', l'.hi) && WellFormed(l')
    ensures SameData(w, w', Rest(l, s)) && Among(Rest(l, s), l'.Live())
    ensures ptr != 0 ==> SlotOk(l', w', Slot(ptr, size), Surviving(r, size)) && ptr - WORD !in Rest(l, s)
  {
    var c: nat := s.ptr - WORD;
    if ptr != 0 {
      ResizedRecord(l, w, l', w', c, ptr, size, s, r);
    } else {
      DroppedBlock(l, w, l', w', c, ChunkSizeForData(size));
    }
  }

  // What Resized says of a block that was delivered.
  lemma WhereItIs(l: Layout, w: Words, l': Layout, w': Words, c: nat, need: nat, a: nat)
    requires Resized(l, w, l', w', c, need, a + WORD) && WellFormed(l')
    ensures 0 < a && a in l'.Live() && need <= l'.Live()[a] && a !in l.Live() - {c}
    ensures Aligned(a) && Aligned(l'.Live()[a]) && a + l'.Live()[a] <= l'.hi
    ensures c in l.Live() && Carried(w, c, w', a, if l'.Live()[a] < l.Live()[c] then l'.Live()[a] else l.Live()[c])
    ensures Among(l.Live() - {c}, l'.Live())
  {
    LiveAmong(l');
    assert ChunkOk(l'.lo, l'.hi, a, l'.chunks[a]);
  }

  lemma MovedRecord(w: Words, w': Words, c: nat, a: nat, oldSize: nat, newSize: nat, size: nat, hi: nat, stored: Record)
    requires Carried(w, c, w', a, if newSize < oldSize then newSize else oldSize)
    requires RecordOk(w, c + WORD, oldSize, stored) && size + WORD <= newSize
    requires Aligned(a) && Aligned(newSize) && a + newSize <= hi && Covers(w', hi)
    ensures RecordOk(w', a + WORD, newSize, Surviving(stored, size))
  {
    var r := Surviving(stored, size);
    forall o | o in r
      ensures RecordAt(w', a + WORD, newSize, r, o)
    {
      assert RecordAt(w, c + WORD, oldSize, stored, o);
      WordCarried(w, w', c, a, oldSize, newSize, hi, o);
    }
  }

  lemma WordCarried(w: Words, w': Words, c: nat, a: nat, oldSize: nat, newSize: nat, hi: nat, o: nat)
    requires Carried(w, c, w', a, if newSize < oldSize then newSize else oldSize)
    requires Aligned(a) && Aligned(newSize) && Aligned(o) && a + newSize <= hi && Covers(w', hi)
    requires o + WORD < oldSize && o + WORD < newSize && c + WORD + o in w
    ensures a + WORD + o in w' && w'[a + WORD + o] == w[c + WORD + o]
  {
    WordInBlock(a, newSize, hi, o);
    var y: nat := a + WORD + o;
    assert y in w';
    assert w'[y] == w[y - a + c];
  }

  lemma WordInBlock(a: nat, size: nat, hi: nat, o: nat)
    requires Aligned(a) && Aligned(size) && Aligned(o) && a + size <= hi && o + WORD < size
    ensures IsWord(hi, a + WORD + o)
  {
  }

  lemma DroppedBlock(l: Layout, w: Words, l': Layout, w': Words, c: nat, need: nat)
    requires WellFormed(l) && Resized(l, w, l', w', c, need, 0)
    ensures Among(l.Live() - {c}, l'.Live())
  {
    RoomAtLeast(l, c);
  }
}
