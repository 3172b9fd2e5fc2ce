/** What the conditions in the contracts of the allocator come to, in numbers: each lemma
    restates one of them without the definitions that the code shares. */
module Spelled {
  import opened Memory
  import opened Layout
  import opened Ram
  import opened Allocator

  /** Nothing fits when every free chunk is too small, or by 2^32 - 1 or more too large. */
  lemma NoFitMeans(l: Layout, need: nat)
    requires WellFormed(l)
    ensures NoFit(l, need) <==>
      forall f :: f in l.free && f in l.chunks ==> l.chunks[f] < need || l.chunks[f] - need >= 4294967295
  {
    if NoFit(l, need) {
      forall f | f in l.free && f in l.chunks
        ensures l.chunks[f] < need || l.chunks[f] - need >= 4294967295
      {
        var k :| 0 <= k < |l.free| && l.free[k] == f;
        assert !Fits(l, need, k);
      }
    } else {
      var k :| 0 <= k < |l.free| && Fits(l, need, k);
      assert l.free[k] in l.free;
    }
  }

  /** When something fits, malloc takes a free chunk that leaves least over; among equals,
      that at the lowest address. */
  lemma ServedIsBestFit(l: Layout, l': Layout, need: nat, ptr: nat, f: nat)
    requires WellFormed(l) && Served(l, l', need, ptr)
    requires f in l.free && f in l.chunks && need <= l.chunks[f] && l.chunks[f] - need < 4294967295
    ensures 8 <= ptr && ptr - 8 in l.free && ptr - 8 in l.chunks && need <= l.chunks[ptr - 8] <= l.chunks[f]
    ensures l.chunks[ptr - 8] == l.chunks[f] ==> ptr - 8 <= f
  {
    var k :| 0 <= k < |l.free| && l.free[k] == f;
    assert Fits(l, need, k);
    var i: nat :| BestFit(l, need, i) && ptr - WORD == l.free[i];
    assert l.free[i] in l.free;
    ListSorted(l, -1);
  }

  /** What is not handed out of a chunk that serves a request stays free. */
  lemma ServedLeavesRest(l: Layout, l': Layout, need: nat, ptr: nat)
    requires WellFormed(l) && WellFormed(l') && Served(l, l', need, ptr) && !NoFit(l, need)
    ensures 8 <= ptr && ptr - 8 in l.chunks && ptr - 8 in l'.chunks
    ensures l.chunks[ptr - 8] >= need + 16 ==> l'.chunks[ptr - 8] == need
    ensures l.chunks[ptr - 8] < need + 16 ==> l'.chunks[ptr - 8] == l.chunks[ptr - 8]
    ensures ListTotal(l'.chunks, l'.free) == ListTotal(l.chunks, l.free) - l'.chunks[ptr - 8]
  {
    var a: nat := ptr - WORD;
    Conservation(l);
    Conservation(l');
    assert l'.Live()[a] == l'.chunks[a];
    assert l'.Live() - {a} == l.Live();
    TotalRemove(l'.Live(), a);
  }

  /** The platform gives aligned memory at once, or after a second call for the padding. */
  lemma GrantsMeans(env: Platform, size: nat)
    ensures env.Grants(size) <==>
      && size <= 0x7FFF_FFFF_FFFF_FFFF && !env.refuses(env.calls) && env.brk + size <= env.limit
      && (env.brk % 8 == 0 || (!env.refuses(env.calls + 1) && env.brk + size + (8 - env.brk % 8) <= env.limit))
  {
  }

  /** The start and the size of a block once it has its free neighbours. */
  lemma RoomMeans(l: Layout, c: nat, left: nat)
    requires WellFormed(l) && c in l.Live()
    ensures left in l.free && left in l.chunks && l.End(left) == c ==>
      LeftOf(l, c) == left
      && Room(l, c) == l.chunks[left] + l.chunks[c] + (if l.End(c) in l.free then FreeSize(l, l.End(c)) else 0)
    ensures (forall f :: f in l.free && f in l.chunks ==> l.End(f) != c) ==>
      LeftOf(l, c) == c && Room(l, c) == l.chunks[c] + (if l.End(c) in l.free then FreeSize(l, l.End(c)) else 0)
  {
    if l.End(c) in l.free { FreeInChunks(l, l.End(c)); }
    if left in l.free && left in l.chunks && l.End(left) == c {
      var i :| 0 <= i < |l.free| && l.free[i] == left;
      LeftIs(l, c, i);
    }
    if forall f :: f in l.free && f in l.chunks ==> l.End(f) != c {
      forall i: nat
        ensures !EndsAt(l, i, c)
      {
        if i < |l.free| { assert l.free[i] in l.free; }
      }
    }
  }

  function FreeSize(l: Layout, f: nat): nat { if f in l.chunks then l.chunks[f] else 0 }

  /** A block too small for a request grows where it is when it is the last one and the
      platform gives what is missing, or 16 bytes if less is missing. */
  lemma GrowsMeans(l: Layout, env: Platform, c: nat, need: nat)
    requires c in l.chunks && l.chunks[c] < need
    ensures var more := if need - l.chunks[c] < 16 then 16 else need - l.chunks[c];
      Grows(l, env, c, need) <==>
        && c + l.chunks[c] == l.hi && more <= 0x7FFF_FFFF_FFFF_FFFF
        && !env.refuses(env.calls) && env.brk + more <= env.limit
  {
  }

  /** realloc fails for want of room: in place, around the block, in any free chunk, and
      behind the heap, also at a second attempt. */
  lemma HopelessMeans(l: Layout, env: Platform, c: nat, need: nat)
    requires WellFormed(l) && c in l.Live()
    ensures Hopeless(l, env, c, need) <==>
      && l.chunks[c] < need && Room(l, c) < need && !Grows(l, env, c, need)
      && (forall f :: f in l.free && f in l.chunks ==> l.chunks[f] < need || l.chunks[f] - need >= 4294967295)
      && !(need <= 0x7FFF_FFFF_FFFF_FFFF && env.brk + need <= env.limit && !env.refuses(Attempt(l, env, c, need)))
  {
    NoFitMeans(l, need);
  }

  // The number of the call of sbrk that would serve a new block.
  function Attempt(l: Layout, env: Platform, c: nat, need: nat): nat
    requires c in l.chunks
  {
    if c + l.chunks[c] == l.hi && l.chunks[c] < need
       && (if need - l.chunks[c] < 16 then 16 else need - l.chunks[c]) <= 0x7FFF_FFFF_FFFF_FFFF
    then env.calls + 1
    else env.calls
  }

  /** A block that is large enough stays where it is; one that has the room around it stays
      within that room, at its start, or grows where it is. */
  lemma ResizedInPlace(l: Layout, w: Words, l': Layout, w': Words, c: nat, need: nat, r: nat)
    requires WellFormed(l) && Resized(l, w, l', w', c, need, r)
    ensures need <= l.chunks[c] ==> r == c + 8 && l'.hi == l.hi
    ensures l.chunks[c] < need <= Room(l, c) ==> r == LeftOf(l, c) + 8 || (r == c + 8 && l.hi < l'.hi)
    ensures r != 0 ==> LittleWaste(l', r, need)
  {
  }
}
