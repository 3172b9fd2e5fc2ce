/** memcpy, memset and memmove (src/memcpy.c): copies that move a machine word
    at a time where the alignment of both ends allows it. */
module BlockOps {
  import opened Memory

  /** What a copy means: the `len` bytes found at `src` now also stand at `dest`. */
  function Moved(m: seq<byte>, dest: nat, src: nat, len: nat): (r: seq<byte>)
    requires dest + len <= |m| && src + len <= |m|
    ensures |r| == |m|
  {
    Splice(m, dest, m[src..src + len])
  }

  function Repeat(b: byte, n: nat): (s: seq<byte>)
    ensures |s| == n && forall i :: 0 <= i < n ==> s[i] == b
  {
    seq(n, _ => b)
  }

  // CeilWord never wraps on addresses of a memory this large.
  ghost predicate InAddressSpace(mem: array<byte>) { mem.Length <= SIZE_MAX - WORD }

  // ------------------------------------------------------------------ memcpy

  /** The array holds `m`, except that each address in [lo, hi) holds the byte `m`
      has `delta` further on. */
  ghost predicate Shifted(mem: array<byte>, m: seq<byte>, lo: nat, hi: nat, delta: int)
    reads mem
  {
    && |m| == mem.Length && lo <= hi <= |m| && 0 <= lo + delta && hi + delta <= |m|
    && (forall i :: lo <= i < hi ==> mem[i] == m[i + delta])
    && (forall i :: 0 <= i < lo || hi <= i < |m| ==> mem[i] == m[i])
  }

  lemma ShiftedIsMoved(mem: array<byte>, m: seq<byte>, dest: nat, src: nat, len: nat)
    requires Shifted(mem, m, dest, dest + len, src - dest)
    ensures mem[..] == Moved(m, dest, src, len)
  {
  }

  method CopyWord(mem: array<byte>, d: nat, s: nat)
    requires Aligned(d) && Aligned(s)
    requires d + WORD <= mem.Length && s + WORD <= mem.Length
    modifies mem
    ensures forall i :: d <= i < d + WORD ==> mem[i] == old(mem[i - d + s])
    ensures forall i :: 0 <= i < d || d + WORD <= i < mem.Length ==> mem[i] == old(mem[i])
  {
    ghost var m := mem[..];
    StoreLoad(m, d, s);
    var w := LoadWord(mem, s);
    StoreWord(mem, d, w);
    assert forall i :: 0 <= i < mem.Length ==> mem[..][i] == mem[i];
  }

  // The address where word copies may start: both ends are aligned there.
  predicate WordStart(head: nat, delta: int) { Aligned(head) && Aligned(head + delta) }

  // Copies single bytes, addresses rising, as long as they are below `stop`.
  method BytesUp(mem: array<byte>, ghost m: seq<byte>, ghost lo: nat, d0: nat, s0: nat, stop: nat, ghost delta: int)
    requires lo <= d0 <= stop <= mem.Length && stop + delta <= mem.Length && s0 == d0 + delta
    requires delta >= 0 || stop + delta <= lo
    requires Shifted(mem, m, lo, d0, delta)
    modifies mem
    ensures Shifted(mem, m, lo, stop, delta)
  {
    var d, s := d0, s0;
    while d < stop
      invariant d0 <= d <= stop && s == d + delta
      invariant Shifted(mem, m, lo, d, delta)
    {
      mem[d] := mem[s];
      d, s := d + 1, s + 1;
    }
  }

  // One word of a copy going up: the word read is not yet overwritten.
  method WordUp(mem: array<byte>, ghost m: seq<byte>, ghost lo: nat, d: nat, s: nat, ghost delta: int)
    requires Aligned(d) && Aligned(s) && s == d + delta
    requires lo <= d && d + WORD <= mem.Length && s + WORD <= mem.Length
    requires delta >= 0 || s + WORD <= lo
    requires Shifted(mem, m, lo, d, delta)
    modifies mem
    ensures Shifted(mem, m, lo, d + WORD, delta)
  {
    CopyWord(mem, d, s);
  }

  // Between word boundaries a word fits.
  lemma NextWord(d: nat, stop: nat)
    requires Aligned(d) && Aligned(stop) && d < stop
    ensures d + WORD <= stop && Aligned(d + WORD)
  {
  }

  lemma NextStart(d: nat, delta: int)
    ensures WordStart(d, delta) ==> WordStart(d + WORD, delta)
    ensures WordStart(d + WORD, delta) ==> WordStart(d, delta)
  {
  }

  // Copies whole words, addresses rising, as long as they are below `stop`.
  method WordsUp(mem: array<byte>, ghost m: seq<byte>, ghost lo: nat, d0: nat, s0: nat, stop: nat, ghost delta: int)
    returns (d: nat, s: nat)
    requires lo <= d0 <= mem.Length && stop <= mem.Length && stop + delta <= mem.Length && s0 == d0 + delta
    requires delta >= 0 || stop + delta <= lo
    requires Aligned(stop) && (d0 < stop ==> WordStart(d0, delta))
    requires Shifted(mem, m, lo, d0, delta)
    modifies mem
    ensures d == (if d0 < stop then stop else d0) && s == d + delta
    ensures Shifted(mem, m, lo, d, delta)
  {
    d, s := d0, s0;
    while d < stop
      invariant d0 <= d && (d0 < stop ==> d <= stop) && (d0 >= stop ==> d == d0) && s == d + delta
      invariant d0 < stop ==> WordStart(d, delta)
      invariant Shifted(mem, m, lo, d, delta)
    {
      NextWord(d, stop);
      NextStart(d, delta);
      WordUp(mem, m, lo, d, s, delta);
      d, s := d + WORD, s + WORD;
    }
  }

  /** The three loops of memcpy: bytes up to `head`, words up to the last word boundary
      `body`, bytes to the end. */
  method CopyUp(mem: array<byte>, dest: nat, src: nat, head: nat, body: nat, tail: nat, ghost delta: int)
    requires src == dest + delta && (delta >= 0 || tail + delta <= dest)
    requires dest <= head <= tail <= mem.Length && tail + delta <= mem.Length
    requires Aligned(body) && body <= tail && (head < body ==> WordStart(head, delta))
    modifies mem
    ensures Shifted(mem, old(mem[..]), dest, tail, delta)
  {
    ghost var m := mem[..];
    BytesUp(mem, m, dest, dest, src, head, delta);
    var d, s := WordsUp(mem, m, dest, head, src + (head - dest), body, delta);
    BytesUp(mem, m, dest, d, s, tail, delta);
  }

  /** Where the word copies start: at the first word boundary if the two ranges are equally
      aligned and the boundary is in reach, else nowhere. */
  function HeadUp(dest: nat, src: nat, tail: nat): (head: nat)
    requires dest <= tail
    ensures dest <= head <= tail && (head == tail || WordStart(head, src - dest))
  {
    if dest % WORD == src % WORD && tail >= CeilWord(dest) then
      SameBoundaries(dest, src, CeilWord(dest));
      CeilWord(dest)
    else tail
  }

  lemma SameBoundaries(dest: nat, src: nat, head: nat)
    requires dest % WORD == src % WORD && Aligned(head)
    ensures WordStart(head, src - dest)
  {
  }

  // A forward copy of [dest, tail), words where that is possible.
  method CopyRange(mem: array<byte>, dest: nat, src: nat, tail: nat, ghost delta: int)
    requires src == dest + delta && (delta >= 0 || tail + delta <= dest)
    requires dest <= tail <= mem.Length && tail + delta <= mem.Length
    modifies mem
    ensures Shifted(mem, old(mem[..]), dest, tail, delta)
  {
    var head, body := HeadUp(dest, src, tail), FloorWord(tail);
    CopyUp(mem, dest, src, head, body, tail, delta);
  }

  lemma NothingMoved(m: seq<byte>, dest: nat, src: nat, len: nat)
    requires dest + len <= |m| && src + len <= |m| && (dest == src || len == 0)
    ensures Moved(m, dest, src, len) == m
  {
  }

  /** The forward copy is right for disjoint ranges, and also when the ranges
      overlap with the destination first, which is how Memmove uses it. */
  method Memcpy(mem: array<byte>, dest: nat, src: nat, len: nat)
    requires InAddressSpace(mem)
    requires dest + len <= mem.Length && src + len <= mem.Length
    requires dest <= src || src + len <= dest
    modifies mem
    ensures mem[..] == Moved(old(mem[..]), dest, src, len)
  {
    var tail := dest + len;
    if dest == src || len == 0 {
      NothingMoved(mem[..], dest, src, len);
      return;
    }
    CopyRange(mem, dest, src, tail, src - dest);
    ShiftedIsMoved(mem, old(mem[..]), dest, src, len);
  }

  // ----------------------------------------------------------------- memmove

  /** When source and destination overlap with the source first, and are equally
      aligned, they are at least a word apart and the range is longer than a word,
      so the last word boundary of the destination lies above its start. */
  lemma BackwardHeadUnreachable(dest: nat, src: nat, len: nat)
    requires src < dest < src + len
    requires (dest + len) % WORD == (src + len) % WORD
    ensures dest - src >= WORD && len > WORD
    ensures dest <= FloorWord(dest + len)
  {
    assert (dest - src) % WORD == 0;
  }

  // Copies single bytes, addresses falling, down to `stop`.
  method BytesDown(mem: array<byte>, ghost m: seq<byte>, ghost hi: nat, d0: nat, s0: nat, stop: nat, ghost delta: int)
    requires stop <= d0 <= hi <= mem.Length && 0 <= stop + delta && delta <= 0 && s0 == d0 + delta
    requires Shifted(mem, m, d0, hi, delta)
    modifies mem
    ensures Shifted(mem, m, stop, hi, delta)
  {
    var d, s := d0, s0;
    while d > stop
      invariant stop <= d <= d0 && s == d + delta
      invariant Shifted(mem, m, d, hi, delta)
    {
      d, s := d - 1, s - 1;
      mem[d] := mem[s];
    }
  }

  // One word of a copy going down.
  method WordDown(mem: array<byte>, ghost m: seq<byte>, ghost hi: nat, d: nat, s: nat, ghost delta: int)
    requires Aligned(d) && Aligned(s) && s == d + delta && delta <= 0
    requires d + WORD <= hi <= mem.Length
    requires Shifted(mem, m, d + WORD, hi, delta)
    modifies mem
    ensures Shifted(mem, m, d, hi, delta)
  {
    CopyWord(mem, d, s);
  }

  // Copies whole words, addresses falling, as long as they are above `stop`.
  method WordsDown(mem: array<byte>, ghost m: seq<byte>, ghost hi: nat, d0: nat, s0: nat, stop: nat, ghost delta: int)
    returns (d: nat, s: nat)
    requires d0 <= hi <= mem.Length && 0 <= stop + delta && delta <= 0 && s0 == d0 + delta
    requires Aligned(stop) && (d0 > stop ==> WordStart(d0, delta))
    requires Shifted(mem, m, d0, hi, delta)
    modifies mem
    ensures d == (if d0 > stop then stop else d0) && s == d + delta
    ensures Shifted(mem, m, d, hi, delta)
  {
    d, s := d0, s0;
    while d > stop
      invariant d <= d0 && (d0 > stop ==> stop <= d) && (d0 <= stop ==> d == d0) && s == d + delta
      invariant d0 > stop ==> WordStart(d, delta)
      invariant Shifted(mem, m, d, hi, delta)
    {
      NextWord(stop, d);
      d, s := d - WORD, s - WORD;
      NextStart(d, delta);
      WordDown(mem, m, hi, d, s, delta);
    }
  }

  /** The three loops of the backward copy: bytes down to `head`, words down to the
      first word boundary `body`, bytes down to the start. */
  method CopyDown(mem: array<byte>, end: nat, srcEnd: nat, head: nat, body: nat, tail: nat, ghost delta: int)
    requires srcEnd == end + delta && delta <= 0 && 0 <= tail + delta
    requires tail <= head <= end <= mem.Length
    requires Aligned(body) && tail <= body && (body < head ==> WordStart(head, delta))
    modifies mem
    ensures Shifted(mem, old(mem[..]), tail, end, delta)
  {
    ghost var m := mem[..];
    BytesDown(mem, m, end, end, srcEnd, head, delta);
    var d, s := WordsDown(mem, m, end, head, srcEnd - (end - head), body, delta);
    BytesDown(mem, m, end, d, s, tail, delta);
  }

  /** Byte by byte: what a move and a fill leave in memory. */
  lemma MovedByte(m: seq<byte>, dest: nat, src: nat, len: nat, i: nat)
    requires dest + len <= |m| && src + len <= |m| && i < |m|
    ensures Moved(m, dest, src, len)[i] == if dest <= i < dest + len then m[i - dest + src] else m[i]
  {
  }

  lemma FilledByte(m: seq<byte>, dest: nat, b: byte, len: nat, i: nat)
    requires dest + len <= |m| && i < |m|
    ensures |Splice(m, dest, Repeat(b, len))| == |m|
    ensures Splice(m, dest, Repeat(b, len))[i] == if dest <= i < dest + len then b else m[i]
  {
  }

  /** For every pair of addresses, every alignment and every overlap. */
  method Memmove(mem: array<byte>, dest: nat, src: nat, len: nat)
    requires InAddressSpace(mem)
    requires dest + len <= mem.Length && src + len <= mem.Length
    modifies mem
    ensures mem[..] == Moved(old(mem[..]), dest, src, len)
  {
    if dest <= src || dest >= src + len {
      // A forward copy reads every byte before it is overwritten
      Memcpy(mem, dest, src, len);
      return;
    }
    var d, s := dest + len, src + len;
    var tail := dest;
    var head := tail;
    if d % WORD == s % WORD {
      BackwardHeadUnreachable(dest, src, len);
    }
    var boundary := FloorWord(d);
    if d % WORD == s % WORD && tail > boundary {
      head := boundary;
    }
    CopyDown(mem, d, s, head, CeilWord(tail), tail, src - dest);
    ShiftedIsMoved(mem, old(mem[..]), dest, src, len);
  }

  // ------------------------------------------------------------------ memset

  // The word whose `n` bytes are all 1.
  function Ones(n: nat): nat
  {
    if n == 0 then 0 else 1 + 256 * Ones(n - 1)
  }

  lemma {:induction false} BytesOfRepeated(b: byte, n: nat)
    ensures Bytes(b * Ones(n), n) == Repeat(b, n)
  {
    if n > 0 {
      OneMoreByte(b, Ones(n - 1));
      BytesOfRepeated(b, n - 1);
    }
  }

  lemma OneMoreByte(b: byte, ones: nat)
    ensures (b * (1 + 256 * ones)) % 256 == b && (b * (1 + 256 * ones)) / 256 == b * ones
  {
    assert b * (1 + 256 * ones) == b + 256 * (b * ones);
    LowByte(b, b * ones);
  }

  lemma LowByte(b: byte, rest: nat)
    ensures (b + 256 * rest) % 256 == b && (b + 256 * rest) / 256 == rest
  {
  }

  /** Multiplying a byte by 0x0101010101010101 repeats it in every byte of a word. */
  lemma WordOfRepeated(b: byte)
    ensures Bytes(b * 0x0101_0101_0101_0101, WORD) == Repeat(b, WORD)
    ensures b * 0x0101_0101_0101_0101 <= SIZE_MAX
  {
    assert Ones(4) == 0x0101_0101;
    assert Ones(8) == 1 + 256 * (1 + 256 * (1 + 256 * (1 + 256 * Ones(4))));
    BytesOfRepeated(b, WORD);
  }

  ghost predicate Filled(mem: array<byte>, m: seq<byte>, lo: nat, hi: nat, b: byte)
    reads mem
  {
    && |m| == mem.Length && lo <= hi <= |m|
    && (forall i :: lo <= i < hi ==> mem[i] == b)
    && (forall i :: 0 <= i < lo || hi <= i < |m| ==> mem[i] == m[i])
  }

  method FillWord(mem: array<byte>, d: nat, b: byte, cccc: nat)
    requires Aligned(d) && d + WORD <= mem.Length
    requires cccc == b * 0x0101_0101_0101_0101
    modifies mem
    ensures forall i :: d <= i < d + WORD ==> mem[i] == b
    ensures forall i :: 0 <= i < d || d + WORD <= i < mem.Length ==> mem[i] == old(mem[i])
  {
    WordOfRepeated(b);
    StoreWord(mem, d, cccc);
    assert forall i :: 0 <= i < mem.Length ==> mem[..][i] == mem[i];
  }

  // Fills single bytes up to `stop`.
  method FillBytes(mem: array<byte>, ghost m: seq<byte>, ghost lo: nat, d0: nat, stop: nat, b: byte)
    requires d0 <= stop <= mem.Length && Filled(mem, m, lo, d0, b)
    modifies mem
    ensures Filled(mem, m, lo, stop, b)
  {
    var d := d0;
    while d < stop
      invariant d0 <= d <= stop && Filled(mem, m, lo, d, b)
    {
      mem[d] := b;
      d := d + 1;
    }
  }

  // Fills whole words as long as they start below `stop`.
  method FillWords(mem: array<byte>, ghost m: seq<byte>, ghost lo: nat, d0: nat, stop: nat, b: byte, cccc: nat)
    returns (d: nat)
    requires stop <= mem.Length && Aligned(stop) && (d0 < stop ==> Aligned(d0)) && Filled(mem, m, lo, d0, b)
    requires cccc == b * 0x0101_0101_0101_0101
    modifies mem
    ensures d == (if d0 < stop then stop else d0) && Filled(mem, m, lo, d, b)
  {
    d := d0;
    while d < stop
      invariant d0 <= d && (d0 < stop ==> d <= stop) && (d0 >= stop ==> d == d0)
      invariant d0 < stop ==> Aligned(d)
      invariant Filled(mem, m, lo, d, b)
    {
      NextWord(d, stop);
      FillWord(mem, d, b, cccc);
      d := d + WORD;
    }
  }

  method Memset(mem: array<byte>, dest: nat, c: int, len: nat)
    requires InAddressSpace(mem)
    requires dest + len <= mem.Length
    modifies mem
    ensures mem[..] == Splice(old(mem[..]), dest, Repeat(c % 256, len))
  {
    ghost var m := mem[..];
    var b: byte := c % 256;
    var cccc := b * 0x0101_0101_0101_0101;
    var tail := dest + len;
    var head := tail;
    var body := FloorWord(tail);
    if tail >= CeilWord(dest) {
      head := CeilWord(dest);
    }
    FillBytes(mem, m, dest, dest, head, b);
    var d := FillWords(mem, m, dest, head, body, b, cccc);
    FillBytes(mem, m, dest, d, tail, b);
  }
}
