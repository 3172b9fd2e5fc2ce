/** The two sinks of the formatter: write_str with its snprintf_state, and write_printf
    with its printf_state (src/printf.c). */
module Sinks {
  const PRINTF_BUFFER_SIZE: nat := 256

  /** What a sink received, `after`, when `text` was sent to it: all of it in order, or,
      on a failure, an initial part and not the whole. */
  predicate Delivered(before: string, after: string, text: string, ok: bool)
  {
    if ok then after == before + text else before <= after < before + text
  }

  lemma DeliveredTwice(a: string, b: string, c: string, first: string, second: string, ok: bool)
    requires Delivered(a, b, first, true) && Delivered(b, c, second, ok)
    ensures Delivered(a, c, first + second, ok)
  {
    assert a + (first + second) == b + second;
    if !ok { assert a <= b; }
  }

  lemma DeliveredPart(a: string, b: string, first: string, second: string)
    requires Delivered(a, b, first, false)
    ensures Delivered(a, b, first + second, false)
  {
    assert a + (first + second) == (a + first) + second;
  }

  lemma Stored(written: string, initial: seq<char>, c: char)
    requires |written| < |initial|
    ensures (written + initial[|written|..])[|written| := c] == (written + [c]) + initial[|written| + 1..]
  {
  }

  /** struct snprintf_state: characters go to `str`, up to offset `last`. */
  class SnprintfState {
    const str: array<char>
    const last: nat
    var pos: nat
    ghost const initial: seq<char>
    ghost var written: string

    /** All that was sent, cut at `last`, stands at the start of `str`; the rest of it
        is untouched. */
    ghost predicate Valid()
      reads this, str
    {
      && last < str.Length && |initial| == str.Length
      && pos == (if |written| < last then |written| else last)
      && str[..] == written[..pos] + initial[pos..]
    }

    constructor (str: array<char>, n: nat)
      requires 0 < n <= str.Length
      ensures Valid() && this.str == str && last == n - 1 && initial == str[..] && written == ""
    {
      this.str := str;
      last := n - 1;
      pos := 0;
      initial := str[..];
      written := "";
    }

    /** write_str: it never fails. */
    method Write(c: char)
      requires Valid()
      modifies this, str
      ensures Valid() && written == old(written) + [c]
    {
      if pos < last {
        Stored(written, initial, c);
        str[pos] := c;
        pos := pos + 1;
      }
      written := written + [c];
    }
  }

  /** What the platform writes to. `text` is all it took, and `calls` how often it was
      asked. Which calls it refuses is arbitrary. */
  class Console {
    const refuses: nat -> bool
    ghost var text: string
    var calls: nat

    constructor (refuses: nat -> bool)
      ensures this.refuses == refuses && text == "" && calls == 0
    {
      this.refuses := refuses;
      text := "";
      calls := 0;
    }

    /** putnstr, as include/unistd.h describes it: a positive number if the console took
        the text, a negative one if it did not. */
    method PutNStr(s: string) returns (res: int)
      modifies this
      ensures calls == old(calls) + 1
      ensures if refuses(old(calls)) then res < 0 && text == old(text) else res > 0 && text == old(text) + s
    {
      var refused, positive: int := refuses(calls), *;
      calls := calls + 1;
      if refused {
        res := -1;
      } else {
        res := if positive > 0 then positive else 1;
        text := text + s;
      }
    }
  }

  /** How many full buffers are flushed while `n` characters are sent: never the last. */
  function Flushes(n: nat): nat
  {
    if n == 0 then 0 else (n - 1) / PRINTF_BUFFER_SIZE
  }

  // The size of `k` full buffers.
  function Buffers(k: nat): nat { 256 * k }

  /** How many of `n` calls in a row, from call `first` on, come before the first that is
      refused. */
  function Accepted(refuses: nat -> bool, first: nat, n: nat): (k: nat)
    ensures k <= n
    decreases n
  {
    if n == 0 || refuses(first) then 0 else 1 + Accepted(refuses, first + 1, n - 1)
  }

  /** After `k` calls that are all accepted, what becomes of the others is what counts. */
  lemma {:induction false} AcceptedAfter(refuses: nat -> bool, first: nat, k: nat, n: nat)
    requires k <= n && Accepted(refuses, first, k) == k
    ensures Accepted(refuses, first, n) == k + Accepted(refuses, first + k, n - k)
    decreases k
  {
    if k > 0 { AcceptedAfter(refuses, first + 1, k - 1, n - 1); }
  }

  /** struct printf_state: characters wait in `buf` until it is full. */
  class PrintfState {
    const console: Console
    const buf: array<char>
    var len: nat

    // The console as it was, how many buffers it took, and whether it refused one.
    ghost const before: string
    ghost const first: nat
    ghost var flushes: nat
    ghost var stopped: bool

    /** The console has taken whole buffers of what was sent, and the live buffer holds the
        rest; when a flush is refused the buffer is full. */
    ghost predicate Valid()
      reads this, console
    {
      && buf.Length == PRINTF_BUFFER_SIZE && len <= PRINTF_BUFFER_SIZE
      && before <= console.text && |console.text| - |before| == Buffers(flushes)
      && (flushes > 0 ==> len > 0)
      && Accepted(console.refuses, first, flushes) == flushes
      && console.calls == first + flushes + (if stopped then 1 else 0)
      && (stopped ==> len == PRINTF_BUFFER_SIZE && console.refuses(first + flushes))
    }

    /** What was sent: what the console has, then the live buffer. */
    ghost function Written(): string
      reads this, buf, console
      requires Valid()
    {
      console.text + buf[..len]
    }

    constructor (console: Console)
      ensures Valid() && fresh(buf) && this.console == console && before == Written() == console.text
      ensures first == console.calls && !stopped
    {
      this.console := console;
      before, first := console.text, console.calls;
      buf := new char[PRINTF_BUFFER_SIZE];
      len, flushes, stopped := 0, 0, false;
    }

    /** write_printf: nothing is lost or reordered; it flushes only a full buffer, and
        fails exactly when the console refuses that flush. */
    method Write(c: char) returns (ok: bool)
      requires Valid() && !stopped
      modifies this, buf, console
      ensures Valid() && (ok <==> !stopped)
      ensures Written() == if ok then old(Written()) + [c] else old(Written())
      ensures ok <==> old(len) < PRINTF_BUFFER_SIZE || !console.refuses(old(console.calls))
      ensures flushes == old(flushes) + (if ok && old(len) == PRINTF_BUFFER_SIZE then 1 else 0)
    {
      ok := true;
      if len < PRINTF_BUFFER_SIZE {
        buf[len] := c;
        len := len + 1;
      } else {
        assert buf[..len] == buf[..];
        var res := console.PutNStr(buf[..]);
        if res < 0 {
          ok := false;
          stopped := true;
        } else {
          AcceptedAfter(console.refuses, first, flushes, flushes + 1);
          flushes := flushes + 1;
          len := 1;
          buf[0] := c;
          assert buf[..len] == [c];
        }
      }
    }
  }

  /** A write function together with its state. */
  datatype Writer = ToString(s: SnprintfState) | ToConsole(p: PrintfState) {
    ghost function Footprint(): set<object>
    {
      match this
      case ToString(s) => {s, s.str}
      case ToConsole(p) => {p, p.buf, p.console}
    }

    ghost predicate Valid()
      reads Footprint()
    {
      match this
      case ToString(s) => s.Valid()
      case ToConsole(p) => p.Valid()
    }

    ghost function Written(): string
      reads Footprint()
      requires Valid()
    {
      match this
      case ToString(s) => s.written
      case ToConsole(p) => p.Written()
    }

    /** No flush was refused so far; a string refuses none. */
    ghost predicate Open()
      reads Footprint()
    {
      Valid() && (ToConsole? ==> !p.stopped)
    }

    method Write(c: char) returns (ok: bool)
      requires Open()
      modifies Footprint()
      ensures Valid() && Delivered(old(Written()), Written(), [c], ok)
      ensures ok <==> Open()
    {
      match this
      case ToString(s) =>
        s.Write(c);
        ok := true;
      case ToConsole(p) =>
        ok := p.Write(c);
    }
  }
}
