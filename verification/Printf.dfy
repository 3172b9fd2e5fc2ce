/** snprintf, vsnprintf and printf (src/printf.c). */
module Printf {
  import opened Numbers
  import opened Text
  import opened Format
  import opened Sinks
  import opened Formatter

  /** `n` bytes for a text: its first n - 1 characters, a NUL behind them, and a NUL in
      the last of the bytes; the others as they were. */
  predicate Truncated(before: string, after: string, n: nat, text: string)
    requires 0 < n <= |before|
  {
    var m := Min(n - 1, |text|);
    && |after| == |before|
    && after[..m] == text[..m] && after[m] == '\0' && after[n - 1] == '\0'
    && forall k :: m < k < |before| && k != n - 1 ==> after[k] == before[k]
  }

  lemma Terminated(before: string, s: string, n: nat, text: string)
    requires 0 < n <= |before| && var m := Min(n - 1, |text|); s == text[..m] + before[m..]
    ensures Truncated(before, s[n - 1 := '\0'][Min(n - 1, |text|) := '\0'], n, text)
  {
  }

  /** snprintf and vsnprintf cut what the formatter sends; the result does not depend on
      `n`. */
  method Snprintf(str: array<char>, n: nat, format: Option<cstring>, args: seq<Arg>) returns (res: int)
    requires n <= str.Length && Meaning(format, args).Done?
    modifies str
    ensures n == 0 ==> res == -1 && str[..] == old(str[..])
    ensures n > 0 ==> res == Meaning(format, args).ret && Truncated(old(str[..]), str[..], n, Meaning(format, args).out)
  {
    if n == 0 { return -1; }
    var ctx := new SnprintfState(str, n);
    res := Run(ToString(ctx), format, args);
    ghost var out := Meaning(format, args).out;
    assert ctx.written == out by { assert "" + out == out; }
    Terminate(str, n, ctx.pos, ctx.initial, out);
  }

  // The two NULs that end the string.
  method Terminate(str: array<char>, n: nat, pos: nat, ghost before: string, ghost text: string)
    requires 0 < n <= str.Length == |before| && pos == Min(n - 1, |text|) && str[..] == text[..pos] + before[pos..]
    modifies str
    ensures Truncated(before, str[..], n, text)
  {
    Terminated(before, str[..], n, text);
    str[n - 1] := '\0';
    str[pos] := '\0';
  }

  /** What printf shows and returns, given which calls the console refuses, from call
      `first` on. Full buffers go out as they fill, up to the first refusal, which makes
      the formatter return EOF. A positive count sends the rest of the output after them;
      otherwise the live buffer is dropped, and ERROR_STR goes out with its NUL. */
  ghost predicate Printed(before: string, after: string, o: Outcome, refuses: nat -> bool, first: nat, res: int)
    requires o.Done?
  {
    var n := Flushes(|o.out|);
    var k := Accepted(refuses, first, n);
    var error := ERROR_STR + "\0";
    && Buffers(k) <= |o.out|
    && var shown := before + o.out[..Buffers(k)];
    if k < n then
      res == EOF && after == shown + (if refuses(first + k + 1) then "" else error)
    else if o.ret > 0 then
      if refuses(first + k) then res < 0 && after == shown else res > 0 && after == before + o.out
    else
      res == o.ret && after == shown + (if refuses(first + k) then "" else error)
  }

  method Printf(console: Console, format: Option<cstring>, args: seq<Arg>) returns (res: int)
    requires Meaning(format, args).Done?
    modifies console
    ensures Printed(old(console.text), console.text, Meaning(format, args), console.refuses, old(console.calls), res)
  {
    var ctx := new PrintfState(console);
    res := Run(ToConsole(ctx), format, args);
    MeaningCount(format, args);
    res := Conclude(ctx, res, Meaning(format, args));
  }

  // The end of printf: the rest of the buffer, or the error text.
  method Conclude(ctx: PrintfState, count: int, ghost o: Outcome) returns (res: int)
    requires ctx.Valid() && (o.Done? ==> o.ret == EOF || o.ret == |o.out|)
    requires Finished(!ctx.stopped, ctx.before, ctx.Written(), o, count)
    modifies ctx.console
    ensures Printed(ctx.before, ctx.console.text, o, ctx.console.refuses, ctx.first, res)
  {
    BuffersShown(ctx, o);
    res := count;
    if count > 0 {
      if ctx.len > 0 { res := ctx.console.PutNStr(ctx.buf[..ctx.len]); }
    } else {
      var _ := ctx.console.PutNStr(ERROR_STR + "\0");
    }
  }

  lemma BuffersShown(ctx: PrintfState, o: Outcome)
    requires ctx.Valid() && o.Done? && Delivered(ctx.before, ctx.Written(), o.out, !ctx.stopped)
    ensures var k := ctx.flushes;
      && k == Accepted(ctx.console.refuses, ctx.first, Flushes(|o.out|))
      && (ctx.stopped <==> k < Flushes(|o.out|))
      && Buffers(k) <= |o.out| && ctx.console.text == ctx.before + o.out[..Buffers(k)]
  {
    var before, text, rest, k := ctx.before, ctx.console.text, ctx.buf[..ctx.len], ctx.flushes;
    var sent: nat := Buffers(k) + ctx.len;
    assert |text + rest| == |before| + sent;
    FlushesOf(k, ctx.len, |o.out|, ctx.stopped);
    AcceptedAfter(ctx.console.refuses, ctx.first, k, Flushes(|o.out|));
    assert text == (text + rest)[..|text|];
    assert (before + o.out)[..|text|] == before + o.out[..|text| - |before|];
  }

  lemma FlushesOf(k: nat, len: nat, n: nat, stopped: bool)
    requires len <= PRINTF_BUFFER_SIZE && (k > 0 ==> len > 0)
    requires if stopped then len == PRINTF_BUFFER_SIZE && Buffers(k) + len < n
             else Buffers(k) + len == n
    ensures if stopped then k < Flushes(n) else k == Flushes(n)
  {
  }

  /** When the console takes everything: the whole output and a positive result; or, if the
      formatter counts nothing, the full buffers of 256 characters and the error text. */
  lemma PrintedWhole(before: string, after: string, o: Outcome, refuses: nat -> bool, first: nat, res: int)
    requires o.Done? && Printed(before, after, o, refuses, first, res) && forall call :: !refuses(call)
    ensures o.ret > 0 ==> res > 0 && after == before + o.out
    ensures o.ret <= 0 ==> exists k: nat {:trigger Whole(k, |o.out|)} ::
      Whole(k, |o.out|) && res == o.ret && after == before + o.out[..k] + "<ERROR>\n\0"
  {
    NoneRefused(refuses, first, Flushes(|o.out|));
    var k := Buffers(Flushes(|o.out|));
    assert Whole(k, |o.out|);
    assert before + o.out[..k] + "<ERROR>\n\0" == before + o.out[..k] + (ERROR_STR + "\0");
  }

  /** `k` characters of `n` are whole buffers, and more than a buffer is not left. */
  predicate Whole(k: nat, n: nat) { k % 256 == 0 && k <= n <= k + 256 && (n > 0 ==> k < n) }

  lemma {:induction false} NoneRefused(refuses: nat -> bool, first: nat, n: nat)
    requires forall call :: !refuses(call)
    ensures Accepted(refuses, first, n) == n
    decreases n
  {
    if n > 0 { NoneRefused(refuses, first + 1, n - 1); }
  }

  /** When the console refuses the first call and not the next: an output that fits the
      buffer is lost, of a longer one only the error text is shown. */
  lemma PrintedNothing(before: string, after: string, o: Outcome, refuses: nat -> bool, first: nat, res: int)
    requires o.Done? && Printed(before, after, o, refuses, first, res) && refuses(first) && !refuses(first + 1)
    ensures |o.out| > 256 ==> res == -1 && after == before + "<ERROR>\n\0"
    ensures |o.out| <= 256 && o.ret > 0 ==> res < 0 && after == before
  {
    assert before + "" == before && o.out[..0] == "";
  }
}
