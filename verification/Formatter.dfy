/** formatter (src/printf.c) over either sink. */
module Formatter {
  import opened Numbers
  import opened Division
  import opened Text
  import opened Digits
  import opened Format
  import opened Sinks

  // ---------------------------------------------------------------- directives

  // flags.… = 1
  function Raise(flags: Flags, c: char): Flags
    requires IsFlag(c)
  {
    match c
    case '-' => flags.(left := true)
    case '+' => flags.(addSign := true)
    case '0' => flags.(padZero := true)
    case '#' => flags.(alt := true)
    case _ => flags.(space := true)
  }

  lemma RaiseFlag(f: string, i: nat, j: nat)
    requires i <= j < |f| && IsFlag(f[j])
    ensures Raise(FlagsOf(f[i..j]), f[j]) == FlagsOf(f[i..j + 1])
  {
    var t, u := f[i..j], f[i..j + 1];
    assert u == t + [f[j]];
    assert forall c :: c in u <==> c in t || c == f[j];
  }

  method ReadFlags(f: cstring, i: nat) returns (flags: Flags, next: nat)
    requires i <= |f|
    ensures next == Span(f, i, IsFlag) && flags == FlagsOf(f[i..next])
  {
    flags := Flags(false, false, false, false, false);
    next := i;
    while IsFlag(Peek(f, next))
      invariant i <= next <= |f| && Span(f, next, IsFlag) == Span(f, i, IsFlag)
      invariant flags == FlagsOf(f[i..next])
      decreases |f| - next
    {
      RaiseFlag(f, i, next);
      flags := Raise(flags, Peek(f, next));
      next := next + 1;
    }
  }

  // uint32_t arithmetic: 10 * value + c - '0'
  function Shift10(value: uint32, c: char): uint32
    requires IsDigit(c)
  {
    (10 * value + c as nat - '0' as nat) % 0x1_0000_0000
  }

  lemma WrapOnce(value: nat, d: nat)
    ensures (10 * (value % 0x1_0000_0000) + d) % 0x1_0000_0000 == (10 * value + d) % 0x1_0000_0000
  {
    var q, m := value / 0x1_0000_0000, value % 0x1_0000_0000;
    assert 10 * value + d == 10 * m + d + (10 * q) * 0x1_0000_0000;
  }

  lemma WrapDigit(f: string, i: nat, j: nat)
    requires i <= j < |f| && IsDigit(f[j])
    ensures Shift10(Denotes(f[i..j], 10) % 0x1_0000_0000, f[j]) == Denotes(f[i..j + 1], 10) % 0x1_0000_0000
  {
    assert f[i..j + 1][..j - i] == f[i..j];
    WrapOnce(Denotes(f[i..j], 10), DigitValue(f[j]));
  }

  method ReadCount(f: cstring, i: nat, args: seq<Arg>) returns (count: Count)
    requires i <= |f| && CountAt(f, i, args).Some?
    ensures Some(count) == CountAt(f, i, args)
  {
    if Peek(f, i) == '*' {
      count := Count(if args[0].v >= 0x8000_0000 then 0 else args[0].v, i + 1, args[1..]);
    } else {
      var value, j := 0, i;
      while IsDigit(Peek(f, j))
        invariant i <= j <= |f| && Span(f, j, IsDigit) == Span(f, i, IsDigit)
        invariant value == Denotes(f[i..j], 10) % 0x1_0000_0000
        decreases |f| - j
      {
        WrapDigit(f, i, j);
        value := Shift10(value, Peek(f, j));
        j := j + 1;
      }
      count := Count(value, j, args);
    }
  }

  method ReadHead(f: cstring, i: nat, args: seq<Arg>) returns (h: Head)
    requires i <= |f| && HeadAt(f, i, args).Some?
    ensures Some(h) == HeadAt(f, i, args)
  {
    var flags, next := ReadFlags(f, i);
    var width := ReadCount(f, next, args);
    if Peek(f, width.next) == '.' {
      var precision := ReadCount(f, width.next + 1, width.args);
      h := Head(flags, width.value, precision.value, precision.next, precision.args);
    } else {
      h := Head(flags, width.value, 0, width.next, width.args);
    }
  }

  // ---------------------------------------------------------------- fields

  // Pads a value of effective length `len` to `width`.
  method WritePad(w: Writer, c: char, len: nat, width: nat) returns (ok: bool, n: nat)
    requires w.Open()
    modifies w.Footprint()
    ensures w.Valid() && (ok <==> w.Open())
    ensures n == Sub(width, len)
    ensures Delivered(old(w.Written()), w.Written(), Pad(n, c), ok)
  {
    n := Sub(width, len);
    ghost var start := w.Written();
    var k := 0;
    while k < n
      invariant k <= n && w.Open() && w.Written() == start + Pad(k, c)
    {
      ghost var before := w.Written();
      ok := w.Write(c);
      PadMore(k, n, c);
      if !ok {
        DeliveredTwice(start, before, w.Written(), Pad(k, c), [c], false);
        DeliveredPart(start, w.Written(), Pad(k, c) + [c], Pad(n - k - 1, c));
        return;
      }
      k := k + 1;
    }
    ok := true;
  }

  lemma PadMore(k: nat, n: nat, c: char)
    requires k < n
    ensures Pad(k, c) + [c] == Pad(k + 1, c)
    ensures Pad(k, c) + [c] + Pad(n - k - 1, c) == Pad(n, c)
  {
  }

  lemma OneMore(start: string, before: string, after: string, value: string, n: nat, total: nat, ok: bool)
    requires n < total <= |value| && before == start + value[..n] && Delivered(before, after, [value[n]], ok)
    ensures if ok then after == start + value[..n + 1] else Delivered(start, after, value[..total], false)
  {
    assert value[..n] + [value[n]] == value[..n + 1];
    DeliveredTwice(start, before, after, value[..n], [value[n]], ok);
    assert value[..total] == value[..n + 1] + value[n + 1..total];
    if !ok { DeliveredPart(start, after, value[..n + 1], value[n + 1..total]); }
  }

  // Sends the value up to its NUL, or as much of it as `precision` allows.
  method WriteValue(w: Writer, value: cstring, precision: nat) returns (ok: bool, n: nat)
    requires w.Open()
    modifies w.Footprint()
    ensures w.Valid() && (ok <==> w.Open())
    ensures Delivered(old(w.Written()), w.Written(), value[..Min(precision, |value|)], ok)
    ensures ok ==> n == Min(precision, |value|)
  {
    ghost var start := w.Written();
    ghost var total := Min(precision, |value|);
    n := 0;
    while Peek(value, n) != '\0' && n < precision
      invariant n <= total && w.Open() && w.Written() == start + value[..n]
      decreases total - n
    {
      ghost var before := w.Written();
      ok := w.Write(Peek(value, n));
      OneMore(start, before, w.Written(), value, n, total, ok);
      if !ok { return; }
      n := n + 1;
    }
    ok := true;
  }

  /** Two texts, one after the other. */
  lemma DeliveredSeq(a: string, b: string, c: string, first: string, second: string, ok1: bool, ok2: bool)
    requires Delivered(a, b, first, ok1)
    requires if ok1 then Delivered(b, c, second, ok2) else b == c && !ok2
    ensures Delivered(a, c, first + second, ok2)
  {
    if ok1 { DeliveredTwice(a, b, c, first, second, ok2); } else { DeliveredPart(a, b, first, second); }
  }

  method WriteThenPad(w: Writer, value: cstring, limit: nat, len: nat, width: nat) returns (ok: bool, n: nat)
    requires w.Open()
    modifies w.Footprint()
    ensures w.Valid() && (ok <==> w.Open())
    ensures Delivered(old(w.Written()), w.Written(), value[..Min(limit, |value|)] + Pad(Sub(width, len), ' '), ok)
    ensures ok ==> n == Min(limit, |value|) + Sub(width, len)
  {
    ghost var start := w.Written();
    ok, n := WriteValue(w, value, limit);
    ghost var mid, ok1 := w.Written(), ok;
    if ok {
      var k;
      ok, k := WritePad(w, ' ', len, width);
      n := n + k;
    }
    DeliveredSeq(start, mid, w.Written(), value[..Min(limit, |value|)], Pad(Sub(width, len), ' '), ok1, ok);
  }

  method PadThenWrite(w: Writer, value: cstring, limit: nat, len: nat, width: nat, c: char) returns (ok: bool, n: nat)
    requires w.Open()
    modifies w.Footprint()
    ensures w.Valid() && (ok <==> w.Open())
    ensures Delivered(old(w.Written()), w.Written(), Pad(Sub(width, len), c) + value[..Min(limit, |value|)], ok)
    ensures ok ==> n == Sub(width, len) + Min(limit, |value|)
  {
    ghost var start := w.Written();
    ok, n := WritePad(w, c, len, width);
    ghost var mid, ok1 := w.Written(), ok;
    if ok {
      var k;
      ok, k := WriteValue(w, value, limit);
      n := n + k;
    }
    DeliveredSeq(start, mid, w.Written(), Pad(Sub(width, len), c), value[..Min(limit, |value|)], ok1, ok);
  }

  /** Lines 319-352: the value in its field. */
  method WriteField(w: Writer, value: cstring, precision: uint32, width: uint32, left: bool, padZero: bool)
    returns (ok: bool, n: nat)
    requires w.Open()
    modifies w.Footprint()
    ensures w.Valid() && (ok <==> w.Open())
    ensures Delivered(old(w.Written()), w.Written(), Field(value, precision, width, left, padZero), ok)
    ensures ok ==> n == |Field(value, precision, width, left, padZero)|
  {
    var len := |value|;
    if precision != 0 && len > precision {
      len := precision;
    }
    var limit := precision;
    if precision == 0 {
      limit := (if len > width then len else width) % 0x1_0000_0000;
    }
    assert Min(limit, |value|) == Sent(value, precision, width);
    if left {
      ok, n := WriteThenPad(w, value, limit, len, width);
    } else {
      ok, n := PadThenWrite(w, value, limit, len, width, if padZero then '0' else ' ');
    }
  }

  // ---------------------------------------------------------------- integers

  // A NUL stands for no sign.
  function SignText(sign: char): string { if sign == '\0' then "" else [sign] }

  /** Lines 233-265: sign extension of the narrow types; INT_MIN and its 64-bit
      counterpart are their own magnitudes. */
  method SignAndMagnitude(v0: uint64, size: Size, flags: Flags) returns (sign: char, v: uint64)
    requires v0 < size.Modulus()
    ensures v == Abs(Signed(v0, size.Modulus()))
    ensures SignText(sign) == SignOf(Signed(v0, size.Modulus()), size, flags)
  {
    sign := '\0';
    v := v0;
    match size {
      case Bits16 =>
        var vv := if v0 < 0x8000 then v0 else v0 - 0x1_0000;
        if vv < 0 { sign, v := '-', -vv; } else { v := vv; }
      case Bits8 =>
        var vv := if v0 < 0x80 then v0 else v0 - 0x100;
        if vv < 0 { sign, v := '-', -vv; } else { v := vv; }
      case Bits64 =>
        if v0 >= 0x8000_0000_0000_0000 {
          sign := '-';
          if v0 != 0x8000_0000_0000_0000 { v := 0x1_0000_0000_0000_0000 - v0; }
        } else if flags.addSign {
          sign := '+';
        }
      case Bits32 =>
        if v0 >= 0x8000_0000 {
          sign := '-';
          if v0 != 0x8000_0000 { v := 0x1_0000_0000 - v0; }
        } else if flags.addSign {
          sign := '+';
        }
    }
    if sign == '\0' && flags.space { sign := ' '; }
  }

  lemma {:induction false} NumeralIsCString(v: nat, base: nat, n: nat, a: char)
    requires 2 <= base <= 16 && (a == 'a' || a == 'A')
    ensures IsCString(Numeral(v, base, n, a))
    decreases n
  {
    if n > 0 { NumeralIsCString(v / base, base, n - 1, a); }
  }

  /** Lines 300-314: the digits, and the sign in front of them. */
  method ConvertSigned(digits: array<char>, v: uint64, base: uint32, precision: nat, a: char, sign: char)
    returns (value: cstring)
    requires digits.Length == BUFFER && (base == 2 || base == 8 || base == 10 || base == 16)
    requires precision < BUFFER && (a == 'a' || a == 'A')
    requires sign != '\0' ==> precision < BUFFER - 1
    modifies digits
    ensures value == SignText(sign) + Shown(v, base, precision, a)
  {
    LengthOf64(v, base);
    var start := Convert(digits, v, base, precision, a);
    if sign != '\0' {
      ghost var tail := digits[start..BUFFER - 1];
      start := start - 1;
      digits[start] := sign;
      assert digits[start..BUFFER - 1] == [sign] + tail;
    }
    NumeralIsCString(v, base, Max(Max(precision, Length(v, base)), 1), a);
    value := digits[start..BUFFER - 1];
  }

  /** How a directive ends: go on at `next`, go on with ERROR_STR, or return EOF. */
  datatype Exit = Continue(next: nat, args: seq<Arg>) | Redirected | Stop

  function StepText(step: Step): string
  {
    match step
    case Out(text, _, _) => text
    case Redirect(text) => text
    case _ => ""
  }

  /** The directive did what `step` says and sent `n` characters; or the console refused a
      flush and it stopped there. */
  predicate StepDone(open: bool, before: string, after: string, step: Step, exit: Exit, n: nat)
  {
    match exit
    case Continue(next, args) =>
      open && step.Out? && next == step.next && args == step.args && after == before + step.text && n == |step.text|
    case Redirected => open && step.Redirect? && after == before + step.text && n == |step.text|
    case Stop =>
      if open then step.Fail? && after == before else Delivered(before, after, StepText(step), false)
  }

  // the prefixes of %p and %o
  method WritePrefix(w: Writer, c: char) returns (ok: bool, n: nat)
    requires w.Open()
    modifies w.Footprint()
    ensures w.Valid() && (ok <==> w.Open())
    ensures Delivered(old(w.Written()), w.Written(), Prefix(c), ok)
    ensures ok ==> n == |Prefix(c)|
  {
    ghost var start := w.Written();
    n := 0;
    ok := true;
    if c == 'p' || c == 'o' {
      ok := w.Write('0');
      n := n + 1;
    }
    if c == 'p' {
      ghost var mid, ok1 := w.Written(), ok;
      if ok {
        ok := w.Write('x');
        n := n + 1;
      }
      DeliveredSeq(start, mid, w.Written(), "0", "x", ok1, ok);
    }
  }

  // the number, its sign and its padding
  method WriteDigits(w: Writer, digits: array<char>, c: char, v: uint64, sign: char, h: Head, zero: bool)
    returns (ok: bool, n: nat)
    requires w.Open() && digits.Length == BUFFER && digits !in w.Footprint()
    requires h.precision < BUFFER && (sign != '\0' ==> h.precision < BUFFER - 1)
    modifies w.Footprint(), digits
    ensures w.Valid() && (ok <==> w.Open())
    ensures Delivered(old(w.Written()), w.Written(), NumberField(c, v, SignText(sign), h, zero), ok)
    ensures ok ==> n == |NumberField(c, v, SignText(sign), h, zero)|
  {
    var value := ConvertSigned(digits, v, Base(c), h.precision, HexLetter(c, h.flags.alt), sign);
    ok, n := WriteField(w, value, 0, h.width, h.flags.left, zero);
  }

  /** Lines 224-316 once the argument is read. */
  method WriteInteger(w: Writer, digits: array<char>, c: char, size: Size, h: Head, zero: bool, v: uint64, next: nat,
                      args: seq<Arg>)
    returns (exit: Exit, n: nat)
    requires w.Open() && digits.Length == BUFFER && digits !in w.Footprint()
    requires Integer(c, size, h, zero, v, next, args) != Undef
    modifies w.Footprint(), digits
    ensures w.Valid()
    ensures StepDone(w.Open(), old(w.Written()), w.Written(), Integer(c, size, h, zero, v, next, args), exit, n)
  {
    ghost var start := w.Written();
    n := 0;
    if !IsInteger(c) {
      return Stop, n;
    }
    var sign, m := '\0', v % size.Modulus();
    if c == 'd' {
      sign, m := SignAndMagnitude(m, size, h.flags);
    }
    var ok;
    ok, n := WritePrefix(w, c);
    ghost var mid, ok1 := w.Written(), ok;
    if h.precision > BUFFER - 1 {
      exit := if ok then Redirected else Stop;
      return;
    }
    if ok {
      var k;
      ok, k := WriteDigits(w, digits, c, m, sign, h, zero);
      n := n + k;
    }
    DeliveredSeq(start, mid, w.Written(), Prefix(c), NumberField(c, m, SignText(sign), h, zero), ok1, ok);
    exit := if ok then Continue(next, args) else Stop;
  }

  // ---------------------------------------------------------------- the state machine

  // lines 161-163 and the field
  method WriteString(w: Writer, h: Head) returns (exit: Exit, n: nat)
    requires w.Open() && StringAt(h) != Undef
    modifies w.Footprint()
    ensures w.Valid() && StepDone(w.Open(), old(w.Written()), w.Written(), StringAt(h), exit, n)
  {
    var value: cstring := if h.args[0].NullStr? then "[null]" else h.args[0].s;
    var ok;
    ok, n := WriteField(w, value, h.precision, h.width, h.flags.left, h.flags.padZero);
    exit := if ok then Continue(h.next + 1, h.args[1..]) else Stop;
  }

  // one character of a hex dump
  method WriteByte(w: Writer, c: char) returns (ok: bool)
    requires w.Open()
    modifies w.Footprint()
    ensures w.Valid() && (ok <==> w.Open())
    ensures Delivered(old(w.Written()), w.Written(), HexByte(c), ok)
  {
    ghost var start := w.Written();
    ok := w.Write(HighDigit(c));
    ghost var mid, ok1 := w.Written(), ok;
    if ok { ok := w.Write(LowDigit(c)); }
    DeliveredSeq(start, mid, w.Written(), [HighDigit(c)], [LowDigit(c)], ok1, ok);
  }

  // lines 164-183
  method WriteHex(w: Writer, h: Head) returns (exit: Exit, n: nat)
    requires w.Open() && HexAt(h) != Undef
    modifies w.Footprint()
    ensures w.Valid() && StepDone(w.Open(), old(w.Written()), w.Written(), HexAt(h), exit, n)
  {
    n := 0;
    if h.args[0].NullStr? || h.precision == 0 {
      return Redirected, n;
    }
    var value := h.args[0].s + "\0";
    var ok := WriteHexText(w, value, h.precision);
    n := 2 * h.precision;
    exit := if ok then Continue(h.next + 1, h.args[1..]) else Stop;
  }

  // Where a dump of `n` characters stands after `k` of them, or after a refusal.
  predicate Dumped(start: string, now: string, t: string, k: nat, n: nat, ok: bool)
    requires k <= n <= |t|
  {
    if ok then now == start + HexText(t, k) else Delivered(start, now, HexText(t, n), false)
  }

  lemma OneMoreByte(start: string, before: string, after: string, t: string, k: nat, n: nat, ok: bool)
    requires k < n <= |t| && Dumped(start, before, t, k, n, true) && Delivered(before, after, HexByte(t[k]), ok)
    ensures Dumped(start, after, t, k + 1, n, ok)
  {
    DeliveredTwice(start, before, after, HexText(t, k), HexByte(t[k]), ok);
    if !ok {
      HexPrefix(t, k + 1, n);
      var text := HexText(t, n);
      assert text == text[..2 * (k + 1)] + text[2 * (k + 1)..];
      DeliveredPart(start, after, HexText(t, k + 1), text[2 * (k + 1)..]);
    }
  }

  method DumpByte(w: Writer, value: string, k: nat, ghost n: nat, ghost start: string) returns (ok: bool)
    requires w.Open() && k < n <= |value| && Dumped(start, w.Written(), value, k, n, true)
    modifies w.Footprint()
    ensures w.Valid() && (ok <==> w.Open()) && Dumped(start, w.Written(), value, k + 1, n, ok)
  {
    ghost var before := w.Written();
    ok := WriteByte(w, value[k]);
    OneMoreByte(start, before, w.Written(), value, k, n, ok);
  }

  // the bytes of the dump, two digits each
  method WriteHexText(w: Writer, value: string, precision: nat) returns (ok: bool)
    requires w.Open() && precision <= |value|
    modifies w.Footprint()
    ensures w.Valid() && (ok <==> w.Open())
    ensures Dumped(old(w.Written()), w.Written(), value, precision, precision, ok)
  {
    ghost var start := w.Written();
    var k := 0;
    ok := true;
    while k < precision && ok
      invariant k <= precision && w.Valid() && (ok <==> w.Open())
      invariant Dumped(start, w.Written(), value, k, precision, ok)
    {
      ok := DumpByte(w, value, k, precision, start);
      k := k + 1;
    }
  }

  // lines 185-316: length modifier, argument, conversion
  method WriteNumber(w: Writer, digits: array<char>, f: cstring, h: Head) returns (exit: Exit, n: nat)
    requires h.next <= |f| && NumberAt(f, h) != Undef
    requires w.Open() && digits.Length == BUFFER && digits !in w.Footprint()
    modifies w.Footprint(), digits
    ensures w.Valid() && StepDone(w.Open(), old(w.Written()), w.Written(), NumberAt(f, h), exit, n)
  {
    var (size, j) := SizeAt(f, h.next);
    var c := Peek(f, j);
    var zero := h.flags.padZero || Peek(f, h.next) == 'p';
    if c == 'c' {
      var ok := w.Write((h.args[0].v % 0x100) as char);
      n := 1;
      exit := if ok then Continue(j + 1, h.args[1..]) else Stop;
      return;
    }
    var v := if size == Bits64 then h.args[0].w else h.args[0].v;
    exit, n := WriteInteger(w, digits, c, size, h, zero, v, j + 1, h.args[1..]);
  }

  // one pass of the main loop from the `%` in front of `i`
  method WriteDirective(w: Writer, digits: array<char>, f: cstring, i: nat, args: seq<Arg>) returns (exit: Exit, n: nat)
    requires i <= |f| && DirectiveAt(f, i, args) != Undef
    requires w.Open() && digits.Length == BUFFER && digits !in w.Footprint()
    modifies w.Footprint(), digits
    ensures w.Valid() && StepDone(w.Open(), old(w.Written()), w.Written(), DirectiveAt(f, i, args), exit, n)
  {
    n := 0;
    if Peek(f, i) == '%' {
      var ok := w.Write('%');
      exit, n := if ok then Continue(i + 1, args) else Stop, 1;
      return;
    } else if Peek(f, i) == '\0' {
      return Redirected, n;
    }
    var h := ReadHead(f, i, args);
    if h.width > MAX_FORMAT || h.precision > MAX_FORMAT {
      return Redirected, n;
    }
    if Peek(f, h.next) == 's' {
      exit, n := WriteString(w, h);
    } else if Peek(f, h.next) == 'H' {
      exit, n := WriteHex(w, h);
    } else {
      exit, n := WriteNumber(w, digits, f, h);
    }
  }

  // Where a run of the formatter stands: `done` is sent, `text` from `i` on is to come.
  ghost predicate Midway(done: string, text: string, i: nat, args: seq<Arg>, total: Outcome)
    requires i <= |text|
  {
    total.Done? && total == Emit(done, Formatted(text, i, args))
  }

  lemma GoOn(done: string, text: string, i: nat, args: seq<Arg>, total: Outcome)
    requires i < |text| && Midway(done, text, i, args, total)
    requires StepAt(text, i, args).Out?
    ensures var s := StepAt(text, i, args); Midway(done + s.text, text, s.next, s.args, total)
  {
    var s := StepAt(text, i, args);
    CountIsLength(text, s.next, s.args);
    EmitTwice(done, s.text, Formatted(text, s.next, s.args));
  }

  lemma StartOver(done: string, text: string, i: nat, args: seq<Arg>, total: Outcome, now: seq<Arg>)
    requires i < |text| && Midway(done, text, i, args, total)
    requires StepAt(text, i, args).Redirect?
    ensures Midway(done + StepAt(text, i, args).text, ERROR_STR, 0, now, total)
  {
    var s := StepAt(text, i, args);
    PlainText(ERROR_STR, 0, now);
    assert ERROR_STR[0..] == ERROR_STR;
    EmitTwice(done, s.text, Done(ERROR_STR, |ERROR_STR|));
  }

  lemma GiveUp(done: string, text: string, i: nat, args: seq<Arg>, total: Outcome)
    requires i < |text| && Midway(done, text, i, args, total)
    ensures done + StepText(StepAt(text, i, args)) <= total.out
    ensures StepAt(text, i, args).Fail? ==> total == Done(done, EOF)
  {
    match StepAt(text, i, args)
    case Out(t, next, rest) =>
      var o := Formatted(text, next, rest);
      assert total.out == (done + t) + o.out by { assert done + (t + o.out) == (done + t) + o.out; }
    case Redirect(t) => assert total.out == (done + t) + ERROR_STR;
    case _ =>
  }

  /** How the formatter ends. If the console refused nothing, everything was sent and the
      count or EOF is returned; one refusal ends the run with EOF and a part sent. */
  predicate Finished(open: bool, before: string, after: string, total: Outcome, res: int)
  {
    && total.Done? && Delivered(before, after, total.out, open)
    && res == if open then total.ret else EOF
  }

  lemma Failed(start: string, done: string, after: string, text: string, total: Outcome)
    requires total.Done? && done + text <= total.out && Delivered(start + done, after, text, false)
    ensures Finished(false, start, after, total, EOF)
  {
    assert start + done + text == start + (done + text);
  }

  // one pass of the main loop
  method WriteStep(w: Writer, digits: array<char>, f: cstring, i: nat, args: seq<Arg>) returns (exit: Exit, n: nat)
    requires i < |f| && StepAt(f, i, args) != Undef
    requires w.Open() && digits.Length == BUFFER && digits !in w.Footprint()
    modifies w.Footprint(), digits
    ensures w.Valid() && StepDone(w.Open(), old(w.Written()), w.Written(), StepAt(f, i, args), exit, n)
  {
    if f[i] != '%' {
      var ok := w.Write(f[i]);
      exit, n := if ok then Continue(i + 1, args) else Stop, 1;
    } else {
      exit, n := WriteDirective(w, digits, f, i + 1, args);
    }
  }

  lemma Stopped(open: bool, start: string, done: string, after: string, text: string, i: nat, args: seq<Arg>,
                total: Outcome, n: nat)
    requires i < |text| && Midway(done, text, i, args, total)
    requires StepDone(open, start + done, after, StepAt(text, i, args), Stop, n)
    ensures Finished(open, start, after, total, EOF)
  {
    GiveUp(done, text, i, args, total);
    var s := StepAt(text, i, args);
    if !open { Failed(start, done, after, StepText(s), total); }
  }

  lemma Appended(start: string, done: string, after: string, text: string)
    requires after == (start + done) + text
    ensures after == start + (done + text)
  {
  }

  lemma Ended(start: string, now: string, res: int, text: cstring, i: nat, args: seq<Arg>, total: Outcome)
    requires Running(start, now, res, text, i, args, total)
    ensures Peek(text, i) == '\0' ==> Finished(true, start, now, total, res)
    ensures Peek(text, i) != '\0' ==> i < |text| && StepAt(text, i, args) != Undef
  {
    if Peek(text, i) == '\0' {
      assert i == |text|;
      assert total == Done(now[|start|..], res);
      assert now == start + now[|start|..];
    }
  }

  // Where a run stands that has sent `now` beyond `start`.
  ghost predicate Running(start: string, now: string, res: int, text: string, i: nat, args: seq<Arg>, total: Outcome)
  {
    && start <= now && res == |now| - |start| && i <= |text|
    && Midway(now[|start|..], text, i, args, total)
  }

  lemma Started(start: string, text: string, args: seq<Arg>, total: Outcome)
    requires total.Done? && total == Formatted(text, 0, args)
    ensures Running(start, start, 0, text, 0, args, total)
  {
    assert "" + total.out == total.out && start[|start|..] == "";
  }

  /** Every pass keeps what was sent a part of the whole, and ends the run only as the
      whole ends or the console refuses a flush. */
  lemma Passed(open: bool, start: string, now: string, after: string, res: int, text: string, i: nat, args: seq<Arg>,
               total: Outcome, exit: Exit, n: nat)
    requires i < |text| && Running(start, now, res, text, i, args, total)
    requires StepDone(open, now, after, StepAt(text, i, args), exit, n)
    ensures exit.Continue? ==> i < exit.next <= |text|
    ensures exit.Redirected? ==> text != ERROR_STR
    ensures !exit.Stop? ==> open
    ensures match exit
      case Continue(next, rest) => Running(start, after, res + n, text, next, rest, total)
      case Redirected => Running(start, after, res + n, ERROR_STR, 0, args, total)
      case Stop => Finished(open, start, after, total, EOF)
  {
    var done, t := now[|start|..], StepText(StepAt(text, i, args));
    assert now == start + done;
    if exit.Stop? {
      Stopped(open, start, done, after, text, i, args, total, n);
    } else {
      Appended(start, done, after, t);
      assert after[|start|..] == done + t;
      if exit.Continue? {
        GoOn(done, text, i, args, total);
      } else {
        StartOver(done, text, i, args, total, args);
      }
    }
  }

  /** The formatter terminates on every format string: each pass either moves on in the
      text or replaces it, once, by ERROR_STR. */
  method Run(w: Writer, format: Option<cstring>, args: seq<Arg>) returns (res: int)
    requires w.Open() && Meaning(format, args).Done?
    modifies w.Footprint()
    ensures w.Valid() && Finished(w.Open(), old(w.Written()), w.Written(), Meaning(format, args), res)
  {
    if format.None? { return EOF; }
    res := RunText(w, format.value, args);
  }

  // The text and the place in it, and what is left of the arguments.
  datatype Cursor = Cursor(text: cstring, i: nat, args: seq<Arg>)

  ghost predicate RunningAt(start: string, now: string, res: int, c: Cursor, total: Outcome)
  {
    Running(start, now, res, c.text, c.i, c.args, total)
  }

  // What is left of the text, counting the error text as less than any other.
  ghost predicate Closer(c: Cursor, redirected: bool, c': Cursor, redirected': bool)
  {
    && (redirected' ==> c'.text == ERROR_STR)
    && (if redirected' == redirected then |c'.text| - c'.i < |c.text| - c.i else redirected')
  }

  // One pass, seen from the whole run; a redirect replaces the text.
  method WritePass(w: Writer, digits: array<char>, c: Cursor, res: int, ghost start: string, ghost total: Outcome,
                   ghost redirected: bool)
    returns (c': Cursor, res': int, ok: bool, ghost redirected': bool)
    requires w.Open() && digits.Length == BUFFER && digits !in w.Footprint() && c.i <= |c.text|
    requires RunningAt(start, w.Written(), res, c, total) && Peek(c.text, c.i) != '\0'
    requires redirected ==> c.text == ERROR_STR
    modifies w.Footprint(), digits
    ensures w.Valid()
    ensures ok ==> w.Open() && RunningAt(start, w.Written(), res', c', total) && Closer(c, redirected, c', redirected')
    ensures !ok ==> Finished(w.Open(), start, w.Written(), total, EOF)
  {
    ghost var now := w.Written();
    Ended(start, now, res, c.text, c.i, c.args, total);
    var exit, n := WriteStep(w, digits, c.text, c.i, c.args);
    Passed(w.Open(), start, now, w.Written(), res, c.text, c.i, c.args, total, exit, n);
    c', res', ok, redirected' := c, res + n, true, redirected;
    match exit
    case Continue(next, after) => c' := Cursor(c.text, next, after);
    case Redirected => c', redirected' := Cursor(ERROR_STR, 0, c.args), true;
    case Stop => ok := false;
  }

  // The main loop.
  method RunText(w: Writer, format: cstring, args: seq<Arg>) returns (res: int)
    requires w.Open() && Formatted(format, 0, args).Done?
    modifies w.Footprint()
    ensures w.Valid() && Finished(w.Open(), old(w.Written()), w.Written(), Formatted(format, 0, args), res)
  {
    ghost var total := Formatted(format, 0, args);
    Started(w.Written(), format, args, total);
    res := Loop(w, Cursor(format, 0, args), total);
  }

  method Loop(w: Writer, first: Cursor, ghost total: Outcome) returns (res: int)
    requires w.Open() && first.i <= |first.text| && RunningAt(w.Written(), w.Written(), 0, first, total)
    modifies w.Footprint()
    ensures w.Valid() && Finished(w.Open(), old(w.Written()), w.Written(), total, res)
  {
    var digits := new char[BUFFER];
    var c := first;
    ghost var start, redirected := w.Written(), false;
    res := 0;
    while Peek(c.text, c.i) != '\0'
      invariant w.Open() && c.i <= |c.text| && RunningAt(start, w.Written(), res, c, total)
      invariant redirected ==> c.text == ERROR_STR
      decreases !redirected, |c.text| - c.i
    {
      var ok;
      c, res, ok, redirected := WritePass(w, digits, c, res, start, total, redirected);
      if !ok { return EOF; }
    }
    Ended(start, w.Written(), res, c.text, c.i, c.args, total);
  }
}
