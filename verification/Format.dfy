/** What a format string means: the characters that formatter (src/printf.c) sends to
    its sink, and the count it returns. */
module Format {
  import opened Numbers
  import opened Division
  import opened Text
  import opened Digits

  const EOF: int := -1
  const MAX_FORMAT: nat := 128
  const ERROR_STR: cstring := "<ERROR>\n"

  datatype Option<+T> = None | Some(value: T)

  /** A variable argument: an int or uint32_t, a uint64_t, or a char pointer. */
  datatype Arg = I32(v: uint32) | I64(w: uint64) | Str(s: cstring) | NullStr

  datatype Flags = Flags(left: bool, padZero: bool, addSign: bool, alt: bool, space: bool)

  predicate IsFlag(c: char) { c == '-' || c == '+' || c == '0' || c == '#' || c == ' ' }

  /** The end of the run of characters from `i` on that satisfy `p`. */
  function Span(f: string, i: nat, p: char -> bool): (e: nat)
    requires i <= |f|
    ensures i <= e <= |f|
    ensures forall k :: i <= k < e ==> p(f[k])
    ensures e < |f| ==> !p(f[e])
    decreases |f| - i
  {
    if i < |f| && p(f[i]) then Span(f, i + 1, p) else i
  }

  function FlagsOf(t: string): Flags
  {
    Flags('-' in t, '0' in t, '+' in t, '#' in t, ' ' in t)
  }

  datatype Count = Count(value: uint32, next: nat, args: seq<Arg>)

  /** A width or a precision: `*` takes an int, negative ones counting as zero; a digit
      string stands for its number modulo 2^32. None when the argument is not an int. */
  function CountAt(f: string, i: nat, args: seq<Arg>): (r: Option<Count>)
    requires i <= |f|
    ensures r.Some? ==> i <= r.value.next <= |f|
  {
    if Peek(f, i) == '*' then
      if args == [] || !args[0].I32? then None
      else Some(Count(if args[0].v >= 0x8000_0000 then 0 else args[0].v, i + 1, args[1..]))
    else
      var e := Span(f, i, IsDigit);
      Some(Count(Denotes(f[i..e], 10) % 0x1_0000_0000, e, args))
  }

  datatype Head = Head(flags: Flags, width: uint32, precision: uint32, next: nat, args: seq<Arg>)

  /** Flags, width and precision of the directive at `i`. */
  function HeadAt(f: string, i: nat, args: seq<Arg>): (r: Option<Head>)
    requires i <= |f|
    ensures r.Some? ==> i <= r.value.next <= |f|
  {
    var e := Span(f, i, IsFlag);
    match CountAt(f, e, args)
    case None => None
    case Some(w) =>
      if Peek(f, w.next) != '.' then Some(Head(FlagsOf(f[i..e]), w.value, 0, w.next, w.args))
      else
        match CountAt(f, w.next + 1, w.args)
        case None => None
        case Some(p) => Some(Head(FlagsOf(f[i..e]), w.value, p.value, p.next, p.args))
  }

  datatype Size = Bits8 | Bits16 | Bits32 | Bits64 {
    function Modulus(): (m: nat)
      ensures m > 0
    {
      match this
      case Bits8 => 0x100
      case Bits16 => 0x1_0000
      case Bits32 => 0x1_0000_0000
      case Bits64 => 0x1_0000_0000_0000_0000
    }
  }

  /** The length modifier at `i`, and where the conversion letter is. */
  function SizeAt(f: string, i: nat): (r: (Size, nat))
    requires i <= |f|
    ensures i <= r.1 <= |f|
  {
    match Peek(f, i)
    case 'h' => if Peek(f, i + 1) == 'h' then (Bits8, i + 2) else (Bits16, i + 1)
    case 'l' => if Peek(f, i + 1) == 'l' then (Bits64, i + 2) else (Bits64, i + 1)
    case 'z' => (Bits64, i + 1)
    case 'j' => (Bits64, i + 1)
    case 't' => (Bits64, i + 1)
    case 'p' => (Bits64, i)
    case _ => (Bits32, i)
  }

  /** The two's complement reading of `v`. */
  function Signed(v: nat, modulus: nat): int
  {
    if 2 * v >= modulus then v - modulus else v
  }

  function Abs(x: int): nat { if x < 0 then -x else x }

  // `+` has no effect on the sizes smaller than an int.
  function SignOf(x: int, size: Size, flags: Flags): (s: string)
    ensures |s| <= 1
  {
    if x < 0 then "-"
    else if flags.addSign && (size == Bits32 || size == Bits64) then "+"
    else if flags.space then " "
    else ""
  }

  predicate IsInteger(c: char)
  {
    c == 'd' || c == 'u' || c == 'p' || c == 'X' || c == 'x' || c == 'o' || c == 'b'
  }

  function Base(c: char): (b: nat)
    ensures b == 2 || b == 8 || b == 10 || b == 16
  {
    match c
    case 'p' => 16
    case 'x' => 16
    case 'X' => 16
    case 'o' => 8
    case 'b' => 2
    case _ => 10
  }

  function Prefix(c: char): string { if c == 'p' then "0x" else if c == 'o' then "0" else "" }

  function HexLetter(c: char, alt: bool): char { if c == 'X' || c == 'p' || alt then 'A' else 'a' }

  function Pad(n: nat, c: char): (s: string)
    ensures |s| == n && forall k :: 0 <= k < n ==> s[k] == c
  {
    if n == 0 then [] else [c] + Pad(n - 1, c)
  }

  // value_len: the length that the padding is computed from
  function Effective(value: string, precision: uint32): nat
  {
    if precision > 0 then Min(precision, |value|) else |value|
  }

  // How many characters of the value are sent: a zero precision is replaced by a
  // uint32_t holding the larger of length and width.
  function Sent(value: string, precision: uint32, width: uint32): (n: nat)
    ensures n <= |value|
  {
    var limit := if precision > 0 then precision else Max(|value|, width) % 0x1_0000_0000;
    Min(limit, |value|)
  }

  /** A value in its field. */
  function Field(value: string, precision: uint32, width: uint32, left: bool, zero: bool): string
  {
    var len := Effective(value, precision);
    var pad := Sub(width, len);
    var body := value[..Sent(value, precision, width)];
    if left then body + Pad(pad, ' ') else Pad(pad, if zero then '0' else ' ') + body
  }

  // A number in its field: %d, %u, %x, %X, %p, %o and %b, without the prefix.
  function NumberField(c: char, v: nat, sign: string, h: Head, zero: bool): string
  {
    Field(sign + Shown(v, Base(c), h.precision, HexLetter(c, h.flags.alt)), 0, h.width, h.flags.left, zero)
  }

  /** One directive: text to send before going on; text to send before the rest of the
      format is replaced by ERROR_STR; EOF; or no defined meaning (an argument missing
      or of another type, a hex dump that reads too far, a sign in front of 67 digits,
      for which there is no room in the buffer). */
  datatype Step = Out(text: string, next: nat, args: seq<Arg>) | Redirect(text: string) | Fail | Undef

  function Integer(c: char, size: Size, h: Head, zero: bool, v: nat, next: nat, args: seq<Arg>): (r: Step)
    ensures r.Out? ==> r.next == next
  {
    if !IsInteger(c) then Fail
    else if h.precision >= BUFFER then Redirect(Prefix(c))
    else
      var m := v % size.Modulus();
      var x := if c == 'd' then Signed(m, size.Modulus()) else m;
      var sign := if c == 'd' then SignOf(x, size, h.flags) else "";
      if sign != "" && h.precision == BUFFER - 1 then Undef
      else Out(Prefix(c) + NumberField(c, Abs(x), sign, h, zero), next, args)
  }

  function NumberAt(f: string, h: Head): (r: Step)
    requires h.next <= |f|
    ensures r.Out? ==> h.next < r.next <= |f|
  {
    var (size, j) := SizeAt(f, h.next);
    var c := Peek(f, j);
    var zero := h.flags.padZero || Peek(f, h.next) == 'p';
    if h.args == [] then Undef
    else
      match h.args[0]
      case I32(v) =>
        if c == 'c' then Out([(v % 0x100) as char], j + 1, h.args[1..])
        else if size == Bits64 then Undef
        else if j < |f| then Integer(c, size, h, zero, v, j + 1, h.args[1..])
        else Fail
      case I64(v) =>
        if c == 'c' || size != Bits64 then Undef
        else if j < |f| then Integer(c, size, h, zero, v, j + 1, h.args[1..])
        else Fail
      case _ => Undef
  }

  function StringAt(h: Head): (r: Step)
    ensures r.Out? ==> r.next == h.next + 1
  {
    if h.args == [] then Undef
    else
      match h.args[0]
      case Str(s) => Out(Field(s, h.precision, h.width, h.flags.left, h.flags.padZero), h.next + 1, h.args[1..])
      case NullStr => Out(Field("[null]", h.precision, h.width, h.flags.left, h.flags.padZero), h.next + 1, h.args[1..])
      case _ => Undef
  }

  function HighDigit(c: char): char { CharDigit(c as nat / 16 % 16, 'a') }

  function LowDigit(c: char): char { CharDigit(c as nat % 16, 'a') }

  // Two hex digits for a character.
  function HexByte(c: char): string { [HighDigit(c), LowDigit(c)] }

  predicate IsAscii(t: string, n: nat)
    requires n <= |t|
  {
    forall i :: 0 <= i < n ==> t[i] as nat < 128
  }

  // The hex dump of the first `n` characters.
  function HexText(t: string, n: nat): (s: string)
    requires n <= |t|
    ensures |s| == 2 * n
  {
    if n == 0 then "" else HexText(t, n - 1) + HexByte(t[n - 1])
  }

  /** %H dumps as many characters as its precision says, the NUL among them. Without a
      precision or a string it is an error. It has no defined meaning if it would read
      behind the NUL, or for a character whose sign is the compiler's choice. */
  function HexAt(h: Head): (r: Step)
    ensures r.Out? ==> r.next == h.next + 1
  {
    if h.args == [] then Undef
    else
      match h.args[0]
      case NullStr => Redirect("")
      case Str(s) =>
        var t := s + "\0";
        if h.precision == 0 then Redirect("")
        else if h.precision > |t| || !IsAscii(t, h.precision) then Undef
        else Out(HexText(t, h.precision), h.next + 1, h.args[1..])
      case _ => Undef
  }

  lemma {:induction false} HexPrefix(t: string, m: nat, n: nat)
    requires m <= n <= |t|
    ensures HexText(t, n)[..2 * m] == HexText(t, m)
  {
    if m < n {
      HexPrefix(t, m, n - 1);
      assert HexText(t, n)[..2 * m] == HexText(t, n - 1)[..2 * m];
    }
  }

  lemma DigitsOf(c: char)
    requires c as nat < 128
    ensures DigitValue(HighDigit(c)) * 16 + DigitValue(LowDigit(c)) == c as nat
  {
    CharDigitValue(c as nat / 16, 'a');
    CharDigitValue(c as nat % 16, 'a');
  }

  /** The digits at 2 * i and 2 * i + 1 show character `i`. */
  lemma HexShows(t: string, n: nat, i: nat)
    requires i < n <= |t| && IsAscii(t, n)
    ensures DigitValue(HexText(t, n)[2 * i]) * 16 + DigitValue(HexText(t, n)[2 * i + 1]) == t[i] as nat
  {
    HexPrefix(t, i + 1, n);
    DigitsOf(t[i]);
    assert HexText(t, n)[2 * i] == HexText(t, i + 1)[2 * i];
    assert HexText(t, n)[2 * i + 1] == HexText(t, i + 1)[2 * i + 1];
  }

  /** The directive whose `%` is in front of `i`. */
  function DirectiveAt(f: string, i: nat, args: seq<Arg>): (r: Step)
    requires i <= |f|
    ensures r.Out? ==> i < r.next <= |f|
  {
    if i == |f| then Redirect("")
    else if f[i] == '%' then Out("%", i + 1, args)
    else
      match HeadAt(f, i, args)
      case None => Undef
      case Some(h) =>
        if h.width > MAX_FORMAT || h.precision > MAX_FORMAT then Redirect("")
        else if Peek(f, h.next) == 's' then StringAt(h)
        else if Peek(f, h.next) == 'H' then HexAt(h)
        else NumberAt(f, h)
  }

  /** The next step of a run: plain text stands for itself. */
  function StepAt(f: string, i: nat, args: seq<Arg>): (r: Step)
    requires i < |f|
    ensures r.Out? ==> i < r.next <= |f|
  {
    if f[i] != '%' then Out([f[i]], i + 1, args) else DirectiveAt(f, i + 1, args)
  }

  datatype Outcome = Done(out: string, ret: int) | Undefined

  // A text, then what follows: EOF stays EOF, a count grows.
  function Emit(text: string, rest: Outcome): Outcome
  {
    match rest
    case Undefined => Undefined
    case Done(out, ret) => Done(text + out, if ret == EOF then EOF else |text| + ret)
  }

  /** The meaning of format `f` from `i` on. */
  function Formatted(f: string, i: nat, args: seq<Arg>): Outcome
    requires i <= |f|
    decreases |f| - i
  {
    if i == |f| then Done("", 0)
    else
      match StepAt(f, i, args)
      case Out(text, next, rest) => Emit(text, Formatted(f, next, rest))
      case Redirect(text) => Done(text + ERROR_STR, |text| + |ERROR_STR|)
      case Fail => Done("", EOF)
      case Undef => Undefined
  }

  /** A sign, digits and NUL fit the buffer unless a sign meets the largest precision that
      the formatter accepts: its test of the precision leaves room for the NUL only. */
  lemma SignFits(x: int, size: Size, flags: Flags, base: nat, precision: nat, a: char)
    requires Abs(x) < 0x1_0000_0000_0000_0000 && 2 <= base <= 16 && (a == 'a' || a == 'A') && precision < BUFFER
    ensures |SignOf(x, size, flags) + Shown(Abs(x), base, precision, a)| + 1 <= BUFFER
      <==> !(SignOf(x, size, flags) != "" && precision == BUFFER - 1)
  {
    LengthOf64(Abs(x), base);
  }

  lemma SixtySeven()
    ensures Denotes("67", 10) == 67 && Denotes("", 10) == 0
  {
    assert "67"[..1] == "6" && "6"[..0] == "";
  }

  // The head of such a directive.
  lemma SignedHead()
    ensures HeadAt("%+.67d", 1, [I32(1)]) == Some(Head(Flags(false, false, true, false, false), 0, 67, 5, [I32(1)]))
  {
    var f := "%+.67d";
    assert Span(f, 1, IsFlag) == 2 && Span(f, 2, IsDigit) == 2 && Span(f, 3, IsDigit) == 5;
    assert f[1..2] == "+" && f[2..2] == "" && f[3..5] == "67";
    SixtySeven();
  }

  lemma SignedDirective(f: string, args: seq<Arg>, h: Head, v: uint32)
    requires |f| > 1 && f[0] == '%' && f[1] != '%' && HeadAt(f, 1, args) == Some(h)
    requires h.next < |f| && f[h.next] == 'd' && h.args == [I32(v)]
    requires h.flags.addSign && h.width <= MAX_FORMAT && h.precision == BUFFER - 1
    ensures DirectiveAt(f, 1, args) == Undef && Formatted(f, 0, args) == Undefined
  {
    assert NumberAt(f, h) == Undef;
    assert StepAt(f, 0, args) == Undef;
  }

  /** Such a call. */
  lemma SignDoesNotFit()
    ensures DirectiveAt("%+.67d", 1, [I32(1)]) == Undef
    ensures Formatted("%+.67d", 0, [I32(1)]) == Undefined
  {
    SignedHead();
    SignedDirective("%+.67d", [I32(1)], Head(Flags(false, false, true, false, false), 0, 67, 5, [I32(1)]), 1);
  }

  /** The meaning of a call; the format may be NULL. */
  function Meaning(format: Option<cstring>, args: seq<Arg>): Outcome
  {
    match format
    case None => Done("", EOF)
    case Some(f) => Formatted(f, 0, args)
  }

  // No count is negative, so none is taken for EOF.
  predicate Sound(o: Outcome) { o.Done? ==> o.ret >= EOF }

  lemma EmitTwice(a: string, b: string, o: Outcome)
    requires Sound(o)
    ensures Emit(a, Emit(b, o)) == Emit(a + b, o)
  {
    if o.Done? { assert a + (b + o.out) == (a + b) + o.out; }
  }

  /** A result other than EOF is the number of characters sent, and EOF is the only
      negative one. */
  lemma {:induction false} CountIsLength(f: string, i: nat, args: seq<Arg>)
    requires i <= |f|
    ensures var o := Formatted(f, i, args); o.Done? ==> o.ret == EOF || o.ret == |o.out|
    decreases |f| - i
  {
    if i < |f| {
      match StepAt(f, i, args)
      case Out(text, next, rest) => CountIsLength(f, next, rest);
      case _ =>
    }
  }

  lemma MeaningCount(format: Option<cstring>, args: seq<Arg>)
    ensures var o := Meaning(format, args); o.Done? ==> o.ret == EOF || o.ret == |o.out|
  {
    if format.Some? { CountIsLength(format.value, 0, args); }
  }

  /** Text without '%' stands for itself. */
  lemma {:induction false} PlainText(f: string, i: nat, args: seq<Arg>)
    requires i <= |f| && '%' !in f[i..]
    ensures Formatted(f, i, args) == Done(f[i..], |f| - i)
    decreases |f| - i
  {
    if i < |f| {
      assert f[i..] == [f[i]] + f[i + 1..];
      PlainText(f, i + 1, args);
    }
  }
}
