/** What each directive of a format sends, said of the characters it is written with and
    without the definitions that the formatter shares. */
module Directives {
  import opened Numbers
  import opened Division
  import opened Text
  import opened Digits
  import opened Format
  import opened RoundTrip

  // ---------------------------------------------------------------- how it is written

  predicate FlagChars(s: string)
  {
    forall k :: 0 <= k < |s| ==> s[k] == '-' || s[k] == '+' || s[k] == '0' || s[k] == '#' || s[k] == ' '
  }

  predicate DigitChars(s: string) { forall k :: 0 <= k < |s| ==> '0' <= s[k] <= '9' }

  /** A width or precision: digits, none at all, or `*` for an argument of type int. */
  predicate CountText(s: string, args: seq<Arg>)
  {
    if s == "*" then args != [] && args[0].I32? else DigitChars(s)
  }

  /** Its value: a negative argument counts as 0, digits wrap at 2^32. */
  function CountOf(s: string, args: seq<Arg>): uint32
    requires CountText(s, args)
  {
    if s == "*" then if args[0].v >= 2147483648 then 0 else args[0].v
    else Denotes(s, 10) % 4294967296
  }

  function ArgsAfter(s: string, args: seq<Arg>): seq<Arg>
    requires CountText(s, args)
  {
    if s == "*" then args[1..] else args
  }

  /** The parts of a directive: flags, width, precision (behind a dot, if there is one),
      length modifier, and letter. */
  datatype Parts = Parts(flags: string, width: string, dot: bool, precision: string, modifier: string, letter: char)
  {
    function Text(): string
    {
      "%" + flags + width + PrecisionText() + modifier + [letter]
    }

    function PrecisionText(): string { if dot then "." + precision else "" }

    predicate Counts(args: seq<Arg>)
    {
      CountText(width, args) && CountText(precision, ArgsAfter(width, args)) && (!dot ==> precision == "")
    }

    predicate Proper(args: seq<Arg>)
    {
      && FlagChars(flags) && Counts(args) && (width != "" ==> width[0] != '0')
      && IsModifier(modifier) && IsPlainLetter(letter)
    }

    function Width(args: seq<Arg>): uint32
      requires Counts(args)
    {
      CountOf(width, args)
    }

    function Precision(args: seq<Arg>): uint32
      requires Counts(args)
    {
      CountOf(precision, ArgsAfter(width, args))
    }

    /** The arguments once width and precision are taken. */
    function Rest(args: seq<Arg>): seq<Arg>
      requires Counts(args)
    {
      ArgsAfter(precision, ArgsAfter(width, args))
    }
  }

  predicate IsModifier(s: string)
  {
    s == "" || s == "h" || s == "hh" || s == "l" || s == "ll" || s == "z" || s == "j" || s == "t"
  }

  // A character that is no part of the directive but its last.
  predicate IsPlainLetter(c: char)
  {
    && !('0' <= c <= '9') && c != '-' && c != '+' && c != '#' && c != ' ' && c != '.' && c != '*' && c != '%'
    && c != 'h' && c != 'l' && c != 'z' && c != 'j' && c != 't' && c != '\0'
  }

  /** The directive stands in `f` at `i`. */
  predicate Stands(f: string, i: nat, d: Parts)
  {
    i + |d.Text()| <= |f| && f[i..i + |d.Text()|] == d.Text()
  }

  // ---------------------------------------------------------------- how it is read

  lemma {:induction false} SpanIs(f: string, i: nat, e: nat, p: char -> bool)
    requires i <= e <= |f| && (forall k :: i <= k < e ==> p(f[k])) && (e < |f| ==> !p(f[e]))
    ensures Span(f, i, p) == e
    decreases e - i
  {
    if i < e { SpanIs(f, i + 1, e, p); }
  }

  // Where the parts are.
  ghost predicate Placed(f: string, i: nat, b: nat, e: nat, g: nat, m: nat, d: Parts)
  {
    && i < b <= e <= g <= m < |f| && f[i] == '%' && f[i + 1..b] == d.flags && f[b..e] == d.width
    && f[e..g] == d.PrecisionText() && f[g..m] == d.modifier && f[m] == d.letter
  }

  lemma WhereParts(f: string, i: nat, d: Parts) returns (b: nat, e: nat, g: nat, m: nat)
    requires Stands(f, i, d)
    ensures Placed(f, i, b, e, g, m, d) && m + 1 == i + |d.Text()|
  {
    b := i + 1 + |d.flags|;
    e := b + |d.width|;
    g := e + |d.PrecisionText()|;
    m := g + |d.modifier|;
    Slices(f, i, d.Text(), "%", d.flags, d.width, d.PrecisionText(), d.modifier, [d.letter]);
    assert f[i..i + 1][0] == '%' && f[m..m + 1][0] == d.letter;
  }

  lemma Slices(f: string, i: nat, t: string, p0: string, p1: string, p2: string, p3: string, p4: string, p5: string)
    requires i + |t| <= |f| && f[i..i + |t|] == t && t == p0 + p1 + p2 + p3 + p4 + p5
    ensures var b := i + |p0|; var c := b + |p1|; var d := c + |p2|; var e := d + |p3|; var g := e + |p4|;
      && f[i..b] == p0 && f[b..c] == p1 && f[c..d] == p2 && f[d..e] == p3 && f[e..g] == p4 && f[g..g + |p5|] == p5
      && g + |p5| == i + |t|
  {
    SlicePart(f, i, t, "", p0, p1 + p2 + p3 + p4 + p5);
    SlicePart(f, i, t, p0, p1, p2 + p3 + p4 + p5);
    SlicePart(f, i, t, p0 + p1, p2, p3 + p4 + p5);
    SlicePart(f, i, t, p0 + p1 + p2, p3, p4 + p5);
    SlicePart(f, i, t, p0 + p1 + p2 + p3, p4, p5);
    SlicePart(f, i, t, p0 + p1 + p2 + p3 + p4, p5, "");
  }

  lemma SlicePart(f: string, i: nat, t: string, before: string, part: string, after: string)
    requires i + |t| <= |f| && f[i..i + |t|] == t && t == before + part + after
    ensures f[i + |before|..i + |before| + |part|] == part
  {
    var u := f[i + |before|..i + |before| + |part|];
    forall k | 0 <= k < |part|
      ensures u[k] == part[k]
    {
      assert f[i + (|before| + k)] == t[|before| + k];
    }
  }

  // A count in `f` from `b` to `e`.
  lemma CountIs(f: string, b: nat, e: nat, s: string, args: seq<Arg>)
    requires b <= e < |f| && f[b..e] == s && CountText(s, args) && !IsDigit(f[e]) && f[e] != '*'
    ensures CountAt(f, b, args) == Some(Count(CountOf(s, args), e, ArgsAfter(s, args)))
  {
    if s == "*" {
      assert f[b] == f[b..e][0];
    } else {
      forall k | b <= k < e
        ensures IsDigit(f[k])
      {
        assert f[k] == s[k - b];
      }
      assert f[b] == (if b < e then s[0] else f[e]);
      SpanIs(f, b, e, IsDigit);
    }
  }

  // What comes behind a part begins with none of these.
  predicate Ends(c: char) { !IsDigit(c) && !IsFlag(c) && c != '*' }

  lemma PartEnds(f: string, i: nat, b: nat, e: nat, g: nat, m: nat, d: Parts, args: seq<Arg>)
    requires Placed(f, i, b, e, g, m, d) && d.Proper(args)
    ensures !IsFlag(f[b]) && Ends(f[e]) && Ends(f[g]) && (d.dot <==> f[e] == '.') && f[i + 1] != '%'
  {
    assert f[g] == if g < m then d.modifier[0] else d.letter;
    assert f[e] == if d.dot then '.' else f[g];
    assert f[b] == if b < e then d.width[0] else f[e];
    if i + 1 < b { assert f[i + 1] == d.flags[0]; }
  }

  /** Reading gives the parts back. */
  lemma HeadIs(f: string, i: nat, b: nat, e: nat, g: nat, m: nat, d: Parts, args: seq<Arg>)
    requires Placed(f, i, b, e, g, m, d) && d.Proper(args)
    ensures HeadAt(f, i + 1, args) == Some(Head(FlagsOf(d.flags), d.Width(args), d.Precision(args), g, d.Rest(args)))
  {
    PartEnds(f, i, b, e, g, m, d, args);
    FlagsEnd(f, i + 1, b, d.flags);
    HeadOf(f, i + 1, b, e, g, d, args);
  }

  lemma HeadOf(f: string, a: nat, b: nat, e: nat, g: nat, d: Parts, args: seq<Arg>)
    requires a <= b <= e <= g < |f| && f[a..b] == d.flags && Span(f, a, IsFlag) == b
    requires f[b..e] == d.width && f[e..g] == d.PrecisionText()
    requires d.Counts(args) && Ends(f[e]) && Ends(f[g]) && (d.dot <==> f[e] == '.')
    ensures HeadAt(f, a, args) == Some(Head(FlagsOf(d.flags), d.Width(args), d.Precision(args), g, d.Rest(args)))
  {
    CountIs(f, b, e, d.width, args);
    var w := Count(d.Width(args), e, ArgsAfter(d.width, args));
    var p := PrecisionOf(f, e, g, d, args);
    if d.dot {
      WithDot(f, a, args, b, d.flags, w, p);
    } else {
      WithoutDot(f, a, args, b, d.flags, w, p);
    }
  }

  lemma PrecisionOf(f: string, e: nat, g: nat, d: Parts, args: seq<Arg>) returns (p: Count)
    requires e <= g < |f| && f[e..g] == d.PrecisionText() && d.Counts(args) && Ends(f[g])
    ensures p == Count(d.Precision(args), g, d.Rest(args))
    ensures d.dot ==> f[e] == '.' && CountAt(f, e + 1, ArgsAfter(d.width, args)) == Some(p)
    ensures !d.dot ==> p == Count(0, e, ArgsAfter(d.width, args))
  {
    p := Count(d.Precision(args), g, d.Rest(args));
    NoCount(ArgsAfter(d.width, args));
    if d.dot {
      assert f[e] == f[e..g][0];
      assert f[e + 1..g] == f[e..g][1..] == d.precision;
      CountIs(f, e + 1, g, d.precision, ArgsAfter(d.width, args));
    }
  }

  lemma NoCount(args: seq<Arg>)
    ensures CountOf("", args) == 0 && ArgsAfter("", args) == args
  {
  }

  lemma WithDot(f: string, a: nat, args: seq<Arg>, b: nat, flags: string, w: Count, p: Count)
    requires a <= b <= |f| && f[a..b] == flags && Span(f, a, IsFlag) == b && CountAt(f, b, args) == Some(w)
    requires Peek(f, w.next) == '.' && CountAt(f, w.next + 1, w.args) == Some(p)
    ensures HeadAt(f, a, args) == Some(Head(FlagsOf(flags), w.value, p.value, p.next, p.args))
  {
  }

  lemma WithoutDot(f: string, a: nat, args: seq<Arg>, b: nat, flags: string, w: Count, p: Count)
    requires a <= b <= |f| && f[a..b] == flags && Span(f, a, IsFlag) == b && CountAt(f, b, args) == Some(w)
    requires Peek(f, w.next) != '.' && p == Count(0, w.next, w.args)
    ensures HeadAt(f, a, args) == Some(Head(FlagsOf(flags), w.value, p.value, p.next, p.args))
  {
  }

  lemma FlagsEnd(f: string, a: nat, b: nat, flags: string)
    requires a <= b < |f| && f[a..b] == flags && FlagChars(flags) && !IsFlag(f[b])
    ensures Span(f, a, IsFlag) == b
  {
    forall k | a <= k < b
      ensures IsFlag(f[k])
    {
      assert f[k] == flags[k - a];
    }
    SpanIs(f, a, b, IsFlag);
  }

  // The argument is 64 bits wide, or a narrower integer passed as an int.
  predicate IsWide(d: Parts)
  {
    (d.modifier != "" && d.modifier[0] != 'h') || (d.modifier == "" && d.letter == 'p')
  }

  /** 2 to the number of bits that are shown. */
  function Range(d: Parts): nat
  {
    if IsWide(d) then 18446744073709551616
    else if d.modifier == "h" then 65536
    else if d.modifier == "hh" then 256
    else 4294967296
  }

  lemma SizeIs(f: string, g: nat, m: nat, d: Parts)
    requires g <= m < |f| && f[g..m] == d.modifier && f[m] == d.letter && IsPlainLetter(d.letter)
    requires IsModifier(d.modifier)
    ensures SizeAt(f, g).1 == m && SizeAt(f, g).0.Modulus() == Range(d) && (SizeAt(f, g).0 == Bits64 <==> IsWide(d))
    ensures (Peek(f, g) == 'p' <==> d.modifier == "" && d.letter == 'p')
    ensures Peek(f, g) != 's' || (d.modifier == "" && d.letter == 's')
    ensures Peek(f, g) != 'H' || (d.modifier == "" && d.letter == 'H')
    ensures d.modifier != "h" && d.modifier != "hh" <==> SizeAt(f, g).0 == Bits32 || SizeAt(f, g).0 == Bits64
  {
    assert f[g] == if g < m then d.modifier[0] else d.letter;
    if m == g + 2 { assert f[g + 1] == d.modifier[1]; }
  }

  // ---------------------------------------------------------------- what it sends

  /** From `i` on the format sends `t`, and then what it sends from `j` on; an EOF stays
      an EOF, and a count counts all characters. */
  predicate Sends(f: string, i: nat, args: seq<Arg>, t: string, j: nat, rest: seq<Arg>)
    requires i <= |f| && j <= |f|
  {
    Formatted(f, i, args) ==
      match Formatted(f, j, rest)
      case Undefined => Undefined
      case Done(out, ret) => Done(t + out, if ret == -1 then -1 else |t| + ret)
  }

  lemma SendsStep(f: string, i: nat, args: seq<Arg>, t: string, j: nat, rest: seq<Arg>)
    requires i < |f| && StepAt(f, i, args) == Out(t, j, rest)
    ensures j <= |f| && Sends(f, i, args, t, j, rest)
  {
  }

  /** The end of the format sends nothing, and a character other than '%' itself. */
  lemma SendsPlain(f: string, i: nat, args: seq<Arg>)
    requires i <= |f|
    ensures i == |f| ==> Formatted(f, i, args) == Done("", 0)
    ensures i < |f| && f[i] != '%' ==> Sends(f, i, args, [f[i]], i + 1, args)
    ensures i + 1 < |f| && f[i] == '%' && f[i + 1] == '%' ==> Sends(f, i, args, "%", i + 2, args)
    ensures i + 1 == |f| && f[i] == '%' ==> Formatted(f, i, args) == Done("<ERROR>\n", 8)
  {
  }

  /** No format. */
  lemma SendsNull(args: seq<Arg>)
    ensures Meaning(None, args) == Done("", -1)
  {
  }

  // A text in a field of at least `width` characters.
  function InField(s: string, width: nat, left: bool, zero: bool): string
  {
    if left then s + Pad(Sub(width, |s|), ' ') else Pad(Sub(width, |s|), if zero then '0' else ' ') + s
  }

  /** A directive that is neither too wide nor too precise, as the formatter sees it. */
  lemma ReadDirective(f: string, i: nat, d: Parts, args: seq<Arg>) returns (h: Head, m: nat)
    requires Stands(f, i, d) && d.Proper(args)
    ensures m + 1 == i + |d.Text()| && m < |f| && f[i] == '%' && f[m] == d.letter && h.next <= m
    ensures f[h.next..m] == d.modifier
    ensures h == Head(FlagsOf(d.flags), d.Width(args), d.Precision(args), h.next, d.Rest(args))
    ensures StepAt(f, i, args) ==
      if h.width > 128 || h.precision > 128 then Redirect("")
      else if Peek(f, h.next) == 's' then StringAt(h)
      else if Peek(f, h.next) == 'H' then HexAt(h)
      else NumberAt(f, h)
  {
    var b, e, g;
    b, e, g, m := WhereParts(f, i, d);
    PartEnds(f, i, b, e, g, m, d, args);
    HeadIs(f, i, b, e, g, m, d, args);
    h := Head(FlagsOf(d.flags), d.Width(args), d.Precision(args), g, d.Rest(args));
  }

  predicate IsNumberLetter(c: char)
  {
    c == 'd' || c == 'u' || c == 'p' || c == 'x' || c == 'X' || c == 'o' || c == 'b'
  }

  // The argument of a number directive has the right type.
  predicate TakesNumber(d: Parts, rest: seq<Arg>, v: uint64)
  {
    rest != [] && if IsWide(d) then rest[0] == I64(v) else v < 4294967296 && rest[0] == I32(v)
  }

  lemma NumberStep(f: string, i: nat, d: Parts, args: seq<Arg>, v: uint64) returns (h: Head, size: Size, m: nat)
    requires Stands(f, i, d) && d.Proper(args) && IsNumberLetter(d.letter)
    requires d.Width(args) <= 128 && d.Precision(args) <= 128 && TakesNumber(d, d.Rest(args), v)
    ensures h == Head(FlagsOf(d.flags), d.Width(args), d.Precision(args), h.next, d.Rest(args))
    ensures size.Modulus() == Range(d)
    ensures d.modifier != "h" && d.modifier != "hh" <==> size == Bits32 || size == Bits64
    ensures m + 1 == i + |d.Text()| && m < |f|
    ensures var zero := h.flags.padZero || (d.modifier == "" && d.letter == 'p');
      StepAt(f, i, args) == Integer(d.letter, size, h, zero, v, m + 1, d.Rest(args)[1..])
  {
    h, m := ReadDirective(f, i, d, args);
    SizeIs(f, h.next, m, d);
    size := SizeAt(f, h.next).0;
  }

  /** %d, %u, %x, %X, %p, %o and %b. A number that is the argument modulo the range of the
      size; digits that denote its magnitude in the base of the letter; a sign, for %d; in
      a field with spaces behind it, or zeros or spaces before it; and a prefix. */
  lemma NumberDirective(f: string, i: nat, d: Parts, args: seq<Arg>, v: uint64)
    returns (x: int, digits: string, t: string, j: nat, rest: seq<Arg>)
    requires Stands(f, i, d) && d.Proper(args) && IsNumberLetter(d.letter)
    requires d.Width(args) <= 128 && TakesNumber(d, d.Rest(args), v)
    requires d.Precision(args) <= 66 || (d.Precision(args) == 67 && d.letter != 'd')
    ensures (x - v) % Range(d) == 0
    ensures if d.letter == 'd' then 0 <= 2 * x + Range(d) && 2 * x < Range(d) else 0 <= x < Range(d)
    ensures d.letter == 'p' || d.letter == 'x' || d.letter == 'X' ==> Denotes(digits, 16) == Abs(x)
    ensures d.letter == 'o' ==> Denotes(digits, 8) == Abs(x)
    ensures d.letter == 'b' ==> Denotes(digits, 2) == Abs(x)
    ensures d.letter == 'd' || d.letter == 'u' ==> Denotes(digits, 10) == Abs(x) && DigitChars(digits)
    ensures AsNeeded(digits, d.Precision(args))
    ensures HexDigits(digits, if d.letter == 'X' || d.letter == 'p' || '#' in d.flags then 'A' else 'a')
    ensures t == NumberText(d, d.Width(args), x, digits)
    ensures j == i + |d.Text()| && rest == d.Rest(args)[1..] && Sends(f, i, args, t, j, rest)
  {
    var h, size, m := NumberStep(f, i, d, args, v);
    FlagsAre(d.flags);
    j, rest := m + 1, d.Rest(args)[1..];
    x, digits, t := NumberSends(f, i, d, args, v, h, size, j, rest);
  }

  lemma NumberSends(f: string, i: nat, d: Parts, args: seq<Arg>, v: uint64, h: Head, size: Size, next: nat,
                    rest: seq<Arg>)
    returns (x: int, digits: string, t: string)
    requires i < |f| && IsNumberLetter(d.letter) && h.flags == FlagsOf(d.flags)
    requires h.precision <= 66 || (h.precision == 67 && d.letter != 'd')
    requires size.Modulus() == Range(d)
    requires d.modifier != "h" && d.modifier != "hh" <==> size == Bits32 || size == Bits64
    requires var zero := h.flags.padZero || (d.modifier == "" && d.letter == 'p');
      StepAt(f, i, args) == Integer(d.letter, size, h, zero, v, next, rest)
    ensures (x - v) % Range(d) == 0
    ensures if d.letter == 'd' then 0 <= 2 * x + Range(d) && 2 * x < Range(d) else 0 <= x < Range(d)
    ensures d.letter == 'p' || d.letter == 'x' || d.letter == 'X' ==> Denotes(digits, 16) == Abs(x)
    ensures d.letter == 'o' ==> Denotes(digits, 8) == Abs(x)
    ensures d.letter == 'b' ==> Denotes(digits, 2) == Abs(x)
    ensures d.letter == 'd' || d.letter == 'u' ==> Denotes(digits, 10) == Abs(x) && AllDigits(digits)
    ensures AsNeeded(digits, h.precision)
    ensures HexDigits(digits, if d.letter == 'X' || d.letter == 'p' || h.flags.alt then 'A' else 'a')
    ensures t == NumberText(d, h.width, x, digits) && next <= |f| && Sends(f, i, args, t, next, rest)
  {
    var zero := h.flags.padZero || (d.modifier == "" && d.letter == 'p');
    IntegerIsOut(d.letter, size, h, zero, v, next, rest);
    x, digits := IntegerMeans(d.letter, size, h, zero, v, next, rest);
    NumberTextIs(d, h, size, x, digits, zero);
    t := NumberText(d, h.width, x, digits);
    SendsStep(f, i, args, t, next, rest);
  }

  lemma NumberTextIs(d: Parts, h: Head, size: Size, x: int, digits: string, zero: bool)
    requires h.flags == FlagsOf(d.flags) && zero == (h.flags.padZero || (d.modifier == "" && d.letter == 'p'))
    requires d.modifier != "h" && d.modifier != "hh" <==> size == Bits32 || size == Bits64
    requires |digits| <= 67
    ensures NumberText(d, h.width, x, digits)
      == (if d.letter == 'p' then "0x" else if d.letter == 'o' then "0" else "")
         + Field((if d.letter == 'd' then SignOf(x, size, h.flags) else "") + digits, 0, h.width, h.flags.left, zero)
  {
    SignIs(d, x, size, h);
    FieldIs(SignWritten(d, x) + digits, h.width, h.flags.left, zero);
    FlagsAre(d.flags);
  }

  lemma FlagsAre(s: string)
    ensures FlagsOf(s).left <==> '-' in s
    ensures FlagsOf(s).padZero <==> '0' in s
    ensures FlagsOf(s).alt <==> '#' in s
  {
  }

  /** Prefix, and sign and digits in their field. */
  function NumberText(d: Parts, width: nat, x: int, digits: string): string
  {
    var zero := '0' in d.flags || (d.letter == 'p' && d.modifier == "");
    (if d.letter == 'p' then "0x" else if d.letter == 'o' then "0" else "")
    + InField(SignWritten(d, x) + digits, width, '-' in d.flags, zero)
  }

  // The sign that %d shows of `x`.
  function SignWritten(d: Parts, x: int): string
  {
    if d.letter != 'd' then ""
    else if x < 0 then "-"
    else if '+' in d.flags && d.modifier != "h" && d.modifier != "hh" then "+"
    else if ' ' in d.flags then " "
    else ""
  }

  lemma SignIs(d: Parts, x: int, size: Size, h: Head)
    requires h.flags == FlagsOf(d.flags)
    requires d.modifier != "h" && d.modifier != "hh" <==> size == Bits32 || size == Bits64
    ensures SignWritten(d, x) == if d.letter == 'd' then SignOf(x, size, h.flags) else ""
  {
  }

  lemma IntegerIsOut(c: char, size: Size, h: Head, zero: bool, v: nat, next: nat, args: seq<Arg>)
    requires IsNumberLetter(c) && (h.precision <= 66 || (h.precision == 67 && c != 'd'))
    ensures IsInteger(c) && Integer(c, size, h, zero, v, next, args).Out?
    ensures Integer(c, size, h, zero, v, next, args).next == next
      && Integer(c, size, h, zero, v, next, args).args == args
  {
  }

  lemma FieldIs(s: string, width: uint32, left: bool, zero: bool)
    requires |s| < 4294967296
    ensures Field(s, 0, width, left, zero) == InField(s, width, left, zero)
  {
    FieldLayout(s, 0, width, left, zero);
    assert s[..|s|] == s;
  }

  /** %s: as many characters of the string as the precision allows, all of them if there is
      none; in a field with spaces behind them, or zeros or spaces before them. NULL shows
      as "[null]". */
  lemma StringDirective(f: string, i: nat, d: Parts, args: seq<Arg>, s: cstring)
    returns (t: string, j: nat, rest: seq<Arg>)
    requires Stands(f, i, d) && d.Proper(args) && d.modifier == "" && d.letter == 's' && d.Rest(args) != []
    requires d.Rest(args)[0] == Str(s) || (d.Rest(args)[0] == NullStr && s == "[null]")
    requires d.Width(args) <= 128 && d.Precision(args) <= 128 && (d.Precision(args) > 0 || |s| < 4294967296)
    ensures var n := if 0 < d.Precision(args) < |s| then d.Precision(args) else |s|;
      t == InField(s[..n], d.Width(args), '-' in d.flags, '0' in d.flags)
    ensures j == i + |d.Text()| && rest == d.Rest(args)[1..] && Sends(f, i, args, t, j, rest)
  {
    var h, m := ReadDirective(f, i, d, args);
    FlagsAre(d.flags);
    assert h.next == m && Peek(f, h.next) == 's';
    t, j, rest := StringSends(f, i, args, h, s);
  }

  lemma StringSends(f: string, i: nat, args: seq<Arg>, h: Head, s: cstring)
    returns (t: string, j: nat, rest: seq<Arg>)
    requires i < |f| && StepAt(f, i, args) == StringAt(h) && (h.precision > 0 || |s| < 4294967296)
    requires h.args != [] && (h.args[0] == Str(s) || (h.args[0] == NullStr && s == "[null]"))
    ensures var n := if 0 < h.precision < |s| then h.precision else |s|;
      t == InField(s[..n], h.width, h.flags.left, h.flags.padZero)
    ensures j == h.next + 1 <= |f| && rest == h.args[1..] && Sends(f, i, args, t, j, rest)
  {
    j, rest := h.next + 1, h.args[1..];
    t := Field(s, h.precision, h.width, h.flags.left, h.flags.padZero);
    var n := if 0 < h.precision < |s| then h.precision else |s|;
    StringStep(h, s);
    StringFieldIs(s, h.precision, h.width, h.flags.left, h.flags.padZero, n);
    SendsStep(f, i, args, t, j, rest);
  }

  lemma StringStep(h: Head, s: cstring)
    requires h.args != [] && (h.args[0] == Str(s) || (h.args[0] == NullStr && s == "[null]"))
    ensures StringAt(h)
      == Out(Field(s, h.precision, h.width, h.flags.left, h.flags.padZero), h.next + 1, h.args[1..])
  {
  }

  lemma StringFieldIs(s: string, precision: uint32, width: uint32, left: bool, zero: bool, n: nat)
    requires precision > 0 || |s| < 4294967296
    requires n == if 0 < precision < |s| then precision else |s|
    ensures Field(s, precision, width, left, zero) == InField(s[..n], width, left, zero)
  {
    FieldLayout(s, precision, width, left, zero);
  }

  /** %c: the low byte of the argument, whatever flags, width, precision and modifier. */
  lemma CharDirective(f: string, i: nat, d: Parts, args: seq<Arg>, v: uint32)
    returns (t: string, j: nat, rest: seq<Arg>)
    requires Stands(f, i, d) && d.Proper(args) && d.letter == 'c'
    requires d.Rest(args) != [] && d.Rest(args)[0] == I32(v) && d.Width(args) <= 128 && d.Precision(args) <= 128
    ensures t == [(v % 256) as char]
    ensures j == i + |d.Text()| && rest == d.Rest(args)[1..] && Sends(f, i, args, t, j, rest)
  {
    var h, m := ReadDirective(f, i, d, args);
    SizeIs(f, h.next, m, d);
    CharStep(f, h, m, v);
    t, j, rest := [(v % 256) as char], m + 1, d.Rest(args)[1..];
    SendsStep(f, i, args, t, j, rest);
  }

  lemma CharStep(f: string, h: Head, m: nat, v: uint32)
    requires h.next <= m < |f| && SizeAt(f, h.next).1 == m && f[m] == 'c' && h.args != [] && h.args[0] == I32(v)
    ensures NumberAt(f, h) == Out([(v % 256) as char], m + 1, h.args[1..])
  {
  }

  /** %H: two hex digits for each of as many characters as the precision says, which may
      take in the NUL; an error without a string or a precision. */
  lemma HexDirective(f: string, i: nat, d: Parts, args: seq<Arg>, s: cstring)
    returns (t: string, j: nat, rest: seq<Arg>)
    requires Stands(f, i, d) && d.Proper(args) && d.modifier == "" && d.letter == 'H'
    requires d.Rest(args) != [] && d.Rest(args)[0] == Str(s) && d.Width(args) <= 128 && d.Precision(args) <= 128
    requires d.Precision(args) <= |s| + 1 && AsciiOnly(s)
    ensures d.Precision(args) == 0 ==> Formatted(f, i, args) == Done("<ERROR>\n", 8)
    ensures j == i + |d.Text()| && rest == d.Rest(args)[1..]
    ensures d.Precision(args) > 0 ==> Sends(f, i, args, t, j, rest)
    ensures DumpOf(t, s + "\0", d.Precision(args)) && HexDigits(t, 'a')
  {
    var h, m := ReadDirective(f, i, d, args);
    assert h.next == m && Peek(f, h.next) == 'H';
    t, j, rest := HexSends(f, i, args, h, s);
  }

  predicate AsciiOnly(s: string) { forall k :: 0 <= k < |s| ==> s[k] as nat < 128 }

  /** Two hex digits for each of the first `n` characters of `u`. */
  predicate DumpOf(t: string, u: string, n: nat)
  {
    |t| == 2 * n <= 2 * |u| && forall k {:trigger u[k]} :: 0 <= k < n ==> ShowsByte(t, k, u[k])
  }

  lemma HexSends(f: string, i: nat, args: seq<Arg>, h: Head, s: cstring)
    returns (t: string, j: nat, rest: seq<Arg>)
    requires i < |f| && StepAt(f, i, args) == HexAt(h) && h.args != [] && h.args[0] == Str(s)
    requires h.precision <= |s| + 1 && AsciiOnly(s)
    ensures j == h.next + 1 && rest == h.args[1..]
    ensures h.precision == 0 ==> Formatted(f, i, args) == Done("<ERROR>\n", 8)
    ensures h.precision > 0 ==> (j <= |f| && Sends(f, i, args, t, j, rest))
    ensures DumpOf(t, s + "\0", h.precision) && HexDigits(t, 'a')
  {
    var u := s + "\0";
    HexStep(h, s);
    HexShowsAll(u, h.precision);
    HexIsSmall(u, h.precision);
    t, j, rest := HexText(u, h.precision), h.next + 1, h.args[1..];
    if h.precision > 0 { SendsStep(f, i, args, t, j, rest); }
  }

  lemma HexStep(h: Head, s: cstring)
    requires h.args != [] && h.args[0] == Str(s) && h.precision <= |s| + 1 && AsciiOnly(s)
    ensures HexAt(h)
      == if h.precision == 0 then Redirect("") else Out(HexText(s + "\0", h.precision), h.next + 1, h.args[1..])
  {
    assert IsAscii(s + "\0", |s| + 1);
  }

  lemma {:induction false} HexIsSmall(u: string, n: nat)
    requires n <= |u|
    ensures HexDigits(HexText(u, n), 'a')
  {
    if n > 0 { HexIsSmall(u, n - 1); }
  }

  lemma HexShowsAll(u: string, n: nat)
    requires n <= |u| && AsciiOnly(u)
    ensures DumpOf(HexText(u, n), u, n)
  {
    forall k | 0 <= k < n
      ensures ShowsByte(HexText(u, n), k, u[k])
    {
      HexShows(u, n, k);
    }
  }

  predicate ShowsByte(t: string, k: nat, c: char)
  {
    2 * k + 1 < |t| && DigitValue(t[2 * k]) * 16 + DigitValue(t[2 * k + 1]) == c as nat
  }

  /** A width or precision above 128 replaces the rest of the format by the error text,
      whatever the letter. */
  lemma TooWide(f: string, i: nat, d: Parts, args: seq<Arg>)
    requires Stands(f, i, d) && d.Proper(args) && (d.Width(args) > 128 || d.Precision(args) > 128)
    ensures Formatted(f, i, args) == Done("<ERROR>\n", 8)
  {
    var h, m := ReadDirective(f, i, d, args);
    assert StepAt(f, i, args) == Redirect("");
  }

  /** More than 67 digits of a number: the error text behind the prefix. */
  lemma TooPrecise(f: string, i: nat, d: Parts, args: seq<Arg>, v: uint64)
    requires Stands(f, i, d) && d.Proper(args) && IsNumberLetter(d.letter)
    requires d.Width(args) <= 128 && 67 < d.Precision(args) <= 128 && TakesNumber(d, d.Rest(args), v)
    ensures var prefix := if d.letter == 'p' then "0x" else if d.letter == 'o' then "0" else "";
      Formatted(f, i, args) == Done(prefix + "<ERROR>\n", |prefix| + 8)
  {
    var h, size, m := NumberStep(f, i, d, args, v);
    LetterMeans(d.letter, false);
    assert StepAt(f, i, args) == Redirect(Prefix(d.letter));
  }

  /** Any other letter ends the output with EOF. */
  lemma UnknownLetter(f: string, i: nat, d: Parts, args: seq<Arg>, v: uint64)
    requires Stands(f, i, d) && d.Proper(args) && !IsNumberLetter(d.letter) && d.letter != 'c'
    requires d.modifier != "" || (d.letter != 's' && d.letter != 'H')
    requires d.Width(args) <= 128 && d.Precision(args) <= 128 && TakesNumber(d, d.Rest(args), v)
    ensures Formatted(f, i, args) == Done("", -1)
  {
    var h, m := ReadDirective(f, i, d, args);
    SizeIs(f, h.next, m, d);
    assert !IsInteger(d.letter);
    assert StepAt(f, i, args) == Fail;
  }
}
