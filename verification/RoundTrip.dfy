/** What `%d` prints, atoi reads back: when, and what the field looks like. */
module RoundTrip {
  import opened Numbers
  import opened Division
  import opened Text
  import opened Digits
  import opened Atoi
  import opened Format
  import opened Printf

  /** The value stands in a field of exactly max(width, its effective length), at the
      side the `-` flag asks for, unless a string of 2^32 characters or more has no
      precision: then its length is cut to 32 bits. */
  lemma FieldLayout(value: string, precision: uint32, width: uint32, left: bool, zero: bool)
    ensures var s, len := Field(value, precision, width, left, zero), Effective(value, precision);
      && (|s| == Max(width, len) <==> precision > 0 || |value| < 0x1_0000_0000)
      && (precision > 0 || |value| < 0x1_0000_0000 ==>
          if left then s == value[..len] + Pad(|s| - len, ' ')
          else s == Pad(|s| - len, if zero then '0' else ' ') + value[..len])
  {
    if precision == 0 && |value| < 0x1_0000_0000 {
      assert Max(|value|, width) % 0x1_0000_0000 == Max(|value|, width);
    }
  }

  /** What an integer directive shows: a number `x` congruent to the argument, in the
      range of the size asked for; digits that denote its magnitude in the base of the
      letter, as many as it needs or the precision asks for, and letters among them of the
      case of the directive; a prefix; and a sign. */
  lemma IntegerMeans(c: char, size: Size, h: Head, zero: bool, v: nat, next: nat, args: seq<Arg>)
    returns (x: int, digits: string)
    requires IsInteger(c) && Integer(c, size, h, zero, v, next, args).Out?
    ensures (x - v) % size.Modulus() == 0
    ensures if c == 'd' then 0 <= 2 * x + size.Modulus() && 2 * x < size.Modulus() else 0 <= x < size.Modulus()
    ensures c == 'p' || c == 'x' || c == 'X' ==> Denotes(digits, 16) == Abs(x)
    ensures c == 'o' ==> Denotes(digits, 8) == Abs(x)
    ensures c == 'b' ==> Denotes(digits, 2) == Abs(x)
    ensures c == 'd' || c == 'u' ==> Denotes(digits, 10) == Abs(x)
    ensures AsNeeded(digits, h.precision) && |digits| <= Max(h.precision, 64)
    ensures c != 'p' && c != 'x' && c != 'X' ==> AllDigits(digits)
    ensures HexDigits(digits, if c == 'X' || c == 'p' || h.flags.alt then 'A' else 'a')
    ensures var sign := if c == 'd' then SignOf(x, size, h.flags) else "";
      Integer(c, size, h, zero, v, next, args).text
        == (if c == 'p' then "0x" else if c == 'o' then "0" else "")
           + Field(sign + digits, 0, h.width, h.flags.left, zero)
  {
    x := IntegerShows(c, size, h, zero, v, next, args);
    digits := Shown(Abs(x), Base(c), h.precision, HexLetter(c, h.flags.alt));
    LetterMeans(c, h.flags.alt);
    ShownMeans(Abs(x), Base(c), h.precision, HexLetter(c, h.flags.alt));
    ShownLength(x, size, Base(c), h.precision, HexLetter(c, h.flags.alt));
  }

  lemma ShownLength(x: int, size: Size, base: nat, precision: nat, a: char)
    requires 2 <= base <= 16 && (a == 'a' || a == 'A') && Abs(x) < size.Modulus()
    ensures |Shown(Abs(x), base, precision, a)| <= Max(precision, 64)
  {
    LengthOf64(Abs(x), base);
  }

  lemma IntegerShows(c: char, size: Size, h: Head, zero: bool, v: nat, next: nat, args: seq<Arg>) returns (x: int)
    requires IsInteger(c) && Integer(c, size, h, zero, v, next, args).Out?
    ensures (x - v) % size.Modulus() == 0
    ensures if c == 'd' then 0 <= 2 * x + size.Modulus() && 2 * x < size.Modulus() else 0 <= x < size.Modulus()
    ensures var sign := if c == 'd' then SignOf(x, size, h.flags) else "";
      Integer(c, size, h, zero, v, next, args).text
        == Prefix(c) + Field(sign + Shown(Abs(x), Base(c), h.precision, HexLetter(c, h.flags.alt)), 0, h.width,
                             h.flags.left, zero)
  {
    var m := v % size.Modulus();
    x := if c == 'd' then Signed(m, size.Modulus()) else m;
    Congruent(v, size.Modulus());
  }

  /** Base, prefix and letters of a conversion. */
  lemma LetterMeans(c: char, alt: bool)
    requires IsInteger(c)
    ensures c == 'p' || c == 'x' || c == 'X' || c == 'o' || c == 'b' || c == 'd' || c == 'u'
    ensures Base(c) == if c == 'o' then 8 else if c == 'b' then 2 else if c == 'd' || c == 'u' then 10 else 16
    ensures Prefix(c) == if c == 'p' then "0x" else if c == 'o' then "0" else ""
    ensures HexLetter(c, alt) == if c == 'X' || c == 'p' || alt then 'A' else 'a'
  {
  }

  /** At least `precision` digits, at least one, and no zero in front that is not asked for. */
  predicate AsNeeded(digits: string, precision: nat)
  {
    1 <= |digits| && precision <= |digits| && (|digits| > 1 && |digits| > precision ==> digits[0] != '0')
  }

  /** Digits, and letters that begin with `a`. */
  predicate HexDigits(s: string, a: char)
  {
    forall k :: 0 <= k < |s| ==> '0' <= s[k] <= '9' || a as int <= s[k] as int < a as int + 6
  }

  lemma ShownMeans(v: nat, base: nat, precision: nat, a: char)
    requires base == 2 || base == 8 || base == 10 || base == 16
    requires a == 'a' || a == 'A'
    ensures var s := Shown(v, base, precision, a);
      && Denotes(s, base) == v && AsNeeded(s, precision) && HexDigits(s, a) && (base <= 10 ==> AllDigits(s))
  {
    var n := Max(Max(precision, Length(v, base)), 1);
    ShownDenotes(v, base, precision, a);
    NumeralChars(v, base, n, a);
    if n == Length(v, base) { NoZeroInFront(v, base, a); }
  }

  lemma {:induction false} NumeralChars(v: nat, base: nat, n: nat, a: char)
    requires 2 <= base <= 16 && (a == 'a' || a == 'A')
    ensures HexDigits(Numeral(v, base, n, a), a) && (base <= 10 ==> AllDigits(Numeral(v, base, n, a)))
    decreases n
  {
    if n > 0 {
      var q, r := NumeralStep(v, base, n, a);
      NumeralChars(q, base, n - 1, a);
    }
  }

  lemma {:induction false} NoZeroInFront(v: nat, base: nat, a: char)
    requires 2 <= base <= 16 && (a == 'a' || a == 'A') && v > 0
    ensures Length(v, base) > 0 && Numeral(v, base, Length(v, base), a)[0] != '0'
    decreases v
  {
    assert Length(v, base) > 0;
    var q, r := NumeralStep(v, base, Length(v, base), a);
    if q > 0 { NoZeroInFront(q, base, a); }
  }

  lemma Congruent(v: nat, m: nat)
    requires m > 0
    ensures (v % m - v) % m == 0 && (v % m - m - v) % m == 0
  {
    var q := v / m;
    assert v % m - v == m * (-q) && v % m - m - v == m * (-q - 1);
    Multiple(-q, m);
    Multiple(-q - 1, m);
  }

  lemma Multiple(k: int, m: nat)
    requires m > 0
    ensures (m * k) % m == 0
  {
    assert m * k == 0 + k * m;
    var r := (m * k) % m;
    var q := (m * k) / m;
    assert m * k == m * q + r;
    assert m * (k - q) == r;
    if k - q > 0 { MulMono(m, 1, k - q); }
    if k - q < 0 { MulMono(m, 1, q - k); }
  }

  // ---------------------------------------------------------------- reading

  predicate AllDigits(s: string) { forall i :: 0 <= i < |s| ==> IsDigit(s[i]) }

  lemma {:induction false} SkipPad(k: nat, t: string)
    ensures SkipSpaces(Pad(k, ' ') + t) == SkipSpaces(t)
  {
    if k > 0 {
      assert (Pad(k, ' ') + t)[1..] == Pad(k - 1, ' ') + t;
      SkipPad(k - 1, t);
    } else {
      assert Pad(0, ' ') + t == t;
    }
  }

  /** The white space that atoi skips: blanks and the characters from tab to carriage
      return. */
  lemma {:induction false} WhiteSpaceSkipped(w: string, u: string)
    requires forall i :: 0 <= i < |w| ==> w[i] == ' ' || 9 <= w[i] as int <= 13
    ensures Parsed(w + u) == Parsed(u) && Magnitude(w + u) == Magnitude(u)
  {
    if w == "" {
      assert w + u == u;
    } else {
      assert (w + u)[1..] == w[1..] + u;
      WhiteSpaceSkipped(w[1..], u);
    }
  }

  /** Anything else in front of the digits, but one '-', stops atoi at once. */
  lemma OtherStops(u: string)
    requires u != "" && u[0] != ' ' && !(9 <= u[0] as int <= 13) && u[0] != '-' && !('0' <= u[0] <= '9')
    ensures Parsed(u) == 0 && Magnitude(u) == 0
  {
  }

  /** What atoi reads: white space, at most one '-', and digits up to the first character
      that is none. */
  lemma AtoiMeans(w: string, minus: bool, digits: string, rest: string)
    requires forall i :: 0 <= i < |w| ==> w[i] == ' ' || 9 <= w[i] as int <= 13
    requires forall i :: 0 <= i < |digits| ==> '0' <= digits[i] <= '9'
    requires rest == "" || !('0' <= rest[0] <= '9')
    requires digits == "" && !minus && rest != "" ==> rest[0] != '-' && rest[0] != ' ' && !(9 <= rest[0] as int <= 13)
    ensures var t, n: int := w + ((if minus then "-" else "") + (digits + rest)), Denotes(digits, 10);
      Magnitude(t) == n && Parsed(t) == if minus then -n else n
  {
    var u := (if minus then "-" else "") + (digits + rest);
    WhiteSpaceSkipped(w, u);
    SignAndDigitsRead(minus, digits, rest, u);
  }

  lemma SignAndDigitsRead(minus: bool, digits: string, rest: string, u: string)
    requires AllDigits(digits) && (rest == "" || !IsDigit(rest[0]))
      && u == (if minus then "-" else "") + (digits + rest)
    requires digits == "" && !minus && rest != "" ==> rest[0] != '-' && !IsSpace(rest[0])
    ensures var n: int := Denotes(digits, 10); Magnitude(u) == n && Parsed(u) == if minus then -n else n
  {
    if minus {
      ReadsMinus(digits, rest);
    } else {
      ReadsDigits(digits, rest);
      assert u == digits + rest;
    }
  }

  /** Each digit counts ten times the one behind it. */
  lemma DecimalMeans(s: string, c: char)
    requires '0' <= c <= '9'
    ensures Denotes("", 10) == 0 && Denotes(s + [c], 10) == 10 * Denotes(s, 10) + (c as nat - '0' as nat)
  {
    DenotesSnoc(s, c, 10);
  }

  /** The sixteen digits, small and capital. */
  lemma DigitCharacters(k: nat)
    requires k < 16
    ensures CharDigit(k, 'a') == "0123456789abcdef"[k] && CharDigit(k, 'A') == "0123456789ABCDEF"[k]
    ensures DigitValue("0123456789abcdef"[k]) == DigitValue("0123456789ABCDEF"[k]) == k
  {
  }

  lemma {:induction false} PrefixOf(digits: string, rest: string)
    requires AllDigits(digits) && (rest == "" || !IsDigit(rest[0]))
    ensures DigitPrefix(digits + rest) == digits
  {
    if digits != "" {
      assert (digits + rest)[1..] == digits[1..] + rest;
      PrefixOf(digits[1..], rest);
      assert [digits[0]] + digits[1..] == digits;
    } else {
      assert digits + rest == rest;
    }
  }

  lemma {:induction false} ZerosInFront(k: nat, digits: string)
    ensures Denotes(Pad(k, '0') + digits, 10) == Denotes(digits, 10)
    decreases |digits|, k
  {
    if digits != "" {
      var s := Pad(k, '0') + digits;
      assert s[..|s| - 1] == Pad(k, '0') + digits[..|digits| - 1];
      ZerosInFront(k, digits[..|digits| - 1]);
    } else if k > 0 {
      var s := Pad(k, '0') + digits;
      assert s[..|s| - 1] == Pad(k - 1, '0') + "";
      ZerosInFront(k - 1, "");
    }
  }

  // Neither a space nor a '-' in front: what follows the digits is not read.
  lemma ReadsDigits(digits: string, rest: string)
    requires AllDigits(digits) && (rest == "" || !IsDigit(rest[0]))
    requires digits == "" && rest != "" ==> rest[0] != '-' && !IsSpace(rest[0])
    ensures Magnitude(digits + rest) == Parsed(digits + rest) == Denotes(digits, 10)
  {
    var t := digits + rest;
    PrefixOf(digits, rest);
    assert t != "" ==> t[0] == (if digits == "" then rest[0] else digits[0]);
  }

  lemma ReadsMinus(digits: string, rest: string)
    requires AllDigits(digits) && (rest == "" || !IsDigit(rest[0]))
    ensures Magnitude("-" + (digits + rest)) == Denotes(digits, 10)
    ensures Parsed("-" + (digits + rest)) == 0 - Denotes(digits, 10)
  {
    PrefixOf(digits, rest);
    assert ("-" + (digits + rest))[1..] == digits + rest;
  }

  lemma SpacesIgnored(k: nat, t: string)
    ensures Magnitude(Pad(k, ' ') + t) == Magnitude(t) && Parsed(Pad(k, ' ') + t) == Parsed(t)
  {
    SkipPad(k, t);
  }

  lemma {:induction false} NumeralDigits(v: nat, n: nat, a: char)
    requires a == 'a' || a == 'A'
    ensures AllDigits(Numeral(v, 10, n, a))
    decreases n
  {
    if n > 0 { NumeralDigits(v / 10, n - 1, a); }
  }

  // ---------------------------------------------------------------- printing

  /** `f` is one `%d` directive, with head `h`, and `x` its argument. */
  predicate PrintsDecimal(f: string, args: seq<Arg>, h: Head, x: int32)
  {
    && f != "" && f[0] == '%' && HeadAt(f, 1, args) == Some(h)
    && h.next + 1 == |f| && f[h.next] == 'd'
    && h.width <= MAX_FORMAT && h.precision < BUFFER - 1
    && h.args == [I32(if x < 0 then x + 0x1_0000_0000 else x)]
  }

  /** The text it stands for. */
  function Decimal(h: Head, x: int32): string
  {
    NumberField('d', Abs(x), SignOf(x, Bits32, h.flags), h, h.flags.padZero)
  }

  lemma DecimalInteger(h: Head, x: int32, next: nat)
    requires h.precision < BUFFER - 1
    ensures var v := if x < 0 then x + 0x1_0000_0000 else x;
      Integer('d', Bits32, h, h.flags.padZero, v, next, []) == Out(Decimal(h, x), next, [])
  {
    TwosComplement(x);
    assert "" + Decimal(h, x) == Decimal(h, x);
  }

  lemma TwosComplement(x: int32)
    ensures var v := if x < 0 then x + 0x1_0000_0000 else x; v % 0x1_0000_0000 == v && Signed(v, 0x1_0000_0000) == x
  {
  }

  lemma NotPercent(f: string, args: seq<Arg>, h: Head, x: int32)
    requires PrintsDecimal(f, args, h, x)
    ensures |f| > 1 && f[1] != '%'
  {
  }

  lemma PrintsItsText(f: string, args: seq<Arg>, h: Head, x: int32)
    requires PrintsDecimal(f, args, h, x)
    ensures Formatted(f, 0, args) == Done(Decimal(h, x), |Decimal(h, x)|)
  {
    var t := Decimal(h, x);
    NotPercent(f, args, h, x);
    DecimalInteger(h, x, |f|);
    assert NumberAt(f, h) == Out(t, |f|, []);
    assert StepAt(f, 0, args) == Out(t, |f|, []);
    assert t + "" == t;
  }

  /** Zeros fill the field in front of the sign. */
  predicate ZeroFilled(h: Head, x: int32)
  {
    h.flags.padZero && !h.flags.left && |SignOf(x, Bits32, h.flags)| + |Shown(Abs(x), 10, h.precision, 'a')| < h.width
  }

  /** The exact condition: not a '+', which atoi does not know, in front of anything but
      zero, and no zeros in front of a sign. */
  predicate ReadsBack(h: Head, x: int32)
  {
    x == 0 || !((h.flags.addSign && x > 0) || (ZeroFilled(h, x) && SignOf(x, Bits32, h.flags) != ""))
  }

  // The shapes of the text: spaces, zeros or nothing, then sign and digits.
  lemma Shapes(h: Head, x: int32, sign: string, shown: string)
    requires sign == SignOf(x, Bits32, h.flags) && shown == Shown(Abs(x), 10, h.precision, HexLetter('d', h.flags.alt))
    requires h.precision < BUFFER
    ensures var k := Sub(h.width, |sign + shown|);
      Decimal(h, x) == if h.flags.left then (sign + shown) + Pad(k, ' ')
        else Pad(k, if h.flags.padZero then '0' else ' ') + (sign + shown)
  {
    LengthOf64(Abs(x), 10);
    FieldLayout(sign + shown, 0, h.width, h.flags.left, h.flags.padZero);
    assert (sign + shown)[..|sign + shown|] == sign + shown;
  }

  lemma ShownDigits(v: nat, precision: nat, a: char)
    requires a == 'a' || a == 'A'
    ensures AllDigits(Shown(v, 10, precision, a)) && Denotes(Shown(v, 10, precision, a), 10) == v
    ensures |Shown(v, 10, precision, a)| == |Shown(v, 10, precision, 'a')| >= 1
  {
    ShownDenotes(v, 10, precision, a);
    ShownDenotes(v, 10, precision, 'a');
    NumeralDigits(v, Max(Max(precision, Length(v, 10)), 1), a);
  }

  // A sign, digits, and what follows, after `k` spaces.
  lemma SignedReads(k: nat, sign: string, digits: string, rest: string)
    requires AllDigits(digits) && |digits| >= 1 && (rest == "" || !IsDigit(rest[0]))
    requires sign == "" || sign == "-" || sign == "+" || sign == " "
    ensures var t, d: int := Pad(k, ' ') + (sign + (digits + rest)), Denotes(digits, 10);
      && Magnitude(t) == (if sign == "+" then 0 else d)
      && Parsed(t) == (if sign == "+" then 0 else if sign == "-" then -d else d)
  {
    var u := digits + rest;
    SpacesIgnored(k, sign + u);
    if sign == "-" {
      ReadsMinus(digits, rest);
    } else if sign == "+" {
      ReadsDigits("", "+" + u);
      assert "" + ("+" + u) == "+" + u;
    } else {
      ReadsDigits(digits, rest);
      SpacesIgnored(|sign|, u);
      assert Pad(|sign|, ' ') == sign;
    }
  }

  lemma ZerosDigitsRead(zeros: string, k: nat, digits: string)
    requires zeros == Pad(k, '0') && AllDigits(digits)
    ensures Magnitude(zeros + digits) == Parsed(zeros + digits) == Denotes(digits, 10)
  {
    ZerosInFront(k, digits);
    var t := zeros + digits;
    assert AllDigits(t);
    ReadsDigits(t, "");
    assert t + "" == t;
  }

  // Zeros, then a sign that atoi stops at.
  lemma ZerosStop(zeros: string, k: nat, rest: string)
    requires k > 0 && zeros == Pad(k, '0') && rest != "" && !IsDigit(rest[0])
    ensures Magnitude(zeros + rest) == Parsed(zeros + rest) == 0
  {
    ZerosInFront(k, "");
    assert zeros + "" == zeros;
    ReadsDigits(zeros, rest);
  }

  lemma Regroup(none: string, a: string, b: string, c: string)
    requires none == ""
    ensures (a + b) + c == none + (a + (b + c))
  {
  }

  lemma LeftReads(k: nat, sign: string, digits: string)
    requires AllDigits(digits) && |digits| >= 1
    requires sign == "" || sign == "-" || sign == "+" || sign == " "
    ensures var t := (sign + digits) + Pad(k, ' ');
      var d: int := if sign == "+" then 0 else Denotes(digits, 10);
      Magnitude(t) == d && Parsed(t) == if sign == "-" then -d else d
  {
    var rest := Pad(k, ' ');
    assert rest == "" || rest[0] == ' ';
    SignedReads(0, sign, digits, rest);
    Regroup(Pad(0, ' '), sign, digits, rest);
  }

  // A sign and digits in a field with `k` characters of padding.
  lemma FieldReads(k: nat, left: bool, zero: bool, sign: string, digits: string)
    requires AllDigits(digits) && |digits| >= 1
    requires sign == "" || sign == "-" || sign == "+" || sign == " "
    ensures var t := if left then (sign + digits) + Pad(k, ' ')
        else Pad(k, if zero then '0' else ' ') + (sign + digits);
      var d: int := if sign == "+" || (k > 0 && zero && !left && sign != "") then 0 else Denotes(digits, 10);
      Magnitude(t) == d && Parsed(t) == if sign == "-" then -d else d
  {
    if left {
      LeftReads(k, sign, digits);
    } else if k == 0 || !zero {
      SignedReads(k, sign, digits, "");
      assert digits + "" == digits;
      assert k == 0 ==> Pad(k, '0') == Pad(k, ' ');
    } else if sign == "" {
      ZerosDigitsRead(Pad(k, '0'), k, digits);
      assert sign + digits == digits;
    } else {
      ZerosStop(Pad(k, '0'), k, sign + digits);
    }
  }

  /** The round trip, for every int, flag, width and precision. The text shows the number
      exactly when ReadsBack holds. Its magnitude fits the accumulator of atoi, an int,
      except that of INT_MIN where ReadsBack holds; so atoi gives the number back exactly
      when ReadsBack holds and the number is not INT_MIN. */
  lemma DecimalReadsBack(h: Head, x: int32)
    requires h.width <= MAX_FORMAT && h.precision < BUFFER - 1
    ensures Magnitude(Decimal(h, x)) <= Abs(x)
    ensures Parsed(Decimal(h, x)) == x <==> ReadsBack(h, x)
    ensures Magnitude(Decimal(h, x)) <= INT_MAX <==> x != INT_MIN || !ReadsBack(h, x)
    ensures Magnitude(Decimal(h, x)) <= INT_MAX && Parsed(Decimal(h, x)) == x <==> ReadsBack(h, x) && x != INT_MIN
  {
    var sign, shown := SignOf(x, Bits32, h.flags), Shown(Abs(x), 10, h.precision, HexLetter('d', h.flags.alt));
    Shapes(h, x, sign, shown);
    ShownDigits(Abs(x), h.precision, HexLetter('d', h.flags.alt));
    FieldReads(Sub(h.width, |sign + shown|), h.flags.left, h.flags.padZero, sign, shown);
  }

  lemma FieldIsCString(pad: string, sign: string, digits: string)
    requires IsCString(pad) && IsCString(sign) && AllDigits(digits)
    ensures IsCString((sign + digits) + pad) && IsCString(pad + (sign + digits))
  {
    assert IsCString(digits);
  }

  lemma DecimalIsCString(h: Head, x: int32)
    requires h.precision < BUFFER
    ensures IsCString(Decimal(h, x))
  {
    var sign, shown := SignOf(x, Bits32, h.flags), Shown(Abs(x), 10, h.precision, HexLetter('d', h.flags.alt));
    var k := Sub(h.width, |sign + shown|);
    Shapes(h, x, sign, shown);
    ShownDigits(Abs(x), h.precision, HexLetter('d', h.flags.alt));
    FieldIsCString(Pad(k, ' '), sign, shown);
    FieldIsCString(Pad(k, '0'), sign, shown);
  }

  /** snprintf, then atoi of the string it left. */
  method PrintThenParse(str: array<char>, n: nat, f: cstring, args: seq<Arg>, ghost h: Head, ghost x: int32)
    returns (r: int32)
    requires PrintsDecimal(f, args, h, x) && (x != INT_MIN || !ReadsBack(h, x))
    requires |Decimal(h, x)| < n <= str.Length
    modifies str
    ensures r == x <==> ReadsBack(h, x)
  {
    PrintsItsText(f, args, h, x);
    DecimalReadsBack(h, x);
    DecimalIsCString(h, x);
    var len := Snprintf(str, n, Some(f), args);
    assert str[..len] == Decimal(h, x);
    r := Atoi.Atoi(str[..len]);
  }
}
