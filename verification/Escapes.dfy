/**
 * What the escapes of vprintfmt print, from the side of whoever writes them: an escape is written out from its
 * options, and the text that it prints is stated without the parser.
 */
module Escapes {
  import opened Wrappers
  import opened Errors
  import opened Mmu
  import opened Strtol
  import opened Printfmt
  import opened Vprintfmt

  /** A width or a precision: not given, in digits, or as '*' with an argument. */
  datatype Size = Absent | InDigits(digits: nat) | Star(arg: Int32)

  datatype Padding = Blank | Zero | Minus

  /** The options of an escape: '#', a padding flag, a width, a precision, and some 'l'. */
  datatype Options = Options(alt: bool, pad: Padding, width: Size, precision: Size, longs: nat)

  /** Digits cannot spell a size of 0: a leading 0 is the padding flag. */
  predicate Writable(o: Options) {
    (o.width.InDigits? ==> o.width.digits > 0) && (o.precision.InDigits? ==> o.precision.digits > 0)
  }

  function SizeText(n: Size): string {
    match n case Absent => "" case InDigits(k) => Numeral(k, 10) case Star(_) => "*"
  }

  function SizeArgs(n: Size): seq<Arg> {
    if n.Star? then [Num(n.arg)] else []
  }

  function AltText(alt: bool): string { if alt then "#" else "" }

  function PadText(pad: Padding): string { match pad case Blank => "" case Zero => "0" case Minus => "-" }

  function PrecisionText(n: Size): string { if n.Absent? then "" else "." + SizeText(n) }

  /** The escape for conversion c, and what of it follows each part. */
  function EscapeText(o: Options, c: char): string { "%" + (AltText(o.alt) + FromPad(o, c)) }

  function FromPad(o: Options, c: char): string { PadText(o.pad) + FromWidth(o, c) }

  function FromWidth(o: Options, c: char): string { SizeText(o.width) + FromPrecision(o, c) }

  function FromPrecision(o: Options, c: char): string { PrecisionText(o.precision) + FromLongs(o.longs, c) }

  function FromLongs(longs: nat, c: char): string { Repeat('l', longs) + [c] }

  /** The arguments that the '*' take. */
  function EscapeArgs(o: Options): seq<Arg> { SizeArgs(o.width) + SizeArgs(o.precision) }

  /** The character to pad with. */
  function PadChar(pad: Padding): char { match pad case Blank => ' ' case Zero => '0' case Minus => '-' }

  function Given(n: Size): int { match n case Absent => -1 case InDigits(digits) => digits case Star(arg) => arg }

  /** The width: what is given; none, or a negative one, counts as 0 in front of a precision. */
  function Width(o: Options): int {
    if !o.precision.Absent? && Given(o.width) < 0 then 0 else Given(o.width)
  }

  function Precision(o: Options): int { Given(o.precision) }

  // ---- what the parser makes of it ----

  /** Text t stands in s at i. */
  predicate Here(s: string, i: nat, t: string) { i + |t| <= |s| && s[i..i + |t|] == t }

  lemma Split(s: string, i: nat, t: string, u: string)
    requires Here(s, i, t + u)
    ensures Here(s, i, t) && Here(s, i + |t|, u)
  {
    var w := t + u;
    assert s[i..i + |t|] == s[i..i + |w|][..|t|] == t;
    assert s[i + |t|..i + |w|] == s[i..i + |w|][|t|..] == u;
  }

  lemma FirstHere(s: string, i: nat, t: string)
    requires Here(s, i, t) && t != ""
    ensures i < |s| && s[i] == t[0] && At(s, i) == t[0]
  {
    assert s[i..i + |t|][0] == s[i];
  }

  lemma {:induction false} ReadsDigits(s: string, i: nat, j: nat, num: nat)
    requires i <= j <= |s| && s[i..j] == Numeral(num, 10)
    ensures ReadWidth(s, i, 0) == ReadWidth(s, j, num)
    decreases num
  {
    hide Numeral, ReadWidth, DigitChar, Quotient, LastDigit;
    NumberUnfolds(num, 10, 0, ' ');
    QuotientAndDigit(num, 10);
    if num >= 10 {
      SplitLast(s, i, j, Numeral(Quotient(num, 10), 10), DigitChar(LastDigit(num, 10)));
      ReadsDigits(s, i, j - 1, Quotient(num, 10));
      ReadsDigit(s, j - 1, Quotient(num, 10), LastDigit(num, 10));
    } else {
      SplitLast(s, i, j, [], DigitChar(LastDigit(num, 10)));
      ReadsDigit(s, i, 0, num);
    }
  }

  lemma ReadsDigit(s: string, i: nat, val: nat, d: nat)
    requires i < |s| && d < 10 && s[i] == DigitChar(d)
    ensures ReadWidth(s, i, val) == ReadWidth(s, i + 1, val * 10 + d)
  {
  }

  lemma ReadsNoMore(s: string, j: nat, num: nat)
    requires j <= |s| && !IsDecimal(At(s, j))
    ensures ReadWidth(s, j, num) == (num, j)
  {
  }

  /** A size that stands at i, with no digit behind it. */
  lemma ReadsSize(s: string, i: nat, n: Size, f: Flags, args: seq<Arg>)
    requires Here(s, i, SizeText(n)) && (n.InDigits? ==> n.digits > 0) && !IsDecimal(At(s, i + |SizeText(n)|))
    ensures Parse(s, i, f, SizeArgs(n) + args) ==
            Parse(s, i + |SizeText(n)|, if n.Absent? then f else SetNumber(f, Given(n)), args)
  {
    hide Here, Parse, Numeral, IsDecimal, SetNumber;
    match n
    case Absent =>
      assert SizeArgs(n) + args == args;
    case Star(k) =>
      FirstHere(s, i, "*");
      assert SizeArgs(n) + args == [Num(k)] + args;
      ReadsStar(s, i, k, f, args);
    case InDigits(k) =>
      assert SizeArgs(n) + args == args;
      ReadsInDigits(s, i, k, f, args);
  }

  lemma ReadsStar(s: string, i: nat, k: Int32, f: Flags, args: seq<Arg>)
    requires i < |s| && s[i] == '*'
    ensures Parse(s, i, f, [Num(k)] + args) == Parse(s, i + 1, SetNumber(f, k), args)
  {
    hide SetNumber, Wrap;
    WrapSmall(k);
    assert ([Num(k)] + args)[1..] == args;
  }

  lemma WrapSmall(k: Int32)
    ensures Wrap(k) == k
  {
  }

  lemma ReadsInDigits(s: string, i: nat, k: nat, f: Flags, args: seq<Arg>)
    requires k > 0 && Here(s, i, Numeral(k, 10)) && !IsDecimal(At(s, i + |Numeral(k, 10)|))
    ensures Parse(s, i, f, args) == Parse(s, i + |Numeral(k, 10)|, SetNumber(f, k), args)
  {
    hide Numeral, ReadWidth, SetNumber, Worth;
    var t := Numeral(k, 10);
    NumeralIsRight(k, 10);
    FirstHere(s, i, t);
    ReadsDigits(s, i, i + |t|, k);
    ReadsNoMore(s, i + |t|, k);
    FirstDigit(s, i);
    assert '1' <= s[i] <= '9';
  }

  lemma FirstDigit(s: string, i: nat)
    requires i < |s| && IsDecimal(s[i])
    ensures ReadWidth(s, i, 0) == ReadWidth(s, i + 1, s[i] as int - '0' as int)
  {
  }

  lemma ReadsAlt(s: string, i: nat, alt: bool, f: Flags, args: seq<Arg>)
    requires Here(s, i, AltText(alt)) && !f.alt
    ensures Parse(s, i, f, args) == Parse(s, i + |AltText(alt)|, f.(alt := alt), args)
  {
    if alt {
      FirstHere(s, i, "#");
    }
  }

  lemma ReadsPad(s: string, i: nat, pad: Padding, f: Flags, args: seq<Arg>)
    requires Here(s, i, PadText(pad)) && f.padc == ' '
    ensures Parse(s, i, f, args) ==
            Parse(s, i + |PadText(pad)|, f.(padc := PadChar(pad)), args)
  {
    if pad != Blank {
      FirstHere(s, i, PadText(pad));
    }
  }

  /** What the precision makes of the flags. */
  function WithPrecision(f: Flags, n: Size): Flags {
    if n.Absent? then f else f.(width := if f.width < 0 then 0 else f.width, precision := Given(n))
  }

  lemma ReadsPrecision(s: string, i: nat, n: Size, f: Flags, args: seq<Arg>)
    requires Here(s, i, PrecisionText(n)) && (n.InDigits? ==> n.digits > 0) && !IsDecimal(At(s, i + |PrecisionText(n)|))
    requires f.precision == -1
    ensures Parse(s, i, f, SizeArgs(n) + args) == Parse(s, i + |PrecisionText(n)|, WithPrecision(f, n), args)
  {
    hide *;
    PrecisionIs(f, n);
    if n.Absent? {
      assert SizeArgs(n) + args == args;
    } else {
      var g := if f.width < 0 then f.(width := 0) else f;
      Split(s, i, ".", SizeText(n));
      FirstHere(s, i, ".");
      ReadsDot(s, i, f, SizeArgs(n) + args);
      ReadsSize(s, i + 1, n, g, args);
    }
  }

  lemma PrecisionIs(f: Flags, n: Size)
    requires f.precision == -1
    ensures n.Absent? ==> PrecisionText(n) == "" && SizeArgs(n) == [] && WithPrecision(f, n) == f
    ensures !n.Absent? ==>
      && PrecisionText(n) == "." + SizeText(n)
      && WithPrecision(f, n) == SetNumber(if f.width < 0 then f.(width := 0) else f, Given(n))
  {
  }

  lemma ReadsDot(s: string, i: nat, f: Flags, args: seq<Arg>)
    requires i < |s| && s[i] == '.'
    ensures Parse(s, i, f, args) == Parse(s, i + 1, if f.width < 0 then f.(width := 0) else f, args)
  {
  }

  lemma {:induction false} ReadsLongs(s: string, i: nat, k: nat, f: Flags, args: seq<Arg>)
    requires Here(s, i, Repeat('l', k))
    ensures Parse(s, i, f, args) == Parse(s, i + k, f.(lflag := f.lflag + k), args)
    decreases k
  {
    hide Parse, Here;
    if k == 0 {
    } else {
      FirstHere(s, i, Repeat('l', k));
      assert Repeat('l', k) == "l" + Repeat('l', k - 1);
      Split(s, i, "l", Repeat('l', k - 1));
      hide Repeat;
      ReadsLong(s, i, f, args);
      ReadsLongs(s, i + 1, k - 1, f.(lflag := f.lflag + 1), args);
    }
  }

  lemma ReadsLong(s: string, i: nat, f: Flags, args: seq<Arg>)
    requires i < |s| && s[i] == 'l'
    ensures Parse(s, i, f, args) == Parse(s, i + 1, f.(lflag := f.lflag + 1), args)
  {
  }

  lemma ReadsEnd(s: string, i: nat, c: char, f: Flags, args: seq<Arg>)
    requires i < |s| && s[i] == c && IsConversion(c)
    ensures Parse(s, i, f, args) == Escape(f, c, i + 1, args)
  {
  }

  lemma NoDigit(s: string, i: nat, longs: nat, c: char)
    requires Here(s, i, FromLongs(longs, c)) && IsConversion(c)
    ensures !IsDecimal(At(s, i))
  {
    hide Here;
    FirstHere(s, i, FromLongs(longs, c));
    hide At;
  }

  lemma ReadsFromLongs(s: string, i: nat, longs: nat, c: char, f: Flags, args: seq<Arg>)
    requires Here(s, i, FromLongs(longs, c)) && IsConversion(c) && f.lflag == 0
    ensures Parse(s, i, f, args) == Escape(f.(lflag := longs), c, i + |FromLongs(longs, c)|, args)
  {
    Split(s, i, Repeat('l', longs), [c]);
    hide Here, Parse, Repeat, IsConversion;
    FirstHere(s, i + longs, [c]);
    ReadsLongs(s, i, longs, f, args);
    ReadsEnd(s, i + longs, c, f.(lflag := longs), args);
  }

  /** The flags that the options stand for, and those of them that come before the precision. */
  function FlagsOf(o: Options): Flags { Flags(PadChar(o.pad), Width(o), Precision(o), o.longs, o.alt) }

  function FlagsBefore(o: Options): Flags { Flags(PadChar(o.pad), Given(o.width), -1, 0, o.alt) }

  lemma FlagsGrow(o: Options)
    ensures var f := FlagsBefore(o);
      var g := WithPrecision(f, o.precision);
      f.precision == -1 && g.lflag == 0 && g.(lflag := o.longs) == FlagsOf(o)
  {
  }

  /** The text of an escape part by part, and what is said of its options. */
  lemma TextSplits(o: Options, c: char)
    ensures EscapeText(o, c) == "%" + (AltText(o.alt) + FromPad(o, c))
    ensures FromPad(o, c) == PadText(o.pad) + FromWidth(o, c)
    ensures FromWidth(o, c) == SizeText(o.width) + FromPrecision(o, c)
    ensures FromPrecision(o, c) == PrecisionText(o.precision) + FromLongs(o.longs, c)
    ensures Writable(o) <==>
      (o.width.InDigits? ==> o.width.digits > 0) && (o.precision.InDigits? ==> o.precision.digits > 0)
  {
    hide AltText, PadText, SizeText, PrecisionText, FromLongs;
  }

  lemma WidthIs(o: Options)
    ensures var f := Flags(PadChar(o.pad), -1, -1, 0, o.alt);
      FlagsBefore(o) == if o.width.Absent? then f else SetNumber(f, Given(o.width))
    ensures EscapeArgs(o) == SizeArgs(o.width) + SizeArgs(o.precision)
    ensures NO_FLAGS == Flags(' ', -1, -1, 0, false)
  {
  }

  lemma ReadsFromPrecision(s: string, i: nat, o: Options, c: char, args: seq<Arg>)
    requires Here(s, i, FromPrecision(o, c)) && IsConversion(c) && Writable(o)
    ensures Parse(s, i, FlagsBefore(o), SizeArgs(o.precision) + args) ==
            Escape(FlagsOf(o), c, i + |FromPrecision(o, c)|, args)
  {
    hide *;
    var j := i + |PrecisionText(o.precision)|;
    var g := WithPrecision(FlagsBefore(o), o.precision);
    TextSplits(o, c);
    FlagsGrow(o);
    Split(s, i, PrecisionText(o.precision), FromLongs(o.longs, c));
    NoDigit(s, j, o.longs, c);
    ReadsPrecision(s, i, o.precision, FlagsBefore(o), args);
    ReadsFromLongs(s, j, o.longs, c, g, args);
  }

  lemma NoDigitAt(s: string, i: nat, o: Options, c: char)
    requires Here(s, i, FromPrecision(o, c)) && IsConversion(c)
    ensures !IsDecimal(At(s, i))
  {
    hide Here;
    var t := FromLongs(o.longs, c);
    if o.precision.Absent? {
      assert PrecisionText(o.precision) + t == t;
      NoDigit(s, i, o.longs, c);
    } else {
      FirstHere(s, i, FromPrecision(o, c));
      hide At;
    }
  }

  lemma ReadsFromWidth(s: string, i: nat, o: Options, c: char, args: seq<Arg>)
    requires Here(s, i, FromWidth(o, c)) && IsConversion(c) && Writable(o)
    ensures Parse(s, i, Flags(PadChar(o.pad), -1, -1, 0, o.alt), EscapeArgs(o) + args) ==
            Escape(FlagsOf(o), c, i + |FromWidth(o, c)|, args)
  {
    hide *;
    var j := i + |SizeText(o.width)|;
    var f := Flags(PadChar(o.pad), -1, -1, 0, o.alt);
    var more := SizeArgs(o.precision) + args;
    TextSplits(o, c);
    WidthIs(o);
    assert EscapeArgs(o) + args == SizeArgs(o.width) + more;
    Split(s, i, SizeText(o.width), FromPrecision(o, c));
    NoDigitAt(s, j, o, c);
    ReadsSize(s, i, o.width, f, more);
    ReadsFromPrecision(s, j, o, c, args);
  }

  lemma ReadsFromPad(s: string, i: nat, o: Options, c: char, args: seq<Arg>)
    requires Here(s, i, FromPad(o, c)) && IsConversion(c) && Writable(o)
    ensures Parse(s, i, Flags(' ', -1, -1, 0, o.alt), EscapeArgs(o) + args) ==
            Escape(FlagsOf(o), c, i + |FromPad(o, c)|, args)
  {
    hide *;
    TextSplits(o, c);
    Split(s, i, PadText(o.pad), FromWidth(o, c));
    ReadsPad(s, i, o.pad, Flags(' ', -1, -1, 0, o.alt), EscapeArgs(o) + args);
    ReadsFromWidth(s, i + |PadText(o.pad)|, o, c, args);
  }

  lemma ParsesEscape(s: string, i: nat, o: Options, c: char, args: seq<Arg>)
    requires Here(s, i, EscapeText(o, c)) && IsConversion(c) && Writable(o)
    ensures i + |EscapeText(o, c)| <= |s| && s[i] == '%'
    ensures Parse(s, i + 1, NO_FLAGS, EscapeArgs(o) + args) == Escape(FlagsOf(o), c, i + |EscapeText(o, c)|, args)
  {
    hide *;
    HereFits(s, i, EscapeText(o, c));
    TextSplits(o, c);
    WidthIs(o);
    Split(s, i, "%", AltText(o.alt) + FromPad(o, c));
    FirstHere(s, i, "%");
    Split(s, i + 1, AltText(o.alt), FromPad(o, c));
    ReadsAlt(s, i + 1, o.alt, NO_FLAGS, EscapeArgs(o) + args);
    ReadsFromPad(s, i + 1 + |AltText(o.alt)|, o, c, args);
  }

  lemma HereFits(s: string, i: nat, t: string)
    requires Here(s, i, t)
    ensures i + |t| <= |s|
  {
  }

  /** An escape in a format prints its conversion, and the format goes on behind it. */
  lemma FormatsEscape(s: string, i: nat, o: Options, c: char, args: seq<Arg>)
    requires Here(s, i, EscapeText(o, c)) && IsConversion(c) && Writable(o)
    ensures var e := Escape(FlagsOf(o), c, i + |EscapeText(o, c)|, args);
      i + |EscapeText(o, c)| <= |s|
      && Format(s, i, EscapeArgs(o) + args) == Converted(e) + Format(s, e.next, ArgsAfter(e))
  {
    hide Here, EscapeText, Parse, IsConversion, Converted, ArgsAfter, Format, FlagsOf, EscapeArgs;
    ParsesEscape(s, i, o, c, args);
    FormatIs(s, i, EscapeArgs(o) + args);
  }

  // ---- what it prints ----

  /** The numeral n, padded on the left. */
  function Padded(o: Options, n: string): string { Repeat(PadChar(o.pad), Width(o) - |n|) + n }

  /**
   * %u, %o and %x print the argument as an unsigned number of 32 bits, or of 64 with two 'l', in base 10, 8 and
   * 16, padded on the left with blanks, zeros or minus signs as the flag says.
   */
  lemma UnsignedEscape(s: string, i: nat, o: Options, c: char, v: int, args: seq<Arg>)
    requires Here(s, i, EscapeText(o, c)) && Writable(o) && (c == 'u' || c == 'o' || c == 'x')
    ensures var size := if o.longs >= 2 then 0x1_0000_0000_0000_0000 else 0x1_0000_0000;
      var n := Numeral(v % size, if c == 'u' then 10 else if c == 'o' then 8 else 16);
      i + |EscapeText(o, c)| <= |s|
      && Format(s, i, EscapeArgs(o) + ([Num(v)] + args)) == Padded(o, n) + Format(s, i + |EscapeText(o, c)|, args)
  {
    hide Here, EscapeText, Format, Number, Numeral, EscapeArgs, Width, PadChar, Precision, Repeat;
    FormatsEscape(s, i, o, c, [Num(v)] + args);
    assert ([Num(v)] + args)[1..] == args;
    var base := if c == 'u' then 10 else if c == 'o' then 8 else 16;
    NumberIsPaddedNumeral(Unsigned(v, o.longs), base, Width(o), PadChar(o.pad));
  }

  /** %d prints a number of that size with its sign in front of the padding. */
  lemma SignedEscape(s: string, i: nat, o: Options, v: int, args: seq<Arg>)
    requires Here(s, i, EscapeText(o, 'd')) && Writable(o)
    requires if o.longs >= 2 then -0x8000_0000_0000_0000 <= v < 0x8000_0000_0000_0000
             else -0x8000_0000 <= v < 0x8000_0000
    ensures i + |EscapeText(o, 'd')| <= |s|
    ensures Format(s, i, EscapeArgs(o) + ([Num(v)] + args)) ==
            (if v < 0 then "-" + Padded(o, Numeral(-v, 10)) else Padded(o, Numeral(v, 10)))
            + Format(s, i + |EscapeText(o, 'd')|, args)
  {
    hide Here, EscapeText, Format, Number, Numeral, EscapeArgs, Width, PadChar, Precision, Repeat;
    FormatsEscape(s, i, o, 'd', [Num(v)] + args);
    assert ([Num(v)] + args)[1..] == args;
    SignedSame(v, o.longs);
    hide SignedArg;
    NumberIsPaddedNumeral(if v < 0 then -v else v, 10, Width(o), PadChar(o.pad));
  }

  lemma SignedSame(v: int, longs: nat)
    requires if longs >= 2 then -0x8000_0000_0000_0000 <= v < 0x8000_0000_0000_0000
             else -0x8000_0000 <= v < 0x8000_0000
    ensures SignedArg(v, longs) == v
  {
  }

  /** %p prints "0x" and then the 32-bit number in base 16. */
  lemma PointerEscape(s: string, i: nat, o: Options, v: int, args: seq<Arg>)
    requires Here(s, i, EscapeText(o, 'p')) && Writable(o)
    ensures i + |EscapeText(o, 'p')| <= |s|
    ensures Format(s, i, EscapeArgs(o) + ([Num(v)] + args)) ==
            "0x" + Padded(o, Numeral(v % 0x1_0000_0000, 16)) + Format(s, i + |EscapeText(o, 'p')|, args)
  {
    hide Here, EscapeText, Format, Number, Numeral, EscapeArgs, Width, PadChar, Precision, Repeat;
    FormatsEscape(s, i, o, 'p', [Num(v)] + args);
    assert ([Num(v)] + args)[1..] == args;
    NumberIsPaddedNumeral(Unsigned(v, 0), 16, Width(o), PadChar(o.pad));
  }

  /** The character at k of what is shown of a string: with '#' only printable ones. */
  lemma {:induction false} VisibleAt(t: string, alt: bool, k: nat)
    requires k < |t|
    ensures Visible(t, alt)[k] == if alt && (t[k] < ' ' || t[k] > '~') then '?' else t[k]
    decreases |t|
  {
    if k == |t| - 1 {
    } else {
      VisibleAt(t[..|t| - 1], alt, k);
    }
  }

  /**
   * %s prints at most as many characters as the precision says, if it is given and not negative; they are padded
   * on the right with blanks after a '-', on the left otherwise.  A null pointer prints as "(null)".
   */
  lemma TextEscape(s: string, i: nat, o: Options, text: Option<string>, args: seq<Arg>)
    requires Here(s, i, EscapeText(o, 's')) && Writable(o)
    ensures i + |EscapeText(o, 's')| <= |s|
    ensures var all := if text.Some? then text.value else "(null)";
      var t := if 0 <= Precision(o) < |all| then all[..Precision(o)] else all;
      var shown := Visible(t, o.alt);
      && |shown| == |t|
      && Format(s, i, EscapeArgs(o) + ([Text(text)] + args)) ==
           (if o.pad == Minus then shown + Repeat(' ', Width(o) - |t|) else Padded(o, shown))
           + Format(s, i + |EscapeText(o, 's')|, args)
  {
    hide Here, EscapeText, Format, EscapeArgs, Width, PadChar, Precision, Given, Repeat, Visible, TextField;
    FormatsEscape(s, i, o, 's', [Text(text)] + args);
    assert ([Text(text)] + args)[1..] == args;
    TextIsPadded(if text.Some? then text.value else "(null)", o);
  }

  lemma TextIsPadded(all: string, o: Options)
    ensures var t := if 0 <= Precision(o) < |all| then all[..Precision(o)] else all;
      var shown := Visible(t, o.alt);
      TextField(all, FlagsOf(o)) ==
        if o.pad == Minus then shown + Repeat(' ', Width(o) - |t|) else Padded(o, shown)
  {
    hide Repeat, Visible, Width, Precision, TextField;
    var f, t := FlagsOf(o), Shown(all, Precision(o));
    var pad := Width(o) - |t|;
    FieldIs(all, f);
    NoRepeat(PadChar(o.pad), pad);
    Around(if Width(o) > 0 && o.pad != Minus then Repeat(PadChar(o.pad), pad) else "", Visible(t, o.alt));
    Around(Visible(t, o.alt), Repeat(' ', pad));
  }

  lemma FieldIs(all: string, f: Flags)
    ensures var t := Shown(all, f.precision);
      var pad := f.width - |t|;
      TextField(all, f) == (if f.width > 0 && f.padc != '-' then Repeat(f.padc, pad) else "")
        + Visible(t, f.alt) + (if f.padc == '-' then Repeat(' ', pad) else "")
  {
    hide Repeat, Visible, Shown;
  }

  lemma Around(s: string, t: string)
    ensures s + t + "" == s + t && "" + s + t == s + t
  {
  }

  /** %c prints the low byte as a character and %% a percent sign, whatever the options. */
  lemma CharEscape(s: string, i: nat, o: Options, v: int, args: seq<Arg>)
    requires Here(s, i, EscapeText(o, 'c')) && Writable(o)
    ensures i + |EscapeText(o, 'c')| <= |s|
    ensures Format(s, i, EscapeArgs(o) + ([Num(v)] + args)) ==
            [(v % 256) as char] + Format(s, i + |EscapeText(o, 'c')|, args)
  {
    hide Here, EscapeText, Format, EscapeArgs, FlagsOf;
    FormatsEscape(s, i, o, 'c', [Num(v)] + args);
    assert ([Num(v)] + args)[1..] == args;
  }

  lemma PercentEscape(s: string, i: nat, o: Options, args: seq<Arg>)
    requires Here(s, i, EscapeText(o, '%')) && Writable(o)
    ensures i + |EscapeText(o, '%')| <= |s|
    ensures Format(s, i, EscapeArgs(o) + args) == "%" + Format(s, i + |EscapeText(o, '%')|, args)
  {
    hide Here, EscapeText, Format, EscapeArgs, FlagsOf;
    FormatsEscape(s, i, o, '%', args);
  }

  /** The text for an error number. */
  predicate SaysError(err: nat, text: string) {
    || (err == 1 && text == "unspecified error")
    || (err == 2 && text == "bad environment")
    || (err == 3 && text == "invalid parameter")
    || (err == 4 && text == "out of memory")
    || (err == 5 && text == "out of environments")
    || (err == 6 && text == "segmentation fault")
    || (err == 7 && text == "env is not recving")
    || (err == 8 && text == "unexpected end of file")
    || ((err == 0 || err > 8) && text == "error " + Numeral(err, 10))
  }

  /** %e prints the text for an error, whatever its sign. */
  lemma ErrorEscape(s: string, i: nat, o: Options, v: int, args: seq<Arg>)
    requires Here(s, i, EscapeText(o, 'e')) && Writable(o) && -0x8000_0000 < v < 0x8000_0000
    ensures i + |EscapeText(o, 'e')| <= |s|
    ensures SaysError(if v < 0 then -v else v, ErrorText(v))
    ensures Format(s, i, EscapeArgs(o) + ([Num(v)] + args)) ==
            ErrorText(v) + Format(s, i + |EscapeText(o, 'e')|, args)
  {
    hide Here, EscapeText, Format, EscapeArgs, FlagsOf, Wrap, SaysError, ErrorText, Writable;
    ErrorTextSays(v);
    WrapSmall(v);
    FormatsEscape(s, i, o, 'e', [Num(v)] + args);
    assert ([Num(v)] + args)[1..] == args;
  }

  lemma ErrorTextSays(v: int)
    ensures SaysError(if v < 0 then -v else v, ErrorText(v))
  {
    var err := if v < 0 then -v else v;
    hide Number, Numeral, Repeat;
    NumberIsPaddedNumeral(err, 10, -1, ' ');
    NoRepeat(' ', -1 - |Numeral(err, 10)|);
    assert "" + Numeral(err, 10) == Numeral(err, 10);
  }

  /** ... so that the error numbers that calls return are named right. */
  lemma ErrorsAreNamed()
    ensures ErrorText(-E_BAD_ENV) == "bad environment" && ErrorText(-E_INVAL) == "invalid parameter"
    ensures ErrorText(-E_NO_MEM) == "out of memory" && ErrorText(-E_NO_FREE_ENV) == "out of environments"
  {
    ErrorTextSays(-E_BAD_ENV);
    ErrorTextSays(-E_INVAL);
    ErrorTextSays(-E_NO_MEM);
    ErrorTextSays(-E_NO_FREE_ENV);
    hide ErrorText;
  }

  /** In short: a format that is one number with a width, with and without the flag '0'. */
  lemma WidthAndZeros(w: nat, flag: string, c: char, v: int)
    requires w > 0 && (flag == "" || flag == "0" || flag == "-") && (c == 'u' || c == 'o' || c == 'x')
    ensures var n := Numeral(v % 0x1_0000_0000, if c == 'u' then 10 else if c == 'o' then 8 else 16);
      var fmt := "%" + flag + Numeral(w, 10) + [c];
      Format(fmt, 0, [Num(v)]) == Repeat(if flag == "" then ' ' else flag[0], w - |n|) + n
  {
    hide Numeral, Repeat, Format;
    var o := Options(false, if flag == "" then Blank else if flag == "0" then Zero else Minus, InDigits(w), Absent, 0);
    assert EscapeText(o, c) == "%" + flag + Numeral(w, 10) + [c];
    assert EscapeArgs(o) == [] && Width(o) == w;
    hide EscapeText, EscapeArgs, Width;
    OnlyEscape(o, c, v);
  }

  lemma OnlyEscape(o: Options, c: char, v: int)
    requires Writable(o) && (c == 'u' || c == 'o' || c == 'x') && EscapeArgs(o) == [] && o.longs < 2
    ensures var n := Numeral(v % 0x1_0000_0000, if c == 'u' then 10 else if c == 'o' then 8 else 16);
      Format(EscapeText(o, c), 0, [Num(v)]) == Padded(o, n)
  {
    var s := EscapeText(o, c);
    hide EscapeText, Numeral, Padded, Format;
    assert s[0..0 + |s|] == s;
    UnsignedEscape(s, 0, o, c, v, []);
    FormatEnds(s, []);
    assert EscapeArgs(o) + ([Num(v)] + []) == [Num(v)];
  }
}
