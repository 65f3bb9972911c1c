/** vprintfmt and vsnprintf of lib/printfmt.c; format and string arguments are given without their final NUL. */
module Vprintfmt {
  import opened Wrappers
  import opened Errors
  import opened Mmu
  import opened Strtol
  import opened Printfmt

  /** An argument of the variable list. */
  datatype Arg = Num(value: int) | Text(text: Option<string>)

  /** What the flag characters of an escape set. */
  datatype Flags = Flags(padc: char, width: int, precision: int, lflag: nat, alt: bool)

  const NO_FLAGS := Flags(' ', -1, -1, 0, false)

  /** A parsed escape: its flags, its conversion character, where it ends, and the arguments left. */
  datatype Escape = Escape(flags: Flags, ch: char, next: nat, args: seq<Arg>)

  /** va_arg; taking an argument that is missing or of another type is undefined in C, and 0 or NULL here. */
  function NextNum(args: seq<Arg>): int {
    if args != [] && args[0].Num? then args[0].value else 0
  }

  function NextText(args: seq<Arg>): Option<string> {
    if args != [] && args[0].Text? then args[0].text else None
  }

  function Rest(args: seq<Arg>): seq<Arg> {
    if args == [] then [] else args[1..]
  }

  predicate IsDecimal(c: char) { '0' <= c <= '9' }

  /** The loop that reads a width: the digits from i on, added to val, and where they end. */
  function ReadWidth(fmt: string, i: nat, val: nat): (r: (nat, nat))
    requires i <= |fmt|
    ensures i <= r.1 <= |fmt|
    ensures forall k :: i <= k < r.1 ==> fmt[k] != '%'
    decreases |fmt| - i
  {
    if IsDecimal(At(fmt, i)) then ReadWidth(fmt, i + 1, val * 10 + (fmt[i] as int - '0' as int)) else (val, i)
  }

  /** process_precision: the first number is the width, the next the precision. */
  function SetNumber(f: Flags, n: int): Flags {
    if f.width < 0 then f.(width := n, precision := -1) else f.(precision := n)
  }

  predicate IsFlag(c: char) { c == '-' || IsDecimal(c) || c == '*' || c == '.' || c == '#' || c == 'l' }

  /** The switch, run from position i until it meets a character that is no flag. */
  function Parse(fmt: string, i: nat, f: Flags, args: seq<Arg>): (e: Escape)
    requires i <= |fmt|
    ensures i < e.next <= |fmt| + 1 && !IsFlag(e.ch) && e.ch == At(fmt, e.next - 1)
    ensures forall k :: i <= k < e.next - 1 ==> fmt[k] != '%'
    decreases |fmt| - i
  {
    var ch := At(fmt, i);
    if ch == '-' then Parse(fmt, i + 1, f.(padc := '-'), args)
    else if ch == '0' then Parse(fmt, i + 1, f.(padc := '0'), args)
    else if '1' <= ch <= '9' then
      var (n, j) := ReadWidth(fmt, i + 1, ch as int - '0' as int);
      Parse(fmt, j, SetNumber(f, n), args)
    else if ch == '*' then Parse(fmt, i + 1, SetNumber(f, Wrap(NextNum(args))), Rest(args))
    else if ch == '.' then Parse(fmt, i + 1, if f.width < 0 then f.(width := 0) else f, args)
    else if ch == '#' then Parse(fmt, i + 1, f.(alt := true), args)
    else if ch == 'l' then Parse(fmt, i + 1, f.(lflag := f.lflag + 1), args)
    else Escape(f, ch, i + 1, args)
  }

  /** getuint and getint: int and long have 32 bits, long long has 64. */
  function Unsigned(value: int, lflag: nat): nat {
    if lflag >= 2 then value % 0x1_0000_0000_0000_0000 else value % 0x1_0000_0000
  }

  function SignedArg(value: int, lflag: nat): int {
    if lflag >= 2 then (value + 0x8000_0000_0000_0000) % 0x1_0000_0000_0000_0000 - 0x8000_0000_0000_0000
    else Wrap(value)
  }

  /** error_string. */
  function ErrorString(err: nat): Option<string> {
    match err
    case 1 => Some("unspecified error")
    case 2 => Some("bad environment")
    case 3 => Some("invalid parameter")
    case 4 => Some("out of memory")
    case 5 => Some("out of environments")
    case 6 => Some("segmentation fault")
    case 7 => Some("env is not recving")
    case 8 => Some("unexpected end of file")
    case _ => None
  }

  function ErrorText(err: int): string {
    var e := if err < 0 then -err else err;
    match ErrorString(e)
    case Some(s) => s
    case None => "error " + Signed(e, -1, ' ')
  }

  /** The first characters of a string argument that are printed. */
  function Shown(s: string, precision: int): (r: string)
    ensures r <= s
  {
    if 0 <= precision < |s| then s[..precision] else s
  }

  function Visible(s: string, alt: bool): (r: string)
    ensures |r| == |s|
  {
    if s == [] then []
    else
      var c := s[|s| - 1];
      Visible(s[..|s| - 1], alt) + [if alt && (c < ' ' || c > '~') then '?' else c]
  }

  /** A string conversion: padded on the left, or on the right with spaces. */
  function TextField(s: string, f: Flags): string {
    var t := Shown(s, f.precision);
    var pad := f.width - |t|;
    (if f.width > 0 && f.padc != '-' then Repeat(f.padc, pad) else "")
    + Visible(t, f.alt)
    + (if f.padc == '-' then Repeat(' ', pad) else "")
  }

  predicate IsConversion(c: char) {
    c == 'c' || c == 'e' || c == 's' || c == 'd' || c == 'u' || c == 'o' || c == 'p' || c == 'x' || c == '%'
  }

  /** What a conversion prints. */
  function Converted(e: Escape): string
    requires IsConversion(e.ch)
  {
    var f, n := e.flags, NextNum(e.args);
    match e.ch
    case 'c' => [(n % 256) as char]
    case 'e' => ErrorText(Wrap(n))
    case 's' => TextField(match NextText(e.args) case Some(s) => s case None => "(null)", f)
    case 'd' => Signed(SignedArg(n, f.lflag), f.width, f.padc)
    case 'u' => Number(Unsigned(n, f.lflag), 10, f.width, f.padc)
    case 'o' => Number(Unsigned(n, f.lflag), 8, f.width, f.padc)
    case 'p' => "0x" + Number(Unsigned(n, 0), 16, f.width, f.padc)
    case 'x' => Number(Unsigned(n, f.lflag), 16, f.width, f.padc)
    case _ => "%"
  }

  /** The arguments left after a conversion. */
  function ArgsAfter(e: Escape): seq<Arg> {
    if e.ch == '%' then e.args else Rest(e.args)
  }

  /** Everything vprintfmt prints from position i on. */
  function Format(fmt: string, i: nat, args: seq<Arg>): string
    requires i <= |fmt|
    decreases |fmt| - i
  {
    if i == |fmt| then ""
    else if fmt[i] != '%' then [fmt[i]] + Format(fmt, i + 1, args)
    else
      var e := Parse(fmt, i + 1, NO_FLAGS, args);
      if IsConversion(e.ch) then Converted(e) + Format(fmt, e.next, ArgsAfter(e))
      else "%" + Format(fmt, i + 1, e.args)
  }

  /** One turn of Format. */
  lemma FormatIs(fmt: string, i: nat, args: seq<Arg>)
    requires i < |fmt|
    ensures Format(fmt, i, args) ==
            if fmt[i] != '%' then [fmt[i]] + Format(fmt, i + 1, args)
            else
              var e := Parse(fmt, i + 1, NO_FLAGS, args);
              if IsConversion(e.ch) then Converted(e) + Format(fmt, e.next, ArgsAfter(e))
              else "%" + Format(fmt, i + 1, e.args)
  {
    hide Parse, Converted, ArgsAfter;
  }

  // ---- what a format prints ----

  /** Text without escapes is printed as it is. */
  lemma {:induction false} PlainText(fmt: string, i: nat, j: nat, args: seq<Arg>)
    requires i <= j <= |fmt| && forall k :: i <= k < j ==> fmt[k] != '%'
    ensures Format(fmt, i, args) == fmt[i..j] + Format(fmt, j, args)
    decreases j - i
  {
    hide Parse, Converted, Format;
    if i < j {
      FormatIs(fmt, i, args);
      PlainText(fmt, i + 1, j, args);
      assert fmt[i..j] == [fmt[i]] + fmt[i + 1..j];
    } else {
      assert fmt[i..j] == "";
    }
  }

  /**
   * A malformed escape, even one cut off by the end of the format, is printed as it stands up to the
   * character that made it malformed; printing goes on from there, without the arguments that '*' took.
   */
  lemma MalformedIsLiteral(fmt: string, i: nat, args: seq<Arg>)
    requires i < |fmt| && fmt[i] == '%' && !IsConversion(Parse(fmt, i + 1, NO_FLAGS, args).ch)
    ensures var e := Parse(fmt, i + 1, NO_FLAGS, args);
      i < e.next - 1 <= |fmt| && Format(fmt, i, args) == fmt[i..e.next - 1] + Format(fmt, e.next - 1, e.args)
  {
    hide Format, Parse, Converted, IsConversion;
    var e := Parse(fmt, i + 1, NO_FLAGS, args);
    PercentAlone(fmt, i, args);
    PlainText(fmt, i + 1, e.next - 1, e.args);
    assert fmt[i..e.next - 1] == [fmt[i]] + fmt[i + 1..e.next - 1];
    assert "%" == [fmt[i]];
  }

  lemma PercentAlone(fmt: string, i: nat, args: seq<Arg>)
    requires i < |fmt| && fmt[i] == '%' && !IsConversion(Parse(fmt, i + 1, NO_FLAGS, args).ch)
    ensures Format(fmt, i, args) == "%" + Format(fmt, i + 1, Parse(fmt, i + 1, NO_FLAGS, args).args)
  {
    hide Parse, Converted, IsConversion;
  }

  /** The base of a number conversion. */
  function BaseOf(c: char): nat
    requires c == 'd' || c == 'u' || c == 'o' || c == 'x'
  {
    if c == 'o' then 8 else if c == 'x' then 16 else 10
  }

  /**
   * Print and parse through a format that is one number escape, with any flags, width and precision but
   * not '-' or 'l': strtol returns the argument as a 32-bit number.  A negative %d must not be padded
   * with spaces.
   */
  lemma FormatThenParse(fmt: string, args: seq<Arg>)
    requires fmt != "" && fmt[0] == '%'
    requires var e := Parse(fmt, 1, NO_FLAGS, args);
      && e.next == |fmt| && (e.ch == 'd' || e.ch == 'u' || e.ch == 'o' || e.ch == 'x')
      && e.flags.lflag == 0 && (e.flags.padc == ' ' || e.flags.padc == '0')
      && (e.ch == 'd' && Wrap(NextNum(e.args)) < 0 ==>
            e.flags.padc == '0' || e.flags.width <= |Numeral(0 - Wrap(NextNum(e.args)), 10)|)
    ensures var e := Parse(fmt, 1, NO_FLAGS, args);
      var t := Format(fmt, 0, args);
      Value(t, BaseOf(e.ch)) == (Wrap(NextNum(e.args)), |t|)
  {
    hide Parse, Number, Numeral, Value, Wrap, ErrorText, TextField;
    var e := Parse(fmt, 1, NO_FLAGS, args);
    var f, n := e.flags, NextNum(e.args);
    assert Format(fmt, 0, args) == Converted(e) + "" == Converted(e);
    WrapTwice(n);
    hide Format;
    if e.ch == 'd' && Wrap(n) < 0 {
      RoundTripNegative(Wrap(n), f.width, f.padc);
    } else if e.ch == 'd' {
      RoundTrip(Wrap(n), 10, f.width, f.padc);
    } else {
      RoundTrip(Unsigned(n, f.lflag), BaseOf(e.ch), f.width, f.padc);
    }
  }

  lemma WrapTwice(n: int)
    ensures Wrap(Wrap(n)) == Wrap(n) && Wrap(Unsigned(n, 0)) == Wrap(n)
  {
  }

  lemma {:induction false} VisibleAsIs(s: string)
    ensures Visible(s, false) == s
  {
    if s == "" {
    } else {
      VisibleAsIs(s[..|s| - 1]);
    }
  }

  /** A format that ends with one conversion without flags. */
  lemma LastConversion(fmt: string, i: nat, args: seq<Arg>)
    requires i + 2 == |fmt| && fmt[i] == '%' && IsConversion(fmt[i + 1])
    ensures Format(fmt, i, args) == Converted(Escape(NO_FLAGS, fmt[i + 1], |fmt|, args))
  {
    hide Converted;
    var e := Escape(NO_FLAGS, fmt[i + 1], |fmt|, args);
    assert Parse(fmt, i + 1, NO_FLAGS, args) == e;
    hide Parse;
    assert Format(fmt, |fmt|, ArgsAfter(e)) == "";
    assert Converted(e) + "" == Converted(e);
  }

  /** The two calls of printfmt that %e makes print what the model prints for it directly. */
  lemma ErrorTextIsFormat(err: nat)
    requires err < 0x8000_0000
    ensures ErrorText(err) ==
            if ErrorString(err) == None then Format("error %d", 0, [Num(err)])
            else Format("%s", 0, [Text(ErrorString(err))])
  {
    hide Format, Number, Parse, Visible;
    match ErrorString(err)
    case None =>
      PlainText("error %d", 0, 6, [Num(err)]);
      assert "error %d"[0..6] == "error ";
      LastConversion("error %d", 6, [Num(err)]);
      assert SignedArg(err, 0) == err;
    case Some(s) =>
      VisibleAsIs(s);
      LastConversion("%s", 0, [Text(Some(s))]);
  }

  // ---- the code ----

  /** The switch with its goto reswitch, up to the conversion character. */
  method ParseEscape(fmt: string, i0: nat, args0: seq<Arg>) returns (e: Escape)
    requires i0 <= |fmt|
    ensures e == Parse(fmt, i0, NO_FLAGS, args0)
  {
    var i, f, args := i0, NO_FLAGS, args0;
    while true
      invariant i <= |fmt| && Parse(fmt, i, f, args) == Parse(fmt, i0, NO_FLAGS, args0)
      decreases |fmt| - i
    {
      var ch := At(fmt, i);
      i := i + 1;
      if ch == '-' {
        f := f.(padc := '-');
      } else if ch == '0' {
        f := f.(padc := '0');
      } else if '1' <= ch <= '9' {
        var n;
        n, i := ReadWidthFrom(fmt, i, ch as int - '0' as int);
        f := SetNumber(f, n);
      } else if ch == '*' {
        f, args := SetNumber(f, Wrap(NextNum(args))), Rest(args);
      } else if ch == '.' {
        if f.width < 0 {
          f := f.(width := 0);
        }
      } else if ch == '#' {
        f := f.(alt := true);
      } else if ch == 'l' {
        f := f.(lflag := f.lflag + 1);
      } else {
        return Escape(f, ch, i, args);
      }
    }
  }

  method ReadWidthFrom(fmt: string, i: nat, first: nat) returns (val: nat, j: nat)
    requires i <= |fmt|
    ensures (val, j) == ReadWidth(fmt, i, first)
  {
    val, j := first, i;
    while '0' <= At(fmt, j) <= '9'
      invariant j <= |fmt| && ReadWidth(fmt, j, val) == ReadWidth(fmt, i, first)
      decreases |fmt| - j
    {
      val, j := val * 10 + (At(fmt, j) as int - '0' as int), j + 1;
    }
  }

  /** %d: the sign comes before the padding. */
  method PrintSigned(b: SprintBuf, v: int, width: int, padc: char)
    requires b.Valid()
    modifies b, b.text
    ensures b.Valid() && b.emitted == old(b.emitted) + Signed(v, width, padc)
  {
    hide Number, Repeat;
    if v < 0 {
      b.PutCh('-');
      b.PrintNum(-v, 10, width, padc);
    } else {
      b.PrintNum(v, 10, width, padc);
    }
  }

  /** strnlen; a negative precision is a very large size. */
  method StrNLen(s: string, size: int) returns (n: nat)
    ensures n == |Shown(s, size)|
  {
    n := 0;
    while (size < 0 || n < size) && n < |s|
      invariant n <= |s| && (size >= 0 ==> n <= size)
    {
      n := n + 1;
    }
  }

  /** %s. */
  method PrintText(b: SprintBuf, s: string, f: Flags)
    requires b.Valid()
    modifies b, b.text
    ensures b.Valid() && b.emitted == old(b.emitted) + TextField(s, f)
  {
    var width := f.width;
    ghost var before, left := b.emitted, "";
    hide Repeat, Visible, SprintBuf.Valid, Shown, TextField;
    if width > 0 && f.padc != '-' {
      var n := StrNLen(s, f.precision);
      width := width - n;
      b.PutPad(f.padc, width);
      left := Repeat(f.padc, width);
      width := if width > 0 then 0 else width;
    }
    var n := PrintChars(b, s, f.precision, f.alt);
    b.PutPad(' ', width - n);
    TextParts(s, f, left, width, before);
  }

  /** A text field put behind other text, part by part. */
  lemma TextParts(s: string, f: Flags, left: string, width: int, before: string)
    requires var pad := f.width - |Shown(s, f.precision)|;
      if f.width > 0 && f.padc != '-' then left == Repeat(f.padc, pad) && width == if pad > 0 then 0 else pad
      else left == "" && width == f.width
    ensures var t := Shown(s, f.precision);
      before + left + Visible(t, f.alt) + Repeat(' ', width - |t|) == before + TextField(s, f)
  {
    hide Repeat, Visible, Shown;
    var t := Shown(s, f.precision);
    NoRepeat(' ', width - |t|);
    var right := if f.padc == '-' then Repeat(' ', f.width - |t|) else "";
    assert right == Repeat(' ', width - |t|);
    assert TextField(s, f) == left + Visible(t, f.alt) + right;
    hide TextField;
    ThreeParts(before, left, Visible(t, f.alt), right);
  }

  lemma ThreeParts(s: string, t: string, u: string, w: string)
    ensures s + t + u + w == s + (t + u + w)
  {
  }

  lemma NoRepeat(c: char, n: int)
    ensures n <= 0 ==> Repeat(c, n) == ""
  {
  }

  /** The loop over the characters of a string; n is what it takes off the width. */
  method PrintChars(b: SprintBuf, s: string, precision: int, alt: bool) returns (n: nat)
    requires b.Valid()
    modifies b, b.text
    ensures b.Valid() && b.emitted == old(b.emitted) + Visible(Shown(s, precision), alt)
    ensures n == |Shown(s, precision)|
  {
    hide SprintBuf.Valid;
    ghost var t := Shown(s, precision);
    n := 0;
    while n < |s| && (precision < 0 || n < precision)
      invariant b.Valid() && n <= |t|
      invariant b.emitted == old(b.emitted) + Visible(t[..n], alt)
      decreases |s| - n
    {
      var ch := s[n];
      assert t[..n + 1][..n] == t[..n];
      if alt && (ch < ' ' || ch > '~') {
        b.PutCh('?');
      } else {
        b.PutCh(ch);
      }
      n := n + 1;
    }
    assert t[..n] == t;
  }

  /** %e: both calls of printfmt written out. */
  method PrintError(b: SprintBuf, arg: int)
    requires b.Valid()
    modifies b, b.text
    ensures b.Valid() && b.emitted == old(b.emitted) + ErrorText(arg)
  {
    hide SprintBuf.Valid, Number;
    var err := if arg < 0 then -arg else arg;
    if err >= MAXERROR || ErrorString(err) == None {
      b.PutAll("error ");
      PrintSigned(b, err, -1, ' ');
    } else {
      b.PutAll(ErrorString(err).value);
    }
  }

  /** The cases of the switch that print. */
  method Convert(b: SprintBuf, e: Escape)
    requires b.Valid() && IsConversion(e.ch)
    modifies b, b.text
    ensures b.Valid() && b.emitted == old(b.emitted) + Converted(e)
  {
    hide SprintBuf.Valid, Number, TextField, Signed, ErrorText;
    var f, n := e.flags, NextNum(e.args);
    match e.ch {
      case 'c' => b.PutCh((n % 256) as char);
      case 'e' => PrintError(b, Wrap(n));
      case 's' => PrintText(b, match NextText(e.args) case Some(s) => s case None => "(null)", f);
      case 'd' => PrintSigned(b, SignedArg(n, f.lflag), f.width, f.padc);
      case 'u' => b.PrintNum(Unsigned(n, f.lflag), 10, f.width, f.padc);
      case 'o' => b.PrintNum(Unsigned(n, f.lflag), 8, f.width, f.padc);
      case 'p' =>
        b.PutAll("0x");
        b.PrintNum(Unsigned(n, 0), 16, f.width, f.padc);
      case 'x' => b.PrintNum(Unsigned(n, f.lflag), 16, f.width, f.padc);
      case _ => b.PutCh('%');
    }
  }

  /** vprintfmt: it ends on every format, and looks at no character behind the final NUL. */
  method VPrintFmt(b: SprintBuf, fmt: string, args0: seq<Arg>)
    requires b.Valid() && '\0' !in fmt
    modifies b, b.text
    ensures b.Valid() && b.emitted == old(b.emitted) + Format(fmt, 0, args0)
  {
    hide Parse, Converted, SprintBuf.Valid, Format;
    FormatEnds(fmt, args0);
    var i, args := 0, args0;
    while true
      invariant i <= |fmt| && b.Valid()
      invariant b.emitted + Format(fmt, i, args) == old(b.emitted) + Format(fmt, 0, args0)
      decreases |fmt| - i
    {
      if At(fmt, i) == '\0' {
        FormatEnds(fmt, args);
        return;
      }
      ghost var before, rest := b.emitted, Format(fmt, i, args);
      i, args := PrintNext(b, fmt, i, args);
      assert before + rest == b.emitted + Format(fmt, i, args);
    }
  }

  lemma FormatEnds(fmt: string, args: seq<Arg>)
    ensures Format(fmt, |fmt|, args) == ""
  {
  }

  /** The next character or escape. */
  method PrintNext(b: SprintBuf, fmt: string, i: nat, args: seq<Arg>) returns (j: nat, rest: seq<Arg>)
    requires b.Valid() && '\0' !in fmt && i < |fmt|
    modifies b, b.text
    ensures b.Valid() && i < j <= |fmt|
    ensures old(b.emitted) + Format(fmt, i, args) == b.emitted + Format(fmt, j, rest)
  {
    hide Parse, Converted, SprintBuf.Valid, Format, ArgsAfter;
    FormatUnfolds(fmt, i, args, b.emitted);
    if fmt[i] != '%' {
      b.PutCh(fmt[i]);
      j, rest := i + 1, args;
    } else {
      var e := ParseEscape(fmt, i + 1, args);
      if IsConversion(e.ch) {
        Convert(b, e);
        j, rest := e.next, ArgsAfter(e);
      } else {
        b.PutCh('%');
        j := Rewind(fmt, i + 1, e.next);
        rest := e.args;
      }
    }
  }

  /** The same behind the text s. */
  lemma FormatUnfolds(fmt: string, i: nat, args: seq<Arg>, s: string)
    requires i < |fmt|
    ensures fmt[i] != '%' ==> s + Format(fmt, i, args) == (s + [fmt[i]]) + Format(fmt, i + 1, args)
    ensures fmt[i] == '%' ==>
      var e := Parse(fmt, i + 1, NO_FLAGS, args);
      s + Format(fmt, i, args) == if IsConversion(e.ch) then (s + Converted(e)) + Format(fmt, e.next, ArgsAfter(e))
                                  else (s + "%") + Format(fmt, i + 1, e.args)
  {
    hide Parse, Converted, ArgsAfter, Format;
    FormatIs(fmt, i, args);
    var e := Parse(fmt, i + 1, NO_FLAGS, args);
    if fmt[i] != '%' {
      Behind(s, [fmt[i]], Format(fmt, i + 1, args));
    } else if IsConversion(e.ch) {
      Behind(s, Converted(e), Format(fmt, e.next, ArgsAfter(e)));
    } else {
      Behind(s, "%", Format(fmt, i + 1, e.args));
    }
  }

  lemma Behind(s: string, t: string, u: string)
    ensures s + (t + u) == (s + t) + u
  {
  }

  /** for (fmt--; fmt[-1] != '%'; fmt--): back to just behind the '%' that started the escape. */
  method Rewind(fmt: string, start: nat, next: nat) returns (i: nat)
    requires 0 < start < next <= |fmt| + 1 && fmt[start - 1] == '%'
    requires forall k :: start <= k < next - 1 ==> fmt[k] != '%'
    ensures i == start
  {
    i := next - 1;
    while fmt[i - 1] != '%'
      invariant start <= i < next
      decreases i
    {
      i := i - 1;
    }
  }

  /**
   * vsnprintf: with room for at least the NUL, the buffer holds the first min(total, n - 1) characters and a
   * NUL, and the total is returned; otherwise nothing is written.
   */
  method VSnprintf(buf: array?<char>, n: int, fmt: string, args: seq<Arg>) returns (r: int)
    requires (buf != null ==> n <= buf.Length) && '\0' !in fmt
    modifies buf
    ensures buf == null || n < 1 ==> r == -E_INVAL && (buf != null ==> buf[..] == old(buf[..]))
    ensures buf != null && n >= 1 ==>
      var out := Format(fmt, 0, args);
      var kept := if |out| < n - 1 then |out| else n - 1;
      && r == |out|
      && buf[..kept] == out[..kept] && buf[kept] == '\0'
      && buf[n..] == old(buf[n..])
  {
    hide Format;
    if buf == null || n < 1 {
      return -E_INVAL;
    }
    var b := new SprintBuf(buf, n);
    VPrintFmt(b, fmt, args);
    ghost var out := b.emitted;
    assert out == Format(fmt, 0, args);
    assert buf[..b.buf] == out[..b.buf] && buf[n..] == old(buf[n..]);
    r := b.cnt;
    ghost var before := buf[..];
    var kept := b.buf;
    hide SprintBuf.Valid;
    buf[kept] := '\0';
    assert buf[..] == before[kept := '\0'];
    assert buf[..kept] == before[..kept] && buf[n..] == before[n..];
  }
}
