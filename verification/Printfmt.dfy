/** Number printing and format processing of lib/printfmt.c, writing into the buffer of vsnprintf. */
module Printfmt {
  import opened Wrappers
  import opened Mmu
  import opened Strtol

  // ---- printnum ----

  function DigitChar(d: nat): (c: char)
    requires d < 16
    ensures DigitOf(c) == d && c != 'x'
  {
    "0123456789abcdef"[d]
  }

  function Repeat(c: char, n: int): (s: string)
    ensures |s| == (if n > 0 then n else 0) && forall i :: 0 <= i < |s| ==> s[i] == c
  {
    if n <= 0 then "" else Repeat(c, n - 1) + [c]
  }

  /** num / base and num % base. */
  function Quotient(num: nat, base: nat): (q: nat)
    requires base >= 2
    ensures num >= base ==> q < num
    ensures num < base ==> q == 0
  {
    QuotientLess(num, base);
    num / base
  }

  lemma QuotientLess(num: nat, base: nat)
    requires base >= 2
    ensures num >= base ==> num / base < num
    ensures num < base ==> num / base == 0
  {
    var q := num / base;
    assert num == q * base + num % base;
    TimesAtLeast(q, base);
  }

  lemma {:induction false} TimesAtLeast(q: nat, base: nat)
    requires base >= 2
    ensures q * base >= 2 * q && (q > 0 ==> q * base >= base)
    decreases q
  {
    if q == 0 {
    } else {
      TimesAtLeast(q - 1, base);
      assert q * base == (q - 1) * base + base;
    }
  }

  function LastDigit(num: nat, base: nat): (d: nat)
    requires base >= 2
    ensures d < base && (num < base ==> d == num)
  {
    num % base
  }

  lemma QuotientAndDigit(num: nat, base: nat)
    requires base >= 2
    ensures num == Quotient(num, base) * base + LastDigit(num, base)
  {
  }

  /** The digits of a number, most significant first. */
  function Numeral(num: nat, base: nat): (s: string)
    requires 2 <= base <= 16
    ensures |s| > 0
  {
    if num < base then [DigitChar(num)] else Numeral(Quotient(num, base), base) + [DigitChar(LastDigit(num, base))]
  }

  predicate IsNumeral(s: string, base: nat) {
    |s| > 0 && forall i :: 0 <= i < |s| ==> IsDigit(s[i], base) && s[i] != 'x'
  }

  lemma {:induction false} NumeralDigits(num: nat, base: nat)
    requires 2 <= base <= 16
    ensures IsNumeral(Numeral(num, base), base)
    decreases num
  {
    if num < base {
    } else {
      NumeralDigits(Quotient(num, base), base);
    }
  }

  /** The number that a numeral stands for, with lower-case letters for the digits from 10 on. */
  function Worth(s: string, base: nat): int {
    if s == "" then 0
    else
      var c := s[|s| - 1];
      Worth(s[..|s| - 1], base) * base + (if c <= '9' then c as int - '0' as int else c as int - 'a' as int + 10)
  }

  /** A digit of the base; letters are lower-case. */
  predicate LowerDigit(c: char, base: nat) {
    || ('0' <= c <= '9' && c as int - '0' as int < base)
    || ('a' <= c <= 'f' && c as int - 'a' as int + 10 < base)
  }

  /** The numeral of a number is worth that number, has digits of the base only, and starts with no needless 0. */
  lemma {:induction false} NumeralIsRight(num: nat, base: nat)
    requires 2 <= base <= 16
    ensures var s := Numeral(num, base);
      && Worth(s, base) == num && (forall i :: 0 <= i < |s| ==> LowerDigit(s[i], base))
      && (s[0] == '0' ==> s == "0" && num == 0)
    decreases num
  {
    hide Quotient, LastDigit, Numeral;
    NumberUnfolds(num, base, 0, ' ');
    QuotientAndDigit(num, base);
    if num < base {
      DigitIsLower(num, base);
      assert Worth("", base) == 0;
      assert Numeral(num, base)[..0] == "";
    } else {
      var q, d := Quotient(num, base), LastDigit(num, base);
      NumeralIsRight(q, base);
      DigitIsLower(d, base);
      QuotientPositive(num, base);
      assert Numeral(num, base)[..|Numeral(q, base)|] == Numeral(q, base);
    }
  }

  lemma DigitIsLower(d: nat, base: nat)
    requires d < base <= 16
    ensures var c := DigitChar(d);
      && LowerDigit(c, base) && (c == '0' <==> d == 0)
      && d == if c <= '9' then c as int - '0' as int else c as int - 'a' as int + 10
  {
  }

  lemma QuotientPositive(num: nat, base: nat)
    requires base >= 2 && num >= base
    ensures Quotient(num, base) > 0
  {
    hide Quotient, LastDigit;
    QuotientAndDigit(num, base);
  }

  /** What printnum prints. */
  function Number(num: nat, base: nat, width: int, padc: char): string
    requires 2 <= base <= 16
  {
    (if num >= base then Number(Quotient(num, base), base, width - 1, padc) else Repeat(padc, width - 1))
    + [DigitChar(LastDigit(num, base))]
  }

  lemma {:induction false} NumberIsPaddedNumeral(num: nat, base: nat, width: int, padc: char)
    requires 2 <= base <= 16
    ensures Number(num, base, width, padc) == Repeat(padc, width - |Numeral(num, base)|) + Numeral(num, base)
    decreases num
  {
    hide *;
    NumberUnfolds(num, base, width, padc);
    if num < base {
    } else {
      var q, d := Quotient(num, base), [DigitChar(LastDigit(num, base))];
      NumberIsPaddedNumeral(q, base, width - 1, padc);
      var pad, n := Repeat(padc, width - 1 - |Numeral(q, base)|), Numeral(q, base);
      assert (pad + n) + d == pad + (n + d);
    }
  }

  lemma NumberUnfolds(num: nat, base: nat, width: int, padc: char)
    requires 2 <= base <= 16
    ensures num < base ==> LastDigit(num, base) == num && Numeral(num, base) == [DigitChar(LastDigit(num, base))]
    ensures num < base ==> Number(num, base, width, padc) == Repeat(padc, width - 1) + [DigitChar(LastDigit(num, base))]
    ensures num >= base ==>
      Number(num, base, width, padc) ==
        Number(Quotient(num, base), base, width - 1, padc) + [DigitChar(LastDigit(num, base))]
    ensures num >= base ==> Numeral(num, base) == Numeral(Quotient(num, base), base) + [DigitChar(LastDigit(num, base))]
  {
  }

  /** The output is as long as the width or the number, whichever is more. */
  lemma NumberLength(num: nat, base: nat, width: int, padc: char)
    requires 2 <= base <= 16
    ensures var n := |Numeral(num, base)|; |Number(num, base, width, padc)| == if width > n then width else n
    ensures |Numeral(num, base)| >= 1
  {
    NumberIsPaddedNumeral(num, base, width, padc);
  }

  // ---- printing and reading back ----

  lemma ReadDigit(t: string, i: nat, base: nat, num: nat)
    requires i < |t| && 2 <= base <= 16 && t[i] == DigitChar(LastDigit(num, base))
    ensures Digits(t, i, base, Wrap(Quotient(num, base))) == Digits(t, i + 1, base, Wrap(num))
  {
    hide Quotient, LastDigit, Wrap;
    QuotientAndDigit(num, base);
    WrapAddDigit(Quotient(num, base), base, LastDigit(num, base), num);
    DigitRead(LastDigit(num, base), base);
  }

  lemma DigitRead(d: nat, base: nat)
    requires d < base <= 16
    ensures IsDigit(DigitChar(d), base) && DigitOf(DigitChar(d)) == d
  {
  }

  /** Reading a numeral from i to j yields its number, modulo 2^32. */
  lemma {:induction false} ReadNumeral(t: string, num: nat, base: nat, i: nat, j: nat)
    requires 2 <= base <= 16 && i <= j <= |t| && t[i..j] == Numeral(num, base)
    ensures Digits(t, i, base, 0) == Digits(t, j, base, Wrap(num))
    decreases num
  {
    hide Numeral, Number, Digits, DigitChar, Quotient, LastDigit;
    NumberUnfolds(num, base, 0, ' ');
    assert Wrap(0) == 0;
    hide Wrap;
    if num >= base {
      SplitLast(t, i, j, Numeral(Quotient(num, base), base), DigitChar(LastDigit(num, base)));
      ReadNumeral(t, Quotient(num, base), base, i, j - 1);
    } else {
      SplitLast(t, i, j, [], DigitChar(LastDigit(num, base)));
    }
    ReadDigit(t, j - 1, base, num);
  }

  lemma SplitLast(t: string, i: nat, j: nat, n: string, c: char)
    requires i <= j <= |t| && t[i..j] == n + [c]
    ensures i < j && t[i..j - 1] == n && t[j - 1] == c && j - 1 - i == |n|
  {
    assert t[j - 1] == t[i..j][j - 1 - i];
    assert t[i..j - 1] == t[i..j][..j - 1 - i];
  }

  lemma {:induction false} ReadZeros(t: string, i: nat, j: nat, base: nat)
    requires i <= j <= |t| && base >= 2 && forall k :: i <= k < j ==> t[k] == '0'
    ensures Digits(t, i, base, 0) == Digits(t, j, base, 0)
    decreases j - i
  {
    if i >= j {
    } else {
      assert DigitOf(t[i]) == 0 && Wrap(0) == 0;
      ReadZeros(t, i + 1, j, base);
    }
  }

  lemma {:induction false} SkipSpaces(t: string, i: nat, j: nat)
    requires i <= j < |t| && (forall k :: i <= k < j ==> t[k] == ' ') && !IsBlank(t[j])
    ensures SkipBlanks(t, i) == j
    decreases j - i
  {
    if i >= j {
    } else {
      SkipSpaces(t, i + 1, j);
    }
  }

  /** Digits from p on that end the text and are zeros followed by a numeral. */
  lemma ReadRest(t: string, p: nat, z: nat, num: nat, base: nat)
    requires 2 <= base <= 16 && p + z <= |t|
    requires (forall k :: p <= k < p + z ==> t[k] == '0') && t[p + z..] == Numeral(num, base)
    ensures Digits(t, p, base, 0) == (Wrap(num), |t|)
  {
    hide Numeral;
    ReadZeros(t, p, p + z, base);
    assert t[p + z..|t|] == t[p + z..];
    ReadNumeral(t, num, base, p + z, |t|);
  }

  predicate IsBase(base: int) { base == 8 || base == 10 || base == 16 }

  /** A text that starts with a digit at b and holds no 'x' has no sign and no prefix there. */
  lemma NoPrefix(t: string, b: nat, base: nat)
    requires IsBase(base) && b < |t| && IsDigit(t[b], base) && forall k :: b <= k < |t| ==> t[k] != 'x'
    ensures Prefix(t, b, base) == (b, base) && At(t, b) != '+' && At(t, b) != '-' && !IsBlank(t[b])
  {
  }

  /** After blanks, and possibly a sign, digits to the end of the text are read as their number. */
  lemma ReadAll(t: string, b: nat, z: nat, num: nat, base: nat)
    requires IsBase(base) && b + z < |t| && (forall k :: 0 <= k < b ==> t[k] == ' ')
    requires (forall k :: b <= k < b + z ==> t[k] == '0') && t[b + z..] == Numeral(num, base)
    ensures Value(t, base) == (Wrap(num), |t|)
  {
    ReadRest(t, b, z, num, base);
    DigitsFrom(t, b, z, num, base);
    hide Numeral, Digits, Wrap, IsDigit, DigitOf;
    NoPrefix(t, b, base);
    SkipSpaces(t, 0, b);
  }

  lemma DigitsFrom(t: string, b: nat, z: nat, num: nat, base: nat)
    requires IsBase(base) && b + z < |t|
    requires (forall k :: b <= k < b + z ==> t[k] == '0') && t[b + z..] == Numeral(num, base)
    ensures IsDigit(t[b], base) && forall k :: b <= k < |t| ==> t[k] != 'x'
  {
    NumeralDigits(num, base);
    hide Numeral;
    var n := t[b + z..];
    forall k | b <= k < |t| ensures t[k] != 'x' {
      if k >= b + z {
        assert t[k] == n[k - b - z];
      }
    }
    assert t[b + z] == n[0] && IsDigit('0', base);
  }

  /** The output of printnum: padding, then the numeral. */
  lemma NumberLayout(num: nat, base: nat, width: int, padc: char) returns (t: string, b: nat)
    requires 2 <= base <= 16
    ensures t == Number(num, base, width, padc) && b < |t| && t[b..] == Numeral(num, base)
    ensures forall k :: 0 <= k < b ==> t[k] == padc
    ensures b == if width > |Numeral(num, base)| then width - |Numeral(num, base)| else 0
  {
    hide Number, Numeral;
    NumberIsPaddedNumeral(num, base, width, padc);
    var n := Numeral(num, base);
    var pad := Repeat(padc, width - |n|);
    t, b := pad + n, |pad|;
    assert t[b..] == n;
  }

  /**
   * Print and parse: strtol reads back what printnum printed, with any width and with spaces or zeros as
   * padding, up to the last character.  The value is exact if the number is below 2^31.
   */
  lemma RoundTrip(num: nat, base: nat, width: int, padc: char)
    requires IsBase(base) && (padc == ' ' || padc == '0')
    ensures var t := Number(num, base, width, padc); Value(t, base) == (Wrap(num), |t|)
    ensures num < 0x8000_0000 ==> Value(Number(num, base, width, padc), base).0 == num
  {
    assert num < 0x8000_0000 ==> Wrap(num) == num;
    hide Wrap, Number, Numeral;
    var t, b := NumberLayout(num, base, width, padc);
    if padc == ' ' {
      ReadAll(t, b, 0, num, base);
    } else {
      ReadAll(t, 0, b, num, base);
    }
  }

  /** What %d prints for the number v. */
  function Signed(v: int, width: int, padc: char): string {
    if v < 0 then "-" + Number(-v, 10, width, padc) else Number(v, 10, width, padc)
  }

  /** A minus sign and digits. */
  lemma ValueOfNegative(t: string)
    requires |t| > 1 && t[0] == '-'
    ensures var (val, end) := Digits(t, 1, 10, 0); Value(t, 10) == (Wrap(0 - val), end)
  {
    hide Digits, Wrap;
    assert SkipBlanks(t, 0) == 0;
  }

  /** A minus sign, zeros and a numeral. */
  lemma WrapNegates(num: nat)
    requires 0 < num <= 0x8000_0000
    ensures Wrap(0 - Wrap(num)) == 0 - num
  {
    assert Wrap(num) == if num == 0x8000_0000 then -0x8000_0000 else num;
  }

  lemma ReadNegative(t: string, z: nat, num: nat)
    requires 1 + z < |t| && t[0] == '-' && 0 < num <= 0x8000_0000
    requires (forall k :: 1 <= k < 1 + z ==> t[k] == '0') && t[1 + z..] == Numeral(num, 10)
    ensures Value(t, 10) == (0 - num, |t|)
  {
    hide *;
    WrapNegates(num);
    ReadRest(t, 1, z, num, 10);
    ValueOfNegative(t);
  }

  /**
   * A negative %d is read back exactly if it is padded with zeros or not at all: the sign is printed before
   * the padding, and strtol takes no spaces after a sign.
   */
  lemma RoundTripNegative(v: int, width: int, padc: char)
    requires -0x8000_0000 <= v < 0 && (padc == ' ' || padc == '0')
    ensures var t := Signed(v, width, padc);
      Value(t, 10) == (v, |t|) <==> padc == '0' || width <= |Numeral(-v, 10)|
  {
    hide Number, Numeral;
    var u, b := NumberLayout(-v, 10, width, padc);
    var t := "-" + u;
    assert t[1 + b..] == u[b..];
    if padc == '0' || b == 0 {
      ReadNegative(t, b, -v);
    } else {
      BlankStops(t);
    }
  }

  lemma BlankStops(t: string)
    requires |t| > 1 && t[0] == '-' && t[1] == ' '
    ensures Value(t, 10) == (0, 1)
  {
    assert Wrap(0) == 0;
    hide Wrap;
    assert SkipBlanks(t, 0) == 0;
    assert Digits(t, 1, 10, 0) == (0, 1);
  }

  // ---- the output buffer of vsnprintf ----

  /** struct sprintbuf: buf and ebuf are positions in the array. */
  class SprintBuf {
    const text: array<char>
    var buf: nat
    const ebuf: nat
    var cnt: nat

    ghost var emitted: string         // everything passed to sprintputch
    ghost const beyond: seq<char>     // the rest of the array

    /** The characters emitted are counted, and kept as far as there is room. */
    ghost predicate Valid()
      reads this, text
    {
      && ebuf < text.Length && buf <= ebuf && cnt == |emitted|
      && buf == (if cnt < ebuf then cnt else ebuf)
      && text[..buf] == emitted[..buf] && text[ebuf + 1..] == beyond
    }

    constructor (text: array<char>, n: nat)
      requires 1 <= n <= text.Length
      ensures Valid() && this.text == text && ebuf == n - 1 && emitted == "" && beyond == text[n..]
    {
      this.text, buf, ebuf, cnt := text, 0, n - 1, 0;
      emitted, beyond := "", text[n..];
    }

    /** sprintputch. */
    method PutCh(ch: char)
      requires Valid()
      modifies this, text
      ensures Valid() && emitted == old(emitted) + [ch]
    {
      cnt := cnt + 1;
      if buf < ebuf {
        text[buf] := ch;
        buf := buf + 1;
      }
      emitted := emitted + [ch];
    }

    method PutAll(s: string)
      requires Valid()
      modifies this, text
      ensures Valid() && emitted == old(emitted) + s
    {
      for i := 0 to |s|
        invariant Valid() && emitted == old(emitted) + s[..i]
      {
        assert s[..i + 1] == s[..i] + [s[i]];
        PutCh(s[i]);
      }
    }

    /** The padding loops: while (--width > 0), and for (; width > 0; width--). */
    method PutPad(padc: char, n: int)
      requires Valid()
      modifies this, text
      ensures Valid() && emitted == old(emitted) + Repeat(padc, n)
    {
      var k := n;
      while k > 0
        invariant Valid() && (n > 0 ==> 0 <= k <= n) && (n <= 0 ==> k == n)
        invariant emitted == old(emitted) + Repeat(padc, n - k)
      {
        PutCh(padc);
        k := k - 1;
      }
    }

    /** printnum. */
    method PrintNum(num: nat, base: nat, width: int, padc: char)
      requires Valid() && 2 <= base <= 16
      modifies this, text
      ensures Valid() && emitted == old(emitted) + Number(num, base, width, padc)
      decreases num
    {
      hide Quotient, LastDigit, Repeat;
      if num >= base {
        PrintNum(Quotient(num, base), base, width - 1, padc);
      } else {
        PutPad(padc, width - 1);
      }
      PutCh(DigitChar(LastDigit(num, base)));
    }
  }
}
