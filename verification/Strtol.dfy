/** strtol of lib/string.c; a C string is a string without its final NUL. */
module Strtol {
  import opened Mmu

  /** s[i], where position |s| holds the NUL. */
  function At(s: string, i: nat): char
    requires i <= |s|
  {
    if i < |s| then s[i] else '\0'
  }

  /** The value of a digit in base 36, or -1. */
  function DigitOf(c: char): int {
    if '0' <= c <= '9' then c as int - '0' as int
    else if 'a' <= c <= 'z' then c as int - 'a' as int + 10
    else if 'A' <= c <= 'Z' then c as int - 'A' as int + 10
    else -1
  }

  predicate IsDigit(c: char, base: int) { 0 <= DigitOf(c) < base }

  predicate IsBlank(c: char) { c == ' ' || c == '\t' }

  /** The first position from i on that is no blank. */
  function SkipBlanks(s: string, i: nat): (r: nat)
    requires i <= |s|
    ensures i <= r <= |s|
    decreases |s| - i
  {
    if IsBlank(At(s, i)) then SkipBlanks(s, i + 1) else i
  }

  /** The digits from i on, added to val; long is 32 bits wide and overflow is not detected. */
  function Digits(s: string, i: nat, base: int, val: Int32): (r: (Int32, nat))
    requires i <= |s|
    ensures i <= r.1 <= |s|
    decreases |s| - i
  {
    if IsDigit(At(s, i), base) then Digits(s, i + 1, base, Wrap(val * base + DigitOf(s[i]))) else (val, i)
  }

  /** The base prefix at i: where the digits start, and the base. */
  function Prefix(s: string, i: nat, base: int): (r: (nat, int))
    requires i <= |s|
    ensures i <= r.0 <= |s|
  {
    if (base == 0 || base == 16) && At(s, i) == '0' && At(s, i + 1) == 'x' then (i + 2, 16)
    else if base == 0 && At(s, i) == '0' then (i + 1, 8)
    else if base == 0 then (i, 10)
    else (i, base)
  }

  /** strtol: the value and *endptr. */
  function Value(s: string, base: int): (Int32, nat) {
    var b := SkipBlanks(s, 0);
    var signed := At(s, b) == '+' || At(s, b) == '-';
    var (p, radix) := Prefix(s, if signed then b + 1 else b, base);
    var (val, end) := Digits(s, p, radix, 0);
    (if At(s, b) == '-' then Wrap(0 - val) else val, end)
  }

  method Strtol(s: string, base0: int) returns (val: Int32, end: nat)
    ensures (val, end) == Value(s, base0)
  {
    hide Digits, Wrap;
    var i, base, neg := 0, base0, false;
    while At(s, i) == ' ' || At(s, i) == '\t'
      invariant i <= |s| && SkipBlanks(s, i) == SkipBlanks(s, 0)
      decreases |s| - i
    {
      i := i + 1;
    }
    if At(s, i) == '+' {
      i := i + 1;
    } else if At(s, i) == '-' {
      i, neg := i + 1, true;
    }
    if (base == 0 || base == 16) && At(s, i) == '0' && At(s, i + 1) == 'x' {
      i, base := i + 2, 16;
    } else if base == 0 && At(s, i) == '0' {
      i, base := i + 1, 8;
    } else if base == 0 {
      base := 10;
    }
    val, end := ReadDigits(s, i, base);
    val := if neg then Wrap(0 - val) else val;
  }

  /** The digit loop. */
  method ReadDigits(s: string, start: nat, base: int) returns (val: Int32, i: nat)
    requires start <= |s|
    ensures (val, i) == Digits(s, start, base, 0)
  {
    val, i := 0, start;
    while true
      invariant i <= |s| && Digits(s, i, base, val) == Digits(s, start, base, 0)
      decreases |s| - i
    {
      var dig;
      var c := At(s, i);
      if '0' <= c <= '9' {
        dig := c as int - '0' as int;
      } else if 'a' <= c <= 'z' {
        dig := c as int - 'a' as int + 10;
      } else if 'A' <= c <= 'Z' {
        dig := c as int - 'A' as int + 10;
      } else {
        break;
      }
      assert dig == DigitOf(c);
      if dig >= base {
        break;
      }
      i, val := i + 1, Wrap(val * base + dig);
    }
  }

  // ---- what a number in a text is worth ----

  /** c spells digit d of a base: a decimal digit, or a letter of either case. */
  predicate Spells(c: char, d: nat) {
    || (d < 10 && c as int == '0' as int + d)
    || (10 <= d < 36 && (c as int == 'a' as int + d - 10 || c as int == 'A' as int + d - 10))
  }

  predicate Spelling(t: string, ds: seq<nat>, radix: nat) {
    |t| == |ds| && forall i :: 0 <= i < |t| ==> ds[i] < radix && Spells(t[i], ds[i])
  }

  /** The number with digits ds. */
  function NumberOf(ds: seq<nat>, radix: nat): nat {
    if ds == [] then 0 else NumberOf(ds[..|ds| - 1], radix) * radix + ds[|ds| - 1]
  }

  predicate OnlyBlanks(t: string) { forall i :: 0 <= i < |t| ==> t[i] == ' ' || t[i] == '\t' }

  predicate StartsWith(t: string, c: char) { t != "" && t[0] == c }

  /** The prefixes of a base, in front of text t, and the radix of the digits behind them. */
  predicate PrefixOf(prefix: string, base: int, radix: nat, t: string) {
    || (prefix == "0x" && (base == 0 || base == 16) && radix == 16)
    || (prefix == "0" && base == 0 && radix == 8 && !StartsWith(t, 'x'))
    || (prefix == "" && base == 0 && radix == 10 && !StartsWith(t, '0'))
    || (prefix == "" && base == 16 && radix == 16 && !(StartsWith(t, '0') && StartsWith(t[1..], 'x')))
    || (prefix == "" && 2 <= base <= 36 && base != 16 && radix == base)
  }

  /** No digit of the radix stands in front of t. */
  predicate NoDigit(t: string, radix: nat) {
    forall d :: 0 <= d < radix && t != "" ==> !Spells(t[0], d)
  }

  lemma {:induction false} BlanksSkipped(s: string, i: nat, b: nat)
    requires i <= b <= |s| && (forall k :: i <= k < b ==> IsBlank(s[k])) && !IsBlank(At(s, b))
    ensures SkipBlanks(s, i) == b
    decreases b - i
  {
    if i < b {
      BlanksSkipped(s, i + 1, b);
    }
  }

  lemma SpellsOne(c: char, d: nat, radix: nat)
    requires radix <= 36
    ensures d < radix && Spells(c, d) ==> IsDigit(c, radix) && DigitOf(c) == d
    ensures IsDigit(c, radix) ==> DigitOf(c) < radix && Spells(c, DigitOf(c))
  {
  }

  /** Digits from p to e are read as their number, modulo 2^32. */
  lemma {:induction false} DigitsWorth(s: string, p: nat, e: nat, ds: seq<nat>, radix: nat)
    requires p <= e <= |s| && radix <= 36 && Spelling(s[p..e], ds, radix)
    ensures Digits(s, p, radix, 0) == Digits(s, e, radix, Wrap(NumberOf(ds, radix)))
    decreases |ds|
  {
    hide Wrap, Digits, Spells;
    if ds == [] {
      ZeroWrapped();
    } else {
      var n, d := |ds| - 1, ds[|ds| - 1];
      assert s[p..e][n] == s[e - 1] && ds[n] == d;
      assert s[p..e - 1] == s[p..e][..n];
      DigitsWorth(s, p, e - 1, ds[..n], radix);
      WrapAddDigit(NumberOf(ds[..n], radix), radix, d, NumberOf(ds, radix));
      OneMore(s, e - 1, radix, Wrap(NumberOf(ds[..n], radix)), d);
    }
  }

  lemma ZeroWrapped()
    ensures Wrap(0) == 0
  {
  }

  lemma OneMore(s: string, i: nat, radix: nat, val: Int32, d: nat)
    requires i < |s| && radix <= 36 && d < radix && Spells(s[i], d)
    ensures Digits(s, i, radix, val) == Digits(s, i + 1, radix, Wrap(val * radix + d))
  {
    hide Wrap;
    SpellsOne(s[i], d, radix);
  }

  lemma DigitsEnd(s: string, e: nat, radix: nat, val: Int32)
    requires e <= |s| && radix <= 36 && NoDigit(s[e..], radix)
    ensures Digits(s, e, radix, val) == (val, e)
  {
    if e < |s| {
      SpellsOne(s[e], 0, radix);
      assert s[e..][0] == s[e];
    }
  }

  /** The prefix at q is the one that ends at p. */
  lemma PrefixRead(s: string, q: nat, p: nat, base: int, radix: nat)
    requires q <= p <= |s| && PrefixOf(s[q..p], base, radix, s[p..])
    ensures Prefix(s, q, base) == (p, radix)
  {
    var t, prefix := s[p..], s[q..p];
    assert t != "" ==> t[0] == s[p] == At(s, p);
    assert t != "" && t[1..] != "" ==> t[1..][0] == s[p + 1] == At(s, p + 1);
    assert p > q ==> prefix[0] == s[q];
    assert p > q + 1 ==> prefix[1] == s[q + 1];
  }

  /**
   * strtol reads blanks, a sign, a prefix for its base, and digits up to the first character that is none: it
   * returns the signed number that the digits spell, modulo 2^32, and where they end.
   */
  lemma ValueIsWorth(s: string, base: int, b: nat, q: nat, p: nat, e: nat, radix: nat, ds: seq<nat>)
    requires b <= q <= p <= e <= |s| && OnlyBlanks(s[..b])
    requires s[b..q] == "+" || s[b..q] == "-" ||
             (b == q && (b < |s| ==> s[b] != ' ' && s[b] != '\t' && s[b] != '+' && s[b] != '-'))
    requires PrefixOf(s[q..p], base, radix, s[p..])
    requires Spelling(s[p..e], ds, radix) && NoDigit(s[e..], radix)
    ensures Value(s, base) == (Wrap(if s[b..q] == "-" then 0 - NumberOf(ds, radix) else NumberOf(ds, radix)), e)
  {
    hide Digits, PrefixOf, Spelling, NoDigit, Wrap, NumberOf, Prefix;
    RadixBound(s[q..p], base, radix, s[p..]);
    assert forall k :: 0 <= k < b ==> s[k] == s[..b][k];
    assert q > b ==> s[b] == s[b..q][0];
    BlanksSkipped(s, 0, b);
    PrefixRead(s, q, p, base, radix);
    DigitsWorth(s, p, e, ds, radix);
    DigitsEnd(s, e, radix, Wrap(NumberOf(ds, radix)));
    WrapMinus(NumberOf(ds, radix));
  }

  lemma RadixBound(prefix: string, base: int, radix: nat, t: string)
    requires PrefixOf(prefix, base, radix, t)
    ensures radix <= 36
  {
  }

  lemma WrapMinus(n: int)
    ensures Wrap(0 - Wrap(n)) == Wrap(0 - n)
  {
    WrapAddDigit(n, -1, 0, 0 - n);
  }
}
