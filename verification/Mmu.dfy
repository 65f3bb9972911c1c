/**
 * The address arithmetic of inc/mmu.h, inc/memlayout.h and inc/types.h.
 *
 * A 32-bit word is a natural number below 2^32: a right shift by k is a division by 2^k, a mask with
 * 2^k - 1 is a remainder, and an "or" of fields that do not overlap is a sum.
 */
module Mmu {

  type Word = w: nat | w < 0x1_0000_0000
  type Index = i: nat | i < 1024
  type Int32 = i: int | -0x8000_0000 <= i < 0x8000_0000

  /** The low 32 bits of a number, as a signed one. */
  function Wrap(i: int): Int32 { (i + 0x8000_0000) % 0x1_0000_0000 - 0x8000_0000 }

  lemma WrapShift(x: int, k: int)
    ensures Wrap(x + k * 0x1_0000_0000) == Wrap(x)
  {
    assert x + k * 0x1_0000_0000 + 0x8000_0000 == (x + 0x8000_0000) + k * 0x1_0000_0000;
  }

  /** A digit may be added before or after cutting down to 32 bits. */
  lemma WrapAddDigit(q: int, base: int, r: int, num: int)
    requires num == q * base + r
    ensures Wrap(Wrap(q) * base + r) == Wrap(num)
  {
    var k := (q + 0x8000_0000) / 0x1_0000_0000;
    assert Wrap(q) == q - k * 0x1_0000_0000;
    assert (q - k * 0x1_0000_0000) * base + r == (q * base + r) + (-(k * base)) * 0x1_0000_0000;
    WrapShift(q * base + r, -(k * base));
  }

  const PGSIZE: nat := 4096
  const PTSIZE: nat := 0x40_0000

  const PTE_P: nat := 1
  const PTE_W: nat := 2
  const PTE_U: nat := 4
  const PTE_PWT: nat := 8
  const PTE_PCD: nat := 16

  const KERNBASE: Word := 0xF000_0000
  const MMIOLIM: Word := 0xEFC0_0000
  const MMIOBASE: Word := 0xEF80_0000
  const UVPT: Word := 0xEF40_0000
  const UTOP: Word := 0xEEC0_0000
  const USTACKTOP: Word := 0xEEBF_E000

  /** PDX(UTOP) and PDX(UVPT). */
  const UTOP_PDX: nat := 955
  const UVPT_PDX: nat := 957

  function PgNum(la: Word): nat { la / 4096 }
  function Pdx(la: Word): Index { (la / 0x40_0000) % 1024 }
  function Ptx(la: Word): Index { (la / 4096) % 1024 }
  function PgOff(la: Word): nat { la % 4096 }

  function PgAddr(d: Index, t: Index, o: nat): Word
    requires o < 4096
  {
    d * 0x40_0000 + t * 4096 + o
  }

  /** Bit 0 of an entry, PTE_P. */
  predicate Present(pte: Word) { pte % 2 == 1 }

  /** PTE_ADDR(pte) >> PGSHIFT: the frame an entry names. */
  function FrameOf(pte: Word): nat { pte / 4096 }

  /** The low 12 bits of an entry. */
  function Flags(pte: Word): nat { pte % 4096 }

  /** perm | PTE_P: bit 0 is set, and every other bit as it was. */
  function WithP(perm: nat): (r: nat)
    ensures r % 2 == 1 && r / 2 == perm / 2
  {
    if perm % 2 == 1 then perm else perm + 1
  }

  lemma SplitWord(frame: nat, low: nat)
    requires low < 4096
    ensures (frame * 4096 + low) / 4096 == frame && (frame * 4096 + low) % 4096 == low
    ensures (frame * 4096 + low) % 2 == low % 2
  {
    assert frame * 4096 + low == 2 * (frame * 2048) + low;
  }

  /** (frame << PGSHIFT) | perm | PTE_P. */
  function MkPte(frame: nat, perm: nat): (w: Word)
    requires frame < 0x10_0000 && perm < 4096
    ensures Present(w) && FrameOf(w) == frame && Flags(w) == WithP(perm)
  {
    assert WithP(perm) < 4096;
    SplitWord(frame, WithP(perm));
    frame * 4096 + WithP(perm)
  }

  /** a | b, bit by bit. */
  function Or(a: nat, b: nat): nat
    decreases a
  {
    if a == 0 then b
    else if b == 0 then a
    else 2 * Or(a / 2, b / 2) + (if a % 2 == 1 || b % 2 == 1 then 1 else 0)
  }

  /** Bit k of a number. */
  predicate Bit(a: nat, k: nat)
    decreases k
  {
    if k == 0 then a % 2 == 1 else Bit(a / 2, k - 1)
  }

  /** A bit of a | b is set exactly if it is set in a or in b. */
  lemma {:induction false} OrBits(a: nat, b: nat, k: nat)
    ensures Bit(Or(a, b), k) <==> Bit(a, k) || Bit(b, k)
    decreases a, k
  {
    if a == 0 {
      ZeroBits(k);
    } else if b == 0 {
      ZeroBits(k);
    } else if k > 0 {
      OrBits(a / 2, b / 2, k - 1);
      assert Or(a, b) / 2 == Or(a / 2, b / 2);
    }
  }

  lemma {:induction false} ZeroBits(k: nat)
    ensures !Bit(0, k)
  {
    if k == 0 {
    } else {
      ZeroBits(k - 1);
    }
  }

  /** Two frame numbers or-ed, in the 20 bits that an entry has for them. */
  function OrFrame(f: nat, g: nat): (r: nat)
    ensures r < 0x10_0000
  {
    Or(f, g) % 0x10_0000
  }

  lemma OrNothing(f: nat)
    requires f < 0x10_0000
    ensures OrFrame(f, 0) == f
  {
  }

  /** The two indexes of a linear address: which page of an address space it lies in. */
  datatype VPage = VPage(pdx: Index, ptx: Index)

  function PageOf(la: Word): VPage { VPage(Pdx(la), Ptx(la)) }

  predicate UserPage(p: VPage) { p.pdx < UTOP_PDX }

  /** PDX, PTX and PGOFF take an address apart and PGADDR puts it together again. */
  lemma PgAddrRoundTrip(la: Word, d: Index, t: Index, o: nat)
    requires o < 4096
    ensures PgAddr(Pdx(la), Ptx(la), PgOff(la)) == la
    ensures PageOf(PgAddr(d, t, o)) == VPage(d, t) && PgOff(PgAddr(d, t, o)) == o
  {
    var a := PgAddr(d, t, o);
    assert a / 4096 == d * 1024 + t;
    assert a / 0x40_0000 == d;
    assert la / 0x40_0000 == la / 4096 / 1024;
  }

  /** Two addresses lie in one page exactly when their page numbers agree; below UTOP by comparison. */
  lemma PageOfIsPageNumber(la: Word, lb: Word)
    ensures PageOf(la) == PageOf(lb) <==> PgNum(la) == PgNum(lb)
    ensures UserPage(PageOf(la)) <==> la < UTOP
  {
    assert la / 0x40_0000 == la / 4096 / 1024;
    assert lb / 0x40_0000 == lb / 4096 / 1024;
  }

  /** ROUNDDOWN and ROUNDUP for n = PGSIZE, in 32-bit arithmetic. */
  function RoundDown(a: Word): Word { a - a % 4096 }
  function RoundUp(a: Word): Word { RoundDown((a + 4095) % 0x1_0000_0000) }

  /** ROUNDUP is the least multiple of PGSIZE not below a, except that it wraps to 0 in the last page. */
  lemma RoundUpIsLeast(a: Word)
    ensures RoundUp(a) % 4096 == 0
    ensures a <= RoundUp(a) < a + 4096 <==> a <= 0xFFFF_F000
    ensures a > 0xFFFF_F000 ==> RoundUp(a) == 0
  {
    hide RoundDown;
    WrapSum(a + 4095);
    RoundDownIs((a + 4095) % 0x1_0000_0000);
  }

  lemma WrapSum(n: nat)
    requires n < 0x2_0000_0000
    ensures n % 0x1_0000_0000 == if n < 0x1_0000_0000 then n else n - 0x1_0000_0000
  {
  }

  lemma RoundDownIs(a: Word)
    ensures RoundDown(a) == a - a % 4096 && RoundDown(a) % 4096 == 0
    ensures a < 4096 ==> RoundDown(a) == 0
  {
  }
}
