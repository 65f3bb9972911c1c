/**
 * The file that load_icode reads, from the side of whoever writes it: struct Elf and struct Proghdr of inc/elf.h
 * field by field, in little-endian bytes; and what load_icode puts into memory in terms of those fields.
 */
module ElfFile {
  import opened Wrappers
  import opened Mmu
  import opened VmState
  import opened VmRegion
  import opened VmLoad

  /** The bytes of a 16-bit and of a 32-bit number, lowest first. */
  function Bytes16(n: nat): seq<Byte>
    requires n < 0x1_0000
  {
    [n % 256, n / 256]
  }

  function Bytes32(w: Word): seq<Byte> {
    [w % 256, w / 256 % 256, w / 0x1_0000 % 256, w / 0x100_0000]
  }

  lemma Read16(b: seq<Byte>, i: nat, n: nat)
    requires i + 2 <= |b| && n < 0x1_0000 && b[i..i + 2] == Bytes16(n)
    ensures Le16(b, i) == n
  {
    assert b[i] == b[i..i + 2][0] && b[i + 1] == b[i..i + 2][1];
  }

  lemma Read32(b: seq<Byte>, i: nat, w: Word)
    requires i + 4 <= |b| && b[i..i + 4] == Bytes32(w)
    ensures Le32(b, i) == w
  {
    var t := b[i..i + 4];
    assert b[i] == t[0] && b[i + 1] == t[1] && b[i + 2] == t[2] && b[i + 3] == t[3];
    WordOfBytes(w);
  }

  lemma WordOfBytes(w: Word)
    ensures w % 256 + 0x100 * (w / 256 % 256) + 0x1_0000 * (w / 0x1_0000 % 256 + 0x100 * (w / 0x100_0000)) == w
  {
    assert w == 256 * (w / 256) + w % 256;
    assert w / 256 == 256 * (w / 0x1_0000) + w / 256 % 256;
    assert w / 0x1_0000 == 256 * (w / 0x100_0000) + w / 0x1_0000 % 256;
  }

  /** struct Proghdr. */
  datatype Proghdr = Proghdr(typ: Word, offset: Word, va: Word, pa: Word, filesz: Word, memsz: Word, flags: Word,
                             align: Word)

  function ProghdrBytes(h: Proghdr): (r: seq<Byte>)
    ensures |r| == 32
  {
    Bytes32(h.typ) + Bytes32(h.offset) + Bytes32(h.va) + Bytes32(h.pa)
    + Bytes32(h.filesz) + Bytes32(h.memsz) + Bytes32(h.flags) + Bytes32(h.align)
  }

  /** The bytes of the words of a header, one after the other. */
  lemma FieldsOf(b: seq<Byte>, i: nat, h: Proghdr)
    requires i + 32 <= |b| && b[i..i + 32] == ProghdrBytes(h)
    ensures b[i..i + 4] == Bytes32(h.typ) && b[i + 4..i + 8] == Bytes32(h.offset)
    ensures b[i + 8..i + 12] == Bytes32(h.va)
    ensures b[i + 16..i + 20] == Bytes32(h.filesz) && b[i + 20..i + 24] == Bytes32(h.memsz)
  {
    WordBytes(h.typ);
    WordBytes(h.offset);
    WordBytes(h.va);
    WordBytes(h.pa);
    WordBytes(h.filesz);
    WordBytes(h.memsz);
    hide Bytes32;
    var t := ProghdrBytes(h);
    assert t[0..4] == Bytes32(h.typ) && t[4..8] == Bytes32(h.offset) && t[8..12] == Bytes32(h.va);
    assert t[16..20] == Bytes32(h.filesz) && t[20..24] == Bytes32(h.memsz);
    hide ProghdrBytes;
    Part(b, i, t, 0);
    Part(b, i, t, 4);
    Part(b, i, t, 8);
    Part(b, i, t, 16);
    Part(b, i, t, 20);
  }

  lemma Part(b: seq<Byte>, i: nat, t: seq<Byte>, k: nat)
    requires i + 32 <= |b| && b[i..i + 32] == t && k <= 28
    ensures b[i + k..i + k + 4] == t[k..k + 4]
  {
    assert t[k] == b[i + k] && t[k + 1] == b[i + k + 1] && t[k + 2] == b[i + k + 2] && t[k + 3] == b[i + k + 3];
  }

  lemma WordBytes(w: Word)
    ensures |Bytes32(w)| == 4
  {
  }

  /** What an ELF file says at its start and in its program headers. */
  datatype Elf = Elf(entry: Word, phoff: Word, hdrs: seq<Proghdr>)

  /** b is a file that says so: magic number, e_entry, e_phoff, e_phnum, and the headers where e_phoff points. */
  ghost predicate Says(b: seq<Byte>, f: Elf) {
    && |b| >= 52 && |f.hdrs| < 0x1_0000 && f.phoff + 32 * |f.hdrs| <= |b|
    && b[0..4] == [0x7F, 'E' as int, 'L' as int, 'F' as int]
    && b[24..28] == Bytes32(f.entry) && b[28..32] == Bytes32(f.phoff) && b[44..46] == Bytes16(|f.hdrs|)
    && forall i :: 0 <= i < |f.hdrs| ==> HeaderAt(b, f.phoff + 32 * i, f.hdrs[i])
  }

  ghost predicate HeaderAt(b: seq<Byte>, i: nat, h: Proghdr) {
    i + 32 <= |b| && b[i..i + 32] == ProghdrBytes(h)
  }

  /** Then that is what load_icode reads. */
  lemma ReadsBack(b: seq<Byte>, f: Elf)
    requires Says(b, f)
    ensures Le32(b, 0) == ELF_MAGIC && Le32(b, 24) == f.entry && HasHeaders(b) && SegmentCount(b) == |f.hdrs|
    ensures forall i :: 0 <= i < |f.hdrs| ==>
      var h := f.hdrs[i];
      SegmentAt(b, i) == Segment(h.typ, h.offset, h.va, h.filesz, h.memsz)
  {
    assert Bytes32(0x464C_457F) == [0x7F, 'E' as int, 'L' as int, 'F' as int];
    Read32(b, 0, 0x464C_457F);
    Read32(b, 24, f.entry);
    Read32(b, 28, f.phoff);
    Read16(b, 44, |f.hdrs|);
    forall i | 0 <= i < |f.hdrs|
      ensures
        var h := f.hdrs[i];
        SegmentAt(b, i) == Segment(h.typ, h.offset, h.va, h.filesz, h.memsz)
    {
      assert HeaderAt(b, f.phoff + 32 * i, f.hdrs[i]);
      ReadsHeader(b, f.phoff + 32 * i, f.hdrs[i]);
    }
  }

  lemma ReadsHeader(b: seq<Byte>, i: nat, h: Proghdr)
    requires HeaderAt(b, i, h)
    ensures Le32(b, i) == h.typ && Le32(b, i + 4) == h.offset && Le32(b, i + 8) == h.va
    ensures Le32(b, i + 16) == h.filesz && Le32(b, i + 20) == h.memsz
  {
    hide Bytes32, Le32, ProghdrBytes;
    FieldsOf(b, i, h);
    Read32(b, i, h.typ);
    Read32(b, i + 4, h.offset);
    Read32(b, i + 8, h.va);
    Read32(b, i + 16, h.filesz);
    Read32(b, i + 20, h.memsz);
  }

  /** What load_icode asks of a file, in terms of its headers of type 1: see VmLoad.ValidElf. */
  predicate Sound(b: seq<Byte>, f: Elf) {
    && (forall i :: 0 <= i < |f.hdrs| && f.hdrs[i].typ == 1 ==>
          var h := f.hdrs[i];
          h.filesz <= h.memsz && h.offset + h.filesz <= |b| && h.va + h.memsz <= 0xEEBF_D000)
    && (forall i, j :: 0 <= i < j < |f.hdrs| && f.hdrs[i].typ == 1 && f.hdrs[j].typ == 1 ==>
          Apart(f.hdrs[i], f.hdrs[j]) || Apart(f.hdrs[j], f.hdrs[i]))
  }

  /** h ends in a page before the one in which g starts. */
  predicate Apart(h: Proghdr, g: Proghdr) { (h.va + h.memsz + 4095) / 4096 <= g.va / 4096 }

  lemma SoundIsValid(b: seq<Byte>, f: Elf)
    requires Says(b, f)
    ensures ValidElf(b) <==> Sound(b, f)
  {
    ReadsBack(b, f);
    hide Says, HasHeaders, SegmentAt, SegmentCount;
    assert forall i :: 0 <= i < |f.hdrs| ==> (IsLoad(SegmentAt(b, i)) <==> f.hdrs[i].typ == 1);
    assert forall i :: 0 <= i < |f.hdrs| ==> SegmentAt(b, i).va == f.hdrs[i].va;
  }

  /** At va are the file's bytes from the offset on, as many as p_filesz says, and then zeros, up to p_memsz. */
  ghost predicate Placed(v: Vm, d: nat, b: seq<Byte>, h: Proghdr)
    requires Lengths(v)
  {
    && h.offset + h.filesz <= |b| && h.filesz <= h.memsz && h.va + h.memsz < 0x1_0000_0000
    && (forall a: Word :: h.va <= a < h.va + h.filesz ==> ByteAt(v, d, a) == Some(b[h.offset + (a - h.va)]))
    && (forall a: Word :: h.va + h.filesz <= a < h.va + h.memsz ==> ByteAt(v, d, a) == Some(0))
  }

  /** load_icode leaves the program in memory as the file says: every header of type 1. */
  lemma IcodeIsPlaced(v: Vm, w: Vm, d: nat, b: seq<Byte>, f: Elf)
    requires Inv(v) && ValidElf(b) && Says(b, f) && IcodeLoaded(v, w, d, b)
    ensures forall i :: 0 <= i < |f.hdrs| && f.hdrs[i].typ == 1 ==> Placed(w, d, b, f.hdrs[i])
  {
    ReadsBack(b, f);
    hide Inv, Says, ByteAt, HasHeaders, SegmentAt, Placed, Loadable, ElsewhereSame;
    forall i | 0 <= i < |f.hdrs| && f.hdrs[i].typ == 1 ensures Placed(w, d, b, f.hdrs[i]) {
      LoadableAt(b, i);
      assert SegmentLoaded(w, d, b, SegmentAt(b, i));
      SegmentIsPlaced(w, d, b, SegmentAt(b, i), f.hdrs[i]);
    }
  }

  lemma SegmentIsPlaced(w: Vm, d: nat, b: seq<Byte>, s: Segment, h: Proghdr)
    requires Lengths(w) && Loadable(b, s) && SegmentLoaded(w, d, b, s)
    requires s == Segment(h.typ, h.offset, h.va, h.filesz, h.memsz)
    ensures Placed(w, d, b, h)
  {
    hide ByteAt;
  }

  /** The pages that the headers from k on touch, each header for itself. */
  function PagesFrom(hdrs: seq<Proghdr>, k: nat): nat
    requires k <= |hdrs|
    decreases |hdrs| - k
  {
    if k == |hdrs| then 0
    else
      var h := hdrs[k];
      (if h.typ == 1 then (h.va + h.memsz + 4095) / 4096 - h.va / 4096 else 0) + PagesFrom(hdrs, k + 1)
  }

  /** Two free pages for each page of the program and for the stack page are enough for load_icode. */
  lemma EnoughIsRoom(v: Vm, d: nat, b: seq<Byte>, f: Elf)
    requires EnvSpace(v, d) && ValidElf(b) && Says(b, f) && |v.fl| >= 2 * PagesFrom(f.hdrs, 0) + 2
    ensures Room(v, d, b)
  {
    hide Says, ValidElf, PagesFrom;
    ReadsBack(b, f);
    NeedIsAtMost(v.mem[d], b, f, 0);
  }

  lemma {:induction false} NeedIsAtMost(row: Row, b: seq<Byte>, f: Elf, k: nat)
    requires ValidElf(b) && Says(b, f) && k <= |f.hdrs| == SegmentCount(b)
    ensures Need(row, b, k) <= 2 * PagesFrom(f.hdrs, k) + 2
    decreases |f.hdrs| - k
  {
    hide Says, ValidElf, SegmentAt, Cost, HasHeaders, Loadable;
    if k == |f.hdrs| {
      CostIsAtMost(row, STACK_PAGE, STACK_PAGE + 1);
    } else {
      ReadsBack(b, f);
      var s := SegmentAt(b, k);
      NeedIsAtMost(row, b, f, k + 1);
      if IsLoad(s) {
        LoadableAt(b, k);
        SegmentBounds(b, s);
        CostIsAtMost(row, FirstPage(s), PageEnd(s));
      }
    }
  }

  lemma CostIsAtMost(row: Row, lo: nat, hi: nat)
    requires lo <= hi <= 0x10_0000
    ensures Cost(row, lo, hi) <= 2 * (hi - lo)
  {
    SlotsBound(hi);
    MissingIsAtMost(row, SlotOf(lo), SlotsUpTo(hi));
    if lo < hi {
      assert (hi + 1023) / 1024 - lo / 1024 <= hi - lo;
    }
  }

  lemma {:induction false} MissingIsAtMost(row: Row, i: nat, j: nat)
    requires j <= 1024
    ensures Missing(row, i, j) <= if i < j then j - i else 0
    decreases j - i
  {
    if i < j {
      MissingIsAtMost(row, i + 1, j);
    }
  }
}
