/** load_icode of kern/env.c: an ELF image in an address space, written through its own page directory. */
module VmLoad {
  import opened Wrappers
  import opened Mmu
  import opened VmState
  import opened VmAlloc
  import opened VmPaging
  import opened VmTlb
  import opened VmRuns
  import opened VmTeardown
  import opened VmRegion
  import opened Pmap

  // ---- reading and writing through the page directory in force ----

  /** The byte at address a of address space d. */
  ghost function ByteAt(v: Vm, d: nat, a: Word): Option<Byte>
    requires Lengths(v)
  {
    match PageBytes(v, Mapping(d, PageOf(a)))
    case None => None
    case Some(b) => Some(b[a % 4096])
  }

  /** Writing bytes of mapped pages is no concern of the invariant. */
  lemma PutByteKeeps(v: Vm, f: nat, o: nat, b: Byte, d: nat)
    requires Inv(v) && f < |v.mem| && o < 4096
    ensures var w := PutByte(v, f, o, b); Inv(w) && Steady(v, w, d) && forall m :: UserMap(w, m) == UserMap(v, m)
  {
    var w := PutByte(v, f, o, b);
    assert w.mem == v.mem && w.kind == v.kind && w.pages == v.pages && w.fl == v.fl && w.head == v.head;
    assert Coherent(v) ==> Sizes(w) && Coherent(w);
    hide Inv, Shape, FreeListOk, CountsOk, SameView, SameUser, Coherent;
    InvIgnoresCpu(v, w);
  }

  /** A byte written to a private page is the only one that changes, in any address space. */
  lemma PutByteChangesOne(v: Vm, d: nat, a: Word, b: Byte)
    requires Inv(v) && Private(v, d, PageOf(a))
    ensures var w := PutByte(v, FrameOf(UserMap(v, Mapping(d, PageOf(a))).value), a % 4096, b);
      forall e: nat, x: Word :: ByteAt(w, e, x) == if e == d && x == a then Some(b) else ByteAt(v, e, x)
  {
    var f := FrameOf(UserMap(v, Mapping(d, PageOf(a))).value);
    var w := PutByte(v, f, a % 4096, b);
    PutByteKeeps(v, f, a % 4096, b, d);
    hide Inv, UserMap, Sizes, PageOf;
    forall e: nat, x: Word ensures ByteAt(w, e, x) == if e == d && x == a then Some(b) else ByteAt(v, e, x) {
      var m := Mapping(e, PageOf(x));
      assert UserMap(w, m) == UserMap(v, m);
      if UserMap(v, m).Some? && FrameOf(UserMap(v, m).value) == f {
        assert m in Mappings(v, f);
        SamePageSameOffset(x, a);
      }
    }
  }

  lemma SamePageSameOffset(x: Word, a: Word)
    ensures PageOf(x) == PageOf(a) && x % 4096 == a % 4096 ==> x == a
  {
    PageOfIsPageNumber(x, a);
  }

  lemma PutByteKeepsPrivate(v: Vm, f: nat, o: nat, b: Byte, d: nat, p: VPage)
    requires Inv(v) && f < |v.mem| && o < 4096 && Private(v, d, p)
    ensures Private(PutByte(v, f, o, b), d, p)
  {
    var w := PutByte(v, f, o, b);
    PutByteKeeps(v, f, o, b, d);
    hide Inv, UserMap, PutByte;
    assert UserMap(w, Mapping(d, p)) == UserMap(v, Mapping(d, p));
    SameUserSameMappings(v, w, FrameOf(UserMap(v, Mapping(d, p)).value));
  }

  /** Each page from number lo up to hi of d is private or not mapped. */
  ghost predicate Loose(v: Vm, d: nat, lo: nat, hi: nat)
    requires Lengths(v)
  {
    forall p :: lo <= NoOf(p) < hi ==> Private(v, d, p) || UserMap(v, Mapping(d, p)) == None
  }

  ghost predicate AllPrivate(v: Vm, d: nat, lo: nat, hi: nat)
    requires Lengths(v)
  {
    forall p :: lo <= NoOf(p) < hi ==> Private(v, d, p)
  }

  /** w is v with the bytes written at va of d. */
  ghost predicate Wrote(v: Vm, w: Vm, d: nat, va: Word, bytes: seq<Byte>)
    requires Inv(v)
  {
    && Inv(w) && w == v.(data := w.data)
    && forall e: nat, x: Word ::
         ByteAt(w, e, x) == if e == d && va <= x < va + |bytes| then Some(bytes[x - va]) else ByteAt(v, e, x)
  }

  /** The state of a writing loop. */
  ghost predicate Writing(v0: Vm, v: Vm, d: nat, va: Word, bytes: seq<Byte>, k: nat, lo: nat, hi: nat)
    requires Inv(v0)
  {
    && k <= |bytes| && Wrote(v0, v, d, va, bytes[..k]) && v.cr3 == d
    && Loose(v, d, lo, hi) && (AllPrivate(v0, d, lo, hi) ==> AllPrivate(v, d, lo, hi))
  }

  lemma LooseStays(v: Vm, f: nat, o: nat, b: Byte, d: nat, lo: nat, hi: nat)
    requires Inv(v) && f < |v.mem| && o < 4096
    ensures var w := PutByte(v, f, o, b);
      Inv(w) && (Loose(v, d, lo, hi) ==> Loose(w, d, lo, hi)) && (AllPrivate(v, d, lo, hi) ==> AllPrivate(w, d, lo, hi))
  {
    var w := PutByte(v, f, o, b);
    PutByteKeeps(v, f, o, b, d);
    hide Inv, UserMap, PutByte, Private, Sizes;
    forall p ensures Private(v, d, p) ==> Private(w, d, p)
        ensures UserMap(w, Mapping(d, p)) == UserMap(v, Mapping(d, p)) {
      if Private(v, d, p) {
        PutByteKeepsPrivate(v, f, o, b, d, p);
      }
    }
  }

  /** One byte more. */
  lemma WritingSteps(v0: Vm, v: Vm, d: nat, va: Word, bytes: seq<Byte>, k: nat, lo: nat, hi: nat)
    requires Inv(v0) && Writing(v0, v, d, va, bytes, k, lo, hi) && k < |bytes| && va + |bytes| <= UTOP
    requires lo * 4096 <= va && va + |bytes| <= hi * 4096 && EnvSpace(v, d)
    ensures var e := Walk(v.mem, d, PageOf(va + k));
      && (e.Some? ==> FrameOf(e.value) < |v.mem|)
      && (e.Some? ==> Writing(v0, PutByte(v, FrameOf(e.value), (va + k) % 4096, bytes[k]), d, va, bytes, k + 1, lo, hi))
      && (AllPrivate(v0, d, lo, hi) ==> e.Some?)
  {
    hide Inv, Loose, AllPrivate, UserMap, Sizes, PageOf, NoOf, ByteAt, Walk;
    var a: Word := va + k;
    InRange(a, lo, hi);
    WritingAt(v, d, a, lo, hi);
    if Walk(v.mem, d, PageOf(a)).Some? {
      var f, b := FrameOf(Walk(v.mem, d, PageOf(a)).value), bytes[k];
      LooseStays(v, f, a % 4096, b, d, lo, hi);
      PutByteChangesOne(v, d, a, b);
      WroteMore(v0, v, PutByte(v, f, a % 4096, b), d, va, bytes, k);
    }
  }

  lemma InRange(a: Word, lo: nat, hi: nat)
    requires lo * 4096 <= a < hi * 4096 && a < UTOP
    ensures lo <= NoOf(PageOf(a)) < hi && UserPage(PageOf(a))
  {
    NoOfPage(a);
    PageOfIsPageNumber(a, a);
  }

  /** What a store to a page of the region meets. */
  lemma WritingAt(v: Vm, d: nat, a: Word, lo: nat, hi: nat)
    requires EnvSpace(v, d) && Loose(v, d, lo, hi) && lo <= NoOf(PageOf(a)) < hi && UserPage(PageOf(a))
    ensures var e := Walk(v.mem, d, PageOf(a));
      && e == UserMap(v, Mapping(d, PageOf(a)))
      && (e.Some? ==> FrameOf(e.value) < |v.mem| && Private(v, d, PageOf(a)))
      && (AllPrivate(v, d, lo, hi) ==> e.Some?)
  {
    assert Private(v, d, PageOf(a)) || UserMap(v, Mapping(d, PageOf(a))) == None;
    assert AllPrivate(v, d, lo, hi) ==> Private(v, d, PageOf(a));
  }

  lemma WroteMore(v0: Vm, v: Vm, w: Vm, d: nat, va: Word, bytes: seq<Byte>, k: nat)
    requires Inv(v0) && Inv(v) && Inv(w) && k < |bytes| && va + k < 0x1_0000_0000
    requires Wrote(v0, v, d, va, bytes[..k]) && w == v.(data := w.data)
    requires forall e: nat, x: Word ::
               ByteAt(w, e, x) == if e == d && x == va + k then Some(bytes[k]) else ByteAt(v, e, x)
    ensures Wrote(v0, w, d, va, bytes[..k + 1])
  {
    hide Inv, ByteAt;
  }

  /** What the writing loops may assume, where they start. */
  ghost predicate Writable(v: Vm, d: nat, va: Word, n: nat, lo: nat, hi: nat) {
    && Inv(v) && EnvSpace(v, d) && v.cr3 == d && Loose(v, d, lo, hi)
    && va + n <= UTOP && lo * 4096 <= va && va + n <= hi * 4096
  }

  lemma WritingStarts(v: Vm, d: nat, va: Word, bytes: seq<Byte>, lo: nat, hi: nat)
    requires Writable(v, d, va, |bytes|, lo, hi)
    ensures Inv(v) && Writing(v, v, d, va, bytes, 0, lo, hi)
  {
    assert bytes[..0] == [];
  }

  /** Stores the bytes one after the other at va (memcpy, memset); false stands for a page fault. */
  method WriteBytes(mm: MemoryManager, d: nat, va: Word, bytes: seq<Byte>, ghost lo: nat, ghost hi: nat)
    returns (ok: bool)
    requires mm.Repr() && Writable(mm.v, d, va, |bytes|, lo, hi)
    modifies mm, mm.data
    ensures mm.Repr() && Inv(old(mm.v))
    ensures ok ==> Writing(old(mm.v), mm.v, d, va, bytes, |bytes|, lo, hi)
    ensures AllPrivate(old(mm.v), d, lo, hi) ==> ok
  {
    ghost var v0 := mm.v;
    WritingStarts(v0, d, va, bytes, lo, hi);
    var k := 0;
    hide Inv, Loose, AllPrivate, Wrote, MemoryManager.Repr, ByteAt, Walk;
    while k < |bytes|
      invariant mm.Repr() && Writing(v0, mm.v, d, va, bytes, k, lo, hi)
    {
      ok := WriteOne(mm, d, va, bytes, k, v0, lo, hi);
      if !ok {
        return;
      }
      k := k + 1;
    }
    ok := true;
  }

  lemma WritingSpace(mm: MemoryManager, v0: Vm, d: nat, va: Word, bytes: seq<Byte>, k: nat, lo: nat, hi: nat)
    requires mm.Repr() && Writable(v0, d, va, |bytes|, lo, hi)
    requires Inv(v0) && Writing(v0, mm.v, d, va, bytes, k, lo, hi)
    ensures mm.Valid() && EnvSpace(mm.v, d) && mm.v.cr3 == d && d < |mm.v.mem| && IsDir(mm.v.kind[d])
    ensures va + |bytes| <= UTOP && lo * 4096 <= va && va + |bytes| <= hi * 4096 && Lengths(v0)
  {
    hide Inv, Loose, AllPrivate, ByteAt, MemoryManager.Repr;
  }

  method WriteOne(mm: MemoryManager, d: nat, va: Word, bytes: seq<Byte>, k: nat, ghost v0: Vm, ghost lo: nat,
      ghost hi: nat)
    returns (ok: bool)
    requires mm.Repr() && Writable(v0, d, va, |bytes|, lo, hi)
    requires Inv(v0) && Writing(v0, mm.v, d, va, bytes, k, lo, hi) && k < |bytes|
    modifies mm, mm.data
    ensures mm.Repr() && Inv(v0) && (ok ==> Writing(v0, mm.v, d, va, bytes, k + 1, lo, hi))
    ensures Lengths(v0) && (AllPrivate(v0, d, lo, hi) ==> ok)
  {
    hide *;
    WritingSpace(mm, v0, d, va, bytes, k, lo, hi);
    WritingSteps(v0, mm.v, d, va, bytes, k, lo, hi);
    ok := mm.StoreByte(va + k, bytes[k]);
  }

  // ---- the ELF file ----

  const ELF_MAGIC: Word := 0x464C_457F
  const ELF_PROG_LOAD: Word := 1

  /** Little-endian numbers in a file. */
  function Le16(b: seq<Byte>, i: nat): nat
    requires i + 2 <= |b|
  {
    b[i] as int + 0x100 * b[i + 1] as int
  }

  function Le32(b: seq<Byte>, i: nat): Word
    requires i + 4 <= |b|
  {
    Le16(b, i) + 0x1_0000 * Le16(b, i + 2)
  }

  /** struct Proghdr: p_type, p_offset, p_va, p_filesz and p_memsz. */
  datatype Segment = Segment(typ: Word, offset: Word, va: Word, filesz: Word, memsz: Word)

  /** The ELF header lies in the file, and so do the program headers that it announces. */
  predicate HasHeaders(b: seq<Byte>) {
    |b| >= 52 && Le32(b, 28) + 32 * Le16(b, 44) <= |b|
  }

  /** e_phnum. */
  function SegmentCount(b: seq<Byte>): nat
    requires HasHeaders(b)
  {
    Le16(b, 44)
  }

  /** Program header i. */
  function SegmentAt(b: seq<Byte>, i: nat): Segment
    requires HasHeaders(b) && i < SegmentCount(b)
  {
    var h := Le32(b, 28) + 32 * i;
    Segment(Le32(b, h), Le32(b, h + 4), Le32(b, h + 8), Le32(b, h + 16), Le32(b, h + 20))
  }

  /** The pages that a segment touches. */
  function FirstPage(s: Segment): nat { s.va / 4096 }
  function PageEnd(s: Segment): nat { (s.va + s.memsz + 4095) / 4096 }

  /** A loadable segment that is all in the file as far as it is stored, and lies below the initial stack. */
  predicate Loadable(b: seq<Byte>, s: Segment) {
    s.filesz <= s.memsz && s.offset + s.filesz <= |b| && s.va + s.memsz <= USTACKTOP - PGSIZE
  }

  /** The byte a segment puts at address a: from the file, and zero behind the stored part. */
  function ImageByte(b: seq<Byte>, s: Segment, a: Word): Byte
    requires Loadable(b, s) && s.va <= a < s.va + s.memsz
  {
    if a < s.va + s.filesz then b[s.offset + (a - s.va)] else 0
  }

  /** The segment is in memory. */
  ghost predicate SegmentLoaded(v: Vm, d: nat, b: seq<Byte>, s: Segment)
    requires Lengths(v) && Loadable(b, s)
  {
    forall a: Word :: s.va <= a < s.va + s.memsz ==> ByteAt(v, d, a) == Some(ImageByte(b, s, a))
  }

  /** No byte and no mapping outside the pages lo to hi - 1 of d has changed. */
  ghost predicate BytesOutside(v: Vm, w: Vm, d: nat, lo: nat, hi: nat)
    requires Lengths(v) && Lengths(w)
  {
    && (forall e: nat, x: Word :: e != d || x / 4096 < lo || x / 4096 >= hi ==> ByteAt(w, e, x) == ByteAt(v, e, x))
    && (forall m: Mapping :: m.dir != d || NoOf(m.page) < lo || NoOf(m.page) >= hi ==> UserMap(w, m) == UserMap(v, m))
  }

  lemma OutsideBytes(v: Vm, w: Vm, d: nat, lo: nat, hi: nat)
    requires Lengths(v) && Lengths(w) && OutsideSame(v, w, d, lo, hi)
    ensures BytesOutside(v, w, d, lo, hi)
  {
    forall e: nat, x: Word | e != d || x / 4096 < lo || x / 4096 >= hi ensures ByteAt(w, e, x) == ByteAt(v, e, x) {
      NoOfPage(x);
      var m := Mapping(e, PageOf(x));
      assert PageBytes(w, m) == PageBytes(v, m);
    }
  }

  lemma RegionIsWritable(v: Vm, u: Vm, d: nat, lo: nat, hi: nat)
    requires Inv(v) && EnvSpace(v, d) && hi <= 0x10_0000 && RegionDone(v, u, d, lo, hi, true)
    ensures EnvSpace(u, d) && Loose(u, d, lo, hi) && u.cr3 == v.cr3
    ensures AllFresh(u, d, lo, hi) ==> AllPrivate(u, d, lo, hi)
  {
    hide Inv, Private, UserMap, PageBytes;
  }

  /** Segment s has been written to its pages. */
  ghost predicate Filled(u: Vm, w: Vm, d: nat, b: seq<Byte>, s: Segment)
    requires Inv(u) && Loadable(b, s)
  {
    Inv(w) && w == u.(data := w.data) && SegmentLoaded(w, d, b, s) && BytesOutside(u, w, d, FirstPage(s), PageEnd(s))
  }

  /** The two writes of a segment, one behind the other, into a region that was just allocated. */
  lemma WritesMakeImage(u: Vm, x: Vm, w: Vm, d: nat, b: seq<Byte>, s: Segment, zeros: seq<Byte>)
    requires Inv(u) && Loadable(b, s)
    requires Wrote(u, x, d, s.va, b[s.offset..s.offset + s.filesz])
    requires |zeros| == s.memsz - s.filesz && forall i :: 0 <= i < |zeros| ==> zeros[i] == 0
    requires Inv(x) && Wrote(x, w, d, s.va + s.filesz, zeros)
    ensures Filled(u, w, d, b, s)
  {
    hide Inv, ByteAt;
    forall a: Word | s.va <= a < s.va + s.memsz ensures ByteAt(w, d, a) == Some(ImageByte(b, s, a)) {
      assert ByteAt(w, d, a) == if s.va + s.filesz <= a then Some(zeros[a - s.va - s.filesz]) else ByteAt(x, d, a);
      assert ByteAt(x, d, a) == if a < s.va + s.filesz then Some(b[s.offset..s.offset + s.filesz][a - s.va])
                                else ByteAt(u, d, a);
    }
    forall e: nat, a: Word | e != d || a / 4096 < FirstPage(s) || a / 4096 >= PageEnd(s)
      ensures ByteAt(w, e, a) == ByteAt(u, e, a)
    {
      assert e != d || a < s.va || a >= s.va + s.memsz;
      assert ByteAt(x, e, a) == ByteAt(u, e, a);
    }
    SameTables(u, w);
  }

  lemma SameTables(u: Vm, w: Vm)
    requires Lengths(u) && Lengths(w) && w.mem == u.mem && w.kind == u.kind
    ensures forall m :: UserMap(w, m) == UserMap(u, m)
  {
  }

  /** What loading one segment does. */
  ghost predicate SegmentDone(v: Vm, w: Vm, d: nat, b: seq<Byte>, s: Segment)
    requires Inv(v) && EnvSpace(v, d) && Loadable(b, s)
  {
    && Inv(w) && EnvSpace(w, d) && Steady(v, w, d)
    && SegmentLoaded(w, d, b, s) && BytesOutside(v, w, d, FirstPage(s), PageEnd(s))
  }

  /** The free pages and page tables after a segment for which there was room. */
  ghost predicate Budgeted(v: Vm, w: Vm, d: nat, lo: nat, hi: nat)
    requires EnvSpace(v, d) && EnvSpace(w, d) && hi <= 0x10_0000
  {
    Slack(v, d, lo, hi) >= 0 ==>
      |w.fl| >= Slack(v, d, lo, hi) && KeepsTables(v.mem[d], w.mem[d]) && SameHeld(v, w)
  }

  lemma SegmentBounds(b: seq<Byte>, s: Segment)
    requires Loadable(b, s)
    ensures PageEnd(s) * 4096 <= UTOP && PageEnd(s) <= 0x10_0000
    ensures FirstPage(s) * 4096 <= s.va && s.va + s.memsz <= PageEnd(s) * 4096
    ensures s.va + s.memsz <= UTOP
    ensures FirstPage(s) == s.va / 4096 && PageEnd(s) == (s.va + s.memsz + 4095) / 4096
  {
  }

  lemma SegmentIsDone(v: Vm, u: Vm, w: Vm, d: nat, b: seq<Byte>, s: Segment)
    requires Inv(v) && EnvSpace(v, d) && Loadable(b, s) && PageEnd(s) <= 0x10_0000
    requires RegionDone(v, u, d, FirstPage(s), PageEnd(s), true)
    requires Inv(u) && Filled(u, w, d, b, s)
    ensures SegmentDone(v, w, d, b, s) && EnvSpace(w, d) && Budgeted(v, w, d, FirstPage(s), PageEnd(s))
  {
    hide Inv, ByteAt, SegmentLoaded, OutsideSame, BytesOutside, Loadable, FirstPage, PageEnd, Done, AllFresh, Slack,
        Coherent;
    OutsideBytes(v, u, d, FirstPage(s), PageEnd(s));
    BytesOutsideTrans(v, u, w, d, FirstPage(s), PageEnd(s));
    DataKeepsSteady(v, u, w, d);
  }

  lemma BytesOutsideTrans(u: Vm, v: Vm, w: Vm, d: nat, lo: nat, hi: nat)
    requires Lengths(u) && Lengths(v) && Lengths(w) && BytesOutside(u, v, d, lo, hi) && BytesOutside(v, w, d, lo, hi)
    ensures BytesOutside(u, w, d, lo, hi)
  {
    hide ByteAt, UserMap;
    forall e: nat, x: Word | e != d || x / 4096 < lo || x / 4096 >= hi ensures ByteAt(w, e, x) == ByteAt(u, e, x) {
      assert ByteAt(v, e, x) == ByteAt(u, e, x);
    }
    forall m: Mapping | m.dir != d || NoOf(m.page) < lo || NoOf(m.page) >= hi ensures UserMap(w, m) == UserMap(u, m) {
      assert UserMap(v, m) == UserMap(u, m);
    }
  }

  lemma DataKeepsSteady(v: Vm, u: Vm, w: Vm, d: nat)
    requires Inv(v) && Inv(u) && Inv(w) && EnvSpace(v, d) && Steady(v, u, d) && w == u.(data := w.data)
    ensures Steady(v, w, d) && EnvSpace(w, d)
  {
    assert Coherent(u) ==> Coherent(w);
    hide Inv, Coherent;
  }

  function ZeroSeq(n: nat): (r: seq<Byte>)
    ensures |r| == n && forall i :: 0 <= i < n ==> r[i] == 0
  {
    seq(n, _ => 0)
  }

  /** memcpy of the stored part and memset of the rest. */
  method FillSegment(mm: MemoryManager, d: nat, b: seq<Byte>, s: Segment) returns (ok: bool)
    requires mm.Repr() && Loadable(b, s) && Writable(mm.v, d, s.va, s.memsz, FirstPage(s), PageEnd(s))
    modifies mm, mm.data
    ensures mm.Repr() && Inv(old(mm.v))
    ensures ok ==> Filled(old(mm.v), mm.v, d, b, s)
    ensures AllPrivate(old(mm.v), d, FirstPage(s), PageEnd(s)) ==> ok
  {
    ghost var u, lo, hi := mm.v, FirstPage(s), PageEnd(s);
    hide Inv, ByteAt, MemoryManager.Repr, AllPrivate, Loose, FirstPage, PageEnd, Filled;
    ok := WriteBytes(mm, d, s.va, b[s.offset..s.offset + s.filesz], lo, hi);
    if !ok {
      return;
    }
    ghost var x := mm.v;
    WholeSlice(b[s.offset..s.offset + s.filesz]);
    if s.filesz < s.memsz {
      ok := WriteBytes(mm, d, s.va + s.filesz, ZeroSeq(s.memsz - s.filesz), lo, hi);
      if !ok {
        return;
      }
      WholeSlice(ZeroSeq(s.memsz - s.filesz));
    }
    WritesMakeImage(u, x, mm.v, d, b, s, ZeroSeq(s.memsz - s.filesz));
  }

  lemma WholeSlice(s: seq<Byte>)
    ensures s[..|s|] == s
  {
  }

  /** The body of the loop over the program headers, for a loadable segment. */
  method LoadSegment(mm: MemoryManager, d: nat, b: seq<Byte>, s: Segment) returns (ok: bool)
    requires mm.Repr() && Inv(mm.v) && EnvSpace(mm.v, d) && mm.v.cr3 == d && Loadable(b, s)
    modifies mm, mm.phys, mm.data, mm.pages
    ensures mm.Repr() && PageEnd(s) <= 0x10_0000
    ensures ok ==> SegmentDone(old(mm.v), mm.v, d, b, s) && EnvSpace(mm.v, d)
    ensures ok ==> Budgeted(old(mm.v), mm.v, d, FirstPage(s), PageEnd(s))
    ensures Slack(old(mm.v), d, FirstPage(s), PageEnd(s)) >= 0 ==> ok
  {
    hide Inv, ByteAt, MemoryManager.Repr, Steady, Done, AllFresh, AllPrivate, Loose, OutsideSame, KeepsTables;
    hide FirstPage, PageEnd, Loadable, SegmentDone, Budgeted, Filled, Slack;
    ghost var v, lo, hi := mm.v, FirstPage(s), PageEnd(s);
    SegmentBounds(b, s);
    ok := RegionAlloc(mm, d, s.va, s.memsz);
    if ok {
      ghost var u := mm.v;
      RegionIsWritable(v, u, d, lo, hi);
      ok := FillSegment(mm, d, b, s);
      if ok {
        SegmentIsDone(v, u, mm.v, d, b, s);
      }
    }
  }

  // ---- load_icode ----

  predicate IsLoad(s: Segment) { s.typ == ELF_PROG_LOAD }

  /** Two segments touch no common page. */
  predicate PageDisjoint(s: Segment, t: Segment) { PageEnd(s) <= FirstPage(t) || PageEnd(t) <= FirstPage(s) }

  /** A file whose loadable segments are loadable and touch no page twice. */
  predicate ValidElf(b: seq<Byte>)
    ensures ValidElf(b) ==> HasHeaders(b)
  {
    && HasHeaders(b)
    && (forall i :: 0 <= i < SegmentCount(b) && IsLoad(SegmentAt(b, i)) ==> Loadable(b, SegmentAt(b, i)))
    && (forall i, j :: 0 <= i < j < SegmentCount(b) && IsLoad(SegmentAt(b, i)) && IsLoad(SegmentAt(b, j)) ==>
          PageDisjoint(SegmentAt(b, i), SegmentAt(b, j)))
  }

  /** Page number n belongs to one of the first k segments. */
  ghost predicate InImage(b: seq<Byte>, k: nat, n: nat)
    requires HasHeaders(b) && k <= SegmentCount(b)
  {
    exists i :: 0 <= i < k && IsLoad(SegmentAt(b, i)) && FirstPage(SegmentAt(b, i)) <= n < PageEnd(SegmentAt(b, i))
  }

  /** No byte and no mapping outside the image of the first k segments has changed. */
  ghost predicate RestSame(v: Vm, w: Vm, d: nat, b: seq<Byte>, k: nat)
    requires Lengths(v) && Lengths(w) && HasHeaders(b) && k <= SegmentCount(b)
  {
    && (forall e: nat, x: Word :: e != d || !InImage(b, k, x / 4096) ==> ByteAt(w, e, x) == ByteAt(v, e, x))
    && (forall m: Mapping :: m.dir != d || !InImage(b, k, NoOf(m.page)) ==> UserMap(w, m) == UserMap(v, m))
  }

  /** The first k segments are in memory. */
  ghost predicate ImageLoaded(v: Vm, d: nat, b: seq<Byte>, k: nat)
    requires Lengths(v) && ValidElf(b) && k <= SegmentCount(b)
  {
    forall i :: 0 <= i < k && IsLoad(SegmentAt(b, i)) ==> SegmentLoaded(v, d, b, SegmentAt(b, i))
  }

  /** What the segments from k on, and the stack page, cost. */
  function Need(row: Row, b: seq<Byte>, k: nat): nat
    requires ValidElf(b) && k <= SegmentCount(b)
    decreases SegmentCount(b) - k
  {
    if k == SegmentCount(b) then Cost(row, STACK_PAGE, STACK_PAGE + 1)
    else
      var s := SegmentAt(b, k);
      (if IsLoad(s) then SegmentBounds(b, s); Cost(row, FirstPage(s), PageEnd(s)) else 0) + Need(row, b, k + 1)
  }

  /** The page below USTACKTOP. */
  const STACK_PAGE: nat := 0xEEBF_D

  lemma {:induction false} MissingShrinks(row: Row, row': Row, i: nat, j: nat)
    requires j <= 1024 && KeepsTables(row, row')
    ensures Missing(row', i, j) <= Missing(row, i, j)
    decreases j - i
  {
    if i >= j {
    } else {
      MissingShrinks(row, row', i + 1, j);
    }
  }

  lemma CostShrinks(row: Row, row': Row, lo: nat, hi: nat)
    requires hi <= 0x10_0000 && KeepsTables(row, row')
    ensures Cost(row', lo, hi) <= Cost(row, lo, hi)
  {
    SlotsBound(hi);
    MissingShrinks(row, row', SlotOf(lo), SlotsUpTo(hi));
  }

  lemma {:induction false} NeedShrinks(row: Row, row': Row, b: seq<Byte>, k: nat)
    requires ValidElf(b) && k <= SegmentCount(b) && KeepsTables(row, row')
    ensures Need(row', b, k) <= Need(row, b, k)
    decreases SegmentCount(b) - k
  {
    hide Cost, KeepsTables, SegmentAt, ValidElf, FirstPage, PageEnd;
    if k == SegmentCount(b) {
      CostShrinks(row, row', STACK_PAGE, STACK_PAGE + 1);
    } else {
      var s := SegmentAt(b, k);
      if IsLoad(s) {
        LoadableAt(b, k);
        SegmentBounds(b, s);
        CostShrinks(row, row', FirstPage(s), PageEnd(s));
      }
      NeedShrinks(row, row', b, k + 1);
    }
  }

  lemma LoadableAt(b: seq<Byte>, k: nat)
    requires ValidElf(b) && k < SegmentCount(b) && IsLoad(SegmentAt(b, k))
    ensures Loadable(b, SegmentAt(b, k))
  {
  }

  /** The state of the loop over the program headers. */
  ghost predicate Loading(v0: Vm, v: Vm, d: nat, b: seq<Byte>, k: nat)
    requires Inv(v0) && ValidElf(b)
  {
    && EnvSpace(v0, d) && k <= SegmentCount(b)
    && Inv(v) && EnvSpace(v, d) && Steady(v0, v, d) && v.cr3 == d
    && ImageLoaded(v, d, b, k) && RestSame(v0, v, d, b, k)
    && (|v0.fl| >= Need(v0.mem[d], b, 0) ==> |v.fl| >= Need(v.mem[d], b, k) && SameHeld(v0, v))
  }

  /** A segment is loaded after the others: they stay, as it shares no page with them. */
  lemma ImageGrows(v: Vm, w: Vm, d: nat, b: seq<Byte>, k: nat)
    requires Inv(v) && Inv(w) && ValidElf(b) && k < SegmentCount(b) && IsLoad(SegmentAt(b, k))
    requires ImageLoaded(v, d, b, k) && SegmentLoaded(w, d, b, SegmentAt(b, k))
    requires BytesOutside(v, w, d, FirstPage(SegmentAt(b, k)), PageEnd(SegmentAt(b, k)))
    ensures ImageLoaded(w, d, b, k + 1)
  {
    hide Inv, ByteAt, SegmentAt, ValidElf, HasHeaders, SegmentLoaded, BytesOutside, FirstPage, PageEnd, PageDisjoint,
      Loadable, IsLoad;
    forall i: nat | i < k + 1 && IsLoad(SegmentAt(b, i))
      ensures Loadable(b, SegmentAt(b, i)) && SegmentLoaded(w, d, b, SegmentAt(b, i))
    {
      LoadableAt(b, i);
      if i < k {
        Disjoint(b, i, k);
        OtherSegmentStays(v, w, d, b, SegmentAt(b, i), SegmentAt(b, k));
      }
    }
  }

  lemma Disjoint(b: seq<Byte>, i: nat, k: nat)
    requires ValidElf(b) && i < k < SegmentCount(b) && IsLoad(SegmentAt(b, i)) && IsLoad(SegmentAt(b, k))
    ensures PageDisjoint(SegmentAt(b, i), SegmentAt(b, k))
  {
  }

  lemma OtherSegmentStays(v: Vm, w: Vm, d: nat, b: seq<Byte>, s: Segment, t: Segment)
    requires Lengths(v) && Lengths(w) && Loadable(b, s) && PageDisjoint(s, t) && SegmentLoaded(v, d, b, s)
    requires BytesOutside(v, w, d, FirstPage(t), PageEnd(t))
    ensures SegmentLoaded(w, d, b, s)
  {
    hide ByteAt;
    forall a: Word | s.va <= a < s.va + s.memsz ensures ByteAt(w, d, a) == Some(ImageByte(b, s, a)) {
      assert FirstPage(s) <= a / 4096 < PageEnd(s);
    }
  }

  lemma RestSameGrows(v0: Vm, v: Vm, w: Vm, d: nat, b: seq<Byte>, k: nat)
    requires Lengths(v0) && Lengths(v) && Lengths(w) && HasHeaders(b) && k < SegmentCount(b) && IsLoad(SegmentAt(b, k))
    requires RestSame(v0, v, d, b, k) && BytesOutside(v, w, d, FirstPage(SegmentAt(b, k)), PageEnd(SegmentAt(b, k)))
    ensures RestSame(v0, w, d, b, k + 1)
  {
    hide ByteAt, SegmentAt, FirstPage, PageEnd, UserMap, NoOf;
    forall e: nat, x: Word | e != d || !InImage(b, k + 1, x / 4096) ensures ByteAt(w, e, x) == ByteAt(v0, e, x) {
      assert e == d ==> !InImage(b, k, x / 4096);
      assert ByteAt(v, e, x) == ByteAt(v0, e, x);
    }
    forall m: Mapping | m.dir != d || !InImage(b, k + 1, NoOf(m.page)) ensures UserMap(w, m) == UserMap(v0, m) {
      assert m.dir == d ==> !InImage(b, k, NoOf(m.page));
      assert UserMap(v, m) == UserMap(v0, m);
    }
  }

  lemma LoadingStarts(v: Vm, d: nat, b: seq<Byte>)
    requires Inv(v) && EnvSpace(v, d) && v.cr3 == d && ValidElf(b)
    ensures Loading(v, v, d, b, 0)
  {
  }

  lemma RestSameSkips(v0: Vm, v: Vm, d: nat, b: seq<Byte>, k: nat)
    requires Lengths(v0) && Lengths(v) && HasHeaders(b) && k < SegmentCount(b) && RestSame(v0, v, d, b, k)
    ensures RestSame(v0, v, d, b, k + 1)
  {
    hide ByteAt, SegmentAt, UserMap, NoOf, FirstPage, PageEnd;
    forall n | !InImage(b, k + 1, n) ensures !InImage(b, k, n) {
    }
    hide InImage;
  }

  /** A segment that is not loadable is passed over. */
  lemma LoadingSkips(v0: Vm, v: Vm, d: nat, b: seq<Byte>, k: nat)
    requires Inv(v0) && ValidElf(b) && Loading(v0, v, d, b, k) && k < SegmentCount(b) && !IsLoad(SegmentAt(b, k))
    ensures Loading(v0, v, d, b, k + 1)
  {
    hide Inv, ByteAt, SegmentAt, Steady, SegmentLoaded, ValidElf, RestSame;
    RestSameSkips(v0, v, d, b, k);
  }

  /** The free pages that the rest of the image needs are still there after segment k. */
  lemma NeedPaid(v: Vm, w: Vm, d: nat, b: seq<Byte>, k: nat)
    requires EnvSpace(v, d) && EnvSpace(w, d) && ValidElf(b) && k < SegmentCount(b) && IsLoad(SegmentAt(b, k))
    requires Loadable(b, SegmentAt(b, k)) && PageEnd(SegmentAt(b, k)) <= 0x10_0000
    requires Budgeted(v, w, d, FirstPage(SegmentAt(b, k)), PageEnd(SegmentAt(b, k)))
    requires |v.fl| >= Need(v.mem[d], b, k)
    ensures |w.fl| >= Need(w.mem[d], b, k + 1) && SameHeld(v, w)
  {
    var s := SegmentAt(b, k);
    hide SegmentAt, ValidElf, Loadable, FirstPage, PageEnd, Cost, KeepsTables, SameHeld;
    assert Need(v.mem[d], b, k) == Cost(v.mem[d], FirstPage(s), PageEnd(s)) + Need(v.mem[d], b, k + 1);
    hide Need;
    NeedShrinks(v.mem[d], w.mem[d], b, k + 1);
  }

  lemma LoadingSteps(v0: Vm, v: Vm, w: Vm, d: nat, b: seq<Byte>, k: nat)
    requires Inv(v0) && ValidElf(b) && Loading(v0, v, d, b, k) && k < SegmentCount(b) && IsLoad(SegmentAt(b, k))
    requires Loadable(b, SegmentAt(b, k)) && PageEnd(SegmentAt(b, k)) <= 0x10_0000
    requires SegmentDone(v, w, d, b, SegmentAt(b, k)) && EnvSpace(w, d)
    requires Budgeted(v, w, d, FirstPage(SegmentAt(b, k)), PageEnd(SegmentAt(b, k)))
    ensures Loading(v0, w, d, b, k + 1)
  {
    CrKept(v, w, d);
    hide Inv, ByteAt, SegmentAt, SegmentLoaded, ValidElf, BytesOutside, ImageLoaded, RestSame, Loadable, FirstPage,
        PageEnd, Steady, Budgeted, Need, SameHeld, HasHeaders, IsLoad;
    ImageGrows(v, w, d, b, k);
    RestSameGrows(v0, v, w, d, b, k);
    SteadyTrans(v0, v, w, d);
    if |v0.fl| >= Need(v0.mem[d], b, 0) {
      NeedPaid(v, w, d, b, k);
      SameHeldTrans(v0, v, w);
    }
  }

  lemma CrKept(v: Vm, w: Vm, d: nat)
    requires Sizes(v) && Sizes(w)
    ensures Steady(v, w, d) ==> w.cr3 == v.cr3
  {
    hide Touches, Coherent;
  }

  /** With the free pages that the image needs, the next segment has room. */
  lemma RoomForNext(v0: Vm, v: Vm, d: nat, b: seq<Byte>, k: nat)
    requires Inv(v0) && ValidElf(b) && Loading(v0, v, d, b, k) && k < SegmentCount(b) && IsLoad(SegmentAt(b, k))
    ensures Loadable(b, SegmentAt(b, k)) && PageEnd(SegmentAt(b, k)) <= 0x10_0000
    ensures |v0.fl| >= Need(v0.mem[d], b, 0) ==>
      Slack(v, d, FirstPage(SegmentAt(b, k)), PageEnd(SegmentAt(b, k))) >= 0
  {
    hide Inv, ByteAt, Steady, ImageLoaded, RestSame;
    LoadableAt(b, k);
    SegmentBounds(b, SegmentAt(b, k));
    hide Cost, Loadable, ValidElf, SegmentAt, FirstPage, PageEnd;
    assert Need(v.mem[d], b, k) >= Cost(v.mem[d], FirstPage(SegmentAt(b, k)), PageEnd(SegmentAt(b, k)));
  }

  /** The loop over the program headers; false stands for a panic or a page fault in the kernel. */
  method LoadSegments(mm: MemoryManager, d: nat, b: seq<Byte>) returns (ok: bool)
    requires mm.Repr() && Inv(mm.v) && EnvSpace(mm.v, d) && mm.v.cr3 == d && ValidElf(b)
    modifies mm, mm.phys, mm.data, mm.pages
    ensures mm.Repr()
    ensures ok ==> Loading(old(mm.v), mm.v, d, b, SegmentCount(b))
    ensures |old(mm.v).fl| >= Need(old(mm.v).mem[d], b, 0) ==> ok
  {
    hide Inv, MemoryManager.Repr, Loading, ValidElf, Need, HasHeaders, SegmentAt, Loadable;
    ghost var v0 := mm.v;
    LoadingStarts(v0, d, b);
    var ph, eph := 0, SegmentCount(b);
    while ph < eph
      invariant ph <= eph && mm.Repr() && Loading(v0, mm.v, d, b, ph)
    {
      ok := LoadHeader(mm, d, b, ph, v0);
      if !ok {
        return;
      }
      ph := ph + 1;
    }
    ok := true;
  }

  method LoadHeader(mm: MemoryManager, d: nat, b: seq<Byte>, ph: nat, ghost v0: Vm) returns (ok: bool)
    requires mm.Repr() && Inv(v0) && EnvSpace(v0, d) && ValidElf(b) && Loading(v0, mm.v, d, b, ph)
        && ph < SegmentCount(b)
    modifies mm, mm.phys, mm.data, mm.pages
    ensures mm.Repr()
    ensures ok ==> Loading(v0, mm.v, d, b, ph + 1)
    ensures |v0.fl| >= Need(v0.mem[d], b, 0) ==> ok
  {
    hide Inv, MemoryManager.Repr, ValidElf, Need, HasHeaders, SegmentAt, Loadable, Steady, ImageLoaded, RestSame, Slack;
    hide SegmentDone, Budgeted, FirstPage, PageEnd;
    var s := SegmentAt(b, ph);
    if s.typ != ELF_PROG_LOAD {
      LoadingSkips(v0, mm.v, d, b, ph);
      return true;
    }
    ghost var v := mm.v;
    RoomForNext(v0, v, d, b, ph);
    ok := LoadSegment(mm, d, b, s);
    if ok {
      LoadingSteps(v0, v, mm.v, d, b, ph);
    }
  }

  /** The page below USTACKTOP is mapped, zeroed and private. */
  ghost predicate StackFresh(v: Vm, d: nat)
    requires Lengths(v)
  {
    Fresh(v, d, PageOf(USTACKTOP - PGSIZE))
  }

  /**
   * What load_icode leaves of environment d's memory: the image, and the page of the initial stack, for which
   * there may be no page table any more.  Nothing else of any address space changes.
   */
  ghost predicate IcodeLoaded(v: Vm, w: Vm, d: nat, b: seq<Byte>)
    requires Inv(v) && ValidElf(b)
  {
    && Inv(w) && EnvSpace(w, d) && Steady(v, w, d)
    && ImageLoaded(w, d, b, SegmentCount(b))
    && (StackFresh(w, d) || (UserMap(w, Mapping(d, PageOf(USTACKTOP - PGSIZE))) == None && NoneFree(w)))
    && ElsewhereSame(v, w, d, b)
  }

  /** No byte and no mapping has changed outside the image and the stack page of d. */
  ghost predicate ElsewhereSame(v: Vm, w: Vm, d: nat, b: seq<Byte>)
    requires Lengths(v) && Lengths(w) && HasHeaders(b)
  {
    && (forall e: nat, x: Word ::
          e != d || (!InImage(b, SegmentCount(b), x / 4096) && x / 4096 != STACK_PAGE) ==>
            ByteAt(w, e, x) == ByteAt(v, e, x))
    && (forall m: Mapping ::
          m.dir != d || (!InImage(b, SegmentCount(b), NoOf(m.page)) && NoOf(m.page) != STACK_PAGE) ==>
            UserMap(w, m) == UserMap(v, m))
  }

  lemma RestAndStackSame(v: Vm, u: Vm, w: Vm, d: nat, b: seq<Byte>)
    requires Lengths(v) && Lengths(u) && Lengths(w) && HasHeaders(b) && RestSame(v, u, d, b, SegmentCount(b))
    requires BytesOutside(u, w, d, STACK_PAGE, STACK_PAGE + 1)
    ensures ElsewhereSame(v, w, d, b)
  {
    hide ByteAt, UserMap, NoOf, InImage, HasHeaders, SegmentCount;
    forall e: nat, x: Word | e != d || (!InImage(b, SegmentCount(b), x / 4096) && x / 4096 != STACK_PAGE)
      ensures ByteAt(w, e, x) == ByteAt(v, e, x)
    {
      assert ByteAt(u, e, x) == ByteAt(v, e, x);
    }
    forall m: Mapping | m.dir != d || (!InImage(b, SegmentCount(b), NoOf(m.page)) && NoOf(m.page) != STACK_PAGE)
      ensures UserMap(w, m) == UserMap(v, m)
    {
      assert UserMap(u, m) == UserMap(v, m);
    }
  }

  /** Loads of cr3 before and in between make no difference. */
  lemma LoadsKeepRest(v: Vm, u: Vm, w: Vm, d: nat, cr3: nat, b: seq<Byte>)
    requires Lengths(v) && Lengths(u) && Lengths(w) && HasHeaders(b)
    requires RestSame(VmTlb.LoadCr3(v, d), u, d, b, SegmentCount(b))
    requires BytesOutside(VmTlb.LoadCr3(u, cr3), w, d, STACK_PAGE, STACK_PAGE + 1)
    ensures ElsewhereSame(v, w, d, b)
  {
    SameBytesAfterLoad(v, d);
    SameTables(v, VmTlb.LoadCr3(v, d));
    SameBytesAfterLoad(u, cr3);
    SameTables(u, VmTlb.LoadCr3(u, cr3));
    hide ByteAt, UserMap, NoOf, InImage, HasHeaders, SegmentCount, VmTlb.LoadCr3;
    RestAndStackSame(v, u, w, d, b);
  }

  /** The image stays if no byte of it is touched: it lies below the stack page. */
  lemma ImageStays(v: Vm, w: Vm, d: nat, b: seq<Byte>)
    requires Lengths(v) && Lengths(w) && ValidElf(b) && ImageLoaded(v, d, b, SegmentCount(b))
    requires forall x: Word :: x / 4096 < STACK_PAGE ==> ByteAt(w, d, x) == ByteAt(v, d, x)
    ensures ImageLoaded(w, d, b, SegmentCount(b))
  {
    hide ByteAt;
    forall i | 0 <= i < SegmentCount(b) && IsLoad(SegmentAt(b, i)) ensures SegmentLoaded(w, d, b, SegmentAt(b, i)) {
      SegmentStays(v, w, d, b, SegmentAt(b, i));
    }
  }

  lemma SegmentStays(v: Vm, w: Vm, d: nat, b: seq<Byte>, s: Segment)
    requires Lengths(v) && Lengths(w) && Loadable(b, s) && SegmentLoaded(v, d, b, s)
    requires forall x: Word :: x / 4096 < STACK_PAGE ==> ByteAt(w, d, x) == ByteAt(v, d, x)
    ensures SegmentLoaded(w, d, b, s)
  {
    hide ByteAt;
  }

  lemma StackPageIs()
    ensures NoOf(PageOf(USTACKTOP - PGSIZE)) == STACK_PAGE && (USTACKTOP - PGSIZE) / 4096 == STACK_PAGE
    ensures (USTACKTOP - PGSIZE + PGSIZE + 4095) / 4096 == STACK_PAGE + 1
  {
    NoOfPage(USTACKTOP - PGSIZE);
  }

  lemma SameTouches(v: Vm, w: Vm, d: nat)
    requires Lengths(v) && Lengths(w) && w.mem == v.mem && w.kind == v.kind
    ensures Touches(v, w, d)
  {
  }

  /** Registers, cache and directories over the whole of load_icode, when there is no current environment. */
  lemma SteadyOverall(v: Vm, u: Vm, w: Vm, d: nat)
    requires Inv(v) && Inv(u) && Inv(w) && EnvSpace(v, d) && v.cur == None && v.cr3 < |v.mem| && IsDir(v.kind[v.cr3])
    requires Steady(VmTlb.LoadCr3(v, d), u, d) && Steady(VmTlb.LoadCr3(u, v.cr3), w, d)
    ensures Steady(v, w, d) && EnvSpace(w, d)
  {
    hide Inv, Shape, Touches;
    var v1, u1 := VmTlb.LoadCr3(v, d), VmTlb.LoadCr3(u, v.cr3);
    SameTouches(v, v1, d);
    SameTouches(u, u1, d);
    TouchesTrans(v, v1, u, d);
    TouchesTrans(v, u, u1, d);
    TouchesTrans(v, u1, w, d);
    assert v.kind[v.kern] == KernDir && u.kind[u.kern] == KernDir;
    assert IsDir(u.kind[v.cr3]);
    assert Coherent(u1);
  }

  /** The steps of load_icode put together. */
  lemma IcodeIsLoaded(v: Vm, u: Vm, w: Vm, d: nat, b: seq<Byte>)
    requires Inv(v) && EnvSpace(v, d) && v.cur == None && v.cr3 < |v.mem| && IsDir(v.kind[v.cr3]) && ValidElf(b)
    requires Inv(VmTlb.LoadCr3(v, d)) && Loading(VmTlb.LoadCr3(v, d), u, d, b, SegmentCount(b))
    requires Inv(VmTlb.LoadCr3(u, v.cr3)) && EnvSpace(VmTlb.LoadCr3(u, v.cr3), d)
    requires RegionDone(VmTlb.LoadCr3(u, v.cr3), w, d, STACK_PAGE, STACK_PAGE + 1, true)
    ensures IcodeLoaded(v, w, d, b)
  {
    hide Inv, ByteAt, ValidElf, Need, Slack, UserMap, PageBytes, SegmentLoaded, InImage, Fresh, OutsideSame, HasHeaders;
    hide VmTlb.LoadCr3, Coherent, RestSame, ElsewhereSame;
    var v1, u1 := VmTlb.LoadCr3(v, d), VmTlb.LoadCr3(u, v.cr3);
    SteadyOverall(v, u, w, d);
    StackPageIs();
    SameBytesAfterLoad(v, d);
    SameBytesAfterLoad(u, v.cr3);
    OutsideBytes(u1, w, d, STACK_PAGE, STACK_PAGE + 1);
    ImageStays(u, w, d, b);
    LoadsKeepRest(v, u, w, d, v.cr3, b);
  }

  lemma SameBytesAfterLoad(v: Vm, d: nat)
    requires Lengths(v)
    ensures Lengths(VmTlb.LoadCr3(v, d))
    ensures forall e: nat, x: Word :: ByteAt(VmTlb.LoadCr3(v, d), e, x) == ByteAt(v, e, x)
  {
  }

  /** There are free pages for the image, for the stack page, and for the page tables that they still need. */
  ghost predicate Room(v: Vm, d: nat, b: seq<Byte>)
    requires EnvSpace(v, d) && ValidElf(b)
  {
    |v.fl| >= Need(v.mem[d], b, 0)
  }

  /** load_icode is called while the kernel starts up: there is no current environment, and cr3 is a directory. */
  ghost predicate StartingUp(v: Vm, d: nat) {
    Inv(v) && EnvSpace(v, d) && v.cur == None && v.cr3 < |v.mem| && IsDir(v.kind[v.cr3])
  }

  /** lcr3 is no concern of the invariant. */
  lemma LoadKeeps(v: Vm, d: nat, e: nat)
    requires Inv(v) && EnvSpace(v, e)
    ensures var w := VmTlb.LoadCr3(v, d);
      && Inv(w) && EnvSpace(w, e) && w.cr3 == d && w.cur == v.cur && |w.mem| == |v.mem|
      && w.fl == v.fl && w.mem == v.mem && w.kind == v.kind
  {
    hide Inv;
    InvIgnoresCpu(v, VmTlb.LoadCr3(v, d));
  }

  /** Where the loop over the program headers ends. */
  lemma LoadingMeans(v: Vm, u: Vm, d: nat, b: seq<Byte>)
    requires Inv(v) && ValidElf(b) && Loading(v, u, d, b, SegmentCount(b))
    ensures Inv(u) && EnvSpace(u, d)
    ensures |v.fl| >= Need(v.mem[d], b, 0) ==>
              |u.fl| >= Cost(u.mem[d], STACK_PAGE, STACK_PAGE + 1) && SameHeld(v, u)
  {
    hide Inv, Steady, ImageLoaded, RestSame, Cost;
  }

  /** The stack page is there if there was a free page for it. */
  lemma StackIsMapped(u: Vm, w: Vm, d: nat, ok: bool)
    requires Inv(u) && EnvSpace(u, d) && RegionDone(u, w, d, STACK_PAGE, STACK_PAGE + 1, ok)
    requires |u.fl| >= Cost(u.mem[d], STACK_PAGE, STACK_PAGE + 1)
    ensures ok && StackFresh(w, d) && SameHeld(u, w)
  {
    StackPageIs();
    hide Inv, Steady, OutsideSame, Fresh, Cost, Done, KeepsTables;
  }

  /**
   * load_icode but for the entry point: loads the file's segments through the environment's own directory,
   * gives cr3 its old value, and maps the stack page.  false stands for a panic or a page fault.
   */
  method LoadImage(mm: MemoryManager, d: nat, b: seq<Byte>) returns (ok: bool)
    requires mm.Repr() && StartingUp(mm.v, d) && ValidElf(b)
    modifies mm, mm.phys, mm.data, mm.pages
    ensures mm.Repr() && Inv(old(mm.v)) && EnvSpace(old(mm.v), d)
    ensures ok ==> Le32(b, 0) == ELF_MAGIC && IcodeLoaded(old(mm.v), mm.v, d, b)
    ensures Le32(b, 0) == ELF_MAGIC && Room(old(mm.v), d, b) ==>
              ok && Lengths(mm.v) && StackFresh(mm.v, d) && SameHeld(old(mm.v), mm.v)
  {
    hide Inv, MemoryManager.Repr, Loading, ValidElf, Need, Le32, IcodeLoaded, RegionDone, StackFresh, Cost, Coherent;
    ghost var v := mm.v;
    var prev := mm.cr3;
    CrIs(mm);
    LoadKeeps(v, d, d);
    mm.LoadCr3(d);
    if Le32(b, 0) != ELF_MAGIC {
      return false;
    }
    ok := LoadSegments(mm, d, b);
    if !ok {
      return;
    }
    ghost var u := mm.v;
    LoadingMeans(VmTlb.LoadCr3(v, d), u, d, b);
    LoadKeeps(u, prev, d);
    mm.LoadCr3(prev);
    ghost var u1 := mm.v;
    StackPageIs();
    ok := RegionAlloc(mm, d, USTACKTOP - PGSIZE, PGSIZE);
    if |v.fl| >= Need(v.mem[d], b, 0) {
      StackIsMapped(u1, mm.v, d, ok);
    }
    if ok {
      IcodeIsLoaded(v, u, mm.v, d, b);
    }
  }

  lemma CrIs(mm: MemoryManager)
    requires mm.Repr()
    ensures mm.cr3 == mm.v.cr3
  {
  }

  lemma HeaderFits(b: seq<Byte>)
    requires ValidElf(b)
    ensures |b| >= 52
  {
  }

  lemma IcodeMeans(v: Vm, w: Vm, d: nat, b: seq<Byte>)
    requires Inv(v) && ValidElf(b) && IcodeLoaded(v, w, d, b)
    ensures Inv(w) && Steady(v, w, d)
  {
  }
}
