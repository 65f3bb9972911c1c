/** The static mappings above UTOP: boot_map_region and mmio_map_region of kern/pmap.c. */
module VmKernelMap {
  import opened Wrappers
  import opened Mmu
  import opened VmState
  import opened VmAlloc
  import opened VmPaging
  import opened VmSpaces
  import opened Pmap

  /** A page above UTOP outside the window at UVPT. */
  predicate KernelPage(p: VPage) { UTOP_PDX <= p.pdx && p.pdx != UVPT_PDX }

  /** Page k of the region at va. */
  function PageAt(va: Word, k: nat): VPage { PageOf((va + k * 4096) % 0x1_0000_0000) }

  /** The entry that maps page k of physical memory from pa on. */
  function EntryAt(pa: Word, k: nat, perm: nat): Word
    requires perm < 4096
  {
    MkPte((pa / 4096 + k) % 0x10_0000, perm)
  }

  /** kern_pgdir maps p as e says, and any other page, but for the window at UVPT, as before. */
  ghost predicate KernelUpdated(v: Vm, w: Vm, p: VPage, e: Word)
    requires Sizes(v) && Sizes(w)
  {
    && |w.mem| == |v.mem| && w.kern == v.kern
    && forall q: VPage :: q.pdx != UVPT_PDX ==>
         Walk(w.mem, v.kern, q) == if q == p then Some(e) else Walk(v.mem, v.kern, q)
  }

  /** Writing an entry of a kernel page table. */
  lemma SetKernelPte(v: Vm, p: VPage, t: nat, e: Word)
    requires Inv(v) && KernelPage(p) && t < |v.mem| && v.kind[t] == Table(v.kern, p.pdx) && Present(e)
    ensures var w := SetWord(v, t, p.ptx, e);
      Inv(w) && SameUser(v, w) && KernelUpdated(v, w, p, e) && w.pages == v.pages && w.kind == v.kind
  {
    var w := SetWord(v, t, p.ptx, e);
    assert TableOk(v, t);
    KernelPteShape(v, w, t);
    KernelPteMaps(v, w, p, t, e);
    hide Inv, Shape, FreeListOk, CountsOk, SameUser, KernelUpdated;
    FreeListIgnoresOthers(v, w);
    CountsIgnoreOthers(v, w, 0);
    InvIntro(w);
  }

  lemma KernelPteShape(v: Vm, w: Vm, t: nat)
    requires Shape(v) && Sizes(w) && t < |v.mem| && v.kind[t].Table? && v.kind[t].pdx >= UTOP_PDX
    requires |w.mem| == |v.mem| && w.kind == v.kind && w.kern == v.kern
    requires forall f :: 0 <= f < |v.mem| && f != t ==> w.mem[f] == v.mem[f]
    ensures Shape(w)
  {
    forall d: nat, i: nat | d < |w.mem| && i < 1024 && Owns(w.kind[d], i) ensures PdeOk(w, d, i) {
      assert PdeOk(v, d, i);
    }
    forall s | 0 <= s < |w.mem| && w.kind[s].Table? ensures TableOk(w, s) {
      assert TableOk(v, s);
    }
    forall s, j | 0 <= s < |w.mem| && w.kind[s].Table? && w.kind[s].pdx < UTOP_PDX && 0 <= j < 1024
      ensures PteOk(w, w.mem[s][j])
    {
      assert PteOk(v, v.mem[s][j]);
    }
  }

  lemma KernelPteMaps(v: Vm, w: Vm, p: VPage, t: nat, e: Word)
    requires Shape(v) && Sizes(w) && KernelPage(p) && t < |v.mem| && v.kind[t] == Table(v.kern, p.pdx) && Present(e)
    requires w.mem == v.mem[t := v.mem[t][p.ptx := e]] && w.kind == v.kind && w.kern == v.kern
    ensures SameUser(v, w) && KernelUpdated(v, w, p, e)
  {
    assert TableOk(v, t);
    forall m: Mapping ensures UserMap(w, m) == UserMap(v, m) {
      if m.dir < |v.mem| && IsDir(v.kind[m.dir]) && UserPage(m.page) && Present(v.mem[m.dir][m.page.pdx]) {
        WalkTable(v, m.dir, m.page.pdx);
      }
    }
    forall q: VPage | q.pdx != UVPT_PDX
      ensures Walk(w.mem, v.kern, q) == if q == p then Some(e) else Walk(v.mem, v.kern, q)
    {
      if Present(v.mem[v.kern][q.pdx]) {
        WalkTable(v, v.kern, q.pdx);
      }
    }
  }

  /** One turn of the loop of boot_map_region. */
  ghost function MapKernelPage(v: Vm, p: VPage, e: Word): (r: (Vm, bool))
    requires Lengths(v) && v.kern < |v.mem|
    ensures Lengths(r.0) && |r.0.mem| == |v.mem|
  {
    var (w, t) := PgdirWalk(v, v.kern, p, true);
    if t == None then (w, false) else (SetWord(w, t.value, p.ptx, e), true)
  }

  /** Frames that are not free keep their counts and uses. */
  ghost predicate UsedKeep(v: Vm, w: Vm)
    requires Lengths(v) && Lengths(w)
  {
    && |w.mem| == |v.mem|
    && forall f :: 0 <= f < |v.mem| && v.kind[f] != Free ==> w.kind[f] == v.kind[f] && w.pages[f].ref == v.pages[f].ref
  }

  lemma MapKernelPageMaps(v: Vm, p: VPage, e: Word)
    requires Inv(v) && KernelPage(p) && Present(e)
    ensures var (w, ok) := MapKernelPage(v, p, e);
      && Inv(w) && SameUser(v, w) && UsedKeep(v, w)
      && (!ok ==> w == v && NoneFree(v))
      && (ok ==> KernelUpdated(v, w, p, e))
  {
    assert Owns(v.kind[v.kern], p.pdx);
    WalkKeepsCounts(v, p);
    hide Inv, Shape, FreeListOk, CountsOk, SameView, SameUser, KernelUpdated, UsedKeep;
    PgdirWalkKeepsInv(v, v.kern, p, true);
    var (u, t) := PgdirWalk(v, v.kern, p, true);
    SameViewSameUser(v, u);
    if t.Some? {
      SetKernelPte(u, p, t.value, e);
      var w := SetWord(u, t.value, p.ptx, e);
      KernelTrans(v, u, w, p, e);
    }
  }

  lemma WalkKeepsCounts(v: Vm, p: VPage)
    requires Inv(v) && KernelPage(p)
    ensures var u := PgdirWalk(v, v.kern, p, true).0; u.kern == v.kern && UsedKeep(v, u)
  {
    assert v.head.Some? ==> v.head.value == v.fl[|v.fl| - 1] && v.kind[v.head.value] == Free;
  }

  lemma KernelTrans(v: Vm, u: Vm, w: Vm, p: VPage, e: Word)
    requires Sizes(v) && Sizes(u) && Sizes(w) && SameView(v, u) && u.kern == v.kern && KernelUpdated(u, w, p, e)
    requires SameUser(v, u) && SameUser(u, w) && UsedKeep(v, u) && w.pages == u.pages && w.kind == u.kind
    ensures KernelUpdated(v, w, p, e) && SameUser(v, w) && UsedKeep(v, w)
  {
    forall q: VPage | q.pdx != UVPT_PDX
      ensures Walk(w.mem, v.kern, q) == if q == p then Some(e) else Walk(v.mem, v.kern, q)
    {
      assert Tracked(v, v.kern, q);
    }
    forall m: Mapping ensures UserMap(w, m) == UserMap(v, m) {
      assert UserMap(u, m) == UserMap(v, m);
    }
  }

  // ---- boot_map_region ----

  /** The region [va, va + n pages) lies above UTOP, outside the window at UVPT, and does not wrap. */
  predicate KernelRegion(va: Word, n: nat) {
    && va % 4096 == 0 && va + n * 4096 <= 0x1_0000_0000
    && forall k :: 0 <= k < n ==> KernelPage(PageAt(va, k))
  }

  lemma PagesOfRegionDiffer(va: Word, j: nat, k: nat)
    requires va % 4096 == 0 && j < k && va + k * 4096 < 0x1_0000_0000
    ensures PageAt(va, j) != PageAt(va, k)
  {
    var a, b := va + j * 4096, va + k * 4096;
    assert a % 0x1_0000_0000 == a && b % 0x1_0000_0000 == b;
    PageOfIsPageNumber(a, b);
    assert va == 4096 * (va / 4096);
    assert a / 4096 == va / 4096 + j && b / 4096 == va / 4096 + k;
  }

  ghost predicate InRegion(va: Word, n: nat, q: VPage) {
    exists k :: 0 <= k < n && PageAt(va, k) == q
  }

  /** w is v with page k of the region mapped to page k from pa on, and no other kernel page changed. */
  ghost predicate RegionMapped(v: Vm, w: Vm, va: Word, n: nat, pa: Word, perm: nat)
    requires Sizes(v) && Sizes(w) && perm < 4096
  {
    && |w.mem| == |v.mem| && w.kern == v.kern
    && (forall k :: 0 <= k < n ==> Walk(w.mem, w.kern, PageAt(va, k)) == Some(EntryAt(pa, k, perm)))
    && (forall q: VPage :: q.pdx != UVPT_PDX && !InRegion(va, n, q) ==>
          Walk(w.mem, w.kern, q) == Walk(v.mem, v.kern, q))
  }

  lemma RegionGrows(v: Vm, u: Vm, w: Vm, va: Word, n: nat, pa: Word, perm: nat)
    requires Sizes(v) && Sizes(u) && Sizes(w) && perm < 4096
    requires KernelRegion(va, n + 1) && RegionMapped(v, u, va, n, pa, perm)
    requires KernelUpdated(u, w, PageAt(va, n), EntryAt(pa, n, perm))
    ensures RegionMapped(v, w, va, n + 1, pa, perm)
  {
    forall k | 0 <= k < n + 1 ensures Walk(w.mem, w.kern, PageAt(va, k)) == Some(EntryAt(pa, k, perm)) {
      if k < n {
        PagesOfRegionDiffer(va, k, n);
      }
    }
    forall q: VPage | q.pdx != UVPT_PDX && !InRegion(va, n + 1, q)
      ensures Walk(w.mem, w.kern, q) == Walk(v.mem, v.kern, q)
    {
      assert q != PageAt(va, n);
      assert !InRegion(va, n, q);
    }
  }

  lemma UsedKeepTrans(u: Vm, v: Vm, w: Vm)
    requires Lengths(u) && Lengths(v) && Lengths(w) && UsedKeep(u, v) && UsedKeep(v, w)
    ensures UsedKeep(u, w)
  {
  }

  /** The state of the loop of boot_map_region after n pages. */
  ghost predicate Booting(v: Vm, w: Vm, va: Word, n: nat, pa: Word, perm: nat)
    requires Inv(v)
  {
    && perm < 4096 && Inv(w) && SameUser(v, w) && UsedKeep(v, w) && RegionMapped(v, w, va, n, pa, perm)
  }

  lemma BootingSteps(v: Vm, u: Vm, va: Word, n: nat, pa: Word, perm: nat)
    requires Inv(v) && Booting(v, u, va, n, pa, perm) && KernelRegion(va, n + 1)
    ensures var (w, ok) := MapKernelPage(u, PageAt(va, n), EntryAt(pa, n, perm));
      if ok then Booting(v, w, va, n + 1, pa, perm) else w == u && NoneFree(u)
  {
    var (w, ok) := MapKernelPage(u, PageAt(va, n), EntryAt(pa, n, perm));
    assert KernelPage(PageAt(va, n));
    hide Inv, SameUser, UsedKeep, RegionMapped, KernelUpdated, MapKernelPage, KernelRegion, PageAt;
    MapKernelPageMaps(u, PageAt(va, n), EntryAt(pa, n, perm));
    if ok {
      RegionGrows(v, u, w, va, n, pa, perm);
      UsedKeepTrans(v, u, w);
      SameUserTrans(v, u, w);
    }
  }

  lemma BootingStarts(v: Vm, va: Word, pa: Word, perm: nat)
    requires Inv(v) && perm < 4096
    ensures Booting(v, v, va, 0, pa, perm)
  {
  }

  /** Page k of the region at va maps page k from pa on, with the bits of perm and PTE_P. */
  ghost predicate PageShown(w: Vm, va: Word, pa: Word, k: nat, perm: nat)
    requires Sizes(w)
  {
    var e := Walk(w.mem, w.kern, PageAt(va, k));
    e.Some? && FrameOf(e.value) == pa / 4096 + k && Flags(e.value) / 2 == perm / 2 && Flags(e.value) % 2 == 1
  }

  ghost predicate RegionShown(w: Vm, va: Word, pa: Word, n: nat, perm: nat)
    requires Sizes(w)
  {
    forall k :: 0 <= k < n ==> PageShown(w, va, pa, k, perm)
  }

  /** What a mapped region shows, if the physical region does not wrap. */
  lemma RegionShows(v: Vm, w: Vm, va: Word, n: nat, pa: Word, perm: nat)
    requires Sizes(v) && Sizes(w) && perm < 4096 && RegionMapped(v, w, va, n, pa, perm)
    requires pa % 4096 == 0 && pa + n * 4096 <= 0x1_0000_0000
    ensures RegionShown(w, va, pa, n, perm)
  {
    hide PageAt, Walk, Sizes;
    forall k | 0 <= k < n ensures PageShown(w, va, pa, k, perm) {
      FrameInRange(pa, k, n);
    }
  }

  lemma FrameInRange(pa: Word, k: nat, n: nat)
    requires pa % 4096 == 0 && k < n && pa + n * 4096 <= 0x1_0000_0000
    ensures (pa / 4096 + k) % 0x10_0000 == pa / 4096 + k
  {
    assert pa == 4096 * (pa / 4096);
  }

  /**
   * boot_map_region: page k of [va, va + size) is mapped to page k from pa on, for every k; no other kernel
   * page, no user mapping and no count of a page in use changes.  false stands for the kernel's panic when
   * there is no memory for a page table.
   */
  method BootMapRegion(mm: MemoryManager, va: Word, size: Word, pa: Word, perm: nat) returns (ok: bool)
    requires mm.Valid() && KernelRegion(va, size / 4096) && pa % 4096 == 0 && perm < 4096
    modifies mm, mm.phys, mm.data, mm.pages
    ensures mm.Valid() && SameUser(old(mm.v), mm.v) && UsedKeep(old(mm.v), mm.v)
    ensures ok ==> RegionMapped(old(mm.v), mm.v, va, size / 4096, pa, perm)
    ensures ok && pa + size / 4096 * 4096 <= 0x1_0000_0000 ==> RegionShown(mm.v, va, pa, size / 4096, perm)
    ensures !ok ==> NoneFree(mm.v)
  {
    ghost var v0 := mm.v;
    BootingStarts(v0, va, pa, perm);
    hide Inv, SameUser, UsedKeep, RegionMapped, MemoryManager.Repr;
    var i := 0;
    while i < size / 4096
      invariant i <= size / 4096 && mm.Repr() && Booting(v0, mm.v, va, i, pa, perm)
    {
      assert KernelRegion(va, i + 1);
      ok := BootMapPage(mm, va, i, pa, perm, v0);
      if !ok {
        return;
      }
      i := i + 1;
    }
    if pa + i * 4096 <= 0x1_0000_0000 {
      RegionShows(v0, mm.v, va, i, pa, perm);
    }
    return true;
  }

  /** The body of the loop. */
  method BootMapPage(mm: MemoryManager, va: Word, i: nat, pa: Word, perm: nat, ghost v0: Vm) returns (ok: bool)
    requires mm.Repr() && Inv(v0) && Booting(v0, mm.v, va, i, pa, perm) && KernelRegion(va, i + 1)
    modifies mm, mm.phys, mm.data, mm.pages
    ensures mm.Repr() && Booting(v0, mm.v, va, if ok then i + 1 else i, pa, perm)
    ensures !ok ==> NoneFree(mm.v)
  {
    ghost var u := mm.v;
    assert KernelPage(PageAt(va, i)) && mm.Valid() && perm < 4096;
    KernelSlot(u, PageAt(va, i));
    hide Inv, SameUser, UsedKeep, RegionMapped, MemoryManager.Repr, Booting, KernelRegion;
    BootingSteps(v0, u, va, i, pa, perm);
    var nextVa := (va + i * 4096) % 0x1_0000_0000;
    var t := mm.PgdirWalk(mm.kernPgdir, nextVa, true);
    if t == None {
      return false;
    }
    mm.StoreWord(t.value, Ptx(nextVa), EntryAt(pa, i, perm));
    return true;
  }

  lemma KernelSlot(v: Vm, p: VPage)
    requires Inv(v) && KernelPage(p)
    ensures v.kern < |v.mem| && IsDir(v.kind[v.kern]) && Owns(v.kind[v.kern], p.pdx)
  {
  }

  // ---- mmio_map_region ----

  /** The number of bytes mmio_map_region reserves for [pa, pa + size), in 32-bit arithmetic. */
  function MmioLength(pa: Word, size: Word): Word {
    (RoundUp((pa + size) % 0x1_0000_0000) - RoundDown(pa)) % 0x1_0000_0000
  }

  /** The device region does not wrap, and its pages are not all of the address space. */
  predicate DeviceRegion(pa: Word, size: Word) {
    pa + size <= 0x1_0000_0000 && (4096 <= pa || pa + size <= 0xFFFF_F000)
  }

  /**
   * The cover is whole pages, starts in the page of pa and ends in the page of pa + size.  In the last page
   * ROUNDUP wraps to 0, and the difference in 32-bit arithmetic is still right.
   */
  lemma MmioCovers(pa: Word, size: Word)
    requires DeviceRegion(pa, size)
    ensures MmioLength(pa, size) % 4096 == 0 && pa % 4096 + size <= MmioLength(pa, size) < pa % 4096 + size + 4096
    ensures RoundDown(pa) + MmioLength(pa, size) <= 0x1_0000_0000
  {
    hide RoundUp, RoundDown;
    var up, down := RoundUp((pa + size) % 0x1_0000_0000), RoundDown(pa);
    RoundUpEnd(pa, size);
    RoundDownIs(pa);
    WrapDifference(up, down);
    WholePages(up, down);
    WholePages(up as int + 0x1_0000_0000, down);
  }

  lemma RoundUpEnd(pa: Word, size: Word)
    requires pa + size <= 0x1_0000_0000
    ensures var up := RoundUp((pa + size) % 0x1_0000_0000);
      if pa + size <= 0xFFFF_F000 then up % 4096 == 0 && pa + size <= up < pa + size + 4096 else up == 0
  {
    hide RoundUp;
    if pa + size < 0x1_0000_0000 {
      SmallMod(pa + size);
      RoundUpIsLeast(pa + size);
    } else {
      assert (pa + size) % 0x1_0000_0000 == 0;
      RoundUpIsLeast(0);
    }
  }

  lemma WrapDifference(a: Word, b: Word)
    ensures (a - b) % 0x1_0000_0000 == if a >= b then a - b else a - b + 0x1_0000_0000
  {
  }

  lemma SmallMod(a: nat)
    requires a < 0x1_0000_0000
    ensures a % 0x1_0000_0000 == a
  {
  }

  lemma WholePages(a: int, b: int)
    requires a % 4096 == 0 && b % 4096 == 0
    ensures (a - b) % 4096 == 0
  {
  }

  /** The physical address behind a linear address of kern_pgdir. */
  ghost function Translate(v: Vm, la: Word): Option<nat>
    requires Sizes(v)
  {
    match Walk(v.mem, v.kern, PageOf(la))
    case None => None
    case Some(e) => Some(FrameOf(e) * 4096 + PgOff(la))
  }

  /** Address j of a page-aligned region lies in its page j / 4096. */
  lemma PageOfOffset(va: Word, j: nat)
    requires va % 4096 == 0 && va + j < 0x1_0000_0000
    ensures PageAt(va, j / 4096) == PageOf(va + j) && PgOff(va + j) == j % 4096
    ensures (va + j) / 4096 == va / 4096 + j / 4096
  {
    var a := va + j / 4096 * 4096;
    assert a % 0x1_0000_0000 == a;
    assert va == 4096 * (va / 4096);
    assert (va + j) / 4096 == va / 4096 + j / 4096 == a / 4096;
    PageOfIsPageNumber(va + j, a);
  }

  /** The frame and offset of address j of a physical region. */
  lemma FrameOfOffset(pa: Word, j: nat)
    requires pa % 4096 == 0 && pa + j < 0x1_0000_0000
    ensures (pa / 4096 + j / 4096) % 0x10_0000 * 4096 + j % 4096 == pa + j
  {
    assert pa == 4096 * (pa / 4096) && j == 4096 * (j / 4096) + j % 4096;
    assert pa / 4096 + j / 4096 < 0x10_0000;
  }

  /** In a mapped region every address translates to the one as far into the physical region. */
  lemma RegionTranslates(v: Vm, w: Vm, va: Word, n: nat, pa: Word, perm: nat, j: nat)
    requires Sizes(v) && Sizes(w) && perm < 4096 && RegionMapped(v, w, va, n, pa, perm)
    requires va % 4096 == 0 && pa % 4096 == 0 && va + j < 0x1_0000_0000 && pa + j < 0x1_0000_0000
    requires j / 4096 < n
    ensures Translate(w, va + j) == Some(pa + j)
  {
    hide PageAt, PageOf, Walk, PgOff;
    PageOfOffset(va, j);
    FrameOfOffset(pa, j);
    assert Walk(w.mem, w.kern, PageAt(va, j / 4096)) == Some(EntryAt(pa, j / 4096, perm));
  }

  /** Addresses from MMIOLIM on, which are not for devices, translate as before. */
  ghost predicate LimitKept(v: Vm, w: Vm)
    requires Sizes(v) && Sizes(w)
  {
    forall la: Word :: MMIOLIM <= la ==> Translate(w, la) == Translate(v, la)
  }

  /** What a device region [base, end), for physical addresses from start on, maps beyond MMIOLIM was so before. */
  ghost predicate SoBefore(v: Vm, base: Word, end: Word, start: Word)
    requires Sizes(v)
  {
    forall la: Word :: MMIOLIM <= la && base <= la < end ==> Translate(v, la) == Some(start + (la - base))
  }

  /**
   * mmio_map_region is to handle a reservation beyond MMIOLIM, and has no test.  What lies there keeps its
   * mappings exactly if the region ends at MMIOLIM or before, or gives the addresses behind it the mappings
   * that they had.
   */
  lemma MmioLimit(v: Vm, w: Vm, base: Word, n: nat, start: Word, perm: nat)
    requires Sizes(v) && Sizes(w) && perm < 4096 && RegionMapped(v, w, base, n, start, perm)
    requires base % 4096 == 0 && start % 4096 == 0 && MMIOBASE <= base
    requires base + n * 4096 < 0x1_0000_0000 && start + n * 4096 <= 0x1_0000_0000
    ensures LimitKept(v, w) <==> SoBefore(v, base, base + n * 4096, start)
    ensures base + n * 4096 <= MMIOLIM ==> LimitKept(v, w)
  {
    hide RegionMapped, Translate, Sizes;
    forall la: Word | MMIOLIM <= la
      ensures Translate(w, la) == if base <= la < base + n * 4096 then Some(start + (la - base)) else Translate(v, la)
    {
      if base <= la < base + n * 4096 {
        OffsetInside(la - base, n);
        RegionTranslates(v, w, base, n, start, perm, la - base);
      } else {
        OutsideRegion(v, w, base, n, start, perm, la);
      }
    }
  }

  class Mmio {
    const mm: MemoryManager
    var base: Word        // where the next region starts

    constructor (mm: MemoryManager)
      ensures this.mm == mm && base == 0xEF80_0000
    {
      this.mm, base := mm, MMIOBASE;
    }

    /**
     * mmio_map_region: reserves the pages that cover [pa, pa + size) at base and maps them uncached, so
     * that the address returned translates to pa, and so on for size bytes, also for a pa inside a page.
     * The code has no check against MMIOLIM, see MmioLimit; what it needs is that the region does not wrap.
     */
    method MmioMapRegion(pa: Word, size: Word) returns (ok: bool, va: Word)
      requires mm.Valid() && base % 4096 == 0 && MMIOBASE <= base && DeviceRegion(pa, size)
      requires base + MmioLength(pa, size) < 0x1_0000_0000
      modifies this, mm, mm.phys, mm.data, mm.pages
      ensures mm.Valid() && SameUser(old(mm.v), mm.v) && UsedKeep(old(mm.v), mm.v)
      ensures !ok ==> NoneFree(mm.v)
      ensures ok ==> base == old(base) + MmioLength(pa, size) && base % 4096 == 0
      ensures ok ==> old(base) <= va && va + size <= base
      ensures ok ==> forall a: Word :: va <= a < va + size ==> Translate(mm.v, a) == Some(pa + (a - va))
      ensures ok ==> forall la: Word :: Pdx(la) != UVPT_PDX && !(old(base) <= la < base) ==>
                Translate(mm.v, la) == Translate(old(mm.v), la)
      ensures ok ==>
                RegionShown(mm.v, old(base), pa, (base - old(base)) / 4096, PTE_P + PTE_W + PTE_PWT + PTE_PCD)
      ensures ok ==> (LimitKept(old(mm.v), mm.v) <==> SoBefore(old(mm.v), old(base), base, RoundDown(pa)))
    {
      hide LimitKept, SoBefore, RegionShown;
      hide Inv, SameUser, UsedKeep, RegionMapped, MemoryManager.Repr, KernelRegion, MmioLength, Translate, RoundDown;
      hide DeviceRegion, Pdx;
      MmioPlan(base, pa, size);
      var start, offset, vaStart := RoundDown(pa), pa % 4096, base;
      var len := MmioLength(pa, size);
      assert offset == pa - start;
      ghost var v0 := mm.v;
      ok := BootMapRegion(mm, vaStart, len, start, PTE_PCD + PTE_PWT + PTE_W);
      va := vaStart + offset;
      if ok {
        MmioMapped(v0, mm.v, vaStart, len, start, pa, size, PTE_PCD + PTE_PWT + PTE_W);
        MmioLimit(v0, mm.v, vaStart, len / 4096, start, PTE_PCD + PTE_PWT + PTE_W);
        SamePages(mm.v, vaStart, start, pa, len / 4096, PTE_PCD + PTE_PWT + PTE_W);
        base := vaStart + len;
      }
    }
  }

  /** Only the page numbers of a physical region count; and PTE_P is always set. */
  lemma SamePages(w: Vm, va: Word, start: Word, pa: Word, n: nat, perm: nat)
    requires Sizes(w) && start == RoundDown(pa) && RegionShown(w, va, start, n, perm) && perm % 2 == 0
    ensures RegionShown(w, va, pa, n, perm + 1)
  {
    SameNumber(pa);
    hide RoundDown, PageAt, Walk, Sizes;
    var all := perm + 1;
    forall k | 0 <= k < n ensures PageShown(w, va, pa, k, all) {
      assert PageShown(w, va, start, k, perm);
    }
  }

  lemma SameNumber(pa: Word)
    ensures RoundDown(pa) / 4096 == pa / 4096
  {
    var q := pa / 4096;
    assert RoundDown(pa) == q * 4096;
  }

  /** A device region of len bytes at base, for the physical pages from start on: what its addresses mean. */
  lemma MmioMapped(v: Vm, w: Vm, base: Word, len: Word, start: Word, pa: Word, size: Word, perm: nat)
    requires Sizes(v) && Sizes(w) && perm < 4096 && base % 4096 == 0 && len % 4096 == 0 && base + len < 0x1_0000_0000
    requires start % 4096 == 0 && start <= pa && pa + size <= start + len && start + len <= 0x1_0000_0000
    requires RegionMapped(v, w, base, len / 4096, start, perm)
    ensures var va := base + (pa - start);
      && va + size <= base + len && (base + len) % 4096 == 0
      && forall a: Word :: va <= a < va + size ==> Translate(w, a) == Some(pa + (a - va))
    ensures forall la: Word :: Pdx(la) != UVPT_PDX && !(base <= la < base + len) ==>
              Translate(w, la) == Translate(v, la)
  {
    hide RegionMapped, Translate, Pdx, Sizes;
    var n := len / 4096;
    assert len == n * 4096;
    WholePages(base, 0 - len);
    var va := base + (pa - start);
    forall a: Word | va <= a < va + size ensures Translate(w, a) == Some(pa + (a - va)) {
      OffsetInside(a - base, n);
      RegionTranslates(v, w, base, n, start, perm, a - base);
    }
    forall la: Word | Pdx(la) != UVPT_PDX && !(base <= la < base + len) ensures Translate(w, la) == Translate(v, la) {
      OutsideRegion(v, w, base, n, start, perm, la);
    }
  }

  /** The arithmetic of mmio_map_region. */
  lemma MmioPlan(base: Word, pa: Word, size: Word)
    requires DeviceRegion(pa, size) && base % 4096 == 0 && MMIOBASE <= base
    requires base + MmioLength(pa, size) < 0x1_0000_0000
    ensures var start, len := RoundDown(pa), MmioLength(pa, size);
      && KernelRegion(base, len / 4096) && len % 4096 == 0 && start % 4096 == 0
      && start <= pa && pa - start == pa % 4096 && pa + size <= start + len <= 0x1_0000_0000
  {
    MmioCovers(pa, size);
    RoundDownIs(pa);
    hide MmioLength, RoundDown;
    assert MmioLength(pa, size) == MmioLength(pa, size) / 4096 * 4096;
    MmioRegion(base, MmioLength(pa, size) / 4096);
  }

  lemma MmioRegion(va: Word, n: nat)
    requires va % 4096 == 0 && MMIOBASE <= va && va + n * 4096 < 0x1_0000_0000
    ensures KernelRegion(va, n)
  {
    forall k | 0 <= k < n ensures KernelPage(PageAt(va, k)) {
      var a := va + k * 4096;
      assert a % 0x1_0000_0000 == a && a / 0x40_0000 >= 958;
    }
  }

  lemma OffsetInside(j: nat, n: nat)
    requires j < n * 4096
    ensures j / 4096 < n
  {
  }

  lemma OutsideRegion(v: Vm, w: Vm, va: Word, n: nat, pa: Word, perm: nat, la: Word)
    requires Sizes(v) && Sizes(w) && perm < 4096 && RegionMapped(v, w, va, n, pa, perm)
    requires va % 4096 == 0 && va + n * 4096 < 0x1_0000_0000 && Pdx(la) != UVPT_PDX
    requires !(va <= la < va + n * 4096)
    ensures Translate(w, la) == Translate(v, la)
  {
    forall k | 0 <= k < n ensures PageAt(va, k) != PageOf(la) {
      PageNotOf(va, k, la);
    }
    hide PageAt, PageOf, Walk;
    assert !InRegion(va, n, PageOf(la));
  }

  lemma PageNotOf(va: Word, k: nat, la: Word)
    requires va % 4096 == 0 && va + k * 4096 < 0x1_0000_0000
    requires la < va + k * 4096 || va + (k + 1) * 4096 <= la
    ensures PageAt(va, k) != PageOf(la)
  {
    var a := va + k * 4096;
    assert a % 0x1_0000_0000 == a;
    PageOfIsPageNumber(a, la);
    assert va == 4096 * (va / 4096) && a / 4096 == va / 4096 + k;
  }

  /** The addresses that successive calls return, from base on; each pair is a device region. */
  function MmioResults(base: nat, reqs: seq<(Word, Word)>): seq<nat>
    decreases |reqs|
  {
    if reqs == [] then []
    else [base + reqs[0].0 % 4096] + MmioResults(base + MmioLength(reqs[0].0, reqs[0].1), reqs[1..])
  }

  function MmioEnd(base: nat, reqs: seq<(Word, Word)>): nat
    decreases |reqs|
  {
    if reqs == [] then base else MmioEnd(base + MmioLength(reqs[0].0, reqs[0].1), reqs[1..])
  }

  /** The regions handed out one after the other lie in order, without overlap, below the last base. */
  lemma {:induction false} MmioRegionsDisjoint(base: nat, reqs: seq<(Word, Word)>, i: nat, j: nat)
    requires forall r :: r in reqs ==> DeviceRegion(r.0, r.1)
    requires i < j < |reqs|
    ensures |MmioResults(base, reqs)| == |reqs|
    ensures var a := MmioResults(base, reqs);
      base <= a[i] && a[i] + reqs[i].1 <= a[j] && a[j] + reqs[j].1 <= MmioEnd(base, reqs)
    decreases |reqs|
  {
    hide MmioLength;
    MmioBounds(base, reqs, i);
    MmioBounds(base, reqs, j);
    MmioCovers(reqs[0].0, reqs[0].1);
    var next := base + MmioLength(reqs[0].0, reqs[0].1);
    if i > 0 {
      MmioRegionsDisjoint(next, reqs[1..], i - 1, j - 1);
    } else {
      MmioBounds(next, reqs[1..], j - 1);
    }
  }

  lemma {:induction false} MmioBounds(base: nat, reqs: seq<(Word, Word)>, i: nat)
    requires forall r :: r in reqs ==> DeviceRegion(r.0, r.1)
    requires i < |reqs|
    ensures |MmioResults(base, reqs)| == |reqs|
    ensures base <= MmioResults(base, reqs)[i] && MmioResults(base, reqs)[i] + reqs[i].1 <= MmioEnd(base, reqs)
    ensures base <= MmioEnd(base, reqs)
    decreases |reqs|
  {
    hide MmioLength;
    MmioCovers(reqs[0].0, reqs[0].1);
    var next := base + MmioLength(reqs[0].0, reqs[0].1);
    if |reqs| > 1 {
      MmioBounds(next, reqs[1..], if i > 0 then i - 1 else 0);
    }
  }
}
