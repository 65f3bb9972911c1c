/** region_alloc of kern/env.c: fresh pages for a range of an address space. */
module VmRegion {
  import opened Wrappers
  import opened Mmu
  import opened VmState
  import opened VmAlloc
  import opened VmPaging
  import opened VmPagingProofs
  import opened VmTlb
  import opened VmRuns
  import opened VmTeardown
  import opened VmFree
  import opened Pmap

  /** The number of a page: the addresses it holds, divided by PGSIZE. */
  function NoOf(p: VPage): nat { p.pdx * 1024 + p.ptx }

  lemma NoOfPage(la: Word)
    ensures NoOf(PageOf(la)) == la / 4096
  {
    assert la / 0x40_0000 == la / 4096 / 1024;
  }

  lemma NoOfIsInjective(p: VPage, q: VPage)
    ensures NoOf(p) == NoOf(q) ==> p == q
  {
  }

  /** Page p of address space d is a writable user page that is mapped nowhere else. */
  ghost predicate Private(v: Vm, d: nat, p: VPage)
    requires Lengths(v)
  {
    var e := UserMap(v, Mapping(d, p));
    && e.Some? && FrameOf(e.value) < |v.mem| && e.value == MkPte(FrameOf(e.value), PTE_W + PTE_U)
    && Mappings(v, FrameOf(e.value)) == {Mapping(d, p)}
  }

  /** The bytes of the page mapped at m. */
  ghost function PageBytes(v: Vm, m: Mapping): Option<Bytes>
    requires Lengths(v)
  {
    match UserMap(v, m)
    case None => None
    case Some(e) => if FrameOf(e) < |v.mem| then Some(v.data[FrameOf(e)]) else None
  }

  /** Every page but perhaps page p of d is mapped as before, with the same contents. */
  ghost predicate OthersSame(v: Vm, w: Vm, d: nat, p: VPage)
    requires Lengths(v) && Lengths(w)
  {
    forall m :: m != Mapping(d, p) ==> UserMap(w, m) == UserMap(v, m) && PageBytes(w, m) == PageBytes(v, m)
  }

  /** page_alloc of a zeroed page and page_insert of it at p; the result is false if there is no page at all. */
  ghost function FillPage(v: Vm, d: nat, p: VPage, perm: nat): (r: (Vm, bool))
    requires Lengths(v) && d < |v.mem| && perm < 4096
    ensures Lengths(r.0) && |r.0.mem| == |v.mem|
  {
    var (a, f) := Alloc(v, 1);
    if f == None then (v, false) else (Insert(a, d, f.value, p, perm).0, true)
  }

  /** One turn of region_alloc. */
  ghost function AddPage(v: Vm, d: nat, p: VPage): (r: (Vm, bool))
    requires Lengths(v) && d < |v.mem|
    ensures Lengths(r.0) && |r.0.mem| == |v.mem|
  {
    FillPage(v, d, p, PTE_W + PTE_U)
  }

  lemma AllocKeepsBytes(v: Vm, m: Mapping)
    requires Inv(v)
    ensures var a := Alloc(v, 1).0; UserMap(a, m) == UserMap(v, m) && PageBytes(a, m) == PageBytes(v, m)
  {
    AllocKeepsInv(v, 1);
    hide Inv, FreeListOk, CountsOk, SameView;
    SameViewSameUser(v, Alloc(v, 1).0);
    if UserMap(v, m).Some? {
      MappedIsLeaf(v, m, FrameOf(UserMap(v, m).value));
    }
  }

  /** page_insert keeps the bytes of every frame that is not free. */
  lemma InsertKeepsData(a: Vm, d: nat, pp: nat, p: VPage, perm: nat)
    requires CanInsert(a, d, pp, p, perm)
    ensures var w := Insert(a, d, pp, p, perm).0;
      forall f :: 0 <= f < |a.mem| && a.kind[f] != Free ==> w.data[f] == a.data[f]
  {
    WalkKeepsData(a, d, p);
    hide Inv, Shape, FreeListOk, CountsOk, Sizes, PgdirWalk;
    var (u, t) := PgdirWalk(a, d, p, true);
    if t.Some? {
      InsertAtKeepsData(u, d, pp, p, perm, t.value);
    }
  }

  lemma WalkKeepsData(a: Vm, d: nat, p: VPage)
    requires Inv(a) && d < |a.mem|
    ensures var u := PgdirWalk(a, d, p, true).0;
      forall f :: 0 <= f < |a.mem| && a.kind[f] != Free ==> u.data[f] == a.data[f]
  {
    assert a.head.Some? ==> a.head.value == a.fl[|a.fl| - 1] && a.kind[a.head.value] == Free;
  }

  lemma InsertAtKeepsData(u: Vm, d: nat, pp: nat, p: VPage, perm: nat, t: nat)
    requires Lengths(u) && d < |u.mem| && pp < |u.mem| && perm < 4096 && t < |u.mem|
    ensures InsertAt(u, d, pp, p, perm, t).data == u.data
  {
  }

  lemma InsertOthers(a: Vm, w: Vm, d: nat, pp: nat, p: VPage, e: Option<Word>)
    requires Inv(a) && Inv(w) && Updated(a, w, d, p, e) && UserPage(p) && d < |a.mem| && IsDir(a.kind[d])
    requires |w.mem| == |a.mem|
    requires forall f :: 0 <= f < |a.mem| && a.kind[f] != Free ==> w.data[f] == a.data[f]
    ensures OthersSame(a, w, d, p) && UserMap(w, Mapping(d, p)) == e
  {
    hide Inv, Shape, FreeListOk, CountsOk, Updated;
    UpdatedUser(a, w, d, p, e);
    forall m | m != Mapping(d, p) ensures UserMap(w, m) == UserMap(a, m) && PageBytes(w, m) == PageBytes(a, m) {
      if UserMap(a, m).Some? {
        MappedIsLeaf(a, m, FrameOf(UserMap(a, m).value));
      }
    }
  }

  lemma HeldIsInsertable(a: Vm, d: nat, f: nat, p: VPage, perm: nat)
    requires Inv(a) && d < |a.mem| && a.kind[d] == EnvDir && UserPage(p) && f < |a.mem| && a.kind[f] == Held
    requires perm < 4096
    ensures CanInsert(a, d, f, p, perm) && a.pages[f].ref < 0xFFFF && Shape(a)
  {
    hide Shape, FreeListOk;
    assert CountOk(a, f);
  }

  /** page_insert of a held, cleared page. */
  lemma InsertFresh(a: Vm, d: nat, f: nat, p: VPage)
    requires Inv(a) && d < |a.mem| && a.kind[d] == EnvDir && UserPage(p) && !NoTable(a, d, p)
    requires f < |a.mem| && a.kind[f] == Held && a.data[f] == ZeroBytes()
    ensures var w := Insert(a, d, f, p, PTE_W + PTE_U).0;
      Inv(w) && Private(w, d, p) && PageBytes(w, Mapping(d, p)) == Some(ZeroBytes()) && OthersSame(a, w, d, p)
  {
    hide Inv, Shape, FreeListOk, CountsOk, NoTable, Insert, Updated, OthersSame, UserMap, CanInsert;
    var perm := PTE_W + PTE_U;
    var e, w := MkPte(f, perm), Insert(a, d, f, p, perm).0;
    HeldIsInsertable(a, d, f, p, perm);
    OnlyLeavesAreMapped(a, f);
    InsertKeepsData(a, d, f, p, perm);
    InsertUpdates(a, d, f, p, perm);
    InsertOthers(a, w, d, f, p, Some(e));
    UpdatedMappings(a, w, d, p, Some(e), f);
  }

  /** A successful turn adds a private page of zeros and touches no other page. */
  lemma AddPageAdds(v: Vm, d: nat, p: VPage)
    requires Inv(v) && d < |v.mem| && v.kind[d] == EnvDir && UserPage(p)
    requires AddPage(v, d, p).1 && !NoTable(Alloc(v, 1).0, d, p)
    ensures var w := AddPage(v, d, p).0;
      Inv(w) && Private(w, d, p) && PageBytes(w, Mapping(d, p)) == Some(ZeroBytes()) && OthersSame(v, w, d, p)
  {
    var (a, r) := Alloc(v, 1);
    var w := AddPage(v, d, p).0;
    hide Inv, Shape, FreeListOk, CountsOk, SameView, Alloc, NoTable, Insert, Private;
    AllocKeepsInv(v, 1);
    InsertFresh(a, d, r.value, p);
    forall m | m != Mapping(d, p) ensures UserMap(w, m) == UserMap(v, m) && PageBytes(w, m) == PageBytes(v, m) {
      AllocKeepsBytes(v, m);
    }
  }

  /** Pages other than p stay private. */
  lemma PrivateStays(v: Vm, w: Vm, d: nat, p: VPage, q: VPage)
    requires Inv(v) && Inv(w) && OthersSame(v, w, d, p) && Private(w, d, p) && Private(v, d, q) && q != p
    requires |w.mem| == |v.mem|
    ensures Private(w, d, q)
  {
    var g := FrameOf(UserMap(v, Mapping(d, q)).value);
    hide Inv, UserMap;
    assert UserMap(w, Mapping(d, q)) == UserMap(v, Mapping(d, q));
    assert MapsTo(w, Mapping(d, q), g);
    assert Mapping(d, q) in Mappings(w, g);
    forall m ensures MapsTo(w, m, g) <==> m == Mapping(d, q) {
      if m != Mapping(d, p) {
        assert MapsTo(w, m, g) <==> MapsTo(v, m, g);
        assert MapsTo(v, m, g) <==> m in Mappings(v, g);
      }
    }
    assert Mappings(w, g) == {Mapping(d, q)};
  }

  /** Without a page table to put it in, the new page stays held and nothing is mapped. */
  lemma AddPageFails(v: Vm, d: nat, p: VPage)
    requires Inv(v) && d < |v.mem| && v.kind[d] == EnvDir && UserPage(p)
    requires AddPage(v, d, p).1 ==> NoTable(Alloc(v, 1).0, d, p)
    ensures var w := AddPage(v, d, p).0;
      Inv(w) && forall m :: UserMap(w, m) == UserMap(v, m) && PageBytes(w, m) == PageBytes(v, m)
    ensures AddPage(v, d, p).1 ==> AddPage(v, d, p).0 == Alloc(v, 1).0
  {
    AllocKeepsInv(v, 1);
    var (a, r) := Alloc(v, 1);
    if r.Some? {
      hide Inv, Shape, FreeListOk, CountsOk, SameView, Alloc, NoTable, Insert;
      InsertUpdates(a, d, r.value, p, PTE_W + PTE_U);
      forall m ensures UserMap(a, m) == UserMap(v, m) && PageBytes(a, m) == PageBytes(v, m) {
        AllocKeepsBytes(v, m);
      }
    }
  }

  /** What region_alloc keeps of the registers, the cache and the other directories; it works on d alone. */
  ghost predicate Steady(v: Vm, w: Vm, d: nat)
    requires Sizes(v) && Sizes(w)
  {
    && |w.mem| == |v.mem| && w.kern == v.kern && w.cr3 == v.cr3 && w.cur == v.cur
    && (forall f :: 0 <= f < |v.mem| ==> (w.kind[f] == EnvDir <==> v.kind[f] == EnvDir))
    && (Coherent(v) && (d != v.cr3 || Flushes(v, d)) ==> Coherent(w))
    && Touches(v, w, d)
  }

  lemma SteadyTrans(u: Vm, v: Vm, w: Vm, d: nat)
    requires Sizes(u) && Sizes(v) && Sizes(w) && Steady(u, v, d) && Steady(v, w, d)
    ensures Steady(u, w, d)
  {
    hide Touches;
    TouchesTrans(u, v, w, d);
  }

  lemma AllocSteady(v: Vm, d: nat)
    requires Inv(v)
    ensures var a := Alloc(v, 1).0; Inv(a) && Steady(v, a, d)
  {
    AllocKeepsInv(v, 1);
    var a := Alloc(v, 1).0;
    assert a.kern == v.kern && a.cr3 == v.cr3 && a.cur == v.cur && a.tlb == v.tlb;
    hide Inv, Shape, FreeListOk, CountsOk, SameView, Alloc, Coherent, Touches;
    StepTouches(v, Take(1), d);
    if Coherent(v) {
      SameViewKeepsCoherent(v, a);
    }
  }

  lemma InsertSteady(a: Vm, d: nat, pp: nat, p: VPage, perm: nat)
    requires CanInsert(a, d, pp, p, perm) && !NoTable(a, d, p)
    requires a.pages[pp].ref < 0xFFFF || SamePage(a, d, pp, p)
    ensures var w := Insert(a, d, pp, p, perm).0; Inv(w) && Steady(a, w, d)
  {
    hide Inv, Shape, FreeListOk, CountsOk, Updated, Insert, Coherent, NoTable, Touches, SamePage;
    var w := Insert(a, d, pp, p, perm).0;
    InsertRegisters(a, d, pp, p, perm);
    MapTouches(a, d, pp, p, perm);
    InsertUpdates(a, d, pp, p, perm);
    if Coherent(a) {
      InsertCoherent(a, d, pp, p, perm);
    }
  }

  lemma InsertRegisters(a: Vm, d: nat, pp: nat, p: VPage, perm: nat)
    requires Lengths(a) && d < |a.mem| && pp < |a.mem| && perm < 4096
    ensures var w := Insert(a, d, pp, p, perm).0; w.cr3 == a.cr3 && w.cur == a.cur && w.kern == a.kern
  {
  }

  lemma FillSteady(v: Vm, d: nat, p: VPage, perm: nat)
    requires Inv(v) && d < |v.mem| && v.kind[d] == EnvDir && UserPage(p) && perm < 4096
    ensures var w := FillPage(v, d, p, perm).0; Inv(w) && Steady(v, w, d)
  {
    var (a, r) := Alloc(v, 1);
    AllocKeepsInv(v, 1);
    hide Inv, Shape, FreeListOk, CountsOk, SameView, Alloc, NoTable, Insert, Coherent, Steady, CanInsert;
    AllocSteady(v, d);
    if r.Some? {
      HeldIsInsertable(a, d, r.value, p, perm);
      if NoTable(a, d, p) {
        InsertUpdates(a, d, r.value, p, perm);
      } else {
        InsertSteady(a, d, r.value, p, perm);
        SteadyTrans(v, a, Insert(a, d, r.value, p, perm).0, d);
      }
    }
  }

  lemma AddPageSteady(v: Vm, d: nat, p: VPage)
    requires Inv(v) && d < |v.mem| && v.kind[d] == EnvDir && UserPage(p)
    ensures var w := AddPage(v, d, p).0; Inv(w) && Steady(v, w, d)
  {
    hide Inv, Steady, FillPage;
    FillSteady(v, d, p, PTE_W + PTE_U);
  }

  /** A page that was taken and mapped is not held; neither is anything else that was not. */
  lemma FillSameHeld(v: Vm, d: nat, p: VPage, perm: nat)
    requires Inv(v) && d < |v.mem| && v.kind[d] == EnvDir && UserPage(p) && perm < 4096
    requires FillPage(v, d, p, perm).1 ==> !NoTable(Alloc(v, 1).0, d, p)
    ensures SameHeld(v, FillPage(v, d, p, perm).0)
  {
    hide Inv, Shape, FreeListOk, CountsOk, SameView, Alloc, NoTable, Insert, CanInsert, Updated, InsertedKinds,
      SameHeld;
    var (a, r) := Alloc(v, 1);
    AllocKeepsInv(v, 1);
    SameHeldIfSameKind(v, v);
    if r.Some? {
      HeldIsInsertable(a, d, r.value, p, perm);
      InsertUpdates(a, d, r.value, p, perm);
      TakenAndMapped(v, a, Insert(a, d, r.value, p, perm).0, d, r.value, p);
    }
  }

  lemma TakenAndMapped(v: Vm, a: Vm, w: Vm, d: nat, f: nat, p: VPage)
    requires Sizes(v) && Sizes(a) && Sizes(w) && |a.mem| == |v.mem| && f < |v.mem|
    requires v.kind[f] == Free && a.kind == v.kind[f := Held] && InsertedKinds(a, w, d, f, p)
    ensures SameHeld(v, w)
  {
  }

  /** How many of the slots a to b - 1 of a directory have no page table. */
  function Missing(row: Row, a: nat, b: nat): nat
    requires b <= 1024
    decreases b - a
  {
    if a >= b then 0 else (if row[a] == 0 then 1 else 0) + Missing(row, a + 1, b)
  }

  /** Giving slot s a table saves one. */
  lemma {:induction false} MissingOneLess(row: Row, row': Row, a: nat, b: nat, s: nat)
    requires a <= s < b <= 1024 && row[s] == 0 && row'[s] != 0
    requires forall i :: 0 <= i < 1024 && i != s ==> row'[i] == row[i]
    ensures Missing(row', a, b) == Missing(row, a, b) - 1
    decreases b - a
  {
    if a < s {
      MissingOneLess(row, row', a + 1, b, s);
    } else {
      MissingSame(row, row', a + 1, b);
    }
  }

  lemma {:induction false} MissingSame(row: Row, row': Row, a: nat, b: nat)
    requires b <= 1024 && forall i :: a <= i < b ==> row'[i] == row[i]
    ensures Missing(row', a, b) == Missing(row, a, b)
    decreases b - a
  {
    if a >= b {
    } else {
      MissingSame(row, row', a + 1, b);
    }
  }

  /** Slots that are neither empty before nor after do not count. */
  lemma {:induction false} MissingKept(row: Row, row': Row, a: nat, b: nat, s: nat)
    requires b <= 1024 && s < 1024 && row[s] != 0 && row'[s] != 0
    requires forall i :: 0 <= i < 1024 && i != s ==> row'[i] == row[i]
    ensures Missing(row', a, b) == Missing(row, a, b)
    decreases b - a
  {
    if a >= b {
    } else {
      MissingKept(row, row', a + 1, b, s);
    }
  }

  /** An empty slot counts. */
  lemma {:induction false} MissingMember(row: Row, a: nat, b: nat, s: nat)
    requires a <= s < b <= 1024 && row[s] == 0
    ensures Missing(row, a, b) >= 1
    decreases b - a
  {
    if a == s {
    } else {
      MissingMember(row, a + 1, b, s);
    }
  }

  /**
   * A turn takes one page, and one more if the slot has no page table yet; with as many free, it succeeds.  It
   * may give one back, if another page was mapped there.
   */
  lemma AddPageCosts(v: Vm, d: nat, p: VPage)
    requires Inv(v) && d < |v.mem| && v.kind[d] == EnvDir && UserPage(p)
    requires |v.fl| >= (if v.mem[d][p.pdx] == 0 then 2 else 1)
    ensures var (w, ok) := AddPage(v, d, p);
      && ok && !NoTable(Alloc(v, 1).0, d, p)
      && |w.fl| >= |v.fl| - (if v.mem[d][p.pdx] == 0 then 2 else 1)
      && (UserMap(v, Mapping(d, p)) == None ==> |w.fl| == |v.fl| - (if v.mem[d][p.pdx] == 0 then 2 else 1))
      && w.mem[d][p.pdx] != 0 && forall i :: 0 <= i < 1024 && i != p.pdx ==> w.mem[d][i] == v.mem[d][i]
  {
    var f := v.fl[|v.fl| - 1];
    var (a, r) := Alloc(v, 1);
    assert v.head == Some(f) && v.kind[f] == Free && f != d;
    assert r == Some(f) && a.fl == v.fl[..|v.fl| - 1] && a.mem[d] == v.mem[d] && a.kind[d] == EnvDir;
    AllocKeepsInv(v, 1);
    AllocKeepsBytes(v, Mapping(d, p));
    hide Alloc, UserMap;
    InsertCosts(a, d, f, p);
  }

  lemma InsertCosts(a: Vm, d: nat, f: nat, p: VPage)
    requires Inv(a) && d < |a.mem| && a.kind[d] == EnvDir && UserPage(p) && f < |a.mem| && a.kind[f] == Held
    requires a.mem[d][p.pdx] == 0 ==> |a.fl| >= 1
    ensures !NoTable(a, d, p)
    ensures var w := Insert(a, d, f, p, PTE_W + PTE_U).0;
      && |w.fl| >= |a.fl| - (if a.mem[d][p.pdx] == 0 then 1 else 0)
      && (UserMap(a, Mapping(d, p)) == None ==> |w.fl| == |a.fl| - (if a.mem[d][p.pdx] == 0 then 1 else 0))
      && w.mem[d][p.pdx] != 0 && forall i :: 0 <= i < 1024 && i != p.pdx ==> w.mem[d][i] == a.mem[d][i]
  {
    assert a.mem[d][p.pdx] == 0 ==> a.kind[a.fl[0]] == Free;
    WalkCosts(a, d, p);
    hide Inv, Shape, FreeListOk, CountsOk, InsertAt, SameView, Sizes, UserMap;
    PgdirWalkKeepsInv(a, d, p, true);
    var (u, t) := PgdirWalk(a, d, p, true);
    InsertAtCosts(u, d, f, p, PTE_W + PTE_U, t.value);
  }

  lemma WalkCosts(a: Vm, d: nat, p: VPage)
    requires Inv(a) && d < |a.mem| && a.kind[d] == EnvDir && UserPage(p) && (a.mem[d][p.pdx] == 0 ==> |a.fl| >= 1)
    ensures var (u, t) := PgdirWalk(a, d, p, true);
      && t.Some? && |u.fl| == |a.fl| - (if a.mem[d][p.pdx] == 0 then 1 else 0) && u.kind[d] == EnvDir
      && (UserMap(a, Mapping(d, p)) == None ==> u.mem[t.value][p.ptx] == 0)
      && forall i :: 0 <= i < 1024 && i != p.pdx ==> u.mem[d][i] == a.mem[d][i]
  {
    assert PdeOk(a, d, p.pdx);
    if a.mem[d][p.pdx] == 0 {
      var g := a.fl[|a.fl| - 1];
      assert a.head == Some(g) && a.kind[g] == Free && g != d;
    } else {
      assert PteOk(a, a.mem[FrameOf(a.mem[d][p.pdx])][p.ptx]);
    }
  }

  lemma InsertAtCosts(u: Vm, d: nat, pp: nat, p: VPage, perm: nat, t: nat)
    requires Lengths(u) && d < |u.mem| && pp < |u.mem| && perm < 4096 && t < |u.mem| && t != d
    requires Present(u.mem[d][p.pdx]) && FrameOf(u.mem[d][p.pdx]) == t
    ensures var w := InsertAt(u, d, pp, p, perm, t);
      |w.fl| >= |u.fl| && w.mem[d] == u.mem[d] && (u.mem[t][p.ptx] == 0 ==> |w.fl| == |u.fl|)
  {
  }

  // ---- region_alloc ----

  /** Page p of d is fresh: private and cleared. */
  ghost predicate Fresh(v: Vm, d: nat, p: VPage)
    requires Lengths(v)
  {
    Private(v, d, p) && PageBytes(v, Mapping(d, p)) == Some(ZeroBytes())
  }

  /** Every page of d with a number from lo up to hi is fresh. */
  ghost predicate AllFresh(v: Vm, d: nat, lo: nat, hi: nat)
    requires Lengths(v)
  {
    forall p :: lo <= NoOf(p) < hi ==> Fresh(v, d, p)
  }

  /** The last of these pages is not mapped, the others are fresh, and there is no free page left. */
  ghost predicate LastLacks(v: Vm, d: nat, lo: nat, hi: nat)
    requires Sizes(v)
  {
    lo < hi && AllFresh(v, d, lo, hi - 1) && NoneFree(v) && Unmapped(v, d, hi - 1, hi)
  }

  /** Nothing is mapped in d from page lo up to page hi. */
  ghost predicate Unmapped(v: Vm, d: nat, lo: nat, hi: nat)
    requires Lengths(v)
  {
    forall p :: lo <= NoOf(p) < hi ==> UserMap(v, Mapping(d, p)) == None
  }

  /** The pages are fresh, or the page_insert of the last one failed. */
  ghost predicate Done(v: Vm, d: nat, lo: nat, hi: nat)
    requires Sizes(v)
  {
    AllFresh(v, d, lo, hi) || LastLacks(v, d, lo, hi)
  }

  /** No page but those of d from lo up to hi has changed, in mapping or in contents. */
  ghost predicate OutsideSame(v: Vm, w: Vm, d: nat, lo: nat, hi: nat)
    requires Lengths(v) && Lengths(w)
  {
    forall m: Mapping :: m.dir != d || NoOf(m.page) < lo || NoOf(m.page) >= hi ==>
      UserMap(w, m) == UserMap(v, m) && PageBytes(w, m) == PageBytes(v, m)
  }

  /** The state of the loop. */
  ghost predicate Allocated(v0: Vm, v: Vm, d: nat, lo: nat, hi: nat)
    requires Inv(v0)
  {
    && Inv(v) && Steady(v0, v, d) && d < |v.mem| && v.kind[d] == EnvDir
    && Done(v, d, lo, hi) && OutsideSame(v0, v, d, lo, hi)
  }

  lemma FreshGrows(v: Vm, w: Vm, d: nat, lo: nat, p: VPage)
    requires Inv(v) && Inv(w) && |w.mem| == |v.mem| && OthersSame(v, w, d, p) && Fresh(w, d, p)
    requires lo <= NoOf(p) && AllFresh(v, d, lo, NoOf(p))
    ensures AllFresh(w, d, lo, NoOf(p) + 1)
  {
    hide Inv, UserMap, PageBytes, NoOf, Private;
    forall q | lo <= NoOf(q) < NoOf(p) + 1 ensures Fresh(w, d, q) {
      NoOfIsInjective(p, q);
      if q != p {
        assert Fresh(v, d, q);
        assert PageBytes(w, Mapping(d, q)) == PageBytes(v, Mapping(d, q));
        PrivateStays(v, w, d, p, q);
      }
    }
  }

  /** Without a free page the next turn panics. */
  lemma StuckPanics(v: Vm, d: nat, p: VPage)
    requires Inv(v) && d < |v.mem|
    ensures NoneFree(v) <==> !AddPage(v, d, p).1
    ensures !AddPage(v, d, p).1 ==> AddPage(v, d, p).0 == v
  {
    HeadIsFree(v);
    hide Inv, NoneFree, Insert;
  }

  /** A turn of the loop that maps its page. */
  lemma AllocatedGrows(v0: Vm, v: Vm, d: nat, lo: nat, p: VPage)
    requires Inv(v0) && Allocated(v0, v, d, lo, NoOf(p)) && UserPage(p) && lo <= NoOf(p)
    requires AddPage(v, d, p).1 && !NoTable(Alloc(v, 1).0, d, p)
    ensures var w := AddPage(v, d, p).0;
      Allocated(v0, w, d, lo, NoOf(p) + 1) && AllFresh(v, d, lo, NoOf(p)) && AllFresh(w, d, lo, NoOf(p) + 1)
  {
    var w := AddPage(v, d, p).0;
    StuckPanics(v, d, p);
    hide Inv, Steady, AllFresh, AddPage, Private, PageBytes, UserMap, NoTable, Alloc, NoneFree, Unmapped;
    AddPageAdds(v, d, p);
    AddPageSteady(v, d, p);
    SteadyTrans(v0, v, w, d);
    SteadyKinds(v, w, d);
    FreshGrows(v, w, d, lo, p);
    forall m: Mapping | m.dir != d || NoOf(m.page) < lo || NoOf(m.page) >= NoOf(p) + 1
      ensures UserMap(w, m) == UserMap(v0, m) && PageBytes(w, m) == PageBytes(v0, m)
    {
      assert m != Mapping(d, p);
    }
  }

  lemma SteadyKinds(v: Vm, w: Vm, d: nat)
    requires Sizes(v) && Sizes(w) && Steady(v, w, d) && d < |v.mem| && v.kind[d] == EnvDir
    ensures |w.mem| == |v.mem| && w.kind[d] == EnvDir
  {
  }

  /** A turn of the loop whose page_insert fails: it used up the last free page. */
  lemma AllocatedFails(v0: Vm, v: Vm, d: nat, lo: nat, p: VPage)
    requires Inv(v0) && Allocated(v0, v, d, lo, NoOf(p)) && UserPage(p) && lo <= NoOf(p)
    requires AddPage(v, d, p).1 && NoTable(Alloc(v, 1).0, d, p)
    ensures var w := AddPage(v, d, p).0;
      Allocated(v0, w, d, lo, NoOf(p) + 1) && LastLacks(w, d, lo, NoOf(p) + 1) && AllFresh(v, d, lo, NoOf(p))
  {
    var w := AddPage(v, d, p).0;
    AllocKeepsInv(v, 1);
    NoTableUnmapped(Alloc(v, 1).0, d, p);
    StuckPanics(v, d, p);
    hide Inv, Steady, AddPage, PageBytes, NoTable, Alloc, UserMap, SameView, AllFresh, NoOf, OutsideSame, Unmapped;
    AddPageFails(v, d, p);
    AddPageSteady(v, d, p);
    SteadyTrans(v0, v, w, d);
    SteadyKinds(v, w, d);
    AllStay(v0, v, w, d, lo, p);
  }

  /** Where nothing is mapped differently, fresh pages are fresh, and one more may count as changed. */
  lemma AllStay(v0: Vm, v: Vm, w: Vm, d: nat, lo: nat, p: VPage)
    requires Inv(v0) && Inv(v) && Inv(w) && |w.mem| == |v.mem|
    requires forall m :: UserMap(w, m) == UserMap(v, m) && PageBytes(w, m) == PageBytes(v, m)
    requires AllFresh(v, d, lo, NoOf(p)) && OutsideSame(v0, v, d, lo, NoOf(p)) && UserMap(w, Mapping(d, p)) == None
    ensures AllFresh(w, d, lo, NoOf(p)) && OutsideSame(v0, w, d, lo, NoOf(p) + 1)
    ensures Unmapped(w, d, NoOf(p), NoOf(p) + 1)
  {
    hide Inv, UserMap, PageBytes, Fresh;
    forall q | lo <= NoOf(q) < NoOf(p) ensures Fresh(w, d, q) {
      SameFresh(v, w, d, q);
    }
    forall q | NoOf(p) <= NoOf(q) < NoOf(p) + 1 ensures UserMap(w, Mapping(d, q)) == None {
      NoOfIsInjective(p, q);
    }
  }

  lemma NoTableUnmapped(a: Vm, d: nat, p: VPage)
    requires Sizes(a) && d < |a.mem| && NoTable(a, d, p)
    ensures UserMap(a, Mapping(d, p)) == None && NoneFree(a)
  {
  }

  lemma SameFresh(v: Vm, w: Vm, d: nat, q: VPage)
    requires Inv(v) && Inv(w) && |w.mem| == |v.mem|
    requires forall m :: UserMap(w, m) == UserMap(v, m) && PageBytes(w, m) == PageBytes(v, m)
    requires Fresh(v, d, q)
    ensures Fresh(w, d, q)
  {
    var g := FrameOf(UserMap(v, Mapping(d, q)).value);
    hide Inv, UserMap, PageBytes;
    assert UserMap(w, Mapping(d, q)) == UserMap(v, Mapping(d, q));
    SameUserSameMappings(v, w, g);
  }

  /** The directory slot of page number n. */
  function SlotOf(n: nat): nat { n / 1024 }

  /** The first slot behind the pages numbered below hi. */
  function SlotsUpTo(hi: nat): nat { (hi + 1023) / 1024 }

  lemma SlotsBound(hi: nat)
    requires hi <= 0x10_0000
    ensures SlotsUpTo(hi) <= 1024
  {
  }

  /** The pages that the pages lo to hi - 1 and the page tables they still need cost. */
  function Cost(row: Row, lo: nat, hi: nat): nat
    requires hi <= 0x10_0000
  {
    SlotsBound(hi);
    if lo < hi then hi - lo + Missing(row, SlotOf(lo), SlotsUpTo(hi)) else 0
  }

  /** The free pages that remain beyond that cost, or, if negative, those that lack. */
  ghost function Slack(v: Vm, d: nat, lo: nat, hi: nat): int
    requires Lengths(v) && d < |v.mem| && hi <= 0x10_0000
  {
    |v.fl| - Cost(v.mem[d], lo, hi)
  }

  /** No page table is given up. */
  ghost predicate KeepsTables(row: Row, row': Row) {
    forall i :: 0 <= i < 1024 && row[i] != 0 ==> row'[i] != 0
  }

  lemma FillSameHeldIf(v: Vm, d: nat, p: VPage)
    requires Inv(v) && d < |v.mem| && v.kind[d] == EnvDir && UserPage(p)
    ensures !NoTable(Alloc(v, 1).0, d, p) ==> SameHeld(v, AddPage(v, d, p).0)
  {
    hide Inv, FillPage, NoTable, Alloc, SameHeld, SameView;
    AllocKeepsInv(v, 1);
    if !NoTable(Alloc(v, 1).0, d, p) {
      FillSameHeld(v, d, p, PTE_W + PTE_U);
    }
  }

  /** The last page is also the first one in its slot, has no page table, and one free page is missing. */
  ghost predicate LacksOne(v: Vm, d: nat, lo: nat, hi: nat)
    requires Lengths(v) && d < |v.mem| && hi <= 0x10_0000
  {
    && lo < hi && Slack(v, d, lo, hi) == -1 && v.mem[d][SlotOf(hi - 1)] == 0
    && (lo == hi - 1 || (hi - 1) % 1024 == 0)
  }

  lemma EmptyList(v: Vm)
    requires Inv(v)
    ensures NoneFree(v) <==> |v.fl| == 0
    ensures v.head == None <==> |v.fl| == 0
    ensures v.head.Some? ==> v.head.value < |v.mem|
  {
    hide Shape, CountsOk;
    if |v.fl| > 0 {
      assert v.kind[v.fl[0]] == Free;
    }
  }

  /** Whether the table can be made after page_alloc can be told before it. */
  lemma LastPage(v: Vm, d: nat, p: VPage)
    requires Inv(v) && EnvSpace(v, d)
    ensures var (a, r) := Alloc(v, 1);
      && Inv(a) && a.kind[d] == EnvDir && r == v.head
      && (r.Some? ==> r.value < |v.mem| && v.kind[r.value] == Free && a.kind == v.kind[r.value := Held])
      && (r.Some? && NoTable(a, d, p) <==> |v.fl| == 1 && v.mem[d][p.pdx] == 0)
  {
    hide Shape, CountsOk, SameView;
    AllocKeepsInv(v, 1);
    var (a, r) := Alloc(v, 1);
    EmptyList(a);
    EmptyList(v);
    if r.Some? {
      assert |a.fl| == |v.fl| - 1 && a.mem[d] == v.mem[d];
    }
  }

  /** What remains to be paid for after page p has been. */
  lemma CostStep(row: Row, row': Row, p: VPage, hi: nat)
    requires NoOf(p) < hi <= 0x10_0000 && row'[p.pdx] != 0
    requires forall i :: 0 <= i < 1024 && i != p.pdx ==> row'[i] == row[i]
    ensures Cost(row', NoOf(p) + 1, hi) == Cost(row, NoOf(p), hi) - (if row[p.pdx] == 0 then 2 else 1)
  {
    SlotFacts(p, hi);
    var s: nat, t, b := p.pdx, SlotOf(NoOf(p) + 1), SlotsUpTo(hi);
    hide Missing, SlotOf, SlotsUpTo, NoOf;
    MissingStep(row, s, b);
    if t == s {
      if row[s] == 0 {
        MissingOneLess(row, row', s, b, s);
      } else {
        MissingKept(row, row', s, b, s);
      }
    } else {
      MissingSame(row, row', s + 1, b);
    }
    MissingNone(row, b, b);
  }

  lemma MissingStep(row: Row, s: nat, b: nat)
    requires s < b <= 1024
    ensures Missing(row, s, b) == (if row[s] == 0 then 1 else 0) + Missing(row, s + 1, b)
  {
  }

  lemma MissingNone(row: Row, a: nat, b: nat)
    requires b <= 1024 && a >= b
    ensures Missing(row, a, b) == 0
  {
  }

  lemma SlotFacts(p: VPage, hi: nat)
    requires NoOf(p) < hi <= 0x10_0000
    ensures var n := NoOf(p);
      && SlotOf(n) == p.pdx && p.pdx <= SlotOf(n + 1) <= p.pdx + 1 && p.pdx < SlotsUpTo(hi) <= 1024
      && (n + 1 == hi ==> SlotsUpTo(hi) == p.pdx + 1)
      && p.pdx <= SlotOf(hi - 1) < SlotsUpTo(hi)
      && (SlotOf(n + 1) == p.pdx + 1 <==> (n + 1) % 1024 == 0)
      && ((hi - 1) % 1024 == 0 && n + 1 < hi ==> SlotOf(hi - 1) != p.pdx)
  {
  }

  /** What the last page costs, and at least what pages with an empty slot at the end cost. */
  lemma LastCost(row: Row, p: VPage, hi: nat)
    requires NoOf(p) < hi <= 0x10_0000
    ensures NoOf(p) + 1 == hi ==> Cost(row, NoOf(p), hi) == if row[p.pdx] == 0 then 2 else 1
    ensures row[SlotOf(hi - 1)] == 0 || row[p.pdx] == 0 ==> Cost(row, NoOf(p), hi) >= hi - NoOf(p) + 1
    ensures Cost(row, NoOf(p), hi) >= hi - NoOf(p)
  {
    SlotFacts(p, hi);
    var s, b := p.pdx, SlotsUpTo(hi);
    var last := SlotOf(hi - 1);
    hide Missing, SlotOf, SlotsUpTo, NoOf;
    MissingStep(row, s, b);
    MissingNone(row, b, b);
    if row[last] == 0 {
      MissingMember(row, s, b, last);
    }
  }

  /** Page p was paid for: what was set aside for the pages behind it is there, and no page is held back. */
  ghost predicate Paid(v: Vm, w: Vm, d: nat, p: VPage, hi: nat)
    requires Lengths(v) && Lengths(w) && d < |v.mem| && d < |w.mem| && hi <= 0x10_0000
  {
    && Slack(w, d, NoOf(p) + 1, hi) >= Slack(v, d, NoOf(p), hi)
    && (UserMap(v, Mapping(d, p)) == None ==>
          && Slack(w, d, NoOf(p) + 1, hi) == Slack(v, d, NoOf(p), hi)
          && (LacksOne(w, d, NoOf(p) + 1, hi) <==> LacksOne(v, d, NoOf(p), hi)))
    && KeepsTables(v.mem[d], w.mem[d]) && SameHeld(v, w)
  }

  /** A turn that maps its page spends what was set aside for it, exactly so if nothing was mapped there. */
  lemma TurnPays(v: Vm, d: nat, p: VPage, hi: nat)
    requires Inv(v) && d < |v.mem| && v.kind[d] == EnvDir && UserPage(p) && NoOf(p) < hi <= 0x10_0000
    requires AddPage(v, d, p).1 && !NoTable(Alloc(v, 1).0, d, p)
    ensures Paid(v, AddPage(v, d, p).0, d, p, hi)
  {
    hide Inv, FillPage, NoTable, Cost, Alloc, NoOf, SameHeld, UserMap, SlotOf, SlotsUpTo, NoneFree;
    FillSameHeldIf(v, d, p);
    LastPage(v, d, p);
    EmptyList(v);
    StuckPanics(v, d, p);
    AddPageCosts(v, d, p);
    CostStep(v.mem[d], AddPage(v, d, p).0.mem[d], p, hi);
    SlotFacts(p, hi);
    LastCost(v.mem[d], p, hi);
  }

  /** A turn that fails has too little set aside; it is the last one exactly if one page was missing. */
  lemma LackShows(v: Vm, d: nat, p: VPage, hi: nat)
    requires Inv(v) && d < |v.mem| && v.kind[d] == EnvDir && UserPage(p) && NoOf(p) < hi <= 0x10_0000
    ensures !AddPage(v, d, p).1 ==> Slack(v, d, NoOf(p), hi) < 0 && !LacksOne(v, d, NoOf(p), hi)
    ensures AddPage(v, d, p).1 && NoTable(Alloc(v, 1).0, d, p) ==>
              Slack(v, d, NoOf(p), hi) < 0 && (LacksOne(v, d, NoOf(p), hi) <==> NoOf(p) + 1 == hi)
  {
    hide Inv, FillPage, NoTable, Cost, Alloc, NoOf, SlotOf, SlotsUpTo, NoneFree;
    LastPage(v, d, p);
    EmptyList(v);
    StuckPanics(v, d, p);
    SlotFacts(p, hi);
    LastCost(v.mem[d], p, hi);
  }

  /**
   * One turn.  With enough set aside it maps its page; then it spends what was set aside for it, exactly so if
   * nothing was mapped there, and holds no page back.  If it does not, too little was set aside, and it is the
   * last turn exactly if LacksOne.
   */
  lemma SlackSteps(v: Vm, d: nat, p: VPage, hi: nat)
    requires Inv(v) && d < |v.mem| && v.kind[d] == EnvDir && UserPage(p) && NoOf(p) < hi <= 0x10_0000
    ensures var (w, ok) := AddPage(v, d, p);
      && (Slack(v, d, NoOf(p), hi) >= 0 ==> ok && !NoTable(Alloc(v, 1).0, d, p))
      && (ok && !NoTable(Alloc(v, 1).0, d, p) ==> Paid(v, w, d, p, hi))
      && (ok && NoTable(Alloc(v, 1).0, d, p) ==> (LacksOne(v, d, NoOf(p), hi) <==> NoOf(p) + 1 == hi))
      && (!ok ==> !LacksOne(v, d, NoOf(p), hi))
  {
    hide Inv, AddPage, NoTable, Slack, Alloc, NoOf, SameHeld, LacksOne, Paid, UserMap, SameView;
    AllocKeepsInv(v, 1);
    LackShows(v, d, p, hi);
    if AddPage(v, d, p).1 && !NoTable(Alloc(v, 1).0, d, p) {
      TurnPays(v, d, p, hi);
    }
  }

  /** ROUNDDOWN and ROUNDUP bound the pages that [va, va + len) touches. */
  lemma RegionBounds(va: Word, len: Word)
    requires va + len <= UTOP
    ensures RoundDown(va) == va / 4096 * 4096 && RoundUp((va + len) % 0x1_0000_0000) == (va + len + 4095) / 4096 * 4096
    ensures va / 4096 <= (va + len + 4095) / 4096 && (va + len + 4095) / 4096 * 4096 <= UTOP
  {
    var a := va + len;
    assert a % 0x1_0000_0000 == a && (a + 4095) % 0x1_0000_0000 == a + 4095;
  }

  lemma OutsideWider(v: Vm, w: Vm, d: nat, lo: nat, n: nat, hi: nat)
    requires Lengths(v) && Lengths(w) && OutsideSame(v, w, d, lo, n) && n <= hi
    ensures OutsideSame(v, w, d, lo, hi)
  {
  }

  /**
   * What region_alloc does to the pages of d from lo up to hi.  It panics, or all of them become fresh, but
   * perhaps the last.  Given free pages for them and for the page tables they need, it does not panic and all
   * become fresh.  If nothing was mapped there, this is the only case in which they do, and it returns without
   * the last page exactly if LacksOne.  No other page of any address space changes.
   */
  ghost predicate RegionDone(v: Vm, w: Vm, d: nat, lo: nat, hi: nat, ok: bool)
    requires Inv(v) && EnvSpace(v, d) && hi <= 0x10_0000
  {
    && Inv(w) && Steady(v, w, d) && OutsideSame(v, w, d, lo, hi)
    && (ok ==> Done(w, d, lo, hi))
    && (Slack(v, d, lo, hi) >= 0 ==>
          && ok && AllFresh(w, d, lo, hi) && |w.fl| >= Slack(v, d, lo, hi) && KeepsTables(v.mem[d], w.mem[d])
          && SameHeld(v, w))
    && (Unmapped(v, d, lo, hi) ==>
          && (ok <==> Slack(v, d, lo, hi) >= 0 || LacksOne(v, d, lo, hi))
          && (ok ==> (LastLacks(w, d, lo, hi) <==> LacksOne(v, d, lo, hi))))
  }

  /** The body of the loop; false stands for the panic for want of a page. */
  method AllocOne(mm: MemoryManager, d: nat, i: Word) returns (ok: bool)
    requires mm.Repr() && Inv(mm.v) && EnvSpace(mm.v, d) && i < UTOP
    modifies mm, mm.phys, mm.data, mm.pages
    ensures mm.Repr() && (mm.v, ok) == AddPage(old(mm.v), d, PageOf(i))
  {
    AllocKeepsInv(mm.v, 1);
    PageOfIsPageNumber(i, i);
    assert forall r :: Alloc(mm.v, 1).1 == Some(r) ==> CanInsert(Alloc(mm.v, 1).0, d, r, PageOf(i), PTE_W + PTE_U);
    hide Inv, Shape, FreeListOk, CountsOk, SameView, Alloc, MemoryManager.Repr, CanInsert, NoTable, Insert;
    var pp := mm.PageAlloc(1);
    if pp == None {
      return false;
    }
    var r := mm.PageInsert(d, pp.value, i, PTE_W + PTE_U);
    return true;
  }

  /** region_alloc: a fresh page for every page that [va, va + len) touches; false stands for its panic. */
  method RegionAlloc(mm: MemoryManager, d: nat, va: Word, len: Word) returns (ok: bool)
    requires mm.Repr() && Inv(mm.v) && EnvSpace(mm.v, d) && va + len <= UTOP
    modifies mm, mm.phys, mm.data, mm.pages
    ensures mm.Repr() && Inv(mm.v) && RegionDone(old(mm.v), mm.v, d, va / 4096, (va + len + 4095) / 4096, ok)
  {
    RegionBounds(va, len);
    hide Inv, Steady, Done, AllFresh, OutsideSame, Slack, MemoryManager.Repr, RoundDown, RoundUp;
    ok := AllocPages(mm, d, RoundDown(va), RoundUp((va + len) % 0x1_0000_0000), va / 4096, (va + len + 4095) / 4096);
  }

  /** The loop of region_alloc, over the pages from address start to address end. */
  method AllocPages(mm: MemoryManager, d: nat, start: Word, end: Word, ghost lo: nat, ghost hi: nat) returns (ok: bool)
    requires mm.Repr() && Inv(mm.v) && EnvSpace(mm.v, d)
    requires start == lo * 4096 && end == hi * 4096 && lo <= hi && end <= UTOP
    modifies mm, mm.phys, mm.data, mm.pages
    ensures mm.Repr() && Inv(mm.v) && RegionDone(old(mm.v), mm.v, d, lo, hi, ok)
  {
    ghost var v0 := mm.v;
    hide *;
    ProgressStarts(v0, d, lo, hi);
    ok := AllocLoop(mm, d, start, end, v0, lo, hi);
  }

  method AllocLoop(mm: MemoryManager, d: nat, start: Word, end: Word, ghost v0: Vm, ghost lo: nat, ghost hi: nat)
    returns (ok: bool)
    requires mm.Repr() && Inv(v0) && Progress(v0, mm.v, d, lo, lo, hi)
    requires start == lo * 4096 && end == hi * 4096 && lo <= hi && end <= UTOP
    modifies mm, mm.phys, mm.data, mm.pages
    ensures mm.Repr() && EnvSpace(v0, d) && hi <= 0x10_0000 && RegionDone(v0, mm.v, d, lo, hi, ok)
  {
    hide *;
    var i := start;
    ghost var n := lo;
    while i < end
      invariant i == n * 4096 && n <= hi
      invariant mm.Repr() && Progress(v0, mm.v, d, lo, n, hi)
    {
      ok := AllocTurn(mm, d, i, v0, lo, n, hi);
      if !ok {
        return;
      }
      i, n := i + 4096, n + 1;
    }
    ok := true;
    ProgressMeans(v0, mm.v, d, lo, n, hi);
  }

  /** What the loop keeps after the pages below number n. */
  ghost predicate Progress(v0: Vm, v: Vm, d: nat, lo: nat, n: nat, hi: nat)
    requires Inv(v0)
  {
    && EnvSpace(v0, d) && hi <= 0x10_0000 && lo <= n <= hi
    && Allocated(v0, v, d, lo, n)
    && (Slack(v0, d, lo, hi) >= 0 ==>
          && Slack(v, d, n, hi) >= Slack(v0, d, lo, hi) && AllFresh(v, d, lo, n) && KeepsTables(v0.mem[d], v.mem[d])
          && SameHeld(v0, v))
    && (Unmapped(v0, d, lo, hi) ==> Tally(v0, v, d, lo, n, hi))
  }

  /** The exact account, if nothing was mapped: what was set aside is still there, or the loop is stuck. */
  ghost predicate Tally(v0: Vm, v: Vm, d: nat, lo: nat, n: nat, hi: nat)
    requires Lengths(v0) && Sizes(v) && d < |v0.mem| && d < |v.mem| && hi <= 0x10_0000
  {
    if AllFresh(v, d, lo, n) then
      && Slack(v, d, n, hi) == Slack(v0, d, lo, hi)
      && (LacksOne(v, d, n, hi) <==> LacksOne(v0, d, lo, hi))
    else Slack(v0, d, lo, hi) < 0 && (LacksOne(v0, d, lo, hi) <==> n == hi)
  }

  lemma ProgressStarts(v: Vm, d: nat, lo: nat, hi: nat)
    requires Inv(v) && EnvSpace(v, d) && lo <= hi <= 0x10_0000
    ensures Progress(v, v, d, lo, lo, hi)
  {
  }

  lemma ProgressMeans(v0: Vm, v: Vm, d: nat, lo: nat, n: nat, hi: nat)
    requires Inv(v0) && Progress(v0, v, d, lo, n, hi)
    ensures Inv(v) && EnvSpace(v0, d) && hi <= 0x10_0000
    ensures n == hi ==> RegionDone(v0, v, d, lo, hi, true)
  {
    hide Inv, Steady, Missing, AllFresh, OutsideSame, SameHeld, KeepsTables, NoneFree, SlotOf, SlotsUpTo;
    if n == hi && LastLacks(v, d, lo, hi) {
      LackedIsNotFresh(v, d, lo, hi);
    }
  }

  /** With the last page missing not all are fresh. */
  lemma LackedIsNotFresh(v: Vm, d: nat, lo: nat, hi: nat)
    requires Sizes(v) && LastLacks(v, d, lo, hi) && hi <= 0x10_0000
    ensures !AllFresh(v, d, lo, hi)
  {
    hide NoneFree;
    var p := VPage((hi - 1) / 1024, (hi - 1) % 1024);
    assert NoOf(p) == hi - 1;
    assert UserMap(v, Mapping(d, p)) == None;
  }

  /** The turn that panics. */
  lemma ProgressPanics(v0: Vm, v: Vm, d: nat, lo: nat, p: VPage, hi: nat)
    requires Inv(v0) && Progress(v0, v, d, lo, NoOf(p), hi) && UserPage(p) && NoOf(p) < hi && !AddPage(v, d, p).1
    ensures Inv(v) && EnvSpace(v0, d) && hi <= 0x10_0000 && RegionDone(v0, v, d, lo, hi, false)
  {
    hide Inv, Steady, AllFresh, OutsideSame, SameHeld, KeepsTables, AddPage, Done, Slack, LacksOne, Unmapped, NoOf;
    SlackSteps(v, d, p, hi);
    OutsideWider(v0, v, d, lo, NoOf(p), hi);
  }

  lemma TallyGrows(v0: Vm, v: Vm, w: Vm, d: nat, lo: nat, p: VPage, hi: nat)
    requires Lengths(v0) && Sizes(v) && Sizes(w) && d < |v0.mem| && d < |v.mem| && d < |w.mem| && hi <= 0x10_0000
    requires Tally(v0, v, d, lo, NoOf(p), hi) && Paid(v, w, d, p, hi) && UserMap(v, Mapping(d, p)) == None
    requires AllFresh(v, d, lo, NoOf(p)) && AllFresh(w, d, lo, NoOf(p) + 1)
    ensures Tally(v0, w, d, lo, NoOf(p) + 1, hi)
  {
    hide AllFresh, UserMap, Slack, LacksOne, NoOf, SameHeld, KeepsTables;
  }

  lemma PaidGoesOn(v0: Vm, v: Vm, w: Vm, d: nat, lo: nat, p: VPage, hi: nat)
    requires Lengths(v0) && Lengths(v) && Lengths(w) && d < |v0.mem| && d < |v.mem| && d < |w.mem| && hi <= 0x10_0000
    requires Slack(v, d, NoOf(p), hi) >= Slack(v0, d, lo, hi) && KeepsTables(v0.mem[d], v.mem[d]) && SameHeld(v0, v)
    requires Paid(v, w, d, p, hi)
    ensures Slack(w, d, NoOf(p) + 1, hi) >= Slack(v0, d, lo, hi) && KeepsTables(v0.mem[d], w.mem[d])
    ensures SameHeld(v0, w)
  {
    hide UserMap, Slack, LacksOne, NoOf, SameHeld, KeepsTables;
    SameHeldTrans(v0, v, w);
    TablesTrans(v0.mem[d], v.mem[d], w.mem[d]);
  }

  /** The turn that maps its page. */
  lemma ProgressMaps(v0: Vm, v: Vm, d: nat, lo: nat, p: VPage, hi: nat)
    requires Inv(v0) && Progress(v0, v, d, lo, NoOf(p), hi) && UserPage(p) && NoOf(p) < hi
    requires AddPage(v, d, p).1 && !NoTable(Alloc(v, 1).0, d, p)
    ensures Progress(v0, AddPage(v, d, p).0, d, lo, NoOf(p) + 1, hi)
  {
    hide Inv, Steady, AllFresh, OutsideSame, SameHeld, KeepsTables, AddPage, Done, Slack, LacksOne, Unmapped, NoOf,
      Alloc, NoTable, UserMap, Paid, Tally;
    var w := AddPage(v, d, p).0;
    AllocatedGrows(v0, v, d, lo, p);
    TurnPays(v, d, p, hi);
    if Unmapped(v0, d, lo, hi) {
      StillUnmapped(v0, v, d, lo, p, hi);
      TallyGrows(v0, v, w, d, lo, p, hi);
    }
    if Slack(v0, d, lo, hi) >= 0 {
      PaidGoesOn(v0, v, w, d, lo, p, hi);
    }
  }

  lemma TablesTrans(a: Row, b: Row, c: Row)
    requires KeepsTables(a, b) && KeepsTables(b, c)
    ensures KeepsTables(a, c)
  {
  }

  lemma StillUnmapped(v0: Vm, v: Vm, d: nat, lo: nat, p: VPage, hi: nat)
    requires Lengths(v0) && Lengths(v) && OutsideSame(v0, v, d, lo, NoOf(p)) && Unmapped(v0, d, lo, hi)
    requires lo <= NoOf(p) < hi
    ensures UserMap(v, Mapping(d, p)) == None
  {
    hide UserMap, PageBytes;
    assert UserMap(v, Mapping(d, p)) == UserMap(v0, Mapping(d, p));
  }

  /** The turn whose page_insert fails. */
  lemma ProgressLacks(v0: Vm, v: Vm, d: nat, lo: nat, p: VPage, hi: nat)
    requires Inv(v0) && Progress(v0, v, d, lo, NoOf(p), hi) && UserPage(p) && NoOf(p) < hi
    requires AddPage(v, d, p).1 && NoTable(Alloc(v, 1).0, d, p)
    ensures Progress(v0, AddPage(v, d, p).0, d, lo, NoOf(p) + 1, hi)
  {
    hide Inv, Steady, AllFresh, OutsideSame, SameHeld, KeepsTables, AddPage, Done, Slack, LacksOne, Unmapped, NoOf,
      Alloc, NoTable, LastLacks;
    AllocatedFails(v0, v, d, lo, p);
    LackedIsNotFresh(AddPage(v, d, p).0, d, lo, NoOf(p) + 1);
    LackShows(v, d, p, hi);
  }

  /** One turn of the loop, at page number n; with free pages set aside it does not fail. */
  method AllocTurn(mm: MemoryManager, d: nat, i: Word, ghost v0: Vm, ghost lo: nat, ghost n: nat, ghost hi: nat)
    returns (ok: bool)
    requires mm.Repr() && Inv(v0) && Progress(v0, mm.v, d, lo, n, hi) && i == n * 4096 && n < hi && hi * 4096 <= UTOP
    modifies mm, mm.phys, mm.data, mm.pages
    ensures mm.Repr() && EnvSpace(v0, d) && hi <= 0x10_0000
    ensures if ok then Progress(v0, mm.v, d, lo, n + 1, hi) else RegionDone(v0, mm.v, d, lo, hi, false)
  {
    hide *;
    ghost var v := mm.v;
    NoOfPage(i);
    PageOfIsPageNumber(i, i);
    ProgressSteps(v0, v, d, lo, PageOf(i), hi);
    ok := AllocOne(mm, d, i);
  }

  lemma ProgressSteps(v0: Vm, v: Vm, d: nat, lo: nat, p: VPage, hi: nat)
    requires Inv(v0) && Progress(v0, v, d, lo, NoOf(p), hi) && UserPage(p) && NoOf(p) < hi
    ensures Inv(v) && EnvSpace(v0, d) && EnvSpace(v, d) && hi <= 0x10_0000
    ensures var (w, ok) := AddPage(v, d, p);
      if ok then Progress(v0, w, d, lo, NoOf(p) + 1, hi) else w == v && RegionDone(v0, v, d, lo, hi, false)
  {
    ProgressIs(v0, v, d, lo, NoOf(p), hi);
    hide Inv, Progress, AddPage, NoTable, NoOf, Alloc, RegionDone;
    if !AddPage(v, d, p).1 {
      StuckPanics(v, d, p);
      ProgressPanics(v0, v, d, lo, p, hi);
    } else if NoTable(Alloc(v, 1).0, d, p) {
      ProgressLacks(v0, v, d, lo, p, hi);
    } else {
      ProgressMaps(v0, v, d, lo, p, hi);
    }
  }

  lemma ProgressIs(v0: Vm, v: Vm, d: nat, lo: nat, n: nat, hi: nat)
    requires Inv(v0) && Progress(v0, v, d, lo, n, hi)
    ensures Inv(v) && EnvSpace(v0, d) && EnvSpace(v, d) && hi <= 0x10_0000
    ensures Inv(Alloc(v, 1).0)
  {
    hide Steady, Done, OutsideSame, Slack, Tally, AllFresh;
    AllocKeepsInv(v, 1);
  }
}
