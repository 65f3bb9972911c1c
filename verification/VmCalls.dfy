/**
 * What the system calls on memory do to address spaces, call by call: sys_page_alloc, sys_page_map,
 * sys_page_unmap and the page transfer of sys_ipc_try_send in kern/syscall.c, behind their tests of ids,
 * alignment and the range of addresses.  Arguments that pass those tests may still break the invariant;
 * Keeps says exactly when they do not.
 */
module VmCalls {
  import opened Wrappers
  import opened Mmu
  import opened VmState
  import opened VmAlloc
  import opened VmPaging
  import opened VmPagingProofs
  import opened VmTlb
  import opened VmRuns
  import opened VmTeardown
  import opened VmRegion
  import opened VmAbove

  datatype Call =
    // sys_page_alloc, which tests only the low 12 bits of perm
    | Fill(dir: nat, at: VPage, perm: Word)
    // sys_page_map of page from of space src; if not strict, sys_ipc_try_send, which tests neither PTE_W nor the
    // address that the receiver gave
    | Share(src: nat, from: VPage, dir: nat, at: VPage, perm: Word, strict: bool)
    // sys_page_unmap
    | Drop(dir: nat, at: VPage)
    // what happens to the CPU in between
    | Other(cr3: nat, cur: Option<nat>, tlb: map<VPage, nat>)

  /** Calls whose arguments pass the tests that come first: live environments; addresses below UTOP, where tested. */
  ghost predicate Callable(v: Vm, c: Call) {
    && Inv(v)
    && match c
       case Fill(d, p, _) => EnvSpace(v, d) && UserPage(p)
       case Share(s, q, d, p, perm, strict) =>
         EnvSpace(v, s) && EnvSpace(v, d) && UserPage(q) && (strict ==> UserPage(p)) && perm < 4096
       case Drop(d, p) => EnvSpace(v, d) && UserPage(p)
       case Other(_, _, _) => true
  }

  /** PTE_W. */
  predicate Writable(pte: Word) { pte / 2 % 2 == 1 }

  /** -E_INVAL: page_lookup names no page, or sys_page_map would grant write access to a read-only one. */
  ghost predicate Refused(v: Vm, s: nat, q: VPage, perm: Word, strict: bool)
    requires Lengths(v) && s < |v.mem| && perm < 4096
  {
    LookupFrame(v, s, q).None? || (strict && Writable(perm) && !Writable(EntryOf(v, s, q)))
  }

  /** sys_page_map and the page transfer of sys_ipc_try_send.  pa2page panics beyond physical memory. */
  ghost function AfterShare(v: Vm, s: nat, q: VPage, d: nat, p: VPage, perm: Word, strict: bool): (w: Vm)
    requires Lengths(v) && s < |v.mem| && d < |v.mem| && perm < 4096
    ensures Lengths(w) && |w.mem| == |v.mem|
  {
    var f := LookupFrame(v, s, q);
    if f == None || Refused(v, s, q, perm, strict) || f.value >= |v.mem| then v
    else Insert(v, d, f.value, p, perm).0
  }

  /** No page is free, or just one and there is no page table: -E_NO_MEM. */
  ghost predicate NoRoom(v: Vm, d: nat, p: VPage)
    requires Lengths(v) && d < |v.mem|
  {
    |v.fl| <= if v.mem[d][p.pdx] == 0 then 1 else 0
  }

  /** page_insert writes the bits of perm over the frame number: the entry may name another frame than pp. */
  ghost function Widen(v: Vm, d: nat, p: VPage, pp: nat, perm: Word): (w: Vm)
    requires Lengths(v) && d < |v.mem| && pp < |v.mem|
    ensures Lengths(w) && |w.mem| == |v.mem|
  {
    var t := FrameOf(v.mem[d][p.pdx]);
    if t >= |v.mem| then v else SetWord(v, t, p.ptx, MkPte(OrFrame(pp, perm / 4096), perm % 4096))
  }

  /** sys_page_alloc. */
  ghost function AfterFill(v: Vm, d: nat, p: VPage, perm: Word): (w: Vm)
    requires Lengths(v) && d < |v.mem|
    ensures Lengths(w) && |w.mem| == |v.mem|
  {
    var w := FillPage(v, d, p, perm % 4096).0;
    if NoRoom(v, d, p) || v.head == None || v.head.value >= |v.mem| then w
    else Widen(w, d, p, v.head.value, perm)
  }

  ghost function AfterCall(v: Vm, c: Call): Vm
    requires Callable(v, c)
  {
    match c
    case Fill(d, p, perm) => AfterFill(v, d, p, perm)
    case Share(s, q, d, p, perm, strict) => AfterShare(v, s, q, d, p, perm, strict)
    case Drop(d, p) => Remove(v, d, p)
    case Other(cr3, cur, tlb) => v.(cr3 := cr3, cur := cur, tlb := tlb)
  }

  /** The high bits of perm name no other frame than the next free one. */
  ghost predicate PermFits(v: Vm, perm: Word)
    requires Lengths(v)
  {
    v.head.Some? && v.head.value < |v.mem| && OrFrame(v.head.value, perm / 4096) == v.head.value
  }

  /** The source page is mapped, and to map it once more does not wrap its count. */
  ghost predicate Sharable(v: Vm, s: nat, q: VPage, d: nat, p: VPage)
    requires Sizes(v) && s < |v.mem| && d < |v.mem|
  {
    && Mapped(v, s, q)
    && var f := FrameOf(Walk(v.mem, s, q).value);
    f < |v.mem| && (v.pages[f].ref < 0xFFFF || SamePage(v, d, f, p))
  }

  /** The calls that keep the invariant, told by the state before them. */
  ghost predicate Keeps(v: Vm, c: Call)
    requires Callable(v, c)
  {
    match c
    case Fill(d, p, perm) => NoRoom(v, d, p) || PermFits(v, perm)
    case Share(s, q, d, p, perm, strict) =>
      || Refused(v, s, q, perm, strict) || NoTable(v, d, p)
      || (if UserPage(p) then Sharable(v, s, q, d, p) else Shown(v, d, LookupFrame(v, s, q).value, p))
    case Drop(d, p) => Mapped(v, d, p) || v.mem[d][p.pdx] == 0 || v.pages[0].ref != 1
    case Other(_, _, _) => true
  }

  /**
   * The call takes the last free page and then lacks one for the page table: -E_NO_MEM is returned and the
   * page is never given back.
   */
  ghost predicate Leaks(v: Vm, c: Call)
    requires Callable(v, c)
  {
    c.Fill? && |v.fl| == 1 && v.mem[c.dir][c.at.pdx] == 0
  }

  /** Frames that were held are held. */
  ghost predicate HeldStays(v: Vm, w: Vm)
    requires Lengths(v) && Lengths(w)
  {
    |w.mem| == |v.mem| && forall f :: 0 <= f < |v.mem| && v.kind[f] == Held ==> w.kind[f] == Held
  }

  // ---- sys_page_unmap ----

  lemma RemoveSteady(v: Vm, d: nat, p: VPage)
    requires Inv(v) && Mapped(v, d, p) && v.kind[d] == EnvDir
    ensures var w := Remove(v, d, p); Inv(w) && Steady(v, w, d) && SameHeld(v, w)
  {
    hide Inv, Shape, FreeListOk, CountsOk, Updated, Remove, Coherent, Touches;
    RemoveRegisters(v, d, p);
    RemoveKeepsInv(v, d, p);
    UnmapTouches(v, d, p);
    if Coherent(v) {
      RemoveCoherent(v, d, p);
    }
  }

  lemma RemoveRegisters(v: Vm, d: nat, p: VPage)
    requires Lengths(v) && d < |v.mem|
    ensures var w := Remove(v, d, p); w.cr3 == v.cr3 && w.cur == v.cur && w.kern == v.kern
    ensures var w := Remove(v, d, p); w.tlb == v.tlb || w.tlb == v.tlb - {p}
  {
  }

  lemma SteadyRefl(v: Vm, d: nat)
    requires Sizes(v)
    ensures Steady(v, v, d) && SameHeld(v, v)
  {
  }

  /** A change of counts alone. */
  lemma SameWordsSteady(v: Vm, w: Vm, d: nat, p: VPage)
    requires Sizes(v) && Sizes(w) && w.mem == v.mem && w.kind == v.kind && w.kern == v.kern
    requires w.cr3 == v.cr3 && w.cur == v.cur && (w.tlb == v.tlb || w.tlb == v.tlb - {p})
    ensures Steady(v, w, d) && SameHeld(v, w)
  {
  }

  lemma RemoveZeroFields(v: Vm, d: nat, p: VPage)
    requires Inv(v) && EnvSpace(v, d) && UserPage(p) && !Mapped(v, d, p) && v.pages[0].ref != 1
    ensures var w := Remove(v, d, p); w.mem == v.mem && w.kind == v.kind
  {
    RemoveInBounds(v, d, p);
    hide Inv, Shape, FreeListOk, CountsOk, Mapped;
    if v.mem[d][p.pdx] != 0 {
      var t := FrameOf(v.mem[d][p.pdx]);
      assert v.mem[t] == v.mem[t][p.ptx := 0];
    }
  }

  lemma DropIsExact(v: Vm, d: nat, p: VPage)
    requires Callable(v, Drop(d, p))
    ensures var w := Remove(v, d, p);
      && (Inv(w) <==> Keeps(v, Drop(d, p)))
      && (Inv(w) ==> Steady(v, w, d) && SameHeld(v, w))
  {
    hide Inv, Steady, SameHeld, Remove, Mapped;
    if Mapped(v, d, p) {
      RemoveSteady(v, d, p);
    } else {
      RemoveUnmapped(v, d, p);
      if v.mem[d][p.pdx] == 0 {
        SteadyRefl(v, d);
      } else if v.pages[0].ref != 1 {
        RemoveZeroFields(v, d, p);
        RemoveRegisters(v, d, p);
        SameWordsSteady(v, Remove(v, d, p), d, p);
      }
    }
  }

  // ---- sys_page_map and sys_ipc_try_send ----

  /** What page_lookup names, for any page: a leaf, page 0, or nothing. */
  lemma LookupIs(v: Vm, s: nat, q: VPage)
    requires Inv(v) && EnvSpace(v, s) && UserPage(q)
    ensures LookupFrame(v, s, q) == if Mapped(v, s, q) then Some(FrameOf(Walk(v.mem, s, q).value))
                                    else if v.mem[s][q.pdx] == 0 then None else Some(0)
    ensures Mapped(v, s, q) ==> var f := FrameOf(Walk(v.mem, s, q).value); 0 < f < |v.mem| && v.kind[f] == Leaf
  {
    hide Inv, Walk, LookupFrame;
    if Mapped(v, s, q) {
      MappedFacts(v, s, q);
      ZeroIsNotMapped(v, s, q);
    } else {
      LookupUnmapped(v, s, q);
    }
  }

  lemma ShareIsExact(v: Vm, s: nat, q: VPage, d: nat, p: VPage, perm: Word, strict: bool)
    requires Callable(v, Share(s, q, d, p, perm, strict))
    ensures var w := AfterShare(v, s, q, d, p, perm, strict);
      && (Inv(w) <==> Keeps(v, Share(s, q, d, p, perm, strict)))
      && (Inv(w) ==> Steady(v, w, d) && SameHeld(v, w))
  {
    hide Inv, Steady, SameHeld, Insert, NoTable, Mapped, LookupFrame, SamePage, Walk, InsertedKinds, Updated, Writable,
      EntryOf, Shown;
    LookupIs(v, s, q);
    SteadyRefl(v, d);
    if !Refused(v, s, q, perm, strict) {
      var f := LookupFrame(v, s, q).value;
      ShareNeeds(v, s, q, d, p, perm);
      if !UserPage(p) {
        InsertAbove(v, d, f, p, perm);
      } else if f == 0 {
        InsertPageZero(v, d, p, perm);
      } else {
        InsertUpdates(v, d, f, p, perm);
        if !NoTable(v, d, p) && Sharable(v, s, q, d, p) {
          InsertSteady(v, d, f, p, perm);
          LeafHeld(v, Insert(v, d, f, p, perm).0, d, f, p);
        }
      }
    }
  }

  lemma ShareNeeds(v: Vm, s: nat, q: VPage, d: nat, p: VPage, perm: nat)
    requires Inv(v) && EnvSpace(v, s) && EnvSpace(v, d) && UserPage(q) && perm < 4096
    ensures Mapped(v, s, q) && UserPage(p) ==> CanInsert(v, d, FrameOf(Walk(v.mem, s, q).value), p, perm)
  {
    hide Inv, Walk;
    if Mapped(v, s, q) {
      MappedFacts(v, s, q);
    }
  }

  lemma LeafHeld(v: Vm, w: Vm, d: nat, pp: nat, p: VPage)
    requires Sizes(v) && Sizes(w) && InsertedKinds(v, w, d, pp, p) && v.kind[pp] == Leaf
    ensures SameHeld(v, w)
  {
  }

  /** What an entry says: the frame it names, and its other bits; it is present. */
  predicate Names(e: Option<Word>, frame: nat, perm: nat) {
    e.Some? && e.value / 4096 == frame && e.value % 2 == 1 && e.value % 4096 / 2 == perm / 2
  }

  /**
   * What sys_page_map does with a mapped page.  It changes nothing if PTE_W is asked for and the source is not
   * writable, or if there is no page for a page table; otherwise the target shows the frame of the source with
   * the permissions asked for, and every other page of the target's space is mapped as before.
   */
  lemma ShareMaps(v: Vm, c: Call)
    requires Callable(v, c) && c.Share? && UserPage(c.at) && Mapped(v, c.src, c.from)
    ensures var e := Walk(v.mem, c.src, c.from).value;
      var w := AfterCall(v, c);
      && 0 < e / 4096 < |v.mem| && c.dir < |w.mem|
      && if c.strict && c.perm / 2 % 2 == 1 && e / 2 % 2 == 0 then w == v
         else if v.mem[c.dir][c.at.pdx] == 0 && v.head == None then w == v
         else v.pages[e / 4096].ref < 0xFFFF ==>
           && Names(Walk(w.mem, c.dir, c.at), e / 4096, c.perm)
           && forall q :: UserPage(q) && q != c.at ==> Walk(w.mem, c.dir, q) == Walk(v.mem, c.dir, q)
  {
    hide Inv, Insert, Walk, LookupFrame, InsertedKinds, CanInsert, SamePage, NoneFree, Names, MkPte,
      Updated, Tracked;
    var e := Walk(v.mem, c.src, c.from).value;
    LookupIs(v, c.src, c.from);
    MappedEntry(v, c.src, c.from);
    EmptyList(v);
    ShareNeeds(v, c.src, c.from, c.dir, c.at, c.perm);
    InsertUpdates(v, c.dir, FrameOf(e), c.at, c.perm);
    MadeNames(FrameOf(e), c.perm);
    if !NoTable(v, c.dir, c.at) && v.pages[FrameOf(e)].ref < 0xFFFF {
      var w := Insert(v, c.dir, FrameOf(e), c.at, c.perm).0;
      UpdatedWalks(v, w, c.dir, c.at, Some(MkPte(FrameOf(e), c.perm)));
    }
  }

  lemma UpdatedWalks(v: Vm, w: Vm, d: nat, p: VPage, e: Option<Word>)
    requires Sizes(v) && Sizes(w) && Updated(v, w, d, p, e) && EnvSpace(v, d) && UserPage(p)
    ensures |w.mem| == |v.mem| && Walk(w.mem, d, p) == e
    ensures forall q :: UserPage(q) && q != p ==> Walk(w.mem, d, q) == Walk(v.mem, d, q)
  {
    hide Walk;
    forall q | UserPage(q) ensures Tracked(v, d, q) {
    }
  }

  /** The entry that page_lookup leads to is the one that the walk finds. */
  lemma MappedEntry(v: Vm, d: nat, p: VPage)
    requires Inv(v) && Mapped(v, d, p)
    ensures Some(EntryOf(v, d, p)) == Walk(v.mem, d, p)
  {
    MappedFacts(v, d, p);
  }

  lemma MadeNames(frame: nat, perm: nat)
    requires frame < 0x10_0000 && perm < 4096
    ensures Names(Some(MkPte(frame, perm)), frame, perm)
  {
    hide MkPte;
    var e := MkPte(frame, perm);
    assert e % 4096 == WithP(perm) && e / 4096 == frame && e % 2 == 1;
  }

  // ---- sys_page_alloc ----

  /** The page stays held exactly if it was the last one and a page table is missing. */
  lemma FillHeld(v: Vm, d: nat, p: VPage, perm: nat)
    requires Inv(v) && EnvSpace(v, d) && UserPage(p) && perm < 4096
    ensures var w := FillPage(v, d, p, perm).0;
      Lengths(w) && HeldStays(v, w) && (SameHeld(v, w) <==> !(|v.fl| == 1 && v.mem[d][p.pdx] == 0))
  {
    hide Inv, Shape, FreeListOk, CountsOk, SameView, Insert, CanInsert, Updated, InsertedKinds, FillPage;
    var (a, r) := Alloc(v, 1);
    LastPage(v, d, p);
    if r.Some? && NoTable(a, d, p) {
      HeldIsInsertable(a, d, r.value, p, perm);
      InsertUpdates(a, d, r.value, p, perm);
      FillFails(v, d, p, perm);
    } else {
      FillIs(v, d, p, perm);
      FillSameHeld(v, d, p, perm);
    }
  }

  lemma FillIs(v: Vm, d: nat, p: VPage, perm: nat)
    requires Lengths(v) && d < |v.mem| && perm < 4096
    ensures FillPage(v, d, p, perm).1 <==> Alloc(v, 1).1.Some?
    ensures FillPage(v, d, p, perm).1 ==>
              FillPage(v, d, p, perm).0 == Insert(Alloc(v, 1).0, d, Alloc(v, 1).1.value, p, perm).0
  {
  }

  lemma FillFails(v: Vm, d: nat, p: VPage, perm: nat)
    requires Lengths(v) && d < |v.mem| && perm < 4096
    ensures var (a, r) := Alloc(v, 1);
      r.Some? && Insert(a, d, r.value, p, perm).0 == a ==> FillPage(v, d, p, perm).0 == a
  {
  }

  /** With room the page handed out is mapped at p, and no other page of the space is. */
  lemma FillMaps(v: Vm, d: nat, p: VPage, perm: nat)
    requires Inv(v) && EnvSpace(v, d) && UserPage(p) && perm < 4096 && !NoRoom(v, d, p)
    ensures v.head.Some? && v.head.value < |v.mem|
    ensures var w := FillPage(v, d, p, perm).0;
      && Inv(w) && EnvSpace(w, d) && Walk(w.mem, d, p) == Some(MkPte(v.head.value, perm))
      && w.data[v.head.value] == ZeroBytes()
      && forall q :: UserPage(q) && q != p ==> Walk(w.mem, d, q) == Walk(v.mem, d, q)
  {
    hide Inv, Shape, FreeListOk, CountsOk, Insert, CanInsert, InsertedKinds, FillPage, Alloc, NoTable, Walk, Steady;
    var (a, r) := Alloc(v, 1);
    EmptyList(v);
    LastPage(v, d, p);
    FillIs(v, d, p, perm);
    HeldIsInsertable(a, d, r.value, p, perm);
    InsertUpdates(a, d, r.value, p, perm);
    InsertKeepsData(a, d, r.value, p, perm);
    AllocKeepsInv(v, 1);
    FillSteady(v, d, p, perm);
    SteadyMeans(v, FillPage(v, d, p, perm).0, d);
    forall q | UserPage(q) ensures Tracked(v, d, q) && Tracked(a, d, q) {
    }
  }

  /** Bits of perm that name another frame: the page handed out is counted, and not mapped. */
  lemma WidenIsExact(w: Vm, d: nat, p: VPage, pp: nat, perm: Word)
    requires Inv(w) && EnvSpace(w, d) && UserPage(p) && pp < |w.mem|
    requires Walk(w.mem, d, p) == Some(MkPte(pp, perm % 4096))
    ensures var x := Widen(w, d, p, pp, perm);
      if OrFrame(pp, perm / 4096) == pp then x == w else !Inv(x)
  {
    hide Inv, Shape, FreeListOk, CountsOk, Updated, Walk, OrFrame;
    var t, e := FrameOf(w.mem[d][p.pdx]), MkPte(OrFrame(pp, perm / 4096), perm % 4096);
    MappedFacts(w, d, p);
    if OrFrame(pp, perm / 4096) == pp {
      assert w.mem[t][p.ptx := e] == w.mem[t];
    } else {
      OtherFrameBreaks(w, d, p, pp, t, e);
    }
  }

  /** The entry of a mapped page is made to name another frame, and the counts stay. */
  lemma OtherFrameBreaks(w: Vm, d: nat, p: VPage, pp: nat, t: nat, e: Word)
    requires Inv(w) && Mapped(w, d, p) && EnvSpace(w, d) && FrameOf(Walk(w.mem, d, p).value) == pp < |w.mem|
    requires t < |w.mem| && w.kind[t] == Table(d, p.pdx) && w.kind[pp] == Leaf && Present(e) && FrameOf(e) != pp
    ensures !Inv(SetWord(w, t, p.ptx, e))
  {
    var x := SetWord(w, t, p.ptx, e);
    hide Inv, Shape, FreeListOk, CountsOk, Updated, Walk, Mappings;
    SetPteUpdates(w, x, d, p, t, e);
    UpdatedMappings(w, x, d, p, Some(e), pp);
    MapsOne(w, d, p, pp, pp);
    OneLess(Mappings(w, pp), Mapping(d, p));
    CountDiffers(w, x, pp);
  }

  lemma CountDiffers(w: Vm, x: Vm, pp: nat)
    requires Inv(w) && Lengths(x) && |x.mem| == |w.mem| && x.pages == w.pages && x.kind == w.kind && pp < |w.mem|
    requires w.kind[pp] == Leaf && |Mappings(x, pp)| != |Mappings(w, pp)|
    ensures !Inv(x)
  {
    hide Inv, Mappings;
    HasCount(w, pp);
    if Inv(x) {
      HasCount(x, pp);
    }
  }

  /**
   * What sys_page_alloc maps: its free page, cleared, or-ed with whatever the caller put above the low 12 bits
   * of perm.
   */
  lemma FillShows(v: Vm, d: nat, p: VPage, perm: Word)
    requires Callable(v, Fill(d, p, perm)) && !NoRoom(v, d, p)
    ensures v.head.Some? && v.head.value < |v.mem| && v.kind[v.head.value] == Free
    ensures var w := AfterFill(v, d, p, perm);
      && Names(Walk(w.mem, d, p), OrFrame(v.head.value, perm / 4096), perm % 4096)
      && forall k :: 0 <= k < 4096 ==> w.data[v.head.value][k] == 0
  {
    hide Inv, Shape, FreeListOk, CountsOk, FillPage, OrFrame;
    HeadIsFree(v);
    FillMaps(v, d, p, perm % 4096);
    var u := FillPage(v, d, p, perm % 4096).0;
    MappedFacts(u, d, p);
    MadeNames(OrFrame(v.head.value, perm / 4096), perm % 4096);
    hide MkPte, Names;
    assert AfterFill(v, d, p, perm).data == u.data;
  }

  lemma FillIsExact(v: Vm, d: nat, p: VPage, perm: Word)
    requires Callable(v, Fill(d, p, perm))
    ensures var w := AfterFill(v, d, p, perm);
      && (Inv(w) <==> Keeps(v, Fill(d, p, perm)))
      && (Inv(w) ==> Steady(v, w, d) && HeldStays(v, w) && (SameHeld(v, w) <==> !Leaks(v, Fill(d, p, perm))))
  {
    hide Inv, Steady, SameHeld, HeldStays, FillPage, OrFrame, Widen, Walk;
    FillSteady(v, d, p, perm % 4096);
    FillHeld(v, d, p, perm % 4096);
    if !NoRoom(v, d, p) {
      FillMaps(v, d, p, perm % 4096);
      WidenIsExact(FillPage(v, d, p, perm % 4096).0, d, p, v.head.value, perm);
    }
  }

  // ---- any call ----

  lemma SteadyMeans(v: Vm, w: Vm, d: nat)
    requires Inv(v) && Inv(w) && EnvSpace(v, d) && Steady(v, w, d)
    ensures EnvSpace(w, d) && Touches(v, w, d)
  {
    hide Inv, Touches, Coherent;
  }

  lemma HeldIsKept(v: Vm, w: Vm)
    requires Lengths(v) && Lengths(w)
    ensures SameHeld(v, w) ==> HeldStays(v, w)
  {
  }

  /**
   * A call keeps the invariant exactly if Keeps says so; and then it works on its target space alone, leaves
   * registers and other directories, and the cache in step where the flush is not skipped.
   */
  lemma CallSteady(v: Vm, c: Call)
    requires Callable(v, c) && !c.Other?
    ensures var w := AfterCall(v, c);
      && (Inv(w) <==> Keeps(v, c))
      && (Inv(w) ==> Steady(v, w, c.dir) && HeldStays(v, w) && (SameHeld(v, w) <==> !Leaks(v, c)))
  {
    hide Inv, Steady, SameHeld, HeldStays, AfterFill, AfterShare, Remove, NoRoom, PermFits, Refused, NoTable, Sharable,
      Mapped;
    match c
    case Fill(d, p, perm) => FillIsExact(v, d, p, perm);
    case Share(s, q, d, p, perm, strict) =>
      ShareIsExact(v, s, q, d, p, perm, strict);
      HeldIsKept(v, AfterCall(v, c));
    case Drop(d, p) =>
      DropIsExact(v, d, p);
      HeldIsKept(v, AfterCall(v, c));
  }

  /** A call, for which space d is its target. */
  predicate CallOn(c: Call, d: nat) { c.Other? || c.dir == d }

  /**
   * A call keeps the invariant exactly if Keeps says so; and then it touches no space but its target, and
   * holds a page back exactly if it leaks.
   */
  lemma CallKeeps(v: Vm, c: Call)
    requires Callable(v, c)
    ensures var w := AfterCall(v, c);
      && (Inv(w) <==> Keeps(v, c))
      && (Inv(w) ==> HeldStays(v, w) && (SameHeld(v, w) <==> !Leaks(v, c)))
      && (Inv(w) ==> forall d: nat :: CallOn(c, d) ==> Touches(v, w, d) && (EnvSpace(v, d) ==> EnvSpace(w, d)))
  {
    hide Inv, Steady, Touches, AfterFill, AfterShare, Remove, SameHeld, HeldStays, NoRoom, PermFits, Refused, NoTable,
      Sharable, Mapped, SameUser, SameView;
    var w := AfterCall(v, c);
    if c.Other? {
      InvIgnoresCpu(v, w);
      SameHeldIfSameKind(v, w);
      HeldIsKept(v, w);
      forall d: nat ensures Touches(v, w, d) {
        StepTouches(v, Cpu(c.cr3, c.cur, c.tlb), d);
      }
    } else {
      CallSteady(v, c);
      if Inv(w) {
        SteadyMeans(v, w, c.dir);
      }
    }
  }

  // ---- calls that break the invariant ----

  /**
   * sys_page_map from a page that is not mapped is to return -E_INVAL.  If the page has a page table, PTE_W is
   * not asked for and a page table for the target can be had, it returns 0, and the target shows page 0.
   */
  lemma UnmappedShowsPageZero(v: Vm, c: Call)
    requires Callable(v, c) && c.Share? && UserPage(c.at)
    requires !Mapped(v, c.src, c.from) && v.mem[c.src][c.from.pdx] != 0
    requires !(c.strict && Writable(c.perm)) && !NoTable(v, c.dir, c.at)
    ensures var w := AfterCall(v, c);
      !Inv(w) && c.dir < |w.mem| && Walk(w.mem, c.dir, c.at) == Some(MkPte(0, c.perm))
  {
    hide Inv, Insert, NoTable, Mapped, LookupFrame, Walk, Writable, EntryOf;
    LookupIs(v, c.src, c.from);
    InsertPageZero(v, c.dir, c.at, c.perm);
  }

  /**
   * sys_ipc_try_send to a receiver that asked for no page, by an address at or above UTOP, is to transfer none.
   * Unless there is no page table to be had, it writes the entry for that address.
   */
  lemma SentUnasked(v: Vm, c: Call)
    requires Callable(v, c) && c.Share? && !UserPage(c.at) && c.at.pdx != UVPT_PDX
    requires !Refused(v, c.src, c.from, c.perm, c.strict) && !NoTable(v, c.dir, c.at)
    ensures EntryOf(AfterCall(v, c), c.dir, c.at) == MkPte(LookupFrame(v, c.src, c.from).value, c.perm)
  {
    hide Inv, Insert, NoTable, Mapped, LookupFrame, Walk, Writable, EntryOf, Shown, Steady, SameHeld;
    LookupIs(v, c.src, c.from);
    InsertAbove(v, c.dir, LookupFrame(v, c.src, c.from).value, c.at, c.perm);
  }

  /** sys_page_alloc of page 0 makes a page table, in which no other page is mapped. */
  lemma FirstCall(v: Vm, d: nat, q: VPage)
    requires Inv(v) && EnvSpace(v, d) && v.mem[d][0] == 0 && |v.fl| >= 2 && q.pdx == 0 && q.ptx != 0
    ensures var first := Fill(d, VPage(0, 0), PTE_P + PTE_U);
      && Callable(v, first) && Keeps(v, first) && !NoRoom(v, d, VPage(0, 0))
      && var u := AfterCall(v, first);
      && u == FillPage(v, d, VPage(0, 0), PTE_P + PTE_U).0
      && Inv(u) && EnvSpace(u, d) && u.mem[d][0] != 0 && !Mapped(u, d, q)
  {
    var first, p := Fill(d, VPage(0, 0), PTE_P + PTE_U), VPage(0, 0);
    hide Inv, FillPage, Steady;
    EmptyList(v);
    OrNothing(v.head.value);
    assert Keeps(v, first);
    FillMaps(v, d, p, PTE_P + PTE_U);
    WidenIsExact(FillPage(v, d, p, PTE_P + PTE_U).0, d, p, v.head.value, PTE_P + PTE_U);
    assert Walk(v.mem, d, q) == None;
  }

  lemma SecondCall(u: Vm, d: nat)
    requires Inv(u) && EnvSpace(u, d) && u.mem[d][0] != 0 && !Mapped(u, d, VPage(0, 1))
    ensures var second := Share(d, VPage(0, 1), d, VPage(0, 2), PTE_P + PTE_U, true);
      && Callable(u, second)
      && var w := AfterCall(u, second);
      d < |w.mem| && Walk(w.mem, d, VPage(0, 2)) == Some(MkPte(0, PTE_P + PTE_U)) && !Inv(w)
  {
    hide Inv, AfterCall, Walk, Mapped;
    UnmappedShowsPageZero(u, Share(d, VPage(0, 1), d, VPage(0, 2), PTE_P + PTE_U, true));
  }

  /** Two calls that do so in any space with an empty first slot: sys_page_alloc of page 0, sys_page_map from page 1. */
  lemma TwoCallsShowPageZero(v: Vm, d: nat)
    requires Inv(v) && EnvSpace(v, d) && v.mem[d][0] == 0 && |v.fl| >= 2
    ensures var first, second :=
        Fill(d, VPage(0, 0), PTE_P + PTE_U), Share(d, VPage(0, 1), d, VPage(0, 2), PTE_P + PTE_U, true);
      && Callable(v, first) && Keeps(v, first) && Callable(AfterCall(v, first), second)
      && var w := AfterCall(AfterCall(v, first), second);
      d < |w.mem| && Walk(w.mem, d, VPage(0, 2)) == Some(MkPte(0, PTE_P + PTE_U)) && !Inv(w)
  {
    hide Inv, AfterCall, Walk, Callable, Keeps, NoRoom, FillPage, Mapped;
    FirstCall(v, d, VPage(0, 1));
    SecondCall(AfterCall(v, Fill(d, VPage(0, 0), PTE_P + PTE_U)), d);
  }

  lemma FillKeepsPageZero(v: Vm, d: nat, p: VPage, perm: nat)
    requires Inv(v) && EnvSpace(v, d) && UserPage(p) && perm < 4096 && v.mem[d][p.pdx] == 0 && !NoRoom(v, d, p)
    ensures FillPage(v, d, p, perm).0.pages[0].ref == v.pages[0].ref
  {
    hide Shape, FreeListOk, CountsOk, Insert, Alloc, PgdirWalk, SameView;
    var (a, r) := Alloc(v, 1);
    EmptyList(v);
    LastPage(v, d, p);
    FillIs(v, d, p, perm);
    AllocPages(v, d, p);
    WalkKeepsCount(a, d, p, 0);
    assert Owns(a.kind[d], p.pdx);
    PgdirWalkKeepsInv(a, d, p, true);
    InsertNewPages(a, d, r.value, p, perm);
  }

  lemma AllocPages(v: Vm, d: nat, p: VPage)
    requires Inv(v) && EnvSpace(v, d) && v.head.Some?
    ensures var (a, r) := Alloc(v, 1);
      r == v.head && a.pages[0] == v.pages[0] && a.mem[d] == v.mem[d] && r.value != 0
  {
    HeadIsFree(v);
  }

  /** Where no page is mapped page_insert counts its page and no other. */
  lemma InsertNewPages(a: Vm, d: nat, pp: nat, p: VPage, perm: nat)
    requires Inv(a) && EnvSpace(a, d) && UserPage(p) && perm < 4096 && a.mem[d][p.pdx] == 0 && 0 < pp < |a.mem|
    requires !NoTable(a, d, p)
    ensures Insert(a, d, pp, p, perm).0.pages[0].ref == PgdirWalk(a, d, p, true).0.pages[0].ref
  {
    var (u, t) := PgdirWalk(a, d, p, true);
    HeadIsFree(a);
    assert u.mem[t.value][p.ptx] == 0;
    hide Inv, Shape, FreeListOk, CountsOk, PgdirWalk;
  }

  /**
   * Two calls that put page 0 on the free list, if its count is 1 as page_init leaves it: sys_page_alloc of
   * page 0 and sys_page_unmap of page 1, where nothing is mapped.
   */
  lemma TwoCallsFreePageZero(v: Vm, d: nat)
    requires Inv(v) && EnvSpace(v, d) && v.mem[d][0] == 0 && |v.fl| >= 2 && v.pages[0].ref == 1
    ensures var first, second := Fill(d, VPage(0, 0), PTE_P + PTE_U), Drop(d, VPage(0, 1));
      && Callable(v, first)
      && var u := AfterCall(v, first);
      && Keeps(v, first) && Callable(u, second)
      && var w := AfterCall(u, second);
      w.head == Some(0) && !Inv(w)
  {
    hide Inv, FillPage, Remove;
    FirstCall(v, d, VPage(0, 1));
    FillKeepsPageZero(v, d, VPage(0, 0), PTE_P + PTE_U);
    var u := AfterCall(v, Fill(d, VPage(0, 0), PTE_P + PTE_U));
    RemoveUnmapped(u, d, VPage(0, 1));
  }

  // ---- runs of calls ----

  /** A run of calls, each made while the invariant holds. */
  ghost predicate CallRun(v: Vm, calls: seq<Call>, w: Vm)
    decreases |calls|
  {
    if calls == [] then w == v
    else Callable(v, calls[0]) && CallRun(AfterCall(v, calls[0]), calls[1..], w)
  }

  /** All of the calls keep the invariant. */
  ghost predicate Sound(v: Vm, calls: seq<Call>)
    decreases |calls|
  {
    calls != [] ==>
      Callable(v, calls[0]) && Keeps(v, calls[0]) && Sound(AfterCall(v, calls[0]), calls[1..])
  }

  /** None of the calls leaks. */
  ghost predicate LeakFree(v: Vm, calls: seq<Call>)
    decreases |calls|
  {
    calls != [] && Callable(v, calls[0]) ==>
      !Leaks(v, calls[0]) && LeakFree(AfterCall(v, calls[0]), calls[1..])
  }

  predicate AllCallsOn(calls: seq<Call>, d: nat) { forall k :: 0 <= k < |calls| ==> CallOn(calls[k], d) }

  lemma HeldTrans(u: Vm, v: Vm, w: Vm)
    requires Lengths(u) && Lengths(v) && Lengths(w) && HeldStays(u, v) && HeldStays(v, w)
    ensures HeldStays(u, w)
    ensures SameHeld(u, w) <==> SameHeld(u, v) && SameHeld(v, w)
  {
  }

  /**
   * Runs of calls: the invariant holds at the end exactly if every call is one that keeps it; then pages are
   * held back exactly if some call leaks, and calls on one space touch no other.
   */
  lemma {:induction false} CallRunKeeps(v: Vm, calls: seq<Call>, w: Vm)
    requires Inv(v) && CallRun(v, calls, w)
    ensures Inv(w) <==> Sound(v, calls)
    ensures Inv(w) ==> HeldStays(v, w) && (SameHeld(v, w) <==> LeakFree(v, calls))
    ensures Inv(w) ==> forall d: nat :: AllCallsOn(calls, d) ==> Touches(v, w, d) && (EnvSpace(v, d) ==> EnvSpace(w, d))
    decreases |calls|
  {
    hide Inv, Touches, HeldStays, SameHeld, Callable, AfterCall, Leaks, Keeps, EnvSpace, CallOn;
    if calls == [] {
      NothingDone(v);
    } else {
      var u := AfterCall(v, calls[0]);
      CallKeeps(v, calls[0]);
      if Inv(u) {
        CallRunKeeps(u, calls[1..], w);
        if Inv(w) {
          HeldTrans(v, u, w);
          forall d: nat | AllCallsOn(calls, d) ensures Touches(v, w, d) && (EnvSpace(v, d) ==> EnvSpace(w, d)) {
            assert CallOn(calls[0], d) && AllCallsOn(calls[1..], d);
            TouchesTrans(v, u, w, d);
          }
        }
      } else {
        CallNeedsInv(u, calls[1..], w);
      }
    }
  }

  lemma CallNeedsInv(u: Vm, calls: seq<Call>, w: Vm)
    requires !Inv(u) && CallRun(u, calls, w)
    ensures calls == [] && w == u
  {
    hide Inv, AfterCall;
  }

  lemma NothingDone(v: Vm)
    requires Lengths(v)
    ensures HeldStays(v, v) && SameHeld(v, v) && forall d: nat :: Touches(v, v, d)
  {
    forall d: nat ensures Touches(v, v, d) {
      TouchesRefl(v, d);
    }
  }
}
