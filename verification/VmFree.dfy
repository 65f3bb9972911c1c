/** The loops of env_free in kern/env.c that give back an address space, in place. */
module VmFree {
  import opened Wrappers
  import opened Mmu
  import opened VmState
  import opened VmAlloc
  import opened VmPaging
  import opened VmPagingProofs
  import opened VmSpaces
  import opened VmTlb
  import opened VmRuns
  import opened VmTeardown
  import opened Pmap

  /** v was reached from v0 by releasing pages of d, a space that is still there, on a CPU that runs elsewhere. */
  ghost predicate Working(v0: Vm, steps: seq<Step>, v: Vm, d: nat)
    requires Inv(v0)
  {
    && Inv(v) && Run(v0, steps, v) && AllOn(steps, d) && AllReleasing(steps)
    && |v.mem| == |v0.mem| && d < |v.mem| && v.kind[d] == EnvDir
    && v.cr3 == v0.cr3 && v.cur == v0.cur && (Coherent(v0) ==> Coherent(v))
  }

  /** What page_remove of a mapped page of d leaves alone. */
  lemma UnmapFacts(v: Vm, d: nat, p: VPage)
    requires Inv(v) && Mapped(v, d, p) && v.kind[d] == EnvDir && v.cr3 != d
    ensures var w := Remove(v, d, p);
      && Inv(w) && |w.mem| == |v.mem| && w.mem[d] == v.mem[d] && w.kind[d] == EnvDir
      && w.cr3 == v.cr3 && w.cur == v.cur && (Coherent(v) ==> Coherent(w))
      && (forall m :: UserMap(w, m) == if m == Mapping(d, p) then None else UserMap(v, m))
  {
    UnmapFields(v, d, p);
    assert UserPage(p) && IsDir(v.kind[d]);
    hide *;
    RemoveKeepsInv(v, d, p);
    UpdatedUser(v, Remove(v, d, p), d, p, None);
    if Coherent(v) {
      RemoveCoherent(v, d, p);
    }
  }

  lemma UnmapFields(v: Vm, d: nat, p: VPage)
    requires Inv(v) && Mapped(v, d, p) && v.kind[d] == EnvDir
    ensures var w := Remove(v, d, p);
      && |w.mem| == |v.mem| && w.mem[d] == v.mem[d] && w.kind[d] == EnvDir && w.cr3 == v.cr3 && w.cur == v.cur
  {
    MappedFacts(v, d, p);
    hide Inv, Mapped, Shape, FreeListOk, CountsOk;
  }

  lemma UpdatedUser(v: Vm, w: Vm, d: nat, p: VPage, e: Option<Word>)
    requires Sizes(v) && Sizes(w) && UserPage(p) && Updated(v, w, d, p, e) && d < |v.mem| && IsDir(v.kind[d])
    ensures forall m :: UserMap(w, m) == if m == Mapping(d, p) then e else UserMap(v, m)
  {
    forall m ensures UserMap(w, m) == if m == Mapping(d, p) then e else UserMap(v, m) {
      UpdatedKeepsOthers(v, w, d, p, e, m);
      UpdatedAt(v, w, d, p, e);
    }
  }

  lemma UpdatedAt(v: Vm, w: Vm, d: nat, p: VPage, e: Option<Word>)
    requires Sizes(v) && Sizes(w) && UserPage(p) && Updated(v, w, d, p, e) && d < |v.mem| && IsDir(v.kind[d])
    ensures UserMap(w, Mapping(d, p)) == e
  {
    assert Tracked(v, d, p);
  }

  lemma WorkingUnmap(v0: Vm, steps: seq<Step>, v: Vm, d: nat, p: VPage)
    requires Inv(v0) && Working(v0, steps, v, d) && Mapped(v, d, p) && v.cr3 != d
    ensures var w := Remove(v, d, p);
      && Working(v0, steps + [Unmap(d, p)], w, d) && w.mem[d] == v.mem[d] && w.cr3 != d
      && (forall m :: UserMap(w, m) == if m == Mapping(d, p) then None else UserMap(v, m))
  {
    hide Inv, Run, Mapped, Coherent, Remove, Enabled, After, AllOn, AllReleasing, UserMap;
    AllReleasingAppend(steps, Unmap(d, p));
    UnmapIsStep(v, steps, d, p);
    RunAppend(v0, steps, v, Unmap(d, p));
    UnmapFacts(v, d, p);
  }

  lemma UnmapIsStep(v: Vm, steps: seq<Step>, d: nat, p: VPage)
    requires Inv(v) && Mapped(v, d, p) && v.kind[d] == EnvDir && AllOn(steps, d)
    ensures Enabled(v, Unmap(d, p)) && After(v, Unmap(d, p)) == Remove(v, d, p) && AllOn(steps + [Unmap(d, p)], d)
  {
    hide Inv, Mapped, Remove;
  }

  lemma WorkingDrop(v0: Vm, steps: seq<Step>, v: Vm, d: nat, i: Index)
    requires Inv(v0) && Working(v0, steps, v, d) && v.cr3 != d
    requires i < UTOP_PDX && v.mem[d][i] != 0 && SlotEmpty(v, d, i)
    ensures FrameOf(v.mem[d][i]) < |v.mem|
    ensures var w := DropTable(v, d, i);
      Working(v0, steps + [ReleaseTable(d, i)], w, d) && w.mem[d] == v.mem[d][i := 0]
  {
    hide Inv, Run, Coherent, SlotEmpty, AllOn, AllReleasing, Enabled, After, DropTable;
    AllReleasingAppend(steps, ReleaseTable(d, i));
    DropIsStep(v, steps, d, i);
    RunAppend(v0, steps, v, ReleaseTable(d, i));
    DropFacts(v, d, i);
  }

  lemma DropIsStep(v: Vm, steps: seq<Step>, d: nat, i: Index)
    requires Inv(v) && d < |v.mem| && v.kind[d] == EnvDir && i < UTOP_PDX && v.mem[d][i] != 0 && SlotEmpty(v, d, i)
    requires AllOn(steps, d)
    ensures FrameOf(v.mem[d][i]) < |v.mem|
    ensures var s := ReleaseTable(d, i);
      Enabled(v, s) && After(v, s) == DropTable(v, d, i) && AllOn(steps + [s], d)
  {
    assert Owns(v.kind[d], i) && PdeOk(v, d, i);
    AllOnAppend(steps, ReleaseTable(d, i), d);
    hide Inv, SlotEmpty, DropTable, AllOn;
  }

  /** What releasing an emptied page table of d leaves alone. */
  lemma DropFacts(v: Vm, d: nat, i: Index)
    requires Inv(v) && d < |v.mem| && v.kind[d] == EnvDir && v.cr3 != d
    requires i < UTOP_PDX && v.mem[d][i] != 0 && SlotEmpty(v, d, i)
    ensures FrameOf(v.mem[d][i]) < |v.mem|
    ensures var w := DropTable(v, d, i);
      && Inv(w) && |w.mem| == |v.mem| && w.mem[d] == v.mem[d][i := 0] && w.kind[d] == EnvDir
      && w.cr3 == v.cr3 && w.cur == v.cur && (Coherent(v) ==> Coherent(w))
  {
    hide Inv, Coherent, SlotEmpty, SameUser, OthersKeep, Shape, FreeListOk, CountsOk, Walk;
    DropTableKeepsInv(v, d, i);
    var w := DropTable(v, d, i);
    assert w.cr3 == v.cr3 && w.cur == v.cur && w.tlb == v.tlb;
    hide DropTable;
    if Coherent(v) {
      OthersKeepCoherent(v, w, d);
    }
  }

  /** The page table behind a used slot of d below UTOP, and what it maps. */
  lemma SlotTable(v: Vm, d: nat, i: Index, j: Index)
    requires Inv(v) && d < |v.mem| && v.kind[d] == EnvDir && i < UTOP_PDX && Present(v.mem[d][i])
    ensures var t := FrameOf(v.mem[d][i]);
      && t < |v.mem| && v.kind[t] == Table(d, i) && t != d
      && (Present(v.mem[t][j]) ==> Mapped(v, d, VPage(i, j)))
      && (!Present(v.mem[t][j]) ==> UserMap(v, Mapping(d, VPage(i, j))) == None)
  {
    assert Owns(v.kind[d], i) && PdeOk(v, d, i);
  }

  /** From step n on, all that is done is page_remove at pages of slot i of d. */
  predicate UnmapsFrom(steps: seq<Step>, n: nat, d: nat, i: Index) {
    forall k :: n <= k < |steps| ==> steps[k].Unmap? && steps[k].dir == d && steps[k].at.pdx == i
  }

  lemma EntryFacts(mm: MemoryManager, d: nat, i: Index, j: Index, v0: Vm, steps: seq<Step>)
    requires mm.Repr() && Inv(v0) && Working(v0, steps, mm.v, d) && i < UTOP_PDX && Present(mm.v.mem[d][i])
    ensures var va, p, t := PgAddr(i, j, 0), VPage(i, j), FrameOf(mm.v.mem[d][i]);
      && PageOf(va) == p && UserPage(p) && va < UTOP && mm.Valid() && d < |mm.v.mem| && IsDir(mm.v.kind[d])
      && t < |mm.v.mem| && Lengths(mm.v)
      && (Present(mm.v.mem[t][j]) ==> Mapped(mm.v, d, p))
      && (!Present(mm.v.mem[t][j]) ==> UserMap(mm.v, Mapping(d, p)) == None)
  {
    hide Inv, Mapped, UserMap, Coherent, Run, AllOn, AllReleasing, MemoryManager.Repr, Shape, FreeListOk, CountsOk;
    PgAddrRoundTrip(PgAddr(i, j, 0), i, j, 0);
    PageOfIsPageNumber(PgAddr(i, j, 0), PgAddr(i, j, 0));
    SlotTable(mm.v, d, i, j);
  }

  /** One turn of the inner loop of env_free: page_remove, if entry j of the table t of slot i is present. */
  method UnmapEntry(mm: MemoryManager, d: nat, i: Index, j: Index, t: nat, ghost v0: Vm, ghost steps0: seq<Step>)
    returns (ghost steps: seq<Step>)
    requires mm.Repr() && Inv(v0) && Working(v0, steps0, mm.v, d) && mm.v.cr3 != d
    requires i < UTOP_PDX && Present(mm.v.mem[d][i]) && FrameOf(mm.v.mem[d][i]) == t
    modifies mm, mm.phys, mm.pages
    ensures mm.Repr() && Working(v0, steps, mm.v, d) && mm.v.cr3 != d
    ensures d < |mm.v.mem| && mm.v.mem[d] == old(mm.v.mem[d])
    ensures forall m ::
              UserMap(mm.v, m) == if m == Mapping(d, VPage(i, j)) then None else UserMap(old(mm.v), m)
    ensures steps == steps0 || steps == steps0 + [Unmap(d, VPage(i, j))]
  {
    hide *;
    EntryFacts(mm, d, i, j, v0, steps0);
    var va := PgAddr(i, j, 0);
    steps := steps0;
    var pte := mm.LoadWord(t, j);
    if Present(pte) {
      WorkingUnmap(v0, steps, mm.v, d, VPage(i, j));
      steps := steps + [Unmap(d, VPage(i, j))];
      mm.PageRemove(d, va);
    }
  }

  /** The inner loop of env_free: unmaps every page that the page table t of slot i of d maps. */
  method UnmapTable(mm: MemoryManager, d: nat, i: Index, t: nat, ghost v0: Vm, ghost steps0: seq<Step>)
    returns (ghost steps: seq<Step>)
    requires mm.Repr() && Inv(v0) && Working(v0, steps0, mm.v, d) && mm.v.cr3 != d
    requires i < UTOP_PDX && Present(mm.v.mem[d][i]) && FrameOf(mm.v.mem[d][i]) == t
    modifies mm, mm.phys, mm.pages
    ensures mm.Repr() && Working(v0, steps, mm.v, d) && mm.v.cr3 != d
    ensures mm.v.mem[d] == old(mm.v.mem[d]) && SlotEmpty(mm.v, d, i)
    ensures steps0 <= steps && UnmapsFrom(steps, |steps0|, d, i)
  {
    hide Inv, UserMap, Coherent, Run, AllOn, AllReleasing, MemoryManager.Repr, Shape, Sizes, FreeListOk, CountsOk;
    steps := steps0;
    assert Inv(mm.v) && d < |mm.v.mem|;
    hide Working;
    for j := 0 to 1024
      invariant mm.Repr() && Working(v0, steps, mm.v, d) && mm.v.cr3 != d
      invariant d < |mm.v.mem| && mm.v.mem[d] == old(mm.v.mem[d])
      invariant forall k: Index :: k < j ==> UserMap(mm.v, Mapping(d, VPage(i, k))) == None
      invariant steps0 <= steps && UnmapsFrom(steps, |steps0|, d, i)
    {
      steps := UnmapEntry(mm, d, i, j, t, v0, steps);
    }
  }

  /** The rest of the outer loop body: clears slot i of d and releases the page table it pointed to. */
  method DropTableAt(mm: MemoryManager, d: nat, i: Index, t: nat, ghost v0: Vm, ghost steps0: seq<Step>)
    returns (ghost steps: seq<Step>)
    requires mm.Repr() && Inv(v0) && Working(v0, steps0, mm.v, d) && mm.v.cr3 != d
    requires i < UTOP_PDX && Present(mm.v.mem[d][i]) && FrameOf(mm.v.mem[d][i]) == t && SlotEmpty(mm.v, d, i)
    modifies mm, mm.phys, mm.pages
    ensures mm.Repr() && Working(v0, steps, mm.v, d) && mm.v.cr3 != d
    ensures d < |mm.v.mem| && mm.v.mem[d] == old(mm.v.mem[d])[i := 0]
  {
    steps := steps0 + [ReleaseTable(d, i)];
    TableUnlinked(mm.v, d, i);
    WorkingDrop(v0, steps0, mm.v, d, i);
    assert d < |mm.v.mem|;
    hide *;
    mm.StoreWord(d, i, 0);
    mm.PageDecref(t);
  }

  lemma TableUnlinked(v: Vm, d: nat, i: Index)
    requires Inv(v) && d < |v.mem| && v.kind[d] == EnvDir && i < UTOP_PDX && Present(v.mem[d][i])
    ensures FrameOf(v.mem[d][i]) < |v.mem| && v.pages[FrameOf(v.mem[d][i])].link == None
  {
    SlotTable(v, d, i, 0);
  }

  /** A slot of an environment's directory below UTOP that is not present is 0. */
  lemma AbsentIsZero(v: Vm, d: nat, i: Index)
    requires Inv(v) && d < |v.mem| && v.kind[d] == EnvDir && i < UTOP_PDX && !Present(v.mem[d][i])
    ensures v.mem[d][i] == 0
  {
    assert PdeOk(v, d, i);
  }

  /** The outer loop of env_free: empties address space d below UTOP and releases its page tables. */
  method ClearSpace(mm: MemoryManager, d: nat) returns (ghost steps: seq<Step>)
    requires mm.Valid() && d < |mm.v.mem| && mm.v.kind[d] == EnvDir && mm.v.cr3 != d
    modifies mm, mm.phys, mm.pages
    ensures mm.Repr() && Working(old(mm.v), steps, mm.v, d)
    ensures forall i :: 0 <= i < UTOP_PDX ==> mm.v.mem[d][i] == 0
  {
    ghost var v0 := mm.v;
    steps := [];
    RunEmpty(v0);
    assert Working(v0, steps, mm.v, d);
    hide Inv, UserMap, Coherent, Run, AllOn, AllReleasing, MemoryManager.Repr, Shape, Sizes, FreeListOk, CountsOk,
      SlotEmpty;
    for i := 0 to UTOP_PDX
      invariant mm.Repr() && Working(v0, steps, mm.v, d) && mm.v.cr3 != d && d < |mm.v.mem|
      invariant forall k :: 0 <= k < i ==> mm.v.mem[d][k] == 0
    {
      steps := ClearSlot(mm, d, i, v0, steps);
    }
  }

  /** Its body: empties slot i. */
  method ClearSlot(mm: MemoryManager, d: nat, i: Index, ghost v0: Vm, ghost done: seq<Step>)
    returns (ghost steps: seq<Step>)
    requires mm.Repr() && Inv(v0) && Working(v0, done, mm.v, d) && mm.v.cr3 != d && i < UTOP_PDX
    modifies mm, mm.phys, mm.pages
    ensures mm.Repr() && Working(v0, steps, mm.v, d) && mm.v.cr3 != d && |mm.v.mem| == |old(mm.v).mem|
    ensures d < |mm.v.mem| && mm.v.mem[d] == old(mm.v.mem[d])[i := 0]
  {
    hide Inv, UserMap, Coherent, Run, AllOn, AllReleasing, MemoryManager.Repr, Shape, Sizes, FreeListOk, CountsOk,
      SlotEmpty;
    steps := done;
    var pde := mm.LoadWord(d, i);
    if !Present(pde) {
      AbsentIsZero(mm.v, d, i);
    } else {
      assert d < |mm.v.mem| && |mm.v.mem| == |v0.mem|;
      var t := FrameOf(pde);
      steps := UnmapTable(mm, d, i, t, v0, steps);
      steps := DropTableAt(mm, d, i, t, v0, steps);
    }
  }

  /** Releasing the emptied directory d, after a change of curenv. */
  lemma WorkingRelease(v0: Vm, steps: seq<Step>, v: Vm, d: nat, cur: Option<nat>)
    requires Inv(v0) && Working(v0, steps, v, d) && v.cr3 != d && forall i :: 0 <= i < UTOP_PDX ==> v.mem[d][i] == 0
    ensures var w := Decref(v.(cur := cur), d);
      && v.pages[d].link == None
      && Inv(w) && |w.mem| == |v0.mem| && w.kind[d] == Free && w.cr3 == v.cr3 && w.cur == cur
      && (Coherent(v0) ==> Coherent(w))
      && Run(v0, steps + [Cpu(v.cr3, cur, v.tlb)] + [ReleaseDir(d)], w)
      && AllOn(steps + [Cpu(v.cr3, cur, v.tlb)] + [ReleaseDir(d)], d)
      && AllReleasing(steps + [Cpu(v.cr3, cur, v.tlb)] + [ReleaseDir(d)])
  {
    var c := Cpu(v.cr3, cur, v.tlb);
    var u := v.(cur := cur);
    assert After(v, c) == u && Enabled(v, c) && v.pages[d].link == None;
    hide Inv, Run, Coherent, AllOn, AllReleasing, Shape, FreeListOk, CountsOk, SameView, SameUser, OthersKeep;
    InvIgnoresCpu(v, u);
    AllReleasingAppend(steps, c);
    AllReleasingAppend(steps + [c], ReleaseDir(d));
    RunAppend(v0, steps, v, c);
    ReleaseStep(v0, steps + [c], u, d);
    AllOnAppend(steps, c, d);
    AllOnAppend(steps + [c], ReleaseDir(d), d);
    if Coherent(v0) {
      SameViewKeepsCoherent(v, u);
    }
  }

  lemma AllOnAppend(steps: seq<Step>, s: Step, d: nat)
    requires AllOn(steps, d) && OnlyOn(s, d)
    ensures AllOn(steps + [s], d)
  {
  }

  lemma AllReleasingAppend(steps: seq<Step>, s: Step)
    requires AllReleasing(steps) && Releasing(s)
    ensures AllReleasing(steps + [s])
  {
  }

  lemma ReleaseStep(v0: Vm, steps: seq<Step>, u: Vm, d: nat)
    requires Inv(v0) && Inv(u) && Run(v0, steps, u)
    requires d < |u.mem| && u.kind[d] == EnvDir && u.cr3 != d && forall i :: 0 <= i < UTOP_PDX ==> u.mem[d][i] == 0
    ensures var w := Decref(u, d);
      && Inv(w) && w.kind == u.kind[d := Free] && w.cr3 == u.cr3 && w.cur == u.cur
      && (Coherent(u) ==> Coherent(w))
      && Run(v0, steps + [ReleaseDir(d)], w)
  {
    var w, s := Decref(u, d), ReleaseDir(d);
    assert After(u, s) == w && Enabled(u, s);
    assert w.cr3 == u.cr3 && w.cur == u.cur && w.tlb == u.tlb;
    hide Inv, Run, Coherent, Shape, FreeListOk, CountsOk, SameUser, OthersKeep, Decref, Enabled, After;
    DropDirKeepsInv(u, d);
    RunAppend(v0, steps, u, s);
    if Coherent(u) {
      OthersKeepCoherent(u, w, d);
    }
  }

  /** Work on address space d leaves the other directories and kern_pgdir what they are. */
  lemma OtherDirsStay(v: Vm, steps: seq<Step>, w: Vm, d: nat)
    requires Inv(v) && Inv(w) && Run(v, steps, w) && AllOn(steps, d) && d != v.kern
    ensures |w.mem| == |v.mem| && w.kern == v.kern
    ensures forall f :: 0 <= f < |w.mem| && f != d ==> (w.kind[f] == EnvDir <==> v.kind[f] == EnvDir)
  {
    RunTouches(v, steps, w, d);
    hide Inv, Run, AllOn;
    assert Fixed(v.kind[v.kern], d);
  }

  /** A run that starts by loading kern_pgdir. */
  lemma RunAfterLoad(v: Vm, steps: seq<Step>, w: Vm)
    requires Inv(v)
    ensures var u := VmTlb.LoadCr3(v, v.kern);
      && Inv(u) && u == After(v, Cpu(v.kern, v.cur, map[])) && Coherent(u)
      && (Run(u, steps, w) ==> Run(v, [Cpu(v.kern, v.cur, map[])] + steps, w))
  {
    var c := Cpu(v.kern, v.cur, map[]);
    var u, all := VmTlb.LoadCr3(v, v.kern), [c] + steps;
    assert Coherent(u);
    hide Inv, Shape, FreeListOk, CountsOk, SameView, SameUser, Coherent;
    InvIgnoresCpu(v, u);
    assert all[1..] == steps && all[0] == c;
  }

  /**
   * The memory part of env_free: kern_pgdir is loaded first if the space is the current environment's, and
   * curenv->env_pgdir reads as 0 from when the directory is released.
   */
  method FreeSpace(mm: MemoryManager, d: nat, current: bool) returns (ghost steps: seq<Step>)
    requires mm.Valid() && Coherent(mm.v) && d < |mm.v.mem| && mm.v.kind[d] == EnvDir
    requires current || mm.v.cr3 != d
    modifies mm, mm.phys, mm.pages
    ensures mm.Repr() && Inv(mm.v) && Coherent(mm.v)
    ensures Run(old(mm.v), steps, mm.v) && AllOn(steps, d) && AllReleasing(steps)
    ensures |mm.v.mem| == |old(mm.v).mem| && mm.v.kind[d] == Free && TornDown(old(mm.v), mm.v, d)
    ensures mm.v.cr3 == (if current then old(mm.v.kern) else old(mm.v.cr3))
    ensures mm.v.cur == (if current then Some(0) else old(mm.v.cur))
  {
    ghost var v0 := mm.v;
    RunAfterLoad(v0, [], v0);
    assert mm.v.kern != d && v0.kern < |v0.mem|;
    hide Inv, Run, Coherent, AllOn, AllReleasing, Shape, Sizes, FreeListOk, CountsOk, MemoryManager.Repr, Decref,
      TornDown;
    if current {
      mm.LoadCr3(mm.kernPgdir);
    }
    ghost var v1 := mm.v;
    steps := ClearSpace(mm, d);
    ghost var v2, cur := mm.v, if current then Some(0) else mm.v.cur;
    WorkingRelease(v1, steps, v2, d, cur);
    steps := steps + [Cpu(v2.cr3, cur, v2.tlb)] + [ReleaseDir(d)];
    if current {
      mm.SetCurrent(Some(0));
    }
    mm.PageDecref(d);
    if current {
      RunAfterLoad(v0, steps, mm.v);
      AllOnPrepend(steps, Cpu(v0.kern, v0.cur, map[]), d);
      steps := [Cpu(v0.kern, v0.cur, map[])] + steps;
    }
    ReleasedIsTornDown(v0, steps, mm.v, d);
  }

  lemma AllOnPrepend(steps: seq<Step>, s: Step, d: nat)
    requires AllOn(steps, d) && OnlyOn(s, d) && AllReleasing(steps) && Releasing(s)
    ensures AllOn([s] + steps, d) && AllReleasing([s] + steps)
  {
  }
}
