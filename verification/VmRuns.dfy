/** Whole runs of the memory manager: what holds in every reachable state, and what an address space leaves. */
module VmRuns {
  import opened Wrappers
  import opened Mmu
  import opened VmState
  import opened VmAlloc
  import opened VmPaging
  import opened VmPagingProofs
  import opened VmSpaces
  import opened VmTlb

  /** A slot of a page directory. */
  datatype Slot = Slot(dir: nat, pdx: Index)

  ghost predicate OwnedBy(v: Vm, s: Slot, f: nat)
    requires Lengths(v)
  {
    && s.dir < |v.mem| && Owns(v.kind[s.dir], s.pdx)
    && Present(v.mem[s.dir][s.pdx]) && FrameOf(v.mem[s.dir][s.pdx]) == f
  }

  /** The directory slots, over all directories, that have f as their page table. */
  ghost function Owners(v: Vm, f: nat): (r: set<Slot>)
    requires Lengths(v)
    ensures forall s :: s in r <==> OwnedBy(v, s, f)
  {
    set d: nat, i: Index | d < |v.mem| && 0 <= i < 1024 && OwnedBy(v, Slot(d, i), f) :: Slot(d, i)
  }

  /** Frames page_alloc may hand out. */
  predicate Managed(k: Kind) { k != Reserved && k != KernDir }

  /**
   * pp_ref is exact: it counts the pages below UTOP that map the frame, the directory slots that own it as
   * a page table, and the environment whose directory it is.  The unreferenced frames are the free ones,
   * each on the free list once, and those held by a caller of page_alloc.
   */
  lemma RefcountsExact(v: Vm, f: nat)
    requires Inv(v) && f < |v.mem| && Managed(v.kind[f])
    ensures v.pages[f].ref == |Mappings(v, f)| + |Owners(v, f)| + (if v.kind[f] == EnvDir then 1 else 0)
    ensures v.pages[f].ref == 0 <==> v.kind[f] == Free || v.kind[f] == Held
    ensures v.kind[f] == Free <==> f in v.fl
    ensures multiset(v.fl)[f] == if v.kind[f] == Free then 1 else 0
  {
    assert CountOk(v, f);
    OwnersOfTable(v, f);
    if v.kind[f] != Leaf {
      OnlyLeavesAreMapped(v, f);
    }
    OnceInList(v.fl, f);
  }

  lemma {:induction false} OnceInList(s: seq<nat>, f: nat)
    requires forall j, k :: 0 <= j < k < |s| ==> s[j] != s[k]
    ensures multiset(s)[f] == if f in s then 1 else 0
  {
    if s == [] {
    } else {
      var n := |s| - 1;
      assert s == s[..n] + [s[n]];
      OnceInList(s[..n], f);
    }
  }

  /** A page table is owned by exactly one slot, any other frame by none. */
  lemma OwnersOfTable(v: Vm, f: nat)
    requires Inv(v) && f < |v.mem|
    ensures |Owners(v, f)| == if v.kind[f].Table? then 1 else 0
  {
    forall s: Slot ensures OwnedBy(v, s, f) <==> v.kind[f] == Table(s.dir, s.pdx) {
      if s.dir < |v.mem| && Owns(v.kind[s.dir], s.pdx) {
        assert PdeOk(v, s.dir, s.pdx);
      }
      if v.kind[f] == Table(s.dir, s.pdx) {
        assert TableOk(v, f);
      }
    }
    if v.kind[f].Table? {
      assert TableOk(v, f);
      assert Owners(v, f) == {Slot(v.kind[f].dir, v.kind[f].pdx)};
    } else {
      assert Owners(v, f) == {};
    }
  }

  datatype Step =
    | Take(flags: int)                                      // page_alloc
    | Give(page: nat)                                       // page_free of a held page
    | Map(dir: nat, page: nat, at: VPage, perm: nat)        // page_insert
    | Unmap(dir: nat, at: VPage)                            // page_remove of a mapped page
    | NewSpace                                              // env_setup_vm
    | ReleaseTable(dir: nat, pdx: Index)                    // env_free, one page table
    | ReleaseDir(dir: nat)                                  // env_free, the page directory
    | Cpu(cr3: nat, cur: Option<nat>, tlb: map<VPage, nat>) // lcr3, a change of curenv, TLB fills

  /** When a step may be taken. */
  ghost predicate Enabled(v: Vm, s: Step)
    requires Inv(v)
  {
    match s
    case Take(_) => true
    case Give(f) => f < |v.mem| && v.kind[f] == Held
    case Map(d, pp, p, perm) => CanInsert(v, d, pp, p, perm) && (v.pages[pp].ref < 0xFFFF || SamePage(v, d, pp, p))
    case Unmap(d, p) => Mapped(v, d, p)
    case NewSpace => true
    case ReleaseTable(d, i) =>
      d < |v.mem| && v.kind[d] == EnvDir && i < UTOP_PDX && v.mem[d][i] != 0 && SlotEmpty(v, d, i)
    case ReleaseDir(d) =>
      d < |v.mem| && v.kind[d] == EnvDir && forall i :: 0 <= i < UTOP_PDX ==> v.mem[d][i] == 0
    case Cpu(_, _, _) => true
  }

  /** The state after a step. */
  ghost function After(v: Vm, s: Step): Vm
    requires Inv(v) && Enabled(v, s)
  {
    match s
    case Take(flags) => Alloc(v, flags).0
    case Give(f) => Push(v, f)
    case Map(d, pp, p, perm) => Insert(v, d, pp, p, perm).0
    case Unmap(d, p) => Remove(v, d, p)
    case NewSpace => SetupVm(v).0
    case ReleaseTable(d, i) => assert Owns(v.kind[d], i) && PdeOk(v, d, i); DropTable(v, d, i)
    case ReleaseDir(d) => Decref(v, d)
    case Cpu(cr3, cur, tlb) => v.(cr3 := cr3, cur := cur, tlb := tlb)
  }

  /** Every step keeps the invariant. */
  lemma StepKeepsInv(v: Vm, s: Step)
    requires Inv(v) && Enabled(v, s)
    ensures Inv(After(v, s))
  {
    hide Inv, Shape, FreeListOk, CountsOk, SameView, SameUser, Updated, Sizes;
    match s
    case Take(flags) => AllocKeepsInv(v, flags);
    case Give(f) => FreeKeepsInv(v, f);
    case Map(d, pp, p, perm) => InsertUpdates(v, d, pp, p, perm);
    case Unmap(d, p) => RemoveKeepsInv(v, d, p);
    case NewSpace => SetupKeepsInv(v);
    case ReleaseTable(d, i) => DropTableKeepsInv(v, d, i);
    case ReleaseDir(d) => DropDirKeepsInv(v, d);
    case Cpu(cr3, cur, tlb) => InvIgnoresCpu(v, v.(cr3 := cr3, cur := cur, tlb := tlb));
  }

  /** A run: the states passed through under a sequence of steps, each enabled when it is taken. */
  ghost predicate Run(v: Vm, steps: seq<Step>, w: Vm)
    requires Inv(v)
    decreases |steps|
  {
    if steps == [] then w == v
    else
      && Enabled(v, steps[0])
      && (StepKeepsInv(v, steps[0]); Run(After(v, steps[0]), steps[1..], w))
  }

  /** The invariant, hence exact reference counts and an exact free list, holds in every reachable state. */
  lemma {:induction false} RunKeepsInv(v: Vm, steps: seq<Step>, w: Vm)
    requires Inv(v) && Run(v, steps, w)
    ensures Inv(w)
    decreases |steps|
  {
    if steps == [] {
    } else {
      StepKeepsInv(v, steps[0]);
      hide Inv;
      RunKeepsInv(After(v, steps[0]), steps[1..], w);
    }
  }

  lemma RunEmpty(v: Vm)
    requires Inv(v)
    ensures Run(v, [], v)
  {
  }

  /** A run may be continued by a step. */
  lemma {:induction false} RunAppend(v: Vm, steps: seq<Step>, w: Vm, s: Step)
    requires Inv(v) && Inv(w) && Run(v, steps, w) && Enabled(w, s)
    ensures Run(v, steps + [s], After(w, s))
    decreases |steps|
  {
    var all := steps + [s];
    hide Inv, Enabled, After;
    if steps == [] {
      StepKeepsInv(v, s);
      RunEmpty(After(v, s));
      assert all[1..] == [];
    } else {
      StepKeepsInv(v, steps[0]);
      RunAppend(After(v, steps[0]), steps[1..], w, s);
      assert all[1..] == steps[1..] + [s] && all[0] == steps[0];
    }
  }
}
