/**
 * page_insert at and above UTOP in the address space of an environment, where sys_ipc_try_send leads if the
 * receiver asked for no page: it goes on in the page tables that all address spaces share, or in the directory.
 */
module VmAbove {
  import opened Wrappers
  import opened Mmu
  import opened VmState
  import opened VmAlloc
  import opened VmPaging
  import opened VmPagingProofs
  import opened VmTlb
  import opened VmTeardown
  import opened VmRegion
  import VmKernelMap

  /** The entry for a page that has a page table. */
  ghost function EntryOf(v: Vm, d: nat, p: VPage): Word
    requires Lengths(v) && d < |v.mem|
  {
    var t := FrameOf(v.mem[d][p.pdx]);
    if t < |v.mem| then v.mem[t][p.ptx] else 0
  }

  /** p lies in a page table that all address spaces share, and its entry there names pp already. */
  ghost predicate Shown(v: Vm, d: nat, pp: nat, p: VPage)
    requires Lengths(v) && d < |v.mem|
  {
    p.pdx != UVPT_PDX && v.mem[d][p.pdx] != 0 && FrameOf(EntryOf(v, d, p)) == pp
  }

  /** What page_insert writes once the table t is there. */
  lemma InsertAtFields(v: Vm, d: nat, pp: nat, p: VPage, perm: nat, t: nat)
    requires Lengths(v) && d < |v.mem| && pp < |v.mem| && perm < 4096 && t < |v.mem|
    requires Present(v.mem[d][p.pdx]) && FrameOf(v.mem[d][p.pdx]) == t
    ensures var w, pte := InsertAt(v, d, pp, p, perm, t), v.mem[t][p.ptx];
      && w.mem == v.mem[t := v.mem[t][p.ptx := MkPte(pp, perm)]] && w.kern == v.kern
      && (FrameOf(pte) == pp ==> w == SetWord(v, t, p.ptx, MkPte(pp, perm)))
      && (FrameOf(pte) != pp ==>
            && w.kind[pp] == Leaf && w.pages[pp].ref == Inc16(v.pages[pp].ref)
            && forall f :: 0 <= f < |v.mem| && f != pp && w.kind[f] != v.kind[f] ==>
                 w.kind[f] == Free && f == FrameOf(pte))
  {
    hide Inc16, Dec16, MkPte;
    var e := MkPte(pp, perm);
    assert v.mem[t][p.ptx := 0][p.ptx := e] == v.mem[t][p.ptx := e];
  }

  lemma LeafZeroBreaks(w: Vm)
    requires Lengths(w) && w.kind[0] == Leaf
    ensures !Inv(w)
  {
    hide Shape, FreeListOk, CountsOk;
  }

  /** Changing a frame that is neither a directory any more nor a user page table adds no mapping. */
  lemma NoMoreMappings(v: Vm, w: Vm, t: nat, f: nat)
    requires Shape(v) && Lengths(w) && |w.mem| == |v.mem| && t < |v.mem| && !IsDir(w.kind[t])
    requires !(v.kind[t].Table? && v.kind[t].pdx < UTOP_PDX)
    requires forall x :: 0 <= x < |v.mem| && x != t ==> w.mem[x] == v.mem[x]
    requires forall x :: 0 <= x < |v.mem| && IsDir(w.kind[x]) ==> IsDir(v.kind[x])
    ensures Mappings(w, f) <= Mappings(v, f)
  {
    forall m | m in Mappings(w, f) ensures m in Mappings(v, f) {
      assert MapsTo(w, m, f);
      if Present(v.mem[m.dir][m.page.pdx]) {
        WalkTable(v, m.dir, m.page.pdx);
      }
      assert MapsTo(v, m, f);
    }
  }

  /** One mapping too many is counted. */
  lemma CountTooHigh(v: Vm, w: Vm, f: nat)
    requires Inv(v) && Lengths(w) && |w.mem| == |v.mem| && f < |v.mem| && v.kind[f] == Leaf && w.kind[f] == Leaf
    requires w.pages[f].ref == Inc16(v.pages[f].ref) && Mappings(w, f) <= Mappings(v, f)
    ensures !Inv(w)
  {
    hide Inv, Mappings, Inc16;
    HasCount(v, f);
    SubsetSize(Mappings(w, f), Mappings(v, f));
    Incremented(v.pages[f].ref);
    if Inv(w) {
      HasCount(w, f);
    }
  }

  lemma Incremented(ref: Ref16)
    ensures Inc16(ref) == 0 || Inc16(ref) == ref + 1
  {
  }

  /** pgdir_walk where there is no page table makes one for this directory alone. */
  lemma TableMade(v: Vm, d: nat, p: VPage)
    requires Inv(v) && EnvSpace(v, d) && !UserPage(p) && v.mem[d][p.pdx] == 0 && !NoneFree(v)
    ensures var (u, r) := PgdirWalk(v, d, p, true);
      && r.Some? && v.kind[r.value] == Free && u.kern == v.kern && u.kern < |u.mem| && u.kind[d] == EnvDir
      && r.value != d && r.value != v.kern && p.pdx != UVPT_PDX && d != 0 && u.mem[r.value][p.ptx] == 0
      && u.mem[d][p.pdx] == MkPte(r.value, PTE_U + PTE_W) && u.mem[d][p.pdx] != u.mem[u.kern][p.pdx]
  {
    hide Shape, FreeListOk, CountsOk, SameView;
    var (a, r) := Alloc(v, 1);
    AllocKeepsInv(v, 1);
    NotAtUvpt(v, d, p.pdx);
    TableAboveBreaks(v, d, p.pdx);
    TableApart(v, r.value, d);
    hide Inv, Alloc;
  }

  lemma TableApart(v: Vm, t: nat, d: nat)
    requires Inv(v) && EnvSpace(v, d) && t < |v.mem| && v.kind[t] == Free
    ensures t != d && t != v.kern && d != 0
  {
    hide Shape, FreeListOk, CountsOk;
  }

  lemma LeafIsNoDir(v: Vm, d: nat, pp: nat)
    requires Inv(v) && EnvSpace(v, d) && pp < |v.mem| && (pp == 0 || v.kind[pp] == Leaf)
    ensures pp != d
  {
    hide Shape, FreeListOk, CountsOk;
  }

  /** So the directory differs from kern_pgdir. */
  lemma NewTableBreaks(v: Vm, d: nat, pp: nat, p: VPage, perm: nat)
    requires Inv(v) && EnvSpace(v, d) && !UserPage(p) && perm < 4096 && pp < |v.mem|
    requires pp == 0 || v.kind[pp] == Leaf
    requires v.mem[d][p.pdx] == 0 && !NoneFree(v)
    ensures var w := Insert(v, d, pp, p, perm).0; !Inv(w) && EntryOf(w, d, p) == MkPte(pp, perm)
  {
    hide Inv, Alloc, PointTo, PgdirWalk, InsertAt, NoneFree, Inc16, MkPte;
    TableMade(v, d, p);
    LeafIsNoDir(v, d, pp);
    var (u, r) := PgdirWalk(v, d, p, true);
    InsertAtFields(u, d, pp, p, perm, r.value);
    SplitWord(r.value, WithP(PTE_U + PTE_W));
    var w := InsertAt(u, d, pp, p, perm, r.value);
    assert w.mem[d] == u.mem[d] && w.mem[w.kern] == u.mem[u.kern];
    if Inv(w) {
      KernelSlotSame(w, d, p.pdx);
    }
  }

  lemma KernelSlotSame(w: Vm, d: nat, i: Index)
    requires Inv(w) && d < |w.mem| && w.kind[d] == EnvDir && UTOP_PDX <= i && i != UVPT_PDX
    ensures w.kern < |w.mem| && (w.mem[d][i] == 0 || w.mem[d][i] == w.mem[w.kern][i])
  {
  }

  /** A page table that all address spaces share. */
  lemma SharedTable(v: Vm, d: nat, pp: nat, p: VPage, perm: nat)
    requires Inv(v) && EnvSpace(v, d) && !UserPage(p) && perm < 4096 && pp < |v.mem|
    requires pp == 0 || v.kind[pp] == Leaf
    requires v.mem[d][p.pdx] != 0 && p.pdx != UVPT_PDX
    ensures var w := Insert(v, d, pp, p, perm).0;
      && (Inv(w) <==> Shown(v, d, pp, p)) && EntryOf(w, d, p) == MkPte(pp, perm)
      && (Shown(v, d, pp, p) ==> Steady(v, w, d) && SameHeld(v, w))
  {
    SlotIsZeroOrPresent(v, d, p.pdx);
    var t := FrameOf(v.mem[d][p.pdx]);
    assert v.kind[t] == Table(v.kern, p.pdx) && !UserPage(p);
    hide Inv, Shape, FreeListOk, CountsOk, Alloc, InsertAt, Steady, SameHeld, EntryOf;
    SharedTableWritten(v, d, pp, p, perm, t);
    assert FrameOf(EntryOf(v, d, p)) == FrameOf(v.mem[t][p.ptx]) by {
      EntryIn(v, d, p, t);
    }
  }

  lemma EntryIn(v: Vm, d: nat, p: VPage, t: nat)
    requires Lengths(v) && d < |v.mem| && t < |v.mem| && FrameOf(v.mem[d][p.pdx]) == t
    ensures EntryOf(v, d, p) == v.mem[t][p.ptx]
  {
  }

  lemma SharedTableWritten(v: Vm, d: nat, pp: nat, p: VPage, perm: nat, t: nat)
    requires Inv(v) && EnvSpace(v, d) && !UserPage(p) && p.pdx != UVPT_PDX && perm < 4096 && pp < |v.mem|
    requires pp == 0 || v.kind[pp] == Leaf
    requires t < |v.mem| && v.kind[t] == Table(v.kern, p.pdx)
    requires Present(v.mem[d][p.pdx]) && FrameOf(v.mem[d][p.pdx]) == t
    ensures var w := InsertAt(v, d, pp, p, perm, t);
      && (Inv(w) <==> FrameOf(v.mem[t][p.ptx]) == pp) && EntryOf(w, d, p) == MkPte(pp, perm)
      && (Inv(w) ==> Steady(v, w, d) && SameHeld(v, w))
  {
    hide Inv, Shape, FreeListOk, CountsOk, InsertAt, Steady, SameHeld, Mappings, EntryOf, MkPte, Inc16;
    InsertAtFields(v, d, pp, p, perm, t);
    EntryIn(InsertAt(v, d, pp, p, perm, t), d, p, t);
    var w := InsertAt(v, d, pp, p, perm, t);
    if FrameOf(v.mem[t][p.ptx]) == pp {
      SameFrame(v, d, p, t, MkPte(pp, perm));
    } else if pp == 0 {
      LeafZeroBreaks(w);
    } else {
      OtherKinds(v, w, pp, FrameOf(v.mem[t][p.ptx]), t);
      NoMoreMappings(v, w, t, pp);
      CountTooHigh(v, w, pp);
    }
  }

  lemma OtherKinds(v: Vm, w: Vm, pp: nat, g: nat, t: nat)
    requires Lengths(v) && Lengths(w) && |w.mem| == |v.mem| && t < |v.mem| && pp < |v.mem| && w.kind[pp] == Leaf
    requires forall f :: 0 <= f < |v.mem| && f != pp && w.kind[f] != v.kind[f] ==> w.kind[f] == Free && f == g
    ensures forall x :: 0 <= x < |v.mem| && IsDir(w.kind[x]) ==> IsDir(v.kind[x])
    ensures !IsDir(v.kind[t]) ==> !IsDir(w.kind[t])
  {
  }

  /** The entry keeps its frame: only permissions change. */
  lemma SameFrame(v: Vm, d: nat, p: VPage, t: nat, e: Word)
    requires Inv(v) && EnvSpace(v, d) && !UserPage(p) && p.pdx != UVPT_PDX && Present(e)
    requires t < |v.mem| && v.kind[t] == Table(v.kern, p.pdx) && FrameOf(e) == FrameOf(v.mem[t][p.ptx])
    ensures var w := SetWord(v, t, p.ptx, e); Inv(w) && Steady(v, w, d) && SameHeld(v, w)
  {
    var w := SetWord(v, t, p.ptx, e);
    hide Inv, Shape, FreeListOk, CountsOk, SameUser, Coherent, Touches, VmKernelMap.KernelUpdated;
    VmKernelMap.SetKernelPte(v, p, t, e);
    SameUserTouches(v, w, d);
    SameHeldIfSameKind(v, w);
    if Coherent(v) {
      SameFrameCoherent(v, t, p.ptx, e);
    }
  }

  lemma SameFrameCoherent(v: Vm, t: nat, j: Index, e: Word)
    requires Sizes(v) && Coherent(v) && t < |v.mem| && v.kind[t].Table? && Present(e)
    requires FrameOf(e) == FrameOf(v.mem[t][j]) && Sizes(SetWord(v, t, j, e))
    ensures Coherent(SetWord(v, t, j, e))
  {
    var w := SetWord(v, t, j, e);
    forall q | q in w.tlb
      ensures Walk(w.mem, w.cr3, q).Some? && FrameOf(Walk(w.mem, w.cr3, q).value) == w.tlb[q]
    {
      assert q in v.tlb && w.mem[v.cr3] == v.mem[v.cr3];
    }
  }

  /** The window at UVPT: the entry written is one of the directory itself. */
  lemma AtUvptBreaks(v: Vm, d: nat, pp: nat, p: VPage, perm: nat)
    requires Inv(v) && EnvSpace(v, d) && perm < 4096 && pp < |v.mem| && p.pdx == UVPT_PDX
    requires pp == 0 || v.kind[pp] == Leaf
    ensures !NoTable(v, d, p) && Insert(v, d, pp, p, perm).1 && !Inv(Insert(v, d, pp, p, perm).0)
  {
    OwnEntry(v, d);
    hide Inv, Shape, FreeListOk, CountsOk, Alloc, InsertAt, Walk;
    OwnEntryWrittenBreaks(v, d, pp, p, perm);
  }

  lemma OwnEntryWrittenBreaks(v: Vm, d: nat, pp: nat, p: VPage, perm: nat)
    requires Inv(v) && EnvSpace(v, d) && perm < 4096 && pp < |v.mem|
    requires pp == 0 || v.kind[pp] == Leaf
    requires Present(v.mem[d][p.pdx]) && FrameOf(v.mem[d][p.pdx]) == d
    ensures !Inv(InsertAt(v, d, pp, p, perm, d))
  {
    var w := InsertAt(v, d, pp, p, perm, d);
    assert pp != d && v.kind[0] == Reserved;
    hide Inv, Shape, FreeListOk, CountsOk, InsertAt, Mappings, Inc16;
    InsertAtFields(v, d, pp, p, perm, d);
    assert w.mem[d][p.ptx] == MkPte(pp, perm);
    if FrameOf(v.mem[d][p.ptx]) != pp && pp == 0 {
      LeafZeroBreaks(w);
    } else if IsDir(w.kind[d]) {
      SlotNamesLeaf(v, w, d, pp, p.ptx);
    } else {
      OtherKinds(v, w, pp, FrameOf(v.mem[d][p.ptx]), d);
      NoMoreMappings(v, w, d, pp);
      CountTooHigh(v, w, pp);
    }
  }

  lemma OwnEntry(v: Vm, d: nat)
    requires Inv(v) && EnvSpace(v, d)
    ensures var e := v.mem[d][UVPT_PDX]; Present(e) && FrameOf(e) == d && e != 0
  {
  }

  /** A directory with an entry that names no table. */
  lemma SlotNamesLeaf(v: Vm, w: Vm, d: nat, pp: nat, i: Index)
    requires Lengths(w) && d < |w.mem| && pp < |w.mem| && pp != d && IsDir(w.kind[d])
    requires w.kind[pp] == Leaf || w.kind[pp] == Reserved
    requires Present(w.mem[d][i]) && FrameOf(w.mem[d][i]) == pp
    ensures !Inv(w)
  {
    hide Inv;
    if Inv(w) {
      SlotIsZeroOrPresent(w, d, i);
    }
  }

  /**
   * page_insert at or above UTOP keeps the invariant exactly if it fails for want of a page table, or the entry
   * names the page already.
   */
  lemma InsertAbove(v: Vm, d: nat, pp: nat, p: VPage, perm: nat)
    requires Inv(v) && EnvSpace(v, d) && !UserPage(p) && perm < 4096 && pp < |v.mem|
    requires pp == 0 || v.kind[pp] == Leaf
    ensures var (w, ok) := Insert(v, d, pp, p, perm);
      && (ok <==> !NoTable(v, d, p)) && (!ok ==> w == v)
      && (ok && p.pdx != UVPT_PDX ==> EntryOf(w, d, p) == MkPte(pp, perm))
      && (Inv(w) <==> !ok || Shown(v, d, pp, p))
      && (ok && Inv(w) ==> Steady(v, w, d) && SameHeld(v, w))
  {
    hide Inv, Shape, FreeListOk, CountsOk, InsertAt, Steady, SameHeld, EntryOf, SameView, NoneFree;
    PgdirWalkKeepsInv(v, d, p, true);
    if p.pdx == UVPT_PDX {
      AtUvptBreaks(v, d, pp, p, perm);
    } else if v.mem[d][p.pdx] != 0 {
      SharedTable(v, d, pp, p, perm);
    } else if !NoneFree(v) {
      NewTableBreaks(v, d, pp, p, perm);
    }
  }
}
