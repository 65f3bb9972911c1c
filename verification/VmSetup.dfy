/** The memory part of env_setup_vm in kern/env.c, in place. */
module VmSetup {
  import opened Wrappers
  import opened Mmu
  import opened VmState
  import opened VmAlloc
  import opened VmPaging
  import opened VmSpaces
  import opened VmTlb
  import opened Pmap

  /** A page directory into which kern_pgdir has been copied from UTOP up to slot i. */
  ghost function CopiedRow(kern: Row, i: nat): (r: Row)
    ensures forall k :: 0 <= k < 1024 ==> r[k] == if UTOP_PDX <= k < i then kern[k] else 0
  {
    seq(1024, k requires 0 <= k < 1024 => if UTOP_PDX <= k < i then kern[k] else 0)
  }

  lemma CopySteps(kern: Row, i: nat, d: nat)
    requires d < 0x10_0000
    ensures CopiedRow(kern, UTOP_PDX) == ZeroRow()
    ensures UTOP_PDX <= i < 1024 ==> CopiedRow(kern, i)[i := kern[i]] == CopiedRow(kern, i + 1)
    ensures CopiedRow(kern, 1024)[UVPT_PDX := MkPte(d, PTE_U)] == DirRow(kern, d)
  {
  }

  /** The state while the directory d is filled. */
  ghost function Filled(v: Vm, d: nat, row: Row): (r: Vm)
    requires Lengths(v) && d < |v.mem|
    ensures Lengths(r) && |r.mem| == |v.mem| && r.mem[d] == row
    ensures forall f :: 0 <= f < |v.mem| && f != d ==> r.mem[f] == v.mem[f]
  {
    v.(mem := v.mem[d := row])
  }

  lemma FilledAgain(v: Vm, d: nat, row: Row, i: Index, w: Word)
    requires Lengths(v) && d < |v.mem|
    ensures SetWord(Filled(v, d, row), d, i, w) == Filled(v, d, row[i := w])
  {
  }

  /** The page that page_alloc hands out is clear, and is not kern_pgdir. */
  lemma NewPage(v: Vm)
    requires Inv(v)
    ensures var (a, r) := Alloc(v, 1);
      r.Some? ==> a.kern < |a.mem| && r.value != a.kern && a.mem[r.value] == ZeroRow() && a.data[r.value] == ZeroBytes()
  {
    hide Shape, FreeListOk, CountsOk, SameView;
    AllocKeepsInv(v, 1);
  }

  /** env_setup_vm: the frame of the new directory, or none if there is no memory. */
  method SetupDir(mm: MemoryManager) returns (r: Option<nat>)
    requires mm.Valid()
    modifies mm, mm.phys, mm.data, mm.pages
    ensures mm.Repr() && (mm.v, r) == SetupVm(old(mm.v))
    ensures mm.v.cr3 == old(mm.v.cr3) && mm.v.cur == old(mm.v.cur) && mm.v.tlb == old(mm.v.tlb)
  {
    hide Inv, Shape, FreeListOk, CountsOk, SameView, MemoryManager.Repr, Sizes;
    ghost var v0 := mm.v;
    NewPage(v0);
    r := mm.PageAlloc(1);
    if r == None {
      return;
    }
    var d := r.value;
    ghost var a := mm.v;
    ghost var kern := a.mem[a.kern];
    assert d != a.kern && d < |a.mem| && a.mem[d] == ZeroRow() && a.data[d] == ZeroBytes();
    mm.ZeroPage(d);
    assert a.data[d := ZeroBytes()] == a.data;
    CopySteps(kern, 0, d);
    assert mm.v == Filled(a, d, CopiedRow(kern, UTOP_PDX));
    for i := UTOP_PDX to 1024
      invariant mm.Repr() && mm.v == Filled(a, d, CopiedRow(kern, i))
    {
      var w := mm.LoadWord(mm.kernPgdir, i);
      mm.StoreWord(d, i, w);
      CopySteps(kern, i, d);
      FilledAgain(a, d, CopiedRow(kern, i), i, w);
    }
    CopySteps(kern, 0, d);
    mm.Incref(d);
    mm.StoreWord(d, UVPT_PDX, MkPte(d, PTE_U));
    mm.ReLabel(mm.v.kind[d := EnvDir], mm.v.fl);
    assert mm.v.mem == MakeDir(a, d).mem;
    assert mm.v == MakeDir(a, d);
  }
}
