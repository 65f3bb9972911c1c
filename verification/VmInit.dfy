/** The state that mem_init and page_init leave to the memory manager, and that it is well formed. */
module VmInit {
  import opened Wrappers
  import opened Mmu
  import opened VmState
  import opened VmTlb
  import opened PageList

  function Reversed(s: seq<nat>): (r: seq<nat>)
    ensures |r| == |s| && forall j :: 0 <= j < |s| ==> r[j] == s[|s| - 1 - j]
  {
    seq(|s|, j requires 0 <= j < |s| => s[|s| - 1 - j])
  }

  /** The uses of frames at that point: the available pages are free, the others reserved. */
  function BootKinds(n: nat, basemem: nat, k: nat, kern: nat): (r: seq<Kind>)
    ensures |r| == n
    ensures forall f :: 0 <= f < n ==>
      r[f] == if f == kern then KernDir else if Avail(f, basemem, k) then Kind.Free else Reserved
  {
    seq(n, f requires 0 <= f < n => if f == kern then KernDir else if Avail(f, basemem, k) then Kind.Free else Reserved)
  }

  /** kern_pgdir when page_init runs: cleared, and mapped into itself at UVPT. */
  function BootDir(kern: nat): Row
    requires kern < 0x10_0000
  {
    ZeroRow()[UVPT_PDX := MkPte(kern, PTE_U)]
  }

  /** Memory after page_init, whose list and counts are those of pages. */
  ghost function BootVm(mem: seq<Row>, data: seq<Bytes>, pages: seq<PageInfo>, head: Option<nat>, basemem: nat, k: nat,
                        kern: nat): Vm
  {
    Vm(mem, data, pages, head, kern, kern, None, map[], BootKinds(|mem|, basemem, k, kern),
       Reversed(FreeBelow(|mem|, basemem, k)))
  }

  /**
   * page_init establishes the invariant of the memory manager, if kern_pgdir lies in a page that it keeps
   * off the list.
   */
  lemma PageInitEstablishesInv(mem: seq<Row>, data: seq<Bytes>, pages: seq<PageInfo>, head: Option<nat>, basemem: nat,
                               k: nat, kern: nat)
    requires 0 < |mem| <= 0x10_0000 && |data| == |mem| && |pages| == |mem|
    requires 0 < kern < |mem| && !Avail(kern, basemem, k) && mem[kern] == BootDir(kern)
    requires IsList(pages, head, FreeBelow(|mem|, basemem, k))
    requires forall i :: 0 <= i < |pages| ==> pages[i].ref == if Avail(i, basemem, k) then 0 else 1
    requires forall i :: 0 <= i < |pages| && !Avail(i, basemem, k) ==> pages[i].link == None
    ensures var v := BootVm(mem, data, pages, head, basemem, k, kern); Inv(v) && Coherent(v)
  {
    var v := BootVm(mem, data, pages, head, basemem, k, kern);
    BootShape(v, kern);
    hide IsList, Shape, FreeListOk, CountsOk;
    BootFreeList(v, basemem, k);
    InvIntro(v);
  }

  lemma BootShape(v: Vm, kern: nat)
    requires Lengths(v) && 0 < kern < |v.mem| && v.kern == kern && v.mem[kern] == BootDir(kern)
    requires forall f :: 0 <= f < |v.mem| ==> (v.kind[f] == KernDir <==> f == kern)
    requires forall f :: 0 <= f < |v.mem| ==> v.kind[f] == KernDir || v.kind[f] == Kind.Free || v.kind[f] == Reserved
    requires v.kind[0] == Reserved
    requires forall f :: 0 <= f < |v.mem| && v.kind[f] == Kind.Free ==> v.pages[f].ref == 0
    ensures Shape(v) && CountsOk(v)
  {
    forall d: nat, i: nat | d < |v.mem| && i < 1024 && Owns(v.kind[d], i) ensures PdeOk(v, d, i) {
    }
  }

  /** fl is list, turned round. */
  lemma ListIsFreeList(v: Vm, list: seq<nat>)
    requires Lengths(v) && v.fl == Reversed(list) && IsList(v.pages, v.head, list)
    requires forall f :: 0 <= f < |v.mem| ==> (v.kind[f] == Kind.Free <==> f in list)
    ensures ListSound(v) && ListLinked(v)
  {
    forall j | 0 <= j < |v.fl| ensures v.fl[j] < |v.mem| && v.kind[v.fl[j]] == Kind.Free {
      assert v.fl[j] in list;
    }
    forall j: nat | j < |v.fl| ensures LinkOk(v, j) {
      assert LinksOn(v.pages, list, |list| - 1 - j);
    }
  }

  lemma BootFreeList(v: Vm, basemem: nat, k: nat)
    requires Lengths(v) && v.fl == Reversed(FreeBelow(|v.mem|, basemem, k))
    requires IsList(v.pages, v.head, FreeBelow(|v.mem|, basemem, k))
    requires forall f :: 0 <= f < |v.mem| ==> (v.kind[f] == Kind.Free <==> Avail(f, basemem, k))
    requires forall f :: 0 <= f < |v.mem| && !Avail(f, basemem, k) ==> v.pages[f].link == None
    ensures FreeListOk(v)
  {
    var list := FreeBelow(|v.mem|, basemem, k);
    hide FreeBelow, IsList, Avail, ListLinked, ListSound;
    FreeBelowIsExact(|v.mem|, basemem, k);
    ListIsFreeList(v, list);
    forall f | 0 <= f < |v.mem| && v.kind[f] == Kind.Free ensures f in v.fl {
      assert f in list;
      var j :| 0 <= j < |list| && list[j] == f;
      assert v.fl[|list| - 1 - j] == f;
    }
  }
}
