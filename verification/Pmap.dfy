/** The allocator and page-table code of kern/pmap.c, in place on the arrays it works on. */
module Pmap {
  import opened Wrappers
  import opened Errors
  import opened Mmu
  import opened VmState
  import opened VmAlloc
  import opened VmPaging
  import opened VmPagingProofs
  import VmTlb

  class MemoryManager {
    const phys: array2<Word>          // physical memory: a row per frame, 1024 words each
    const data: array2<Byte>          // the same frames as bytes, 4096 each
    const pages: array<PageInfo>      // pages
    var pageFreeList: Option<nat>     // page_free_list
    const kernPgdir: nat              // kern_pgdir
    var cr3: nat                      // the directory in force
    var curPgdir: Option<nat>         // curenv->env_pgdir
    var tlb: map<VPage, nat>          // cached translations

    ghost var v: Vm                   // the whole state as a value

    /** The arrays and fields hold the state v. */
    ghost predicate Repr()
      reads this, phys, data, pages
    {
      && Lengths(v)
      && phys.Length0 == |v.mem| && phys.Length1 == 1024
      && (forall f, i :: 0 <= f < |v.mem| && 0 <= i < 1024 ==> phys[f, i] == v.mem[f][i])
      && data.Length0 == |v.mem| && data.Length1 == 4096
      && (forall f, i :: 0 <= f < |v.mem| && 0 <= i < 4096 ==> data[f, i] == v.data[f][i])
      && pages[..] == v.pages
      && pageFreeList == v.head && kernPgdir == v.kern && cr3 == v.cr3 && curPgdir == v.cur && tlb == v.tlb
    }

    /** The state is represented and well formed. */
    ghost predicate Valid()
      reads this, phys, data, pages
    {
      Repr() && Inv(v)
    }

    /** *pte. */
    method LoadWord(f: nat, i: Index) returns (w: Word)
      requires Repr() && f < |v.mem|
      ensures w == v.mem[f][i]
    {
      w := phys[f, i];
    }

    /** *pte = w. */
    method StoreWord(f: nat, i: Index, w: Word)
      requires Repr() && f < |v.mem|
      modifies this, phys
      ensures Repr() && v == SetWord(old(v), f, i, w)
    {
      phys[f, i] := w;
      v := SetWord(v, f, i, w);
    }

    method StoreRef(pp: nat, ref: Ref16)
      requires Repr() && pp < |v.mem|
      modifies this, pages
      ensures Repr() && v == SetRef(old(v), pp, ref)
    {
      pages[pp] := PageInfo(pages[pp].link, ref);
      v := SetRef(v, pp, ref);
    }

    /** pp->pp_ref += 1. */
    method Incref(pp: nat)
      requires Repr() && pp < |v.mem|
      modifies this, pages
      ensures Repr() && v == SetRef(old(v), pp, Inc16(old(v).pages[pp].ref))
    {
      StoreRef(pp, Inc16(pages[pp].ref));
    }

    method StoreLink(pp: nat, link: Option<nat>)
      requires Repr() && pp < |v.mem|
      modifies this, pages
      ensures Repr() && v == old(v).(pages := old(v).pages[pp := PageInfo(link, old(v).pages[pp].ref)])
    {
      pages[pp] := PageInfo(link, pages[pp].ref);
      v := v.(pages := v.pages[pp := PageInfo(link, v.pages[pp].ref)]);
    }

    /** memset(page2kva(pp), 0, PGSIZE). */
    method ZeroPage(pp: nat)
      requires Repr() && pp < |v.mem|
      modifies this, phys, data
      ensures Repr()
      ensures v == old(v).(mem := old(v).mem[pp := ZeroRow()], data := old(v).data[pp := ZeroBytes()])
    {
      forall i | 0 <= i < 1024 { phys[pp, i] := 0; }
      forall i | 0 <= i < 4096 { data[pp, i] := 0; }
      v := v.(mem := v.mem[pp := ZeroRow()], data := v.data[pp := ZeroBytes()]);
    }

    lemma AllocSteps(v: Vm, flags: int)
      requires Inv(v)
      ensures var (w, r) := Alloc(v, flags); Inv(w) && SameView(v, w) && (r == None <==> NoneFree(v))
      ensures v.head == None <==> NoneFree(v)
      ensures v.head.Some? ==> v.head.value < |v.mem| && v.fl != [] && v.fl[|v.fl| - 1] == v.head.value
    {
      hide Inv, SameView, Alloc;
      HeadIsFree(v);
      AllocKeepsInv(v, flags);
    }

    /** page_alloc. */
    method PageAlloc(flags: int) returns (pp: Option<nat>)
      requires Valid()
      modifies this, phys, data, pages
      ensures Valid()
      ensures (v, pp) == Alloc(old(v), flags)
      ensures pp == None <==> old(NoneFree(v))
      ensures SameView(old(v), v)
    {
      hide Inv, SameView, Shape, CountsOk, FreeListOk, NoneFree;
      ghost var w := Alloc(v, flags).0;
      AllocSteps(v, flags);
      if pageFreeList == None {
        return None;
      }
      var f := pageFreeList.value;
      pageFreeList := pages[f].link;
      v := v.(head := v.pages[f].link);
      assert Repr();
      hide Repr;
      StoreLink(f, None);
      if flags != 0 {
        ZeroPage(f);
      } else {
        StoreRef(f, 0);
      }
      assert v.pages == old(v).pages[f := PageInfo(None, if flags != 0 then old(v).pages[f].ref else 0)];
      ReLabel(v.kind[f := Held], v.fl[..|v.fl| - 1]);
      assert v == w;
      hide Alloc;
      pp := Some(f);
    }

    /** Records a change of use; no memory changes. */
    ghost method ReLabel(kind: seq<Kind>, fl: seq<nat>)
      requires Repr() && |kind| == |v.mem|
      modifies this`v
      ensures Repr() && v == old(v).(kind := kind, fl := fl)
    {
      v := v.(kind := kind, fl := fl);
    }

    /** page_free; the kernel panics if the page is referenced or already in a list. */
    method PageFree(pp: nat)
      requires Repr() && pp < |v.mem| && v.pages[pp] == PageInfo(None, 0)
      modifies this, pages
      ensures Repr() && v == Push(old(v), pp)
      ensures old(Inv(v) && v.kind[pp] == Held) ==> Inv(v) && SameView(old(v), v)
    {
      if Inv(v) && v.kind[pp] == Held {
        FreeKeepsInv(v, pp);
      }
      hide Inv, SameView;
      pages[pp] := PageInfo(pageFreeList, pages[pp].ref);
      pageFreeList := Some(pp);
      v := Push(v, pp);
    }

    /** page_decref. */
    method PageDecref(pp: nat)
      requires Repr() && pp < |v.mem| && (v.pages[pp].ref == 1 ==> v.pages[pp].link == None)
      modifies this, pages
      ensures Repr() && v == Decref(old(v), pp)
    {
      hide Inv, SameView;
      StoreRef(pp, Dec16(pages[pp].ref));
      if pages[pp].ref == 0 {
        PageFree(pp);
      }
    }

    /** pgdir_walk: the row of phys that holds the entry for va. */
    method PgdirWalk(d: nat, va: Word, create: bool) returns (r: Option<nat>)
      requires Valid() && d < |v.mem| && IsDir(v.kind[d])
      modifies this, phys, data, pages
      ensures Repr() && (v, r) == VmPaging.PgdirWalk(old(v), d, PageOf(va), create)
      ensures Inv(v) <==> old(Walkable(v, d, Pdx(va), create))
      ensures Inv(v) ==> SameView(old(v), v) && (r.Some? ==> TableFor(v, d, Pdx(va), r.value))
      ensures r == None <==> old(v.mem[d][Pdx(va)] == 0 && (!create || NoneFree(v)))
    {
      PgdirWalkKeepsInv(v, d, PageOf(va), create);
      SlotIsZeroOrPresent(v, d, Pdx(va));
      hide Walkable, TableFor;
      hide Inv, SameView, Shape, FreeListOk, CountsOk, Sizes;
      var pde := phys[d, Pdx(va)];
      if pde == 0 && !create {
        return None;
      } else if Present(pde) {
        return Some(FrameOf(pde));
      } else if pde == 0 && create {
        var pp := PageAlloc(1);
        if pp == None {
          return None;
        }
        Incref(pp.value);
        StoreWord(d, Pdx(va), MkPte(pp.value, PTE_U + PTE_W));
        ReLabel(v.kind[pp.value := Table(d, Pdx(va))], v.fl);
        return pp;
      }
      return None;
    }

    /** page_lookup, and the row that holds the entry. */
    method PageLookup(d: nat, va: Word) returns (pp: Option<nat>, pte: nat)
      requires Valid() && d < |v.mem| && IsDir(v.kind[d])
      ensures pp == LookupFrame(v, d, PageOf(va))
      ensures pp.Some? ==> pte == FrameOf(v.mem[d][Pdx(va)]) && pte < |v.mem|
    {
      SlotIsZeroOrPresent(v, d, Pdx(va));
      hide Inv, Shape, FreeListOk, CountsOk;
      var pde := phys[d, Pdx(va)];
      if !Present(pde) {
        return None, 0;
      }
      pte := FrameOf(pde);
      pp := Some(FrameOf(phys[pte, Ptx(va)]));
    }

    /** check_va2pa: None stands for ~0. */
    method CheckVa2Pa(d: nat, va: Word) returns (r: Option<nat>)
      requires Valid() && d < |v.mem| && IsDir(v.kind[d])
      ensures r == match Walk(v.mem, d, PageOf(va)) case None => None case Some(e) => Some(FrameOf(e) * 4096)
    {
      if Present(v.mem[d][Pdx(va)]) {
        WalkTable(v, d, Pdx(va));
      }
      var pde := phys[d, Pdx(va)];
      if !Present(pde) {
        return None;
      }
      var pte := phys[FrameOf(pde), Ptx(va)];
      if !Present(pte) {
        return None;
      }
      r := Some(FrameOf(pte) * 4096);
    }

    /** A store to linear address va through the directory in force; false stands for a page fault. */
    method StoreByte(va: Word, b: Byte) returns (ok: bool)
      requires Valid() && v.cr3 < |v.mem| && IsDir(v.kind[v.cr3])
      modifies this, data
      ensures Repr()
      ensures var e := Walk(old(v).mem, old(v).cr3, PageOf(va));
        && (ok <==> e.Some? && FrameOf(e.value) < |old(v).mem|)
        && v == if ok then PutByte(old(v), FrameOf(e.value), va % 4096, b) else old(v)
    {
      var pa := CheckVa2Pa(cr3, va);
      hide Inv, Walk;
      if pa == None || pa.value / 4096 >= data.Length0 {
        return false;
      }
      data[pa.value / 4096, va % 4096] := b;
      v := PutByte(v, pa.value / 4096, va % 4096, b);
      return true;
    }

    /** lcr3: a new directory in force, and an empty cache. */
    method LoadCr3(d: nat)
      requires Repr()
      modifies this
      ensures Repr() && v == VmTlb.LoadCr3(old(v), d)
    {
      cr3, tlb := d, map[];
      v := VmTlb.LoadCr3(v, d);
    }

    /** A change of curenv, or of its env_pgdir. */
    method SetCurrent(cur: Option<nat>)
      requires Repr()
      modifies this
      ensures Repr() && v == old(v).(cur := cur)
    {
      curPgdir := cur;
      v := v.(cur := cur);
    }

    /** tlb_invalidate. */
    method TlbInvalidate(d: nat, va: Word)
      requires Repr()
      modifies this
      ensures Repr() && v == Invalidate(old(v), d, PageOf(va))
    {
      if curPgdir == None || curPgdir.value == d {
        tlb := tlb - {PageOf(va)};
      }
      v := Invalidate(v, d, PageOf(va));
    }

    /**
     * page_remove.  With nothing mapped at va it is right only if there is no page table either; see
     * RemoveUnmapped.
     */
    method PageRemove(d: nat, va: Word)
      requires Valid() && d < |v.mem| && IsDir(v.kind[d]) && va < UTOP
      modifies this, phys, pages
      ensures Repr() && v == Remove(old(v), d, PageOf(va))
      ensures old(Mapped(v, d, PageOf(va))) ==> Inv(v) && Updated(old(v), v, d, PageOf(va), None)
      ensures old(v.mem[d][Pdx(va)]) == 0 ==> v == old(v)
    {
      var p := PageOf(va);
      PageOfIsPageNumber(va, va);
      RemoveInBounds(v, d, p);
      if Mapped(v, d, p) {
        RemoveKeepsInv(v, d, p);
      }
      hide Inv, Shape, FreeListOk, CountsOk, Updated, Mapped, Sizes;
      var pp, pte := PageLookup(d, va);
      if pp == None {
        return;
      }
      StoreWord(pte, Ptx(va), 0);
      PageDecref(pp.value);
      TlbInvalidate(d, va);
    }

    /** page_insert, also of page 0: 0, or -E_NO_MEM if a page table is needed and cannot be had. */
    method PageInsert(d: nat, pp: nat, va: Word, perm: nat) returns (r: int)
      requires Repr() && MayInsert(v, d, pp, PageOf(va), perm) && va < UTOP
      modifies this, phys, data, pages
      ensures Repr() && (v, r == 0) == Insert(old(v), d, pp, PageOf(va), perm)
      ensures r == 0 || r == -E_NO_MEM
      ensures r == 0 <==> !old(NoTable(v, d, PageOf(va)))
      ensures r != 0 ==> v == old(v)
      ensures r == 0 && pp != 0 && old(v.pages[pp].ref < 0xFFFF || SamePage(v, d, pp, PageOf(va))) ==>
        Inv(v) && Updated(old(v), v, d, PageOf(va), Some(MkPte(pp, perm)))
      ensures Inv(v) <==> r != 0 || (pp != 0 && old(v.pages[pp].ref < 0xFFFF || SamePage(v, d, pp, PageOf(va))))
    {
      InsertIsExact(v, d, pp, PageOf(va), perm);
      if pp != 0 {
        InsertUpdates(v, d, pp, PageOf(va), perm);
      }
      assert Owns(v.kind[d], Pdx(va));
      hide Repr, Shape, FreeListOk, CountsOk, Sizes, Updated, NoTable, SamePage, SameView, InsertedKinds;
      var t := PgdirWalk(d, va, true);
      if t == None {
        return -E_NO_MEM;
      }
      InsertInto(d, pp, va, perm, t.value);
      return 0;
    }

    /** The rest of page_insert, with the entry at hand. */
    method InsertInto(d: nat, pp: nat, va: Word, perm: nat, t: nat)
      requires Valid() && d < |v.mem| && IsDir(v.kind[d]) && va < UTOP && pp < |v.mem| && perm < 4096
      requires t < |v.mem| && v.kind[t] == Table(d, Pdx(va))
      modifies this, phys, data, pages
      ensures Repr() && v == InsertAt(old(v), d, pp, PageOf(va), perm, t)
    {
      hide Inv, Shape, FreeListOk, CountsOk, Sizes, Updated;
      var pte := phys[t, Ptx(va)];
      hide Repr;
      if FrameOf(pte) == pp {
        StoreWord(t, Ptx(va), MkPte(pp, perm));
      } else {
        if Present(pte) {
          PageRemove(d, va);
        }
        StoreWord(t, Ptx(va), MkPte(pp, perm));
        Incref(pp);
        ReLabel(v.kind[pp := Leaf], v.fl);
      }
    }
  }
}
