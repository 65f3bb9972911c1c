/** The translation cache of one CPU: when page_remove and page_insert leave it in step with the tables. */
module VmTlb {
  import opened Wrappers
  import opened Mmu
  import opened VmState
  import opened VmAlloc
  import opened VmPaging
  import opened VmPagingProofs
  import opened VmSpaces

  /** Every cached translation names the frame that the directory in cr3 maps the page to. */
  ghost predicate Coherent(v: Vm)
    requires Sizes(v)
  {
    && v.cr3 < |v.mem| && IsDir(v.kind[v.cr3])
    && (forall p :: p in v.tlb ==>
          Walk(v.mem, v.cr3, p).Some? && FrameOf(Walk(v.mem, v.cr3, p).value) == v.tlb[p])
  }

  /** lcr3 loads a directory and empties the cache. */
  ghost function LoadCr3(v: Vm, d: nat): (r: Vm)
    ensures r.mem == v.mem && r.data == v.data && r.pages == v.pages && r.head == v.head && r.kern == v.kern
    ensures r.kind == v.kind && r.fl == v.fl && r.cur == v.cur && r.cr3 == d && r.tlb == map[]
  {
    v.(cr3 := d, tlb := map[])
  }

  /** What the CPU has in cr3 and in its cache is no part of the invariant. */
  lemma InvIgnoresCpu(v: Vm, w: Vm)
    requires Inv(v) && Lengths(w)
    requires w.mem == v.mem && w.pages == v.pages && w.kind == v.kind && w.kern == v.kern
    requires w.head == v.head && w.fl == v.fl
    ensures Inv(w) && SameView(v, w) && SameUser(v, w)
  {
    hide Inv, Shape, FreeListOk, CountsOk, SameView, SameUser;
    ShapeIgnoresOthers(v, w);
    SameViewSameUser(v, w);
    FreeListIgnoresOthers(v, w);
    CountsIgnoreOthers(v, w, 0);
    InvIntro(w);
  }

  /** The hardware may cache any page that is mapped. */
  lemma FillKeepsCoherent(v: Vm, p: VPage)
    requires Inv(v) && Coherent(v) && Walk(v.mem, v.cr3, p).Some?
    ensures Coherent(v.(tlb := v.tlb[p := FrameOf(Walk(v.mem, v.cr3, p).value)]))
  {
  }

  /** Pages stay coherent in a space whose translations stay. */
  lemma SameViewKeepsCoherent(v: Vm, w: Vm)
    requires Sizes(v) && Sizes(w) && SameView(v, w) && Coherent(v) && w.cr3 == v.cr3 && w.tlb == v.tlb
    ensures Coherent(w)
  {
    forall p | p in w.tlb
      ensures Walk(w.mem, w.cr3, p).Some? && FrameOf(Walk(w.mem, w.cr3, p).value) == w.tlb[p]
    {
      assert Tracked(v, v.cr3, p);
    }
  }

  lemma OthersKeepCoherent(v: Vm, w: Vm, d: nat)
    requires Sizes(v) && Sizes(w) && OthersKeep(v, w, d) && Coherent(v) && v.cr3 != d
    requires w.cr3 == v.cr3 && w.tlb.Keys <= v.tlb.Keys && forall p :: p in w.tlb ==> w.tlb[p] == v.tlb[p]
    ensures Coherent(w)
  {
    forall p | p in w.tlb
      ensures Walk(w.mem, w.cr3, p).Some? && FrameOf(Walk(w.mem, w.cr3, p).value) == w.tlb[p]
    {
      assert p in v.tlb && Tracked(v, v.cr3, p);
    }
  }

  /** tlb_invalidate takes effect: it is skipped if another environment is current. */
  ghost predicate Flushes(v: Vm, d: nat) {
    v.cur.None? || v.cur.value == d
  }

  /** An update at p keeps every cached translation in step but perhaps that of p. */
  lemma UpdatedCoherent(v: Vm, w: Vm, d: nat, p: VPage, e: Option<Word>)
    requires Sizes(v) && Sizes(w) && UserPage(p) && Updated(v, w, d, p, e) && Coherent(v) && w.cr3 == v.cr3
    requires w.tlb == v.tlb || w.tlb == v.tlb - {p}
    requires Tracked(v, d, p)
    ensures Coherent(w) <==>
            d != v.cr3 || p !in w.tlb || (e.Some? && FrameOf(e.value) == v.tlb[p])
  {
    forall q | q in w.tlb && (q != p || d != v.cr3)
      ensures Walk(w.mem, w.cr3, q).Some? && FrameOf(Walk(w.mem, w.cr3, q).value) == w.tlb[q]
    {
      assert q in v.tlb && Tracked(v, v.cr3, q);
    }
    assert Walk(w.mem, d, p) == e;
  }

  /**
   * After page_remove of a mapped page the cache is in step exactly if the page is not mapped in the
   * address space in force, was not cached, or tlb_invalidate did not skip the flush.
   */
  lemma RemoveCoherent(v: Vm, d: nat, p: VPage)
    requires Inv(v) && Mapped(v, d, p) && Coherent(v)
    ensures Inv(Remove(v, d, p))
    ensures Coherent(Remove(v, d, p)) <==> d != v.cr3 || p !in v.tlb || Flushes(v, d)
  {
    hide Inv, Shape, FreeListOk, CountsOk, Updated, Coherent;
    MappedFacts(v, d, p);
    RemoveKeepsInv(v, d, p);
    var w := Remove(v, d, p);
    assert w.tlb == if Flushes(v, d) then v.tlb - {p} else v.tlb;
    UpdatedCoherent(v, w, d, p, None);
  }

  /**
   * After a successful page_insert the cache is in step under the same condition, or if the page was mapped
   * to the same frame, where only permissions change.
   */
  lemma InsertCoherent(v: Vm, d: nat, pp: nat, p: VPage, perm: nat)
    requires CanInsert(v, d, pp, p, perm) && Coherent(v) && !NoTable(v, d, p)
    requires v.pages[pp].ref < 0xFFFF || SamePage(v, d, pp, p)
    ensures var w := Insert(v, d, pp, p, perm).0;
      Inv(w) && (Coherent(w) <==> d != v.cr3 || p !in v.tlb || SamePage(v, d, pp, p) || Flushes(v, d))
  {
    var w := Insert(v, d, pp, p, perm).0;
    assert d == v.cr3 && p in v.tlb ==> Walk(v.mem, d, p).Some? && FrameOf(Walk(v.mem, d, p).value) == v.tlb[p];
    hide Inv, Shape, FreeListOk, CountsOk, Updated, Coherent;
    InsertUpdates(v, d, pp, p, perm);
    InsertCpu(v, d, pp, p, perm);
    UpdatedCoherent(v, w, d, p, Some(MkPte(pp, perm)));
  }

  /** v as a CPU with these registers sees it. */
  ghost function SeenBy(v: Vm, cr3: nat, tlb: map<VPage, nat>): Vm { v.(cr3 := cr3, tlb := tlb) }

  lemma UpdateSeenBy(v: Vm, w: Vm, d: nat, p: VPage, e: Option<Word>, cr3: nat, tlb: map<VPage, nat>)
    requires Sizes(v) && Sizes(w) && UserPage(p) && Updated(v, w, d, p, e) && Tracked(v, d, p)
    requires Coherent(SeenBy(v, cr3, tlb))
    ensures Coherent(SeenBy(w, cr3, tlb)) <==> d != cr3 || p !in tlb || (e.Some? && FrameOf(e.value) == tlb[p])
  {
    var x, y := SeenBy(v, cr3, tlb), SeenBy(w, cr3, tlb);
    assert Sizes(x) && Sizes(y) && Updated(x, y, d, p, e) && Tracked(x, d, p);
    hide Updated, Coherent, Sizes;
    UpdatedCoherent(x, y, d, p, e);
  }

  /**
   * No CPU tells another to flush: the cache of another CPU is in step after page_remove exactly if that CPU
   * runs on another directory or has not cached the page.
   */
  lemma RemoveSeenElsewhere(v: Vm, d: nat, p: VPage, cr3: nat, tlb: map<VPage, nat>)
    requires Inv(v) && Mapped(v, d, p) && Coherent(SeenBy(v, cr3, tlb))
    ensures Inv(Remove(v, d, p))
    ensures Coherent(SeenBy(Remove(v, d, p), cr3, tlb)) <==> d != cr3 || p !in tlb
  {
    hide Inv, Shape, FreeListOk, CountsOk, Updated, Coherent;
    MappedFacts(v, d, p);
    RemoveKeepsInv(v, d, p);
    UpdateSeenBy(v, Remove(v, d, p), d, p, None, cr3, tlb);
  }

  /** ... and after page_insert exactly under the same condition, or if the page was mapped to the same frame. */
  lemma InsertSeenElsewhere(v: Vm, d: nat, pp: nat, p: VPage, perm: nat, cr3: nat, tlb: map<VPage, nat>)
    requires CanInsert(v, d, pp, p, perm) && !NoTable(v, d, p) && Coherent(SeenBy(v, cr3, tlb))
    requires v.pages[pp].ref < 0xFFFF || SamePage(v, d, pp, p)
    ensures var w := Insert(v, d, pp, p, perm).0;
      Inv(w) && (Coherent(SeenBy(w, cr3, tlb)) <==> d != cr3 || p !in tlb || SamePage(v, d, pp, p))
  {
    var w := Insert(v, d, pp, p, perm).0;
    assert d == cr3 && p in tlb ==> Walk(v.mem, d, p).Some? && FrameOf(Walk(v.mem, d, p).value) == tlb[p];
    hide Inv, Shape, FreeListOk, CountsOk, Updated, Coherent;
    InsertUpdates(v, d, pp, p, perm);
    UpdateSeenBy(v, w, d, p, Some(MkPte(pp, perm)), cr3, tlb);
  }

  /** page_insert touches the cache only through page_remove. */
  lemma InsertCpu(v: Vm, d: nat, pp: nat, p: VPage, perm: nat)
    requires CanInsert(v, d, pp, p, perm) && !NoTable(v, d, p)
    ensures var w := Insert(v, d, pp, p, perm).0;
      && w.cr3 == v.cr3
      && (w.tlb == v.tlb || w.tlb == v.tlb - {p})
      && (Mapped(v, d, p) && !SamePage(v, d, pp, p) ==> w.tlb == if Flushes(v, d) then v.tlb - {p} else v.tlb)
  {
    assert Owns(v.kind[d], p.pdx);
    PgdirWalkKeepsInv(v, d, p, true);
    WalkCpu(v, d, p);
    hide Inv, Shape, FreeListOk, CountsOk, SameView, Sizes, WalkedKinds;
    var (u, r) := PgdirWalk(v, d, p, true);
    InsertAtCpu(u, d, pp, p, perm, r.value);
    if Mapped(v, d, p) {
      MappedFacts(v, d, p);
    }
  }

  lemma WalkCpu(v: Vm, d: nat, p: VPage)
    requires Lengths(v) && d < |v.mem|
    ensures var u := PgdirWalk(v, d, p, true).0; u.cr3 == v.cr3 && u.tlb == v.tlb && u.cur == v.cur
  {
  }

  lemma InsertAtCpu(u: Vm, d: nat, pp: nat, p: VPage, perm: nat, t: nat)
    requires Lengths(u) && d < |u.mem| && pp < |u.mem| && perm < 4096 && t < |u.mem|
    ensures var w := InsertAt(u, d, pp, p, perm, t);
      && w.cr3 == u.cr3
      && (w.tlb == u.tlb || w.tlb == u.tlb - {p})
      && (LookupFrame(u, d, p).Some? && LookupFrame(u, d, p).value < |u.mem| &&
          FrameOf(u.mem[t][p.ptx]) != pp && Present(u.mem[t][p.ptx]) ==>
            w.tlb == if Flushes(u, d) then u.tlb - {p} else u.tlb)
  {
  }
}
