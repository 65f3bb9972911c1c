/** pgdir_walk, page_lookup, page_insert, page_remove and tlb_invalidate of kern/pmap.c on values. */
module VmPaging {
  import opened Wrappers
  import opened Mmu
  import opened VmState
  import opened VmAlloc

  ghost function SetWord(v: Vm, t: nat, j: Index, w: Word): (r: Vm)
    requires Lengths(v) && t < |v.mem|
    ensures Lengths(r) && |r.mem| == |v.mem|
  {
    v.(mem := v.mem[t := v.mem[t][j := w]])
  }

  /** A store to byte o of frame f. */
  ghost function PutByte(v: Vm, f: nat, o: nat, b: Byte): (r: Vm)
    requires Lengths(v) && f < |v.mem| && o < 4096
    ensures Lengths(r) && |r.mem| == |v.mem|
  {
    v.(data := v.data[f := v.data[f][o := b]])
  }

  /** The second half of pgdir_walk: counts the new table t and points slot i of d to it. */
  ghost function PointTo(v: Vm, d: nat, i: Index, t: nat): (r: Vm)
    requires Lengths(v) && d < |v.mem| && t < |v.mem|
    ensures Lengths(r) && |r.mem| == |v.mem|
  {
    var w := SetRef(v, t, Inc16(v.pages[t].ref));
    SetWord(w, d, i, MkPte(t, PTE_U + PTE_W)).(kind := w.kind[t := Table(d, i)])
  }

  /**
   * pgdir_walk: the frame of the page table for p, made on demand when create is set.  KADDR panics on a
   * directory entry beyond physical memory; no such entry occurs under the invariant.
   */
  ghost function PgdirWalk(v: Vm, d: nat, p: VPage, create: bool): (r: (Vm, Option<nat>))
    requires Lengths(v) && d < |v.mem|
    ensures Lengths(r.0) && |r.0.mem| == |v.mem| && (r.1.Some? ==> r.1.value < |v.mem|)
  {
    var pde := v.mem[d][p.pdx];
    if Present(pde) then (v, if FrameOf(pde) < |v.mem| then Some(FrameOf(pde)) else None)
    else if pde == 0 && create then
      var (w, r) := Alloc(v, 1);
      if r.None? then (v, None) else (PointTo(w, d, p.pdx, r.value), r)
    else (v, None)
  }

  /** tlb_invalidate: forgets p only if the directory is the current environment's, or there is none. */
  ghost function Invalidate(v: Vm, d: nat, p: VPage): Vm {
    if v.cur.None? || v.cur.value == d then v.(tlb := v.tlb - {p}) else v
  }

  /** page_lookup does not test PTE_P: with a table in place it names a frame whatever the entry holds. */
  ghost function LookupFrame(v: Vm, d: nat, p: VPage): Option<nat>
    requires Lengths(v) && d < |v.mem|
  {
    var pde := v.mem[d][p.pdx];
    if Present(pde) && FrameOf(pde) < |v.mem| then Some(FrameOf(v.mem[FrameOf(pde)][p.ptx])) else None
  }

  /** page_remove.  pa2page panics on a frame beyond physical memory. */
  ghost function Remove(v: Vm, d: nat, p: VPage): (r: Vm)
    requires Lengths(v) && d < |v.mem|
    ensures Lengths(r) && |r.mem| == |v.mem|
  {
    match LookupFrame(v, d, p)
    case None => v
    case Some(f) =>
      if f >= |v.mem| then v
      else Invalidate(Decref(SetWord(v, FrameOf(v.mem[d][p.pdx]), p.ptx, 0), f), d, p)
  }

  /** The mapping step that page_insert ends with: writes the entry and counts it. */
  ghost function MapPage(v: Vm, t: nat, pp: nat, j: Index, perm: nat): (r: Vm)
    requires Lengths(v) && t < |v.mem| && pp < |v.mem| && perm < 4096
    ensures Lengths(r) && |r.mem| == |v.mem|
  {
    var w := SetRef(v, pp, Inc16(v.pages[pp].ref));
    SetWord(w, t, j, MkPte(pp, perm)).(kind := w.kind[pp := Leaf])
  }

  /** page_insert; the flag is false for -E_NO_MEM. */
  ghost function Insert(v: Vm, d: nat, pp: nat, p: VPage, perm: nat): (r: (Vm, bool))
    requires Lengths(v) && d < |v.mem| && pp < |v.mem| && perm < 4096
    ensures Lengths(r.0) && |r.0.mem| == |v.mem|
  {
    var (w, r) := PgdirWalk(v, d, p, true);
    if r.None? then (w, false) else (InsertAt(w, d, pp, p, perm, r.value), true)
  }

  /** page_insert once the page table t is there. */
  ghost function InsertAt(v: Vm, d: nat, pp: nat, p: VPage, perm: nat, t: nat): (r: Vm)
    requires Lengths(v) && d < |v.mem| && pp < |v.mem| && perm < 4096 && t < |v.mem|
    ensures Lengths(r) && |r.mem| == |v.mem|
  {
    var pte := v.mem[t][p.ptx];
    if FrameOf(pte) == pp then SetWord(v, t, p.ptx, MkPte(pp, perm))
    else MapPage(if Present(pte) then Remove(v, d, p) else v, t, pp, p.ptx, perm)
  }

  /** What page_insert may be called with: a directory, a user page, and a page that is not free. */
  ghost predicate CanInsert(v: Vm, d: nat, pp: nat, p: VPage, perm: nat) {
    && Inv(v) && d < |v.mem| && IsDir(v.kind[d]) && UserPage(p)
    && pp < |v.mem| && (v.kind[pp] == Held || v.kind[pp] == Leaf) && perm < 4096
  }

  /** Address space d maps p as e says, and every other page of every address space as before. */
  ghost predicate Updated(v: Vm, w: Vm, d: nat, p: VPage, e: Option<Word>)
    requires Sizes(v) && Sizes(w)
  {
    && SameDirs(v, w)
    && (forall d': nat, p': VPage :: Tracked(v, d', p') ==>
          Walk(w.mem, d', p') == if d' == d && p' == p then e else Walk(v.mem, d', p'))
  }

  /** w is v after slot i of directory d, empty so far, was made to point to the cleared page t. */
  ghost predicate NewTable(v: Vm, w: Vm, d: nat, i: Index, t: nat)
    requires Sizes(v) && Sizes(w)
  {
    && d < |v.mem| && Owns(v.kind[d], i) && v.mem[d][i] == 0
    && t < |v.mem| && v.kind[t] == Held && v.mem[t] == ZeroRow()
    && w.mem == v.mem[d := v.mem[d][i := MkPte(t, PTE_U + PTE_W)]]
    && w.kind == v.kind[t := Table(d, i)] && w.kern == v.kern
  }

  lemma NewTableKeepsDirs(v: Vm, w: Vm, d: nat, i: Index, t: nat)
    requires Shape(v) && Sizes(w) && NewTable(v, w, d, i, t)
    ensures DirsOk(w) && TablesOk(w)
  {
    forall d': nat, i': nat | d' < |w.mem| && i' < 1024 && Owns(w.kind[d'], i') ensures PdeOk(w, d', i') {
      assert PdeOk(v, d', i');
    }
    forall t' | 0 <= t' < |w.mem| && w.kind[t'].Table? ensures TableOk(w, t') {
      if t' != t {
        assert TableOk(v, t');
      }
    }
  }

  lemma NewTableKeepsPtes(v: Vm, w: Vm, d: nat, i: Index, t: nat)
    requires Shape(v) && Sizes(w) && NewTable(v, w, d, i, t)
    ensures PtesOk(w) && KernelPartOk(w)
  {
    forall t', j | 0 <= t' < |w.mem| && w.kind[t'].Table? && w.kind[t'].pdx < UTOP_PDX && 0 <= j < 1024
      ensures PteOk(w, w.mem[t'][j])
    {
      if t' != t {
        assert PteOk(v, v.mem[t'][j]);
      }
    }
  }

  /** A cleared table in an empty slot changes no translation. */
  lemma NewTableKeepsView(v: Vm, w: Vm, d: nat, i: Index, t: nat)
    requires Shape(v) && Sizes(w) && NewTable(v, w, d, i, t)
    ensures SameView(v, w)
  {
    forall d': nat, p': VPage | Tracked(v, d', p') ensures Walk(w.mem, d', p') == Walk(v.mem, d', p') {
      if d' == d && p'.pdx == i {
        assert Walk(w.mem, d', p') == None;
      } else if Present(v.mem[d'][p'.pdx]) {
        WalkTable(v, d', p'.pdx);
      }
    }
  }

  lemma PointToKeepsInv(v: Vm, d: nat, i: Index, t: nat)
    requires Inv(v) && d < |v.mem| && Owns(v.kind[d], i) && v.mem[d][i] == 0
    requires t < |v.mem| && v.kind[t] == Held && v.mem[t] == ZeroRow()
    ensures Inv(PointTo(v, d, i, t)) && SameView(v, PointTo(v, d, i, t))
  {
    var w := PointTo(v, d, i, t);
    assert CountOk(v, t) && v.pages[t].ref == 0;
    hide Inv, Shape, FreeListOk, CountsOk, SameView, SameUser;
    NewTableKeepsShape(v, w, d, i, t);
    SameViewSameUser(v, w);
    FreeListIgnoresOthers(v, w);
    CountsIgnoreOthers(v, w, t);
    InvIntro(w);
  }

  lemma NewTableKeepsShape(v: Vm, w: Vm, d: nat, i: Index, t: nat)
    requires Shape(v) && Sizes(w) && NewTable(v, w, d, i, t)
    ensures Shape(w) && SameView(v, w)
  {
    NewTableKeepsDirs(v, w, d, i, t);
    NewTableKeepsPtes(v, w, d, i, t);
    NewTableKeepsView(v, w, d, i, t);
  }

  /** The use of frames after pgdir_walk: at most one free frame became the table of the slot. */
  ghost predicate WalkedKinds(v: Vm, w: Vm, d: nat, i: nat)
    requires Sizes(v) && Sizes(w)
  {
    && |w.mem| == |v.mem|
    && (forall f :: 0 <= f < |v.mem| && v.kind[f] != Free ==> w.kind[f] == v.kind[f])
    && (forall f :: 0 <= f < |v.mem| && v.kind[f] == Free ==> w.kind[f] == Free || w.kind[f] == Table(d, i))
  }

  ghost predicate NoneFree(v: Vm)
    requires Sizes(v)
  {
    forall f :: 0 <= f < |v.mem| ==> v.kind[f] != Free
  }

  /** The case of pgdir_walk that makes a table. */
  lemma MakeTableKeepsInv(v: Vm, d: nat, p: VPage)
    requires Inv(v) && d < |v.mem| && Owns(v.kind[d], p.pdx) && v.mem[d][p.pdx] == 0 && v.head.Some?
    ensures var (a, r) := Alloc(v, 1);
      && r.Some? && r.value < |v.mem|
      && var w := PointTo(a, d, p.pdx, r.value);
      && Inv(w) && SameView(v, w) && WalkedKinds(v, w, d, p.pdx)
      && w.kind[r.value] == Table(d, p.pdx) && w.mem[d][p.pdx] == MkPte(r.value, PTE_U + PTE_W)
  {
    hide Inv, Shape, FreeListOk, CountsOk, SameView, Sizes;
    HeadIsFree(v);
    AllocKeepsInv(v, 1);
    var a, t := Alloc(v, 1).0, v.head.value;
    assert t != d && a.mem[d] == v.mem[d] && |a.mem| == |v.mem| && t < |v.mem| && a.mem[t] == ZeroRow();
    PointToKeepsInv(a, d, p.pdx, t);
    SameViewTrans(v, a, PointTo(a, d, p.pdx, t));
  }

  lemma SameViewTrans(u: Vm, v: Vm, w: Vm)
    requires Sizes(u) && Sizes(v) && Sizes(w) && SameView(u, v) && SameView(v, w)
    ensures SameView(u, w)
  {
    forall d: nat, p: VPage | Tracked(u, d, p) ensures Walk(w.mem, d, p) == Walk(u.mem, d, p) {
      assert Tracked(v, d, p);
    }
  }

  /** t is the page table behind slot i of d: its own, or kern_pgdir's, or at UVPT the directory itself. */
  ghost predicate TableFor(v: Vm, d: nat, i: nat, t: nat)
    requires Sizes(v) && d < |v.mem|
  {
    t < |v.mem| && if i == UVPT_PDX then t == d else v.kind[t] == Table(if Owns(v.kind[d], i) then d else v.kern, i)
  }

  /** pgdir_walk makes no table above UTOP in an environment's directory alone. */
  ghost predicate Walkable(v: Vm, d: nat, i: Index, create: bool)
    requires Sizes(v) && d < |v.mem|
  {
    Owns(v.kind[d], i) || v.mem[d][i] != 0 || !create || NoneFree(v)
  }

  /**
   * pgdir_walk keeps every translation, and fails exactly when the table is missing and may not be made, or
   * no frame is free for it; and then it changes nothing.  The invariant is kept if and only if no table is
   * made above UTOP in an environment's directory, which would then differ from kern_pgdir.
   */
  lemma PgdirWalkKeepsInv(v: Vm, d: nat, p: VPage, create: bool)
    requires Inv(v) && d < |v.mem| && IsDir(v.kind[d])
    ensures var (w, r) := PgdirWalk(v, d, p, create);
      && (Inv(w) <==> Walkable(v, d, p.pdx, create))
      && (Walkable(v, d, p.pdx, create) ==> SameView(v, w) && WalkedKinds(v, w, d, p.pdx))
      && (Walkable(v, d, p.pdx, create) && r.Some? ==> TableFor(w, d, p.pdx, r.value))
      && (r == None <==> v.mem[d][p.pdx] == 0 && (!create || NoneFree(v)))
      && (r == None ==> w == v)
      && (r.Some? ==> Present(w.mem[d][p.pdx]) && FrameOf(w.mem[d][p.pdx]) == r.value)
  {
    hide Inv, Shape, FreeListOk, CountsOk, SameView, Sizes;
    SlotIsZeroOrPresent(v, d, p.pdx);
    HeadIsFree(v);
    SameViewRefl(v);
    AllocKeepsInv(v, 1);
    if v.mem[d][p.pdx] == 0 && create && v.head.Some? {
      if Owns(v.kind[d], p.pdx) {
        MakeTableKeepsInv(v, d, p);
      } else {
        TableAboveBreaks(v, d, p.pdx);
      }
    }
  }

  /** Every slot of a directory is 0 or leads to a table. */
  lemma SlotIsZeroOrPresent(v: Vm, d: nat, i: Index)
    requires Inv(v) && d < |v.mem| && IsDir(v.kind[d])
    ensures v.mem[d][i] == 0 || (Present(v.mem[d][i]) && TableFor(v, d, i, FrameOf(v.mem[d][i])))
  {
    if Owns(v.kind[d], i) {
      assert PdeOk(v, d, i);
    } else if i != UVPT_PDX {
      assert Owns(v.kind[v.kern], i) && PdeOk(v, v.kern, i);
    }
  }

  /** A table of its own in a slot that kern_pgdir shares makes an environment's directory differ from it. */
  lemma TableAboveBreaks(v: Vm, d: nat, i: Index)
    requires Inv(v) && d < |v.mem| && IsDir(v.kind[d]) && !Owns(v.kind[d], i) && v.mem[d][i] == 0
    requires Alloc(v, 1).1.Some?
    ensures var (a, r) := Alloc(v, 1);
      var w := PointTo(a, d, i, r.value);
      && !Inv(w) && w.mem[d][i] == MkPte(r.value, PTE_U + PTE_W)
      && w.kern == v.kern < |w.mem| && w.mem[d][i] != w.mem[w.kern][i]
  {
    hide FreeListOk, CountsOk, SameView, Shape;
    var (a, r) := Alloc(v, 1);
    AllocKeepsInv(v, 1);
    HeadIsFree(v);
    SlotIsZeroOrPresent(v, v.kern, i);
    NotAtUvpt(v, d, i);
    var w := PointTo(a, d, i, r.value);
    if Inv(w) {
      SlotIsZeroOrPresent(w, d, i);
    }
  }

  lemma NotAtUvpt(v: Vm, d: nat, i: Index)
    requires Inv(v) && d < |v.mem| && IsDir(v.kind[d]) && v.mem[d][i] == 0
    ensures i != UVPT_PDX
    ensures Owns(v.kind[v.kern], i) && (!Owns(v.kind[d], i) ==> d != v.kern)
  {
  }

  /** The free list depends only on the free frames and the links. */
  lemma FreeListIgnoresOthers(v: Vm, w: Vm)
    requires Lengths(v) && Lengths(w) && FreeListOk(v) && |w.mem| == |v.mem|
    requires w.head == v.head && w.fl == v.fl
    requires forall f :: 0 <= f < |v.mem| ==> (w.kind[f] == Free <==> v.kind[f] == Free)
    requires forall f :: 0 <= f < |v.mem| ==> w.pages[f].link == v.pages[f].link
    ensures FreeListOk(w)
  {
    forall k: nat | k < |w.fl| ensures LinkOk(w, k) {
      assert LinkOk(v, k);
    }
  }

  /** Writing one entry of a user table changes the translation of one page of one address space. */
  lemma SetPteUpdates(v: Vm, w: Vm, d: nat, p: VPage, t: nat, e: Word)
    requires Shape(v) && Sizes(w) && UserPage(p)
    requires t < |v.mem| && v.kind[t] == Table(d, p.pdx)
    requires w.mem == v.mem[t := v.mem[t][p.ptx := e]]
    requires SameDirs(v, w)
    ensures Updated(v, w, d, p, if Present(e) then Some(e) else None)
  {
    assert TableOk(v, t);
    forall d': nat, p': VPage | Tracked(v, d', p')
      ensures Walk(w.mem, d', p') ==
              if d' == d && p' == p then (if Present(e) then Some(e) else None) else Walk(v.mem, d', p')
    {
      assert w.mem[d'] == v.mem[d'];
      if Present(v.mem[d'][p'.pdx]) {
        WalkTable(v, d', p'.pdx);
      }
    }
  }

  /** ... and keeps the shape, if the entry is 0 or maps a leaf. */
  lemma SetPteKeepsShape(v: Vm, w: Vm, d: nat, p: VPage, t: nat, e: Word)
    requires Shape(v) && Sizes(w) && UserPage(p) && w.kern == v.kern
    requires t < |v.mem| && v.kind[t] == Table(d, p.pdx)
    requires w.mem == v.mem[t := v.mem[t][p.ptx := e]]
    requires forall f :: 0 <= f < |v.mem| && v.kind[f] != Held && v.kind[f] != Leaf ==> w.kind[f] == v.kind[f]
    requires forall f :: 0 <= f < |v.mem| && (v.kind[f] == Held || v.kind[f] == Leaf) ==>
               w.kind[f] == Held || w.kind[f] == Leaf || w.kind[f] == Free
    requires forall j :: 0 <= j < 1024 ==> PteOk(w, w.mem[t][j])
    requires forall t', j ::
      0 <= t' < |v.mem| && t' != t && v.kind[t'].Table? && v.kind[t'].pdx < UTOP_PDX && 0 <= j < 1024 ==>
        PteOk(w, v.mem[t'][j])
    ensures Shape(w)
  {
    forall d': nat, i': nat | d' < |w.mem| && i' < 1024 && Owns(w.kind[d'], i') ensures PdeOk(w, d', i') {
      assert PdeOk(v, d', i');
    }
    forall t' | 0 <= t' < |w.mem| && w.kind[t'].Table? ensures TableOk(w, t') {
      assert TableOk(v, t');
    }
    forall t', j | 0 <= t' < |w.mem| && w.kind[t'].Table? && w.kind[t'].pdx < UTOP_PDX && 0 <= j < 1024
      ensures PteOk(w, w.mem[t'][j])
    {
      if t' != t {
        assert PteOk(w, v.mem[t'][j]);
      }
    }
  }

  /** An update of one page adds or drops that one mapping. */
  lemma UpdatedMappings(v: Vm, w: Vm, d: nat, p: VPage, e: Option<Word>, f: nat)
    requires Sizes(v) && Sizes(w) && Updated(v, w, d, p, e) && d < |v.mem| && IsDir(v.kind[d]) && UserPage(p)
    ensures var m := Mapping(d, p);
      Mappings(w, f) == Mappings(v, f) - {m} + (if e.Some? && FrameOf(e.value) == f then {m} else {})
  {
    forall m: Mapping
      ensures MapsTo(w, m, f) <==>
              if m == Mapping(d, p) then e.Some? && FrameOf(e.value) == f else MapsTo(v, m, f)
    {
      if UserPage(m.page) && Tracked(v, m.dir, m.page) {
        assert Walk(w.mem, m.dir, m.page) ==
               if m.dir == d && m.page == p then e else Walk(v.mem, m.dir, m.page);
      }
    }
  }
}
