/** page_alloc, page_free and page_decref of kern/pmap.c on the state as a value. */
module VmAlloc {
  import opened Wrappers
  import opened Mmu
  import opened VmState

  /** page_alloc: takes the head of the free list; any flag but 0 asks for a cleared page. */
  ghost function Alloc(v: Vm, flags: int): (r: (Vm, Option<nat>))
    requires Lengths(v)
    ensures Lengths(r.0) && |r.0.mem| == |v.mem| && (r.1.Some? ==> r.1.value < |v.mem|)
  {
    if v.head.None? || v.head.value >= |v.mem| then (v, None)
    else
      var f := v.head.value;
      var ref := if flags != 0 then v.pages[f].ref else 0;
      (v.(head := v.pages[f].link,
          pages := v.pages[f := PageInfo(None, ref)],
          mem := if flags != 0 then v.mem[f := ZeroRow()] else v.mem,
          data := if flags != 0 then v.data[f := ZeroBytes()] else v.data,
          kind := v.kind[f := Held],
          fl := if v.fl == [] then [] else v.fl[..|v.fl| - 1]),
       Some(f))
  }

  /** page_free: pushes f, whose count and link are clear, on the free list. */
  ghost function Push(v: Vm, f: nat): (r: Vm)
    requires Lengths(v) && f < |v.mem|
    ensures Lengths(r) && |r.mem| == |v.mem|
  {
    v.(pages := v.pages[f := PageInfo(v.head, v.pages[f].ref)],
       head := Some(f),
       kind := v.kind[f := Free],
       fl := v.fl + [f])
  }

  /** The count of f as a 16-bit number: 0 goes down to 65535 and 65535 goes up to 0. */
  function Dec16(ref: Ref16): Ref16 { (ref + 0xFFFF) % 0x1_0000 }
  function Inc16(ref: Ref16): Ref16 { (ref + 1) % 0x1_0000 }

  ghost function SetRef(v: Vm, f: nat, ref: Ref16): (r: Vm)
    requires Lengths(v) && f < |v.mem|
    ensures Lengths(r) && |r.mem| == |v.mem|
  {
    v.(pages := v.pages[f := PageInfo(v.pages[f].link, ref)])
  }

  /** page_decref. */
  ghost function Decref(v: Vm, f: nat): (r: Vm)
    requires Lengths(v) && f < |v.mem|
    ensures Lengths(r) && |r.mem| == |v.mem|
  {
    var w := SetRef(v, f, Dec16(v.pages[f].ref));
    if w.pages[f].ref == 0 then Push(w, f) else w
  }

  /**
   * The translations that operations keep: those of every directory, except that the window at UVPT shows
   * the directory itself, so there a new page table may turn up as a new page.
   */
  ghost predicate Tracked(v: Vm, d: nat, p: VPage)
    requires Sizes(v)
  {
    d < |v.mem| && IsDir(v.kind[d]) && (p.pdx != UVPT_PDX || Walk(v.mem, d, p).Some?)
  }

  ghost predicate SameDirs(v: Vm, w: Vm)
    requires Sizes(v) && Sizes(w)
  {
    |w.mem| == |v.mem| && forall d :: 0 <= d < |v.mem| ==> (IsDir(w.kind[d]) <==> IsDir(v.kind[d]))
  }

  /** The same directories translate every page of every address space alike. */
  ghost predicate SameView(v: Vm, w: Vm)
    requires Sizes(v) && Sizes(w)
  {
    && SameDirs(v, w)
    && (forall d: nat, p: VPage :: Tracked(v, d, p) ==> Walk(w.mem, d, p) == Walk(v.mem, d, p))
  }

  /** All address spaces agree below UTOP. */
  ghost predicate SameUser(v: Vm, w: Vm)
    requires Lengths(v) && Lengths(w)
  {
    |w.mem| == |v.mem| && forall m :: UserMap(w, m) == UserMap(v, m)
  }

  lemma SameViewSameUser(v: Vm, w: Vm)
    requires Sizes(v) && Sizes(w) && SameView(v, w)
    ensures SameUser(v, w)
  {
    forall m: Mapping ensures UserMap(w, m) == UserMap(v, m) {
      if UserPage(m.page) && Tracked(v, m.dir, m.page) {
        assert Walk(w.mem, m.dir, m.page) == Walk(v.mem, m.dir, m.page);
      }
    }
  }

  lemma SameUserSameMappings(v: Vm, w: Vm, f: nat)
    requires Lengths(v) && Lengths(w) && SameUser(v, w)
    ensures Mappings(v, f) == Mappings(w, f)
  {
    forall m: Mapping ensures MapsTo(v, m, f) <==> MapsTo(w, m, f) {
      assert UserMap(w, m) == UserMap(v, m);
    }
  }

  /** What an address space maps below UTOP is a leaf. */
  lemma MappedIsLeaf(v: Vm, m: Mapping, f: nat)
    requires Shape(v)
    ensures MapsTo(v, m, f) ==> f < |v.mem| && v.kind[f] == Leaf
  {
    if MapsTo(v, m, f) {
      assert Owns(v.kind[m.dir], m.page.pdx);
      assert PdeOk(v, m.dir, m.page.pdx);
      assert PteOk(v, v.mem[FrameOf(v.mem[m.dir][m.page.pdx])][m.page.ptx]);
    }
  }

  /** Frames that are not leaves have no mappings. */
  lemma OnlyLeavesAreMapped(v: Vm, f: nat)
    requires Shape(v) && f < |v.mem| && v.kind[f] != Leaf
    ensures Mappings(v, f) == {}
  {
    forall m: Mapping ensures !MapsTo(v, m, f) {
      MappedIsLeaf(v, m, f);
    }
  }

  /** How a directory slot resolves: kernel slots of an environment resolve through kern_pgdir or itself. */
  lemma WalkTable(v: Vm, d: nat, i: Index)
    requires Shape(v) && d < |v.mem| && IsDir(v.kind[d]) && Present(v.mem[d][i])
    ensures i == UVPT_PDX ==> FrameOf(v.mem[d][i]) == d
    ensures i != UVPT_PDX ==> FrameOf(v.mem[d][i]) < |v.mem|
    ensures i != UVPT_PDX && Owns(v.kind[d], i) ==> v.kind[FrameOf(v.mem[d][i])] == Table(d, i)
    ensures i != UVPT_PDX && !Owns(v.kind[d], i) ==>
      v.mem[d][i] == v.mem[v.kern][i] && v.kind[FrameOf(v.mem[d][i])] == Table(v.kern, i)
  {
    if i != UVPT_PDX {
      if Owns(v.kind[d], i) {
        assert PdeOk(v, d, i);
      } else {
        assert Owns(v.kind[v.kern], i);
        assert PdeOk(v, v.kern, i);
      }
    }
  }

  /** Changing frames that are neither directories nor tables changes no translation. */
  lemma WalkIgnoresOthers(v: Vm, w: Vm)
    requires Shape(v) && Sizes(w) && SameDirs(v, w)
    requires forall f :: 0 <= f < |v.mem| && (IsDir(v.kind[f]) || v.kind[f].Table?) ==> w.mem[f] == v.mem[f]
    ensures SameView(v, w)
  {
    forall d: nat, p: VPage | Tracked(v, d, p) ensures Walk(w.mem, d, p) == Walk(v.mem, d, p)
    {
      assert w.mem[d] == v.mem[d];
      if Present(v.mem[d][p.pdx]) {
        WalkTable(v, d, p.pdx);
      }
    }
  }

  /** A change of kinds that keeps every directory, table and leaf, and all their words, keeps the shape. */
  lemma ShapeIgnoresOthers(v: Vm, w: Vm)
    requires Shape(v) && Sizes(w) && |w.mem| == |v.mem| && w.kern == v.kern
    requires forall f :: 0 <= f < |v.mem| && (IsDir(v.kind[f]) || v.kind[f].Table?) ==>
               w.mem[f] == v.mem[f] && w.kind[f] == v.kind[f]
    requires forall f :: 0 <= f < |v.mem| && v.kind[f] == Leaf ==> w.kind[f] == Leaf
    requires forall f :: 0 <= f < |v.mem| && (IsDir(w.kind[f]) || w.kind[f].Table?) ==> w.kind[f] == v.kind[f]
    ensures Shape(w) && SameView(v, w)
  {
    WalkIgnoresOthers(v, w);
    forall d: nat, i: nat | d < |w.mem| && i < 1024 && Owns(w.kind[d], i) ensures PdeOk(w, d, i) {
      assert PdeOk(v, d, i);
    }
    forall t | 0 <= t < |w.mem| && w.kind[t].Table? ensures TableOk(w, t) {
      assert TableOk(v, t);
    }
    forall t, j | 0 <= t < |w.mem| && w.kind[t].Table? && w.kind[t].pdx < UTOP_PDX && 0 <= j < 1024
      ensures PteOk(w, w.mem[t][j])
    {
      assert PteOk(v, v.mem[t][j]);
    }
  }

  lemma SameViewRefl(v: Vm)
    requires Sizes(v)
    ensures SameView(v, v)
  {
  }

  /** The head of the list is a free frame; there is none only if no frame is free. */
  lemma HeadIsFree(v: Vm)
    requires Inv(v)
    ensures Shape(v) && FreeListOk(v) && CountsOk(v)
    ensures v.head == None <==> forall f :: 0 <= f < |v.mem| ==> v.kind[f] != Free
    ensures v.head.Some? ==>
      var f := v.head.value;
      && f < |v.mem| && v.fl != [] && v.fl[|v.fl| - 1] == f && v.kind[f] == Free && CountOk(v, f)
  {
    hide Shape;
    if v.head.Some? {
      assert v.kind[v.fl[|v.fl| - 1]] == Free;
    }
  }

  /**
   * page_alloc keeps the invariant.  It fails only when no frame is free; otherwise it hands out a frame
   * that was free, with count 0, and no address space changes.
   */
  lemma AllocKeepsInv(v: Vm, flags: int)
    requires Inv(v)
    ensures var (w, r) := Alloc(v, flags);
      && Inv(w) && SameView(v, w)
      && (r == None <==> forall f :: 0 <= f < |v.mem| ==> v.kind[f] != Free)
      && (r.Some? ==> v.kind[r.value] == Free && w.kind == v.kind[r.value := Held] && w.pages[r.value].ref == 0)
      && (r.Some? && flags != 0 ==> w.mem[r.value] == ZeroRow() && w.data[r.value] == ZeroBytes())
  {
    hide Inv, Shape, FreeListOk, CountsOk, SameView, SameUser;
    HeadIsFree(v);
    SameViewRefl(v);
    if v.head.Some? {
      var f := v.head.value;
      var w := Alloc(v, flags).0;
      ShapeIgnoresOthers(v, w);
      SameViewSameUser(v, w);
      PopKeepsFreeList(v, w);
      CountsIgnoreOthers(v, w, f);
      InvIntro(w);
    }
  }

  /** Counts stay exact when one frame changes its use but stays unreferenced. */
  lemma CountsIgnoreOthers(v: Vm, w: Vm, f: nat)
    requires Lengths(v) && Lengths(w) && CountsOk(v) && SameUser(v, w) && f < |v.mem|
    requires w.kind == v.kind[f := w.kind[f]] && CountOk(w, f)
    requires forall g :: 0 <= g < |v.mem| && g != f ==> w.pages[g].ref == v.pages[g].ref
    ensures CountsOk(w)
  {
    forall g | 0 <= g < |w.mem| ensures CountOk(w, g) {
      assert CountOk(v, g);
      SameUserSameMappings(v, w, g);
    }
  }

  /** w is v with the head taken off the free list. */
  ghost predicate Popped(v: Vm, w: Vm)
    requires Lengths(v) && Lengths(w)
  {
    && |w.mem| == |v.mem| && 0 < |v.fl| && v.fl[|v.fl| - 1] < |v.mem|
    && w.fl == v.fl[..|v.fl| - 1] && w.head == v.pages[v.fl[|v.fl| - 1]].link
    && w.pages == v.pages[v.fl[|v.fl| - 1] := PageInfo(None, 0)]
    && w.kind == v.kind[v.fl[|v.fl| - 1] := Held]
  }

  lemma PopKeepsSound(v: Vm, w: Vm)
    requires Lengths(v) && Lengths(w) && ListSound(v) && Popped(v, w)
    ensures ListSound(w)
  {
  }

  lemma PopKeepsLinked(v: Vm, w: Vm)
    requires Lengths(v) && Lengths(w) && ListSound(v) && ListSound(w) && ListLinked(v) && Popped(v, w)
    ensures ListLinked(w)
  {
    assert LinkOk(v, |v.fl| - 1);
    forall k: nat | k < |w.fl| ensures LinkOk(w, k) {
      assert LinkOk(v, k) && v.fl[k] != v.fl[|v.fl| - 1];
    }
  }

  lemma PopKeepsComplete(v: Vm, w: Vm)
    requires Lengths(v) && Lengths(w) && ListComplete(v) && Popped(v, w)
    ensures ListComplete(w)
  {
    forall g | 0 <= g < |w.mem| && w.kind[g] == Free ensures g in w.fl {
      assert g in v.fl && g != v.fl[|v.fl| - 1];
    }
  }

  /** w is v with f, a frame that was not free, put in front of the free list. */
  ghost predicate Pushed(v: Vm, w: Vm, f: nat)
    requires Lengths(v) && Lengths(w)
  {
    && |w.mem| == |v.mem| && f < |v.mem| && v.kind[f] != Free
    && w.fl == v.fl + [f] && w.head == Some(f)
    && w.pages == v.pages[f := PageInfo(v.head, w.pages[f].ref)] && w.kind == v.kind[f := Free]
  }

  lemma PushKeepsSound(v: Vm, w: Vm, f: nat)
    requires Lengths(v) && Lengths(w) && ListSound(v) && Pushed(v, w, f)
    ensures ListSound(w)
  {
  }

  lemma PushKeepsLinked(v: Vm, w: Vm, f: nat)
    requires Lengths(v) && Lengths(w) && ListSound(v) && ListSound(w) && ListLinked(v) && Pushed(v, w, f)
    ensures ListLinked(w)
  {
    forall k: nat | k < |w.fl| ensures LinkOk(w, k) {
      assert k < |v.fl| ==> LinkOk(v, k);
    }
  }

  lemma PushKeepsComplete(v: Vm, w: Vm, f: nat)
    requires Lengths(v) && Lengths(w) && ListComplete(v) && Pushed(v, w, f)
    ensures ListComplete(w)
  {
  }

  /** Taking the head off a well-formed free list, or pushing a frame, leaves a well-formed one. */
  lemma PopKeepsFreeList(v: Vm, w: Vm)
    requires Lengths(v) && Lengths(w) && FreeListOk(v) && Popped(v, w)
    ensures FreeListOk(w)
  {
    hide ListSound, ListLinked, ListComplete;
    PopKeepsSound(v, w);
    PopKeepsLinked(v, w);
    PopKeepsComplete(v, w);
  }

  lemma PushKeepsFreeList(v: Vm, w: Vm, f: nat)
    requires Lengths(v) && Lengths(w) && FreeListOk(v) && Pushed(v, w, f)
    ensures FreeListOk(w)
  {
    hide ListSound, ListLinked, ListComplete;
    PushKeepsSound(v, w, f);
    PushKeepsLinked(v, w, f);
    PushKeepsComplete(v, w, f);
  }

  /** page_free of a held page keeps the invariant and undoes the page_alloc that handed it out. */
  lemma FreeKeepsInv(v: Vm, f: nat)
    requires Inv(v) && f < |v.mem| && v.kind[f] == Held
    ensures Inv(Push(v, f)) && SameView(v, Push(v, f))
  {
    var w := Push(v, f);
    assert CountOk(v, f) && v.pages[f].ref == 0;
    hide Inv, Shape, FreeListOk, CountsOk, SameView, SameUser;
    ShapeIgnoresOthers(v, w);
    SameViewSameUser(v, w);
    PushKeepsFreeList(v, w, f);
    CountsIgnoreOthers(v, w, f);
    InvIntro(w);
  }

  /** page_alloc(0) followed by page_free of the page is the identity. */
  lemma AllocThenFree(v: Vm)
    requires Inv(v) && v.head.Some?
    ensures Push(Alloc(v, 0).0, v.head.value) == v
  {
    var f := v.head.value;
    var w := Push(Alloc(v, 0).0, f);
    assert v.fl[|v.fl| - 1] == f && LinkOk(v, |v.fl| - 1);
    assert CountOk(v, f);
    assert w.fl == v.fl && w.kind == v.kind;
    assert w.pages == v.pages;
  }
}
