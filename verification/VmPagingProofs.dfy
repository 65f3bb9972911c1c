/** What page_remove and page_insert mean: exact updates of one address space that keep the invariant. */
module VmPagingProofs {
  import opened Wrappers
  import opened Mmu
  import opened VmState
  import opened VmAlloc
  import opened VmPaging

  /** p is mapped in d by a present entry: what page_remove needs, and what both its callers test. */
  ghost predicate Mapped(v: Vm, d: nat, p: VPage)
    requires Sizes(v)
  {
    d < |v.mem| && IsDir(v.kind[d]) && UserPage(p) && Walk(v.mem, d, p).Some?
  }

  lemma MappedFacts(v: Vm, d: nat, p: VPage)
    requires Shape(v) && Mapped(v, d, p)
    ensures var t := FrameOf(v.mem[d][p.pdx]);
      && Present(v.mem[d][p.pdx]) && t < |v.mem| && v.kind[t] == Table(d, p.pdx)
      && Walk(v.mem, d, p) == Some(v.mem[t][p.ptx])
    ensures var f := FrameOf(Walk(v.mem, d, p).value);
      && f < |v.mem| && v.kind[f] == Leaf && LookupFrame(v, d, p) == Some(f)
      && Mapping(d, p) in Mappings(v, f)
  {
    assert Owns(v.kind[d], p.pdx);
    assert PdeOk(v, d, p.pdx);
    assert PteOk(v, v.mem[FrameOf(v.mem[d][p.pdx])][p.ptx]);
    assert MapsTo(v, Mapping(d, p), FrameOf(Walk(v.mem, d, p).value));
  }

  /** Taking the mapping at p away, when it is the last one of f, leaves no entry that maps f. */
  lemma LastMapping(v: Vm, d: nat, p: VPage, f: nat, t: nat, j: nat)
    requires Shape(v) && Mapped(v, d, p) && FrameOf(Walk(v.mem, d, p).value) == f
    requires |Mappings(v, f)| == 1
    requires t < |v.mem| && v.kind[t].Table? && v.kind[t].pdx < UTOP_PDX && j < 1024
    requires v.mem[t][j] != 0 && FrameOf(v.mem[t][j]) == f
    ensures v.kind[t] == Table(d, p.pdx) && j == p.ptx
  {
    MappedFacts(v, d, p);
    assert TableOk(v, t);
    assert PteOk(v, v.mem[t][j]);
    var m := Mapping(v.kind[t].dir, VPage(v.kind[t].pdx, j));
    assert MapsTo(v, m, f);
    var m0 := Mapping(d, p);
    assert m == m0 by {
      assert {m, m0} <= Mappings(v, f);
      if m != m0 {
        assert |{m, m0}| == 2;
        SubsetSize({m, m0}, Mappings(v, f));
      }
    }
  }

  /** w is v without the entry that maps p, in use and words. */
  ghost predicate Removed(v: Vm, w: Vm, d: nat, p: VPage, f: nat)
    requires Sizes(v) && Sizes(w)
  {
    && Mapped(v, d, p) && FrameOf(Walk(v.mem, d, p).value) == f && f < |v.mem|
    && var t := FrameOf(v.mem[d][p.pdx]);
    && t < |v.mem| && w.mem == v.mem[t := v.mem[t][p.ptx := 0]] && w.kern == v.kern
    && w.kind == v.kind[f := if |Mappings(v, f)| == 1 then Free else Leaf]
  }

  lemma RemoveKeepsShape(v: Vm, w: Vm, d: nat, p: VPage, f: nat)
    requires Shape(v) && Mapped(v, d, p) && Sizes(w) && Removed(v, w, d, p, f)
    ensures Shape(w) && Updated(v, w, d, p, None)
  {
    MappedFacts(v, d, p);
    var t := FrameOf(v.mem[d][p.pdx]);
    forall t', j | 0 <= t' < |v.mem| && v.kind[t'].Table? && v.kind[t'].pdx < UTOP_PDX && 0 <= j < 1024 &&
        (t' != t || j != p.ptx)
      ensures PteOk(w, v.mem[t'][j])
    {
      assert PteOk(v, v.mem[t'][j]);
      if |Mappings(v, f)| == 1 && v.mem[t'][j] != 0 && FrameOf(v.mem[t'][j]) == f {
        LastMapping(v, d, p, f, t', j);
      }
    }
    SetPteKeepsShape(v, w, d, p, t, 0);
    SetPteUpdates(v, w, d, p, t, 0);
  }

  lemma RemoveRemoves(v: Vm, d: nat, p: VPage)
    requires Inv(v) && Mapped(v, d, p)
    ensures var f, w := FrameOf(Walk(v.mem, d, p).value), Remove(v, d, p);
      && f < |v.mem| && v.kind[f] == Leaf && v.pages[f].ref > 0 && LookupFrame(v, d, p) == Some(f)
      && Shape(v) && FreeListOk(v) && Sizes(w) && Removed(v, w, d, p, f) && d < |v.mem|
  {
    hide Inv, Shape, FreeListOk, CountsOk, Remove, Walk, LookupFrame;
    MappedFacts(v, d, p);
    var f := FrameOf(Walk(v.mem, d, p).value);
    HasCount(v, f);
    RemoveFields(v, d, p, f);
  }

  /**
   * page_remove of a mapped page: the invariant is kept, exactly this page of this address space is
   * unmapped, and the frame loses one reference; it is freed exactly when that was the last.
   */
  lemma RemoveKeepsInv(v: Vm, d: nat, p: VPage)
    requires Inv(v) && Mapped(v, d, p)
    ensures var f, w := FrameOf(Walk(v.mem, d, p).value), Remove(v, d, p);
      && Inv(w) && Updated(v, w, d, p, None)
      && f < |v.mem| && v.kind[f] == Leaf && v.pages[f].ref > 0
      && w.kind == v.kind[f := if v.pages[f].ref == 1 then Free else Leaf]
      && w.pages[f].ref == v.pages[f].ref - 1
  {
    hide Inv, Shape, FreeListOk, CountsOk, Updated, Remove, Removed, Sizes, Walk, Mappings;
    var f, w := FrameOf(Walk(v.mem, d, p).value), Remove(v, d, p);
    RemoveRemoves(v, d, p);
    RemoveFields(v, d, p, f);
    RemoveKeepsShape(v, w, d, p, f);
    RemoveKeepsCounts(v, w, d, p, f);
    if v.pages[f].ref == 1 {
      PushKeepsFreeList(v, w, f);
    } else {
      FreeListIgnoresOthers(v, w);
    }
    InvIntro(w);
  }

  /** The fields that page_remove changes. */
  lemma RemoveFields(v: Vm, d: nat, p: VPage, f: nat)
    requires Lengths(v) && d < |v.mem| && LookupFrame(v, d, p) == Some(f) && f < |v.mem| && v.pages[f].ref > 0
    ensures var w, last := Remove(v, d, p), v.pages[f].ref == 1;
      var t := FrameOf(v.mem[d][p.pdx]);
      && w.mem == v.mem[t := v.mem[t][p.ptx := 0]] && w.data == v.data && w.kern == v.kern
      && w.kind == (if last then v.kind[f := Free] else v.kind)
      && w.pages == v.pages[f := PageInfo(if last then v.head else v.pages[f].link, v.pages[f].ref - 1)]
      && w.head == (if last then Some(f) else v.head)
      && w.fl == (if last then v.fl + [f] else v.fl)
  {
  }

  lemma RemoveKeepsCounts(v: Vm, w: Vm, d: nat, p: VPage, f: nat)
    requires Inv(v) && Mapped(v, d, p) && Sizes(w) && Removed(v, w, d, p, f) && Updated(v, w, d, p, None)
    requires v.kind[f] == Leaf && v.pages[f].ref > 0 && w.pages[f].ref == v.pages[f].ref - 1
    requires forall g :: 0 <= g < |v.mem| && g != f ==> w.pages[g] == v.pages[g]
    ensures CountsOk(w)
  {
    hide *;
    RemoveFrame(v, w, d, p, f);
    forall g: nat | g < |w.mem| ensures CountOk(w, g) {
      UpdatedMappings(v, w, d, p, None, g);
      HasCount(v, g);
      InvLengths(v);
      MapsOne(v, d, p, f, g);
      OneLess(Mappings(v, g), Mapping(d, p));
      RemoveKeepsCount(v, w, f, g);
    }
    CountsIntro(w);
  }

  lemma RemoveFrame(v: Vm, w: Vm, d: nat, p: VPage, f: nat)
    requires Sizes(v) && Sizes(w) && Removed(v, w, d, p, f)
    ensures Lengths(v) && Lengths(w) && |w.mem| == |v.mem| && f < |v.mem|
    ensures Mapped(v, d, p) && d < |v.mem| && IsDir(v.kind[d]) && UserPage(p)
    ensures Walk(v.mem, d, p).Some? && FrameOf(Walk(v.mem, d, p).value) == f
    ensures w.kind == v.kind[f := if |Mappings(v, f)| == 1 then Free else Leaf]
  {
    hide Walk, Mappings;
  }

  lemma HasCount(v: Vm, g: nat)
    requires Inv(v) && g < |v.mem|
    ensures CountOk(v, g)
  {
    hide CountOk;
  }

  lemma InvLengths(v: Vm)
    requires Inv(v)
    ensures Lengths(v)
  {
    hide *;
  }

  lemma CountsIntro(v: Vm)
    requires Lengths(v) && forall g: nat :: g < |v.mem| ==> CountOk(v, g)
    ensures CountsOk(v)
  {
    hide CountOk;
  }

  /** Page p of d maps f and no other frame. */
  lemma MapsOne(v: Vm, d: nat, p: VPage, f: nat, g: nat)
    requires Sizes(v) && Mapped(v, d, p) && FrameOf(Walk(v.mem, d, p).value) == f
    ensures Mapping(d, p) in Mappings(v, g) <==> g == f
  {
    hide Walk;
  }

  lemma RemoveKeepsCount(v: Vm, w: Vm, f: nat, g: nat)
    requires Lengths(v) && Lengths(w) && |w.mem| == |v.mem| && f < |v.mem| && g < |v.mem| && CountOk(v, g)
    requires v.kind[f] == Leaf && w.kind == v.kind[f := if |Mappings(v, f)| == 1 then Free else Leaf]
    requires |Mappings(w, g)| == |Mappings(v, g)| - (if g == f then 1 else 0)
    requires v.pages[f].ref > 0 && w.pages[f].ref == v.pages[f].ref - 1
    requires g != f ==> w.pages[g] == v.pages[g]
    ensures CountOk(w, g)
  {
    hide Mappings;
  }

  lemma OneLess<T>(s: set<T>, m: T)
    ensures m in s ==> |s - {m} + {}| == |s| - 1
    ensures m !in s ==> s - {m} + {} == s
  {
  }

  lemma UpdatedTrans(u: Vm, v: Vm, w: Vm, d: nat, p: VPage, e: Option<Word>)
    requires Sizes(u) && Sizes(v) && Sizes(w) && UserPage(p)
    requires SameView(u, v) || Updated(u, v, d, p, None)
    requires Updated(v, w, d, p, e)
    ensures Updated(u, w, d, p, e)
  {
    forall d': nat, p': VPage | Tracked(u, d', p')
      ensures Walk(w.mem, d', p') == if d' == d && p' == p then e else Walk(u.mem, d', p')
    {
      assert Tracked(v, d', p');
    }
  }

  /** w is v after the entry of the user page p was made to map pp. */
  ghost predicate MappedAt(v: Vm, w: Vm, d: nat, p: VPage, t: nat, pp: nat, perm: nat)
    requires Sizes(v) && Sizes(w)
  {
    && d < |v.mem| && IsDir(v.kind[d]) && UserPage(p) && t < |v.mem| && v.kind[t] == Table(d, p.pdx)
    && pp < |v.mem| && (v.kind[pp] == Held || v.kind[pp] == Leaf) && perm < 4096
    && w.mem == v.mem[t := v.mem[t][p.ptx := MkPte(pp, perm)]] && w.kern == v.kern
    && w.kind == v.kind[pp := Leaf]
  }

  lemma MapKeepsShape(v: Vm, w: Vm, d: nat, p: VPage, t: nat, pp: nat, perm: nat)
    requires Shape(v) && Sizes(w) && MappedAt(v, w, d, p, t, pp, perm)
    ensures Shape(w) && Updated(v, w, d, p, Some(MkPte(pp, perm)))
  {
    forall t', j | 0 <= t' < |v.mem| && v.kind[t'].Table? && v.kind[t'].pdx < UTOP_PDX && 0 <= j < 1024
      ensures PteOk(w, v.mem[t'][j])
    {
      assert PteOk(v, v.mem[t'][j]);
    }
    SetPteKeepsShape(v, w, d, p, t, MkPte(pp, perm));
    SetPteUpdates(v, w, d, p, t, MkPte(pp, perm));
  }

  /** Mapping pp at a page where nothing is mapped, with its count raised. */
  lemma MapNewKeepsInv(v: Vm, d: nat, p: VPage, t: nat, pp: nat, perm: nat)
    requires Inv(v) && d < |v.mem| && IsDir(v.kind[d]) && UserPage(p) && Walk(v.mem, d, p) == None
    requires t < |v.mem| && v.kind[t] == Table(d, p.pdx)
    requires pp < |v.mem| && (v.kind[pp] == Held || v.kind[pp] == Leaf) && perm < 4096
    requires v.pages[pp].ref < 0xFFFF
    ensures var w := MapPage(v, t, pp, p.ptx, perm);
      Inv(w) && Updated(v, w, d, p, Some(MkPte(pp, perm))) && w.kind == v.kind[pp := Leaf]
  {
    hide Inv, Shape, FreeListOk, CountsOk, Updated;
    var w, e := MapPage(v, t, pp, p.ptx, perm), MkPte(pp, perm);
    FreeListIgnoresOthers(v, w);
    MapKeepsShape(v, w, d, p, t, pp, perm);
    if v.kind[pp] == Held {
      OnlyLeavesAreMapped(v, pp);
    }
    MapNewKeepsCounts(v, w, d, p, pp, e);
    InvIntro(w);
  }

  lemma MapNewKeepsCounts(v: Vm, w: Vm, d: nat, p: VPage, pp: nat, e: Word)
    requires Sizes(v) && Sizes(w) && CountsOk(v) && Updated(v, w, d, p, Some(e))
    requires d < |v.mem| && IsDir(v.kind[d]) && UserPage(p) && Walk(v.mem, d, p) == None
    requires pp < |v.mem| && FrameOf(e) == pp && v.pages[pp].ref < 0xFFFF
    requires v.kind[pp] == Leaf || (v.kind[pp] == Held && Mappings(v, pp) == {})
    requires w.kind == v.kind[pp := Leaf]
    requires w.pages == v.pages[pp := PageInfo(v.pages[pp].link, v.pages[pp].ref + 1)]
    ensures CountsOk(w)
  {
    hide CountOk, Mappings, Updated, UserMap, Walk;
    forall g: nat | g < |w.mem| ensures CountOk(w, g) {
      assert CountOk(v, g);
      UpdatedMappings(v, w, d, p, Some(e), g);
      NotMapping(v, d, p, g);
      OneMore(Mappings(v, g), Mapping(d, p));
      MapNewKeepsCount(v, w, pp, g);
    }
  }

  lemma OneMore<T>(s: set<T>, m: T)
    requires m !in s
    ensures |s - {m} + {m}| == |s| + 1 && s - {m} + {} == s
  {
    assert s - {m} == s;
  }

  lemma NotMapping(v: Vm, d: nat, p: VPage, g: nat)
    requires Lengths(v) && d < |v.mem| && Walk(v.mem, d, p) == None
    ensures Mapping(d, p) !in Mappings(v, g)
  {
    hide Walk;
  }

  lemma MapNewKeepsCount(v: Vm, w: Vm, pp: nat, g: nat)
    requires Lengths(v) && Lengths(w) && |w.mem| == |v.mem| && pp < |v.mem| && g < |v.mem| && CountOk(v, g)
    requires |Mappings(w, g)| == |Mappings(v, g)| + (if g == pp then 1 else 0) && v.pages[pp].ref < 0xFFFF
    requires v.kind[pp] == Leaf || (v.kind[pp] == Held && |Mappings(v, pp)| == 0)
    requires w.kind == v.kind[pp := Leaf]
    requires w.pages == v.pages[pp := PageInfo(v.pages[pp].link, v.pages[pp].ref + 1)]
    ensures CountOk(w, g)
  {
    hide Mappings;
  }

  /** Writing another entry for the page that is mapped at p already. */
  lemma RemapKeepsInv(v: Vm, d: nat, p: VPage, t: nat, pp: nat, perm: nat)
    requires Inv(v) && Mapped(v, d, p) && FrameOf(Walk(v.mem, d, p).value) == pp && perm < 4096 && pp < |v.mem|
    requires t < |v.mem| && v.kind[t] == Table(d, p.pdx) && v.kind[pp] == Leaf
    ensures var w := SetWord(v, t, p.ptx, MkPte(pp, perm));
      Inv(w) && Updated(v, w, d, p, Some(MkPte(pp, perm))) && w.kind == v.kind
  {
    hide Inv, Shape, FreeListOk, CountsOk, Updated;
    var w, e := SetWord(v, t, p.ptx, MkPte(pp, perm)), MkPte(pp, perm);
    FreeListIgnoresOthers(v, w);
    MapKeepsShape(v, w, d, p, t, pp, perm);
    RemapKeepsCounts(v, w, d, p, pp, e);
    InvIntro(w);
  }

  lemma RemapKeepsCounts(v: Vm, w: Vm, d: nat, p: VPage, pp: nat, e: Word)
    requires Sizes(v) && Sizes(w) && CountsOk(v) && Updated(v, w, d, p, Some(e)) && Mapped(v, d, p)
    requires FrameOf(Walk(v.mem, d, p).value) == pp && FrameOf(e) == pp
    requires w.kind == v.kind && w.pages == v.pages
    ensures CountsOk(w)
  {
    forall g | 0 <= g < |w.mem| ensures CountOk(w, g) {
      assert CountOk(v, g);
      UpdatedMappings(v, w, d, p, Some(e), g);
      assert Mapping(d, p) in Mappings(v, g) <==> g == pp by {
        assert MapsTo(v, Mapping(d, p), pp);
      }
      assert Mappings(w, g) == Mappings(v, g);
    }
  }

  /** pp is mapped at p of address space d already: page_insert only changes the permissions. */
  ghost predicate SamePage(v: Vm, d: nat, pp: nat, p: VPage)
    requires Sizes(v) && d < |v.mem|
  {
    Walk(v.mem, d, p).Some? && FrameOf(Walk(v.mem, d, p).value) == pp
  }

  /** page_insert fails for want of a page table. */
  ghost predicate NoTable(v: Vm, d: nat, p: VPage)
    requires Sizes(v) && d < |v.mem|
  {
    v.mem[d][p.pdx] == 0 && NoneFree(v)
  }

  /** ... or page 0, which page_lookup can name. */
  ghost predicate MayInsert(v: Vm, d: nat, pp: nat, p: VPage, perm: nat) {
    && Inv(v) && d < |v.mem| && IsDir(v.kind[d]) && UserPage(p) && perm < 4096
    && (pp == 0 || CanInsert(v, d, pp, p, perm))
  }

  /** The use of frames after a successful page_insert of pp. */
  ghost predicate InsertedKinds(v: Vm, w: Vm, d: nat, pp: nat, p: VPage)
    requires Sizes(v) && Sizes(w)
  {
    && |w.mem| == |v.mem| && pp < |v.mem| && w.kind[pp] == Leaf
    && (forall f :: 0 <= f < |v.mem| && f != pp ==> match v.kind[f]
          case Free => w.kind[f] == Free || w.kind[f] == Table(d, p.pdx)
          case Leaf => w.kind[f] == Leaf || w.kind[f] == Free
          case _ => w.kind[f] == v.kind[f])
  }

  /**
   * page_insert is a map update: it fails, changing nothing, exactly when a page table is needed and no
   * frame is free; otherwise exactly page p of address space d now maps pp with perm|PTE_P, and the
   * invariant is kept: if and only if the 16-bit count of pp does not wrap.
   */
  lemma InsertUpdates(v: Vm, d: nat, pp: nat, p: VPage, perm: nat)
    requires CanInsert(v, d, pp, p, perm)
    ensures var (w, ok) := Insert(v, d, pp, p, perm);
      && (ok <==> !NoTable(v, d, p))
      && (!ok ==> w == v)
      && (ok && (v.pages[pp].ref < 0xFFFF || SamePage(v, d, pp, p)) ==>
           Inv(w) && Updated(v, w, d, p, Some(MkPte(pp, perm))) && InsertedKinds(v, w, d, pp, p))
      && (Inv(w) <==> !ok || v.pages[pp].ref < 0xFFFF || SamePage(v, d, pp, p))
  {
    hide Inv, Shape, FreeListOk, CountsOk, SameView, PgdirWalk, InsertAt, Updated, InsertedKinds, SamePage, Sizes;
    if v.pages[pp].ref == 0xFFFF && !SamePage(v, d, pp, p) && !NoTable(v, d, p) {
      InsertWraps(v, d, pp, p, perm);
    }
    assert Owns(v.kind[d], p.pdx);
    PgdirWalkKeepsInv(v, d, p, true);
    var (u, r) := PgdirWalk(v, d, p, true);
    if r.Some? && (v.pages[pp].ref < 0xFFFF || SamePage(v, d, pp, p)) {
      SamePageAfterWalk(v, u, d, pp, p);
      WalkKeepsCount(v, d, p, pp);
      InsertAtUpdates(u, d, pp, p, perm, r.value);
      UpdatedTrans(v, u, Insert(v, d, pp, p, perm).0, d, p, Some(MkPte(pp, perm)));
      InsertedKindsTrans(v, u, Insert(v, d, pp, p, perm).0, d, pp, p);
    }
  }

  /** At a count of 65535 page_insert elsewhere sets it to 0, for a page that is mapped. */
  lemma InsertWraps(v: Vm, d: nat, pp: nat, p: VPage, perm: nat)
    requires CanInsert(v, d, pp, p, perm) && !NoTable(v, d, p)
    requires v.pages[pp].ref == 0xFFFF && !SamePage(v, d, pp, p)
    ensures var w := Insert(v, d, pp, p, perm).0; w.kind[pp] == Leaf && w.pages[pp].ref == 0 && !Inv(w)
  {
    hide Inv, Shape, FreeListOk, CountsOk, PgdirWalk, InsertAt, SameView, Sizes;
    var (u, r) := PgdirWalk(v, d, p, true);
    assert Owns(v.kind[d], p.pdx);
    PgdirWalkKeepsInv(v, d, p, true);
    WalkKeepsCount(v, d, p, pp);
    SamePageAfterWalk(v, u, d, pp, p);
    OtherEntry(u, d, pp, p, r.value);
    InsertAtWraps(u, d, pp, p, perm, r.value);
    WrappedIsWrong(InsertAt(u, d, pp, p, perm, r.value), pp);
  }

  lemma SamePageAfterWalk(v: Vm, u: Vm, d: nat, pp: nat, p: VPage)
    requires Sizes(v) && Sizes(u) && SameView(v, u) && d < |v.mem| && IsDir(v.kind[d]) && UserPage(p)
    ensures d < |u.mem| && (SamePage(u, d, pp, p) <==> SamePage(v, d, pp, p))
  {
    assert Tracked(v, d, p);
  }

  /** The entry for a page that is not mapped to pp does not name pp. */
  lemma OtherEntry(u: Vm, d: nat, pp: nat, p: VPage, t: nat)
    requires Inv(u) && CanInsert(u, d, pp, p, 0) && !SamePage(u, d, pp, p) && t < |u.mem|
    requires u.kind[t] == Table(d, p.pdx) && Present(u.mem[d][p.pdx]) && FrameOf(u.mem[d][p.pdx]) == t
    ensures FrameOf(u.mem[t][p.ptx]) != pp
  {
    var pte := u.mem[t][p.ptx];
    assert PteOk(u, pte);
    assert u.kind[0] == Reserved;
  }

  lemma WrappedIsWrong(w: Vm, f: nat)
    requires Lengths(w) && f < |w.mem| && w.kind[f] == Leaf && w.pages[f].ref == 0
    ensures !Inv(w)
  {
    assert Inv(w) ==> CountOk(w, f);
  }

  lemma WalkKeepsCount(v: Vm, d: nat, p: VPage, pp: nat)
    requires Inv(v) && d < |v.mem| && pp < |v.mem| && v.kind[pp] != Free
    ensures PgdirWalk(v, d, p, true).0.pages[pp].ref == v.pages[pp].ref
  {
    if v.head.Some? {
      HeadIsFree(v);
    }
  }

  lemma InsertAtWraps(u: Vm, d: nat, pp: nat, p: VPage, perm: nat, t: nat)
    requires Lengths(u) && d < |u.mem| && pp < |u.mem| && perm < 4096 && t < |u.mem|
    requires FrameOf(u.mem[t][p.ptx]) != pp && u.pages[pp].ref == 0xFFFF
    requires Present(u.mem[t][p.ptx]) ==> FrameOf(u.mem[d][p.pdx]) == t
    ensures var w := InsertAt(u, d, pp, p, perm, t); w.kind[pp] == Leaf && w.pages[pp].ref == 0
  {
  }

  lemma InsertedKindsTrans(v: Vm, u: Vm, w: Vm, d: nat, pp: nat, p: VPage)
    requires Sizes(v) && Sizes(u) && Sizes(w) && WalkedKinds(v, u, d, p.pdx) && InsertedKinds(u, w, d, pp, p)
    ensures InsertedKinds(v, w, d, pp, p)
  {
  }

  /** The entry for a page with table t. */
  lemma EntryIs(u: Vm, d: nat, p: VPage, t: nat)
    requires Inv(u) && UserPage(p) && t < |u.mem| && u.kind[t] == Table(d, p.pdx)
    ensures d < |u.mem| && var pte := u.mem[t][p.ptx];
      && (pte == 0 || (Present(pte) && FrameOf(pte) < |u.mem| && u.kind[FrameOf(pte)] == Leaf))
      && Walk(u.mem, d, p) == if pte == 0 then None else Some(pte)
    ensures u.kind[0] == Reserved
  {
    assert TableOk(u, t) && PteOk(u, u.mem[t][p.ptx]);
  }

  lemma InsertAtIs(u: Vm, d: nat, pp: nat, p: VPage, perm: nat, t: nat)
    requires Lengths(u) && d < |u.mem| && pp < |u.mem| && perm < 4096 && t < |u.mem|
    ensures var pte := u.mem[t][p.ptx];
      InsertAt(u, d, pp, p, perm, t) ==
        if FrameOf(pte) == pp then SetWord(u, t, p.ptx, MkPte(pp, perm))
        else MapPage(if Present(pte) then Remove(u, d, p) else u, t, pp, p.ptx, perm)
  {
    hide Remove, MapPage, SetWord;
  }

  lemma OneInserted(u: Vm, w: Vm, d: nat, pp: nat, p: VPage)
    requires Sizes(u) && Sizes(w) && |w.mem| == |u.mem| && pp < |u.mem| && w.kind == u.kind[pp := Leaf]
    ensures InsertedKinds(u, w, d, pp, p)
  {
  }

  /** The steps of page_insert once the table is there. */
  lemma InsertAtUpdates(u: Vm, d: nat, pp: nat, p: VPage, perm: nat, t: nat)
    requires CanInsert(u, d, pp, p, perm)
    requires t < |u.mem| && u.kind[t] == Table(d, p.pdx)
    requires u.pages[pp].ref < 0xFFFF || SamePage(u, d, pp, p)
    ensures var w := InsertAt(u, d, pp, p, perm, t);
      Inv(w) && Updated(u, w, d, p, Some(MkPte(pp, perm))) && InsertedKinds(u, w, d, pp, p)
  {
    hide Inv, Shape, FreeListOk, CountsOk, Updated, InsertedKinds, Walk, Remove, InsertAt, MapPage, SetWord, MkPte;
    var pte, w := u.mem[t][p.ptx], InsertAt(u, d, pp, p, perm, t);
    EntryIs(u, d, p, t);
    InsertAtIs(u, d, pp, p, perm, t);
    if FrameOf(pte) == pp {
      RemapKeepsInv(u, d, p, t, pp, perm);
      assert u.kind == u.kind[pp := Leaf];
      OneInserted(u, w, d, pp, p);
    } else if pte == 0 {
      MapNewKeepsInv(u, d, p, t, pp, perm);
      OneInserted(u, w, d, pp, p);
    } else {
      ReplaceKeepsInv(u, d, p, t, pp, perm);
    }
  }

  /** page_insert over another page: page_remove first, then the new mapping. */
  lemma ReplaceKeepsInv(u: Vm, d: nat, p: VPage, t: nat, pp: nat, perm: nat)
    requires Inv(u) && Mapped(u, d, p) && FrameOf(Walk(u.mem, d, p).value) != pp
    requires t < |u.mem| && u.kind[t] == Table(d, p.pdx)
    requires pp < |u.mem| && (u.kind[pp] == Held || u.kind[pp] == Leaf) && perm < 4096
    requires u.pages[pp].ref < 0xFFFF
    ensures var w := MapPage(Remove(u, d, p), t, pp, p.ptx, perm);
      && Inv(w) && Updated(u, w, d, p, Some(MkPte(pp, perm)))
      && InsertedKinds(u, w, d, pp, p)
  {
    hide Inv, Shape, FreeListOk, CountsOk, Remove, Sizes;
    MappedFacts(u, d, p);
    RemoveKeepsInv(u, d, p);
    RemoveFields(u, d, p, FrameOf(Walk(u.mem, d, p).value));
    var x := Remove(u, d, p);
    assert Tracked(u, d, p) && Walk(x.mem, d, p) == None;
    assert x.kind[t] == u.kind[t] && x.kind[pp] == u.kind[pp] && x.pages[pp] == u.pages[pp];
    hide Updated;
    MapNewKeepsInv(x, d, p, t, pp, perm);
    UpdatedTrans(u, x, MapPage(x, t, pp, p.ptx, perm), d, p, Some(MkPte(pp, perm)));
  }

  /** Under the invariant page_lookup names page 0 or a leaf, neither of which has a link. */
  lemma RemoveInBounds(v: Vm, d: nat, p: VPage)
    requires Inv(v) && d < |v.mem| && IsDir(v.kind[d]) && UserPage(p)
    ensures var f := LookupFrame(v, d, p);
      && (f == None <==> v.mem[d][p.pdx] == 0)
      && (f.Some? ==> f.value < |v.mem| && v.pages[f.value].link == None)
      && (f.Some? ==> FrameOf(v.mem[d][p.pdx]) < |v.mem| && v.kind[FrameOf(v.mem[d][p.pdx])] == Table(d, p.pdx))
      && (f.Some? && !Mapped(v, d, p) ==> f.value == 0 && v.mem[FrameOf(v.mem[d][p.pdx])][p.ptx] == 0)
  {
    assert Owns(v.kind[d], p.pdx) && PdeOk(v, d, p.pdx);
    if v.mem[d][p.pdx] != 0 {
      assert PteOk(v, v.mem[FrameOf(v.mem[d][p.pdx])][p.ptx]);
    }
  }

  /**
   * page_remove at an unmapped page is promised to do nothing.  It does nothing exactly when the page has
   * no page table.  With a table in place it takes one reference from physical page 0, and the first such
   * call, when that count is 1, puts page 0 on the free list.
   */
  lemma RemoveUnmapped(v: Vm, d: nat, p: VPage)
    requires Inv(v) && d < |v.mem| && IsDir(v.kind[d]) && UserPage(p) && !Mapped(v, d, p)
    ensures Remove(v, d, p) == v <==> v.mem[d][p.pdx] == 0
    ensures v.mem[d][p.pdx] != 0 ==>
      var w := Remove(v, d, p);
      && w.pages[0].ref == Dec16(v.pages[0].ref)
      && (Inv(w) <==> v.pages[0].ref != 1)
      && (v.pages[0].ref == 1 ==> w.head == Some(0))
  {
    RemoveInBounds(v, d, p);
    if v.mem[d][p.pdx] == 0 {
      hide Inv, Mapped;
    } else {
      hide Inv, Remove, Mapped, Dec16;
      var w := Remove(v, d, p);
      RemoveOfZero(v, d, p);
      if v.pages[0].ref == 1 {
        FreeZeroBreaks(w);
      } else {
        ChangePageZero(v, w);
      }
    }
  }

  lemma RemoveOfZero(v: Vm, d: nat, p: VPage)
    requires Lengths(v) && d < |v.mem| && LookupFrame(v, d, p) == Some(0)
    requires var t := FrameOf(v.mem[d][p.pdx]); t < |v.mem| && v.mem[t][p.ptx] == 0
    ensures var w, ref := Remove(v, d, p), Dec16(v.pages[0].ref);
      && w != v && w.pages[0].ref == ref
      && (v.pages[0].ref == 1 ==> w.kind[0] == Free && w.head == Some(0))
      && (v.pages[0].ref != 1 ==>
            && w.mem == v.mem && w.kind == v.kind && w.kern == v.kern && w.head == v.head && w.fl == v.fl
            && w.pages == v.pages[0 := PageInfo(v.pages[0].link, ref)])
  {
    var t, w := FrameOf(v.mem[d][p.pdx]), Remove(v, d, p);
    assert v.mem[t] == v.mem[t][p.ptx := 0];
    assert w.pages[0].ref == Dec16(v.pages[0].ref) != v.pages[0].ref;
  }

  lemma FreeZeroBreaks(w: Vm)
    requires Lengths(w) && w.kind[0] == Free
    ensures !Inv(w)
  {
    hide Shape, FreeListOk, CountsOk;
  }

  /** The invariant says nothing about the count of page 0. */
  lemma ChangePageZero(v: Vm, w: Vm)
    requires Inv(v) && Lengths(w)
    requires w.mem == v.mem && w.kind == v.kind && w.kern == v.kern && w.head == v.head && w.fl == v.fl
    requires w.pages == v.pages[0 := PageInfo(v.pages[0].link, w.pages[0].ref)]
    ensures Inv(w)
  {
    hide Inv, Shape, FreeListOk, CountsOk, SameView, SameUser;
    ShapeIgnoresOthers(v, w);
    SameViewSameUser(v, w);
    FreeListIgnoresOthers(v, w);
    CountsIgnoreOthers(v, w, 0);
    InvIntro(w);
  }

  /** So page_remove is not idempotent: a second call on the same page changes the state again. */
  lemma RemoveTwice(v: Vm, d: nat, p: VPage)
    requires Inv(v) && Mapped(v, d, p)
    ensures Remove(Remove(v, d, p), d, p) != Remove(v, d, p)
  {
    RemoveKeepsInv(v, d, p);
    MappedFacts(v, d, p);
    RemoveFields(v, d, p, FrameOf(Walk(v.mem, d, p).value));
    var w := Remove(v, d, p);
    assert Tracked(v, d, p);
    assert w.mem[d][p.pdx] == v.mem[d][p.pdx];
    hide Inv, Remove, Updated;
    RemoveUnmapped(w, d, p);
  }

  // ---- page 0 ----

  /** Under the invariant no address space maps page 0. */
  lemma ZeroIsNotMapped(v: Vm, d: nat, p: VPage)
    requires Inv(v) && Mapped(v, d, p)
    ensures FrameOf(Walk(v.mem, d, p).value) != 0
  {
    MappedFacts(v, d, p);
  }

  /**
   * page_insert of page 0, which page_lookup names for a page that is not mapped: unless it fails for want of
   * a page table, the target shows page 0 to the user, and the invariant is broken.
   */
  lemma InsertPageZero(v: Vm, d: nat, p: VPage, perm: nat)
    requires Inv(v) && d < |v.mem| && IsDir(v.kind[d]) && UserPage(p) && perm < 4096
    ensures var (w, ok) := Insert(v, d, 0, p, perm);
      && (ok <==> !NoTable(v, d, p)) && (!ok ==> w == v)
      && (ok ==> d < |w.mem| && Walk(w.mem, d, p) == Some(MkPte(0, perm)))
      && (Inv(w) <==> NoTable(v, d, p))
  {
    hide Inv, Shape, FreeListOk, CountsOk, SameView, PgdirWalk, InsertAt, Sizes;
    var (u, r) := PgdirWalk(v, d, p, true);
    assert Owns(v.kind[d], p.pdx);
    PgdirWalkKeepsInv(v, d, p, true);
    if r.Some? {
      TableIsNoDir(u, d, r.value, p.pdx);
      InsertAtShows(u, d, 0, p, perm, r.value);
      ShownBreaks(InsertAt(u, d, 0, p, perm, r.value), d, p, perm);
    }
  }

  lemma TableIsNoDir(u: Vm, d: nat, t: nat, i: Index)
    requires Inv(u) && d < |u.mem| && IsDir(u.kind[d]) && t < |u.mem| && u.kind[t] == Table(d, i)
    ensures t != d && u.kind[0] == Reserved && d != 0
  {
  }

  /** After page_insert found its table the entry is the new one. */
  lemma InsertAtShows(u: Vm, d: nat, pp: nat, p: VPage, perm: nat, t: nat)
    requires Inv(u) && d < |u.mem| && IsDir(u.kind[d]) && UserPage(p) && pp < |u.mem| && perm < 4096 && pp != d
    requires t < |u.mem| && u.kind[t] == Table(d, p.pdx) && t != d
    requires Present(u.mem[d][p.pdx]) && FrameOf(u.mem[d][p.pdx]) == t
    ensures var w := InsertAt(u, d, pp, p, perm, t);
      d < |w.mem| && Walk(w.mem, d, p) == Some(MkPte(pp, perm)) && IsDir(w.kind[d])
  {
    RemoveInBounds(u, d, p);
    var x := Remove(u, d, p);
    RemoveRow(u, d, p, t);
    hide Inv, Shape, FreeListOk, CountsOk, Remove;
    assert x.mem[d] == u.mem[d];
  }

  lemma RemoveRow(u: Vm, d: nat, p: VPage, t: nat)
    requires Inv(u) && d < |u.mem| && IsDir(u.kind[d]) && UserPage(p)
    requires t < |u.mem| && t != d && Present(u.mem[d][p.pdx]) && FrameOf(u.mem[d][p.pdx]) == t
    ensures var x := Remove(u, d, p); x.mem == u.mem[t := u.mem[t][p.ptx := 0]] && x.kind[d] == u.kind[d]
  {
    RemoveInBounds(u, d, p);
    if Mapped(u, d, p) {
      MappedFacts(u, d, p);
    }
    assert u.kind[0] == Reserved;
    assert LookupFrame(u, d, p).Some?;
    var f := LookupFrame(u, d, p).value;
    assert f < |u.mem| && u.kind[f] != u.kind[d];
    hide Inv, Shape, FreeListOk, CountsOk, LookupFrame, Mapped, Walk;
  }

  lemma ShownBreaks(w: Vm, d: nat, p: VPage, perm: nat)
    requires Lengths(w) && d < |w.mem| && IsDir(w.kind[d]) && UserPage(p) && perm < 4096
    requires Walk(w.mem, d, p) == Some(MkPte(0, perm))
    ensures !Inv(w)
  {
    hide Walk;
    if Inv(w) {
      ZeroIsNotMapped(w, d, p);
    }
  }

  /** What page_lookup names for a page that is not mapped: page 0 if it has a page table, nothing otherwise. */
  lemma LookupUnmapped(v: Vm, d: nat, p: VPage)
    requires Inv(v) && d < |v.mem| && IsDir(v.kind[d]) && UserPage(p) && !Mapped(v, d, p)
    ensures LookupFrame(v, d, p) == if v.mem[d][p.pdx] == 0 then None else Some(0)
    ensures v.mem[d][p.pdx] != 0 ==>
      var t := FrameOf(v.mem[d][p.pdx]); t < |v.mem| && v.mem[t][p.ptx] == 0
  {
    RemoveInBounds(v, d, p);
  }

  /** page_insert keeps the invariant exactly if it fails, or the page is not page 0 and its count does not wrap. */
  lemma InsertIsExact(v: Vm, d: nat, pp: nat, p: VPage, perm: nat)
    requires MayInsert(v, d, pp, p, perm)
    ensures var (w, ok) := Insert(v, d, pp, p, perm);
      && (ok <==> !NoTable(v, d, p)) && (!ok ==> w == v)
      && (Inv(w) <==> !ok || (pp != 0 && (v.pages[pp].ref < 0xFFFF || SamePage(v, d, pp, p))))
  {
    hide Inv, Insert, NoTable, SamePage, Updated, InsertedKinds;
    if pp == 0 {
      InsertPageZero(v, d, p, perm);
    } else {
      InsertUpdates(v, d, pp, p, perm);
    }
  }
}
