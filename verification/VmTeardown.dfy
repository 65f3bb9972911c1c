/** Building an address space, using it in any way, and tearing it down again: what is left as it was. */
module VmTeardown {
  import opened Wrappers
  import opened Mmu
  import opened VmState
  import opened VmAlloc
  import opened VmPaging
  import opened VmPagingProofs
  import opened VmSpaces
  import opened VmTlb
  import opened VmRuns

  /** Steps that work on address space d, or on none. */
  predicate OnlyOn(s: Step, d: nat) {
    match s
    case Map(e, _, _, _) => e == d
    case Unmap(e, _) => e == d
    case NewSpace => false
    case ReleaseTable(e, _) => e == d
    case ReleaseDir(e) => e == d
    case _ => true
  }

  predicate AllOn(steps: seq<Step>, d: nat) { forall k :: 0 <= k < |steps| ==> OnlyOn(steps[k], d) }

  /** Uses of a frame that work on address space d neither starts nor ends. */
  predicate Fixed(k: Kind, d: nat) {
    k.Reserved? || k.KernDir? || k.EnvDir? || (k.Table? && k.dir != d)
  }

  /** The steps of env_free: none of them takes a page or gives a held one back. */
  predicate Releasing(s: Step) { s.Unmap? || s.ReleaseTable? || s.ReleaseDir? || s.Cpu? }

  predicate AllReleasing(steps: seq<Step>) { forall k :: 0 <= k < |steps| ==> Releasing(steps[k]) }

  /** The frames that callers hold are the same. */
  ghost predicate SameHeld(v: Vm, w: Vm)
    requires Lengths(v) && Lengths(w)
  {
    |w.mem| == |v.mem| && forall f :: 0 <= f < |v.mem| ==> (w.kind[f] == Held <==> v.kind[f] == Held)
  }

  /** w comes from v by work on address space d only. */
  ghost predicate Touches(v: Vm, w: Vm, d: nat)
    requires Lengths(v) && Lengths(w)
  {
    && |w.mem| == |v.mem|
    && (forall m: Mapping :: m.dir != d ==> UserMap(w, m) == UserMap(v, m))
    && (forall f :: 0 <= f < |v.mem| && f != d && (Fixed(v.kind[f], d) || Fixed(w.kind[f], d)) ==>
          w.kind[f] == v.kind[f])
    && (d < |v.mem| ==> w.kind[d] == v.kind[d] || w.kind[d] == Free || w.kind[d] == Held || w.kind[d] == Leaf)
  }

  lemma TouchesTrans(u: Vm, v: Vm, w: Vm, d: nat)
    requires Lengths(u) && Lengths(v) && Lengths(w) && Touches(u, v, d) && Touches(v, w, d)
    ensures Touches(u, w, d)
  {
    forall m: Mapping | m.dir != d ensures UserMap(w, m) == UserMap(u, m) {
      assert UserMap(v, m) == UserMap(u, m);
    }
  }

  lemma SameUserTouches(v: Vm, w: Vm, d: nat)
    requires Lengths(v) && Lengths(w) && SameUser(v, w)
    requires forall f :: 0 <= f < |v.mem| && f != d && (Fixed(v.kind[f], d) || Fixed(w.kind[f], d)) ==>
               w.kind[f] == v.kind[f]
    requires d < |v.mem| ==> w.kind[d] == v.kind[d] || w.kind[d] == Free || w.kind[d] == Held || w.kind[d] == Leaf
    ensures Touches(v, w, d)
  {
  }

  lemma UpdatedKeepsOthers(v: Vm, w: Vm, d: nat, p: VPage, e: Option<Word>, m: Mapping)
    requires Sizes(v) && Sizes(w) && UserPage(p) && Updated(v, w, d, p, e)
    ensures m != Mapping(d, p) ==> UserMap(w, m) == UserMap(v, m)
  {
    if UserPage(m.page) && Tracked(v, m.dir, m.page) {
      assert Walk(w.mem, m.dir, m.page) == if m.dir == d && m.page == p then e else Walk(v.mem, m.dir, m.page);
    }
  }

  lemma MapTouches(v: Vm, d: nat, pp: nat, p: VPage, perm: nat)
    requires CanInsert(v, d, pp, p, perm) && (v.pages[pp].ref < 0xFFFF || SamePage(v, d, pp, p))
    ensures Touches(v, Insert(v, d, pp, p, perm).0, d)
  {
    hide Inv, Shape, FreeListOk, CountsOk, Updated, Insert, Sizes, NoTable, SamePage;
    InsertUpdates(v, d, pp, p, perm);
    var (w, ok) := Insert(v, d, pp, p, perm);
    if ok {
      forall m: Mapping | m.dir != d ensures UserMap(w, m) == UserMap(v, m) {
        UpdatedKeepsOthers(v, w, d, p, Some(MkPte(pp, perm)), m);
      }
    }
  }

  lemma UnmapTouches(v: Vm, d: nat, p: VPage)
    requires Inv(v) && Mapped(v, d, p)
    ensures Touches(v, Remove(v, d, p), d)
  {
    hide Inv, Shape, FreeListOk, CountsOk, Updated, Remove, Sizes, Mapped, UserMap, Walk, IsDir, UserPage;
    MappedPage(v, d, p);
    RemoveKeepsInv(v, d, p);
    var w := Remove(v, d, p);
    forall m: Mapping | m.dir != d ensures UserMap(w, m) == UserMap(v, m) {
      UpdatedKeepsOthers(v, w, d, p, None, m);
    }
  }

  lemma MappedPage(v: Vm, d: nat, p: VPage)
    requires Sizes(v) && Mapped(v, d, p)
    ensures d < |v.mem| && IsDir(v.kind[d]) && UserPage(p)
  {
  }

  lemma StepTouches(v: Vm, s: Step, d: nat)
    requires Inv(v) && Enabled(v, s) && OnlyOn(s, d)
    ensures Touches(v, After(v, s), d)
  {
    hide Inv, Shape, FreeListOk, CountsOk, SameView, SameUser, Updated, Touches;
    match s
    case Take(flags) =>
      AllocKeepsInv(v, flags);
      SameViewSameUser(v, Alloc(v, flags).0);
      SameUserTouches(v, Alloc(v, flags).0, d);
    case Give(f) =>
      FreeKeepsInv(v, f);
      SameViewSameUser(v, Push(v, f));
      SameUserTouches(v, Push(v, f), d);
    case Map(_, pp, p, perm) => MapTouches(v, d, pp, p, perm);
    case Unmap(_, p) => UnmapTouches(v, d, p);
    case ReleaseTable(_, i) =>
      DropTableKeepsInv(v, d, i);
      SameUserTouches(v, DropTable(v, d, i), d);
    case ReleaseDir(_) =>
      DropDirKeepsInv(v, d);
      SameUserTouches(v, Decref(v, d), d);
    case Cpu(cr3, cur, tlb) =>
      var w := v.(cr3 := cr3, cur := cur, tlb := tlb);
      InvIgnoresCpu(v, w);
      SameUserTouches(v, w, d);
  }

  lemma TouchesRefl(v: Vm, d: nat)
    requires Lengths(v)
    ensures Touches(v, v, d)
  {
  }

  lemma {:induction false} RunTouches(v: Vm, steps: seq<Step>, w: Vm, d: nat)
    requires Inv(v) && Run(v, steps, w) && AllOn(steps, d)
    ensures Inv(w) && Touches(v, w, d)
    decreases |steps|
  {
    if steps == [] {
      TouchesRefl(v, d);
    } else {
      StepKeepsInv(v, steps[0]);
      StepTouches(v, steps[0], d);
      var u := After(v, steps[0]);
      hide Inv, Touches, Shape, FreeListOk, CountsOk;
      RunTouches(u, steps[1..], w, d);
      TouchesTrans(v, u, w, d);
    }
  }

  /** A leaf is mapped somewhere, and nothing but a leaf is. */
  lemma LeafIffMapped(v: Vm, f: nat)
    requires Inv(v) && f < |v.mem|
    ensures v.kind[f] == Leaf <==> Mappings(v, f) != {}
    ensures v.kind[f] == Leaf ==> v.pages[f].ref == |Mappings(v, f)|
  {
    assert CountOk(v, f);
    if v.kind[f] != Leaf {
      OnlyLeavesAreMapped(v, f);
    }
  }

  /** No frame is a page table of a directory that is none. */
  lemma NoTableOf(v: Vm, d: nat, f: nat)
    requires Inv(v) && d < |v.mem| && !IsDir(v.kind[d]) && f < |v.mem|
    ensures !(v.kind[f].Table? && v.kind[f].dir == d)
  {
    assert v.kind[f].Table? ==> TableOk(v, f);
  }

  /** The mappings of a frame in address spaces other than d. */
  ghost function MappingsElsewhere(v: Vm, f: nat, d: nat): set<Mapping>
    requires Lengths(v)
  {
    set m | m in Mappings(v, f) && m.dir != d
  }

  lemma TornMappings(v: Vm, w: Vm, d: nat, f: nat)
    requires Lengths(v) && Lengths(w) && Touches(v, w, d) && d < |w.mem| && !IsDir(w.kind[d])
    ensures Mappings(w, f) == MappingsElsewhere(v, f, d)
  {
    forall m: Mapping ensures MapsTo(w, m, f) <==> MapsTo(v, m, f) && m.dir != d {
      if m.dir != d {
        assert UserMap(w, m) == UserMap(v, m);
      }
    }
  }

  lemma SameHeldTrans(u: Vm, v: Vm, w: Vm)
    requires Lengths(u) && Lengths(v) && Lengths(w) && SameHeld(u, v) && SameHeld(v, w)
    ensures SameHeld(u, w)
  {
  }

  lemma StepSameHeld(v: Vm, s: Step)
    requires Inv(v) && Enabled(v, s) && Releasing(s)
    ensures Inv(After(v, s)) && SameHeld(v, After(v, s))
  {
    StepKeepsInv(v, s);
    hide Inv, Shape, FreeListOk, CountsOk, SameUser, OthersKeep, Updated, Remove, DropTable, Decref, Walk, Mapped,
      SameHeld;
    match s
    case Unmap(d, p) => UnmapHeld(v, d, p);
    case ReleaseTable(d, i) =>
      DropTableKeepsInv(v, d, i);
      OneUseChanges(v, DropTable(v, d, i), FrameOf(v.mem[d][i]));
    case ReleaseDir(d) =>
      DropDirKeepsInv(v, d);
      OneUseChanges(v, Decref(v, d), d);
    case Cpu(_, _, _) => SameHeldIfSameKind(v, After(v, s));
  }

  lemma UnmapHeld(v: Vm, d: nat, p: VPage)
    requires Inv(v) && Mapped(v, d, p)
    ensures SameHeld(v, Remove(v, d, p))
  {
    hide Inv, Remove, SameHeld, Updated;
    RemoveKeepsInv(v, d, p);
    OneUseChanges(v, Remove(v, d, p), FrameOf(Walk(v.mem, d, p).value));
  }

  lemma OneUseChanges(v: Vm, w: Vm, f: nat)
    requires Lengths(v) && Lengths(w) && |w.mem| == |v.mem| && f < |v.mem|
    requires w.kind == v.kind[f := w.kind[f]] && v.kind[f] != Held && w.kind[f] != Held
    ensures SameHeld(v, w)
  {
  }

  lemma SameHeldIfSameKind(v: Vm, w: Vm)
    requires Lengths(v) && Lengths(w) && |w.mem| == |v.mem| && w.kind == v.kind
    ensures SameHeld(v, w)
  {
  }

  /** Releasing takes no page: what was held is held, and nothing else is. */
  lemma {:induction false} RunSameHeld(v: Vm, steps: seq<Step>, w: Vm)
    requires Inv(v) && Run(v, steps, w) && AllReleasing(steps)
    ensures Inv(w) && SameHeld(v, w)
    decreases |steps|
  {
    hide Inv, Enabled, After;
    if steps == [] {
    } else {
      var u := After(v, steps[0]);
      StepSameHeld(v, steps[0]);
      RunSameHeld(u, steps[1..], w);
      SameHeldTrans(v, u, w);
    }
  }

  /**
   * Tearing down address space d: a page loses exactly its mappings in d.  If other address spaces map it,
   * it stays with the count of their mappings; otherwise it ends unreferenced: on the free list, unless a
   * caller holds it, which none does if the frames held are the same.
   */
  lemma SharedPagesSurvive(v: Vm, w: Vm, d: nat, f: nat)
    requires Inv(v) && Inv(w) && Touches(v, w, d) && d < |w.mem| && !IsDir(w.kind[d])
    requires f < |v.mem| && v.kind[f] == Leaf
    ensures w.pages[f].ref == |MappingsElsewhere(v, f, d)|
    ensures if MappingsElsewhere(v, f, d) != {} then w.kind[f] == Leaf else w.kind[f] == Free || w.kind[f] == Held
    ensures SameHeld(v, w) && MappingsElsewhere(v, f, d) == {} ==> w.kind[f] == Free
  {
    TornMappings(v, w, d, f);
    LeafIffMapped(w, f);
    NoTableOf(w, d, f);
    assert CountOk(w, f);
  }

  /** The use of frame f after address space d was released: its directory, its tables and its own pages are free. */
  ghost function Torn(v: Vm, d: nat, f: nat): Kind
    requires Lengths(v) && f < |v.mem|
  {
    if f == d || (v.kind[f].Table? && v.kind[f].dir == d) || (v.kind[f] == Leaf && MappingsElsewhere(v, f, d) == {})
    then Free else v.kind[f]
  }

  /** Every frame is in that use, the free ones are on the list once, and shared pages keep their other mappings. */
  ghost predicate TornDown(v: Vm, w: Vm, d: nat)
    requires Lengths(v) && Lengths(w)
  {
    && |w.mem| == |v.mem|
    && (forall f :: 0 <= f < |v.mem| ==> w.kind[f] == Torn(v, d, f))
    && (forall f :: 0 <= f < |v.mem| ==> multiset(w.fl)[f] == if Torn(v, d, f) == Free then 1 else 0)
    && (forall f :: 0 <= f < |v.mem| && v.kind[f] == Leaf ==> w.pages[f].ref == |MappingsElsewhere(v, f, d)|)
    && (forall m: Mapping :: UserMap(w, m) == if m.dir == d then None else UserMap(v, m))
  }

  /** Releasing steps on address space d that end with its directory free leave exactly that. */
  lemma ReleasedIsTornDown(v: Vm, steps: seq<Step>, w: Vm, d: nat)
    requires Inv(v) && Run(v, steps, w) && AllOn(steps, d) && AllReleasing(steps)
    requires d < |v.mem| && v.kind[d] == EnvDir && d < |w.kind| && w.kind[d] == Free
    ensures Inv(w) && TornDown(v, w, d)
  {
    hide Inv, Run, AllOn, AllReleasing, MappingsElsewhere, Touches, SameHeld, Mappings;
    RunTouches(v, steps, w, d);
    RunSameHeld(v, steps, w);
    TouchesMappings(v, w, d);
    forall f: nat | f < |v.mem|
      ensures w.kind[f] == Torn(v, d, f) && multiset(w.fl)[f] == if Torn(v, d, f) == Free then 1 else 0
      ensures v.kind[f] == Leaf ==> w.pages[f].ref == |MappingsElsewhere(v, f, d)|
    {
      TornKind(v, w, d, f);
      FreeOnce(w, f);
    }
  }

  lemma TouchesMappings(v: Vm, w: Vm, d: nat)
    requires Lengths(v) && Lengths(w) && Touches(v, w, d) && d < |w.mem| && !IsDir(w.kind[d])
    ensures |w.mem| == |v.mem|
    ensures forall m: Mapping :: UserMap(w, m) == if m.dir == d then None else UserMap(v, m)
  {
  }

  lemma FreeOnce(w: Vm, f: nat)
    requires Inv(w) && f < |w.mem|
    ensures multiset(w.fl)[f] == if w.kind[f] == Free then 1 else 0
  {
    OnceInList(w.fl, f);
  }

  lemma TornKind(v: Vm, w: Vm, d: nat, f: nat)
    requires Inv(v) && Inv(w) && Touches(v, w, d) && SameHeld(v, w)
    requires d < |w.mem| && v.kind[d] == EnvDir && w.kind[d] == Free && f < |v.mem|
    ensures w.kind[f] == Torn(v, d, f)
    ensures v.kind[f] == Leaf ==> w.pages[f].ref == |MappingsElsewhere(v, f, d)|
  {
    hide Inv, MappingsElsewhere, Mappings;
    if v.kind[f] == Leaf {
      SharedPagesSurvive(v, w, d, f);
    } else if f != d {
      TornMappings(v, w, d, f);
      LeafIffMapped(v, f);
      NotElsewhere(v, f, d);
      LeafIffMapped(w, f);
      NoTableOf(w, d, f);
    }
  }

  lemma NotElsewhere(v: Vm, f: nat, d: nat)
    requires Lengths(v) && Mappings(v, f) == {}
    ensures MappingsElsewhere(v, f, d) == {}
  {
  }

  /** w has the uses of v, but that a frame may have been taken from the free list or given back. */
  ghost predicate SameUses(v: Vm, w: Vm)
    requires Lengths(v) && Lengths(w)
  {
    && |w.mem| == |v.mem|
    && forall f :: 0 <= f < |v.mem| ==>
         w.kind[f] == v.kind[f] || ((v.kind[f] == Free || v.kind[f] == Held)
             && (w.kind[f] == Free || w.kind[f] == Held))
  }

  lemma SpaceLeavesNothing(v: Vm, u: Vm, w: Vm, d: nat)
    requires Inv(v) && Inv(u) && Inv(w) && SameUser(v, u) && Touches(u, w, d)
    requires d < |v.mem| && v.kind[d] == Free && u.kind == v.kind[d := EnvDir] && !IsDir(w.kind[d])
    ensures SameUser(v, w) && SameUses(v, w)
  {
    forall m: Mapping ensures UserMap(w, m) == UserMap(v, m) {
      assert UserMap(u, m) == UserMap(v, m);
    }
    forall f | 0 <= f < |v.mem|
      ensures w.kind[f] == v.kind[f] ||
              ((v.kind[f] == Free || v.kind[f] == Held) && (w.kind[f] == Free || w.kind[f] == Held))
    {
      SameUse(v, u, w, d, f);
    }
  }

  lemma SameUse(v: Vm, u: Vm, w: Vm, d: nat, f: nat)
    requires Inv(v) && Inv(u) && Inv(w) && Touches(u, w, d) && SameUser(v, w) && f < |v.mem|
    requires d < |v.mem| && v.kind[d] == Free && u.kind == v.kind[d := EnvDir] && !IsDir(w.kind[d])
    ensures w.kind[f] == v.kind[f] ||
            ((v.kind[f] == Free || v.kind[f] == Held) && (w.kind[f] == Free || w.kind[f] == Held))
  {
    hide Inv, Shape, FreeListOk, CountsOk, SameUser, Mappings, UserMap;
    NoTableOf(w, d, f);
    NoTableOf(v, d, f);
    LeafIffMapped(v, f);
    LeafIffMapped(w, f);
    SameUserSameMappings(v, w, f);
  }

  /** Equal uses and equal mappings mean equal reference counts. */
  lemma SameUsesSameRefs(v: Vm, w: Vm, f: nat)
    requires Inv(v) && Inv(w) && SameUser(v, w) && SameUses(v, w) && f < |v.mem| && Managed(v.kind[f])
    ensures w.pages[f].ref == v.pages[f].ref
  {
    assert CountOk(v, f) && CountOk(w, f);
    SameUserSameMappings(v, w, f);
  }

  /** Equal uses mean equal free lists, in some order. */
  lemma SameKindsSameFree(v: Vm, w: Vm)
    requires Inv(v) && Inv(w) && w.kind == v.kind && |w.mem| == |v.mem|
    ensures multiset(w.fl) == multiset(v.fl)
  {
    forall f: nat ensures multiset(w.fl)[f] == multiset(v.fl)[f] {
      OnceInList(v.fl, f);
      OnceInList(w.fl, f);
    }
  }

  /**
   * The round trip: env_setup_vm makes address space d, any work on it follows, and in the end its directory
   * has been released.  Then every address space maps what it mapped at the start, every frame has its old
   * use and reference count, and, if the frames held by callers are the same ones, the free list holds
   * exactly the old frames: each page of d was returned once.
   */
  lemma SpaceRoundTrip(v: Vm, w: Vm)
    requires Inv(v) && SetupVm(v).1.Some? && Inv(w)
    requires var d := SetupVm(v).1.value; Touches(SetupVm(v).0, w, d) && d < |w.kind| && !IsDir(w.kind[d])
    ensures SameUser(v, w) && SameUses(v, w)
    ensures forall f :: 0 <= f < |v.mem| && Managed(v.kind[f]) ==> w.pages[f].ref == v.pages[f].ref
    ensures (forall f :: 0 <= f < |v.mem| ==> (w.kind[f] == Held <==> v.kind[f] == Held)) <==>
              w.kind == v.kind && multiset(w.fl) == multiset(v.fl)
  {
    hide Inv, Touches, SameUser, Shape, FreeListOk, CountsOk, SetupVm, OthersKeep;
    var (u, r) := SetupVm(v);
    SetupKeepsInv(v);
    SpaceLeavesNothing(v, u, w, r.value);
    forall f | 0 <= f < |v.mem| && Managed(v.kind[f]) ensures w.pages[f].ref == v.pages[f].ref {
      SameUsesSameRefs(v, w, f);
    }
    if forall f :: 0 <= f < |v.mem| ==> (w.kind[f] == Held <==> v.kind[f] == Held) {
      SameKindsSameFree(v, w);
    }
  }

  /** ... where that work is a run of steps. */
  lemma RoundTrip(v: Vm, steps: seq<Step>, w: Vm)
    requires Inv(v) && SetupVm(v).1.Some?
    requires Inv(SetupVm(v).0)
    requires var d := SetupVm(v).1.value;
      AllOn(steps, d) && Run(SetupVm(v).0, steps, w) && d < |w.kind| && !IsDir(w.kind[d])
    ensures Inv(w) && SameUser(v, w) && SameUses(v, w)
    ensures forall f :: 0 <= f < |v.mem| && Managed(v.kind[f]) ==> w.pages[f].ref == v.pages[f].ref
    ensures (forall f :: 0 <= f < |v.mem| ==> (w.kind[f] == Held <==> v.kind[f] == Held)) <==>
              w.kind == v.kind && multiset(w.fl) == multiset(v.fl)
  {
    hide Inv, Touches, SameUser, Shape, FreeListOk, CountsOk, SetupVm, OthersKeep, Run, AllOn, SameUses;
    RunTouches(SetupVm(v).0, steps, w, SetupVm(v).1.value);
    SpaceRoundTrip(v, w);
  }
}
