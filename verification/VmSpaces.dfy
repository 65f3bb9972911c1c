/** Whole address spaces: env_setup_vm and the steps of env_free of kern/env.c, on values. */
module VmSpaces {
  import opened Wrappers
  import opened Mmu
  import opened VmState
  import opened VmAlloc
  import opened VmPaging

  /** The page directory env_setup_vm builds: kern_pgdir's entries from UTOP on, and itself at UVPT. */
  ghost function DirRow(kern: Row, d: nat): Row
    requires d < 0x10_0000
  {
    seq(1024, i requires 0 <= i < 1024 =>
      if i == UVPT_PDX then MkPte(d, PTE_U) else if i >= UTOP_PDX then kern[i] else 0)
  }

  /** The second half of env_setup_vm: fills and counts the directory. */
  ghost function MakeDir(v: Vm, d: nat): (r: Vm)
    requires Lengths(v) && v.kern < |v.mem| && d < |v.mem|
    ensures Lengths(r) && |r.mem| == |v.mem|
  {
    var w := SetRef(v, d, Inc16(v.pages[d].ref));
    w.(mem := w.mem[d := DirRow(w.mem[w.kern], d)], kind := w.kind[d := EnvDir])
  }

  /** env_setup_vm: the frame of the new directory, if there is memory for it. */
  ghost function SetupVm(v: Vm): (r: (Vm, Option<nat>))
    requires Lengths(v) && v.kern < |v.mem|
    ensures Lengths(r.0) && |r.0.mem| == |v.mem|
  {
    var (w, r) := Alloc(v, 1);
    if r.None? then (v, None) else (MakeDir(w, r.value), r)
  }

  /** Every other address space, and its view of the kernel, is as before. */
  ghost predicate OthersKeep(v: Vm, w: Vm, d: nat)
    requires Sizes(v) && Sizes(w)
  {
    && |w.mem| == |v.mem|
    && (forall f :: 0 <= f < |v.mem| && f != d ==> (IsDir(w.kind[f]) <==> IsDir(v.kind[f])))
    && (forall d': nat, p: VPage :: d' != d && Tracked(v, d', p) ==> Walk(w.mem, d', p) == Walk(v.mem, d', p))
  }

  /** The words of directories and tables other than those of d stay. */
  ghost predicate KeepsPaging(v: Vm, w: Vm, d: nat)
    requires Sizes(v) && Sizes(w)
  {
    && |w.mem| == |v.mem| && w.kern == v.kern
    && (forall f :: 0 <= f < |v.mem| && f != d && IsDir(v.kind[f]) ==> w.kind[f] == v.kind[f])
    && (forall f :: 0 <= f < |v.mem| && f != d && IsDir(w.kind[f]) ==> w.kind[f] == v.kind[f])
    && (forall f :: 0 <= f < |v.mem| && f != d && IsDir(v.kind[f]) ==> w.mem[f] == v.mem[f])
    && (forall f :: 0 <= f < |v.mem| && v.kind[f].Table? && v.kind[f].dir != d ==> w.mem[f] == v.mem[f])
  }

  lemma KeepsPagingKeepsOthers(v: Vm, w: Vm, d: nat)
    requires Shape(v) && Sizes(w) && KeepsPaging(v, w, d) && d != v.kern
    ensures OthersKeep(v, w, d)
  {
    forall d': nat, p: VPage | d' != d && Tracked(v, d', p) ensures Walk(w.mem, d', p) == Walk(v.mem, d', p) {
      if Present(v.mem[d'][p.pdx]) {
        WalkTable(v, d', p.pdx);
      }
    }
  }

  lemma MakeDirKeepsShape(v: Vm, w: Vm, d: nat)
    requires Shape(v) && Sizes(w) && d < |v.mem| && v.kind[d] == Held
    requires w.mem == v.mem[d := DirRow(v.mem[v.kern], d)] && w.kind == v.kind[d := EnvDir] && w.kern == v.kern
    ensures Shape(w) && SameUser(v, w) && KeepsPaging(v, w, d)
  {
    forall d': nat, i: nat | d' < |w.mem| && i < 1024 && Owns(w.kind[d'], i) ensures PdeOk(w, d', i) {
      if d' != d {
        assert PdeOk(v, d', i);
      }
    }
    forall t | 0 <= t < |w.mem| && w.kind[t].Table? ensures TableOk(w, t) {
      assert TableOk(v, t);
    }
    forall t, j | 0 <= t < |w.mem| && w.kind[t].Table? && w.kind[t].pdx < UTOP_PDX && 0 <= j < 1024
      ensures PteOk(w, w.mem[t][j])
    {
      assert PteOk(v, v.mem[t][j]);
    }
    assert KernelPartOk(w);
    MakeDirKeepsUser(v, w, d);
  }

  lemma MakeDirKeepsUser(v: Vm, w: Vm, d: nat)
    requires Shape(v) && Sizes(w) && d < |v.mem| && v.kind[d] == Held
    requires w.mem == v.mem[d := DirRow(v.mem[v.kern], d)] && w.kind == v.kind[d := EnvDir] && w.kern == v.kern
    ensures SameUser(v, w)
  {
    forall m: Mapping ensures UserMap(w, m) == UserMap(v, m) {
      if m.dir < |v.mem| && m.dir != d && IsDir(v.kind[m.dir]) && Present(v.mem[m.dir][m.page.pdx]) {
        WalkTable(v, m.dir, m.page.pdx);
      }
    }
  }

  lemma MakeDirKeepsInv(v: Vm, d: nat)
    requires Inv(v) && d < |v.mem| && v.kind[d] == Held
    ensures var w := MakeDir(v, d); Inv(w) && SameUser(v, w) && OthersKeep(v, w, d)
  {
    var w := MakeDir(v, d);
    assert CountOk(v, d) && v.pages[d].ref == 0;
    hide Inv, Shape, FreeListOk, CountsOk, SameUser;
    MakeDirKeepsShape(v, w, d);
    KeepsPagingKeepsOthers(v, w, d);
    FreeListIgnoresOthers(v, w);
    CountsIgnoreOthers(v, w, d);
    InvIntro(w);
  }

  /**
   * env_setup_vm fails, changing nothing, exactly when no frame is free.  Otherwise it adds an address
   * space that is empty below UTOP and above it equals kern_pgdir except at UVPT, where it maps itself;
   * no other address space changes.
   */
  lemma SetupKeepsInv(v: Vm)
    requires Inv(v)
    ensures var (w, r) := SetupVm(v);
      && Inv(w) && SameUser(v, w)
      && (r == None <==> NoneFree(v))
      && (r == None ==> w == v)
      && (r.Some? ==> r.value < |v.mem| && v.kind[r.value] == Free && w.kind == v.kind[r.value := EnvDir])
      && (r.Some? ==> OthersKeep(v, w, r.value) && w.mem[w.kern] == v.mem[v.kern])
      && (r.Some? ==> w.mem[r.value][UVPT_PDX] == MkPte(r.value, PTE_U))
      && (r.Some? ==> forall i :: 0 <= i < UTOP_PDX ==> w.mem[r.value][i] == 0)
      && (r.Some? ==> forall i :: UTOP_PDX <= i < 1024 && i != UVPT_PDX ==> w.mem[r.value][i] == v.mem[v.kern][i])
  {
    AllocKeepsInv(v, 1);
    var (a, r) := Alloc(v, 1);
    if r.Some? {
      assert a.mem[a.kern] == v.mem[v.kern];
      hide Inv, Shape, FreeListOk, CountsOk, SameUser, SameView, OthersKeep;
      SameViewSameUser(v, a);
      MakeDirKeepsInv(a, r.value);
      SameUserTrans(v, a, MakeDir(a, r.value));
      OthersKeepAfterSame(v, a, MakeDir(a, r.value), r.value);
    }
  }

  lemma SameUserTrans(u: Vm, v: Vm, w: Vm)
    requires Lengths(u) && Lengths(v) && Lengths(w) && SameUser(u, v) && SameUser(v, w)
    ensures SameUser(u, w)
  {
    forall m: Mapping ensures UserMap(w, m) == UserMap(u, m) {
      assert UserMap(v, m) == UserMap(u, m);
    }
  }

  lemma OthersKeepAfterSame(u: Vm, v: Vm, w: Vm, d: nat)
    requires Sizes(u) && Sizes(v) && Sizes(w) && SameView(u, v) && OthersKeep(v, w, d)
    ensures OthersKeep(u, w, d)
  {
    forall d': nat, p: VPage | d' != d && Tracked(u, d', p) ensures Walk(w.mem, d', p) == Walk(u.mem, d', p) {
      assert Tracked(v, d', p);
    }
  }

  /** env_free, one page table: clears slot i of d and releases the table it pointed to. */
  ghost function DropTable(v: Vm, d: nat, i: Index): (r: Vm)
    requires Lengths(v) && d < |v.mem| && FrameOf(v.mem[d][i]) < |v.mem|
    ensures Lengths(r) && |r.mem| == |v.mem|
  {
    Decref(SetWord(v, d, i, 0), FrameOf(v.mem[d][i]))
  }

  /** Nothing is mapped through slot i of d. */
  ghost predicate SlotEmpty(v: Vm, d: nat, i: Index)
    requires Lengths(v)
  {
    forall j: Index :: UserMap(v, Mapping(d, VPage(i, j))) == None
  }

  lemma DropTableKeepsShape(v: Vm, w: Vm, d: nat, i: Index, t: nat)
    requires Shape(v) && Sizes(w) && d < |v.mem| && v.kind[d] == EnvDir && i < UTOP_PDX
    requires t < |v.mem| && v.kind[t] == Table(d, i) && SlotEmpty(v, d, i)
    requires w.mem == v.mem[d := v.mem[d][i := 0]] && w.kind == v.kind[t := Free] && w.kern == v.kern
    ensures Shape(w) && SameUser(v, w) && KeepsPaging(v, w, d)
  {
    hide Shape, SameUser, KernelPartOk, DirsOk, TablesOk, PtesOk;
    ShapeParts(v);
    ShapeParts(w);
    DropTableKeepsTables(v, w, d, i, t);
    DropTableKeepsPtes(v, w, d, i, t);
    DropTableKeepsKernelPart(v, w, d, i, t);
    DropTableKeepsUser(v, w, d, i, t);
  }

  lemma ShapeParts(v: Vm)
    ensures Shape(v) <==> Sizes(v) && DirsOk(v) && TablesOk(v) && PtesOk(v) && KernelPartOk(v)
  {
    hide Sizes, DirsOk, TablesOk, PtesOk, KernelPartOk;
  }

  lemma DropTableKeepsTables(v: Vm, w: Vm, d: nat, i: Index, t: nat)
    requires Sizes(v) && DirsOk(v) && TablesOk(v) && Sizes(w)
    requires d < |v.mem| && v.kind[d] == EnvDir && i < UTOP_PDX && t < |v.mem| && v.kind[t] == Table(d, i)
    requires w.mem == v.mem[d := v.mem[d][i := 0]] && w.kind == v.kind[t := Free] && w.kern == v.kern
    ensures DirsOk(w) && TablesOk(w)
  {
    assert TableOk(v, t);
    forall d': nat, i': nat | d' < |w.mem| && i' < 1024 && Owns(w.kind[d'], i') ensures PdeOk(w, d', i') {
      assert PdeOk(v, d', i');
    }
    forall t' | 0 <= t' < |w.mem| && w.kind[t'].Table? ensures TableOk(w, t') {
      assert TableOk(v, t');
    }
  }

  lemma DropTableKeepsPtes(v: Vm, w: Vm, d: nat, i: Index, t: nat)
    requires Sizes(v) && PtesOk(v) && Sizes(w)
    requires d < |v.mem| && v.kind[d] == EnvDir && t < |v.mem| && v.kind[t] == Table(d, i)
    requires w.mem == v.mem[d := v.mem[d][i := 0]] && w.kind == v.kind[t := Free]
    ensures PtesOk(w)
  {
    forall t', j | 0 <= t' < |w.mem| && w.kind[t'].Table? && w.kind[t'].pdx < UTOP_PDX && 0 <= j < 1024
      ensures PteOk(w, w.mem[t'][j])
    {
      assert PteOk(v, v.mem[t'][j]);
    }
  }

  lemma DropTableKeepsKernelPart(v: Vm, w: Vm, d: nat, i: Index, t: nat)
    requires Sizes(v) && KernelPartOk(v) && Sizes(w)
    requires d < |v.mem| && v.kind[d] == EnvDir && i < UTOP_PDX && t < |v.mem| && v.kind[t] == Table(d, i)
    requires w.mem == v.mem[d := v.mem[d][i := 0]] && w.kind == v.kind[t := Free] && w.kern == v.kern
    ensures KernelPartOk(w) && KeepsPaging(v, w, d)
  {
  }

  lemma DropTableKeepsUser(v: Vm, w: Vm, d: nat, i: Index, t: nat)
    requires Shape(v) && Sizes(w) && d < |v.mem| && v.kind[d] == EnvDir && i < UTOP_PDX
    requires t < |v.mem| && v.kind[t] == Table(d, i) && SlotEmpty(v, d, i)
    requires w.mem == v.mem[d := v.mem[d][i := 0]] && w.kind == v.kind[t := Free]
    ensures SameUser(v, w)
  {
    forall m: Mapping ensures UserMap(w, m) == UserMap(v, m) {
      if m.dir == d && m.page.pdx == i {
        assert m == Mapping(d, VPage(i, m.page.ptx));
      } else if m.dir < |v.mem| && IsDir(v.kind[m.dir]) && Present(v.mem[m.dir][m.page.pdx]) {
        WalkTable(v, m.dir, m.page.pdx);
      }
    }
  }

  /** Releasing an empty page table keeps the invariant and every mapping; the table's frame is freed. */
  lemma DropTableKeepsInv(v: Vm, d: nat, i: Index)
    requires Inv(v) && d < |v.mem| && v.kind[d] == EnvDir && i < UTOP_PDX && v.mem[d][i] != 0
    requires SlotEmpty(v, d, i)
    ensures var t := FrameOf(v.mem[d][i]);
      && t < |v.mem| && v.kind[t] == Table(d, i)
      && var w := DropTable(v, d, i);
      && Inv(w) && SameUser(v, w) && OthersKeep(v, w, d) && w.kind == v.kind[t := Free]
      && w.mem[d] == v.mem[d][i := 0]
  {
    assert Owns(v.kind[d], i) && PdeOk(v, d, i);
    var t := FrameOf(v.mem[d][i]);
    assert CountOk(v, t) && v.pages[t].ref == 1;
    assert v.pages[t].link == None;
    var w := DropTable(v, d, i);
    hide Inv, Shape, FreeListOk, CountsOk, SameUser, SlotEmpty;
    DropTableKeepsShape(v, w, d, i, t);
    KeepsPagingKeepsOthers(v, w, d);
    PushKeepsFreeList(v, w, t);
    CountsIgnoreOthers(v, w, t);
    InvIntro(w);
  }

  lemma DropDirKeepsShape(v: Vm, w: Vm, d: nat)
    requires Shape(v) && Sizes(w) && d < |v.mem| && v.kind[d] == EnvDir
    requires forall i :: 0 <= i < UTOP_PDX ==> v.mem[d][i] == 0
    requires w.mem == v.mem && w.kind == v.kind[d := Free] && w.kern == v.kern
    ensures Shape(w) && SameUser(v, w) && KeepsPaging(v, w, d)
  {
    forall d': nat, i': nat | d' < |w.mem| && i' < 1024 && Owns(w.kind[d'], i') ensures PdeOk(w, d', i') {
      assert PdeOk(v, d', i');
    }
    forall t' | 0 <= t' < |w.mem| && w.kind[t'].Table? ensures TableOk(w, t') {
      assert TableOk(v, t');
    }
    forall t', j | 0 <= t' < |w.mem| && w.kind[t'].Table? && w.kind[t'].pdx < UTOP_PDX && 0 <= j < 1024
      ensures PteOk(w, w.mem[t'][j])
    {
      assert PteOk(v, v.mem[t'][j]);
    }
    assert KernelPartOk(w);
    forall m: Mapping ensures UserMap(w, m) == UserMap(v, m) {
      if m.dir == d && UserPage(m.page) {
        assert Walk(v.mem, d, m.page) == None;
      }
    }
  }

  /** Releasing an empty page directory keeps the invariant and every other mapping. */
  lemma DropDirKeepsInv(v: Vm, d: nat)
    requires Inv(v) && d < |v.mem| && v.kind[d] == EnvDir
    requires forall i :: 0 <= i < UTOP_PDX ==> v.mem[d][i] == 0
    ensures var w := Decref(v, d);
      Inv(w) && SameUser(v, w) && OthersKeep(v, w, d) && w.kind == v.kind[d := Free]
  {
    assert CountOk(v, d) && v.pages[d].ref == 1 && v.pages[d].link == None;
    var w := Decref(v, d);
    hide Inv, Shape, FreeListOk, CountsOk, SameUser;
    DropDirKeepsShape(v, w, d);
    KeepsPagingKeepsOthers(v, w, d);
    PushKeepsFreeList(v, w, d);
    CountsIgnoreOthers(v, w, d);
    InvIntro(w);
  }

  /**
   * The recursive self-map: reading UVPT + 4*PGNUM(va) in any address space reads the page table entry of
   * va itself, whenever va has a page table; and otherwise the read faults.
   */
  lemma SelfMapShowsPte(v: Vm, d: nat, va: Word)
    requires Inv(v) && d < |v.mem| && IsDir(v.kind[d])
    ensures UVPT + 4 * PgNum(va) < 0x1_0000_0000
    ensures var wa := UVPT + 4 * PgNum(va);
      var pde := v.mem[d][Pdx(va)];
      var e := Walk(v.mem, d, PageOf(wa));
      && (e.Some? <==> Present(pde))
      && (e.Some? ==> FrameOf(e.value) == FrameOf(pde) && PgOff(wa) == 4 * Ptx(va))
  {
    var n := PgNum(va);
    var wa := UVPT + 4 * n;
    assert va / 0x40_0000 == n / 1024;
    assert wa / 4096 == UVPT_PDX * 1024 + n / 1024;
    assert wa / 0x40_0000 == wa / 4096 / 1024 == UVPT_PDX;
    assert wa % 4096 == 4 * (n % 1024);
    assert PageOf(wa) == VPage(UVPT_PDX, Pdx(va));
    assert FrameOf(v.mem[d][UVPT_PDX]) == d;
  }

  /**
   * The directory itself appears at UVPT + 4*(UVPT >> PGSHIFT), the uvpd of lib/entry.S.  At the byte
   * address UVPT + (UVPT >> PGSHIFT) that the comment in inc/memlayout.h gives, the page table of slot 239
   * appears instead.
   */
  lemma SelfMapShowsDirectory(v: Vm, d: nat)
    requires Inv(v) && d < |v.mem| && IsDir(v.kind[d])
    ensures Walk(v.mem, d, PageOf(UVPT + 4 * (UVPT / 4096))).Some?
    ensures FrameOf(Walk(v.mem, d, PageOf(UVPT + 4 * (UVPT / 4096))).value) == d
    ensures PgOff(UVPT + 4 * (UVPT / 4096)) == 0
    ensures var e := Walk(v.mem, d, PageOf(UVPT + UVPT / 4096));
      (e.Some? <==> Present(v.mem[d][239])) && (e.Some? ==> e.value == v.mem[d][239])
  {
    assert v.mem[d][UVPT_PDX] == MkPte(d, PTE_U);
    assert PageOf(UVPT + 4 * (UVPT / 4096)) == VPage(957, 957);
    assert PageOf(UVPT + UVPT / 4096) == VPage(957, 239);
  }
}
