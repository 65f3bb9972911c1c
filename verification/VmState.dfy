/**
 * The state of the virtual memory manager as a value, and what it means for that state to be well
 * formed.  Physical memory is a sequence of frames.  A frame has a word view (1024 words), used while
 * the frame is a page directory or page table, and a byte view (4096 bytes), used while it is mapped.
 */
module VmState {
  import opened Wrappers
  import opened Mmu

  type Row = r: seq<Word> | |r| == 1024 witness seq(1024, _ => 0)
  type Byte = b: nat | b < 256
  type Bytes = b: seq<Byte> | |b| == 4096 witness seq(4096, _ => 0)
  type Ref16 = n: nat | n < 0x1_0000

  /** struct PageInfo: the link of the free list and the 16-bit reference count. */
  datatype PageInfo = PageInfo(link: Option<nat>, ref: Ref16)

  /** What a frame is used for; bookkeeping the kernel keeps only implicitly. */
  datatype Kind =
    | Free                          // on the free list
    | Held                          // handed out by page_alloc, not yet referenced
    | Leaf                          // mapped below UTOP
    | Table(dir: nat, pdx: nat)     // the page table that slot pdx of directory dir points to
    | EnvDir                        // page directory of an environment
    | KernDir                       // kern_pgdir
    | Reserved                      // never given to the allocator

  datatype Vm = Vm(
    mem: seq<Row>,               // physical memory, word view
    data: seq<Bytes>,            // physical memory, byte view
    pages: seq<PageInfo>,        // the pages array
    head: Option<nat>,           // page_free_list
    kern: nat,                   // the frame of kern_pgdir
    cr3: nat,                    // the frame of the directory in force
    cur: Option<nat>,            // curenv->env_pgdir
    tlb: map<VPage, nat>,        // cached translations: page to frame
    kind: seq<Kind>,             // bookkeeping: the use of each frame
    fl: seq<nat>)                // bookkeeping: the free list, from its end to its head

  /** A frame after memset(page2kva(pp), 0, PGSIZE). */
  function ZeroRow(): (r: Row)
    ensures forall i :: 0 <= i < 1024 ==> r[i] == 0
  {
    seq(1024, _ => 0)
  }

  function ZeroBytes(): (b: Bytes)
    ensures forall i :: 0 <= i < 4096 ==> b[i] == 0
  {
    seq(4096, _ => 0)
  }

  predicate IsDir(k: Kind) { k.EnvDir? || k.KernDir? }

  /** The slots of a directory whose tables belong to that directory alone. */
  predicate Owns(k: Kind, i: nat) {
    i < 1024 && i != UVPT_PDX && (k.KernDir? || (k.EnvDir? && i < UTOP_PDX))
  }

  /** The two-level walk of Intel SDM Vol. 3A section 4.3: the present entry that maps p, if any. */
  function Walk(mem: seq<Row>, d: nat, p: VPage): Option<Word>
    requires d < |mem|
  {
    var pde := mem[d][p.pdx];
    if !Present(pde) || FrameOf(pde) >= |mem| then None
    else
      var pte := mem[FrameOf(pde)][p.ptx];
      if Present(pte) then Some(pte) else None
  }

  /** Every frame has its words, bytes, PageInfo and use; frame numbers fit in an entry. */
  ghost predicate Lengths(v: Vm) {
    && 0 < |v.mem| <= 0x10_0000
    && |v.data| == |v.mem| && |v.pages| == |v.mem| && |v.kind| == |v.mem|
  }

  /** d is the page directory of an environment. */
  ghost predicate EnvSpace(v: Vm, d: nat) {
    Lengths(v) && d < |v.mem| && v.kind[d] == EnvDir
  }

  ghost predicate Sizes(v: Vm) {
    && Lengths(v)
    && v.kern < |v.mem| && v.kind[v.kern] == KernDir
    && (forall f :: 0 <= f < |v.kind| && v.kind[f] == KernDir ==> f == v.kern)
    && v.kind[0] == Reserved
  }

  /** fl holds free frames only, without duplicates. */
  ghost predicate ListSound(v: Vm)
    requires Lengths(v)
  {
    && (forall k :: 0 <= k < |v.fl| ==> v.fl[k] < |v.mem| && v.kind[v.fl[k]] == Free)
    && (forall j, k :: 0 <= j < k < |v.fl| ==> v.fl[j] != v.fl[k])
  }

  ghost predicate LinkOk(v: Vm, k: nat)
    requires Lengths(v) && k < |v.fl| && v.fl[k] < |v.mem|
  {
    v.pages[v.fl[k]].link == if k == 0 then None else Some(v.fl[k - 1])
  }

  /** Following the links from head visits fl from its last frame to its first. */
  ghost predicate ListLinked(v: Vm)
    requires Lengths(v) && ListSound(v)
  {
    && v.head == (if v.fl == [] then None else Some(v.fl[|v.fl| - 1]))
    && (forall k: nat {:trigger LinkOk(v, k)} :: k < |v.fl| ==> LinkOk(v, k))
  }

  /** Every free frame is in fl; the others have no link. */
  ghost predicate ListComplete(v: Vm)
    requires Lengths(v)
  {
    && (forall f :: 0 <= f < |v.mem| && v.kind[f] == Free ==> f in v.fl)
    && (forall f :: 0 <= f < |v.mem| && v.kind[f] != Free ==> v.pages[f].link == None)
  }

  /** The free list is acyclic, has no duplicate, and holds exactly the free frames. */
  ghost predicate FreeListOk(v: Vm)
    requires Lengths(v)
  {
    ListSound(v) && ListLinked(v) && ListComplete(v)
  }

  ghost predicate PdeOk(v: Vm, d: nat, i: nat)
    requires Sizes(v) && d < |v.mem| && i < 1024
  {
    var w := v.mem[d][i];
    w == 0 || (Present(w) && FrameOf(w) < |v.mem| && v.kind[FrameOf(w)] == Table(d, i))
  }

  /** Every owned slot of a directory is 0 or points to a table that no other slot points to. */
  ghost predicate DirsOk(v: Vm)
    requires Sizes(v)
  {
    forall d: nat, i: nat :: d < |v.mem| && i < 1024 && Owns(v.kind[d], i) ==> PdeOk(v, d, i)
  }

  ghost predicate TableOk(v: Vm, t: nat)
    requires Sizes(v) && t < |v.mem| && v.kind[t].Table?
  {
    var k := v.kind[t];
    && k.dir < |v.mem| && Owns(v.kind[k.dir], k.pdx)
    && Present(v.mem[k.dir][k.pdx]) && FrameOf(v.mem[k.dir][k.pdx]) == t
  }

  ghost predicate TablesOk(v: Vm)
    requires Sizes(v)
  {
    forall t :: 0 <= t < |v.mem| && v.kind[t].Table? ==> TableOk(v, t)
  }

  ghost predicate PteOk(v: Vm, w: Word)
    requires Sizes(v)
  {
    w == 0 || (Present(w) && FrameOf(w) < |v.mem| && v.kind[FrameOf(w)] == Leaf)
  }

  /** User tables map only pages that are neither free nor part of a page table. */
  ghost predicate PtesOk(v: Vm)
    requires Sizes(v)
  {
    forall t, j :: 0 <= t < |v.mem| && v.kind[t].Table? && v.kind[t].pdx < UTOP_PDX && 0 <= j < 1024 ==>
      PteOk(v, v.mem[t][j])
  }

  /** Above UTOP an environment's directory holds kern_pgdir's entries, and itself at UVPT. */
  ghost predicate KernelPartOk(v: Vm)
    requires Sizes(v)
  {
    && (forall d :: 0 <= d < |v.mem| && IsDir(v.kind[d]) ==> v.mem[d][UVPT_PDX] == MkPte(d, PTE_U))
    && (forall d, i :: 0 <= d < |v.mem| && v.kind[d].EnvDir? && UTOP_PDX <= i < 1024 && i != UVPT_PDX ==>
          v.mem[d][i] == 0 || v.mem[d][i] == v.mem[v.kern][i])
  }

  /** The page tables and the uses of frames agree. */
  ghost predicate Shape(v: Vm)
    ensures Shape(v) ==> Sizes(v)
  {
    Sizes(v) && DirsOk(v) && TablesOk(v) && PtesOk(v) && KernelPartOk(v)
  }

  /** A page of some address space below UTOP. */
  datatype Mapping = Mapping(dir: nat, page: VPage)

  /** The abstract address spaces: the present entry that maps a page below UTOP, if any. */
  ghost function UserMap(v: Vm, m: Mapping): Option<Word>
    requires Lengths(v)
  {
    if m.dir < |v.mem| && IsDir(v.kind[m.dir]) && UserPage(m.page) then Walk(v.mem, m.dir, m.page) else None
  }

  ghost predicate MapsTo(v: Vm, m: Mapping, f: nat)
    requires Lengths(v)
  {
    UserMap(v, m).Some? && FrameOf(UserMap(v, m).value) == f
  }

  /** All the places, over all address spaces, at which frame f is mapped below UTOP. */
  ghost function Mappings(v: Vm, f: nat): (r: set<Mapping>)
    requires Lengths(v)
    ensures forall m :: m in r <==> MapsTo(v, m, f)
  {
    set d: nat, i: Index, j: Index | d < |v.mem| && 0 <= i < 1024 && 0 <= j < 1024 &&
      MapsTo(v, Mapping(d, VPage(i, j)), f) :: Mapping(d, VPage(i, j))
  }

  ghost predicate CountOk(v: Vm, f: nat)
    requires Lengths(v) && f < |v.mem|
  {
    match v.kind[f]
    case Free => v.pages[f].ref == 0
    case Held => v.pages[f].ref == 0
    case Leaf => v.pages[f].ref == |Mappings(v, f)| && v.pages[f].ref > 0
    case Table(_, _) => v.pages[f].ref == 1
    case EnvDir => v.pages[f].ref == 1
    case _ => true
  }

  ghost predicate CountsOk(v: Vm)
    requires Lengths(v)
  {
    forall f :: 0 <= f < |v.mem| ==> CountOk(v, f)
  }

  /** The invariant of the virtual memory manager. */
  ghost predicate Inv(v: Vm)
    ensures Inv(v) ==> Lengths(v) && Sizes(v) && Shape(v) && FreeListOk(v) && CountsOk(v)
  {
    Shape(v) && FreeListOk(v) && CountsOk(v)
  }

  lemma InvIntro(v: Vm)
    requires Shape(v) && FreeListOk(v) && CountsOk(v)
    ensures Inv(v)
  {
  }
}
