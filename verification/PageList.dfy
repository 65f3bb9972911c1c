/**
 * The free list as links between entries of the pages array: how page_init builds it and how
 * check_page_free_list partitions it in place.
 */
module PageList {
  import opened Wrappers
  import opened Mmu
  import opened VmState

  ghost predicate Distinct(s: seq<nat>) {
    forall j, k :: 0 <= j < k < |s| ==> s[j] != s[k]
  }

  /** The page at position k of list links to the next one; the last links to none. */
  ghost predicate LinksOn(pages: seq<PageInfo>, list: seq<nat>, k: nat)
    requires k < |list| && list[k] < |pages|
  {
    pages[list[k]].link == if k + 1 < |list| then Some(list[k + 1]) else None
  }

  /** Following the links from head visits exactly list, whose pages are all different. */
  ghost predicate IsList(pages: seq<PageInfo>, head: Option<nat>, list: seq<nat>) {
    && (forall k :: 0 <= k < |list| ==> list[k] < |pages|)
    && Distinct(list)
    && head == (if list == [] then None else Some(list[0]))
    && (forall k: nat :: k < |list| ==> LinksOn(pages, list, k))
  }

  // ---- page_init ----

  /** MPENTRY_PADDR / PGSIZE, the page for the boot code of the other CPUs. */
  const MPENTRY: nat := 7
  /** 384000 / PGSIZE. */
  const HOLE: nat := 93

  /** page_init leaves page i free; k is (&pages - KERNBASE) / PGSIZE. */
  predicate Avail(i: nat, basemem: nat, k: nat) {
    i != 0 && i != MPENTRY && (i < basemem || i >= basemem + HOLE + k)
  }

  /** The free pages below n, from the highest down. */
  function FreeBelow(n: nat, basemem: nat, k: nat): seq<nat> {
    if n == 0 then []
    else if Avail(n - 1, basemem, k) then [n - 1] + FreeBelow(n - 1, basemem, k)
    else FreeBelow(n - 1, basemem, k)
  }

  /** The list page_init builds holds exactly the available pages, in descending order. */
  lemma {:induction false} FreeBelowIsExact(n: nat, basemem: nat, k: nat)
    ensures var r := FreeBelow(n, basemem, k);
      && (forall i :: i in r <==> 0 <= i < n && Avail(i, basemem, k))
      && (forall i, j :: 0 <= i < j < |r| ==> r[i] > r[j])
  {
    hide Avail;
    if n == 0 {
    } else {
      FreeBelowIsExact(n - 1, basemem, k);
      var r, t := FreeBelow(n, basemem, k), FreeBelow(n - 1, basemem, k);
      assert r == if Avail(n - 1, basemem, k) then [n - 1] + t else t;
      hide FreeBelow;
      forall j | 0 <= j < |t| ensures t[j] < n - 1 {
        assert t[j] in t;
      }
    }
  }

  /**
   * The pages on the list, told by their addresses: not page 0 nor the one at 0x7000, and none from the end of
   * base memory to as far behind it as 384000 bytes, cut to whole pages, and the kernel and its data reach.
   */
  lemma ListedPages(n: nat, basemem: nat, k: nat, i: nat)
    ensures i in FreeBelow(n, basemem, k) <==>
      && i < n && 0 < i * 4096 != 0x7000
      && (i * 4096 < basemem * 4096 || i * 4096 >= basemem * 4096 + 384000 / 4096 * 4096 + k * 4096)
  {
    hide FreeBelow;
    FreeBelowIsExact(n, basemem, k);
  }

  /** page_init: counts the pages that are in use and links the others. */
  method PageInit(pages: array<PageInfo>, basemem: nat, k: nat) returns (head: Option<nat>)
    modifies pages
    ensures IsList(pages[..], head, FreeBelow(pages.Length, basemem, k))
    ensures forall i :: 0 <= i < pages.Length ==> pages[i].ref == if Avail(i, basemem, k) then 0 else 1
    ensures forall i :: 0 <= i < pages.Length ==> (pages[i].ref == 0 <==> i in FreeBelow(pages.Length, basemem, k))
    ensures forall i :: 0 <= i < pages.Length && !Avail(i, basemem, k) ==> pages[i].link == old(pages[i].link)
  {
    head := None;
    hide IsList, Avail;
    ListOfNone(pages[..]);
    ghost var pages0 := pages[..];
    for i := 0 to pages.Length
      invariant Inited(pages0, pages[..], head, i, basemem, k)
    {
      head := InitTurn(pages, pages0, head, i, basemem, k);
    }
    FreeBelowIsExact(pages.Length, basemem, k);
  }

  /** The pages below i are counted, and the free ones linked. */
  ghost predicate Inited(before: seq<PageInfo>, pages: seq<PageInfo>, head: Option<nat>, i: nat, basemem: nat, k: nat) {
    && |pages| == |before| && i <= |pages|
    && IsList(pages, head, FreeBelow(i, basemem, k))
    && head == (if FreeBelow(i, basemem, k) == [] then None else Some(FreeBelow(i, basemem, k)[0]))
    && (forall j :: 0 <= j < i ==> pages[j].ref == if Avail(j, basemem, k) then 0 else 1)
    && (forall j :: 0 <= j < i && !Avail(j, basemem, k) ==> pages[j].link == before[j].link)
    && (forall j :: i <= j < |pages| ==> pages[j] == before[j])
  }

  /** One turn of the loop. */
  method InitTurn(pages: array<PageInfo>, ghost before: seq<PageInfo>, head0: Option<nat>, i: nat, basemem: nat, k: nat)
    returns (head: Option<nat>)
    requires i < pages.Length && Inited(before, pages[..], head0, i, basemem, k)
    modifies pages
    ensures Inited(before, pages[..], head, i + 1, basemem, k)
  {
    ghost var was := pages[..];
    hide Avail, Inited, IsList;
    head := head0;
    var ref := InitialRef(i, basemem, k);
    pages[i] := PageInfo(pages[i].link, ref);
    if pages[i].ref == 0 {
      pages[i] := PageInfo(head, pages[i].ref);
      head := Some(i);
    }
    assert pages[..] == was[i := PageInfo(if ref == 0 then head0 else was[i].link, ref)];
    InitedGrows(before, was, pages[..], head0, i, basemem, k);
  }

  lemma InitedGrows(before: seq<PageInfo>, was: seq<PageInfo>, pages: seq<PageInfo>, head0: Option<nat>, i: nat,
      basemem: nat, k: nat)
    requires i < |was| && Inited(before, was, head0, i, basemem, k)
    requires pages == was[i := PageInfo(if Avail(i, basemem, k) then head0 else was[i].link,
                                        if Avail(i, basemem, k) then 0 else 1)]
    ensures Inited(before, pages, if Avail(i, basemem, k) then Some(i) else head0, i + 1, basemem, k)
  {
    hide IsList, Avail;
    var list := FreeBelow(i, basemem, k);
    FreeBelowIsExact(i, basemem, k);
    assert FreeBelow(i + 1, basemem, k) == if Avail(i, basemem, k) then [i] + list else list;
    hide FreeBelow;
    if Avail(i, basemem, k) {
      Prepend(was, pages, list, i);
    } else {
      SameLinks(was, pages, list);
    }
  }

  /** The branches of page_init. */
  method InitialRef(i: nat, basemem: nat, k: nat) returns (ref: Ref16)
    ensures ref == if Avail(i, basemem, k) then 0 else 1
  {
    if i == 0 || i == MPENTRY {
      ref := 1;
    } else if i < basemem {
      ref := 0;
    } else if i >= basemem && i < basemem + HOLE {
      ref := 1;
    } else if i >= basemem + HOLE && i < basemem + HOLE + k {
      ref := 1;
    } else {
      ref := 0;
    }
  }

  lemma ListOfNone(pages: seq<PageInfo>)
    ensures IsList(pages, None, [])
  {
  }

  lemma Prepend(before: seq<PageInfo>, after: seq<PageInfo>, list: seq<nat>, i: nat)
    requires IsList(before, if list == [] then None else Some(list[0]), list) && i < |before| && i !in list
    requires |after| == |before| && after == before[i := after[i]]
        && after[i].link == if list == [] then None else Some(list[0])
    ensures IsList(after, Some(i), [i] + list)
  {
    var l := [i] + list;
    forall k: nat | k < |l| ensures LinksOn(after, l, k) {
      if k > 0 {
        assert LinksOn(before, list, k - 1) && list[k - 1] != i;
      }
    }
  }

  lemma SameLinks(before: seq<PageInfo>, after: seq<PageInfo>, list: seq<nat>)
    requires IsList(before, if list == [] then None else Some(list[0]), list) && |after| == |before|
    requires forall j :: 0 <= j < |before| ==> after[j].link == before[j].link
    ensures IsList(after, if list == [] then None else Some(list[0]), list)
  {
    forall k: nat | k < |list| ensures LinksOn(after, list, k) {
      assert LinksOn(before, list, k);
    }
  }

  /** Every page of [lo, hi) is kept off the list. */
  ghost predicate Excluded(lo: nat, hi: nat, basemem: nat, k: nat) {
    forall i :: lo <= i < hi ==> !Avail(i, basemem, k)
  }

  /**
   * The IO hole, pages 160 to 255, is kept off the list exactly if base memory does not reach into it and
   * the pages array lies high enough to make up for a hole of 93 instead of 96 pages.
   */
  lemma HoleExcluded(basemem: nat, k: nat)
    ensures Excluded(160, 256, basemem, k) <==> basemem <= 160 && basemem + 93 + k >= 256
  {
    if Excluded(160, 256, basemem, k) {
      assert !Avail(160, basemem, k) && !Avail(255, basemem, k);
    }
  }

  /** What boot_alloc handed out, pages 256 to next, is kept off the list exactly under this condition. */
  lemma BootMemoryExcluded(basemem: nat, k: nat, next: nat)
    requires next > 256
    ensures Excluded(256, next, basemem, k) <==> basemem <= 256 && next <= basemem + 93 + k
  {
    if Excluded(256, next, basemem, k) {
      assert !Avail(256, basemem, k) && !Avail(next - 1, basemem, k);
    }
  }

  // ---- check_page_free_list ----

  /** PDX(page2pa(pp)) >= 1: the page lies above the first 4 MB. */
  predicate High(i: nat) { i / 1024 >= 1 }

  /** The pages of a list that are high, or those that are not, in list order. */
  function Select(list: seq<nat>, high: bool): (r: seq<nat>) {
    if list == [] then []
    else
      var last := list[|list| - 1];
      Select(list[..|list| - 1], high) + if High(last) == high then [last] else []
  }

  /** Selecting keeps exactly the pages of one kind, as often as they occur. */
  lemma {:induction false} SelectIsFilter(list: seq<nat>, high: bool, i: nat)
    ensures multiset(Select(list, high))[i] == if (i * 4096 >= 0x40_0000) == high then multiset(list)[i] else 0
  {
    if list == [] {
    } else {
      var n := |list| - 1;
      SelectIsFilter(list[..n], high, i);
      assert list == list[..n] + [list[n]];
    }
  }

  /** ... and in list order. */
  lemma {:induction false} SelectKeepsOrder(list: seq<nat>, high: bool)
    ensures Subsequence(Select(list, high), list)
  {
    if list == [] {
    } else {
      var n := |list| - 1;
      var s, t := Select(list, high), Select(list[..n], high);
      SelectKeepsOrder(list[..n], high);
      hide Select, High;
      if s != t {
        assert s == t + [list[n]] by {
          SelectLast(list, high);
        }
        assert s[..|s| - 1] == t;
      }
    }
  }

  lemma SelectLast(list: seq<nat>, high: bool)
    requires list != []
    ensures var n := |list| - 1;
      Select(list, high) ==
        if High(list[n]) == high then Select(list[..n], high) + [list[n]] else Select(list[..n], high)
  {
  }

  /** The low pages followed by the high pages are a permutation of the list. */
  lemma PartitionIsPermutation(list: seq<nat>)
    ensures multiset(Select(list, false) + Select(list, true)) == multiset(list)
  {
    forall i: nat ensures multiset(Select(list, false) + Select(list, true))[i] == multiset(list)[i] {
      SelectIsFilter(list, false, i);
      SelectIsFilter(list, true, i);
    }
  }

  /** a can be had from b by leaving out elements. */
  predicate Subsequence(a: seq<nat>, b: seq<nat>)
    decreases |b|
  {
    if a == [] then true
    else if b == [] then false
    else
      Subsequence(a, b[..|b| - 1]) || (a[|a| - 1] == b[|b| - 1] && Subsequence(a[..|a| - 1], b[..|b| - 1]))
  }

  lemma {:induction false} SelectMembers(list: seq<nat>, high: bool)
    requires Distinct(list)
    ensures var r := Select(list, high);
      && (forall i :: i in r <==> i in list && High(i) == high)
      && Distinct(r)
  {
    if list == [] {
    } else {
      var n := |list| - 1;
      var s, t := Select(list, high), Select(list[..n], high);
      SelectMembers(list[..n], high);
      SelectLast(list, high);
      assert list == list[..n] + [list[n]];
      assert list[n] !in list[..n];
      hide Select;
      assert forall k :: 0 <= k < |t| ==> t[k] in t;
    }
  }

  ghost predicate Hop(pages: seq<PageInfo>, s: seq<nat>, k: nat)
    requires k + 1 < |s| && s[k] < |pages|
  {
    pages[s[k]].link == Some(s[k + 1])
  }

  /** next is now with the link of page tail, if any, set to to. */
  ghost predicate Stored(now: seq<PageInfo>, next: seq<PageInfo>, tail: Option<nat>, to: Option<nat>) {
    && |next| == |now|
    && forall i :: 0 <= i < |now| ==> next[i] == if tail == Some(i) then PageInfo(to, now[i].ref) else now[i]
  }

  /** first leads through s; the link of its last page, where tail points, is still to be set. */
  ghost predicate Chain(pages: seq<PageInfo>, first: Option<nat>, s: seq<nat>, tail: Option<nat>) {
    && (forall k :: 0 <= k < |s| ==> s[k] < |pages|)
    && Distinct(s)
    && tail == (if s == [] then None else Some(s[|s| - 1]))
    && (s != [] ==> first == Some(s[0]))
    && (forall k: nat :: k + 1 < |s| ==> Hop(pages, s, k))
  }

  lemma ChainGrows(before: seq<PageInfo>, after: seq<PageInfo>, first: Option<nat>, s: seq<nat>, tail: Option<nat>,
      p: nat)
    requires Chain(before, first, s, tail) && Stored(before, after, tail, Some(p)) && p < |before| && p !in s
    ensures Chain(after, if tail == None then Some(p) else first, s + [p], Some(p))
  {
    var t := s + [p];
    forall k: nat | k + 1 < |t| ensures Hop(after, t, k) {
      if k + 1 < |s| {
        assert Hop(before, s, k);
      }
    }
  }

  lemma ChainStays(before: seq<PageInfo>, after: seq<PageInfo>, first: Option<nat>, s: seq<nat>, tail: Option<nat>,
                   other: Option<nat>, to: Option<nat>)
    requires Chain(before, first, s, tail) && Stored(before, after, other, to)
    requires other.Some? ==> other.value !in s
    ensures Chain(after, first, s, tail)
  {
    forall k: nat | k + 1 < |s| ensures Hop(after, s, k) {
      assert Hop(before, s, k);
    }
  }

  /** Two lists without a common page. */
  ghost predicate Apart(a: seq<nat>, b: seq<nat>) {
    forall j, k :: 0 <= j < |a| && 0 <= k < |b| ==> a[j] != b[k]
  }

  /** Ending the second chain and hanging it on the first makes one list. */
  lemma ChainsJoin(before: seq<PageInfo>, mid: seq<PageInfo>, after: seq<PageInfo>, a: seq<nat>, b: seq<nat>,
                   pp1: Option<nat>, pp2: Option<nat>, ta: Option<nat>, tb: Option<nat>)
    requires Chain(before, pp1, a, ta) && Chain(before, pp2, b, tb) && (ta.Some? ==> ta != tb)
    requires Apart(a, b)
    requires Stored(before, mid, tb, None) && Stored(mid, after, ta, if tb.Some? then pp2 else None)
    ensures IsList(after, if ta.Some? then pp1 else if tb.Some? then pp2 else None, a + b)
  {
    var l := a + b;
    forall k: nat | k < |l| ensures LinksOn(after, l, k) {
      if k + 1 < |a| {
        assert Hop(before, a, k);
      } else if |a| <= k && k + 1 < |l| {
        assert Hop(before, b, k - |a|);
      }
    }
  }

  /** *tp = to, where tp is the address of first or of the link of page tail. */
  method StoreAt(pages: array<PageInfo>, first: Option<nat>, tail: Option<nat>, to: Option<nat>)
    returns (newFirst: Option<nat>)
    requires tail.Some? ==> tail.value < pages.Length
    modifies pages
    ensures newFirst == if tail == None then to else first
    ensures Stored(old(pages[..]), pages[..], tail, to)
  {
    newFirst := first;
    if tail == None {
      newFirst := to;
    } else {
      pages[tail.value] := PageInfo(to, pages[tail.value].ref);
    }
  }

  /** At most the links of the pages of the list have changed. */
  ghost predicate OnlyLinks(before: seq<PageInfo>, after: seq<PageInfo>, list: seq<nat>) {
    && |after| == |before|
    && (forall i :: 0 <= i < |after| ==> after[i].ref == before[i].ref)
    && (forall i :: 0 <= i < |after| && i !in list ==> after[i] == before[i])
  }

  /** What the loop has not touched: the links from list[n] on, the counts, and the pages not in the list. */
  ghost predicate Rest(before: seq<PageInfo>, pages: seq<PageInfo>, list: seq<nat>, n: nat) {
    && n <= |list| && OnlyLinks(before, pages, list)
    && (forall k :: n <= k < |list| && list[k] < |pages| ==> pages[list[k]] == before[list[k]])
  }

  lemma RestShrinks(before: seq<PageInfo>, now: seq<PageInfo>, next: seq<PageInfo>, list: seq<nat>, n: nat,
      tail: Option<nat>, to: Option<nat>)
    requires Rest(before, now, list, n) && n < |list| && Stored(now, next, tail, to) && list[n] < |now|
    requires tail.Some? ==> tail.value in list && forall k :: n <= k < |list| ==> tail.value != list[k]
    ensures Rest(before, next, list, n + 1) && next[list[n]] == before[list[n]]
  {
  }

  /** The state of the loop after the first n pages of the list. */
  ghost predicate Sorting(before: seq<PageInfo>, pages: seq<PageInfo>, list: seq<nat>, n: nat,
                          pp1: Option<nat>, pp2: Option<nat>, tp0: Option<nat>, tp1: Option<nat>)
  {
    && n <= |list| && Rest(before, pages, list, n)
    && Chain(pages, pp1, Select(list[..n], false), tp0)
    && Chain(pages, pp2, Select(list[..n], true), tp1)
  }

  lemma ListFacts(pages: seq<PageInfo>, list: seq<nat>, n: nat)
    requires IsList(pages, if list == [] then None else Some(list[0]), list) && n < |list|
    ensures Distinct(list)
    ensures list[n] < |pages| && pages[list[n]].link == if n + 1 < |list| then Some(list[n + 1]) else None
  {
    assert LinksOn(pages, list, n);
  }

  /** One step: page list[n] goes to the end of the chain of its kind. */
  lemma SortOne(before: seq<PageInfo>, now: seq<PageInfo>, next: seq<PageInfo>, list: seq<nat>, n: nat,
                pp1: Option<nat>, pp2: Option<nat>, tp0: Option<nat>, tp1: Option<nat>)
    requires IsList(before, if list == [] then None else Some(list[0]), list) && n < |list|
    requires Sorting(before, now, list, n, pp1, pp2, tp0, tp1)
    requires Stored(now, next, if High(list[n]) then tp1 else tp0, Some(list[n]))
    ensures var p := Some(list[n]);
      if High(list[n]) then Sorting(before, next, list, n + 1, pp1, if tp1 == None then p else pp2, tp0, p)
      else Sorting(before, next, list, n + 1, if tp0 == None then p else pp1, pp2, p, tp1)
    ensures list[n] < |next| && next[list[n]] == before[list[n]]
    ensures before[list[n]].link == if n + 1 < |list| then Some(list[n + 1]) else None
  {
    assert |now| == |before|;
    hide Select, Chain, IsList, High, Rest, LinksOn, Distinct, Stored;
    ListFacts(before, list, n);
    var p, low, high := list[n], Select(list[..n], false), Select(list[..n], true);
    KindFacts(now, list, n, false, pp1, tp0);
    KindFacts(now, list, n, true, pp2, tp1);
    RestShrinks(before, now, next, list, n, if High(p) then tp1 else tp0, Some(p));
    if High(p) {
      ChainGrows(now, next, pp2, high, tp1, p);
      ChainStays(now, next, pp1, low, tp0, tp1, Some(p));
    } else {
      ChainGrows(now, next, pp1, low, tp0, p);
      ChainStays(now, next, pp2, high, tp1, tp0, Some(p));
    }
  }

  /** Where the chain of one kind lies in the list, and how it grows. */
  lemma KindFacts(pages: seq<PageInfo>, list: seq<nat>, n: nat, high: bool, first: Option<nat>, tail: Option<nat>)
    requires Distinct(list)
    requires n < |list| && Chain(pages, first, Select(list[..n], high), tail)
    ensures var s := Select(list[..n], high);
      && list[n] !in s
      && (forall i :: i in s ==> High(i) == high)
      && (tail.Some? ==> tail.value in list && High(tail.value) == high)
      && (forall k :: n <= k < |list| ==> tail != Some(list[k]))
      && Select(list[..n + 1], high) == if High(list[n]) == high then s + [list[n]] else s
  {
    var s := Select(list[..n], high);
    assert tail.Some? ==> tail.value in s;
    hide Select, High, Distinct, Chain;
    LaterNotBefore(list, n);
    assert list[..n + 1][..n] == list[..n];
    SelectLast(list[..n + 1], high);
    SelectMembers(list[..n], high);
  }

  lemma LaterNotBefore(list: seq<nat>, n: nat)
    requires n <= |list| && Distinct(list)
    ensures Distinct(list[..n]) && forall k :: n <= k < |list| ==> list[k] !in list[..n]
  {
  }

  /** The tails are pages of the list. */
  lemma TailsInside(before: seq<PageInfo>, pages: seq<PageInfo>, list: seq<nat>, n: nat,
                    pp1: Option<nat>, pp2: Option<nat>, tp0: Option<nat>, tp1: Option<nat>)
    requires Sorting(before, pages, list, n, pp1, pp2, tp0, tp1)
    ensures tp0.Some? ==> tp0.value < |pages|
    ensures tp1.Some? ==> tp1.value < |pages|
  {
    assert tp0.Some? ==> tp0.value in Select(list[..n], false);
    assert tp1.Some? ==> tp1.value in Select(list[..n], true);
  }

  lemma TailsDiffer(before: seq<PageInfo>, pages: seq<PageInfo>, list: seq<nat>, n: nat,
                    pp1: Option<nat>, pp2: Option<nat>, tp0: Option<nat>, tp1: Option<nat>)
    requires Distinct(list)
    requires Sorting(before, pages, list, n, pp1, pp2, tp0, tp1)
    ensures tp0.Some? ==> tp0 != tp1 && tp0.value in list
    ensures tp1.Some? ==> tp1.value in list
  {
    SelectMembers(list[..n], false);
    SelectMembers(list[..n], true);
    hide Select;
    assert tp0.Some? ==> tp0.value in Select(list[..n], false);
    assert tp1.Some? ==> tp1.value in Select(list[..n], true);
  }

  /** *tp[1] = 0 and *tp[0] = pp2 finish the list. */
  lemma SortDone(before: seq<PageInfo>, now: seq<PageInfo>, mid: seq<PageInfo>, after: seq<PageInfo>, list: seq<nat>,
                 pp1: Option<nat>, pp2: Option<nat>, tp0: Option<nat>, tp1: Option<nat>)
    requires Distinct(list)
    requires Sorting(before, now, list, |list|, pp1, pp2, tp0, tp1)
    requires |after| == |now| == |before|
    requires Stored(now, mid, tp1, None) && Stored(mid, after, tp0, if tp1.Some? then pp2 else None)
    ensures IsList(after, if tp0.Some? then pp1 else if tp1.Some? then pp2 else None,
                   Select(list, false) + Select(list, true))
    ensures OnlyLinks(before, after, list)
  {
    hide Select, IsList, High, Chain, Rest, Distinct, Stored, Apart;
    assert list[..|list|] == list;
    assert Chain(now, pp1, Select(list, false), tp0) && Chain(now, pp2, Select(list, true), tp1);
    TailsDiffer(before, now, list, |list|, pp1, pp2, tp0, tp1);
    hide Sorting;
    KindsDiffer(list);
    ChainsJoin(now, mid, after, Select(list, false), Select(list, true), pp1, pp2, tp0, tp1);
    RestEnds(before, now, mid, after, list, tp0, tp1, if tp1.Some? then pp2 else None);
  }

  lemma KindsDiffer(list: seq<nat>)
    requires Distinct(list)
    ensures Apart(Select(list, false), Select(list, true))
  {
    var a, b := Select(list, false), Select(list, true);
    SelectMembers(list, false);
    SelectMembers(list, true);
    hide Select;
    forall j, k | 0 <= j < |a| && 0 <= k < |b| ensures a[j] != b[k] {
      assert a[j] in a && b[k] in b;
    }
  }

  lemma RestEnds(before: seq<PageInfo>, now: seq<PageInfo>, mid: seq<PageInfo>, after: seq<PageInfo>, list: seq<nat>,
                 t0: Option<nat>, t1: Option<nat>, to: Option<nat>)
    requires Rest(before, now, list, |list|) && Stored(now, mid, t1, None) && Stored(mid, after, t0, to)
    requires t0.Some? ==> t0.value in list
    requires t1.Some? ==> t1.value in list
    ensures OnlyLinks(before, after, list)
  {
  }

  /** The body of the loop: *tp[pagetype] = pp; tp[pagetype] = &pp->pp_link. */
  method SortTurn(pages: array<PageInfo>, ghost before: seq<PageInfo>, ghost list: seq<nat>, ghost n: nat, p: nat,
                  q1: Option<nat>, q2: Option<nat>, t0: Option<nat>, t1: Option<nat>)
    returns (next: Option<nat>, pp1: Option<nat>, pp2: Option<nat>, tp0: Option<nat>, tp1: Option<nat>)
    requires IsList(before, if list == [] then None else Some(list[0]), list) && n < |list| && p == list[n]
    requires |before| == pages.Length && Sorting(before, pages[..], list, n, q1, q2, t0, t1)
    modifies pages
    ensures Sorting(before, pages[..], list, n + 1, pp1, pp2, tp0, tp1)
    ensures next == if n + 1 < |list| then Some(list[n + 1]) else None
  {
    hide *;
    ghost var now := pages[..];
    pp1, pp2, tp0, tp1 := q1, q2, t0, t1;
    TailsInside(before, now, list, n, pp1, pp2, tp0, tp1);
    if High(p) {
      pp2 := StoreAt(pages, pp2, tp1, Some(p));
      tp1 := Some(p);
    } else {
      pp1 := StoreAt(pages, pp1, tp0, Some(p));
      tp0 := Some(p);
    }
    SortOne(before, now, pages[..], list, n, q1, q2, t0, t1);
    next := pages[p].link;
  }

  /**
   * The two-tail loop of check_page_free_list: in place, in one pass, low pages first, each kind in the
   * old order.  tp[0] and tp[1] point to the link to set next, at first to pp1 and pp2 themselves.
   */
  method MoveLowFirst(pages: array<PageInfo>, head: Option<nat>, ghost list: seq<nat>) returns (newHead: Option<nat>)
    requires IsList(pages[..], head, list)
    modifies pages
    ensures IsList(pages[..], newHead, Select(list, false) + Select(list, true))
    ensures OnlyLinks(old(pages[..]), pages[..], list)
  {
    ghost var before := pages[..];
    assert Sorting(before, before, list, 0, None, None, None, None);
    assert Distinct(list);
    assert head == (if list == [] then None else Some(list[0]));
    assert forall k :: 0 <= k < |list| ==> list[k] < |before|;
    hide *;
    var pp1: Option<nat>, pp2: Option<nat> := None, None;
    var tp0: Option<nat>, tp1: Option<nat> := None, None;
    var pp := head;
    ghost var n := 0;
    while pp.Some?
      invariant n <= |list| && pp == if n < |list| then Some(list[n]) else None
      invariant |before| == pages.Length && Sorting(before, pages[..], list, n, pp1, pp2, tp0, tp1)
      decreases |list| - n
    {
      pp, pp1, pp2, tp0, tp1 := SortTurn(pages, before, list, n, pp.value, pp1, pp2, tp0, tp1);
      n := n + 1;
    }
    ghost var now, q1, q2 := pages[..], pp1, pp2;
    TailsInside(before, now, list, n, pp1, pp2, tp0, tp1);
    pp2 := StoreAt(pages, pp2, tp1, None);
    ghost var mid := pages[..];
    pp1 := StoreAt(pages, pp1, tp0, pp2);
    SortDone(before, now, mid, pages[..], list, q1, q2, tp0, tp1);
    newHead := pp1;
  }
}
