/** The search of the debugging table: stab_binsearch of kern/kdebug.c. */
module Kdebug {
  import opened Wrappers
  import opened Mmu

  /** struct Stab, as far as the search reads it. */
  datatype Stab = Stab(typ: nat, value: Word, desc: nat)

  // ---- what the search is meant to find: linear scans ----

  predicate Matches(stabs: seq<Stab>, typ: nat, i: int) {
    0 <= i < |stabs| && stabs[i].typ == typ
  }

  /** The last entry of the type in [left, right] with a value of at most addr, or left - 1. */
  function LastAtMost(stabs: seq<Stab>, typ: nat, addr: int, left: int, right: int): (r: int)
    ensures left - 1 <= r && (left - 1 <= right ==> r <= right)
    ensures r >= left ==> Matches(stabs, typ, r) && stabs[r].value <= addr
    ensures forall i :: r < i <= right && left <= i && Matches(stabs, typ, i) ==> stabs[i].value > addr
    decreases right - left + 1
  {
    if right < left then left - 1
    else if Matches(stabs, typ, right) && stabs[right].value <= addr then right
    else LastAtMost(stabs, typ, addr, left, right - 1)
  }

  /** The first entry of the type in [left, right], or right + 1. */
  function NextOf(stabs: seq<Stab>, typ: nat, left: int, right: int): (r: int)
    ensures left <= right + 1 ==> left <= r <= right + 1
    ensures left <= r <= right ==> Matches(stabs, typ, r)
    ensures forall i :: left <= i <= right && i < r ==> !Matches(stabs, typ, i)
    decreases right - left + 1
  {
    if right < left then right + 1
    else if Matches(stabs, typ, left) then left
    else NextOf(stabs, typ, left + 1, right)
  }

  /**
   * The search by scanning.  If some entry of the type in [left, right] is at most addr: the last such entry,
   * and the index just before the next entry of the type or else the old right.  With no entry of the type,
   * the right end is left - 1.  If all of them lie above addr, the region before the first.
   */
  function LinearSearch(stabs: seq<Stab>, typ: nat, addr: int, left: int, right: int): (int, int) {
    var last, first := LastAtMost(stabs, typ, addr, left, right), NextOf(stabs, typ, left, right);
    if last >= left then (last, NextOf(stabs, typ, last + 1, right) - 1)
    else if first > right then (left, left - 1)
    else if first == left then (left - 1, left - 1)
    else (left, first - 1)
  }

  // ---- the search itself ----

  /** The variables of stab_binsearch: l, r, *region_left, *region_right, addr and any_matches. */
  datatype Search = Search(l: int, r: int, left: int, right: int, addr: int, any: bool)

  /** Indexes stay inside the table. */
  predicate InTable(stabs: seq<Stab>, s: Search) {
    0 <= s.l && s.r < |stabs| && s.right < |stabs| && 0 <= s.left
  }

  /** The inner loop: the last entry of the type in [l, m], or l - 1. */
  function ScanDown(stabs: seq<Stab>, typ: nat, l: int, m: int): (r: int)
    requires 0 <= l <= m + 1 && m < |stabs|
    ensures l - 1 <= r <= m
    ensures r >= l ==> Matches(stabs, typ, r)
    ensures forall i :: r < i <= m ==> !Matches(stabs, typ, i)
    decreases m - l + 1
  {
    if m >= l && stabs[m].typ != typ then ScanDown(stabs, typ, l, m - 1) else m
  }

  /** One iteration of the outer loop; addr is a 32-bit number. */
  function Step(stabs: seq<Stab>, typ: nat, s: Search): (r: Search)
    requires InTable(stabs, s) && s.l <= s.r
    ensures InTable(stabs, r)
  {
    var mid := (s.l + s.r) / 2;
    var m := ScanDown(stabs, typ, s.l, mid);
    if m < s.l then s.(l := mid + 1)
    else if stabs[m].value < s.addr then s.(any := true, left := m, l := mid + 1)
    else if stabs[m].value > s.addr then s.(any := true, right := m - 1, r := m - 1)
    else s.(any := true, left := m, l := m, addr := (s.addr + 1) % 0x1_0000_0000)
  }

  /** How many entries of the type in [l, r] have a value of at least addr. */
  function AtLeast(stabs: seq<Stab>, typ: nat, l: int, r: int, addr: int): (n: nat)
    decreases r - l + 1
  {
    if r < l then 0
    else (if Matches(stabs, typ, r) && stabs[r].value >= addr then 1 else 0) + AtLeast(stabs, typ, l, r - 1, addr)
  }

  lemma {:induction false} AtLeastShrinks(stabs: seq<Stab>, typ: nat, l: int, r: int, addr: int, l': int, r': int,
      addr': int)
    requires l <= l' && r' <= r && addr <= addr'
    ensures AtLeast(stabs, typ, l', r', addr') <= AtLeast(stabs, typ, l, r, addr)
    ensures l <= l' && (exists i :: l <= i <= r && Matches(stabs, typ, i) && addr <= stabs[i].value < addr') ==>
            AtLeast(stabs, typ, l', r', addr') < AtLeast(stabs, typ, l, r, addr)
    decreases r - l + 1
  {
    if l > r {
    } else if r' == r {
      AtLeastShrinks(stabs, typ, l, r - 1, addr, l', r' - 1, addr');
    } else {
      AtLeastShrinks(stabs, typ, l, r - 1, addr, l', r', addr');
    }
  }

  /** Some entry of the type has value v. */
  ghost predicate Occurs(stabs: seq<Stab>, typ: nat, v: int) {
    exists i :: 0 <= i < |stabs| && stabs[i].typ == typ && stabs[i].value == v
  }

  /** addr++ never wraps: not every address from addr to the last one is that of an entry of the type. */
  ghost predicate BelowTop(stabs: seq<Stab>, typ: nat, addr: int) {
    exists v :: addr <= v < 0x1_0000_0000 && !Occurs(stabs, typ, v)
  }

  /** The outer loop ends: either [l, r] shrinks or an entry falls below addr. */
  function Measure(stabs: seq<Stab>, typ: nat, s: Search): nat {
    (if s.l <= s.r then s.r - s.l + 1 else 0) + AtLeast(stabs, typ, s.l, s.r, s.addr)
  }

  lemma StepStaysBelow(stabs: seq<Stab>, typ: nat, s: Search)
    requires InTable(stabs, s) && s.l <= s.r && BelowTop(stabs, typ, s.addr)
    ensures BelowTop(stabs, typ, Step(stabs, typ, s).addr)
    ensures Step(stabs, typ, s).addr == s.addr ||
            (Step(stabs, typ, s).addr == s.addr + 1 && 0 <= Step(stabs, typ, s).left < |stabs|
             && Occurs(stabs, typ, s.addr))
  {
    var m := ScanDown(stabs, typ, s.l, (s.l + s.r) / 2);
    var v :| s.addr <= v < 0x1_0000_0000 && !Occurs(stabs, typ, v);
    if m >= s.l && stabs[m].value == s.addr {
      assert stabs[m].typ == typ && Occurs(stabs, typ, s.addr);
    }
  }

  lemma StepDecreases(stabs: seq<Stab>, typ: nat, s: Search)
    requires InTable(stabs, s) && s.l <= s.r && BelowTop(stabs, typ, s.addr)
    ensures Measure(stabs, typ, Step(stabs, typ, s)) < Measure(stabs, typ, s)
    ensures BelowTop(stabs, typ, Step(stabs, typ, s).addr)
  {
    StepStaysBelow(stabs, typ, s);
    hide BelowTop, Occurs;
    var t := Step(stabs, typ, s);
    var m := ScanDown(stabs, typ, s.l, (s.l + s.r) / 2);
    if m >= s.l && stabs[m].value == s.addr {
      assert Matches(stabs, typ, m) && t.addr == s.addr + 1;
    }
    AtLeastShrinks(stabs, typ, s.l, s.r, s.addr, t.l, t.r, t.addr);
  }

  function Loop(stabs: seq<Stab>, typ: nat, s: Search): (r: Search)
    requires InTable(stabs, s) && BelowTop(stabs, typ, s.addr)
    ensures InTable(stabs, r) && r.l > r.r
    decreases Measure(stabs, typ, s)
  {
    if s.l > s.r then s
    else
      StepDecreases(stabs, typ, s);
      Loop(stabs, typ, Step(stabs, typ, s))
  }

  /** stab_binsearch: the new *region_left and *region_right. */
  function BinSearch(stabs: seq<Stab>, typ: nat, addr: Word, left: nat, right: int): (int, int)
    requires right < |stabs| && BelowTop(stabs, typ, addr)
  {
    Ends(stabs, typ, Loop(stabs, typ, Search(left, right, left, right, addr, false)))
  }

  /** What follows the outer loop. */
  function Ends(stabs: seq<Stab>, typ: nat, s: Search): (int, int)
    requires InTable(stabs, s)
  {
    if !s.any then (s.left, s.left - 1)
    else (ScanBack(stabs, typ, s.left, s.right), s.right)
  }

  /** The loop that finds the rightmost region: from l down to an entry of the type, or to left. */
  function ScanBack(stabs: seq<Stab>, typ: nat, left: int, l: int): (r: int)
    requires 0 <= left && l < |stabs|
    ensures r <= l && (l >= left ==> left <= r)
    ensures l < left ==> r == l
    ensures r > left ==> Matches(stabs, typ, r)
    ensures forall i :: r < i <= l ==> !Matches(stabs, typ, i)
    decreases l - left
  {
    if l > left && stabs[l].typ != typ then ScanBack(stabs, typ, left, l - 1) else l
  }

  // ---- what the search finds ----

  /** The entries of the type in [left, right] are in order of value. */
  ghost predicate Sorted(stabs: seq<Stab>, typ: nat, left: int, right: int) {
    forall i, j :: left <= i < j <= right && Matches(stabs, typ, i) && Matches(stabs, typ, j) ==>
      stabs[i].value <= stabs[j].value
  }

  ghost predicate HasValue(stabs: seq<Stab>, typ: nat, left: int, right: int, v: int) {
    exists i :: left <= i <= right && Matches(stabs, typ, i) && stabs[i].value == v
  }

  /** No entry of the type starts one byte after addr if one starts at addr. */
  ghost predicate Gap(stabs: seq<Stab>, typ: nat, addr: int, left: int, right: int) {
    HasValue(stabs, typ, left, right, addr) ==> !HasValue(stabs, typ, left, right, addr + 1)
  }

  /** The entries of the type before l are at most addr, those after r are above it. */
  ghost predicate Between(stabs: seq<Stab>, typ: nat, addr: int, left: int, right: int, l: int, r: int) {
    && 0 <= left <= l <= right + 1 && left - 1 <= r <= right
    && (forall i :: left <= i < l && Matches(stabs, typ, i) ==> stabs[i].value <= addr)
    && (forall i :: r < i <= right && Matches(stabs, typ, i) ==> stabs[i].value > addr)
    && (r < right ==> Matches(stabs, typ, r + 1))
  }

  /** *region_left is still the start, or an entry of the type at most addr. */
  ghost predicate LeftOk(stabs: seq<Stab>, typ: nat, addr: int, left: int, at: int, r: int) {
    at == left || (left < at <= r && Matches(stabs, typ, at) && stabs[at].value <= addr)
  }

  /** There is an entry of the type in [left, right]. */
  ghost predicate Present(stabs: seq<Stab>, typ: nat, left: int, right: int) {
    exists i :: left <= i <= right && Matches(stabs, typ, i)
  }

  /** any_matches records that an entry of the type was met; until then only l has moved. */
  ghost predicate AnyOk(stabs: seq<Stab>, typ: nat, left: int, right: int, s: Search) {
    if s.any then Present(stabs, typ, left, right)
    else s.r == right && s.left == left && forall i :: left <= i < s.l ==> !Matches(stabs, typ, i)
  }

  /** What every iteration keeps, for a search of [left, right] for addr. */
  ghost predicate Bracket(stabs: seq<Stab>, typ: nat, addr: int, left: int, right: int, s: Search) {
    && Between(stabs, typ, addr, left, right, s.l, s.r) && s.right == s.r
    && LeftOk(stabs, typ, addr, left, s.left, s.r)
    && (s.addr == addr || (s.addr == addr + 1 && HasValue(stabs, typ, left, right, addr)))
    && AnyOk(stabs, typ, left, right, s)
  }

  /** Moving l past the middle, when the entry m before it is the last of the type there and at most addr. */
  lemma RaiseLow(stabs: seq<Stab>, typ: nat, addr: int, left: int, right: int, l: int, r: int, m: int, l': int)
    requires Sorted(stabs, typ, left, right) && Between(stabs, typ, addr, left, right, l, r)
    requires l <= m < |stabs| && m <= right && l' <= right + 1 && Matches(stabs, typ, m) && stabs[m].value <= addr
    requires m <= l' && forall i :: m < i < l' ==> !Matches(stabs, typ, i)
    ensures Between(stabs, typ, addr, left, right, l', r)
  {
    forall i | left <= i < l' && Matches(stabs, typ, i) ensures stabs[i].value <= addr {
      assert i < m ==> stabs[i].value <= stabs[m].value;
    }
  }

  lemma LowerHigh(stabs: seq<Stab>, typ: nat, addr: int, left: int, right: int, l: int, r: int, m: int)
    requires Sorted(stabs, typ, left, right) && Between(stabs, typ, addr, left, right, l, r)
    requires l <= m <= r && Matches(stabs, typ, m) && stabs[m].value > addr
    ensures Between(stabs, typ, addr, left, right, l, m - 1)
  {
    forall i | m - 1 < i <= right && Matches(stabs, typ, i) ensures stabs[i].value > addr {
      assert m < i ==> stabs[m].value <= stabs[i].value;
    }
  }

  /** An entry below addr, found before r, lies before everything above addr. */
  lemma FoundBelow(stabs: seq<Stab>, typ: nat, addr: int, left: int, right: int, at: int, r: int, m: int)
    requires Sorted(stabs, typ, left, right) && 0 <= left && right < |stabs| && r <= right
    requires LeftOk(stabs, typ, addr, left, at, r) && left <= m <= r && Matches(stabs, typ, m)
    requires stabs[m].value > addr
    ensures LeftOk(stabs, typ, addr, left, at, m - 1)
  {
  }

  /** A stretch without entries of the type may be skipped. */
  lemma SkipLow(stabs: seq<Stab>, typ: nat, addr: int, left: int, right: int, l: int, r: int, l': int)
    requires Between(stabs, typ, addr, left, right, l, r) && l <= l' <= right + 1
    requires forall i :: l <= i < l' ==> !Matches(stabs, typ, i)
    ensures Between(stabs, typ, addr, left, right, l', r)
  {
  }

  /** An entry found at or below the bound is at most addr, even after addr was raised. */
  lemma BelowBound(stabs: seq<Stab>, typ: nat, addr: int, left: int, right: int, bound: int, m: int, r: int)
    requires Gap(stabs, typ, addr, left, right) && 0 <= left <= m <= r <= right < |stabs| && Matches(stabs, typ, m)
    requires bound == addr || (bound == addr + 1 && HasValue(stabs, typ, left, right, addr))
    requires stabs[m].value <= bound
    ensures stabs[m].value <= addr && LeftOk(stabs, typ, addr, left, m, r)
    ensures stabs[m].value == bound ==> bound == addr && HasValue(stabs, typ, left, right, addr)
  {
  }

  lemma StepKeepsAny(stabs: seq<Stab>, typ: nat, left: int, right: int, s: Search)
    requires InTable(stabs, s) && left <= s.l <= s.r <= right && AnyOk(stabs, typ, left, right, s)
    ensures AnyOk(stabs, typ, left, right, Step(stabs, typ, s))
  {
    assert ScanDown(stabs, typ, s.l, (s.l + s.r) / 2) >= s.l ==> Step(stabs, typ, s).any;
  }

  lemma StepKeepsBracket(stabs: seq<Stab>, typ: nat, addr: int, left: int, right: int, s: Search)
    requires InTable(stabs, s) && s.l <= s.r && BelowTop(stabs, typ, s.addr) && right < |stabs|
    requires Sorted(stabs, typ, left, right) && Gap(stabs, typ, addr, left, right)
    requires Bracket(stabs, typ, addr, left, right, s)
    ensures Bracket(stabs, typ, addr, left, right, Step(stabs, typ, s))
  {
    var mid := (s.l + s.r) / 2;
    var m := ScanDown(stabs, typ, s.l, mid);
    var t := Step(stabs, typ, s);
    assert t == if m < s.l then s.(l := mid + 1)
                else if stabs[m].value < s.addr then s.(any := true, left := m, l := mid + 1)
                else if stabs[m].value > s.addr then s.(any := true, right := m - 1, r := m - 1)
                else s.(any := true, left := m, l := m, addr := s.addr + 1);
    assert left <= s.l && s.r <= right;
    StepKeepsAny(stabs, typ, left, right, s);
    hide *;
    if m < s.l {
      SkipKeepsBracket(stabs, typ, addr, left, right, s, t);
    } else if stabs[m].value > s.addr {
      HighKeepsBracket(stabs, typ, addr, left, right, s, t, m);
    } else {
      LowKeepsBracket(stabs, typ, addr, left, right, s, t, m);
    }
  }

  lemma SkipKeepsBracket(stabs: seq<Stab>, typ: nat, addr: int, left: int, right: int, s: Search, t: Search)
    requires Bracket(stabs, typ, addr, left, right, s) && AnyOk(stabs, typ, left, right, t)
    requires t == s.(l := t.l) && s.l <= t.l <= right + 1
    requires forall i :: s.l <= i < t.l ==> !Matches(stabs, typ, i)
    ensures Bracket(stabs, typ, addr, left, right, t)
  {
    hide Between, LeftOk, HasValue, AnyOk, Matches;
    SkipLow(stabs, typ, addr, left, right, s.l, s.r, t.l);
  }

  lemma HighKeepsBracket(stabs: seq<Stab>, typ: nat, addr: int, left: int, right: int, s: Search, t: Search, m: int)
    requires InTable(stabs, s) && Sorted(stabs, typ, left, right) && right < |stabs|
    requires Bracket(stabs, typ, addr, left, right, s) && AnyOk(stabs, typ, left, right, t)
    requires s.l <= m <= s.r && Matches(stabs, typ, m) && stabs[m].value > s.addr
    requires t == s.(any := true, right := m - 1, r := m - 1)
    ensures Bracket(stabs, typ, addr, left, right, t)
  {
    assert left <= s.l && s.r <= right;
    hide Between, LeftOk, HasValue, AnyOk, Sorted;
    LowerHigh(stabs, typ, addr, left, right, s.l, s.r, m);
    FoundBelow(stabs, typ, addr, left, right, s.left, s.r, m);
  }

  lemma LowKeepsBracket(stabs: seq<Stab>, typ: nat, addr: int, left: int, right: int, s: Search, t: Search, m: int)
    requires InTable(stabs, s) && Sorted(stabs, typ, left, right) && Gap(stabs, typ, addr, left, right)
        && right < |stabs|
    requires Bracket(stabs, typ, addr, left, right, s) && AnyOk(stabs, typ, left, right, t)
    requires s.l <= m <= s.r && Matches(stabs, typ, m) && stabs[m].value <= s.addr
    requires m <= t.l <= right + 1 && forall i :: m < i < t.l ==> !Matches(stabs, typ, i)
    requires t == s.(any := true, left := m, l := t.l, addr := if stabs[m].value == s.addr then s.addr + 1 else s.addr)
    ensures Bracket(stabs, typ, addr, left, right, t)
  {
    assert left <= s.l && s.r <= right;
    hide Between, LeftOk, HasValue, AnyOk, Sorted, Gap;
    BelowBound(stabs, typ, addr, left, right, s.addr, m, s.r);
    RaiseLow(stabs, typ, addr, left, right, s.l, s.r, m, t.l);
  }

  lemma {:induction false} LoopKeepsBracket(stabs: seq<Stab>, typ: nat, addr: int, left: int, right: int, s: Search)
    requires InTable(stabs, s) && BelowTop(stabs, typ, s.addr) && right < |stabs|
    requires Sorted(stabs, typ, left, right) && Gap(stabs, typ, addr, left, right)
    requires Bracket(stabs, typ, addr, left, right, s)
    ensures Bracket(stabs, typ, addr, left, right, Loop(stabs, typ, s))
    decreases Measure(stabs, typ, s)
  {
    if s.l > s.r {
    } else {
      StepKeepsBracket(stabs, typ, addr, left, right, s);
      StepDecreases(stabs, typ, s);
      hide Bracket, Sorted, Gap, Step, Measure;
      LoopKeepsBracket(stabs, typ, addr, left, right, Step(stabs, typ, s));
    }
  }

  /** What the search leaves when it has ended. */
  lemma SearchBrackets(stabs: seq<Stab>, typ: nat, addr: Word, left: nat, right: int) returns (s: Search)
    requires left <= right + 1 && right < |stabs| && BelowTop(stabs, typ, addr)
    requires Sorted(stabs, typ, left, right) && Gap(stabs, typ, addr, left, right)
    ensures s.l > s.r && Bracket(stabs, typ, addr, left, right, s)
    ensures InTable(stabs, s) && s.right == s.r
    ensures BinSearch(stabs, typ, addr, left, right) == Ends(stabs, typ, s)
  {
    var s0 := Search(left, right, left, right, addr, false);
    LoopKeepsBracket(stabs, typ, addr, left, right, s0);
    s := Loop(stabs, typ, s0);
  }

  /**
   * The binary search refines the linear one: it starts in the middle of entries of other types and raises
   * addr on an exact match, and still ends where the two scans end.
   */
  lemma SearchIsLinearScan(stabs: seq<Stab>, typ: nat, addr: Word, left: nat, right: int)
    requires left <= right + 1 && right < |stabs| && BelowTop(stabs, typ, addr)
    requires Sorted(stabs, typ, left, right) && Gap(stabs, typ, addr, left, right)
    ensures BinSearch(stabs, typ, addr, left, right) == LinearSearch(stabs, typ, addr, left, right)
  {
    hide *;
    var s := SearchBrackets(stabs, typ, addr, left, right);
    if !s.any {
      EndsEmpty(stabs, typ, addr, left, right, s);
    } else if LastAtMost(stabs, typ, addr, left, right) >= left {
      EndsAtLast(stabs, typ, addr, left, right, s);
    } else {
      EndsBeforeFirst(stabs, typ, addr, left, right, s);
    }
  }

  /** Entries behind r are above addr, and r is the right end or lies just before one. */
  ghost predicate HighPart(stabs: seq<Stab>, typ: nat, addr: int, right: int, r: int) {
    && (forall i :: r < i <= right && Matches(stabs, typ, i) ==> stabs[i].value > addr)
    && (r < right ==> Matches(stabs, typ, r + 1))
  }

  lemma NextBehind(stabs: seq<Stab>, typ: nat, addr: int, right: int, r: int, l: int)
    requires HighPart(stabs, typ, addr, right, r) && l <= r <= right
    requires forall i :: l < i <= r ==> !Matches(stabs, typ, i)
    ensures NextOf(stabs, typ, l + 1, right) == r + 1
  {
    hide NextOf;
    var n := NextOf(stabs, typ, l + 1, right);
  }

  lemma EndsEmpty(stabs: seq<Stab>, typ: nat, addr: int, left: nat, right: int, s: Search)
    requires InTable(stabs, s) && left <= right + 1 && right < |stabs| && s.l > s.r && !s.any
    requires Bracket(stabs, typ, addr, left, right, s)
    ensures Ends(stabs, typ, s) == LinearSearch(stabs, typ, addr, left, right)
  {
    var last, first := LastAtMost(stabs, typ, addr, left, right), NextOf(stabs, typ, left, right);
    hide LastAtMost, NextOf, Between, LeftOk;
    assert last < left && first > right;
  }

  lemma EndsAtLast(stabs: seq<Stab>, typ: nat, addr: int, left: nat, right: int, s: Search)
    requires InTable(stabs, s) && right < |stabs| && s.l > s.r && s.any
    requires Bracket(stabs, typ, addr, left, right, s)
    requires LastAtMost(stabs, typ, addr, left, right) >= left
    ensures Ends(stabs, typ, s) == LinearSearch(stabs, typ, addr, left, right)
  {
    var last, b := LastAtMost(stabs, typ, addr, left, right), ScanBack(stabs, typ, s.left, s.r);
    hide LastAtMost, ScanBack, NextOf, AnyOk, HasValue;
    assert last <= s.r;
    assert last <= b <= s.r;
    assert b == left || Matches(stabs, typ, b);
    assert Matches(stabs, typ, b) ==> stabs[b].value <= addr;
    assert b == last;
    assert forall i :: last < i <= s.r ==> !Matches(stabs, typ, i);
    assert HighPart(stabs, typ, addr, right, s.r);
    hide Bracket;
    NextBehind(stabs, typ, addr, right, s.r, last);
  }

  lemma EndsBeforeFirst(stabs: seq<Stab>, typ: nat, addr: int, left: nat, right: int, s: Search)
    requires InTable(stabs, s) && left <= right + 1 && right < |stabs| && s.l > s.r && s.any
    requires Bracket(stabs, typ, addr, left, right, s)
    requires LastAtMost(stabs, typ, addr, left, right) < left
    ensures Ends(stabs, typ, s) == LinearSearch(stabs, typ, addr, left, right)
  {
    var last, b := LastAtMost(stabs, typ, addr, left, right), ScanBack(stabs, typ, s.left, s.r);
    var first := NextOf(stabs, typ, left, right);
    hide LastAtMost, ScanBack, NextOf;
    forall i | left <= i <= s.r ensures !Matches(stabs, typ, i) {
    }
    assert first > s.r && first <= right;
    assert s.left == left;
  }

  /**
   * Gap is needed: with entries at 5 and 6 a search for 5 finds the entry at 5, goes on for 6, and ends at
   * the entry at 6.
   */
  lemma AdjacentEntriesMislead(typ: nat)
    ensures var stabs := [Stab(typ, 5, 0), Stab(typ, 6, 0)];
      && BelowTop(stabs, typ, 5) && Sorted(stabs, typ, 0, 1)
      && LinearSearch(stabs, typ, 5, 0, 1) == (0, 0)
      && BinSearch(stabs, typ, 5, 0, 1) == (1, 1)
  {
    var t := [Stab(typ, 5, 0), Stab(typ, 6, 0)];
    assert !Occurs(t, typ, 9);
    var s0 := Search(0, 1, 0, 1, 5, false);
    var s1 := Step(t, typ, s0);
    assert s1 == Search(0, 1, 0, 1, 6, true);
    var s2 := Step(t, typ, s1);
    assert s2 == Search(1, 1, 0, 1, 6, true);
    var s3 := Step(t, typ, s2);
    assert s3 == Search(1, 1, 1, 1, 7, true);
    var s4 := Step(t, typ, s3);
    assert s4 == Search(2, 1, 1, 1, 7, true);
    assert Loop(t, typ, s0) == Loop(t, typ, s1) == Loop(t, typ, s2) == Loop(t, typ, s3) == s4;
    assert LastAtMost(t, typ, 5, 0, 1) == LastAtMost(t, typ, 5, 0, 0) == 0;
    assert NextOf(t, typ, 1, 1) == 1;
  }

  // ---- what the search does in any table ----

  /** The search stays in [left, right] and records whether it met an entry of the type. */
  ghost predicate Inside(stabs: seq<Stab>, typ: nat, left: int, right: int, s: Search) {
    left <= s.l <= right + 1 && s.r <= right && AnyOk(stabs, typ, left, right, s)
  }

  lemma {:induction false} LoopStaysInside(stabs: seq<Stab>, typ: nat, left: int, right: int, s: Search)
    requires InTable(stabs, s) && BelowTop(stabs, typ, s.addr) && Inside(stabs, typ, left, right, s)
    ensures Inside(stabs, typ, left, right, Loop(stabs, typ, s))
    decreases Measure(stabs, typ, s)
  {
    LoopUnfolds(stabs, typ, s);
    if s.l > s.r {
    } else {
      StepKeepsAny(stabs, typ, left, right, s);
      var t := Step(stabs, typ, s);
      assert left <= t.l <= right + 1 && t.r <= right;
      hide AnyOk, Step, Measure, Loop, BelowTop;
      LoopStaysInside(stabs, typ, left, right, t);
    }
  }

  /**
   * The header comment promises that left > right means an addr in no entry of the type.  In any table, sorted
   * or not, the search ends with left > right exactly if [left, right] has no entry of the type at all, so the
   * promise is kept.  debuginfo_eip relies on the converse too, that an addr in no entry gives left > right;
   * that holds exactly if there is none of the type, or one at or below addr.
   */
  lemma LeftAboveRight(stabs: seq<Stab>, typ: nat, addr: Word, left: nat, right: int)
    requires left <= right + 1 && right < |stabs| && BelowTop(stabs, typ, addr)
    ensures var (l, r) := BinSearch(stabs, typ, addr, left, right);
      && (l > r <==> !Present(stabs, typ, left, right))
      && (l > r ==> LastAtMost(stabs, typ, addr, left, right) < left)
      && ((LastAtMost(stabs, typ, addr, left, right) < left ==> l > r) <==>
            LastAtMost(stabs, typ, addr, left, right) >= left || !Present(stabs, typ, left, right))
  {
    hide LastAtMost, ScanBack, Step, Measure, BelowTop;
    var s0 := Search(left, right, left, right, addr, false);
    LoopStaysInside(stabs, typ, left, right, s0);
    var s := Loop(stabs, typ, s0);
    var last := LastAtMost(stabs, typ, addr, left, right);
    assert last >= left ==> Matches(stabs, typ, last);
  }

  /** All values from a to b - 1 are those of entries of the type in [left, right]. */
  ghost predicate Chain(stabs: seq<Stab>, typ: nat, left: int, right: int, a: int, b: int) {
    forall v :: a <= v < b ==> HasValue(stabs, typ, left, right, v)
  }

  /** Entries before l are at most addr or below bound. */
  ghost predicate LowPart(stabs: seq<Stab>, typ: nat, addr: int, left: int, bound: int, l: int) {
    forall i :: left <= i < l && Matches(stabs, typ, i) ==> stabs[i].value <= addr || stabs[i].value < bound
  }

  /** What every turn keeps in a sorted table that has an entry at addr, whatever follows it. */
  ghost predicate Climbing(stabs: seq<Stab>, typ: nat, addr: int, left: int, right: int, s: Search) {
    && 0 <= left <= s.l <= right + 1 && left - 1 <= s.r <= right && s.right == s.r && left <= s.left
    && addr <= s.addr && Chain(stabs, typ, left, right, addr, s.addr)
    && LowPart(stabs, typ, addr, left, s.addr, s.l) && HighPart(stabs, typ, addr, right, s.r)
    && (s.left == left ||
          (s.left <= s.r && s.left <= s.l && Matches(stabs, typ, s.left) && stabs[s.left].value < s.addr))
    && AnyOk(stabs, typ, left, right, s)
  }

  lemma StepKeepsClimbing(stabs: seq<Stab>, typ: nat, addr: int, left: int, right: int, s: Search)
    requires InTable(stabs, s) && s.l <= s.r && BelowTop(stabs, typ, s.addr) && right < |stabs|
    requires Sorted(stabs, typ, left, right) && Climbing(stabs, typ, addr, left, right, s)
    ensures Climbing(stabs, typ, addr, left, right, Step(stabs, typ, s))
  {
    var mid := (s.l + s.r) / 2;
    var m := ScanDown(stabs, typ, s.l, mid);
    var t := Step(stabs, typ, s);
    StepKeepsAny(stabs, typ, left, right, s);
    StepStaysBelow(stabs, typ, s);
    assert t == if m < s.l then s.(l := mid + 1)
                else if stabs[m].value < s.addr then s.(any := true, left := m, l := mid + 1)
                else if stabs[m].value > s.addr then s.(any := true, right := m - 1, r := m - 1)
                else s.(any := true, left := m, l := m, addr := s.addr + 1);
    assert left <= s.l && s.r <= right && AnyOk(stabs, typ, left, right, t);
    hide *;
    if m < s.l {
      ClimbSkips(stabs, typ, addr, left, right, s, t);
    } else if stabs[m].value > s.addr {
      ClimbFalls(stabs, typ, addr, left, right, s, t, m);
    } else {
      ClimbRises(stabs, typ, addr, left, right, s, t, m);
    }
  }

  lemma ClimbSkips(stabs: seq<Stab>, typ: nat, addr: int, left: int, right: int, s: Search, t: Search)
    requires Climbing(stabs, typ, addr, left, right, s) && AnyOk(stabs, typ, left, right, t)
    requires t == s.(l := t.l) && s.l <= t.l <= right + 1 && forall i :: s.l <= i < t.l ==> !Matches(stabs, typ, i)
    ensures Climbing(stabs, typ, addr, left, right, t)
  {
    hide AnyOk, LowPart, HighPart, Chain;
    LowSkips(stabs, typ, addr, left, s.addr, s.l, t.l);
  }

  lemma ClimbFalls(stabs: seq<Stab>, typ: nat, addr: int, left: int, right: int, s: Search, t: Search, m: int)
    requires right < |stabs| && Sorted(stabs, typ, left, right) && Climbing(stabs, typ, addr, left, right, s)
    requires AnyOk(stabs, typ, left, right, t)
    requires 0 <= s.l <= m <= s.r && Matches(stabs, typ, m) && stabs[m].value > s.addr
    requires t == s.(any := true, right := m - 1, r := m - 1)
    ensures Climbing(stabs, typ, addr, left, right, t)
  {
    hide AnyOk, LowPart, HighPart, Chain, Sorted;
    HighFalls(stabs, typ, addr, left, right, m);
  }

  lemma ClimbRises(stabs: seq<Stab>, typ: nat, addr: int, left: int, right: int, s: Search, t: Search, m: int)
    requires right < |stabs| && Sorted(stabs, typ, left, right) && Climbing(stabs, typ, addr, left, right, s)
    requires AnyOk(stabs, typ, left, right, t)
    requires 0 <= s.l <= m <= s.r && Matches(stabs, typ, m) && stabs[m].value <= s.addr
    requires m <= t.l <= right + 1 && forall i :: m < i < t.l ==> !Matches(stabs, typ, i)
    requires t == s.(any := true, left := m, l := t.l, addr := if stabs[m].value == s.addr then s.addr + 1 else s.addr)
    ensures Climbing(stabs, typ, addr, left, right, t)
  {
    hide AnyOk, LowPart, HighPart, Chain, Sorted;
    LowRises(stabs, typ, addr, left, right, t.addr, m, t.l);
    if stabs[m].value == s.addr {
      ChainGrows(stabs, typ, left, right, addr, s.addr, m);
    }
  }

  lemma LowSkips(stabs: seq<Stab>, typ: nat, addr: int, left: int, bound: int, l: int, l': int)
    requires LowPart(stabs, typ, addr, left, bound, l) && forall i :: l <= i < l' ==> !Matches(stabs, typ, i)
    ensures LowPart(stabs, typ, addr, left, bound, l')
  {
  }

  lemma HighFalls(stabs: seq<Stab>, typ: nat, addr: int, left: int, right: int, m: int)
    requires Sorted(stabs, typ, left, right) && left <= m <= right && Matches(stabs, typ, m) && stabs[m].value > addr
    ensures HighPart(stabs, typ, addr, right, m - 1)
  {
    forall i | m - 1 < i <= right && Matches(stabs, typ, i) ensures stabs[i].value > addr {
      assert m < i ==> stabs[m].value <= stabs[i].value;
    }
  }

  lemma LowRises(stabs: seq<Stab>, typ: nat, addr: int, left: int, right: int, bound: int, m: int, l': int)
    requires Sorted(stabs, typ, left, right) && left <= m <= right && Matches(stabs, typ, m) && stabs[m].value < bound
    requires forall i :: m < i < l' ==> !Matches(stabs, typ, i)
    ensures LowPart(stabs, typ, addr, left, bound, l')
  {
    forall i | left <= i < l' && Matches(stabs, typ, i) ensures stabs[i].value < bound {
      assert i < m ==> stabs[i].value <= stabs[m].value;
    }
  }

  lemma ChainGrows(stabs: seq<Stab>, typ: nat, left: int, right: int, a: int, b: int, m: int)
    requires Chain(stabs, typ, left, right, a, b) && left <= m <= right && Matches(stabs, typ, m) && stabs[m].value == b
    ensures Chain(stabs, typ, left, right, a, b + 1)
  {
    assert HasValue(stabs, typ, left, right, b);
  }

  lemma {:induction false} LoopKeepsClimbing(stabs: seq<Stab>, typ: nat, addr: int, left: int, right: int, s: Search)
    requires InTable(stabs, s) && BelowTop(stabs, typ, s.addr) && right < |stabs|
    requires Sorted(stabs, typ, left, right) && Climbing(stabs, typ, addr, left, right, s)
    ensures Climbing(stabs, typ, addr, left, right, Loop(stabs, typ, s))
    decreases Measure(stabs, typ, s)
  {
    hide Climbing, Sorted, Step, Measure, Loop, BelowTop;
    LoopUnfolds(stabs, typ, s);
    if s.l > s.r {
    } else {
      StepKeepsClimbing(stabs, typ, addr, left, right, s);
      LoopKeepsClimbing(stabs, typ, addr, left, right, Step(stabs, typ, s));
    }
  }

  /**
   * Where the search ends without Gap, in any sorted table with an entry at addr: at an entry reached from
   * addr through entries at consecutive values, with the region up to the next entry.  It is the right one
   * exactly if its value is addr.
   */
  lemma SearchClimbs(stabs: seq<Stab>, typ: nat, addr: Word, left: nat, right: int)
    requires left <= right + 1 && right < |stabs| && BelowTop(stabs, typ, addr)
    requires Sorted(stabs, typ, left, right) && HasValue(stabs, typ, left, right, addr)
    ensures var (l, r) := BinSearch(stabs, typ, addr, left, right);
      && left <= l <= r <= right && Matches(stabs, typ, l) && r == NextOf(stabs, typ, l + 1, right) - 1
      && addr <= stabs[l].value && Chain(stabs, typ, left, right, addr, stabs[l].value + 1)
      && ((l, r) == LinearSearch(stabs, typ, addr, left, right) <==> stabs[l].value == addr)
  {
    hide ScanBack, LastAtMost, NextOf, BelowTop, Loop, Measure, Chain;
    var s0 := Search(left, right, left, right, addr, false);
    ChainStarts(stabs, typ, left, right, addr);
    LoopKeepsClimbing(stabs, typ, addr, left, right, s0);
    ClimbingEnds(stabs, typ, addr, left, right, Loop(stabs, typ, s0));
  }

  lemma ChainStarts(stabs: seq<Stab>, typ: nat, left: int, right: int, a: int)
    ensures Chain(stabs, typ, left, right, a, a)
  {
  }

  lemma ClimbingEnds(stabs: seq<Stab>, typ: nat, addr: int, left: nat, right: int, s: Search)
    requires InTable(stabs, s) && right < |stabs| && s.l > s.r && Climbing(stabs, typ, addr, left, right, s)
    requires Sorted(stabs, typ, left, right) && HasValue(stabs, typ, left, right, addr)
    ensures var (l, r) := Ends(stabs, typ, s);
      && left <= l <= r <= right && Matches(stabs, typ, l) && r == NextOf(stabs, typ, l + 1, right) - 1
      && addr <= stabs[l].value && Chain(stabs, typ, left, right, addr, stabs[l].value + 1)
      && ((l, r) == LinearSearch(stabs, typ, addr, left, right) <==> stabs[l].value == addr)
  {
    hide ScanBack, LastAtMost, NextOf, Sorted, AnyOk;
    var i :| left <= i <= right && Matches(stabs, typ, i) && stabs[i].value == addr;
    var l := ScanBack(stabs, typ, s.left, s.r);
    assert i <= s.r;
    AnyMet(stabs, typ, left, right, s, i);
    assert i <= l <= s.r && Matches(stabs, typ, l);
    assert stabs[l].value == addr || stabs[l].value < s.addr;
    InOrder(stabs, typ, left, right, i, l);
    hide Chain, HasValue, Climbing, LinearSearch;
    NextBehind(stabs, typ, addr, right, s.r, l);
    ScanAgrees(stabs, typ, addr, left, right, l, s.r);
  }

  lemma AnyMet(stabs: seq<Stab>, typ: nat, left: int, right: int, s: Search, i: int)
    requires AnyOk(stabs, typ, left, right, s) && left <= i <= right && Matches(stabs, typ, i) && s.l > s.r && i <= s.r
    ensures s.any
  {
  }

  lemma InOrder(stabs: seq<Stab>, typ: nat, left: int, right: int, i: int, j: int)
    requires Sorted(stabs, typ, left, right) && left <= i <= j <= right
    requires Matches(stabs, typ, i) && Matches(stabs, typ, j)
    ensures stabs[i].value <= stabs[j].value
  {
  }

  /** The region from the last entry at l, before entries above addr, is that of the scans if l is at addr. */
  lemma ScanAgrees(stabs: seq<Stab>, typ: nat, addr: int, left: int, right: int, l: int, r: int)
    requires left <= l <= r <= right && Matches(stabs, typ, l) && addr <= stabs[l].value
    requires HighPart(stabs, typ, addr, right, r) && r == NextOf(stabs, typ, l + 1, right) - 1
    ensures (l, r) == LinearSearch(stabs, typ, addr, left, right) <==> stabs[l].value == addr
  {
    hide LastAtMost, NextOf;
    var last := LastAtMost(stabs, typ, addr, left, right);
    assert last >= left ==> stabs[last].value <= addr;
    if stabs[l].value == addr {
      assert last >= l;
    }
  }

  /** The turn meets an entry at addr. */
  predicate Hits(stabs: seq<Stab>, typ: nat, s: Search)
    requires InTable(stabs, s) && s.l <= s.r
  {
    var m := ScanDown(stabs, typ, s.l, (s.l + s.r) / 2);
    m >= s.l && stabs[m].value == s.addr
  }

  /** The search up to the turn that first meets an entry at addr; [l, r] is what is left to be searched then. */
  function Met(stabs: seq<Stab>, typ: nat, s: Search): (t: Search)
    requires InTable(stabs, s) && BelowTop(stabs, typ, s.addr)
    ensures InTable(stabs, t)
    decreases Measure(stabs, typ, s)
  {
    if s.l > s.r then s
    else if Hits(stabs, typ, s) then Step(stabs, typ, s)
    else
      StepDecreases(stabs, typ, s);
      Met(stabs, typ, Step(stabs, typ, s))
  }

  /** In a sorted region with an entry at addr such a turn comes. */
  lemma {:induction false} MeetsIt(stabs: seq<Stab>, typ: nat, left: nat, right: int, s: Search)
    requires InTable(stabs, s) && BelowTop(stabs, typ, s.addr) && left <= s.l && s.r <= right < |stabs|
    requires s.right == s.r && Sorted(stabs, typ, left, right) && HasValue(stabs, typ, s.l, s.r, s.addr)
    ensures var t := Met(stabs, typ, s);
      && left <= t.l <= t.r <= right && Matches(stabs, typ, t.l) && stabs[t.l].value == s.addr
      && t == Search(t.l, t.r, t.l, t.r, s.addr + 1, true)
      && BelowTop(stabs, typ, t.addr) && Loop(stabs, typ, t) == Loop(stabs, typ, s)
    decreases Measure(stabs, typ, s)
  {
    LoopUnfolds(stabs, typ, s);
    StepStaysBelow(stabs, typ, s);
    if Hits(stabs, typ, s) {
    } else {
      StillAhead(stabs, typ, left, right, s);
      hide Sorted, HasValue, Step, Measure, Loop, BelowTop, Hits;
      MeetsIt(stabs, typ, left, right, Step(stabs, typ, s));
    }
  }

  /** A turn that does not meet it leaves the entry at addr in [l, r]. */
  lemma StillAhead(stabs: seq<Stab>, typ: nat, left: nat, right: int, s: Search)
    requires InTable(stabs, s) && left <= s.l && s.r <= right < |stabs| && s.right == s.r
    requires Sorted(stabs, typ, left, right) && HasValue(stabs, typ, s.l, s.r, s.addr) && !Hits(stabs, typ, s)
    ensures var t := Step(stabs, typ, s);
      && t.addr == s.addr && left <= t.l && t.r <= right && t.right == t.r && HasValue(stabs, typ, t.l, t.r, s.addr)
  {
    var i :| s.l <= i <= s.r && Matches(stabs, typ, i) && stabs[i].value == s.addr;
    var m := ScanDown(stabs, typ, s.l, (s.l + s.r) / 2);
    var t := Step(stabs, typ, s);
    assert t.l <= i <= t.r;
  }

  /**
   * When the search is right, in any sorted table with an entry at addr: exactly if where it first meets an
   * entry at addr, no entry at addr + 1 is left to be searched.
   */
  lemma SearchIsRightIff(stabs: seq<Stab>, typ: nat, addr: Word, left: nat, right: int)
    requires left <= right + 1 && right < |stabs| && BelowTop(stabs, typ, addr)
    requires Sorted(stabs, typ, left, right) && HasValue(stabs, typ, left, right, addr)
    ensures var t := Met(stabs, typ, Search(left, right, left, right, addr, false));
      BinSearch(stabs, typ, addr, left, right) == LinearSearch(stabs, typ, addr, left, right) <==>
        !HasValue(stabs, typ, t.l, t.r, addr + 1)
  {
    hide ScanBack, LastAtMost, NextOf, BelowTop, Loop, Measure, Chain, Sorted, HasValue, LinearSearch, Met, Climbing;
    SearchClimbs(stabs, typ, addr, left, right);
    var s0 := Search(left, right, left, right, addr, false);
    MeetsIt(stabs, typ, left, right, s0);
    var t := Met(stabs, typ, s0);
    SortedInside(stabs, typ, left, right, t.l, t.r);
    ClimbFrom(stabs, typ, addr, t);
    var (l, r) := Ends(stabs, typ, Loop(stabs, typ, t));
    if stabs[l].value > addr {
      ChainHas(stabs, typ, t.l, t.r, addr, stabs[l].value);
    }
  }

  lemma SortedInside(stabs: seq<Stab>, typ: nat, left: int, right: int, l: int, r: int)
    requires Sorted(stabs, typ, left, right) && left <= l && r <= right
    ensures Sorted(stabs, typ, l, r)
  {
  }

  lemma ChainHas(stabs: seq<Stab>, typ: nat, left: int, right: int, a: int, b: int)
    requires Chain(stabs, typ, left, right, a, b + 1) && a < b
    ensures HasValue(stabs, typ, left, right, a + 1)
  {
  }

  /** From there on the search climbs, within what is left to be searched. */
  lemma ClimbFrom(stabs: seq<Stab>, typ: nat, addr: int, t: Search)
    requires InTable(stabs, t) && BelowTop(stabs, typ, t.addr) && t == Search(t.l, t.r, t.l, t.r, addr + 1, true)
    requires t.l <= t.r && Matches(stabs, typ, t.l) && stabs[t.l].value == addr && Sorted(stabs, typ, t.l, t.r)
    ensures var (l, r) := Ends(stabs, typ, Loop(stabs, typ, t));
      && 0 <= l < |stabs| && Chain(stabs, typ, t.l, t.r, addr, stabs[l].value + 1) && addr <= stabs[l].value
      && (HasValue(stabs, typ, t.l, t.r, addr + 1) ==> stabs[l].value > addr)
  {
    hide ScanBack, LastAtMost, NextOf, BelowTop, Loop, Measure, Sorted, LinearSearch, Ends;
    ClimbStarts(stabs, typ, addr, t);
    hide Chain, Climbing, HasValue, Matches;
    LoopKeepsClimbing(stabs, typ, addr, t.l, t.r, t);
    ClimbingEnds(stabs, typ, addr, t.l, t.r, Loop(stabs, typ, t));
    if HasValue(stabs, typ, t.l, t.r, addr + 1) {
      LoopKeepsClimbing(stabs, typ, addr + 1, t.l, t.r, t);
      ClimbingEnds(stabs, typ, addr + 1, t.l, t.r, Loop(stabs, typ, t));
    }
  }

  lemma ClimbStarts(stabs: seq<Stab>, typ: nat, addr: int, t: Search)
    requires InTable(stabs, t) && t == Search(t.l, t.r, t.l, t.r, addr + 1, true)
    requires t.l <= t.r && Matches(stabs, typ, t.l) && stabs[t.l].value == addr
    ensures Climbing(stabs, typ, addr, t.l, t.r, t) && Climbing(stabs, typ, addr + 1, t.l, t.r, t)
    ensures HasValue(stabs, typ, t.l, t.r, addr)
  {
    assert HasValue(stabs, typ, t.l, t.r, addr);
  }

  /** What a search of [left, right] for addr may rely on. */
  ghost predicate Searchable(stabs: seq<Stab>, typ: nat, addr: int, left: int, right: int) {
    Sorted(stabs, typ, left, right) && Gap(stabs, typ, addr, left, right)
  }

  /** One turn of the loop, on its variables. */
  lemma LoopUnfolds(stabs: seq<Stab>, typ: nat, s: Search)
    requires InTable(stabs, s) && BelowTop(stabs, typ, s.addr)
    ensures s.l > s.r ==> Loop(stabs, typ, s) == s
    ensures s.l <= s.r ==> BelowTop(stabs, typ, Step(stabs, typ, s).addr)
    ensures s.l <= s.r ==> Loop(stabs, typ, s) == Loop(stabs, typ, Step(stabs, typ, s))
    ensures s.l <= s.r ==> Measure(stabs, typ, Step(stabs, typ, s)) < Measure(stabs, typ, s)
  {
    if s.l <= s.r {
      StepDecreases(stabs, typ, s);
    }
  }

  /** stab_binsearch. */
  method StabBinSearch(stabs: seq<Stab>, left: nat, right: int, typ: nat, addr: Word)
    returns (regionLeft: int, regionRight: int)
    requires left <= right + 1 && right < |stabs| && BelowTop(stabs, typ, addr)
    ensures (regionLeft, regionRight) == BinSearch(stabs, typ, addr, left, right)
    ensures Searchable(stabs, typ, addr, left, right) ==>
              (regionLeft, regionRight) == LinearSearch(stabs, typ, addr, left, right)
  {
    hide LinearSearch, Sorted, Gap, BelowTop, Measure, Loop, ScanDown, ScanBack, Matches;
    if Searchable(stabs, typ, addr, left, right) {
      SearchIsLinearScan(stabs, typ, addr, left, right);
    }
    hide Searchable;
    var l: int, r: int, anyMatches: bool, a: int := left, right, false, addr;
    regionLeft, regionRight := left, right;
    ghost var s0 := Search(l, r, left, right, addr, false);
    ghost var s := s0;
    while l <= r
      invariant s == Search(l, r, regionLeft, regionRight, a, anyMatches)
      invariant InTable(stabs, s) && BelowTop(stabs, typ, s.addr) && BelowTop(stabs, typ, s0.addr)
      invariant Loop(stabs, typ, s) == Loop(stabs, typ, s0)
      decreases Measure(stabs, typ, s)
    {
      LoopUnfolds(stabs, typ, s);
      s := Step(stabs, typ, s);
      var trueM := (l + r) / 2;
      var m := ScanDownFrom(stabs, typ, l, trueM);
      if m < l {
        l := trueM + 1;
        continue;
      }
      anyMatches := true;
      if stabs[m].value < a {
        regionLeft := m;
        l := trueM + 1;
      } else if stabs[m].value > a {
        regionRight := m - 1;
        r := m - 1;
      } else {
        regionLeft := m;
        l := m;
        a := (a + 1) % 0x1_0000_0000;
      }
    }
    LoopUnfolds(stabs, typ, s);
    if !anyMatches {
      regionRight := regionLeft - 1;
    } else {
      regionLeft := ScanBackFrom(stabs, typ, regionLeft, regionRight);
    }
  }

  /** The loop that looks for the nearest entry of the type, from m down to l. */
  method ScanDownFrom(stabs: seq<Stab>, typ: nat, l: int, m0: int) returns (m: int)
    requires 0 <= l <= m0 + 1 && m0 < |stabs|
    ensures m == ScanDown(stabs, typ, l, m0)
  {
    m := m0;
    while m >= l && stabs[m].typ != typ
      invariant l - 1 <= m <= m0
      invariant ScanDown(stabs, typ, l, m) == ScanDown(stabs, typ, l, m0)
    {
      m := m - 1;
    }
  }

  /** The loop that finds the rightmost region containing addr. */
  method ScanBackFrom(stabs: seq<Stab>, typ: nat, left: int, right: int) returns (l: int)
    requires 0 <= left && right < |stabs|
    ensures l == ScanBack(stabs, typ, left, right)
  {
    l := right;
    while l > left && stabs[l].typ != typ
      invariant l <= right
      invariant ScanBack(stabs, typ, left, l) == ScanBack(stabs, typ, left, right)
    {
      l := l - 1;
    }
  }

  // ---- debuginfo_eip ----

  const N_FUN: nat := 0x24
  const N_SLINE: nat := 0x44
  const N_SO: nat := 0x64

  /** What debuginfo_eip fills in: eip_fn_addr, and eip_line if a line was found (else it returns -1). */
  datatype EipInfo = EipInfo(fnAddr: Word, line: Option<nat>)

  /** A table starts with a header entry that is no N_SO. */
  ghost predicate HasHeader(stabs: seq<Stab>) {
    |stabs| > 0 && stabs[0].typ != N_SO
  }

  /** The source file region: from the last N_SO entry at or below addr; from entry 0 if there is none. */
  ghost function FileRegion(stabs: seq<Stab>, addr: Word): (f: (int, int))
    requires HasHeader(stabs)
    ensures 0 <= f.0 < |stabs| && f.1 < |stabs|
    ensures f.0 == 0 <==> LastAtMost(stabs, N_SO, addr, 0, |stabs| - 1) < 0
    ensures f.0 > 0 ==> f.0 <= f.1 && stabs[f.0].typ == N_SO && stabs[f.0].value <= addr
  {
    LinearSearch(stabs, N_SO, addr, 0, |stabs| - 1)
  }

  /** Where lines are searched: left, right, the function's address, and the address relative to it. */
  datatype Region = Region(left: int, right: int, fnAddr: Word, addr: Word)

  /** The function region inside a file region, or the whole file region if it has no function entry. */
  ghost function FunctionRegion(stabs: seq<Stab>, addr: Word, file: (int, int)): (r: Region)
    requires 0 <= file.0 <= file.1 < |stabs| && stabs[file.0].typ == N_SO && stabs[file.0].value <= addr
    ensures 0 <= r.left <= r.right < |stabs| && stabs[r.left].typ != N_SLINE
  {
    var (l, r) := LinearSearch(stabs, N_FUN, addr, file.0, file.1);
    if l <= r then Region(l, r, stabs[l].value, addr - stabs[l].value) else Region(file.0, file.1, addr, addr)
  }

  /** A region that starts with an entry of another type is searched without leaving it. */
  lemma LinearSearchInside(stabs: seq<Stab>, typ: nat, addr: int, left: int, right: int)
    requires 0 <= left <= right < |stabs| && stabs[left].typ != typ
    ensures var (l, r) := LinearSearch(stabs, typ, addr, left, right); left <= l <= right && r <= right
  {
    assert !Matches(stabs, typ, left);
  }

  /** debuginfo_eip for a kernel address, with linear scans; None if it fails before the function search. */
  ghost function DebugInfo(stabs: seq<Stab>, addr: Word): Option<EipInfo>
    requires HasHeader(stabs)
  {
    var file := FileRegion(stabs, addr);
    if file.0 == 0 then None
    else
      var f := FunctionRegion(stabs, addr, file);
      LinearSearchInside(stabs, N_SLINE, f.addr, f.left, f.right);
      var (l, r) := LinearSearch(stabs, N_SLINE, f.addr, f.left, f.right);
      Some(EipInfo(f.fnAddr, if l <= r then Some(stabs[l].desc) else None))
  }

  /** The table is in order at every level that the nested searches look at. */
  ghost predicate NestedSearchable(stabs: seq<Stab>, addr: Word)
    requires HasHeader(stabs)
  {
    var file := FileRegion(stabs, addr);
    && Searchable(stabs, N_SO, addr, 0, |stabs| - 1)
    && (file.0 > 0 ==>
          && Searchable(stabs, N_FUN, addr, file.0, file.1)
          && var f := FunctionRegion(stabs, addr, file);
             Searchable(stabs, N_SLINE, f.addr, f.left, f.right))
  }

  lemma BelowTopDown(stabs: seq<Stab>, typ: nat, a: int, addr: int)
    requires a <= addr && BelowTop(stabs, typ, addr)
    ensures BelowTop(stabs, typ, a)
  {
    var v :| addr <= v < 0x1_0000_0000 && !Occurs(stabs, typ, v);
  }

  /** A search that starts at an entry of another type stays in the table. */
  ghost predicate Framed(stabs: seq<Stab>, typ: nat, left: int, right: int, s: Search) {
    && s.right == s.r && left <= s.left <= s.r <= right && s.left <= s.l
    && (s.left == left || (Matches(stabs, typ, s.left) && stabs[s.left].value < s.addr))
  }

  lemma StepStaysFramed(stabs: seq<Stab>, typ: nat, left: nat, right: int, s: Search)
    requires InTable(stabs, s) && s.l <= s.r && BelowTop(stabs, typ, s.addr) && right < |stabs|
    requires !Matches(stabs, typ, left) && Framed(stabs, typ, left, right, s)
    ensures Framed(stabs, typ, left, right, Step(stabs, typ, s))
  {
    var mid := (s.l + s.r) / 2;
    var m := ScanDown(stabs, typ, s.l, mid);
    var t := Step(stabs, typ, s);
    StepStaysBelow(stabs, typ, s);
    assert t == if m < s.l then s.(l := mid + 1)
                else if stabs[m].value < s.addr then s.(any := true, left := m, l := mid + 1)
                else if stabs[m].value > s.addr then s.(any := true, right := m - 1, r := m - 1)
                else s.(any := true, left := m, l := m, addr := s.addr + 1);
    assert s.l <= mid <= s.r && m <= mid && (m >= s.l ==> Matches(stabs, typ, m));
    hide *;
    FramedStep(stabs, typ, left, right, s, t, m, mid);
  }

  lemma FramedStep(stabs: seq<Stab>, typ: nat, left: nat, right: int, s: Search, t: Search, m: int, mid: int)
    requires 0 <= s.l && right < |stabs| && Framed(stabs, typ, left, right, s)
    requires !Matches(stabs, typ, left) && s.l <= mid <= s.r && m <= mid && (m >= s.l ==> Matches(stabs, typ, m))
    requires t == if m < s.l then s.(l := mid + 1)
                  else if stabs[m].value < s.addr then s.(any := true, left := m, l := mid + 1)
                  else if stabs[m].value > s.addr then s.(any := true, right := m - 1, r := m - 1)
                  else s.(any := true, left := m, l := m, addr := s.addr + 1)
    ensures Framed(stabs, typ, left, right, t)
  {
  }

  lemma {:induction false} LoopStaysFramed(stabs: seq<Stab>, typ: nat, left: nat, right: int, s: Search)
    requires InTable(stabs, s) && BelowTop(stabs, typ, s.addr) && right < |stabs|
    requires !Matches(stabs, typ, left) && Framed(stabs, typ, left, right, s)
    ensures Framed(stabs, typ, left, right, Loop(stabs, typ, s))
    decreases Measure(stabs, typ, s)
  {
    LoopUnfolds(stabs, typ, s);
    if s.l > s.r {
    } else {
      StepStaysFramed(stabs, typ, left, right, s);
      hide Framed, Step, Measure, Loop, BelowTop;
      LoopStaysFramed(stabs, typ, left, right, Step(stabs, typ, s));
    }
  }

  /** A region that starts with an entry of another type is searched without leaving it, in any table. */
  lemma BinSearchInside(stabs: seq<Stab>, typ: nat, addr: Word, left: nat, right: int)
    requires left <= right < |stabs| && stabs[left].typ != typ && BelowTop(stabs, typ, addr)
    ensures var (l, r) := BinSearch(stabs, typ, addr, left, right);
      && left <= l <= right && r <= right
      && (l <= r && l != left ==> stabs[l].typ == typ)
      && (l != left ==> l <= r)
  {
    hide Loop, BelowTop, Measure, ScanBack;
    LoopStaysFramed(stabs, typ, left, right, Search(left, right, left, right, addr, false));
    LoopStaysInside(stabs, typ, left, right, Search(left, right, left, right, addr, false));
  }

  /** None of the three searches raises its address beyond 32 bits. */
  ghost predicate NoneWraps(stabs: seq<Stab>, addr: Word)
    requires HasHeader(stabs)
  {
    && BelowTop(stabs, N_SO, addr) && BelowTop(stabs, N_FUN, addr)
    && (BelowTop(stabs, N_SLINE, 0xFFFF_FFFF) || (BelowTop(stabs, N_SLINE, addr) && NestedSearchable(stabs, addr)))
  }

  /** The nested searches as they are made, in any table: the source file, and the region searched for lines. */
  function FileFound(stabs: seq<Stab>, addr: Word): (f: (int, int))
    requires |stabs| > 0 && BelowTop(stabs, N_SO, addr)
  {
    BinSearch(stabs, N_SO, addr, 0, |stabs| - 1)
  }

  ghost function FunctionFound(stabs: seq<Stab>, addr: Word, file: (int, int)): Region
    requires 0 <= file.0 <= file.1 < |stabs| && stabs[file.0].typ == N_SO && BelowTop(stabs, N_FUN, addr)
  {
    BinSearchInside(stabs, N_FUN, addr, file.0, file.1);
    var (l, r) := BinSearch(stabs, N_FUN, addr, file.0, file.1);
    if l <= r then Region(l, r, stabs[l].value, (addr - stabs[l].value) % 0x1_0000_0000)
    else Region(file.0, file.1, addr, addr)
  }

  lemma FileFacts(stabs: seq<Stab>, addr: Word)
    requires HasHeader(stabs) && BelowTop(stabs, N_SO, addr)
    ensures var file := FileFound(stabs, addr);
      && 0 <= file.0 < |stabs| && file.1 < |stabs|
      && (NestedSearchable(stabs, addr) ==> file == FileRegion(stabs, addr))
      && (file.0 != 0 ==> file.0 <= file.1 && stabs[file.0].typ == N_SO)
  {
    hide BinSearch, LinearSearch, Sorted, Gap, BelowTop;
    BinSearchInside(stabs, N_SO, addr, 0, |stabs| - 1);
    if NestedSearchable(stabs, addr) {
      SearchIsLinearScan(stabs, N_SO, addr, 0, |stabs| - 1);
    }
  }

  lemma FunctionFacts(stabs: seq<Stab>, addr: Word, file: (int, int))
    requires 0 <= file.0 <= file.1 < |stabs| && stabs[file.0].typ == N_SO && BelowTop(stabs, N_FUN, addr)
    ensures var f := FunctionFound(stabs, addr, file);
      && 0 <= f.left <= f.right < |stabs| && stabs[f.left].typ != N_SLINE
      && (Searchable(stabs, N_FUN, addr, file.0, file.1) && stabs[file.0].value <= addr ==>
            f == FunctionRegion(stabs, addr, file) && f.addr <= addr)
  {
    hide BinSearch, LinearSearch, Sorted, Gap, BelowTop;
    BinSearchInside(stabs, N_FUN, addr, file.0, file.1);
    if Searchable(stabs, N_FUN, addr, file.0, file.1) && stabs[file.0].value <= addr {
      SearchIsLinearScan(stabs, N_FUN, addr, file.0, file.1);
      var f := FunctionRegion(stabs, addr, file);
    }
  }

  /** The search for the line does not raise its address beyond 32 bits either. */
  lemma LineFacts(stabs: seq<Stab>, addr: Word)
    requires HasHeader(stabs) && NoneWraps(stabs, addr) && FileFound(stabs, addr).0 != 0
    ensures var file := FileFound(stabs, addr);
      && 0 <= file.0 <= file.1 < |stabs| && stabs[file.0].typ == N_SO && BelowTop(stabs, N_FUN, addr)
      && var f := FunctionFound(stabs, addr, file);
      && 0 <= f.left <= f.right < |stabs| && stabs[f.left].typ != N_SLINE && BelowTop(stabs, N_SLINE, f.addr)
      && (NestedSearchable(stabs, addr) ==>
            file == FileRegion(stabs, addr) && f == FunctionRegion(stabs, addr, file))
  {
    var file := FileFound(stabs, addr);
    FileFacts(stabs, addr);
    FunctionFacts(stabs, addr, file);
    hide Searchable, BelowTop, FileFound, FunctionFound, FileRegion, FunctionRegion;
    var f := FunctionFound(stabs, addr, file);
    if BelowTop(stabs, N_SLINE, 0xFFFF_FFFF) {
      BelowTopDown(stabs, N_SLINE, f.addr, 0xFFFF_FFFF);
    } else {
      BelowTopDown(stabs, N_SLINE, f.addr, addr);
    }
  }

  /** The line found in a region. */
  function LineFound(stabs: seq<Stab>, f: Region): Option<nat>
    requires 0 <= f.left <= f.right < |stabs| && stabs[f.left].typ != N_SLINE && BelowTop(stabs, N_SLINE, f.addr)
  {
    BinSearchInside(stabs, N_SLINE, f.addr, f.left, f.right);
    var (l, r) := BinSearch(stabs, N_SLINE, f.addr, f.left, f.right);
    if l <= r then Some(stabs[l].desc) else None
  }

  /** debuginfo_eip for a kernel address and any table that starts with a header. */
  ghost function EipFound(stabs: seq<Stab>, addr: Word): Option<EipInfo>
    requires HasHeader(stabs) && NoneWraps(stabs, addr)
  {
    FileFacts(stabs, addr);
    var file := FileFound(stabs, addr);
    if file.0 == 0 then None
    else
      LineFacts(stabs, addr);
      var f := FunctionFound(stabs, addr, file);
      Some(EipInfo(f.fnAddr, LineFound(stabs, f)))
  }

  /** In an orderly table that is what linear scans find. */
  lemma EipIsLinear(stabs: seq<Stab>, addr: Word)
    requires HasHeader(stabs) && NoneWraps(stabs, addr) && NestedSearchable(stabs, addr)
    ensures EipFound(stabs, addr) == DebugInfo(stabs, addr)
  {
    FileFacts(stabs, addr);
    var file := FileFound(stabs, addr);
    hide BinSearch, LinearSearch, BelowTop, FileRegion, FunctionRegion, FunctionFound, FileFound, HasHeader, Sorted,
      Gap;
    if file.0 != 0 {
      LineFacts(stabs, addr);
      var f := FunctionFound(stabs, addr, file);
      SearchIsLinearScan(stabs, N_SLINE, f.addr, f.left, f.right);
    }
  }

  /** debuginfo_eip: 0 or -1, the function's address, and the line. */
  method DebugInfoEip(stabs: seq<Stab>, addr: Word) returns (r: int, fnAddr: Word, line: nat)
    requires HasHeader(stabs) && NoneWraps(stabs, addr)
    ensures match EipFound(stabs, addr)
            case None => r == -1 && fnAddr == addr
            case Some(EipInfo(f, None)) => r == -1 && fnAddr == f
            case Some(EipInfo(f, Some(n))) => r == 0 && fnAddr == f && line == n
    ensures NestedSearchable(stabs, addr) ==> EipFound(stabs, addr) == DebugInfo(stabs, addr)
  {
    if NestedSearchable(stabs, addr) {
      EipIsLinear(stabs, addr);
    }
    hide BelowTop, BinSearch, NestedSearchable, DebugInfo, FunctionFound, LineFound, HasHeader, NoneWraps, EipFound;
    EipUnfolds(stabs, addr);
    line, fnAddr := 0, addr;
    var lfile, rfile := SearchFile(stabs, addr);
    if lfile == 0 {
      return -1, fnAddr, line;
    }
    var lline, rline, a;
    fnAddr, lline, rline, a := SearchFunction(stabs, addr, lfile, rfile);
    r, line := SearchLine(stabs, lline, rline, fnAddr, a);
  }

  lemma EipUnfolds(stabs: seq<Stab>, addr: Word)
    requires HasHeader(stabs) && NoneWraps(stabs, addr)
    ensures BelowTop(stabs, N_SO, addr) && |stabs| > 0
    ensures var file := FileFound(stabs, addr);
      && (file.0 == 0 ==> EipFound(stabs, addr) == None)
      && (file.0 != 0 ==>
            && 0 <= file.0 <= file.1 < |stabs| && stabs[file.0].typ == N_SO && BelowTop(stabs, N_FUN, addr)
            && var f := FunctionFound(stabs, addr, file);
            && 0 <= f.left <= f.right < |stabs| && stabs[f.left].typ != N_SLINE && BelowTop(stabs, N_SLINE, f.addr)
            && EipFound(stabs, addr) == Some(EipInfo(f.fnAddr, LineFound(stabs, f))))
  {
    hide BelowTop, FunctionFound, LineFound, FileFound, NestedSearchable;
    if FileFound(stabs, addr).0 != 0 {
      LineFacts(stabs, addr);
    }
  }

  /** The parts of debuginfo_eip: the search for the source file, */
  method SearchFile(stabs: seq<Stab>, addr: Word) returns (lfile: int, rfile: int)
    requires |stabs| > 0 && BelowTop(stabs, N_SO, addr)
    ensures (lfile, rfile) == FileFound(stabs, addr)
  {
    hide Searchable, BelowTop, BinSearch, LinearSearch;
    lfile, rfile := StabBinSearch(stabs, 0, |stabs| - 1, N_SO, addr);
  }

  /** the search for the function: its address, and where to look for the line, */
  method SearchFunction(stabs: seq<Stab>, addr: Word, lfile: int, rfile: int)
    returns (fnAddr: Word, lline: int, rline: int, a: Word)
    requires 0 <= lfile <= rfile < |stabs| && stabs[lfile].typ == N_SO && BelowTop(stabs, N_FUN, addr)
    ensures FunctionFound(stabs, addr, (lfile, rfile)) == Region(lline, rline, fnAddr, a)
  {
    hide LinearSearch, Searchable, BelowTop, BinSearch;
    BinSearchInside(stabs, N_FUN, addr, lfile, rfile);
    var lfun, rfun := StabBinSearch(stabs, lfile, rfile, N_FUN, addr);
    if lfun <= rfun {
      fnAddr := stabs[lfun].value;
      a := (addr - fnAddr) % 0x1_0000_0000;
      lline, rline := lfun, rfun;
    } else {
      fnAddr := addr;
      a := addr;
      lline, rline := lfile, rfile;
    }
  }

  /** and the search for the line. */
  method SearchLine(stabs: seq<Stab>, left: int, right: int, ghost fnAddr: Word, a: Word) returns (r: int, line: nat)
    requires 0 <= left <= right < |stabs| && stabs[left].typ != N_SLINE && BelowTop(stabs, N_SLINE, a)
    ensures match LineFound(stabs, Region(left, right, fnAddr, a))
            case None => r == -1
            case Some(n) => r == 0 && line == n
  {
    hide Searchable, BelowTop, BinSearch, LinearSearch;
    BinSearchInside(stabs, N_SLINE, a, left, right);
    var lline, rline := StabBinSearch(stabs, left, right, N_SLINE, a);
    if lline <= rline {
      line := stabs[lline].desc;
      r := 0;
    } else {
      line := 0;
      r := -1;
    }
  }

  /** Entry l is the last of the type in [lo, hi] at or below addr, and the next one of the type, if any, is r + 1. */
  ghost predicate Covers(stabs: seq<Stab>, typ: nat, addr: int, lo: int, hi: int, l: int, r: int) {
    && lo <= l <= r <= hi && Matches(stabs, typ, l) && stabs[l].value <= addr
    && (forall i :: l < i <= hi && Matches(stabs, typ, i) ==> stabs[i].value > addr)
    && (forall i :: l < i <= r ==> !Matches(stabs, typ, i))
    && (r < hi ==> Matches(stabs, typ, r + 1))
  }

  ghost predicate AtOrBelow(stabs: seq<Stab>, typ: nat, addr: int, lo: int, hi: int) {
    exists i :: lo <= i <= hi && Matches(stabs, typ, i) && stabs[i].value <= addr
  }

  lemma LinearCovers(stabs: seq<Stab>, typ: nat, addr: int, lo: int, hi: int)
    requires 0 <= lo <= hi < |stabs|
    ensures AtOrBelow(stabs, typ, addr, lo, hi) <==> LastAtMost(stabs, typ, addr, lo, hi) >= lo
    ensures var (l, r) := LinearSearch(stabs, typ, addr, lo, hi);
      && (AtOrBelow(stabs, typ, addr, lo, hi) ==> Covers(stabs, typ, addr, lo, hi, l, r))
      && (!AtOrBelow(stabs, typ, addr, lo, hi) && !Matches(stabs, typ, lo) ==>
            && l == lo && (l <= r <==> Present(stabs, typ, lo, hi))
            && (l <= r ==>
                  && r < hi && Matches(stabs, typ, r + 1)
                  && forall i :: lo <= i <= r ==> !Matches(stabs, typ, i)))
  {
    var last, first := LastAtMost(stabs, typ, addr, lo, hi), NextOf(stabs, typ, lo, hi);
    var next := NextOf(stabs, typ, last + 1, hi);
    hide LastAtMost, NextOf;
    assert first <= hi <==> Present(stabs, typ, lo, hi);
  }

  /**
   * The source file is that of the last N_SO entry at or below the address, up to the next; with no such entry
   * debuginfo_eip fails.
   */
  lemma FileOfAddress(stabs: seq<Stab>, addr: Word)
    requires HasHeader(stabs)
    ensures var file := FileRegion(stabs, addr);
      && (DebugInfo(stabs, addr).Some? <==> file.0 != 0)
      && (file.0 != 0 <==> AtOrBelow(stabs, 0x64, addr, 0, |stabs| - 1))
      && (file.0 != 0 ==> Covers(stabs, 0x64, addr, 0, |stabs| - 1, file.0, file.1))
  {
    LinearCovers(stabs, 0x64, addr, 0, |stabs| - 1);
    hide LinearSearch, LastAtMost, Covers, FunctionRegion;
  }

  /**
   * The function's address is the value of the last N_FUN entry of the source file at or below the address, and
   * lines are searched relative to it, up to the next N_FUN entry.  If all N_FUN entries lie above, the source
   * file's own entry is taken for the function; with none at all, lines are searched by absolute address.
   */
  lemma FunctionOfAddress(stabs: seq<Stab>, addr: Word)
    requires HasHeader(stabs) && FileRegion(stabs, addr).0 != 0
    ensures var (lo, hi) := FileRegion(stabs, addr);
      var f := FunctionRegion(stabs, addr, (lo, hi));
      && DebugInfo(stabs, addr).Some? && DebugInfo(stabs, addr).value.fnAddr == f.fnAddr
      && if AtOrBelow(stabs, 0x24, addr, lo, hi) then
           && Covers(stabs, 0x24, addr, lo, hi, f.left, f.right)
           && f.fnAddr == stabs[f.left].value && f.addr == addr - stabs[f.left].value
         else if Present(stabs, 0x24, lo, hi) then
           && f.left == lo && f.right < hi && Matches(stabs, 0x24, f.right + 1)
           && (forall i :: lo <= i <= f.right ==> !Matches(stabs, 0x24, i))
           && f.fnAddr == stabs[lo].value && f.addr == addr - stabs[lo].value
         else f == Region(lo, hi, addr, addr)
  {
    var file := FileRegion(stabs, addr);
    hide LinearSearch, LastAtMost, Covers, FileRegion, AtOrBelow, Present;
    LinearCovers(stabs, 0x24, addr, file.0, file.1);
    CoversInside(stabs, 0x24, addr, file.0, file.1);
  }

  lemma CoversInside(stabs: seq<Stab>, typ: nat, addr: int, lo: int, hi: int)
    ensures forall l, r :: Covers(stabs, typ, addr, lo, hi, l, r) ==> l <= r
  {
  }

  /**
   * The line found is that of the last N_SLINE entry of the function at or below the address.  When all
   * line entries lie above it, debuginfo_eip does not return -1, as its comment asks, but takes the n_desc
   * of the entry that starts the region, a function or file; it fails only when the region has no line.
   */
  lemma LineOfAddress(stabs: seq<Stab>, addr: Word)
    requires HasHeader(stabs) && FileRegion(stabs, addr).0 != 0
    ensures var file := FileRegion(stabs, addr);
      var f := FunctionRegion(stabs, addr, file);
      var last := LastAtMost(stabs, 0x44, f.addr, f.left, f.right);
      DebugInfo(stabs, addr) == Some(EipInfo(f.fnAddr,
        if last > f.left then Some(stabs[last].desc)
        else if Present(stabs, 0x44, f.left, f.right) then Some(stabs[f.left].desc)
        else None))
  {
    var f := FunctionRegion(stabs, addr, FileRegion(stabs, addr));
    var last := LastAtMost(stabs, N_SLINE, f.addr, f.left, f.right);
    var first := NextOf(stabs, N_SLINE, f.left, f.right);
    hide FileRegion, FunctionRegion, LastAtMost, NextOf;
    assert last >= f.left ==> last > f.left;
    assert first > f.left;
    assert first <= f.right <==> Present(stabs, N_SLINE, f.left, f.right);
  }

  /**
   * debuginfo_eip should return -1 if no line entry covers the address.  It does so exactly if the region has
   * no line entry at all or one at or below the address; with all of them above, it finds a line.
   */
  lemma LineIfFound(stabs: seq<Stab>, addr: Word)
    requires HasHeader(stabs) && FileRegion(stabs, addr).0 != 0
    ensures var f := FunctionRegion(stabs, addr, FileRegion(stabs, addr));
      var last := LastAtMost(stabs, N_SLINE, f.addr, f.left, f.right);
      && DebugInfo(stabs, addr).Some?
      && ((DebugInfo(stabs, addr).value.line == None <==> last < f.left) <==>
            last >= f.left || !Present(stabs, N_SLINE, f.left, f.right))
  {
    LineOfAddress(stabs, addr);
    var f := FunctionRegion(stabs, addr, FileRegion(stabs, addr));
    var last := LastAtMost(stabs, N_SLINE, f.addr, f.left, f.right);
    hide FileRegion, FunctionRegion, LastAtMost, DebugInfo;
    assert last >= f.left ==> last != f.left;
  }

  /** A table where that happens: the only line of the function starts 10 bytes into it, the address is 5 in. */
  lemma LineAboveIsFound()
    ensures var stabs := [Stab(0, 0, 0), Stab(0x64, 0xF010_0000, 0), Stab(0x24, 0xF010_0000, 7), Stab(0x44, 10, 8)];
      HasHeader(stabs) && DebugInfo(stabs, 0xF010_0005) == Some(EipInfo(0xF010_0000, Some(7)))
  {
    var a: Word := 0xF010_0005;
    var t := [Stab(0, 0, 0), Stab(N_SO, 0xF010_0000, 0), Stab(N_FUN, 0xF010_0000, 7), Stab(N_SLINE, 10, 8)];
    assert LastAtMost(t, N_SO, a, 0, 3) == LastAtMost(t, N_SO, a, 0, 2) == LastAtMost(t, N_SO, a, 0, 1) == 1;
    assert NextOf(t, N_SO, 2, 3) == NextOf(t, N_SO, 3, 3) == NextOf(t, N_SO, 4, 3) == 4;
    assert FileRegion(t, a) == (1, 3);
    assert LastAtMost(t, N_FUN, a, 1, 3) == LastAtMost(t, N_FUN, a, 1, 2) == 2;
    assert NextOf(t, N_FUN, 3, 3) == NextOf(t, N_FUN, 4, 3) == 4;
    assert FunctionRegion(t, a, (1, 3)) == Region(2, 3, 0xF010_0000, 5);
    assert LastAtMost(t, N_SLINE, 5, 2, 3) == LastAtMost(t, N_SLINE, 5, 2, 2) == LastAtMost(t, N_SLINE, 5, 2, 1) == 1;
    assert NextOf(t, N_SLINE, 2, 3) == NextOf(t, N_SLINE, 3, 3) == 3;
  }
}
