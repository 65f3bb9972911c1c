/** boot_alloc of kern/pmap.c: the bump allocator in use until page_init. */
module BootAlloc {
  import opened Wrappers
  import opened Mmu

  /** Memory handed out: n bytes from address start. */
  datatype Region = Region(start: Word, n: Word)

  /** nextfree as the first call finds it: 0 stands for not yet initialized. */
  function Start(nextfree: Word, end: Word): Word {
    if nextfree == 0 then RoundUp((end + 1) % 0x1_0000_0000) else nextfree
  }

  /** nextfree after an allocation of n bytes at start. */
  function NextAfter(start: Word, n: Word): Word { RoundUp((start + n) % 0x1_0000_0000) }

  /** The test before the panic: the machine as a whole has n bytes. */
  predicate Enough(npages: Word, n: Word) { npages > 0 && npages * 4096 % 0x1_0000_0000 >= n }

  /** The memory handed out lies below nextfree exactly if it ends below the last page of the address space. */
  lemma NextCovers(start: Word, n: Word)
    requires start % 4096 == 0 && 0 < n
    ensures start + n <= NextAfter(start, n) <==> start + n <= 0xFFFF_F000
    ensures NextAfter(start, n) % 4096 == 0
  {
    hide RoundUp;
    RoundUpIsLeast((start + n) % 0x1_0000_0000);
    if start + n < 0x1_0000_0000 {
      assert (start + n) % 0x1_0000_0000 == start + n;
    } else {
      assert (start + n) % 0x1_0000_0000 == start + n - 0x1_0000_0000;
    }
  }

  lemma NextAfterIs(start: Word, n: Word)
    ensures NextAfter(start, n) == RoundUp((start + n) % 0x1_0000_0000)
  {
    hide RoundUp;
  }

  lemma NextIs(start: Word, n: Word)
    requires start % 4096 == 0 && start + n <= 0xFFFF_F000
    ensures start + n <= NextAfter(start, n) <= 0xFFFF_F000 && NextAfter(start, n) % 4096 == 0
  {
    hide RoundUp;
    assert (start + n) % 0x1_0000_0000 == start + n;
    RoundUpIsLeast(start + n);
  }

  lemma FirstStart(end: Word)
    requires end < 0xFFFF_F000
    ensures end < Start(0, end) <= end + 4096 && Start(0, end) <= 0xFFFF_F000 && Start(0, end) % 4096 == 0
  {
    hide RoundUp;
    assert (end + 1) % 0x1_0000_0000 == end + 1;
    RoundUpIsLeast(end + 1);
  }

  /** n bytes from start on, mapped at KERNBASE, are there. */
  predicate Fits(start: Word, n: Word, npages: Word) { start - KERNBASE + n <= npages * 4096 }

  /** The request fits exactly if the next free address after it does; boot_alloc(0) tells that one. */
  lemma FitsIffNextDoes(start: Word, n: Word, npages: Word)
    requires start % 4096 == 0 && 0 < n && start + n <= 0xFFFF_F000
    ensures Fits(start, n, npages) <==> NextAfter(start, n) - KERNBASE <= npages * 4096
  {
    hide RoundUp;
    assert (start + n) % 0x1_0000_0000 == start + n;
    RoundUpIsLeast(start + n);
    SameMultiple(start + n - KERNBASE, RoundUp(start + n) - KERNBASE, npages);
  }

  lemma SameMultiple(a: int, b: int, q: nat)
    requires b % 4096 == 0 && a <= b < a + 4096
    ensures a <= q * 4096 <==> b <= q * 4096
  {
    assert b == b / 4096 * 4096;
  }

  /**
   * boot_alloc should panic if it is out of memory.  It does, for a request of n bytes at the next free
   * address, exactly if the request is larger than all of memory or fits into what is left of it: memory
   * that is handed out is not counted.  With 4 GB or more the size of memory wraps, and it panics too soon
   * exactly for what exceeds the wrapped size.
   */
  lemma PanicIsExact(start: Word, n: Word, npages: Word)
    requires KERNBASE <= start && 0 < n && (npages >= 0x10_0000 ==> start + n <= 0xFFFF_F000)
    ensures (Enough(npages, n) <==> Fits(start, n, npages)) <==>
            if npages < 0x10_0000 then n > npages * 4096 || n <= npages * 4096 - (start - KERNBASE)
            else n <= npages * 4096 % 0x1_0000_0000
  {
    if npages < 0x10_0000 {
      assert npages * 4096 % 0x1_0000_0000 == npages * 4096;
    }
  }

  /** So a request for all of memory passes, and never fits once anything lies behind KERNBASE. */
  lemma Overcommits(start: Word, npages: Word)
    requires KERNBASE < start && 0 < npages < 0x10_0000
    ensures Enough(npages, npages * 4096) && !Fits(start, npages * 4096, npages)
  {
    assert npages * 4096 % 0x1_0000_0000 == npages * 4096;
  }

  /** What was handed out starts at pages behind the kernel, lies below nextfree, and is disjoint. */
  ghost predicate LaidOut(end: Word, nextfree: Word, given: seq<Region>) {
    && end < 0xFFFF_F000 && nextfree <= 0xFFFF_F000 && nextfree % 4096 == 0
    && (if nextfree == 0 then given == [] else end < nextfree)
    && (forall i :: 0 <= i < |given| ==>
          given[i].start % 4096 == 0 && end < given[i].start && given[i].start + given[i].n <= nextfree)
    && (forall i, j :: 0 <= i < j < |given| ==> given[i].start + given[i].n <= given[j].start)
    && (given != [] ==> var r := given[|given| - 1]; 0 < r.n && nextfree == NextAfter(r.start, r.n))
  }

  /** One more region, at nextfree: all lie below the new nextfree exactly if that does not wrap. */
  lemma LaidOutGrows(end: Word, nextfree: Word, given: seq<Region>, n: Word)
    requires LaidOut(end, nextfree, given) && 0 < nextfree && 0 < n
    ensures LaidOut(end, NextAfter(nextfree, n), given + [Region(nextfree, n)]) <==> nextfree + n <= 0xFFFF_F000
  {
    hide NextAfter;
    var more := given + [Region(nextfree, n)];
    assert more[|given|] == Region(nextfree, n);
    NextCovers(nextfree, n);
    if nextfree + n <= 0xFFFF_F000 {
      NextIs(nextfree, n);
    }
  }

  ghost predicate AllFit(given: seq<Region>, npages: Word) {
    forall i :: 0 <= i < |given| ==> Fits(given[i].start, given[i].n, npages)
  }

  lemma AllFitGrows(given: seq<Region>, r: Region, npages: Word)
    ensures AllFit(given + [r], npages) <==> AllFit(given, npages) && Fits(r.start, r.n, npages)
  {
    hide Fits;
    var more := given + [r];
    assert more[|given|] == r && forall i :: 0 <= i < |given| ==> more[i] == given[i];
  }

  class BootAllocator {
    const end: Word             // the first address behind the kernel
    const npages: Word          // what i386_detect_memory finds
    var nextfree: Word          // the static nextfree

    ghost var given: seq<Region>

    ghost predicate Valid()
      reads this
    {
      LaidOut(end, nextfree, given)
    }

    /** All that was handed out is there. */
    ghost predicate AllThere()
      reads this
    {
      AllFit(given, npages)
    }

    /** After any calls, all of it is there exactly if the next free address is within or right behind memory. */
    lemma AllThereIffNextIs()
      requires Valid() && given != []
      ensures AllThere() <==> nextfree - KERNBASE <= npages * 4096
    {
      hide RoundUp, NextAfter;
      var r := given[|given| - 1];
      FitsIffNextDoes(r.start, r.n, npages);
      assert forall i :: 0 <= i < |given| ==> given[i].start + given[i].n <= nextfree;
    }

    constructor (end: Word, npages: Word)
      requires end < 0xFFFF_F000
      ensures Valid() && this.end == end && this.npages == npages && given == [] && nextfree == 0
    {
      this.end, this.npages, nextfree, given := end, npages, 0, [];
    }

    /**
     * The next free address if n is 0; else n bytes there, or none for the panic.  The test lets through what
     * makes nextfree wrap; exactly then the memory handed out no longer lies below nextfree.
     */
    method Alloc(n: Word) returns (r: Option<Word>)
      requires Valid()
      modifies this
      ensures Valid() <==> (n > 0 && r.Some? ==> r.value + n <= 0xFFFF_F000)
      ensures r == if n > 0 && !Enough(npages, n) then None else Some(Start(old(nextfree), end))
      ensures given == old(given) + (if n > 0 && r.Some? then [Region(r.value, n)] else [])
      ensures AllThere() <==> old(AllThere()) && (n > 0 && r.Some? ==> Fits(r.value, n, npages))
      ensures nextfree == if n > 0 && r.Some? then NextAfter(r.value, n) else Start(old(nextfree), end)
    {
      hide RoundUp, NextAfter;
      FirstStart(end);
      if nextfree == 0 {
        nextfree := RoundUp((end + 1) % 0x1_0000_0000);
      }
      if n == 0 {
        return Some(nextfree);
      }
      if npages == 0 || npages * 4096 % 0x1_0000_0000 < n {
        return None;
      }
      var prev := nextfree;
      LaidOutGrows(end, prev, given, n);
      AllFitGrows(given, Region(prev, n), npages);
      NextAfterIs(prev, n);
      nextfree := RoundUp((prev + n) % 0x1_0000_0000);
      given := given + [Region(prev, n)];
      hide LaidOut, AllFit, Fits;
      return Some(prev);
    }
  }
}
