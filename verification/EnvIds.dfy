/** Environment ids: the generation stamp of env_alloc in kern/env.c and the id layout of inc/env.h. */
module EnvIds {
  import opened Mmu

  const NENV: nat := 1024
  /** 2^19 - 1: how many generations a slot has. */
  const GENERATIONS: nat := 0x7_FFFF

  /** envid_t. */
  type EnvId = Int32

  /** ENVX. */
  function Envx(id: EnvId): nat { id % 1024 }

  /** The id env_alloc gives to a slot whose last id was id: bump the generation, and never below 1. */
  function NextId(id: EnvId, slot: nat): (r: EnvId)
    requires slot < NENV
  {
    var bumped := Wrap(id + 4096);
    var generation := bumped - bumped % 1024;
    if generation <= 0 then 4096 + slot else GenerationBound(generation); generation + slot
  }

  lemma GenerationBound(g: EnvId)
    requires g % 1024 == 0
    ensures g + 1023 < 0x8000_0000
  {
  }

  /** The id of a slot after its k-th allocation; env_init sets it to 0. */
  function IdAfter(slot: nat, k: nat): EnvId
    requires slot < NENV
  {
    if k == 0 then 0 else NextId(IdAfter(slot, k - 1), slot)
  }

  /** The generation of the k-th allocation: 1, 2, ..., 2^19 - 1, and again from 1. */
  function Generation(k: nat): (g: nat)
    requires k > 0
    ensures 1 <= g <= GENERATIONS
  {
    (k - 1) % GENERATIONS + 1
  }

  lemma GenerationSteps(k: nat)
    requires k > 0
    ensures Generation(k + 1) == if Generation(k) == GENERATIONS then 1 else Generation(k) + 1
  {
    var q, r := (k - 1) / GENERATIONS, (k - 1) % GENERATIONS;
    if r == GENERATIONS - 1 {
      assert k == (q + 1) * GENERATIONS;
    } else {
      assert k == q * GENERATIONS + (r + 1);
      DivisionIsUnique(k, q, r + 1);
    }
  }

  lemma DivisionIsUnique(n: nat, q: nat, r: nat)
    requires n == q * GENERATIONS + r && r < GENERATIONS
    ensures n % GENERATIONS == r
  {
  }

  lemma NextIdSteps(g: nat, slot: nat)
    requires 1 <= g <= GENERATIONS && slot < NENV
    ensures 0 < 4096 * g + slot < 0x8000_0000 && Envx(4096 * g + slot) == slot
    ensures NextId(4096 * g + slot, slot) == 4096 * (if g == GENERATIONS then 1 else g + 1) + slot
  {
    hide NextId, Envx, Wrap;
    SlotOfId(g, slot);
    if g < GENERATIONS {
      WrapsTo(4096 * (g + 1) + slot);
      NextIdIs(4096 * g + slot, slot, g + 1);
    } else {
      WrapsTo(0x8000_0000 + slot);
      NextIdIs(4096 * g + slot, slot, -0x8_0000);
    }
  }

  lemma SlotOfId(g: nat, slot: nat)
    requires 1 <= g <= GENERATIONS && slot < NENV
    ensures 0 < 4096 * g + slot < 0x8000_0000 && Envx(4096 * g + slot) == slot
  {
    SlotRemains(4 * g, slot);
  }

  lemma SlotRemains(x: int, slot: nat)
    requires slot < 1024
    ensures (1024 * x + slot) % 1024 == slot
  {
  }

  /** A number of up to 2^32 as a signed word. */
  lemma WrapsTo(i: nat)
    requires i < 0x1_0000_0000
    ensures Wrap(i) == if i < 0x8000_0000 then i else i - 0x1_0000_0000
  {
  }

  /** The next id of a slot whose bumped id has generation g. */
  lemma NextIdIs(id: EnvId, slot: nat, g: int)
    requires slot < NENV && Wrap(id + 4096) == 4096 * g + slot
    ensures NextId(id, slot) == 4096 * (if g <= 0 then 1 else g) + slot
  {
    hide Wrap;
    SlotRemains(4 * g, slot);
  }

  lemma FirstId(slot: nat)
    requires slot < NENV
    ensures NextId(0, slot) == 4096 + slot
  {
  }

  /** Every id is positive and names its slot; generations cycle through 4096 * 1, ..., 4096 * (2^19 - 1). */
  lemma {:induction false} IdsCycle(slot: nat, k: nat)
    requires slot < NENV && k > 0
    ensures IdAfter(slot, k) == 4096 * Generation(k) + slot == 4096 * ((k - 1) % 0x7_FFFF + 1) + slot
    ensures IdAfter(slot, k) > 0 && Envx(IdAfter(slot, k)) == slot
  {
    assert Generation(1) == 1 && Generation(k) == (k - 1) % 0x7_FFFF + 1;
    hide NextId, Envx, Generation;
    NextIdSteps(Generation(k), slot);
    if k == 1 {
      assert IdAfter(slot, 0) == 0;
      FirstId(slot);
    } else {
      IdsCycle(slot, k - 1);
      NextIdSteps(Generation(k - 1), slot);
      GenerationSteps(k - 1);
    }
  }

  /** Two allocations of a slot get the same id exactly if they are a multiple of 2^19 - 1 apart. */
  lemma SameIdIffFullCycle(slot: nat, j: nat, k: nat)
    requires slot < NENV && 0 < j <= k
    ensures IdAfter(slot, j) == IdAfter(slot, k) <==> (k - j) % 0x7_FFFF == 0
  {
    IdsCycle(slot, j);
    IdsCycle(slot, k);
    SameRemainder(j - 1, k - 1);
  }

  lemma SameRemainder(a: nat, b: nat)
    requires a <= b
    ensures a % GENERATIONS == b % GENERATIONS <==> (b - a) % GENERATIONS == 0
  {
    var m := GENERATIONS;
    assert a == (a / m) * m + a % m && b == (b / m) * m + b % m;
    if a % m == b % m {
      assert b - a == (b / m - a / m) * m;
    } else if (b - a) % m == 0 {
      var q := (b - a) / m;
      assert b == (a / m + q) * m + a % m;
      DivisionIsUnique(b, a / m + q, a % m);
    }
  }

  /** Ids of different slots differ. */
  lemma SlotsDiffer(s: nat, t: nat, j: nat, k: nat)
    requires s < NENV && t < NENV && 0 < j && 0 < k && IdAfter(s, j) == IdAfter(t, k)
    ensures s == t
  {
    IdsCycle(s, j);
    IdsCycle(t, k);
  }
}
