/**
 * The environments of kern/env.c together with memory and the CPUs, as a value: what holds between them,
 * and what env_alloc, env_free, env_run and their callers do to it.
 */
module KernelState {
  import opened Wrappers
  import opened Errors
  import opened Mmu
  import opened EnvIds
  import opened EnvState
  import opened Sched
  import opened Smp
  import opened VmState
  import opened VmAlloc
  import opened VmPaging
  import opened VmPagingProofs
  import opened VmSpaces
  import opened VmTlb
  import VmRuns
  import VmTeardown
  import VmFree
  import opened VmRegion
  import VmCalls

  datatype Kernel = Kern(
    v: Vm,                   // memory, and the registers and cache of the CPU that executes
    envs: seq<Env>,          // envs
    head: Option<nat>,       // env_free_list
    cpus: seq<Cpu>,          // cpus: cpu_env and what else is known of each CPU
    me: nat,                 // cpunum()
    lock: Option<nat>,       // the CPU that holds the kernel lock
    releases: nat,           // how often unlock_kernel was called
    fl: seq<nat>,            // bookkeeping: the free list, from its end to its head
    count: seq<nat>)         // bookkeeping: how often each slot was allocated

  // ---- what holds between the environments and memory ----

  ghost predicate EnvLink(envs: seq<Env>, fl: seq<nat>, k: nat)
    requires k < |fl| && fl[k] < |envs|
  {
    envs[fl[k]].link == if k == 0 then None else Some(fl[k - 1])
  }

  /** fl holds exactly the free environments, once each; the links lead through it from its last element. */
  ghost predicate FreeEnvs(envs: seq<Env>, head: Option<nat>, fl: seq<nat>) {
    && (forall k :: 0 <= k < |fl| ==> fl[k] < |envs| && envs[fl[k]].status.Free?)
    && (forall j, k :: 0 <= j < k < |fl| ==> fl[j] != fl[k])
    && (forall e :: 0 <= e < |envs| && envs[e].status.Free? ==> e in fl)
    && head == (if fl == [] then None else Some(fl[|fl| - 1]))
    && (forall k: nat :: k < |fl| ==> EnvLink(envs, fl, k))
  }

  /** The live environments, and they alone, have a page directory, each its own. */
  ghost predicate Spaces(envs: seq<Env>, v: Vm)
    requires Lengths(v)
  {
    && (forall e :: 0 <= e < |envs| ==> (envs[e].pgdir == None <==> envs[e].status.Free?))
    && (forall e :: 0 <= e < |envs| && envs[e].pgdir.Some? ==>
          envs[e].pgdir.value < |v.mem| && v.kind[envs[e].pgdir.value] == EnvDir)
    && (forall e, f :: 0 <= e < |envs| && 0 <= f < |envs| && e != f && envs[e].pgdir.Some? ==>
          envs[e].pgdir != envs[f].pgdir)
    && (forall d :: 0 <= d < |v.mem| && v.kind[d] == EnvDir ==>
          exists e :: 0 <= e < |envs| && envs[e].pgdir == Some(d))
  }

  /** Every id is that of the slot's last allocation. */
  ghost predicate Ids(envs: seq<Env>, count: seq<nat>) {
    && |envs| == NENV && |count| == NENV
    && (forall e :: 0 <= e < NENV ==> envs[e].id == IdAfter(e, count[e]))
    && (forall e :: 0 <= e < NENV && !envs[e].status.Free? ==> count[e] > 0)
  }

  /** The page directory of an environment as curenv->env_pgdir shows it; a freed one reads as 0. */
  function DirOf(envs: seq<Env>, e: Option<nat>): Option<nat>
    requires e.Some? ==> e.value < |envs|
  {
    if e == None then None
    else match envs[e.value].pgdir case None => Some(0) case Some(d) => Some(d)
  }

  /** What the CPU u has as curenv and in cr3 is what the memory manager sees. */
  ghost predicate Sees(v: Vm, envs: seq<Env>, u: Cpu) {
    && (u.env.Some? ==> u.env.value < |envs|)
    && (u.cr3.Some? ==> u.cr3 == u.env && envs[u.cr3.value].pgdir.Some?)
    && v.cur == DirOf(envs, u.env)
    && v.cr3 == (if u.cr3 == None then v.kern else envs[u.cr3.value].pgdir.value)
  }

  /** Whatever is current on some CPU has been allocated once. */
  ghost predicate CpusInRange(cpus: seq<Cpu>, count: seq<nat>) {
    forall c :: 0 <= c < |cpus| && cpus[c].env.Some? ==> cpus[c].env.value < |count| && count[cpus[c].env.value] > 0
  }

  /** Memory, environments and CPUs agree; the current environment may just have been freed. */
  ghost predicate Agree(k: Kernel)
    ensures Agree(k) ==> Inv(k.v) && Lengths(k.v) && k.v.kern < |k.v.mem| && |k.envs| == NENV && k.me < |k.cpus|
    ensures Agree(k) ==> |k.count| == NENV
  {
    && Inv(k.v) && Coherent(k.v)
    && FreeEnvs(k.envs, k.head, k.fl) && Spaces(k.envs, k.v) && Ids(k.envs, k.count)
    && k.me < |k.cpus| && CpusInRange(k.cpus, k.count) && Sees(k.v, k.envs, k.cpus[k.me])
    && (k.lock.Some? ==> k.lock.value < |k.cpus|)
  }

  /** ... and it has not. */
  ghost predicate Good(k: Kernel)
    ensures Good(k) ==> Agree(k)
  {
    Agree(k) && (k.cpus[k.me].env.Some? ==> !k.envs[k.cpus[k.me].env.value].status.Free?)
  }

  /** The state as far as other CPUs can tell. */
  ghost function Mach(k: Kernel): (m: Machine)
    requires Agree(k)
    ensures Sized(m) && m.cpus == k.cpus
  {
    Machine(Statuses(k.envs), k.cpus, k.lock, k.releases)
  }

  /** The list of all slots with slot i in front, from its end to its head. */
  ghost function Downto(i: nat): (r: seq<nat>)
    requires i <= NENV
    ensures |r| == NENV - i && forall k :: 0 <= k < NENV - i ==> r[k] == NENV - 1 - k
  {
    seq(NENV - i, k requires 0 <= k < NENV - i => NENV - 1 - k)
  }

  ghost function Zeros(): (r: seq<nat>)
    ensures |r| == NENV && forall k :: 0 <= k < NENV ==> r[k] == 0
  {
    seq(NENV, k => 0)
  }

  /** What env_init leaves is good, if memory has no environment's address space yet. */
  lemma InitialIsGood(v: Vm, envs: seq<Env>, cpus: seq<Cpu>, me: nat)
    requires Inv(v) && Coherent(v) && v.cr3 == v.kern && v.cur == None
    requires |envs| == NENV && forall d :: 0 <= d < |v.mem| ==> v.kind[d] != EnvDir
    requires me < |cpus| && forall c :: 0 <= c < |cpus| ==> cpus[c].env == None && cpus[c].cr3 == None
    requires forall e :: 0 <= e < NENV ==>
               envs[e] == Env(0, 0, Status.Free, 0, if e < NENV - 1 then Some(e + 1) else None, None, 0)
    ensures Good(Kern(v, envs, Some(0), cpus, me, None, 0, Downto(0), Zeros()))
  {
    hide Inv, Coherent;
    var fl := Downto(0);
    forall e | 0 <= e < NENV ensures e in fl && IdAfter(e, Zeros()[e]) == 0 {
      assert fl[NENV - 1 - e] == e;
    }
  }

  /** Environment e, which was in front of the free list, is now u. */
  lemma AllocKeepsTables(envs: seq<Env>, head: Option<nat>, fl: seq<nat>, count: seq<nat>, e: nat, u: Env)
    requires FreeEnvs(envs, head, fl) && Ids(envs, count) && head == Some(e)
    requires !u.status.Free? && u.id == NextId(envs[e].id, e)
    ensures FreeEnvs(envs[e := u], envs[e].link, fl[..|fl| - 1])
    ensures Ids(envs[e := u], count[e := count[e] + 1])
  {
    var n := |fl| - 1;
    assert EnvLink(envs, fl, n);
    var envs', fl' := envs[e := u], fl[..n];
    hide IdAfter, NextId;
    forall k: nat | k < n ensures EnvLink(envs', fl', k) {
      assert EnvLink(envs, fl, k);
    }
    forall f | 0 <= f < |envs| && envs[e := u][f].status.Free? ensures f in fl[..n] {
      assert f in fl && f != fl[n];
    }
  }

  lemma FrontIsFree(envs: seq<Env>, head: Option<nat>, fl: seq<nat>)
    requires FreeEnvs(envs, head, fl)
    ensures head.Some? ==> head.value < |envs| && envs[head.value].status.Free? && |fl| > 0
    ensures head == None <==> forall e :: 0 <= e < |envs| ==> !envs[e].status.Free?
  {
    assert head.Some? ==> head.value == fl[|fl| - 1];
    assert fl != [] ==> envs[fl[|fl| - 1]].status.Free?;
  }

  lemma AllocKeepsSees(envs: seq<Env>, v: Vm, w: Vm, e: nat, u: Env, cpu: Cpu)
    requires Lengths(v) && Spaces(envs, v) && Sees(v, envs, cpu)
    requires e < |envs| && envs[e].status.Free? && cpu.env != Some(e)
    requires w.cr3 == v.cr3 && w.cur == v.cur && w.kern == v.kern
    ensures Sees(w, envs[e := u], cpu)
  {
    hide Spaces;
  }

  /** ... with the new page directory d. */
  lemma AllocKeepsSpaces(envs: seq<Env>, v: Vm, w: Vm, e: nat, u: Env, d: nat, cpu: Cpu)
    requires Lengths(v) && Lengths(w) && Spaces(envs, v) && |w.mem| == |v.mem| && d < |v.mem|
    requires e < |envs| && envs[e].status.Free? && !u.status.Free? && u.pgdir == Some(d)
    requires v.kind[d] != EnvDir && w.kind == v.kind[d := EnvDir]
    requires Sees(v, envs, cpu) && cpu.env != Some(e) && w.cr3 == v.cr3 && w.cur == v.cur && w.kern == v.kern
    ensures Spaces(envs[e := u], w) && Sees(w, envs[e := u], cpu)
  {
    AllocKeepsSees(envs, v, w, e, u, cpu);
    hide Sees;
    var envs' := envs[e := u];
    forall c | 0 <= c < |w.mem| && w.kind[c] == EnvDir
        ensures exists f :: 0 <= f < |envs'| && envs'[f].pgdir == Some(c) {
      if c == d {
        assert envs'[e].pgdir == Some(c);
      } else {
        var f :| 0 <= f < |envs| && envs[f].pgdir == Some(c);
        assert envs'[f].pgdir == Some(c);
      }
    }
  }

  /** A new address space changes nothing that the cache holds. */
  lemma SetupKeepsCoherent(v: Vm)
    requires Inv(v) && Coherent(v)
    ensures var w := SetupVm(v).0; Inv(w) && Coherent(w) && w.kern == v.kern
  {
    assert IsDir(v.kind[v.cr3]);
    var (w, r) := SetupVm(v);
    assert w.cr3 == v.cr3 && w.tlb == v.tlb && w.kern == v.kern;
    hide Inv, Shape, Sizes, FreeListOk, CountsOk, Coherent, OthersKeep, SetupVm, SameUser;
    SetupKeepsInv(v);
    if r.Some? {
      OthersKeepCoherent(v, w, r.value);
    }
  }

  // ---- env_alloc ----

  /** env_alloc: the new state, the result, and the slot. */
  ghost function AllocEnv(k: Kernel, parent: EnvId): (Kernel, int, nat)
    requires Agree(k)
  {
    if k.head == None || k.head.value >= NENV || k.fl == [] then (k, -E_NO_FREE_ENV, 0)
    else
      var e := k.head.value;
      var (w, d) := SetupVm(k.v);
      if d == None then (k.(v := w), -E_NO_MEM, e)
      else
        (k.(v := w,
            envs := k.envs[e := Env(NextId(k.envs[e].id, e), parent, Runnable, 0, k.envs[e].link, d, 0)],
            head := k.envs[e].link,
            fl := k.fl[..|k.fl| - 1],
            count := k.count[e := k.count[e] + 1]),
         0, e)
  }

  /**
   * env_alloc fails only for want of a free environment or of a page, and then changes nothing.  Otherwise
   * the slot was free and in front of the list; it is RUNNABLE, with the id of its next generation, the given
   * parent and a new address space that is empty below UTOP; and nothing has changed for any other environment.
   */
  lemma AllocEnvAgrees(k: Kernel, parent: EnvId)
    requires Good(k)
    ensures var (n, r, e) := AllocEnv(k, parent);
      && Good(n)
      && (r == -E_NO_FREE_ENV <==> forall e :: 0 <= e < NENV ==> !k.envs[e].status.Free?)
      && (r == -E_NO_MEM ==> NoneFree(k.v))
      && (r != 0 ==> n == k)
      && (r == 0 ==> e < NENV && k.envs[e].status.Free? && n.envs == k.envs[e := n.envs[e]])
      && (r == 0 ==> n.envs[e].status == Runnable && n.envs[e].parent == parent && n.envs[e].runs == 0 == n.envs[e].eip)
      && (r == 0 ==> n.envs[e].id == IdAfter(e, k.count[e] + 1) && Envx(n.envs[e].id) == e)
      && (r == 0 ==> SameUser(k.v, n.v) && n.envs[e].pgdir.Some?)
      && (r == 0 ==> forall p :: UserMap(n.v, Mapping(n.envs[e].pgdir.value, p)) == None)
      && (r == 0 ==> Mach(n) == Mach(k).(status := Mach(k).status[e := Runnable]))
  {
    FrontIsFree(k.envs, k.head, k.fl);
    SetupKeepsInv(k.v);
    assert AllocEnv(k, parent).1 != 0 ==> AllocEnv(k, parent).0 == k;
    hide Agree, Good, FreeEnvs, SetupVm, Inv, SameUser, OthersKeep, NoneFree;
    if AllocEnv(k, parent).1 == 0 {
      AllocEnvSucceeds(k, parent);
    }
  }

  lemma AllocEnvSucceeds(k: Kernel, parent: EnvId)
    requires Good(k) && AllocEnv(k, parent).1 == 0
    ensures var (n, r, e) := AllocEnv(k, parent);
      && Good(n)
      && e < NENV && k.envs[e].status.Free? && n.envs == k.envs[e := n.envs[e]]
      && n.envs[e].status == Runnable && n.envs[e].parent == parent && n.envs[e].runs == 0 == n.envs[e].eip
      && n.envs[e].id == IdAfter(e, k.count[e] + 1) && Envx(n.envs[e].id) == e
      && SameUser(k.v, n.v) && n.envs[e].pgdir.Some?
      && Mach(n) == Mach(k).(status := Mach(k).status[e := Runnable])
      && forall p :: UserMap(n.v, Mapping(n.envs[e].pgdir.value, p)) == None
  {
    hide Inv, FreeEnvs, Ids, Spaces, Sees, SetupVm, OthersKeep, SameUser, IdAfter, NextId, Envx, Sizes, UserMap,
        Coherent, Shape;
    AllocEnvKeepsGood(k, parent);
    var (n, r, e) := AllocEnv(k, parent);
    FrontIsFree(k.envs, k.head, k.fl);
    NextIdOfSlot(k.envs, k.count, e);
    SetupKeepsInv(k.v);
    EmptySpace(n.v, SetupVm(k.v).1.value);
    assert Statuses(n.envs) == Statuses(k.envs)[e := Runnable];
  }

  /** To the other CPUs env_alloc is the machine's Create step. */
  lemma AllocEnvIsCreate(k: Kernel, parent: EnvId)
    requires Good(k) && InKernel(Mach(k), k.me) && AllocEnv(k, parent).1 == 0
    ensures var (n, r, e) := AllocEnv(k, parent);
      && Agree(n) && Possible(Mach(k), Step.Create(k.me, e, Runnable))
      && Mach(n) == After(Mach(k), Step.Create(k.me, e, Runnable))
  {
    hide Good, Agree, AllocEnv, SameUser, UserMap;
    AllocEnvAgrees(k, parent);
  }

  lemma NextIdOfSlot(envs: seq<Env>, count: seq<nat>, e: nat)
    requires Ids(envs, count) && e < NENV
    ensures NextId(envs[e].id, e) == IdAfter(e, count[e] + 1) && Envx(NextId(envs[e].id, e)) == e
  {
    hide NextId, Envx;
    IdsCycle(e, count[e] + 1);
  }

  lemma AllocEnvKeepsGood(k: Kernel, parent: EnvId)
    requires Good(k) && AllocEnv(k, parent).1 == 0
    ensures Good(AllocEnv(k, parent).0)
  {
    hide Inv, Shape, Sizes, FreeListOk, CountsOk, Coherent, FreeEnvs, Spaces, Ids, CpusInRange, SetupVm, OthersKeep;
    hide SameUser, NoneFree, NextId, IdAfter;
    var (n, r, e) := AllocEnv(k, parent);
    FrontIsFree(k.envs, k.head, k.fl);
    var u, d := n.envs[e], SetupVm(k.v).1.value;
    SetupRegisters(k.v);
    CountUp(k.cpus, k.count, e);
    hide Sees;
    SetupKeepsInv(k.v);
    SetupKeepsCoherent(k.v);
    AllocKeepsTables(k.envs, k.head, k.fl, k.count, e, u);
    AllocKeepsSpaces(k.envs, k.v, n.v, e, u, d, k.cpus[k.me]);
  }

  lemma SetupRegisters(v: Vm)
    requires Lengths(v) && v.kern < |v.mem|
    ensures var w := SetupVm(v).0; w.cr3 == v.cr3 && w.cur == v.cur
  {
  }

  lemma CountUp(cpus: seq<Cpu>, count: seq<nat>, e: nat)
    requires CpusInRange(cpus, count) && e < |count|
    ensures CpusInRange(cpus, count[e := count[e] + 1])
  {
  }

  /** A directory without page tables below UTOP maps nothing there. */
  lemma EmptySpace(v: Vm, d: nat)
    requires Lengths(v) && d < |v.mem| && forall i :: 0 <= i < UTOP_PDX ==> v.mem[d][i] == 0
    ensures forall p :: UserMap(v, Mapping(d, p)) == None
  {
  }

  // ---- env_free ----

  /** env_free of e, once its address space has been given back, which left memory as w. */
  ghost function FreedEnv(k: Kernel, e: nat, w: Vm): Kernel
    requires e < |k.envs| && k.me < |k.cpus|
  {
    k.(v := w,
       envs := k.envs[e := k.envs[e].(status := Status.Free, link := k.head, pgdir := None)],
       head := Some(e),
       fl := k.fl + [e],
       cpus := if k.cpus[k.me].env == Some(e) then k.cpus[k.me := k.cpus[k.me].(cr3 := None)] else k.cpus)
  }

  /** w is k's memory without the address space d of environment e; kern_pgdir is in force if e is current. */
  ghost predicate SpaceGone(k: Kernel, e: nat, d: nat, w: Vm)
    requires Agree(k)
  {
    && e < NENV && k.envs[e].pgdir == Some(d)
    && Inv(w) && Coherent(w) && |w.mem| == |k.v.mem| && w.kern == k.v.kern && d < |w.mem| && w.kind[d] != EnvDir
    && (forall f :: 0 <= f < |w.mem| && f != d ==> (w.kind[f] == EnvDir <==> k.v.kind[f] == EnvDir))
    && w.cr3 == (if k.cpus[k.me].env == Some(e) then w.kern else k.v.cr3)
    && w.cur == (if k.cpus[k.me].env == Some(e) then Some(0) else k.v.cur)
  }

  lemma FreeKeepsTables(envs: seq<Env>, head: Option<nat>, fl: seq<nat>, count: seq<nat>, e: nat, u: Env)
    requires FreeEnvs(envs, head, fl) && Ids(envs, count) && e < |envs| && !envs[e].status.Free?
    requires u.status.Free? && u.link == head && u.id == envs[e].id
    ensures FreeEnvs(envs[e := u], Some(e), fl + [e]) && Ids(envs[e := u], count)
  {
    var envs', fl' := envs[e := u], fl + [e];
    forall k: nat | k < |fl'| ensures EnvLink(envs', fl', k) {
      assert k < |fl| ==> EnvLink(envs, fl, k);
    }
    assert fl'[|fl|] == e;
  }

  lemma FreeKeepsSpaces(envs: seq<Env>, v: Vm, w: Vm, e: nat, u: Env, d: nat)
    requires Lengths(v) && Lengths(w) && Spaces(envs, v) && |w.mem| == |v.mem|
    requires e < |envs| && envs[e].pgdir == Some(d) && u.status.Free? && u.pgdir == None
    requires d < |w.mem| && w.kind[d] != EnvDir
    requires forall f :: 0 <= f < |w.mem| && f != d ==> (w.kind[f] == EnvDir <==> v.kind[f] == EnvDir)
    ensures Spaces(envs[e := u], w)
  {
    var envs' := envs[e := u];
    forall c | 0 <= c < |w.mem| && w.kind[c] == EnvDir
        ensures exists f :: 0 <= f < |envs'| && envs'[f].pgdir == Some(c) {
      var f :| 0 <= f < |envs| && envs[f].pgdir == Some(c);
      assert envs'[f].pgdir == Some(c);
    }
  }

  lemma FreeSees(k: Kernel, e: nat, d: nat, w: Vm)
    requires Agree(k) && SpaceGone(k, e, d, w)
    ensures var n := FreedEnv(k, e, w); Sees(w, n.envs, n.cpus[n.me]) && CpusInRange(n.cpus, n.count)
  {
    hide FreeEnvs, Inv, Coherent, Shape;
  }

  /** The directory of an environment that is not current is not in force. */
  lemma OthersNotInForce(k: Kernel, e: nat)
    requires Agree(k) && e < NENV && !k.envs[e].status.Free?
    ensures k.envs[e].pgdir.Some?
    ensures var d := k.envs[e].pgdir.value;
      && d < |k.v.mem| && k.v.kind[d] == EnvDir && d != k.v.kern
      && (k.cpus[k.me].env != Some(e) ==> k.v.cr3 != d)
  {
    assert k.v.kind[k.v.kern] == KernDir;
    hide FreeEnvs, Ids, Inv, Coherent, CpusInRange;
  }

  lemma AgreeIsCoherent(k: Kernel)
    requires Agree(k)
    ensures Inv(k.v) && Coherent(k.v) && k.me < |k.cpus| && |k.envs| == NENV
  {
    hide Inv, Coherent, FreeEnvs, Spaces, Ids, CpusInRange, Sees;
  }

  /** What env_free does to memory, as the end of a run of steps on address space d alone. */
  lemma RunIsSpaceGone(k: Kernel, e: nat, d: nat, steps: seq<VmRuns.Step>, w: Vm)
    requires Agree(k) && e < NENV && k.envs[e].pgdir == Some(d) && !k.envs[e].status.Free?
    requires Inv(w) && Coherent(w) && VmRuns.Run(k.v, steps, w) && VmTeardown.AllOn(steps, d)
    requires |w.mem| == |k.v.mem| && d < |w.mem| && w.kind[d] == Kind.Free
    requires w.cr3 == (if k.cpus[k.me].env == Some(e) then k.v.kern else k.v.cr3)
    requires w.cur == (if k.cpus[k.me].env == Some(e) then Some(0) else k.v.cur)
    ensures SpaceGone(k, e, d, w)
  {
    OthersNotInForce(k, e);
    hide Agree, Inv, Coherent;
    VmFree.OtherDirsStay(k.v, steps, w, d);
  }

  lemma HasDirIsLive(envs: seq<Env>, v: Vm, e: nat)
    requires Lengths(v) && Spaces(envs, v) && e < |envs| && envs[e].pgdir.Some?
    ensures !envs[e].status.Free?
  {
  }

  /** After env_free everything agrees again; only curenv may be left behind, on the freed environment. */
  lemma FreedEnvAgrees(k: Kernel, e: nat, d: nat, w: Vm)
    requires Agree(k) && SpaceGone(k, e, d, w)
    ensures var n := FreedEnv(k, e, w);
      && Agree(n) && Mach(n) == FreeEnv(Mach(k), k.me, e)
      && (Good(k) && k.cpus[k.me].env != Some(e) ==> Good(n))
  {
    hide FreeEnvs, Spaces, Ids, Sees, Inv, Coherent, CpusInRange, Sizes, Shape;
    var n := FreedEnv(k, e, w);
    HasDirIsLive(k.envs, k.v, e);
    assert Statuses(n.envs) == Statuses(k.envs)[e := Status.Free];
    FreeKeepsTables(k.envs, k.head, k.fl, k.count, e, n.envs[e]);
    FreeKeepsSpaces(k.envs, k.v, w, e, n.envs[e], d);
    FreeSees(k, e, d, w);
  }

  // ---- curenv = NULL, env_run, sched_halt ----

  /** curenv = NULL. */
  ghost function Forget(k: Kernel): Kernel
    requires k.me < |k.cpus|
  {
    k.(v := k.v.(cur := None), cpus := k.cpus[k.me := k.cpus[k.me].(env := None)])
  }

  /** The same environments in another status; none of them becomes free or ceases to be. */
  ghost predicate SameButStatus(envs: seq<Env>, envs': seq<Env>) {
    && |envs'| == |envs|
    && forall e :: 0 <= e < |envs| ==>
         && envs'[e].id == envs[e].id && envs'[e].link == envs[e].link && envs'[e].pgdir == envs[e].pgdir
         && (envs'[e].status.Free? <==> envs[e].status.Free?)
  }

  lemma StatusKeepsTables(envs: seq<Env>, envs': seq<Env>, head: Option<nat>, fl: seq<nat>, count: seq<nat>, v: Vm)
    requires Lengths(v) && SameButStatus(envs, envs')
    requires FreeEnvs(envs, head, fl) && Ids(envs, count) && Spaces(envs, v)
    ensures FreeEnvs(envs', head, fl) && Ids(envs', count) && Spaces(envs', v)
  {
    forall k: nat | k < |fl| ensures EnvLink(envs', fl, k) {
      assert EnvLink(envs, fl, k);
    }
    forall d | 0 <= d < |v.mem| && v.kind[d] == EnvDir
        ensures exists e :: 0 <= e < |envs'| && envs'[e].pgdir == Some(d) {
      var e :| 0 <= e < |envs| && envs[e].pgdir == Some(d);
      assert envs'[e].pgdir == Some(d);
    }
  }

  /** Registers, cache and statuses may change if what the CPU sees stays consistent. */
  lemma StateKeepsAgree(k: Kernel, n: Kernel)
    requires Agree(k) && Lengths(n.v) && SameButStatus(k.envs, n.envs) && n.head == k.head && n.fl == k.fl
        && n.count == k.count
    requires n.v.mem == k.v.mem && n.v.pages == k.v.pages && n.v.kind == k.v.kind && n.v.kern == k.v.kern
    requires n.v.head == k.v.head && n.v.fl == k.v.fl
    requires Inv(n.v) ==> Coherent(n.v) && n.me < |n.cpus| && Sees(n.v, n.envs, n.cpus[n.me])
    requires CpusInRange(n.cpus, n.count) && (n.lock.Some? ==> n.lock.value < |n.cpus|)
    ensures Agree(n)
  {
    hide FreeEnvs, Spaces, Ids, Sees, Inv, Coherent, CpusInRange, Sizes, Shape, SameButStatus, FreeListOk, CountsOk,
        SameView, SameUser;
    InvIgnoresCpu(k.v, n.v);
    assert Spaces(k.envs, n.v) by {
      SpacesIgnoreCpu(k.envs, k.v, n.v);
    }
    StatusKeepsTables(k.envs, n.envs, k.head, k.fl, k.count, n.v);
  }

  lemma SpacesIgnoreCpu(envs: seq<Env>, v: Vm, w: Vm)
    requires Lengths(v) && Lengths(w) && Spaces(envs, v) && |w.mem| == |v.mem| && w.kind == v.kind
    ensures Spaces(envs, w)
  {
  }

  lemma ForgetIsGood(k: Kernel)
    requires Agree(k) && k.cpus[k.me].cr3 == None
    ensures Good(Forget(k)) && Mach(Forget(k)) == ForgetEnv(Mach(k), k.me)
  {
    var n := Forget(k);
    assert SameButStatus(k.envs, n.envs);
    assert CpusInRange(n.cpus, n.count);
    assert Sees(n.v, n.envs, n.cpus[n.me]);
    assert Inv(n.v) ==> Coherent(n.v);
    hide FreeEnvs, Spaces, Ids, Sees, Inv, Coherent, CpusInRange, SameButStatus;
    StateKeepsAgree(k, n);
  }

  /** The environment that was current is no longer RUNNING. */
  function Preempted(envs: seq<Env>, cur: Option<nat>): (r: seq<Env>)
    requires cur.Some? ==> cur.value < |envs|
    ensures |r| == |envs|
  {
    if cur.Some? && envs[cur.value].status == Running
    then envs[cur.value := envs[cur.value].(status := Runnable)] else envs
  }

  /** env_run of a live environment. */
  ghost function RunKernel(k: Kernel, e: nat): Kernel
    requires k.me < |k.cpus| && e < |k.envs| && k.envs[e].pgdir.Some?
    requires k.cpus[k.me].env.Some? ==> k.cpus[k.me].env.value < |k.envs|
  {
    var d, envs := k.envs[e].pgdir.value, Preempted(k.envs, k.cpus[k.me].env);
    k.(v := VmTlb.LoadCr3(k.v.(cur := Some(d)), d),
       envs := envs[e := envs[e].(status := Running, runs := Bump(envs[e].runs))],
       cpus := k.cpus[k.me := Cpu(Some(e), Some(e), User)],
       lock := None, releases := k.releases + 1)
  }

  /** env_run keeps everything in agreement, leaves the cache coherent, and is RunEnv to the other CPUs. */
  lemma RunKernelIsGood(k: Kernel, e: nat)
    requires Good(k) && e < NENV && !k.envs[e].status.Free?
    ensures k.envs[e].pgdir.Some?
    ensures Good(RunKernel(k, e)) && Mach(RunKernel(k, e)) == RunEnv(Mach(k), k.me, e)
    ensures var n := RunKernel(k, e);
      forall f :: 0 <= f < NENV ==>
        n.envs[f].runs == if f == e then (k.envs[f].runs + 1) % 0x1_0000_0000 else k.envs[f].runs
  {
    hide FreeEnvs, Inv, Sizes, Shape, Spaces, Ids, Sees, Coherent, CpusInRange, SameButStatus;
    LiveHasDir(k, e);
    RunCounts(k, e);
    RunKernelSees(k, e);
    var n := RunKernel(k, e);
    assert Statuses(n.envs) == RunEnv(Mach(k), k.me, e).status;
    StateKeepsAgree(k, n);
  }

  lemma RunCounts(k: Kernel, e: nat)
    requires k.me < |k.cpus| && |k.envs| == NENV && e < NENV && k.envs[e].pgdir.Some?
    requires k.cpus[k.me].env.Some? ==> k.cpus[k.me].env.value < NENV
    ensures var n := RunKernel(k, e);
      forall f :: 0 <= f < NENV ==>
        n.envs[f].runs == if f == e then (k.envs[f].runs + 1) % 0x1_0000_0000 else k.envs[f].runs
  {
  }

  lemma RunKernelSees(k: Kernel, e: nat)
    requires Good(k) && e < NENV && !k.envs[e].status.Free?
    ensures k.envs[e].pgdir.Some?
    ensures var n := RunKernel(k, e);
      && SameButStatus(k.envs, n.envs) && CpusInRange(n.cpus, n.count) && Sees(n.v, n.envs, n.cpus[n.me])
      && (Inv(n.v) ==> Coherent(n.v))
  {
    hide FreeEnvs, Inv, Shape, Ids, SameButStatus, CpusInRange, FreeListOk, CountsOk, DirsOk, Spaces, Coherent;
    LiveHasDir(k, e);
    RunKernelRanges(k, e);
    LoadedCoherent(k.v.(cur := k.envs[e].pgdir), k.envs[e].pgdir.value);
    PreemptedDirs(k.envs, k.cpus[k.me].env);
  }

  lemma LoadedCoherent(v: Vm, d: nat)
    requires d < |v.mem| && Lengths(v) && v.kind[d] == EnvDir
    ensures Inv(VmTlb.LoadCr3(v, d)) ==> Coherent(VmTlb.LoadCr3(v, d))
  {
    hide Inv;
  }

  lemma PreemptedDirs(envs: seq<Env>, cur: Option<nat>)
    requires cur.Some? ==> cur.value < |envs|
    ensures forall e :: 0 <= e < |envs| ==> Preempted(envs, cur)[e].pgdir == envs[e].pgdir
  {
  }

  lemma RunKernelRanges(k: Kernel, e: nat)
    requires Good(k) && e < NENV && !k.envs[e].status.Free? && k.envs[e].pgdir.Some?
    ensures var n := RunKernel(k, e); SameButStatus(k.envs, n.envs) && CpusInRange(n.cpus, n.count)
  {
    hide FreeEnvs, Inv, Shape, Sizes, Spaces, Coherent;
  }

  /** sched_halt: the monitor if nothing can ever run, else kern_pgdir and a halted CPU. */
  ghost function HaltKernel(k: Kernel): Kernel
    requires k.me < |k.cpus|
  {
    var st := Statuses(k.envs);
    if Runnable !in st && Running !in st && Dying !in st
    then k.(cpus := k.cpus[k.me := k.cpus[k.me].(mode := Monitor)])
    else k.(v := VmTlb.LoadCr3(k.v.(cur := None), k.v.kern), cpus := k.cpus[k.me := Cpu(None, None, Halted)],
            lock := None, releases := k.releases + 1)
  }

  lemma HaltKernelIsGood(k: Kernel)
    requires Good(k)
    ensures Good(HaltKernel(k)) && Mach(HaltKernel(k)) == Halt(Mach(k), k.me)
  {
    var st, n := Statuses(k.envs), HaltKernel(k);
    hide FreeEnvs, Inv, Sizes, Shape, Statuses, Spaces, Ids, Coherent, CpusInRange, SameButStatus, Sees;
    if Runnable !in st && Running !in st && Dying !in st {
      MonitorSees(k);
    } else {
      HaltedSees(k);
    }
    hide Good, Halt, Mach;
    StateKeepsAgree(k, n);
    HaltIs(k);
  }

  lemma HaltIs(k: Kernel)
    requires Good(k) && Agree(HaltKernel(k))
    ensures Good(HaltKernel(k)) && Mach(HaltKernel(k)) == Halt(Mach(k), k.me)
  {
    hide FreeEnvs, Inv, Sizes, Shape, Statuses, Spaces, Ids, Coherent, CpusInRange, Sees;
  }

  lemma MonitorSees(k: Kernel)
    requires Good(k)
    ensures var n := k.(cpus := k.cpus[k.me := k.cpus[k.me].(mode := Monitor)]);
      SameButStatus(k.envs, k.envs) && CpusInRange(n.cpus, k.count) && Sees(k.v, k.envs, n.cpus[k.me])
  {
    hide FreeEnvs, Inv, Spaces, Ids, Shape, Coherent;
  }

  lemma HaltedSees(k: Kernel)
    requires Good(k)
    ensures var v, cpus := VmTlb.LoadCr3(k.v.(cur := None), k.v.kern), k.cpus[k.me := Cpu(None, None, Halted)];
      && SameButStatus(k.envs, k.envs) && CpusInRange(cpus, k.count) && Sees(v, k.envs, cpus[k.me])
      && (Inv(v) ==> Coherent(v))
  {
    hide FreeEnvs, Inv, Spaces, Ids, Shape;
    assert k.v.kind[k.v.kern] == KernDir;
  }

  /** sched_yield. */
  ghost function YieldKernel(k: Kernel): Kernel
    requires Good(k)
  {
    var cur := k.cpus[k.me].env;
    match Pick(Statuses(k.envs), ScanStart(cur))
    case Some(e) => LiveHasDir(k, e); RunKernel(k, e)
    case None =>
      if cur.Some? && k.envs[cur.value].status == Running then LiveHasDir(k, cur.value); RunKernel(k, cur.value)
      else HaltKernel(k)
  }

  lemma LiveHasDir(k: Kernel, e: nat)
    requires Agree(k) && e < NENV && !k.envs[e].status.Free?
    ensures k.envs[e].pgdir.Some? && k.envs[e].pgdir.value < |k.v.mem| && k.v.kind[k.envs[e].pgdir.value] == EnvDir
    ensures k.cpus[k.me].env.Some? ==> k.cpus[k.me].env.value < NENV
  {
  }

  lemma YieldKernelIsGood(k: Kernel)
    requires Good(k)
    ensures Good(YieldKernel(k)) && Mach(YieldKernel(k)) == Yield(Mach(k), k.me)
  {
    var cur, st := k.cpus[k.me].env, Statuses(k.envs);
    hide Agree, Pick, RunKernel, HaltKernel, Mach;
    match Pick(st, ScanStart(cur))
    case Some(e) => RunKernelIsGood(k, e);
    case None =>
      if cur.Some? && k.envs[cur.value].status == Running {
        RunKernelIsGood(k, cur.value);
      } else {
        HaltKernelIsGood(k);
      }
  }

  /** The cases of trap from user mode. */
  lemma TrapCases(k: Kernel)
    requires Good(k) && Possible(Mach(k), Step.Trap(k.me))
    ensures var m, c, cur := Mach(k), k.me, k.cpus[k.me].env;
      && k.lock == None && cur.Some? && cur.value < NENV && !k.envs[cur.value].status.Free?
      && After(m, Step.Trap(c)) ==
         if k.envs[cur.value].status == Dying then Yield(ForgetEnv(FreeEnv(Enter(m, c), c, cur.value), c), c)
         else Enter(m, c)
  {
    hide Agree, Yield, ForgetEnv, FreeEnv, Enter;
  }

  /** The cases of env_destroy but the first. */
  lemma DestroyCases(k: Kernel, e: nat)
    requires Agree(k) && e < NENV && (k.envs[e].status == Running ==> k.cpus[k.me].env == Some(e))
    ensures Destroy(Mach(k), k.me, e) ==
            if k.cpus[k.me].env == Some(e) then Yield(ForgetEnv(FreeEnv(Mach(k), k.me, e), k.me), k.me)
            else FreeEnv(Mach(k), k.me, e)
  {
    hide Agree, Yield, ForgetEnv, FreeEnv;
  }

  /** The environments differ in status and run count at most, and none was freed or came to life. */
  ghost predicate OnlyRuns(envs: seq<Env>, envs': seq<Env>) {
    && |envs'| == |envs|
    && forall e :: 0 <= e < |envs| ==>
         && envs'[e] == envs[e].(status := envs'[e].status, runs := envs'[e].runs)
         && (envs'[e].status.Free? <==> envs[e].status.Free?)
  }

  /** Scheduling changes registers, statuses and run counts; memory stays. */
  lemma YieldOnlyRuns(k: Kernel)
    requires Good(k)
    ensures var n := YieldKernel(k);
      OnlyRuns(k.envs, n.envs) && n.v == k.v.(cr3 := n.v.cr3, cur := n.v.cur, tlb := n.v.tlb)
  {
    hide Agree, Mach, Inv, Coherent;
    var cur, st := k.cpus[k.me].env, Statuses(k.envs);
    PickIsComplete(st, ScanStart(cur));
    CurrentSlot(k);
    hide Good, Pick;
    match Pick(st, ScanStart(cur))
    case Some(e) =>
      LiveHasDir(k, e);
      RunOnlyRuns(k, e);
    case None =>
      if cur.Some? && k.envs[cur.value].status == Running {
        LiveHasDir(k, cur.value);
        RunOnlyRuns(k, cur.value);
      }
  }

  lemma RunOnlyRuns(k: Kernel, e: nat)
    requires k.me < |k.cpus| && e < |k.envs| && k.envs[e].pgdir.Some? && !k.envs[e].status.Free?
    requires k.cpus[k.me].env.Some? ==> k.cpus[k.me].env.value < |k.envs|
    ensures var n := RunKernel(k, e);
      OnlyRuns(k.envs, n.envs) && n.v == k.v.(cr3 := n.v.cr3, cur := n.v.cur, tlb := n.v.tlb)
  {
  }

  /**
   * Environment e is gone: its pages, tables and directory are free and on the list unless another address
   * space maps them, no other mapping has changed, and other environments have at most been scheduled.
   */
  ghost predicate Gone(k: Kernel, n: Kernel, e: nat) {
    && Lengths(k.v) && Lengths(n.v) && |n.envs| == |k.envs| && e < |k.envs| && k.envs[e].pgdir.Some?
    && VmTeardown.TornDown(k.v, n.v, k.envs[e].pgdir.value)
    && n.envs[e].status.Free? && n.envs[e].pgdir == None && n.envs[e].id == k.envs[e].id
    && forall f :: 0 <= f < |k.envs| && f != e ==>
         n.envs[f] == k.envs[f].(status := n.envs[f].status, runs := n.envs[f].runs)
  }

  lemma FreedIsGone(k: Kernel, e: nat, w: Vm)
    requires Lengths(k.v) && Lengths(w) && e < |k.envs| && k.me < |k.cpus| && k.envs[e].pgdir.Some?
    requires VmTeardown.TornDown(k.v, w, k.envs[e].pgdir.value)
    ensures Gone(k, FreedEnv(k, e, w), e)
  {
    hide VmTeardown.TornDown;
  }

  /** ... and stays so while other environments are scheduled. */
  lemma GoneStays(k: Kernel, x: Kernel, n: Kernel, e: nat)
    requires Gone(k, x, e) && OnlyRuns(x.envs, n.envs)
    requires n.v == x.v.(cr3 := n.v.cr3, cur := n.v.cur, tlb := n.v.tlb)
    ensures Gone(k, n, e)
  {
    TornIgnoresCpu(k.v, x.v, n.v, k.envs[e].pgdir.value);
    hide VmTeardown.TornDown;
  }

  lemma TornIgnoresCpu(v: Vm, x: Vm, w: Vm, d: nat)
    requires Lengths(v) && Lengths(x) && VmTeardown.TornDown(v, x, d)
    requires w == x.(cr3 := w.cr3, cur := w.cur, tlb := w.tlb)
    ensures Lengths(w) && VmTeardown.TornDown(v, w, d)
  {
    forall m: Mapping ensures UserMap(w, m) == UserMap(x, m) {
    }
  }

  /** ENVX(curenv->env_id) is the slot of curenv. */
  lemma CurrentSlot(k: Kernel)
    requires Good(k)
    ensures var cur := k.cpus[k.me].env; cur.Some? ==> cur.value < NENV && Envx(k.envs[cur.value].id) == cur.value
  {
    var cur := k.cpus[k.me].env;
    if cur.Some? {
      hide IdAfter, Envx;
      IdsCycle(cur.value, k.count[cur.value]);
    }
  }

  /** What the machine does at the end of trap. */
  lemma LeaveIs(k: Kernel)
    requires Good(k) && Possible(Mach(k), Leave(k.me))
    ensures k.me < |k.cpus| && |k.envs| == NENV
    ensures var cur := k.cpus[k.me].env;
      && (cur.Some? ==> cur.value < NENV)
      && After(Mach(k), Leave(k.me)) ==
           if cur.Some? && k.envs[cur.value].status == Running then RunEnv(Mach(k), k.me, cur.value)
           else Yield(Mach(k), k.me)
  {
    CurrentSlot(k);
    hide FreeEnvs, Spaces, Ids, Inv, Coherent, CpusInRange, Sees, Yield, RunEnv;
  }

  /** env_destroy of an environment that runs on another CPU. */
  ghost function MarkDying(k: Kernel, e: nat): Kernel
    requires e < |k.envs|
  {
    k.(envs := k.envs[e := k.envs[e].(status := Dying)])
  }

  lemma DyingIsGood(k: Kernel, e: nat)
    requires Good(k) && e < NENV && k.envs[e].status == Running && k.cpus[k.me].env != Some(e)
    ensures Good(MarkDying(k, e)) && Mach(MarkDying(k, e)) == Destroy(Mach(k), k.me, e)
  {
    hide FreeEnvs, Spaces, Ids, Sees, Inv, Coherent, CpusInRange, SameButStatus, Statuses;
    DyingSees(k, e);
    StateKeepsAgree(k, MarkDying(k, e));
  }

  lemma DyingSees(k: Kernel, e: nat)
    requires Good(k) && e < NENV && k.envs[e].status == Running && k.cpus[k.me].env != Some(e)
    ensures var n := MarkDying(k, e);
      && SameButStatus(k.envs, n.envs) && Sees(n.v, n.envs, n.cpus[n.me])
      && Statuses(k.envs)[e] == Running && Statuses(n.envs) == Statuses(k.envs)[e := Dying]
      && var cur := n.cpus[n.me].env; cur.Some? ==> cur.value < NENV && !n.envs[cur.value].status.Free?
  {
    hide FreeEnvs, Spaces, Ids, Inv, Coherent, CpusInRange;
  }

  // ---- load_icode ----

  /** While the kernel starts up no environment is current: kern_pgdir is in force. */
  lemma StartupSees(k: Kernel, e: nat)
    requires Good(k) && k.cpus[k.me].env == None && e < NENV && !k.envs[e].status.Free?
    ensures k.v.cur == None && k.v.cr3 == k.v.kern && IsDir(k.v.kind[k.v.kern])
    ensures k.envs[e].pgdir.Some? && EnvSpace(k.v, k.envs[e].pgdir.value)
  {
    LiveHasDir(k, e);
    hide Spaces, FreeEnvs, Ids, Coherent, CpusInRange;
  }

  /** On this CPU tlb_invalidate takes effect for every directory that is in force. */
  lemma LiveFlushes(k: Kernel, e: nat)
    requires Good(k) && e < NENV && !k.envs[e].status.Free?
    ensures k.envs[e].pgdir.Some? && EnvSpace(k.v, k.envs[e].pgdir.value)
    ensures k.envs[e].pgdir.value != k.v.cr3 || Flushes(k.v, k.envs[e].pgdir.value)
  {
    LiveHasDir(k, e);
    OthersNotInForce(k, e);
    hide FreeEnvs, Ids, CpusInRange, Inv, Coherent, Spaces;
  }

  /**
   * A change of the memory of a live environment, whichever is current, and of its entry point: memory,
   * environments and CPUs still agree, the cache of this CPU is in step, and other CPUs see no difference.
   */
  lemma LoadedIsGood(k: Kernel, e: nat, w: Vm, eip: Word)
    requires Good(k) && e < NENV && !k.envs[e].status.Free? && k.envs[e].pgdir.Some?
    requires Inv(w) && Steady(k.v, w, k.envs[e].pgdir.value)
    ensures var n := k.(v := w, envs := k.envs[e := k.envs[e].(eip := eip)]); Good(n) && Mach(n) == Mach(k)
  {
    hide Inv, Coherent, FreeEnvs, Ids, CpusInRange, Spaces, Sees, Steady, Sizes, Statuses;
    var n := k.(v := w, envs := k.envs[e := k.envs[e].(eip := eip)]);
    CurrentSlot(k);
    SteadyRegisters(k, e, w);
    LoadedTables(k, e, w, eip);
    LoadedSees(k, e, w, eip);
    assert Statuses(n.envs) == Statuses(k.envs);
  }

  lemma SteadyRegisters(k: Kernel, e: nat, w: Vm)
    requires Good(k) && e < NENV && !k.envs[e].status.Free? && k.envs[e].pgdir.Some?
    requires Inv(w) && Steady(k.v, w, k.envs[e].pgdir.value)
    ensures Coherent(w) && w.kern == k.v.kern && w.cr3 == k.v.cr3 && w.cur == k.v.cur && |w.mem| == |k.v.mem|
    ensures forall d :: 0 <= d < |w.mem| ==> (w.kind[d] == EnvDir <==> k.v.kind[d] == EnvDir)
  {
    LiveFlushes(k, e);
    hide Inv, Coherent, FreeEnvs, Ids, CpusInRange, Spaces, Sees, VmTeardown.Touches, Flushes;
  }

  lemma LoadedTables(k: Kernel, e: nat, w: Vm, eip: Word)
    requires Agree(k) && e < NENV && Lengths(w) && |w.mem| == |k.v.mem|
    requires forall d :: 0 <= d < |w.mem| ==> (w.kind[d] == EnvDir <==> k.v.kind[d] == EnvDir)
    ensures var envs := k.envs[e := k.envs[e].(eip := eip)];
      FreeEnvs(envs, k.head, k.fl) && Spaces(envs, w) && Ids(envs, k.count)
  {
    hide Inv, Coherent, FreeEnvs, Ids, CpusInRange, Spaces, Sees, SameButStatus, Sizes;
    SameButEip(k.envs, e, eip);
    SpacesFollowDirs(k.envs, k.v, w);
    StatusKeepsTables(k.envs, k.envs[e := k.envs[e].(eip := eip)], k.head, k.fl, k.count, w);
  }

  lemma SameButEip(envs: seq<Env>, e: nat, eip: Word)
    requires e < |envs|
    ensures SameButStatus(envs, envs[e := envs[e].(eip := eip)])
  {
  }

  lemma LoadedSees(k: Kernel, e: nat, w: Vm, eip: Word)
    requires Good(k) && e < NENV && w.kern == k.v.kern && w.cr3 == k.v.cr3 && w.cur == k.v.cur
    ensures Sees(w, k.envs[e := k.envs[e].(eip := eip)], k.cpus[k.me])
  {
    hide Inv, Coherent, FreeEnvs, Ids, CpusInRange, Spaces;
  }

  lemma MemoryWorkIsGood(k: Kernel, e: nat, w: Vm)
    requires Good(k) && e < NENV && !k.envs[e].status.Free? && k.envs[e].pgdir.Some?
    requires Inv(w) && Steady(k.v, w, k.envs[e].pgdir.value)
    ensures Good(k.(v := w)) && Mach(k.(v := w)) == Mach(k)
  {
    hide Good, Agree, Inv, Steady, Mach;
    assert k.envs[e := k.envs[e].(eip := k.envs[e].eip)] == k.envs;
    LoadedIsGood(k, e, w, k.envs[e].eip);
  }

  /** Whatever this CPU caches of the tables in force, everything still agrees. */
  lemma CacheFillIsGood(k: Kernel, p: VPage)
    requires Good(k) && Lengths(k.v) && k.v.cr3 < |k.v.mem| && Walk(k.v.mem, k.v.cr3, p).Some?
    ensures var n := k.(v := k.v.(tlb := k.v.tlb[p := FrameOf(Walk(k.v.mem, k.v.cr3, p).value)]));
      Good(n) && Mach(n) == Mach(k)
  {
    var n := k.(v := k.v.(tlb := k.v.tlb[p := FrameOf(Walk(k.v.mem, k.v.cr3, p).value)]));
    hide FreeEnvs, Spaces, Ids, Inv, Coherent, CpusInRange, Walk, Statuses;
    FillKeepsCoherent(k.v, p);
    assert SameButStatus(k.envs, n.envs) && Sees(n.v, n.envs, n.cpus[n.me]);
    StateKeepsAgree(k, n);
  }

  /** page_insert into the address space of any live environment, also of one that is running. */
  lemma InsertIsGood(k: Kernel, e: nat, pp: nat, p: VPage, perm: nat)
    requires Good(k) && e < NENV && !k.envs[e].status.Free? && k.envs[e].pgdir.Some?
    requires CanInsert(k.v, k.envs[e].pgdir.value, pp, p, perm)
    requires k.v.pages[pp].ref < 0xFFFF || SamePage(k.v, k.envs[e].pgdir.value, pp, p)
    ensures var n := k.(v := Insert(k.v, k.envs[e].pgdir.value, pp, p, perm).0);
      Good(n) && Coherent(n.v) && Mach(n) == Mach(k)
  {
    hide Inv, Good, Steady, Insert, NoTable, SamePage, Updated, InsertedKinds, Coherent, Mach;
    var d := k.envs[e].pgdir.value;
    InsertUpdates(k.v, d, pp, p, perm);
    VmCalls.SteadyRefl(k.v, d);
    if !NoTable(k.v, d, p) {
      InsertSteady(k.v, d, pp, p, perm);
    }
    MemoryWorkIsGood(k, e, Insert(k.v, d, pp, p, perm).0);
  }

  /** page_remove from the address space of any live environment. */
  lemma RemoveIsGood(k: Kernel, e: nat, p: VPage)
    requires Good(k) && e < NENV && !k.envs[e].status.Free? && k.envs[e].pgdir.Some?
    requires Sizes(k.v) && Mapped(k.v, k.envs[e].pgdir.value, p)
    ensures var n := k.(v := Remove(k.v, k.envs[e].pgdir.value, p));
      Good(n) && Coherent(n.v) && Mach(n) == Mach(k)
  {
    hide Inv, Good, Steady, Remove, Mapped, Coherent, Mach;
    var d := k.envs[e].pgdir.value;
    LiveFlushes(k, e);
    VmCalls.RemoveSteady(k.v, d, p);
    MemoryWorkIsGood(k, e, Remove(k.v, d, p));
  }

  /** A memory call whose target is a live environment: everything agrees afterwards exactly if Keeps says so. */
  lemma CallIsGood(k: Kernel, e: nat, c: VmCalls.Call)
    requires Good(k) && e < NENV && !k.envs[e].status.Free?
    requires VmCalls.Callable(k.v, c) && !c.Other? && k.envs[e].pgdir == Some(c.dir)
    ensures var n := k.(v := VmCalls.AfterCall(k.v, c));
      && (Good(n) <==> VmCalls.Keeps(k.v, c))
      && (Good(n) ==> Coherent(n.v) && Mach(n) == Mach(k))
  {
    hide Inv, Steady, Coherent, Mach, VmCalls.Callable, VmCalls.AfterCall, VmCalls.Keeps, FreeEnvs, Spaces, Ids, Sees,
      CpusInRange;
    VmCalls.CallSteady(k.v, c);
    if VmCalls.Keeps(k.v, c) {
      MemoryWorkIsGood(k, e, VmCalls.AfterCall(k.v, c));
    }
  }

  lemma SpacesFollowDirs(envs: seq<Env>, v: Vm, w: Vm)
    requires Lengths(v) && Lengths(w) && Spaces(envs, v) && |w.mem| == |v.mem|
    requires forall d :: 0 <= d < |w.mem| ==> (w.kind[d] == EnvDir <==> v.kind[d] == EnvDir)
    ensures Spaces(envs, w)
  {
  }

  // ---- envid2env ----

  /** The live environment e has this id. */
  ghost predicate Named(envs: seq<Env>, id: EnvId, e: nat) {
    e < |envs| && !envs[e].status.Free? && envs[e].id == id
  }

  /** The slot that ENVX picks from an id is the only place where its owner can be; 0 is nobody's id. */
  lemma OnlyItsSlot(k: Kernel, id: EnvId, e: nat)
    requires Agree(k) && Named(k.envs, id, e)
    ensures e == Envx(id) && id > 0
  {
    hide IdAfter, Envx;
    IdsCycle(e, k.count[e]);
  }

  /**
   * A stale id, that of the j-th allocation of slot s, names a live environment only if the slot is in use
   * and was allocated again a multiple of 2^19 - 1 times; it is then that slot's present environment.
   */
  lemma StaleId(k: Kernel, s: nat, j: nat)
    requires Agree(k) && s < NENV && 0 < j <= k.count[s]
    ensures var id := IdAfter(s, j);
      forall e :: Named(k.envs, id, e) <==>
        e == s && !k.envs[s].status.Free? && (k.count[s] - j) % GENERATIONS == 0
  {
    hide IdAfter, Envx;
    var id := IdAfter(s, j);
    IdsCycle(s, j);
    SameIdIffFullCycle(s, j, k.count[s]);
    forall e ensures Named(k.envs, id, e) ==> e == s {
      if Named(k.envs, id, e) {
        OnlyItsSlot(k, id, e);
      }
    }
  }

  /** The environment in slot cur may act on that in slot e: envid2env with checkperm set. */
  predicate MayAct(envs: seq<Env>, cur: nat, e: nat)
    requires cur < |envs| && e < |envs|
  {
    e == cur || envs[e].parent == envs[cur].id
  }

  /**
   * What sys_exofork and then any system call on the child rest on.  env_alloc with the id of the current
   * environment c makes environment e; e is the only one that the new id names, and the environments that may
   * act on e are c and e itself, whichever live environment is current.
   */
  lemma ChildIsAllowed(k: Kernel, c: nat)
    requires Good(k) && k.cpus[k.me].env == Some(c) && AllocEnv(k, k.envs[c].id).1 == 0
    ensures var (n, r, e) := AllocEnv(k, k.envs[c].id);
      && |n.envs| == NENV && c < NENV && e < NENV && e != c
      && n.envs[c] == k.envs[c] && n.envs[e].parent == k.envs[c].id && n.envs[e].runs == 0
      && (forall s :: Named(n.envs, n.envs[e].id, s) <==> s == e)
      && (forall s :: 0 <= s < NENV && !n.envs[s].status.Free? ==> (MayAct(n.envs, s, e) <==> s == c || s == e))
  {
    var (n, r, e) := AllocEnv(k, k.envs[c].id);
    AllocEnvAgrees(k, k.envs[c].id);
    assert !k.envs[c].status.Free?;
    hide Good, AllocEnv, SameUser, UserMap, FreeEnvs, Spaces, Inv, Coherent, Sees, CpusInRange, IdAfter, Envx, Mach;
    forall s | Named(n.envs, n.envs[e].id, s) ensures s == e {
      OnlyItsSlot(n, n.envs[e].id, s);
    }
    forall s | 0 <= s < NENV && !n.envs[s].status.Free? && n.envs[s].id == n.envs[c].id ensures s == c {
      OnlyItsSlot(n, n.envs[c].id, s);
      OnlyItsSlot(n, n.envs[c].id, c);
    }
  }

  /** An environment made with parent id 0, by env_create, is nobody's child. */
  lemma CreatedIsAlone(k: Kernel)
    requires Good(k) && AllocEnv(k, 0).1 == 0
    ensures var (n, r, e) := AllocEnv(k, 0);
      && |n.envs| == NENV && e < NENV
      && forall s :: 0 <= s < NENV && !n.envs[s].status.Free? ==> (MayAct(n.envs, s, e) <==> s == e)
  {
    var (n, r, e) := AllocEnv(k, 0);
    AllocEnvAgrees(k, 0);
    hide Good, AllocEnv, SameUser, UserMap, FreeEnvs, Spaces, Inv, Coherent, Sees, CpusInRange, IdAfter, Envx, Mach;
    forall s | 0 <= s < NENV && !n.envs[s].status.Free? ensures n.envs[s].id > 0 {
      OnlyItsSlot(n, n.envs[s].id, s);
    }
  }

  // ---- a program from env_create to env_free ----

  /**
   * env_alloc made environment e with directory d; region_alloc or load_icode filled its memory; any page
   * operations on d followed, the last of them those of env_free.  Then every other address space is as it
   * was before, and every page has its old use and count: pages of e alone are free again, shared ones have
   * lost just the mappings of e.
   */
  lemma ProgramLeavesNothing(k: Kernel, parent: EnvId, loaded: Vm, steps: seq<VmRuns.Step>, w: Vm)
    requires Good(k) && AllocEnv(k, parent).1 == 0
    requires var (n, r, e) := AllocEnv(k, parent);
      && Inv(n.v) && Inv(loaded) && e < |n.envs| && n.envs[e].pgdir.Some?
      && var d := n.envs[e].pgdir.value;
      && Steady(n.v, loaded, d)
      && VmRuns.Run(loaded, steps, w) && VmTeardown.AllOn(steps, d) && d < |w.kind| && !IsDir(w.kind[d])
    ensures Inv(w) && SameUser(k.v, w) && VmTeardown.SameUses(k.v, w)
    ensures forall f :: 0 <= f < |k.v.mem| && VmRuns.Managed(k.v.kind[f]) ==> w.pages[f].ref == k.v.pages[f].ref
    ensures (forall f :: 0 <= f < |k.v.mem| ==> (w.kind[f] == Held <==> k.v.kind[f] == Held)) <==>
              w.kind == k.v.kind && multiset(w.fl) == multiset(k.v.fl)
  {
    hide Inv, Coherent, Good, Agree, SetupVm, VmRuns.Run, VmTeardown.AllOn, VmTeardown.Touches, VmTeardown.SameUses,
      SameUser;
    var d := SetupVm(k.v).1.value;
    VmTeardown.RunTouches(loaded, steps, w, d);
    VmTeardown.TouchesTrans(SetupVm(k.v).0, loaded, w, d);
    VmTeardown.SpaceRoundTrip(k.v, w);
  }

  /**
   * The same life in terms of what the code promises, without a condition on the end: env_alloc; load_icode,
   * which with enough free pages holds none back; any memory calls that map into the program's own space,
   * from any space, and leave the invariant in place (VmCalls.Sound says which do); env_free.  All address
   * spaces, uses and counts are as before, and so is the free list, up to order, exactly if no call took
   * the last free page when it needed another one for a page table.
   */
  lemma ProgramReturnsPages(k: Kernel, parent: EnvId, loaded: Vm, calls: seq<VmCalls.Call>, x: Vm,
      steps: seq<VmRuns.Step>, w: Vm)
    requires Good(k) && AllocEnv(k, parent).1 == 0
    requires var (n, r, e) := AllocEnv(k, parent);
      && Inv(n.v) && Inv(loaded) && e < |n.envs| && n.envs[e].pgdir.Some?
      && var d := n.envs[e].pgdir.value;
      && EnvSpace(n.v, d) && Steady(n.v, loaded, d) && VmTeardown.SameHeld(n.v, loaded)
      && VmCalls.CallRun(loaded, calls, x) && VmCalls.AllCallsOn(calls, d) && Inv(x)
      && VmRuns.Run(x, steps, w) && VmTeardown.AllOn(steps, d) && VmTeardown.AllReleasing(steps)
      && d < |w.kind| && w.kind[d] == Kind.Free
    ensures Inv(w) && SameUser(k.v, w)
    ensures forall f :: 0 <= f < |k.v.mem| && VmRuns.Managed(k.v.kind[f]) ==> w.pages[f].ref == k.v.pages[f].ref
    ensures w.kind == k.v.kind && multiset(w.fl) == multiset(k.v.fl) <==> VmCalls.LeakFree(loaded, calls)
  {
    hide Inv, Coherent, Good, Agree, SetupVm, VmRuns.Run, VmTeardown.AllOn, VmTeardown.AllReleasing,
      VmTeardown.Touches, VmTeardown.SameUses, SameUser, VmCalls.CallRun, VmCalls.LeakFree, VmCalls.Sound,
      VmCalls.AllCallsOn, VmCalls.HeldStays, VmTeardown.SameHeld, Steady, OthersKeep;
    var d := SetupVm(k.v).1.value;
    var u := SetupVm(k.v).0;
    SetupSameHeld(k.v);
    VmCalls.SteadyMeans(u, loaded, d);
    VmCalls.CallRunKeeps(loaded, calls, x);
    VmTeardown.RunTouches(x, steps, w, d);
    VmTeardown.RunSameHeld(x, steps, w);
    VmTeardown.TouchesTrans(u, loaded, x, d);
    VmTeardown.TouchesTrans(u, x, w, d);
    VmTeardown.SpaceRoundTrip(k.v, w);
    HeldThroughout(k.v, u, loaded, x, w);
    SameHeldIfSameKinds(k.v, w);
  }

  /** Without calls in between: env_alloc, load_icode with enough free pages, and env_free restore the free list. */
  lemma LoadThenFree(k: Kernel, parent: EnvId, loaded: Vm, steps: seq<VmRuns.Step>, w: Vm)
    requires Good(k) && AllocEnv(k, parent).1 == 0
    requires var (n, r, e) := AllocEnv(k, parent);
      && Inv(n.v) && Inv(loaded) && e < |n.envs| && n.envs[e].pgdir.Some?
      && var d := n.envs[e].pgdir.value;
      && EnvSpace(n.v, d) && Steady(n.v, loaded, d) && VmTeardown.SameHeld(n.v, loaded)
      && VmRuns.Run(loaded, steps, w) && VmTeardown.AllOn(steps, d) && VmTeardown.AllReleasing(steps)
      && d < |w.kind| && w.kind[d] == Kind.Free
    ensures Inv(w) && SameUser(k.v, w) && w.kind == k.v.kind && multiset(w.fl) == multiset(k.v.fl)
  {
    hide Inv, Coherent, Good, Agree, AllocEnv, VmRuns.Run, VmTeardown.AllOn, VmTeardown.AllReleasing, SameUser,
      VmTeardown.SameHeld, Steady;
    ProgramReturnsPages(k, parent, loaded, [], loaded, steps, w);
  }

  lemma SetupSameHeld(v: Vm)
    requires Inv(v)
    ensures Inv(SetupVm(v).0) && VmTeardown.SameHeld(v, SetupVm(v).0)
  {
    hide Shape, FreeListOk, CountsOk, SetupVm, SameUser, OthersKeep;
    SetupKeepsInv(v);
  }

  /** What is held changes over four phases exactly if it does in the third. */
  lemma HeldThroughout(v: Vm, u: Vm, y: Vm, x: Vm, w: Vm)
    requires Lengths(v) && Lengths(u) && Lengths(y) && Lengths(x) && Lengths(w)
    requires VmTeardown.SameHeld(v, u) && VmTeardown.SameHeld(u, y) && VmTeardown.SameHeld(x, w)
    ensures VmTeardown.SameHeld(v, w) <==> VmTeardown.SameHeld(y, x)
  {
  }

  lemma SameHeldIfSameKinds(v: Vm, w: Vm)
    requires Lengths(v) && Lengths(w) && |w.mem| == |v.mem|
    ensures w.kind == v.kind ==> VmTeardown.SameHeld(v, w)
    ensures VmTeardown.SameHeld(v, w) ==>
              forall f :: 0 <= f < |v.mem| ==> (w.kind[f] == Held <==> v.kind[f] == Held)
  {
  }

  // ---- entering the kernel, and going from one CPU to another ----

  /** lock_kernel on this CPU. */
  ghost function EnterKernel(k: Kernel): Kernel
    requires k.me < |k.cpus|
  {
    k.(lock := Some(k.me), cpus := k.cpus[k.me := k.cpus[k.me].(mode := Mode.Kernel)])
  }

  lemma EnterIsGood(k: Kernel)
    requires Good(k)
    ensures Good(EnterKernel(k)) && Mach(EnterKernel(k)) == Enter(Mach(k), k.me)
  {
    var n := EnterKernel(k);
    assert SameButStatus(k.envs, n.envs) && CpusInRange(n.cpus, n.count) && Sees(n.v, n.envs, n.cpus[n.me]);
    hide FreeEnvs, Spaces, Ids, Sees, Inv, Coherent, CpusInRange, SameButStatus;
    StateKeepsAgree(k, n);
  }

  /** The same kernel from the point of view of CPU c, whose translation cache is tlb. */
  ghost function HandOver(k: Kernel, c: nat, tlb: map<VPage, nat>): Kernel
    requires c < |k.cpus|
    requires k.cpus[c].env.Some? ==> k.cpus[c].env.value < |k.envs|
    requires k.cpus[c].cr3.Some? ==> k.cpus[c].cr3.value < |k.envs| && k.envs[k.cpus[c].cr3.value].pgdir.Some?
  {
    var u := k.cpus[c];
    k.(me := c,
       v := k.v.(cr3 := if u.cr3 == None then k.v.kern else k.envs[u.cr3.value].pgdir.value,
                 cur := DirOf(k.envs, u.env), tlb := tlb))
  }

  /** In a safe machine the environment of any CPU is live, and so is the directory in force there. */
  lemma SafeCpu(k: Kernel, c: nat)
    requires Agree(k) && Safe(Mach(k)) && c < |k.cpus|
    ensures k.cpus[c].env.Some? ==> k.cpus[c].env.value < NENV && !k.envs[k.cpus[c].env.value].status.Free?
    ensures k.cpus[c].cr3.Some? ==> k.cpus[c].cr3 == k.cpus[c].env && k.cpus[c].cr3.value < NENV
    ensures k.cpus[c].cr3.Some? ==> k.envs[k.cpus[c].cr3.value].pgdir.Some?
  {
    assert CpuOk(Mach(k), c);
    hide FreeEnvs, Ids, Inv, Coherent, Sees, CpusInRange, CpuOk, LockOk, NoOrphans;
    if k.cpus[c].cr3.Some? {
      DirectoriesInForceAreLive(Mach(k), c);
    }
  }

  /**
   * What one CPU leaves in a safe machine is good for the next one that enters the kernel: no page directory
   * in force anywhere was freed, so memory, environments and the registers of that CPU agree, if its cache
   * does.
   */
  lemma HandOverIsGood(k: Kernel, c: nat, tlb: map<VPage, nat>)
    requires Agree(k) && Safe(Mach(k)) && c < |k.cpus|
    requires k.cpus[c].env.Some? ==> k.cpus[c].env.value < |k.envs|
    requires k.cpus[c].cr3.Some? ==> k.cpus[c].cr3.value < |k.envs| && k.envs[k.cpus[c].cr3.value].pgdir.Some?
    requires Lengths(HandOver(k, c, tlb).v) && Inv(HandOver(k, c, tlb).v) ==> Coherent(HandOver(k, c, tlb).v)
    ensures Good(HandOver(k, c, tlb)) && Mach(HandOver(k, c, tlb)) == Mach(k)
  {
    SafeCpu(k, c);
    var n := HandOver(k, c, tlb);
    hide Safe, Inv, Coherent, FreeEnvs, Ids;
    assert SameButStatus(k.envs, n.envs) && Sees(n.v, n.envs, n.cpus[c]);
    hide Spaces, Sees, CpusInRange, SameButStatus;
    StateKeepsAgree(k, n);
  }
}
