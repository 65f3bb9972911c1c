/** The environment manager of kern/env.c and the scheduler of kern/sched.c, in place. */
module EnvCode {
  import opened Wrappers
  import opened Errors
  import opened Mmu
  import opened EnvIds
  import opened EnvState
  import opened Sched
  import opened Smp
  import opened VmState
  import opened VmAlloc
  import opened VmPaging
  import opened VmSpaces
  import opened VmTlb
  import opened VmFree
  import opened VmSetup
  import VmRuns
  import VmTeardown
  import opened VmRegion
  import opened VmLoad
  import opened KernelState
  import opened Pmap
  import ElfFile

  /** Environment e has an address space. */
  ghost predicate HasSpace(n: Kernel, e: nat) {
    e < |n.envs| && n.envs[e].pgdir.Some? && EnvSpace(n.v, n.envs[e].pgdir.value)
  }

  /** The file is right, and there are free pages for what is loaded into that address space. */
  ghost predicate RoomFor(n: Kernel, e: nat, b: seq<Byte>)
    requires HasSpace(n, e) && ValidElf(b) && |b| >= 52
  {
    Le32(b, 0) == ELF_MAGIC && Room(n.v, n.envs[e].pgdir.value, b)
  }

  /** k is n with the program in b loaded into environment e. */
  ghost predicate Started(n: Kernel, k: Kernel, e: nat, b: seq<Byte>)
    requires ValidElf(b)
  {
    && |b| >= 52 && e < |n.envs| && n.envs[e].pgdir.Some? && Inv(n.v)
    && k == n.(v := k.v, envs := n.envs[e := n.envs[e].(eip := Le32(b, 24))])
    && IcodeLoaded(n.v, k.v, n.envs[e].pgdir.value, b)
  }

  /** In terms of the file: its entry point, and its segments in memory. */
  lemma StartedAs(n: Kernel, k: Kernel, e: nat, b: seq<Byte>, f: ElfFile.Elf)
    requires ValidElf(b) && Started(n, k, e, b) && ElfFile.Says(b, f)
    ensures k.envs[e].eip == f.entry && Inv(k.v)
    ensures forall i :: 0 <= i < |f.hdrs| && f.hdrs[i].typ == 1 ==>
              ElfFile.Placed(k.v, n.envs[e].pgdir.value, b, f.hdrs[i])
  {
    hide Inv, IcodeLoaded, ValidElf, ElfFile.Says, ElfFile.Placed;
    ElfFile.ReadsBack(b, f);
    IcodeMeans(n.v, k.v, n.envs[e].pgdir.value, b);
    ElfFile.IcodeIsPlaced(n.v, k.v, n.envs[e].pgdir.value, b, f);
  }

  /** Its stack page is there, and no page is held back. */
  ghost predicate StartedWhole(n: Kernel, k: Kernel, e: nat) {
    && e < |n.envs| && n.envs[e].pgdir.Some?
    && Lengths(k.v) && StackFresh(k.v, n.envs[e].pgdir.value)
    && Lengths(n.v) && VmTeardown.SameHeld(n.v, k.v)
  }

  class EnvManager {
    const mm: MemoryManager             // memory, and the registers and cache of this CPU
    const envs: array<Env>              // envs
    var envFreeList: Option<nat>        // env_free_list
    const cpus: array<Cpu>              // cpus
    const me: nat                       // cpunum()
    var lock: Option<nat>               // the kernel lock
    var releases: nat                   // how often unlock_kernel was called

    ghost var k: Kernel                 // the whole state as a value

    ghost predicate Repr()
      reads this, envs, cpus, mm, mm.phys, mm.data, mm.pages
    {
      && mm.Repr() && mm.v == k.v
      && envs[..] == k.envs && envFreeList == k.head
      && cpus[..] == k.cpus && me == k.me && lock == k.lock && releases == k.releases
    }

    /** The state is represented and everything agrees. */
    ghost predicate Valid()
      reads this, envs, cpus, mm, mm.phys, mm.data, mm.pages
      ensures Valid() ==> envs.Length == NENV && me < cpus.Length
    {
      Repr() && Good(k)
    }

    /**
     * env_init, on an array of NENV zeroed environments: all of them go on the free list, the first one in
     * front.  Memory has no environment's address space yet, and this CPU starts in kern_pgdir.
     */
    constructor (mm: MemoryManager, cpus: array<Cpu>, me: nat)
      requires mm.Valid() && Coherent(mm.v) && mm.v.cr3 == mm.v.kern && mm.v.cur == None
      requires forall d :: 0 <= d < |mm.v.mem| ==> mm.v.kind[d] != EnvDir
      requires me < cpus.Length && forall c :: 0 <= c < cpus.Length ==> cpus[c].env == None && cpus[c].cr3 == None
      ensures Valid() && this.mm == mm && this.cpus == cpus && this.me == me && fresh(envs)
      ensures k.v == mm.v && k.cpus == cpus[..] && k.head == Some(0) && k.fl == Downto(0) && k.count == Zeros()
      ensures forall e :: 0 <= e < NENV ==> k.envs[e].status.Free?
    {
      this.mm, this.cpus, this.me := mm, cpus, me;
      envFreeList, lock, releases := None, None, 0;
      envs := new Env[NENV](i => Env(0, 0, Status.Free, 0, None, None, 0));
      new;
      hide Good, Coherent, Inv, MemoryManager.Repr, Downto, Zeros, Shape, Sizes;
      envFreeList := InitList(envs);
      InitialIsGood(mm.v, envs[..], cpus[..], me);
      k := Kern(mm.v, envs[..], envFreeList, cpus[..], me, None, 0, Downto(0), Zeros());
    }

    /** The loop of env_init, from the last environment to the first. */
    static method InitList(envs: array<Env>) returns (head: Option<nat>)
      requires envs.Length == NENV && forall e :: 0 <= e < NENV ==> envs[e] == Env(0, 0, Status.Free, 0, None, None, 0)
      modifies envs
      ensures head == Some(0)
      ensures forall e :: 0 <= e < NENV ==>
                envs[e] == Env(0, 0, Status.Free, 0, if e < NENV - 1 then Some(e + 1) else None, None, 0)
    {
      head := None;
      var i := NENV;
      while i > 0
        invariant 0 <= i <= NENV && head == if i == NENV then None else Some(i)
        invariant forall e :: 0 <= e < NENV ==>
                    envs[e] == Env(0, 0, Status.Free, 0, if i <= e < NENV - 1 then Some(e + 1) else None, None, 0)
      {
        i := i - 1;
        envs[i] := envs[i].(status := Status.Free, id := 0, link := head);
        head := Some(i);
      }
    }

    /** An assignment to fields of envs[e]. */
    method StoreEnv(e: nat, u: Env)
      requires Repr() && e < |k.envs|
      modifies this, envs
      ensures Repr() && k == old(k).(envs := old(k).envs[e := u])
    {
      hide MemoryManager.Repr;
      envs[e] := u;
      k := k.(envs := k.envs[e := u]);
    }

    /** An assignment to fields of thiscpu. */
    method StoreCpu(u: Cpu)
      requires Repr() && k.me < |k.cpus|
      modifies this, cpus
      ensures Repr() && k == old(k).(cpus := old(k).cpus[k.me := u])
    {
      hide MemoryManager.Repr;
      cpus[me] := u;
      k := k.(cpus := k.cpus[me := u]);
    }

    /** curenv = e, whose directory is dir. */
    method SetCurrent(e: Option<nat>, dir: Option<nat>)
      requires Repr() && k.me < |k.cpus|
      modifies this, cpus, mm
      ensures Repr()
      ensures k == old(k).(v := old(k).v.(cur := dir), cpus := old(k).cpus[k.me := old(k).cpus[k.me].(env := e)])
    {
      hide MemoryManager.Repr;
      StoreCpu(cpus[me].(env := e));
      mm.SetCurrent(dir);
      k := k.(v := mm.v);
    }

    method LoadDir(d: nat)
      requires Repr()
      modifies this, mm
      ensures Repr() && k == old(k).(v := VmTlb.LoadCr3(old(k).v, d))
    {
      hide MemoryManager.Repr;
      mm.LoadCr3(d);
      k := k.(v := mm.v);
    }

    lemma KernDirIs()
      requires Repr()
      ensures mm.kernPgdir == k.v.kern
    {
    }

    /** unlock_kernel. */
    method Unlock()
      requires Repr()
      modifies this
      ensures Repr() && k == old(k).(lock := None, releases := old(k).releases + 1)
    {
      lock, releases := None, releases + 1;
      k := k.(lock := None, releases := k.releases + 1);
    }

    /** The caller may act on environment e: it is the current one or a child of it. */
    ghost predicate Allowed(e: nat, checkperm: bool)
      requires Valid() && (checkperm ==> cpus[me].env.Some?)
      reads this, envs, cpus, mm, mm.phys, mm.data, mm.pages
    {
      e < NENV && (checkperm ==> cpus[me].env.value < NENV && MayAct(envs[..], cpus[me].env.value, e))
    }

    /** envid2env: 0 and the environment (none if there is no current one), or -E_BAD_ENV. */
    method Envid2Env(envid: EnvId, checkperm: bool) returns (r: int, e: Option<nat>)
      requires Valid() && (checkperm ==> cpus[me].env.Some?)
      ensures envid == 0 ==> r == 0 && e == cpus[me].env
      ensures r == 0 || (r == -E_BAD_ENV && e == None)
      ensures envid != 0 && r == 0 ==> e.Some? && Named(k.envs, envid, e.value) && Allowed(e.value, checkperm)
      ensures envid != 0 && r != 0 ==> forall s :: Named(k.envs, envid, s) ==> !Allowed(s, checkperm)
    {
      hide IdAfter, Inv, Coherent, MemoryManager.Repr, Sizes, FreeEnvs, Spaces;
      forall s | Named(k.envs, envid, s) ensures s == Envx(envid) && envid != 0 {
        OnlyItsSlot(k, envid, s);
      }
      var cur := cpus[me].env;
      if envid == 0 {
        return 0, cur;
      }
      var s := Envx(envid);
      if envs[s].status.Free? || envs[s].id != envid {
        return -E_BAD_ENV, None;
      }
      if checkperm && cur != Some(s) && envs[s].parent != envs[cur.value].id {
        return -E_BAD_ENV, None;
      }
      return 0, Some(s);
    }

    /** env_alloc: 0 and the slot, -E_NO_FREE_ENV, or -E_NO_MEM. */
    method EnvAlloc(parent: EnvId) returns (r: int, e: nat)
      requires Valid()
      modifies this, envs, mm, mm.phys, mm.data, mm.pages
      ensures Valid() && (k, r, e) == AllocEnv(old(k), parent)
      ensures r == 0 ==> e < NENV && Mach(k) == Mach(old(k)).(status := Mach(old(k)).status[e := Runnable])
      ensures r == 0 ==> k.envs[e].parent == parent && k.envs[e].runs == 0 == k.envs[e].eip
    {
      hide FreeEnvs, SetupVm, Inv, NoneFree, SameUser, MemoryManager.Repr, NextId, IdAfter, Envx, Spaces, Ids, Sees,
        Coherent, Shape, Sizes, UserMap;
      FrontIsFree(k.envs, k.head, k.fl);
      AllocEnvAgrees(k, parent);
      assert mm.Valid();
      hide Good, Agree;
      if envFreeList == None {
        return -E_NO_FREE_ENV, 0;
      }
      e := envFreeList.value;
      var d := SetupDir(mm);
      if d == None {
        k := k.(v := mm.v);
        return -E_NO_MEM, e;
      }
      var u := envs[e];
      envs[e] := u.(pgdir := d, id := NextId(u.id, e), parent := parent, status := Runnable, runs := 0, eip := 0);
      envFreeList := u.link;
      r := 0;
      k := AllocEnv(k, parent).0;
    }

    /**
     * env_free: gives back the address space of e, page by page, and puts e on the free list.  steps is the
     * run of page operations, all of them on that address space, that took memory there.
     */
    method EnvFree(e: nat) returns (ghost steps: seq<VmRuns.Step>)
      requires Repr() && Agree(k) && e < NENV && !k.envs[e].status.Free?
      modifies this, envs, cpus, mm, mm.phys, mm.pages
      ensures Repr() && Agree(k) && k == FreedEnv(old(k), e, k.v)
      ensures old(k.envs[e].pgdir.Some?)
      ensures var d := old(k.envs[e].pgdir.value);
        && VmRuns.Run(old(k).v, steps, k.v) && VmTeardown.AllOn(steps, d) && VmTeardown.AllReleasing(steps)
        && d < |k.v.mem| && k.v.kind[d] == Kind.Free && VmTeardown.TornDown(old(k).v, k.v, d)
      ensures Gone(old(k), k, e)
      ensures Mach(k) == FreeEnv(Mach(old(k)), me, e)
      ensures old(Good(k)) && old(cpus[me].env) != Some(e) ==> Good(k)
    {
      hide Inv, Coherent, MemoryManager.Repr, Good, Agree, VmRuns.Run, VmTeardown.AllOn, VmTeardown.AllReleasing,
          VmTeardown.TornDown, Gone, Mach, FreeEnv, SpaceGone,
          FreedEnv;
      ghost var k0, d := k, k.envs[e].pgdir;
      OthersNotInForce(k, e);
      AgreeIsCoherent(k);
      steps := GiveBack(e);
      RunIsSpaceGone(k0, e, d.value, steps, k.v);
      FreedEnvAgrees(k0, e, d.value, k.v);
      FreedIsGone(k0, e, k.v);
    }

    /** The body of env_free, as a change of the state alone. */
    method GiveBack(e: nat) returns (ghost steps: seq<VmRuns.Step>)
      requires Repr() && Inv(k.v) && Coherent(k.v) && k.me < |k.cpus| && e < |k.envs|
      requires k.envs[e].pgdir.Some? && EnvSpace(k.v, k.envs[e].pgdir.value)
      requires k.cpus[k.me].env == Some(e) || k.v.cr3 != k.envs[e].pgdir.value
      modifies this, envs, cpus, mm, mm.phys, mm.pages
      ensures Repr() && Inv(k.v) && Coherent(k.v) && k == FreedEnv(old(k), e, k.v)
      ensures var d := old(k).envs[e].pgdir.value;
        && VmRuns.Run(old(k).v, steps, k.v) && VmTeardown.AllOn(steps, d) && VmTeardown.AllReleasing(steps)
        && |k.v.mem| == |old(k).v.mem| && d < |k.v.mem| && k.v.kind[d] == Kind.Free
        && VmTeardown.TornDown(old(k).v, k.v, d)
      ensures k.v.cr3 == if old(k).cpus[k.me].env == Some(e) then old(k).v.kern else old(k).v.cr3
      ensures k.v.cur == if old(k).cpus[k.me].env == Some(e) then Some(0) else old(k).v.cur
    {
      hide Inv, Coherent, MemoryManager.Repr, VmRuns.Run, VmTeardown.AllOn, VmTeardown.AllReleasing,
        VmTeardown.TornDown;
      var d := envs[e].pgdir.value;
      var current := cpus[me].env == Some(e);
      if current {
        StoreCpu(cpus[me].(cr3 := None));
      }
      steps := FreeSpace(mm, d, current);
      k := k.(v := mm.v);
      PutOnList(e);
    }

    /** The end of env_free: e is on the free list, in front. */
    method PutOnList(e: nat)
      requires Repr() && e < |k.envs|
      modifies this, envs
      ensures Repr()
      ensures
        var u := old(k).envs[e].(status := Status.Free, link := old(k).head, pgdir := None);
        k == old(k).(envs := old(k).envs[e := u], head := Some(e), fl := old(k).fl + [e])
    {
      hide MemoryManager.Repr;
      StoreEnv(e, envs[e].(status := Status.Free, link := envFreeList, pgdir := None));
      envFreeList := Some(e);
      k := k.(head := Some(e), fl := k.fl + [e]);
    }

    /** The first step of env_run: the current environment, if RUNNING, becomes RUNNABLE. */
    method Preempt()
      requires Repr() && k.me < |k.cpus| && (k.cpus[k.me].env.Some? ==> k.cpus[k.me].env.value < |k.envs|)
      modifies this, envs
      ensures Repr() && k == old(k).(envs := Preempted(old(k).envs, old(k).cpus[k.me].env))
    {
      hide MemoryManager.Repr;
      var cur := cpus[me].env;
      if cur.Some? {
        if envs[cur.value].status == Running {
          StoreEnv(cur.value, envs[cur.value].(status := Runnable));
        }
      }
    }

    /** env_run. */
    method EnvRun(e: nat)
      requires Valid() && e < NENV && !k.envs[e].status.Free?
      modifies this, envs, cpus, mm
      ensures old(k.envs[e].pgdir.Some?) && Valid() && k == RunKernel(old(k), e)
      ensures Mach(k) == RunEnv(Mach(old(k)), me, e)
    {
      hide Inv, MemoryManager.Repr, Good, Agree, Mach, RunEnv, RunKernel;
      LiveHasDir(k, e);
      RunKernelIsGood(k, e);
      SwitchTo(e);
    }

    /** The body of env_run, as a change of the state alone. */
    method SwitchTo(e: nat)
      requires Repr() && k.me < |k.cpus| && e < |k.envs| && k.envs[e].pgdir.Some?
      requires k.cpus[k.me].env.Some? ==> k.cpus[k.me].env.value < |k.envs|
      modifies this, envs, cpus, mm
      ensures Repr() && k == RunKernel(old(k), e)
    {
      hide MemoryManager.Repr, LoadCr3, Bump, Preempted;
      ghost var n := RunKernel(k, e);
      var d := envs[e].pgdir.value;
      Preempt();
      SetCurrent(Some(e), Some(d));
      StoreEnv(e, envs[e].(status := Running));
      StoreEnv(e, envs[e].(runs := Bump(envs[e].runs)));
      LoadDir(d);
      StoreCpu(Cpu(Some(e), Some(e), User));
      Unlock();
      assert k.cpus == n.cpus && k.envs == n.envs && k.v == n.v;
    }

    /** sched_halt. */
    method SchedHalt()
      requires Valid()
      modifies this, cpus, mm
      ensures Valid() && k == HaltKernel(old(k)) && Mach(k) == Halt(Mach(old(k)), me)
    {
      hide FreeEnvs, Spaces, Ids, Inv, Shape, Sizes, Coherent, CpusInRange, Sees, MemoryManager.Repr;
      HaltKernelIsGood(k);
      KernDirIs();
      assert me < |k.cpus| && |k.envs| == NENV;
      ghost var st, n := Statuses(k.envs), HaltKernel(k);
      hide Good, Agree, Mach, Halt;
      var i := 0;
      while i < NENV && !(envs[i].status == Runnable || envs[i].status == Running || envs[i].status == Dying)
        invariant i <= NENV && forall j :: 0 <= j < i ==> st[j] != Runnable && st[j] != Running && st[j] != Dying
      {
        i := i + 1;
      }
      assert i < NENV ==> st[i] in st;
      if i == NENV {
        StoreCpu(cpus[me].(mode := Monitor));
      } else {
        SetCurrent(None, None);
        LoadDir(mm.kernPgdir);
        StoreCpu(Cpu(None, None, Halted));
        Unlock();
        assert k.cpus == n.cpus;
      }
    }

    /** sched_yield. */
    method SchedYield()
      requires Valid()
      modifies this, envs, cpus, mm
      ensures Valid() && k == YieldKernel(old(k)) && Mach(k) == Yield(Mach(old(k)), me)
    {
      hide FreeEnvs, Spaces, Ids, Inv, Shape, Sizes, Coherent, CpusInRange, Sees, MemoryManager.Repr, Statuses;
      hide RunKernel, HaltKernel, Pick, FirstProbed, Envx, Yield, RunEnv, Halt;
      YieldKernelIsGood(k);
      CurrentSlot(k);
      assert me < |k.cpus| && |k.envs| == NENV;
      hide Mach, Agree;
      var idx := 0;
      var cur := cpus[me].env;
      if cur.Some? {
        idx := Envx(envs[cur.value].id) + 1;
      }
      var found := FindRunnable(envs, idx);
      if found.Some? {
        EnvRun(found.value);
        return;
      }
      if cur.Some? && envs[cur.value].status == Running {
        EnvRun(cur.value);
        return;
      }
      SchedHalt();
    }

    /**
     * load_icode of the ELF file b into environment e.  On success the image and the stack page are in its
     * address space, it starts at e_entry, and nothing else has changed; with the free pages that it needs
     * and the magic number in place it succeeds.
     */
    method LoadIcode(e: nat, b: seq<Byte>) returns (ok: bool)
      requires Valid() && cpus[me].env == None && e < NENV && !k.envs[e].status.Free? && ValidElf(b)
      modifies this, envs, mm, mm.phys, mm.data, mm.pages
      ensures Repr() && Inv(old(k.v)) && |old(k.envs)| == NENV && |b| >= 52
      ensures old(k.envs[e].pgdir.Some?) && EnvSpace(old(k.v), old(k.envs[e].pgdir.value))
      ensures ok ==>
        && Valid() && Le32(b, 0) == ELF_MAGIC
        && k == old(k).(v := k.v, envs := old(k).envs[e := old(k).envs[e].(eip := Le32(b, 24))])
        && IcodeLoaded(old(k.v), k.v, old(k.envs[e].pgdir.value), b) && Mach(k) == Mach(old(k))
      ensures Le32(b, 0) == ELF_MAGIC && Room(old(k.v), old(k.envs[e].pgdir.value), b) ==>
        && ok && Lengths(k.v) && StackFresh(k.v, old(k.envs[e].pgdir.value))
        && VmTeardown.SameHeld(old(k.v), k.v)
    {
      hide Coherent, MemoryManager.Repr, FreeEnvs, Spaces, Ids, CpusInRange, Sees, Shape, Sizes;
      hide Le32, IcodeLoaded, StackFresh, Need, ValidElf, Steady, VmTeardown.SameHeld, Mach;
      HeaderFits(b);
      ghost var k0 := k;
      StartupSees(k, e);
      assert me < |k.cpus| && |k.envs| == NENV && Inv(k.v);
      hide Good, Agree, Inv;
      var d := envs[e].pgdir.value;
      ok := LoadImage(mm, d, b);
      if !ok {
        k := k.(v := mm.v);
        return;
      }
      IcodeMeans(k0.v, mm.v, d, b);
      LoadedIsGood(k0, e, mm.v, Le32(b, 24));
      envs[e] := envs[e].(eip := Le32(b, 24));
      k := k.(v := mm.v, envs := k.envs[e := k.envs[e].(eip := Le32(b, 24))]);
    }

    /** env_create: a new environment with parent 0 that will run the program in b. */
    method EnvCreate(b: seq<Byte>) returns (ok: bool, e: nat)
      requires Valid() && cpus[me].env == None && ValidElf(b)
      modifies this, envs, mm, mm.phys, mm.data, mm.pages
      ensures Repr() && |b| >= 52
      ensures ok ==> Valid() && AllocEnv(old(k), 0).1 == 0 && e == AllocEnv(old(k), 0).2
      ensures ok ==> Started(AllocEnv(old(k), 0).0, k, e, b)
      ensures ok ==> Mach(k) == Mach(old(k)).(status := Mach(old(k)).status[e := Runnable])
      ensures AllocEnv(old(k), 0).1 == 0 ==> HasSpace(AllocEnv(old(k), 0).0, AllocEnv(old(k), 0).2)
      ensures AllocEnv(old(k), 0).1 == 0 && RoomFor(AllocEnv(old(k), 0).0, AllocEnv(old(k), 0).2, b) ==>
        ok && StartedWhole(AllocEnv(old(k), 0).0, k, e)
    {
      hide Good, Agree, AllocEnv, Inv, MemoryManager.Repr, ValidElf, Need, Le32, IcodeLoaded, StackFresh, Mach,
        VmTeardown.SameHeld;
      HeaderFits(b);
      AllocEnvAgrees(k, 0);
      var r;
      r, e := EnvAlloc(0);
      if r != 0 {
        return false, e;
      }
      ok := LoadIcode(e, b);
    }

    /** env_destroy. */
    method EnvDestroy(e: nat)
      requires Valid() && e < NENV && !k.envs[e].status.Free?
      modifies this, envs, cpus, mm, mm.phys, mm.pages
      ensures Valid() && Mach(k) == Destroy(Mach(old(k)), me, e)
      ensures if old(envs[e].status == Running && cpus[me].env != Some(e)) then k == MarkDying(old(k), e)
              else Gone(old(k), k, e)
    {
      hide Inv, MemoryManager.Repr, Destroy, Gone, Good, Agree, Mach, FreedEnv, FreeEnv, ForgetEnv, Yield;
      if envs[e].status == Running && cpus[me].env != Some(e) {
        DyingIsGood(k, e);
        StoreEnv(e, envs[e].(status := Dying));
        return;
      }
      DestroyCases(k, e);
      FreeAndForget(e);
    }

    /** env_free, and another environment in place of e if that was current. */
    method FreeAndForget(e: nat)
      requires Valid() && e < NENV && !k.envs[e].status.Free?
      modifies this, envs, cpus, mm, mm.phys, mm.pages
      ensures Valid() && Gone(old(k), k, e)
      ensures var m := FreeEnv(Mach(old(k)), me, e);
        Mach(k) == if old(cpus[me].env) == Some(e) then Yield(ForgetEnv(m, me), me) else m
    {
      hide Inv, MemoryManager.Repr, Gone, Good, Agree, Mach, FreeEnv, ForgetEnv, Yield, VmTeardown.TornDown;
      ghost var k0 := k;
      var current := cpus[me].env == Some(e);
      ghost var steps := EnvFree(e);
      if current {
        ForgetAndYield(k0, e);
      }
    }

    /** curenv = NULL and sched_yield, after env_free of the current environment. */
    method ForgetAndYield(ghost k0: Kernel, ghost e: nat)
      requires Repr() && Agree(k) && k.cpus[k.me].cr3 == None && Gone(k0, k, e)
      modifies this, envs, cpus, mm
      ensures Valid() && Mach(k) == Yield(ForgetEnv(Mach(old(k)), me), me) && Gone(k0, k, e)
    {
      hide Inv, MemoryManager.Repr, Gone, Good, Agree, Mach, Yield, ForgetEnv;
      AgreeIsCoherent(k);
      ForgetIsGood(k);
      GoneStays(k0, k, Forget(k), e);
      SetCurrent(None, None);
      ghost var x := k;
      YieldOnlyRuns(x);
      SchedYield();
      GoneStays(k0, x, k, e);
    }

    /** lock_kernel, once the lock is free. */
    method LockKernel()
      requires Valid() && lock == None
      modifies this, cpus
      ensures Valid() && k == EnterKernel(old(k)) && Mach(k) == Enter(Mach(old(k)), me)
    {
      hide Inv, MemoryManager.Repr, Good, Agree, Mach, Enter;
      EnterIsGood(k);
      AgreeIsCoherent(k);
      cpus[me] := cpus[me].(mode := Mode.Kernel);
      lock := Some(me);
      k := EnterKernel(k);
    }

    /** mp_main: an application processor joins the scheduler. */
    method MpMain()
      requires Valid() && Possible(Mach(k), Step.Boot(me))
      modifies this, envs, cpus, mm
      ensures Valid() && old(Possible(Mach(k), Step.Boot(me))) && Mach(k) == After(Mach(old(k)), Step.Boot(me))
    {
      hide Good, MemoryManager.Repr, Yield, Enter;
      LockKernel();
      SchedYield();
    }

    /** trap from user mode, up to the dispatch: a zombie is collected on the CPU that ran it. */
    method Trap()
      requires Valid() && Possible(Mach(k), Step.Trap(me))
      modifies this, envs, cpus, mm, mm.phys, mm.pages
      ensures Valid() && old(Possible(Mach(k), Step.Trap(me))) && Mach(k) == After(Mach(old(k)), Step.Trap(me))
      ensures old(cpus[me].env.Some?) && old(cpus[me].env.value) < NENV
      ensures var e := old(cpus[me].env.value);
        if old(k).envs[e].status == Dying then Gone(EnterKernel(old(k)), k, e) else k == EnterKernel(old(k))
    {
      hide Good, Agree, Mach, Possible, After, MemoryManager.Repr, Yield, Enter, FreeEnv, ForgetEnv, Gone;
      TrapCases(k);
      var e := cpus[me].env.value;
      LockKernel();
      if envs[e].status == Dying {
        FreeAndForget(e);
      }
    }

    /** The end of trap. */
    method TrapReturn()
      requires Valid() && Possible(Mach(k), Step.Leave(me))
      modifies this, envs, cpus, mm
      ensures Valid() && old(Possible(Mach(k), Step.Leave(me))) && Mach(k) == After(Mach(old(k)), Step.Leave(me))
    {
      hide Good, Agree, MemoryManager.Repr, Yield, RunEnv, Mach, After, Possible, RunKernel, YieldKernel;
      LeaveIs(k);
      var cur := cpus[me].env;
      if cur.Some? && envs[cur.value].status == Running {
        EnvRun(cur.value);
      } else {
        SchedYield();
      }
    }
  }
}
