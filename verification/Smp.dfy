/**
 * Several CPUs running environments under the big kernel lock: env_run, env_destroy, sched_yield and
 * sched_halt, and the kernel entries that lead to them, as steps on the state of all CPUs.  Taking the lock
 * is atomic.
 */
module Smp {
  import opened Wrappers
  import opened EnvIds
  import opened EnvState
  import opened Sched

  /** Where a CPU is executing. */
  datatype Mode =
    | Off        // not started, or waiting in mp_main for the lock
    | Kernel     // in the kernel, holding the lock
    | User       // running its environment
    | Halted     // waiting for an interrupt (CPU_HALTED)
    | Monitor    // in the kernel monitor for good, holding the lock

  /** cpu_env, the environment whose page directory is in cr3 (none: kern_pgdir), and the mode. */
  datatype Cpu = Cpu(env: Option<nat>, cr3: Option<nat>, mode: Mode)

  datatype Machine = Machine(
    status: seq<Status>,     // env_status of every environment
    cpus: seq<Cpu>,
    lock: Option<nat>,       // the CPU that holds the kernel lock
    releases: nat)           // how often unlock_kernel was called

  ghost predicate Sized(m: Machine) {
    && |m.status| == NENV
    && (forall c :: 0 <= c < |m.cpus| ==> m.cpus[c].env.Some? ==> m.cpus[c].env.value < NENV)
    && (m.lock.Some? ==> m.lock.value < |m.cpus|)
  }

  /** CPU c is in the kernel. */
  ghost predicate InKernel(m: Machine, c: nat) {
    Sized(m) && c < |m.cpus| && m.cpus[c].mode == Kernel && m.lock == Some(c)
  }

  // ---- the kernel's own operations, on CPU c ----

  /** env_run. */
  ghost function RunEnv(m: Machine, c: nat, e: nat): (r: Machine)
    requires Sized(m) && c < |m.cpus| && e < NENV
    ensures |r.status| == NENV && |r.cpus| == |m.cpus|
  {
    var cur := m.cpus[c].env;
    var st := if cur.Some? && m.status[cur.value] == Running then m.status[cur.value := Runnable] else m.status;
    m.(status := st[e := Running],
       cpus := m.cpus[c := Cpu(Some(e), Some(e), User)],
       lock := None, releases := m.releases + 1)
  }

  /** sched_halt. */
  ghost function Halt(m: Machine, c: nat): Machine
    requires Sized(m) && c < |m.cpus|
  {
    if Runnable !in m.status && Running !in m.status && Dying !in m.status
    then m.(cpus := m.cpus[c := m.cpus[c].(mode := Monitor)])
    else m.(cpus := m.cpus[c := Cpu(None, None, Halted)], lock := None, releases := m.releases + 1)
  }

  /** The slot sched_yield starts from. */
  function ScanStart(cur: Option<nat>): nat { if cur.Some? then cur.value + 1 else 0 }

  /** sched_yield. */
  ghost function Yield(m: Machine, c: nat): Machine
    requires Sized(m) && c < |m.cpus|
  {
    var cur := m.cpus[c].env;
    match Pick(m.status, ScanStart(cur))
    case Some(e) => RunEnv(m, c, e)
    case None => if cur.Some? && m.status[cur.value] == Running then RunEnv(m, c, cur.value) else Halt(m, c)
  }

  /** env_free, as far as CPUs can tell: the directory of the current environment is not left in cr3. */
  ghost function FreeEnv(m: Machine, c: nat, e: nat): (r: Machine)
    requires Sized(m) && c < |m.cpus| && e < NENV
    ensures Sized(r) && |r.cpus| == |m.cpus|
  {
    m.(status := m.status[e := Free],
       cpus := if m.cpus[c].env == Some(e) then m.cpus[c := m.cpus[c].(cr3 := None)] else m.cpus)
  }

  ghost function ForgetEnv(m: Machine, c: nat): (r: Machine)
    requires Sized(m) && c < |m.cpus|
    ensures Sized(r) && |r.cpus| == |m.cpus|
  {
    m.(cpus := m.cpus[c := m.cpus[c].(env := None)])
  }

  /** env_destroy. */
  ghost function Destroy(m: Machine, c: nat, e: nat): Machine
    requires Sized(m) && c < |m.cpus| && e < NENV
  {
    if m.status[e] == Running && m.cpus[c].env != Some(e) then m.(status := m.status[e := Dying])
    else if m.cpus[c].env == Some(e) then Yield(ForgetEnv(FreeEnv(m, c, e), c), c)
    else FreeEnv(m, c, e)
  }

  // ---- steps ----

  datatype Step =
    | Boot(cpu: nat)                            // mp_main: take the lock and schedule
    | Trap(cpu: nat)                            // trap from user mode
    | Wake(cpu: nat)                            // interrupt of a halted CPU
    | Create(cpu: nat, env: nat, st: Status)    // env_alloc, RUNNABLE or, for sys_exofork, NOT_RUNNABLE
    | SetStatus(cpu: nat, env: nat, st: Status) // sys_env_set_status, sys_ipc_recv, sys_ipc_try_send
    | Kill(cpu: nat, env: nat)                  // env_destroy
    | GiveUp(cpu: nat)                          // sched_yield
    | Leave(cpu: nat)                           // the end of trap

  ghost predicate Lockable(m: Machine, c: nat, mode: Mode) {
    Sized(m) && c < |m.cpus| && m.cpus[c].mode == mode && m.lock == None
  }

  ghost function Enter(m: Machine, c: nat): (r: Machine)
    requires Sized(m) && c < |m.cpus|
    ensures Sized(r) && |r.cpus| == |m.cpus|
  {
    m.(lock := Some(c), cpus := m.cpus[c := m.cpus[c].(mode := Kernel)])
  }

  /** When a step can be taken.  Live environments only can be named by a system call. */
  ghost predicate Possible(m: Machine, s: Step) {
    match s
    case Boot(c) => Lockable(m, c, Off)
    case Trap(c) => Lockable(m, c, User) && m.cpus[c].env.Some?
    case Wake(c) => Lockable(m, c, Halted)
    case Create(c, e, st) =>
      InKernel(m, c) && e < NENV && m.status[e] == Free && (st == Runnable || st == NotRunnable)
    case SetStatus(c, e, st) =>
      InKernel(m, c) && e < NENV && m.status[e] != Free && (st == Runnable || st == NotRunnable)
    case Kill(c, e) => InKernel(m, c) && e < NENV && m.status[e] != Free
    case GiveUp(c) => InKernel(m, c)
    case Leave(c) => InKernel(m, c)
  }

  ghost function After(m: Machine, s: Step): Machine
    requires Possible(m, s)
  {
    match s
    case Boot(c) => Yield(Enter(m, c), c)
    case Trap(c) =>
      var w, e := Enter(m, c), m.cpus[c].env.value;
      if m.status[e] == Dying then Yield(ForgetEnv(FreeEnv(w, c, e), c), c) else w
    case Wake(c) => Enter(m, c)
    case Create(c, e, st) => m.(status := m.status[e := st])
    case SetStatus(c, e, st) => m.(status := m.status[e := st])
    case Kill(c, e) => Destroy(m, c, e)
    case GiveUp(c) => Yield(m, c)
    case Leave(c) =>
      var cur := m.cpus[c].env;
      if cur.Some? && m.status[cur.value] == Running then RunEnv(m, c, cur.value) else Yield(m, c)
  }

  // ---- safety ----

  /** The lock is held exactly by the one CPU that is in the kernel. */
  ghost predicate LockOk(m: Machine)
    requires Sized(m)
  {
    forall c :: 0 <= c < |m.cpus| ==> (m.cpus[c].mode == Kernel || m.cpus[c].mode == Monitor <==> m.lock == Some(c))
  }

  /** What CPU c may have as its environment. */
  ghost predicate CpuOk(m: Machine, c: nat)
    requires Sized(m) && c < |m.cpus|
  {
    var u := m.cpus[c];
    && (u.cr3.Some? ==> u.cr3 == u.env)
    && match u.mode
       case User => u.env.Some? && u.cr3 == u.env
           && (m.status[u.env.value] == Running || m.status[u.env.value] == Dying)
       case Kernel => u.env.Some? ==> m.status[u.env.value] != Free && m.status[u.env.value] != Dying
       case Monitor => u.env.Some? ==> m.status[u.env.value] == NotRunnable
       case _ => u.env == None
  }

  ghost predicate CpusOk(m: Machine)
    requires Sized(m)
  {
    forall c: nat :: c < |m.cpus| ==> CpuOk(m, c)
  }

  /** No environment is current on two CPUs. */
  ghost predicate Distinct(m: Machine)
    requires Sized(m)
  {
    forall c, o :: 0 <= c < |m.cpus| && 0 <= o < |m.cpus| && c != o && m.cpus[c].env.Some? ==>
      m.cpus[c].env != m.cpus[o].env
  }

  /** A running or dying environment is current on some CPU. */
  ghost predicate NoOrphans(m: Machine)
    requires Sized(m)
  {
    forall e :: 0 <= e < NENV && (m.status[e] == Running || m.status[e] == Dying) ==>
      exists c :: 0 <= c < |m.cpus| && m.cpus[c].env == Some(e)
  }

  /** The safety invariant. */
  ghost predicate Safe(m: Machine) {
    Sized(m) && LockOk(m) && CpusOk(m) && Distinct(m) && NoOrphans(m)
  }

  /** At a point where the lock is free, RUNNING and DYING mean: current on exactly one CPU, in user mode. */
  lemma SafeWhenUnlocked(m: Machine, e: nat)
    requires Safe(m) && m.lock == None && e < NENV
    ensures m.status[e] == Running || m.status[e] == Dying <==>
            exists c :: 0 <= c < |m.cpus| && m.cpus[c].env == Some(e) && m.cpus[c].mode == User
    ensures forall c, o :: 0 <= c < |m.cpus| && 0 <= o < |m.cpus| && m.cpus[c].env == Some(e) == m.cpus[o].env ==>
            c == o
  {
    forall c | 0 <= c < |m.cpus| && m.cpus[c].env == Some(e) ensures m.cpus[c].mode == User {
      assert CpuOk(m, c);
    }
    forall c | 0 <= c < |m.cpus| && m.cpus[c].env == Some(e) && m.cpus[c].mode == User
      ensures m.status[e] == Running || m.status[e] == Dying
    {
      assert CpuOk(m, c);
    }
  }

  /** No CPU ever runs on the page directory of a freed environment. */
  lemma DirectoriesInForceAreLive(m: Machine, c: nat)
    requires Safe(m) && c < |m.cpus| && m.cpus[c].cr3.Some?
    ensures m.cpus[c].cr3.value < NENV && m.status[m.cpus[c].cr3.value] != Free
  {
    assert CpuOk(m, c);
  }

  /** e is current on a CPU other than c; under Safe this can be read off the status of e. */
  ghost predicate RunsElsewhere(m: Machine, c: nat, e: nat)
    requires Sized(m) && c < |m.cpus| && e < NENV
  {
    (m.status[e] == Running || m.status[e] == Dying) && m.cpus[c].env != Some(e)
  }

  lemma RunsElsewhereIsCurrent(m: Machine, c: nat, e: nat)
    requires Safe(m) && InKernel(m, c) && e < NENV
    ensures RunsElsewhere(m, c, e) <==>
            exists o :: 0 <= o < |m.cpus| && o != c && m.cpus[o].env == Some(e)
  {
    forall o | 0 <= o < |m.cpus| && o != c && m.cpus[o].env == Some(e) ensures RunsElsewhere(m, c, e) {
      assert CpuOk(m, o);
    }
  }

  /** env_run of an environment that is not current on another CPU. */
  lemma RunKeepsSafe(m: Machine, c: nat, e: nat)
    requires Safe(m) && InKernel(m, c) && e < NENV
    requires m.status[e] == Runnable || (m.cpus[c].env == Some(e) && m.status[e] != Free && m.status[e] != Dying)
    ensures Safe(RunEnv(m, c, e)) && Left(m, RunEnv(m, c, e), c)
  {
    var r := RunEnv(m, c, e);
    RunsElsewhereIsCurrent(m, c, e);
    forall o: nat | o < |r.cpus| ensures CpuOk(r, o) {
      assert CpuOk(m, o);
    }
    hide NoOrphans;
    RunOrphansNone(m, c, e);
  }

  lemma RunOrphansNone(m: Machine, c: nat, e: nat)
    requires Safe(m) && InKernel(m, c) && e < NENV
    requires m.status[e] == Runnable || (m.cpus[c].env == Some(e) && m.status[e] != Free && m.status[e] != Dying)
    ensures NoOrphans(RunEnv(m, c, e))
  {
    var r := RunEnv(m, c, e);
    hide LockOk, Distinct;
    forall f | 0 <= f < NENV && (r.status[f] == Running || r.status[f] == Dying)
      ensures exists o :: 0 <= o < |r.cpus| && r.cpus[o].env == Some(f)
    {
      if f == e {
        assert r.cpus[c].env == Some(f);
      } else {
        var o :| 0 <= o < |m.cpus| && m.cpus[o].env == Some(f);
        assert CpuOk(m, o) && o != c;
        assert r.cpus[o].env == Some(f);
      }
    }
  }

  /** CPU c has left the kernel: it released the lock, once; or it is in the monitor and keeps the lock. */
  ghost predicate Left(m: Machine, r: Machine, c: nat) {
    && |r.cpus| == |m.cpus| && c < |r.cpus|
    && if r.cpus[c].mode == Monitor then r.lock == Some(c) && r.releases == m.releases
       else (r.cpus[c].mode == User || r.cpus[c].mode == Halted) && r.lock == None && r.releases == m.releases + 1
  }

  lemma HaltKeepsSafe(m: Machine, c: nat)
    requires Safe(m) && InKernel(m, c) && Runnable !in m.status
    requires m.cpus[c].env.Some? ==> m.status[m.cpus[c].env.value] == NotRunnable
    ensures Safe(Halt(m, c)) && Left(m, Halt(m, c), c)
  {
    var r := Halt(m, c);
    forall o: nat | o < |r.cpus| ensures CpuOk(r, o) {
      assert CpuOk(m, o);
    }
    forall f | 0 <= f < NENV && (r.status[f] == Running || r.status[f] == Dying)
      ensures exists o :: 0 <= o < |r.cpus| && r.cpus[o].env == Some(f)
    {
      var o :| 0 <= o < |m.cpus| && m.cpus[o].env == Some(f);
      assert r.cpus[o].env == Some(f);
    }
  }

  /**
   * Slot r is RUNNABLE, and the first such among the slots at distance 0, 1, 3, 6, 10, ... from the one right
   * behind the current environment, or from slot 0 if there is none.
   */
  ghost predicate FirstFrom(st: seq<Status>, cur: Option<nat>, r: nat)
    requires |st| == NENV
  {
    exists i :: 0 <= i < NENV && r == ProbedFrom(cur, i) && st[r] == Runnable
      && forall j :: 0 <= j < i ==> st[ProbedFrom(cur, j)] != Runnable
  }

  /** The slot at distance i * (i + 1) / 2. */
  function ProbedFrom(cur: Option<nat>, i: nat): (r: nat)
    ensures r < NENV
  {
    match cur case None => i * (i + 1) / 2 % NENV case Some(c) => (c + 1 + i * (i + 1) / 2) % NENV
  }

  lemma FirstIsFirstFrom(st: seq<Status>, cur: Option<nat>, r: nat)
    requires |st| == NENV && FirstProbed(st, ScanStart(cur), r)
    ensures FirstFrom(st, cur, r)
  {
    hide Probe;
    forall i: nat ensures Probe(NENV, ScanStart(cur), i) == ProbedFrom(cur, i) {
      ProbeIsTriangular(NENV, ScanStart(cur), i);
    }
    hide ProbedFrom;
    var i :| 0 <= i < NENV && Probe(NENV, ScanStart(cur), i) == r && st[r] == Runnable
      && forall j :: 0 <= j < i ==> st[Probe(NENV, ScanStart(cur), j)] != Runnable;
    assert r == ProbedFrom(cur, i);
  }

  /**
   * sched_yield: it stays safe and releases the lock exactly once, unless it ends in the monitor.  It runs
   * the first RUNNABLE environment of the probe sequence, which starts right behind the current one, else goes
   * on with the current one, else halts; it enters the monitor exactly when nothing is RUNNABLE, RUNNING or
   * DYING.
   */
  lemma YieldKeepsSafe(m: Machine, c: nat)
    requires Safe(m) && InKernel(m, c)
    ensures var r := Yield(m, c);
      && Safe(r) && Left(m, r, c)
      && (Runnable in m.status ==> r.cpus[c].mode == User && r.cpus[c].env.Some?)
      && (Runnable in m.status ==> FirstFrom(m.status, m.cpus[c].env, r.cpus[c].env.value))
      && (r.cpus[c].mode == Monitor <==>
            Runnable !in m.status && Running !in m.status && Dying !in m.status)
      && (forall e :: 0 <= e < NENV && m.status[e] == Dying ==> r.status[e] == Dying)
  {
    var cur := m.cpus[c].env;
    assert CpuOk(m, c);
    PickIsComplete(m.status, ScanStart(cur));
    if Pick(m.status, ScanStart(cur)).Some? {
      FirstIsFirstFrom(m.status, cur, Pick(m.status, ScanStart(cur)).value);
    }
    hide Safe, Pick, FirstProbed, FirstFrom;
    match Pick(m.status, ScanStart(cur))
    case Some(e) =>
      RunKeepsSafe(m, c, e);
    case None =>
      if cur.Some? && m.status[cur.value] == Running {
        RunKeepsSafe(m, c, cur.value);
        assert Running in m.status;
      } else {
        if cur.Some? {
          assert m.status[cur.value] in m.status;
        }
        HaltKeepsSafe(m, c);
      }
  }

  /** A RUNNABLE environment in the slot right behind the current one is the one run. */
  lemma NextIsRun(m: Machine, c: nat)
    requires Safe(m) && InKernel(m, c) && m.cpus[c].env.Some?
    ensures var next := (m.cpus[c].env.value + 1) % NENV;
      m.status[next] == Runnable ==> Yield(m, c).cpus[c].env == Some(next)
  {
    var cur, st, r := m.cpus[c].env, m.status, Yield(m, c);
    YieldKeepsSafe(m, c);
    hide Safe, Yield, FirstFrom, Left;
    var next := (cur.value + 1) % NENV;
    if st[next] == Runnable {
      assert st[next] in st;
      FirstIsNext(st, cur.value, r.cpus[c].env.value);
    }
  }

  lemma FirstIsNext(st: seq<Status>, cur: nat, r: nat)
    requires |st| == NENV && FirstFrom(st, Some(cur), r) && st[(cur + 1) % NENV] == Runnable
    ensures r == (cur + 1) % NENV
  {
    assert ProbedFrom(Some(cur), 0) == (cur + 1) % NENV;
    hide ProbedFrom;
  }

  /** Changing the status of an environment that is not current elsewhere, to one that need not be current. */
  lemma ChangeKeepsSafe(m: Machine, c: nat, e: nat, st: Status)
    requires Safe(m) && InKernel(m, c) && e < NENV && st != Running && st != Dying
    requires st == Free ==> m.cpus[c].env != Some(e)
    ensures Safe(m.(status := m.status[e := st])) <==> !RunsElsewhere(m, c, e)
  {
    var r := m.(status := m.status[e := st]);
    RunsElsewhereIsCurrent(m, c, e);
    if RunsElsewhere(m, c, e) {
      var o :| 0 <= o < |m.cpus| && o != c && m.cpus[o].env == Some(e);
      assert CpuOk(m, o) && !CpuOk(r, o);
    } else {
      forall o: nat | o < |r.cpus| ensures CpuOk(r, o) {
        assert CpuOk(m, o);
      }
      forall f | 0 <= f < NENV && (r.status[f] == Running || r.status[f] == Dying)
        ensures exists o :: 0 <= o < |r.cpus| && r.cpus[o].env == Some(f)
      {
        var o :| 0 <= o < |m.cpus| && m.cpus[o].env == Some(f);
        assert r.cpus[o].env == Some(f);
      }
    }
  }

  /** Taking the lock from a CPU that does not run a zombie. */
  lemma EnterKeepsSafe(m: Machine, c: nat)
    requires Safe(m) && c < |m.cpus| && m.lock == None
    requires m.cpus[c].env.Some? ==> m.status[m.cpus[c].env.value] != Dying
    ensures Safe(Enter(m, c)) && InKernel(Enter(m, c), c)
  {
    var r := Enter(m, c);
    forall o: nat | o < |r.cpus| ensures CpuOk(r, o) {
      assert CpuOk(m, o);
    }
    forall f | 0 <= f < NENV && (r.status[f] == Running || r.status[f] == Dying)
      ensures exists o :: 0 <= o < |r.cpus| && r.cpus[o].env == Some(f)
    {
      var o :| 0 <= o < |m.cpus| && m.cpus[o].env == Some(f);
      assert r.cpus[o].env == Some(f);
    }
  }

  /** w is m with CPU c in the kernel and its environment e gone. */
  ghost predicate Dropped(m: Machine, w: Machine, c: nat, e: nat) {
    && Sized(m) && Sized(w) && |w.cpus| == |m.cpus| && c < |m.cpus| && e < NENV
    && m.cpus[c].env == Some(e) && w.status == m.status[e := Free] && w.lock == Some(c)
    && w.cpus == m.cpus[c := Cpu(None, None, Kernel)]
  }

  /** env_free of the current environment, followed by curenv = NULL. */
  lemma DropKeepsSafe(m: Machine, w: Machine, c: nat, e: nat)
    requires Safe(m) && Dropped(m, w, c, e) && (m.lock == None || m.lock == Some(c))
    ensures Safe(w) && InKernel(w, c)
  {
    forall o: nat | o < |w.cpus| ensures CpuOk(w, o) {
      assert CpuOk(m, o) && CpuOk(m, c);
    }
    forall f | 0 <= f < NENV && (w.status[f] == Running || w.status[f] == Dying)
      ensures exists o :: 0 <= o < |w.cpus| && w.cpus[o].env == Some(f)
    {
      var o :| 0 <= o < |m.cpus| && m.cpus[o].env == Some(f);
      assert w.cpus[o].env == Some(f);
    }
  }

  /** Marking an environment that runs on another CPU as a zombie. */
  lemma DyingKeepsSafe(m: Machine, c: nat, e: nat)
    requires Safe(m) && InKernel(m, c) && e < NENV && m.status[e] == Running && m.cpus[c].env != Some(e)
    ensures Safe(m.(status := m.status[e := Dying]))
  {
    var r := m.(status := m.status[e := Dying]);
    forall o: nat | o < |r.cpus| ensures CpuOk(r, o) {
      assert CpuOk(m, o);
    }
    forall f | 0 <= f < NENV && (r.status[f] == Running || r.status[f] == Dying)
      ensures exists o :: 0 <= o < |r.cpus| && r.cpus[o].env == Some(f)
    {
      var o :| 0 <= o < |m.cpus| && m.cpus[o].env == Some(f);
      assert r.cpus[o].env == Some(f);
    }
  }

  /**
   * env_destroy is safe exactly if the environment is not a zombie already: a second env_destroy, before
   * the CPU that runs it has trapped, frees an address space that is in use there.
   */
  lemma DestroyKeepsSafe(m: Machine, c: nat, e: nat)
    requires Safe(m) && InKernel(m, c) && e < NENV && m.status[e] != Free
    ensures Safe(Destroy(m, c, e)) <==> m.status[e] != Dying
    ensures m.cpus[c].env == Some(e) ==> Left(m, Destroy(m, c, e), c)
  {
    assert CpuOk(m, c);
    if m.cpus[c].env == Some(e) {
      var w := ForgetEnv(FreeEnv(m, c, e), c);
      DropKeepsSafe(m, w, c, e);
      hide Safe;
      YieldKeepsSafe(w, c);
    } else if m.status[e] == Running {
      DyingKeepsSafe(m, c, e);
    } else {
      ChangeKeepsSafe(m, c, e, Free);
    }
  }

  /** The steps of system calls that the kernel does not restrict but should. */
  ghost predicate Permitted(m: Machine, s: Step)
    requires Possible(m, s)
  {
    match s
    case SetStatus(c, e, _) => !RunsElsewhere(m, c, e)
    case Kill(_, e) => m.status[e] != Dying
    case _ => true
  }

  /**
   * Every step keeps the machine safe exactly if sys_env_set_status (or an IPC wakeup) does not name an
   * environment that runs on another CPU and env_destroy does not name a zombie.
   */
  lemma StepKeepsSafe(m: Machine, s: Step)
    requires Safe(m) && Possible(m, s)
    ensures Safe(After(m, s)) <==> Permitted(m, s)
  {
    match s
    case Boot(c) =>
      assert CpuOk(m, c);
      EnterKeepsSafe(m, c);
      hide Safe;
      YieldKeepsSafe(Enter(m, c), c);
    case Trap(c) => TrapKeepsSafe(m, c);
    case Wake(c) =>
      assert CpuOk(m, c);
      EnterKeepsSafe(m, c);
    case Create(c, e, st) => ChangeKeepsSafe(m, c, e, st);
    case SetStatus(c, e, st) => ChangeKeepsSafe(m, c, e, st);
    case Kill(c, e) => DestroyKeepsSafe(m, c, e);
    case GiveUp(c) => YieldKeepsSafe(m, c);
    case Leave(c) => LeaveKeepsSafe(m, c);
  }

  /** trap from user mode collects the environment if it is a zombie. */
  lemma TrapKeepsSafe(m: Machine, c: nat)
    requires Safe(m) && Possible(m, Trap(c))
    ensures var r, e := After(m, Trap(c)), m.cpus[c].env.value;
      && Safe(r)
      && (m.status[e] == Dying ==> Left(m, r, c) && r.cpus[c].env != Some(e) && r.status[e] == Free)
  {
    var w, e := Enter(m, c), m.cpus[c].env.value;
    if m.status[e] == Dying {
      hide Safe, Yield;
      var x := TrapDrops(m, c);
      YieldKeepsSafe(x, c);
    } else {
      EnterKeepsSafe(m, c);
    }
  }

  /** The zombie is gone before sched_yield is called. */
  lemma TrapDrops(m: Machine, c: nat) returns (x: Machine)
    requires Safe(m) && Possible(m, Trap(c)) && m.status[m.cpus[c].env.value] == Dying
    ensures Safe(x) && InKernel(x, c) && x.cpus[c].env == None && |x.cpus| == |m.cpus|
    ensures x.status == m.status[m.cpus[c].env.value := Free] && After(m, Trap(c)) == Yield(x, c)
    ensures forall o :: 0 <= o < |m.cpus| && o != c ==> x.cpus[o] == m.cpus[o]
  {
    var e := m.cpus[c].env.value;
    x := ForgetEnv(FreeEnv(Enter(m, c), c, e), c);
    hide LockOk, Distinct, NoOrphans, Yield;
    assert Dropped(m, x, c, e);
    hide Safe;
    DropKeepsSafe(m, x, c, e);
  }

  lemma LeaveKeepsSafe(m: Machine, c: nat)
    requires Safe(m) && InKernel(m, c)
    ensures Safe(After(m, Leave(c))) && Left(m, After(m, Leave(c)), c)
  {
    var cur := m.cpus[c].env;
    var r := After(m, Leave(c));
    assert r == if cur.Some? && m.status[cur.value] == Running then RunEnv(m, c, cur.value) else Yield(m, c);
    hide *;
    if cur.Some? && m.status[cur.value] == Running {
      RunKeepsSafe(m, c, cur.value);
    } else {
      YieldKeepsSafe(m, c);
    }
  }

  /** A run of permitted steps. */
  // ---- what a step does to statuses ----

  /**
   * CPU c went on with some environment or halted: the one it runs is RUNNING, the one that was current and
   * RUNNING is RUNNABLE unless it runs again, and no other status and no other CPU has changed.
   */
  ghost predicate Switched(m: Machine, r: Machine, c: nat) {
    && |r.status| == |m.status| && |r.cpus| == |m.cpus| && c < |m.cpus|
    && (r.cpus[c].mode == User ==> r.cpus[c].env.Some?)
    && (forall o :: 0 <= o < |m.cpus| && o != c ==> r.cpus[o] == m.cpus[o])
    && (forall e :: 0 <= e < |m.status| ==>
          r.status[e] == if r.cpus[c].mode == User && r.cpus[c].env == Some(e) then Running
                         else if m.cpus[c].env == Some(e) && m.status[e] == Running then Runnable
                         else m.status[e])
  }

  /** The environment that CPU c runs was RUNNABLE, or was current and RUNNING. */
  ghost predicate FitToRun(m: Machine, r: Machine, c: nat)
    requires Sized(m) && c < |m.cpus| && c < |r.cpus|
  {
    r.cpus[c].mode == User && r.cpus[c].env.Some? ==>
      var e := r.cpus[c].env.value;
      e < NENV && (m.status[e] == Runnable || (m.status[e] == Running && m.cpus[c].env == Some(e)))
  }

  lemma YieldSwitches(m: Machine, c: nat)
    requires Safe(m) && InKernel(m, c)
    ensures Switched(m, Yield(m, c), c) && FitToRun(m, Yield(m, c), c)
  {
    var cur := m.cpus[c].env;
    PickIsComplete(m.status, ScanStart(cur));
    PickedIsRunnable(m.status, ScanStart(cur));
    assert CpuOk(m, c);
    hide Safe, Pick, FirstProbed, Switched, FitToRun, RunEnv, Halt;
    match Pick(m.status, ScanStart(cur))
    case Some(e) => RunSwitches(m, c, e);
    case None =>
      if cur.Some? && m.status[cur.value] == Running {
        RunSwitches(m, c, cur.value);
      } else {
        HaltSwitches(m, c);
      }
  }

  lemma PickedIsRunnable(st: seq<Status>, start: nat)
    requires |st| == NENV
    ensures Pick(st, start).Some? ==> Pick(st, start).value < NENV && st[Pick(st, start).value] == Runnable
  {
    PickIsComplete(st, start);
    hide Pick, Probe;
  }

  lemma RunSwitches(m: Machine, c: nat, e: nat)
    requires Sized(m) && c < |m.cpus| && e < NENV
    requires m.status[e] == Runnable || (m.status[e] == Running && m.cpus[c].env == Some(e))
    ensures Switched(m, RunEnv(m, c, e), c) && FitToRun(m, RunEnv(m, c, e), c)
  {
  }

  lemma HaltSwitches(m: Machine, c: nat)
    requires Sized(m) && c < |m.cpus| && m.cpus[c].mode == Kernel
    requires m.cpus[c].env.Some? ==> m.status[m.cpus[c].env.value] != Running
    ensures Switched(m, Halt(m, c), c) && FitToRun(m, Halt(m, c), c)
  {
  }

  /** What a step does to the status of every environment, and which of them its CPU goes on with. */
  ghost predicate Effect(m: Machine, s: Step, r: Machine)
    requires Possible(m, s)
  {
    match s
    case Boot(c) => Switched(m, r, c)
    case GiveUp(c) => Switched(m, r, c)
    case Wake(c) => Entered(m, r, c)
    case Trap(c) => (
      var e := m.cpus[c].env.value;
      if m.status[e] == Dying then Switched(m.(status := m.status[e := Free]), r, c) else Entered(m, r, c))
    case Leave(c) => (
      var cur := m.cpus[c].env;
      && Switched(m, r, c)
      && (cur.Some? && m.status[cur.value] == Running ==> r.cpus[c].mode == User && r.cpus[c].env == cur))
    case Kill(c, e) => (
      if m.status[e] == Running && m.cpus[c].env != Some(e) then r == m.(status := m.status[e := Dying])
      else if m.cpus[c].env == Some(e) then Switched(m.(status := m.status[e := Free]), r, c)
      else r == m.(status := m.status[e := Free]))
    case Create(_, e, st) => r == m.(status := m.status[e := st])
    case SetStatus(_, e, st) => r == m.(status := m.status[e := st])
  }

  /** CPU c is in the kernel, with its environment, and nothing has changed otherwise. */
  ghost predicate Entered(m: Machine, r: Machine, c: nat) {
    && c < |m.cpus| && r.status == m.status && r.cpus == m.cpus[c := m.cpus[c].(mode := Kernel)]
    && r.lock == Some(c) && r.releases == m.releases
  }

  /** Every step has that effect. */
  lemma StepStatuses(m: Machine, s: Step)
    requires Safe(m) && Possible(m, s)
    ensures Effect(m, s, After(m, s))
  {
    hide Safe, Switched;
    match s
    case Boot(c) => BootSwitches(m, c);
    case GiveUp(c) => YieldSwitches(m, c);
    case Trap(c) => TrapSwitches(m, c);
    case Leave(c) => LeaveSwitches(m, c);
    case Kill(c, e) => KillSwitches(m, c, e);
    case _ =>
  }

  lemma BootSwitches(m: Machine, c: nat)
    requires Safe(m) && Possible(m, Boot(c))
    ensures Switched(m, After(m, Boot(c)), c)
  {
    assert CpuOk(m, c);
    EnterKeepsSafe(m, c);
    hide Safe, Yield;
    YieldSwitches(Enter(m, c), c);
  }

  lemma TrapSwitches(m: Machine, c: nat)
    requires Safe(m) && Possible(m, Trap(c))
    ensures Effect(m, Trap(c), After(m, Trap(c)))
  {
    hide Safe, Yield;
    if m.status[m.cpus[c].env.value] == Dying {
      var x := TrapDrops(m, c);
      YieldSwitches(x, c);
      SwitchedFrom(m, x, After(m, Trap(c)), c, m.cpus[c].env.value);
    }
  }

  lemma LeaveSwitches(m: Machine, c: nat)
    requires Safe(m) && Possible(m, Leave(c))
    ensures Effect(m, Leave(c), After(m, Leave(c)))
  {
    assert CpuOk(m, c);
    hide Safe, Yield;
    YieldSwitches(m, c);
  }

  lemma KillSwitches(m: Machine, c: nat, e: nat)
    requires Safe(m) && Possible(m, Kill(c, e))
    ensures Effect(m, Kill(c, e), After(m, Kill(c, e)))
  {
    assert CpuOk(m, c);
    hide Yield;
    if m.cpus[c].env == Some(e) {
      var w := ForgetEnv(FreeEnv(m, c, e), c);
      DropKeepsSafe(m, w, c, e);
      hide Safe;
      YieldSwitches(w, c);
      SwitchedFrom(m, w, After(m, Kill(c, e)), c, e);
    }
  }

  /** x is m without its environment e on CPU c. */
  lemma SwitchedFrom(m: Machine, x: Machine, r: Machine, c: nat, e: nat)
    requires Switched(x, r, c) && c < |m.cpus| && m.cpus[c].env == Some(e) && e < |m.status|
    requires x.status == m.status[e := Free] && |x.cpus| == |m.cpus| && x.cpus[c].env == None
    requires forall o :: 0 <= o < |m.cpus| && o != c ==> x.cpus[o] == m.cpus[o]
    ensures Switched(m.(status := m.status[e := Free]), r, c)
  {
  }

  // ---- runs ----

  ghost predicate Run(m: Machine, steps: seq<Step>, r: Machine)
    decreases |steps|
  {
    if steps == [] then r == m
    else Possible(m, steps[0]) && Permitted(m, steps[0]) && Run(After(m, steps[0]), steps[1..], r)
  }

  /** The machine when i386_init reaches boot_aps: the boot CPU holds the lock, nothing runs. */
  ghost predicate Initial(m: Machine) {
    && |m.status| == NENV && 0 < |m.cpus|
    && (forall e :: 0 <= e < NENV ==> m.status[e] == Free)
    && m.lock == Some(0) && m.cpus[0] == Cpu(None, None, Kernel)
    && (forall c :: 0 < c < |m.cpus| ==> m.cpus[c] == Cpu(None, None, Off))
  }

  /** Safety over all runs. */
  lemma {:induction false} RunsAreSafe(m: Machine, steps: seq<Step>, r: Machine)
    requires Run(m, steps, r) && (Safe(m) || Initial(m))
    ensures Safe(r)
    decreases |steps|
  {
    if Initial(m) {
      assert Safe(m);
    }
    if steps == [] {
    } else {
      StepKeepsSafe(m, steps[0]);
      hide Safe, Initial;
      RunsAreSafe(After(m, steps[0]), steps[1..], r);
    }
  }

  /** A zombie is never scheduled: it stays DYING until the CPU that runs it traps, which frees it. */
  lemma ZombiesAreNotScheduled(m: Machine, s: Step, e: nat)
    requires Safe(m) && Possible(m, s) && Permitted(m, s) && e < NENV && m.status[e] == Dying
    ensures var r := After(m, s);
      if s.Trap? && m.cpus[s.cpu].env == Some(e) then r.status[e] == Free && r.cpus[s.cpu].env != Some(e)
      else r.status[e] == Dying
  {
    match s
    case Boot(c) =>
      assert CpuOk(m, c);
      EnterKeepsSafe(m, c);
      hide Safe, Yield;
      YieldKeepsSafe(Enter(m, c), c);
    case Trap(c) => TrapLeavesZombies(m, c, e);
    case Wake(_) =>
    case Create(_, _, _) =>
    case SetStatus(c, f, _) => assert CpuOk(m, c);
    case Kill(c, f) => KillLeavesZombies(m, c, f, e);
    case GiveUp(c) => YieldKeepsSafe(m, c);
    case Leave(c) =>
      assert CpuOk(m, c);
      hide Safe, Yield;
      YieldKeepsSafe(m, c);
  }

  lemma TrapLeavesZombies(m: Machine, c: nat, e: nat)
    requires Safe(m) && Possible(m, Trap(c)) && e < NENV && m.status[e] == Dying
    ensures var r := After(m, Trap(c));
      if m.cpus[c].env == Some(e) then r.status[e] == Free && r.cpus[c].env != Some(e) else r.status[e] == Dying
  {
    TrapKeepsSafe(m, c);
    var f := m.cpus[c].env.value;
    if m.status[f] == Dying {
      hide Safe, Yield;
      var x := TrapDrops(m, c);
      YieldKeepsSafe(x, c);
    }
  }

  lemma KillLeavesZombies(m: Machine, c: nat, f: nat, e: nat)
    requires Safe(m) && InKernel(m, c) && f < NENV && m.status[f] != Free && m.status[f] != Dying
    requires e < NENV && m.status[e] == Dying
    ensures Destroy(m, c, f).status[e] == Dying
  {
    assert CpuOk(m, c);
    if m.cpus[c].env == Some(f) {
      var w := ForgetEnv(FreeEnv(m, c, f), c);
      DropKeepsSafe(m, w, c, f);
      hide Safe, Yield;
      YieldKeepsSafe(w, c);
    }
  }

  /**
   * What goes wrong without the restriction: a parent that marks its running child RUNNABLE, when nothing
   * else is, and then yields runs the child on a second CPU.
   */
  lemma SetStatusRunsTwice(m: Machine, c: nat, e: nat)
    requires Safe(m) && InKernel(m, c) && e < NENV && RunsElsewhere(m, c, e) && Runnable !in m.status
    ensures var x := After(m, SetStatus(c, e, Runnable));
      && Possible(x, GiveUp(c))
      && var r := After(x, GiveUp(c));
      && r.cpus[c].env == Some(e) && r.cpus[c].mode == User
      && exists o :: 0 <= o < |r.cpus| && o != c && r.cpus[o].env == Some(e) && r.cpus[o].mode == User
  {
    RunsElsewhereIsCurrent(m, c, e);
    var o :| 0 <= o < |m.cpus| && o != c && m.cpus[o].env == Some(e);
    assert CpuOk(m, o);
    var x := After(m, SetStatus(c, e, Runnable));
    PickIsComplete(x.status, ScanStart(x.cpus[c].env));
    assert x.status[e] in x.status;
    forall f | 0 <= f < NENV && f != e ensures x.status[f] != Runnable {
      assert m.status[f] in m.status;
    }
    assert RunEnv(x, c, e).cpus[o] == m.cpus[o];
  }

  /** ... and a second env_destroy of a zombie leaves a CPU running on a freed page directory. */
  lemma SecondDestroyFreesInUse(m: Machine, c: nat, e: nat)
    requires Safe(m) && InKernel(m, c) && e < NENV && m.status[e] == Dying
    ensures var r := Destroy(m, c, e);
      && r.status[e] == Free
      && exists o :: 0 <= o < |r.cpus| && r.cpus[o].mode == User && r.cpus[o].cr3 == Some(e)
  {
    assert CpuOk(m, c);
    RunsElsewhereIsCurrent(m, c, e);
    var o :| 0 <= o < |m.cpus| && o != c && m.cpus[o].env == Some(e);
    assert CpuOk(m, o);
    assert Destroy(m, c, e).cpus[o] == m.cpus[o];
  }
}
