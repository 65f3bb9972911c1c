/** struct Env of inc/env.h: the fields of an environment that kern/env.c and kern/sched.c work on. */
module EnvState {
  import opened Wrappers
  import opened Mmu
  import opened EnvIds

  datatype Status = Free | Dying | Runnable | Running | NotRunnable

  datatype Env = Env(
    id: EnvId,              // env_id
    parent: EnvId,          // env_parent_id
    status: Status,         // env_status
    runs: Word,             // env_runs
    link: Option<nat>,      // env_link: the next free environment
    pgdir: Option<nat>,     // env_pgdir: the frame of the page directory
    eip: Word)              // env_tf.tf_eip

  /** env_runs += 1. */
  function Bump(runs: Word): Word { (runs + 1) % 0x1_0000_0000 }

  function Statuses(envs: seq<Env>): (r: seq<Status>)
    ensures |r| == |envs| && forall e :: 0 <= e < |envs| ==> r[e] == envs[e].status
  {
    seq(|envs|, e requires 0 <= e < |envs| => envs[e].status)
  }
}
