/** What every reachable kernel state satisfies. */
module TaskInvariant {
  import opened Sequences
  import opened TaskState

  /** Every tag is on the one queue its `at` names, once. */
  ghost predicate Queues(k: Kernel) {
    && NoDup(k.ready)
    && (forall i | 0 <= i < |k.ready| :: k.ready[i] in k.tasks && k.tasks[k.ready[i]].at == InReady)
    && (forall t {:trigger t in k.ready} | t in k.tasks && k.tasks[t].at == InReady :: t in k.ready)
    && (forall s {:trigger SemQueue(k, s)} | s in k.sems :: SemQueue(k, s))
    && (forall t | t in k.tasks && k.tasks[t].at.InSem? ::
          k.tasks[t].at.s in k.sems && t in k.sems[k.tasks[t].at.s].waiters)
    && (forall r | r in k.slots :: k.slots[r] in k.tasks && k.tasks[k.slots[r]].at == InSlot(r))
    && (forall t | t in k.tasks && k.tasks[t].at.InSlot? ::
          k.tasks[t].at.r in k.slots && k.slots[k.tasks[t].at.r] == t)
  }

  ghost predicate SemQueue(k: Kernel, s: Sid)
    requires s in k.sems
  {
    var w := k.sems[s].waiters;
    NoDup(w) && forall i | 0 <= i < |w| :: w[i] in k.tasks && k.tasks[w[i]].at == InSem(s)
  }

  /** Status, queue and resume point of one task agree.  `woken` marks the parent `sys_exit` is about to run. */
  ghost predicate TaskOk(k: Kernel, t: Tid, x: Task, woken: bool) {
    && (x.status == Running <==> x.at == OnCpu)
    && (x.at == InReady ==> x.status == Ready || x.status == Blocked || (woken && x.status == Waiting))
    && (x.at.InSem? ==> x.status == Blocked && x.resume == Retest(x.at.s))
    && (x.at.InSlot? ==> x.status == Blocked && x.resume == Go)
    && (x.at == Off ==> x.status == Waiting || x.status == Hanging || (t == k.idle && x.status == Blocked))
    && (x.status == Waiting ==> x.resume == Rescan && (x.at == Off || woken))
    && (x.resume == Gone <==> x.status == Hanging)
    && (x.status == Hanging ==> x.at == Off && x.exiting && x.inside == {})
    && (x.resume == IdleLoop <==> t == k.idle)
    && (x.resume.Retest? ==> x.resume.s in k.sems)
    && (t == k.idle || t == k.init ==> !x.exiting)
  }

  ghost predicate PlaceOk(k: Kernel, t: Tid)
    requires t in k.tasks
  {
    TaskOk(k, t, k.tasks[t], false) && (t == k.cpu <==> k.tasks[t].at == OnCpu)
  }

  ghost predicate Places(k: Kernel) {
    && k.cpu in k.tasks && k.idle in k.tasks && k.init in k.tasks
    && forall t {:trigger PlaceOk(k, t)} | t in k.tasks :: PlaceOk(k, t)
  }

  /** One task inside a block or yield: the old task is parked and nobody runs. */
  ghost predicate ParkOk(k: Kernel, t: Tid)
    requires t in k.tasks
  {
    TaskOk(k, t, k.tasks[t], k.ready != [] && t == k.ready[0]) && k.tasks[t].at != OnCpu
  }

  ghost predicate Parked(k: Kernel) {
    && k.cpu in k.tasks && k.idle in k.tasks && k.init in k.tasks
    && forall t {:trigger ParkOk(k, t)} | t in k.tasks :: ParkOk(k, t)
  }

  /** Somebody popped by an earlier `sema_up` has yet to re-test. */
  ghost predicate Pending(k: Kernel, s: Sid, t: Tid) {
    t in k.tasks && k.tasks[t].resume == Retest(s) && (k.tasks[t].at == InReady || k.tasks[t].at == OnCpu)
  }

  predicate Inside(k: Kernel, s: Sid, t: Tid) {
    t in k.tasks && s in k.tasks[t].inside
  }

  ghost predicate SemOk(k: Kernel, s: Sid)
    requires s in k.sems
  {
    && k.sems[s].value <= 1
    && (k.sems[s].value == 1 && k.sems[s].waiters != [] ==> exists t :: Pending(k, s, t))
    && (k.sems[s].mutex && k.sems[s].value == 0 ==> exists t :: Inside(k, s, t))
    && (k.sems[s].value == 1 || !k.sems[s].mutex ==> forall t :: !Inside(k, s, t))
    && (forall t, u | Inside(k, s, t) && Inside(k, s, u) :: t == u)
  }

  ghost predicate Sems(k: Kernel) {
    && (forall s {:trigger SemOk(k, s)} | s in k.sems :: SemOk(k, s))
    && (forall t, s {:trigger Inside(k, s, t)} | Inside(k, s, t) :: s in k.sems)
  }

  /** `p` occurs in `all` before position `i`. */
  ghost predicate Earlier(all: seq<Tid>, p: Tid, i: nat)
    requires i <= |all|
  {
    exists j | 0 <= j < i :: all[j] == p
  }

  ghost predicate ParentOk(k: Kernel, t: Tid)
    requires t in k.tasks
  {
    var p := k.tasks[t].parent;
    p in k.tasks && !k.tasks[p].exiting && (t != k.idle ==> p != k.idle)
  }

  /** all_tasks_list lists every task once, parents before children; an exiting task has no children. */
  ghost predicate Forest(k: Kernel) {
    && NoDup(k.all) && |k.all| >= 2 && k.all[0] == k.idle && k.all[1] == k.init
    && (forall i {:trigger k.all[i]} | 0 <= i < |k.all| :: k.all[i] in k.tasks)
    && (forall t {:trigger t in k.all} | t in k.tasks :: t in k.all)
    && k.tasks[k.idle].parent == k.idle && k.tasks[k.init].parent == k.init
    && (forall i {:trigger Earlier(k.all, k.tasks[k.all[i]].parent, i)} | 2 <= i < |k.all| ::
          Earlier(k.all, k.tasks[k.all[i]].parent, i))
    && (forall t {:trigger ParentOk(k, t)} | t in k.tasks :: ParentOk(k, t))
  }

  ghost predicate PidOk(k: Kernel, t: Tid)
    requires t in k.tasks
  {
    k.tasks[t].pid in k.pids && k.tasks[t].pid < PID_COUNT
  }

  ghost predicate PidsDiffer(k: Kernel, t: Tid, u: Tid)
    requires t in k.tasks && u in k.tasks
  {
    k.tasks[t].pid == k.tasks[u].pid ==> t == u
  }

  /** Listed tasks have different pids, all marked, and there are as many marks as tasks. */
  ghost predicate Pids(k: Kernel) {
    && (forall t {:trigger PidOk(k, t)} | t in k.tasks :: PidOk(k, t))
    && (forall t, u {:trigger PidsDiffer(k, t, u)} | t in k.tasks && u in k.tasks :: PidsDiffer(k, t, u))
    && |k.pids| == |k.tasks| <= KERNEL_PAGES
    && k.idle in k.tasks && k.tasks[k.idle].pid == 0 && k.init in k.tasks && k.tasks[k.init].pid == 1
  }

  /** If `t` is a zombie, its parent (other than init) is not asleep in `sys_wait`. */
  ghost predicate NotMissed(k: Kernel, t: Tid)
    requires t in k.tasks
  {
    var p := k.tasks[t].parent;
    k.tasks[t].status == Hanging && p != k.init && p in k.tasks ==>
      !(k.tasks[p].status == Waiting && k.tasks[p].at == Off)
  }

  ghost predicate NoZombieMissed(k: Kernel) {
    forall t {:trigger NotMissed(k, t)} | t in k.tasks :: NotMissed(k, t)
  }

  ghost predicate Inv(k: Kernel) {
    Queues(k) && Places(k) && Sems(k) && Forest(k) && Pids(k) && NoZombieMissed(k)
  }

  ghost predicate Mid(k: Kernel) {
    Queues(k) && Parked(k) && Sems(k) && Forest(k) && Pids(k) && NoZombieMissed(k)
  }

  /** Tasks that have exited and wait to be collected. */
  function Zombies(k: Kernel): set<Tid> {
    set t | t in k.tasks && k.tasks[t].status == Hanging
  }
}
