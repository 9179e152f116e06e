/** The state shared by `task/task.c`, `task/sync.c`, `userprog/wait_exit.c` and the timer, as a value. */
module TaskState {
  import opened Sequences

  type Tid = nat
  type Sid = nat
  type Rid = nat

  /** `enum task_status`; a died task is no longer in the state. */
  datatype Status = Running | Ready | Blocked | Hanging | Waiting

  /** Which queue, if any, the task's `general_tag` is on. */
  datatype Place = OnCpu | InReady | InSem(s: Sid) | InSlot(r: Rid) | Off

  /** Where the task's kernel stack resumes when it is next switched to. */
  datatype Resume = Go | Retest(s: Sid) | Rescan | IdleLoop | Gone

  // `at`, `resume`, `inside` and `exiting` are bookkeeping of the model: the first two
  // stand for the tag's links and the saved stack, the others for a program's position.
  // `code` is the exit status.
  datatype Task = Task(pid: nat, parent: Tid, prio: nat, ticks: nat, status: Status,
                       at: Place, resume: Resume, inside: set<Sid>, exiting: bool, code: int)

  // A mutex starts at 1 and its downs and ups are paired; an event starts at 0 and is upped by a device.
  datatype Sem = Sem(value: nat, waiters: seq<Tid>, mutex: bool)

  datatype Kernel = Kernel(cpu: Tid, idle: Tid, init: Tid, ready: seq<Tid>, all: seq<Tid>,
                           tasks: map<Tid, Task>, sems: map<Sid, Sem>, slots: map<Rid, Tid>, pids: set<nat>)

  // 31 bytes of page bitmap; every live task holds at least the page of its task_struct.
  const KERNEL_PAGES: nat := 248
  const PID_COUNT: nat := 1024

  function Put(k: Kernel, t: Tid, x: Task): Kernel {
    k.(tasks := k.tasks[t := x])
  }

  // ----- task/task.c

  /** `schedule` on a running task first gives its quantum back and queues it. */
  function Requeue(k: Kernel): Kernel
    requires k.cpu in k.tasks
  {
    var c := k.tasks[k.cpu];
    if c.status == Running then
      Put(k, k.cpu, c.(status := Ready, ticks := c.prio, at := InReady)).(ready := k.ready + [k.cpu])
    else k
  }

  /** `task_unblock`: to the head of the ready list, status untouched. */
  function Unblock(k: Kernel, t: Tid): Kernel
    requires t in k.tasks
  {
    Put(k, t, k.tasks[t].(at := InReady)).(ready := [t] + k.ready)
  }

  function Dispatch(k: Kernel): Kernel
    requires k.ready != [] && k.ready[0] in k.tasks
  {
    var next := k.ready[0];
    Put(k, next, k.tasks[next].(status := Running, at := OnCpu)).(cpu := next, ready := k.ready[1..])
  }

  function WakeIdle(k: Kernel): Kernel
    requires k.idle in k.tasks
  {
    if k.ready == [] then Unblock(k, k.idle) else k
  }

  ghost predicate CanSchedule(k: Kernel) {
    k.cpu in k.tasks && k.idle in k.tasks && forall i | 0 <= i < |k.ready| :: k.ready[i] in k.tasks
  }

  function Schedule(k: Kernel): Kernel
    requires CanSchedule(k)
  {
    Dispatch(WakeIdle(Requeue(k)))
  }

  /** The running task leaves the processor with a given status, onto a given queue. */
  function Park(k: Kernel, status: Status, at: Place, resume: Resume): Kernel
    requires k.cpu in k.tasks
  {
    Put(k, k.cpu, k.tasks[k.cpu].(status := status, at := at, resume := resume))
  }

  function Block(k: Kernel, status: Status, at: Place, resume: Resume): Kernel
    requires CanSchedule(k) && status != Running
  {
    Schedule(Park(k, status, at, resume))
  }

  function Yield(k: Kernel): Kernel
    requires CanSchedule(k)
  {
    Schedule(Put(k, k.cpu, k.tasks[k.cpu].(status := Ready, at := InReady)).(ready := k.ready + [k.cpu]))
  }

  /** The timer interrupt. */
  function Tick(k: Kernel): Kernel
    requires CanSchedule(k)
  {
    var c := k.tasks[k.cpu];
    if c.ticks == 0 then Schedule(k) else Put(k, k.cpu, c.(ticks := c.ticks - 1))
  }

  // ----- task/sync.c

  /** One pass of the loop in `sema_down`, up to the next block or the end of the call. */
  function DownTry(k: Kernel, s: Sid): Kernel
    requires CanSchedule(k) && s in k.sems
  {
    var sem, c := k.sems[s], k.tasks[k.cpu];
    if sem.value == 0 then
      Block(k.(sems := k.sems[s := sem.(waiters := sem.waiters + [k.cpu])]), Blocked, InSem(s), Retest(s))
    else
      Put(k, k.cpu, c.(resume := Go, inside := if sem.mutex then c.inside + {s} else c.inside))
        .(sems := k.sems[s := sem.(value := sem.value - 1)])
  }

  function Up(k: Kernel, s: Sid): Kernel
    requires s in k.sems && k.cpu in k.tasks
    requires k.sems[s].waiters != [] ==> k.sems[s].waiters[0] in k.tasks
  {
    var sem := k.sems[s];
    var rest := if sem.waiters == [] then [] else sem.waiters[1..];
    var k1 := k.(sems := k.sems[s := sem.(value := sem.value + 1, waiters := rest)]);
    var k2 := if sem.waiters == [] then k1 else Unblock(k1, sem.waiters[0]);
    Put(k2, k.cpu, k2.tasks[k.cpu].(inside := k2.tasks[k.cpu].inside - {s}))
  }

  // ----- the waiter slots of device/ioqueue.c (`ioq_wait` and `wakeup`)

  function SlotWait(k: Kernel, r: Rid): Kernel
    requires CanSchedule(k)
  {
    Block(k.(slots := k.slots[r := k.cpu]), Blocked, InSlot(r), Go)
  }

  function SlotWake(k: Kernel, r: Rid): Kernel
    requires r in k.slots && k.slots[r] in k.tasks
  {
    Unblock(k, k.slots[r]).(slots := k.slots - {r})
  }

  // ----- processes

  /** First fit with one bit asked for. */
  function LeastFree(used: set<nat>, from: nat): nat
    decreases PID_COUNT - from
  {
    if from >= PID_COUNT || from !in used then from else LeastFree(used, from + 1)
  }

  /** `create_task` called by `sys_clone`; `t` is the fresh page of the new task. */
  function Clone(k: Kernel, t: Tid, prio: nat): Kernel
    requires k.cpu in k.tasks
  {
    var pid := LeastFree(k.pids, 0);
    var x := Task(pid, if pid > 1 then k.cpu else t, prio, prio, Ready, InReady, Go, {}, false, 0);
    Put(k, t, x).(ready := k.ready + [t], all := k.all + [t], pids := k.pids + {pid})
  }

  predicate HangingChild(k: Kernel, t: Tid, parent: Tid) {
    t in k.tasks && k.tasks[t].parent == parent && k.tasks[t].status == Hanging
  }

  predicate ChildOf(k: Kernel, t: Tid, parent: Tid) {
    t in k.tasks && k.tasks[t].parent == parent
  }

  /** First task of `all` from `i` on that satisfies the test of `find_hanging_child`, or `|all|`. */
  function FirstZombie(k: Kernel, i: nat): (r: nat)
    requires i <= |k.all|
    ensures i <= r <= |k.all|
    ensures r < |k.all| ==> HangingChild(k, k.all[r], k.cpu)
    ensures forall j | i <= j < r :: !HangingChild(k, k.all[j], k.cpu)
    decreases |k.all| - i
  {
    if i == |k.all| || HangingChild(k, k.all[i], k.cpu) then i else FirstZombie(k, i + 1)
  }

  predicate HasChild(k: Kernel) {
    exists i | 0 <= i < |k.all| :: ChildOf(k, k.all[i], k.cpu)
  }

  function Reap(k: Kernel, t: Tid): Kernel
    requires t in k.tasks
  {
    k.(ready := Without(k.ready, t), all := Without(k.all, t),
       pids := k.pids - {k.tasks[t].pid}, tasks := k.tasks - {t})
  }

  /** One pass of the loop in `sys_wait`. */
  function WaitTry(k: Kernel): Kernel
    requires CanSchedule(k)
    requires forall i | 0 <= i < |k.all| :: k.all[i] in k.tasks
  {
    var z := FirstZombie(k, 0);
    var g := Put(k, k.cpu, k.tasks[k.cpu].(resume := Go));
    if z < |k.all| then Reap(g, k.all[z])
    else if !HasChild(k) then g
    else Block(k, Waiting, Off, Rescan)
  }

  /** `sys_exit` up to the release of resources: the status is kept and every child is handed to init. */
  function ExitBegin(k: Kernel, code: int): Kernel
    requires k.cpu in k.tasks
  {
    var adopted := map t | t in k.tasks ::
      if k.tasks[t].parent == k.cpu then k.tasks[t].(parent := k.init) else k.tasks[t];
    k.(tasks := adopted[k.cpu := adopted[k.cpu].(exiting := true, code := code)])
  }

  /** The rest of `sys_exit`: wake a waiting parent, then hang. */
  function ExitEnd(k: Kernel): Kernel
    requires CanSchedule(k) && k.tasks[k.cpu].parent in k.tasks
  {
    var p := k.tasks[k.cpu].parent;
    var k1 := if k.tasks[p].status == Waiting then Unblock(k, p) else k;
    Block(k1, Hanging, Off, Gone)
  }

  function IdleBlock(k: Kernel): Kernel
    requires CanSchedule(k)
  {
    Block(k, Blocked, Off, IdleLoop)
  }

  // ----- runs

  datatype Event =
    | TickE | YieldE | DownE(s: Sid) | RetestE | UpE(s: Sid)
    | SlotWaitE(r: Rid) | SlotWakeE(r: Rid)
    | CloneE(t: Tid, prio: nat) | WaitE | RescanE | ExitBeginE(code: int) | ExitEndE | IdleBlockE

  /** What the running program may do next; only the program's own position restricts it. */
  ghost predicate Enabled(k: Kernel, e: Event)
    requires k.cpu in k.tasks
  {
    var c := k.tasks[k.cpu];
    match e
    case TickE => true
    case YieldE => c.resume == Go
    case DownE(s) => c.resume == Go && s in k.sems
    case RetestE => c.resume.Retest? && c.resume.s in k.sems
    // Paired for a mutex; a device raises an event only after the previous one was consumed.
    case UpE(s) => s in k.sems && if k.sems[s].mutex then c.resume == Go && s in c.inside else k.sems[s].value == 0
    case SlotWaitE(r) => c.resume == Go && r !in k.slots
    case SlotWakeE(r) => r in k.slots
    // No page left is a panic before the pid pool is looked at.
    case CloneE(t, prio) => c.resume == Go && !c.exiting && t !in k.tasks && |k.tasks| < KERNEL_PAGES
    case WaitE => c.resume == Go && !c.exiting
    case RescanE => c.resume == Rescan
    case ExitBeginE(_) => c.resume == Go && !c.exiting && c.pid > 1
    case ExitEndE => c.resume == Go && c.exiting && c.inside == {}
    case IdleBlockE => c.resume == IdleLoop
  }
}
