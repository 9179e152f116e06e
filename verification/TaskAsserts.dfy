/** The ASSERTs of the task code, in every reachable state. */
module TaskAsserts {
  import opened TaskState
  import opened TaskInvariant
  import opened TaskDispatch
  import opened TaskSteps
  import opened ProcessSteps
  import opened TaskRuns

  // ----- inside `schedule`

  /** The step enters `schedule`. */
  ghost predicate Switches(k: Kernel, e: Event)
    requires Inv(k) && Enabled(k, e)
  {
    var c := k.tasks[k.cpu];
    match e
    case TickE => c.ticks == 0
    case DownE(s) => k.sems[s].value == 0
    case RetestE => k.sems[c.resume.s].value == 0
    case YieldE => true
    case SlotWaitE(_) => true
    case WaitE => FirstZombie(k, 0) == |k.all| && HasChild(k)
    case RescanE => FirstZombie(k, 0) == |k.all| && HasChild(k)
    case ExitEndE => true
    case IdleBlockE => true
    case _ => false
  }

  /** The state in which it does. */
  ghost function Entering(k: Kernel, e: Event): Kernel
    requires Inv(k) && Enabled(k, e)
  {
    EnabledFacts(k, e);
    match e
    case YieldE => Put(k, k.cpu, k.tasks[k.cpu].(status := Ready, at := InReady)).(ready := k.ready + [k.cpu])
    case DownE(s) => DownParked(k, s)
    case RetestE => DownParked(k, k.tasks[k.cpu].resume.s)
    case SlotWaitE(r) => SlotParked(k, r)
    case WaitE => Park(k, Waiting, Off, Rescan)
    case RescanE => Park(k, Waiting, Off, Rescan)
    case ExitEndE => ExitParked(k)
    case IdleBlockE => Park(k, Blocked, Off, IdleLoop)
    case _ => k
  }

  ghost predicate CanUnblock(k: Kernel, t: Tid) {
    && t in k.tasks && t !in k.ready
    && (k.tasks[t].status == Blocked || k.tasks[t].status == Hanging || k.tasks[t].status == Waiting)
  }

  /** A task sent away while running has used up its quantum and is not queued yet; and if nothing is
      ready, idle can be unblocked. */
  ghost predicate ScheduleAsserts(m: Kernel) {
    && CanSchedule(m)
    && (m.tasks[m.cpu].status == Running ==> m.tasks[m.cpu].ticks == 0 && m.cpu !in m.ready)
    && (Requeue(m).ready == [] ==> CanUnblock(Requeue(m), m.idle))
  }

  /** `Entering` is where `schedule` starts, and a step that does not switch keeps the processor. */
  lemma EnteringIsEntry(k: Kernel, e: Event)
    requires Inv(k) && Enabled(k, e)
    ensures Switches(k, e) ==> CanSchedule(Entering(k, e)) && Next(k, e) == Schedule(Entering(k, e))
    ensures !Switches(k, e) ==> Next(k, e).cpu == k.cpu
  {
    hide Inv, Schedule;
    EnabledFacts(k, e);
  }

  /** Off every queue or at the end of the ready list, the task that leaves is parked as the invariant asks. */
  lemma EnteringParked(k: Kernel, e: Event)
    requires Inv(k) && Enabled(k, e) && Switches(k, e) && !e.TickE?
    ensures Queues(Entering(k, e)) && Parked(Entering(k, e))
    ensures Entering(k, e).cpu == k.cpu && k.cpu in k.tasks && Entering(k, e).tasks[k.cpu].status != Running
  {
    hide Queues, Places, Parked, Sems, Forest, Pids, NoZombieMissed;
    EnabledFacts(k, e);
    match e
    case YieldE => GiveUpCpu(k, k.tasks[k.cpu].(status := Ready, at := InReady));
    case DownE(s) => DownParks(k, s);
    case RetestE => DownParks(k, k.tasks[k.cpu].resume.s);
    case SlotWaitE(r) => SlotParks(k, r);
    case WaitE => WaitParks(k);
    case RescanE => WaitParks(k);
    case ExitEndE =>
      ExitQueues(k);
      ExitParks(k);
    case IdleBlockE => IdleParks(k);
  }

  lemma TickAsserts(k: Kernel)
    requires Inv(k) && k.tasks[k.cpu].ticks == 0
    ensures ScheduleAsserts(k)
  {
    InvCanSchedule(k);
  }

  lemma ParkedAsserts(m: Kernel)
    requires Queues(m) && Parked(m) && CanSchedule(m) && m.tasks[m.cpu].status != Running
    ensures ScheduleAsserts(m)
  {
    if m.ready == [] { IdleIsOff(m); }
  }

  /** `schedule` passes its ASSERTs, and those of the `task_unblock` of idle in it, whoever enters it. */
  lemma ScheduleAssertsHold(k: Kernel, e: Event)
    requires Inv(k) && Enabled(k, e) && Switches(k, e)
    ensures ScheduleAsserts(Entering(k, e))
  {
    hide Inv, Queues, Parked, ScheduleAsserts;
    EnteringIsEntry(k, e);
    if e.TickE? {
      TickAsserts(k);
    } else {
      EnteringParked(k, e);
      ParkedAsserts(Entering(k, e));
    }
  }

  // ----- the others

  /** The ASSERTs a step passes through before it switches, if it does. */
  ghost predicate StepAsserts(k: Kernel, e: Event)
    requires Inv(k) && Enabled(k, e)
  {
    EnabledFacts(k, e);
    var c := k.tasks[k.cpu];
    match e
    // task_yield: the running task is not queued yet
    case YieldE => k.cpu !in k.ready
    // sema_down: not a waiter already, and the count ends at 0
    case DownE(s) => k.cpu !in k.sems[s].waiters && (k.sems[s].value != 0 ==> Next(k, e).sems[s].value == 0)
    case RetestE => k.cpu !in k.sems[c.resume.s].waiters
                    && (k.sems[c.resume.s].value != 0 ==> Next(k, e).sems[c.resume.s].value == 0)
    // sema_up: the count goes from 0 to 1; task_unblock: the popped task is blocked and not ready
    case UpE(s) => k.sems[s].value == 0 && Next(k, e).sems[s].value == 1
                   && (k.sems[s].waiters != [] ==> CanUnblock(k, k.sems[s].waiters[0]))
    case SlotWakeE(r) => CanUnblock(k, k.slots[r])
    // init_task and create_task: the new task is on neither list; the pid is a real one
    case CloneE(t, prio) => t !in k.all && t !in k.ready && Next(k, e).tasks[t].pid < PID_COUNT
    // sys_exit: task_unblock of a waiting parent
    case ExitEndE => k.tasks[c.parent].status == Waiting ==> CanUnblock(k, c.parent)
    case _ => true
  }

  lemma StepAssertsHold(k: Kernel, e: Event)
    requires Inv(k) && Enabled(k, e)
    ensures StepAsserts(k, e)
  {
    EnabledFacts(k, e);
    InvCanSchedule(k);
    assert PlaceOk(k, k.cpu);
    match e
    case DownE(s) =>
      assert SemOk(k, s) && SemQueue(k, s);
    case RetestE =>
      assert SemOk(k, k.tasks[k.cpu].resume.s) && SemQueue(k, k.tasks[k.cpu].resume.s);
    case UpE(s) =>
      SemsAfterUp(k, s);
      assert SemQueue(k, s);
      if k.sems[s].waiters != [] { assert PlaceOk(k, k.sems[s].waiters[0]); }
    case SlotWakeE(r) =>
      assert PlaceOk(k, k.slots[r]);
    case CloneE(t, prio) =>
      PidAvailable(k);
    case ExitEndE =>
      WaitingParentIsOff(k);
    case _ =>
  }

  /** No ASSERT fails in any run. */
  lemma AssertsHold(ks: seq<Kernel>, es: seq<Event>, i: nat)
    requires Run(ks, es) && i < |es| < |ks|
    ensures Inv(ks[i]) && Enabled(ks[i], es[i]) && StepAsserts(ks[i], es[i])
    ensures Switches(ks[i], es[i]) ==> ScheduleAsserts(Entering(ks[i], es[i]))
  {
    hide *;
    RunStep(ks, es, i);
    StepAssertsHold(ks[i], es[i]);
    if Switches(ks[i], es[i]) { ScheduleAssertsHold(ks[i], es[i]); }
  }

  /** The ASSERT on the pid in `sys_exit` fails for one caller: init. */
  lemma OnlyInitCannotExit(k: Kernel)
    requires Inv(k) && k.tasks[k.cpu].resume == Go
    ensures k.tasks[k.cpu].pid > 1 <==> k.cpu != k.init
  {
    assert PlaceOk(k, k.cpu) && PlaceOk(k, k.idle);
    assert PidOk(k, k.cpu) && PidsDiffer(k, k.cpu, k.idle) && PidsDiffer(k, k.cpu, k.init);
  }
}
