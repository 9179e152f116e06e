/** Theorems about every run of the task system. */
module TaskRuns {
  import opened TaskState
  import opened TaskInvariant
  import opened TaskSteps
  import opened ProcessSteps

  lemma EnabledFacts(k: Kernel, e: Event)
    requires Inv(k) && Enabled(k, e)
    ensures CanSchedule(k) && k.tasks[k.cpu].parent in k.tasks
    ensures forall i | 0 <= i < |k.all| :: k.all[i] in k.tasks
    ensures e.UpE? && k.sems[e.s].waiters != [] ==> k.sems[e.s].waiters[0] in k.tasks
    ensures e.SlotWakeE? ==> k.slots[e.r] in k.tasks
  {
    InvCanSchedule(k);
    assert ParentOk(k, k.cpu);
    if e.UpE? { assert SemQueue(k, e.s); }
  }

  /** One atomic step: from one switch or interrupt to the next. */
  ghost function Next(k: Kernel, e: Event): Kernel
    requires Inv(k) && Enabled(k, e)
  {
    EnabledFacts(k, e);
    match e
    case TickE => Tick(k)
    case YieldE => Yield(k)
    case DownE(s) => DownTry(k, s)
    case RetestE => DownTry(k, k.tasks[k.cpu].resume.s)
    case UpE(s) => Up(k, s)
    case SlotWaitE(r) => SlotWait(k, r)
    case SlotWakeE(r) => SlotWake(k, r)
    case CloneE(t, prio) => Clone(k, t, prio)
    case WaitE => WaitTry(k)
    case RescanE => WaitTry(k)
    case ExitBeginE(code) => ExitBegin(k, code)
    case ExitEndE => ExitEnd(k)
    case IdleBlockE => IdleBlock(k)
  }

  /** Every step of every program keeps the invariant. */
  lemma StepInv(k: Kernel, e: Event)
    requires Inv(k) && Enabled(k, e)
    ensures Inv(Next(k, e))
  {
    match e
    case TickE => TickInv(k);
    case YieldE => YieldInv(k);
    case DownE(s) => DownInv(k, s);
    case RetestE => DownInv(k, k.tasks[k.cpu].resume.s);
    case UpE(s) => UpInv(k, s);
    case SlotWaitE(r) => SlotWaitInv(k, r);
    case SlotWakeE(r) => SlotWakeInv(k, r);
    case CloneE(t, prio) => CloneInv(k, t, prio);
    case WaitE => WaitInv(k);
    case RescanE => WaitInv(k);
    case ExitBeginE(code) => ExitBeginInv(k, code);
    case ExitEndE => ExitEndInv(k);
    case IdleBlockE => IdleBlockInv(k);
  }

  // ----- runs

  ghost predicate FreshSem(s: Sem) {
    s.waiters == [] && s.value == (if s.mutex then 1 else 0)
  }

  /** The state `task_init` leaves: idle created first (pid 0), then main, the later init (pid 1), running. */
  function Boot(idle: Tid, main: Tid, sems: map<Sid, Sem>): Kernel {
    Kernel(main, idle, main, [idle], [idle, main],
           map[idle := Task(0, idle, 30, 30, Ready, InReady, IdleLoop, {}, false, 0),
               main := Task(1, main, 30, 30, Running, OnCpu, Go, {}, false, 0)],
           sems, map[], {0, 1})
  }

  lemma BootInv(idle: Tid, main: Tid, sems: map<Sid, Sem>)
    requires idle != main && forall s | s in sems :: FreshSem(sems[s])
    ensures Inv(Boot(idle, main, sems))
  {
    var k := Boot(idle, main, sems);
    BootLists(idle, main, sems);
    forall s | s in sems ensures SemOk(k, s) { assert FreshSem(sems[s]); }
    forall t | t in k.tasks ensures PlaceOk(k, t) && NotMissed(k, t) {}
  }

  lemma BootLists(idle: Tid, main: Tid, sems: map<Sid, Sem>)
    requires idle != main && forall s | s in sems :: FreshSem(sems[s])
    ensures Queues(Boot(idle, main, sems)) && Forest(Boot(idle, main, sems)) && Pids(Boot(idle, main, sems))
  {
    var k := Boot(idle, main, sems);
    forall s | s in sems ensures SemQueue(k, s) { assert FreshSem(sems[s]); }
    assert k.ready[0] == idle;
    assert Queues(k);
    assert k.all[0] == idle && k.all[1] == main;
    assert ParentOk(k, idle) && ParentOk(k, main);
    assert Forest(k);
    assert PidOk(k, idle) && PidOk(k, main);
    assert k.tasks.Keys == {idle, main} && |k.tasks.Keys| == |k.tasks|;
    assert Pids(k);
  }

  /** A run: the states before and after each event. */
  ghost predicate Run(ks: seq<Kernel>, es: seq<Event>) {
    && |ks| == |es| + 1
    && (exists idle, main, sems | idle != main && (forall s | s in sems :: FreshSem(sems[s])) ::
          ks[0] == Boot(idle, main, sems))
    && (forall i {:trigger StepAt(ks, es, i)} | 0 <= i < |es| :: StepAt(ks, es, i))
  }

  ghost predicate StepAt(ks: seq<Kernel>, es: seq<Event>, i: nat)
    requires i < |es| && i + 1 < |ks|
  {
    Inv(ks[i]) ==> Enabled(ks[i], es[i]) && ks[i + 1] == Next(ks[i], es[i])
  }

  lemma {:induction false} RunInv(ks: seq<Kernel>, es: seq<Event>, i: nat)
    requires Run(ks, es) && i < |ks|
    ensures Inv(ks[i])
  {
    if i == 0 {
      var idle, main, sems :| idle != main && (forall s | s in sems :: FreshSem(sems[s])) && ks[0] == Boot(idle, main, sems);
      BootInv(idle, main, sems);
    } else {
      RunInv(ks, es, i - 1);
      assert StepAt(ks, es, i - 1);
      StepInv(ks[i - 1], es[i - 1]);
    }
  }

  lemma RunStep(ks: seq<Kernel>, es: seq<Event>, i: nat)
    requires Run(ks, es) && i < |es|
    ensures Inv(ks[i]) && Enabled(ks[i], es[i]) && ks[i + 1] == Next(ks[i], es[i])
  {
    RunInv(ks, es, i);
    assert StepAt(ks, es, i);
  }

  // ----- what the invariant means

  /** No two tasks are inside the same semaphore, and its count is 0 or 1. */
  lemma MutualExclusion(k: Kernel, s: Sid, t: Tid, u: Tid)
    requires Inv(k) && Inside(k, s, t) && Inside(k, s, u)
    ensures t == u && s in k.sems && k.sems[s].value == 0
  {
    assert SemOk(k, s);
  }

  /** A free semaphore with sleepers has somebody awake, ready or running, who will look at it again. */
  lemma NoLostWakeup(k: Kernel, s: Sid)
    requires Inv(k) && s in k.sems && k.sems[s].value == 1 && k.sems[s].waiters != []
    ensures exists t | t in k.tasks ::
      k.tasks[t].resume == Retest(s) && t !in k.sems[s].waiters && (t in k.ready || t == k.cpu)
  {
    assert SemOk(k, s) && SemQueue(k, s);
    var t :| Pending(k, s, t);
    assert PlaceOk(k, t);
    if k.tasks[t].at == InReady { assert t in k.ready; }
    assert t !in k.sems[s].waiters;
  }

  /** The tag of a task is on at most one queue, and the running task is on none. */
  lemma OneQueueOnly(k: Kernel, t: Tid)
    requires Inv(k) && t in k.tasks
    ensures t == k.cpu ==> t !in k.ready
    ensures forall s | s in k.sems :: t in k.sems[s].waiters ==> t !in k.ready && t != k.cpu
    ensures forall s, q | s in k.sems && q in k.sems :: t in k.sems[s].waiters && t in k.sems[q].waiters ==> s == q
    ensures forall r | r in k.slots && k.slots[r] == t ::
              t !in k.ready && t != k.cpu && forall s | s in k.sems :: t !in k.sems[s].waiters
  {
    assert PlaceOk(k, t);
    forall s | s in k.sems && t in k.sems[s].waiters ensures k.tasks[t].at == InSem(s) {
      assert SemQueue(k, s);
    }
  }
}
