/** The one task that can sleep over a zombie is init, and exactly one step brings that about. */
module TaskInit {
  import opened TaskState
  import opened TaskInvariant
  import opened TaskSteps
  import opened ProcessSteps
  import opened TaskRuns

  /** Init asleep in `sys_wait` while a child of it is a zombie. */
  ghost predicate InitSleepsOverZombie(k: Kernel) {
    && k.init in k.tasks && k.tasks[k.init].status == Waiting
    && exists t :: HangingChild(k, t, k.init)
  }

  /** The exiting program has a zombie child and init is asleep. */
  ghost predicate OrphansZombie(k: Kernel) {
    && k.init in k.tasks && k.tasks[k.init].status == Waiting
    && exists t :: HangingChild(k, t, k.cpu)
  }

  /** Nobody falls asleep in `sys_wait`, nobody hangs, nobody changes parent. */
  ghost predicate Quiet(k: Kernel, k': Kernel) {
    && k'.init == k.init && k.init in k.tasks
    && forall t {:trigger k'.tasks[t]} | t in k'.tasks ::
         if t in k.tasks then
           && k'.tasks[t].parent == k.tasks[t].parent
           && (k'.tasks[t].status == Waiting ==> k.tasks[t].status == Waiting)
           && (k'.tasks[t].status == Hanging ==> k.tasks[t].status == Hanging)
         else k'.tasks[t].status == Ready
  }

  lemma QuietKeeps(k: Kernel, k': Kernel)
    requires Quiet(k, k') && !InitSleepsOverZombie(k)
    ensures !InitSleepsOverZombie(k')
  {
    if InitSleepsOverZombie(k') {
      var t :| HangingChild(k', t, k.init);
      assert k'.tasks[t].status == Hanging && k'.tasks[k.init].status == Waiting;
      assert HangingChild(k, t, k.init);
    }
  }

  /** Switching away quietly. */
  lemma ScheduleQuiet(k: Kernel)
    requires CanSchedule(k) && k.init in k.tasks
    ensures Quiet(k, Schedule(k))
  {
    var r := Requeue(k);
    var w := WakeIdle(r);
    assert forall t | t in k.tasks :: r.tasks[t].parent == k.tasks[t].parent;
    assert forall t | t in k.tasks :: w.tasks[t].parent == k.tasks[t].parent;
  }

  lemma QuietThen(k: Kernel, m: Kernel, k': Kernel)
    requires Quiet(k, m) && Quiet(m, k') && m.tasks.Keys == k.tasks.Keys
    ensures Quiet(k, k')
  {
    assert forall t | t in k.tasks :: m.tasks[t] == m.tasks[t];
  }

  lemma BlockQuiet(k: Kernel, m: Kernel, status: Status, at: Place, resume: Resume)
    requires CanSchedule(k) && k.init in k.tasks && status == Blocked
    requires m == k.(sems := m.sems, slots := m.slots)
    ensures CanSchedule(m) && Quiet(k, Block(m, status, at, resume))
  {
    var p := Park(m, status, at, resume);
    ScheduleQuiet(p);
    QuietThen(k, p, Schedule(p));
  }

  lemma SchedulerQuiet(k: Kernel, e: Event)
    requires Inv(k) && Enabled(k, e)
    requires e.TickE? || e.YieldE? || e.DownE? || e.RetestE? || e.UpE? || e.SlotWaitE? || e.SlotWakeE? || e.IdleBlockE?
    ensures Quiet(k, Next(k, e))
  {
    EnabledFacts(k, e);
    match e
    case TickE =>
      if k.tasks[k.cpu].ticks == 0 { ScheduleQuiet(k); }
    case YieldE =>
      var m := Put(k, k.cpu, k.tasks[k.cpu].(status := Ready, at := InReady)).(ready := k.ready + [k.cpu]);
      ScheduleQuiet(m);
      QuietThen(k, m, Schedule(m));
    case DownE(s) => DownQuiet(k, s);
    case RetestE => DownQuiet(k, k.tasks[k.cpu].resume.s);
    case UpE(s) =>
    case SlotWaitE(r) => BlockQuiet(k, k.(slots := k.slots[r := k.cpu]), Blocked, InSlot(r), Go);
    case SlotWakeE(r) =>
    case IdleBlockE => BlockQuiet(k, k, Blocked, Off, IdleLoop);
  }

  lemma DownQuiet(k: Kernel, s: Sid)
    requires CanSchedule(k) && k.init in k.tasks && s in k.sems
    ensures Quiet(k, DownTry(k, s))
  {
    if k.sems[s].value == 0 {
      var m := k.(sems := k.sems[s := k.sems[s].(waiters := k.sems[s].waiters + [k.cpu])]);
      BlockQuiet(k, m, Blocked, InSem(s), Retest(s));
    }
  }

  lemma SearchedAll(k: Kernel, t: Tid)
    requires Forest(k) && FirstZombie(k, 0) == |k.all|
    ensures !HangingChild(k, t, k.cpu)
  {
    if t in k.tasks {
      assert t in k.all;
      var i :| 0 <= i < |k.all| && k.all[i] == t;
      assert !HangingChild(k, k.all[i], k.cpu);
    }
  }

  /** Init itself goes to sleep only after a search of the whole list. */
  lemma WaitKeeps(k: Kernel)
    requires Inv(k) && !InitSleepsOverZombie(k)
    ensures CanSchedule(k)
    ensures (forall i | 0 <= i < |k.all| :: k.all[i] in k.tasks) && !InitSleepsOverZombie(WaitTry(k))
  {
    EnabledFacts(k, TickE);
    var z := FirstZombie(k, 0);
    if z == |k.all| && HasChild(k) {
      var p := Park(k, Waiting, Off, Rescan);
      ScheduleQuiet(p);
      if k.cpu == k.init {
        forall t ensures !HangingChild(p, t, p.init) { SearchedAll(k, t); }
      } else {
        forall t | HangingChild(p, t, p.init) ensures HangingChild(k, t, k.init) {}
      }
      QuietKeeps(p, Schedule(p));
    } else {
      QuietKeeps(k, WaitTry(k));
    }
  }

  /** An exit wakes a sleeping init that is the parent, and hangs a child of an init that is awake otherwise. */
  lemma ExitEndKeeps(k: Kernel)
    requires CanExit(k) && !InitSleepsOverZombie(k)
    ensures CanSchedule(k) && k.tasks[k.cpu].parent in k.tasks && !InitSleepsOverZombie(ExitEnd(k))
  {
    WaitingParentIsOff(k);
    InvCanSchedule(k);
    var p, m := k.tasks[k.cpu].parent, ExitParked(k);
    ScheduleQuiet(m);
    if p == k.init && k.tasks[p].status == Waiting {
      assert m.ready[0] == p;
      assert Requeue(m) == m && WakeIdle(m) == m;
      assert ExitEnd(k).tasks[k.init].status == Running;
    } else {
      forall t | HangingChild(m, t, m.init) && m.tasks[m.init].status == Waiting ensures HangingChild(k, t, k.init) {}
      QuietKeeps(m, Schedule(m));
    }
  }

  lemma ExitBeginExact(k: Kernel, code: int)
    requires Inv(k) && Enabled(k, ExitBeginE(code)) && !InitSleepsOverZombie(k)
    ensures InitSleepsOverZombie(ExitBegin(k, code)) <==> OrphansZombie(k)
  {
    var k' := ExitBegin(k, code);
    InvCanSchedule(k);
    if OrphansZombie(k) {
      var t :| HangingChild(k, t, k.cpu);
      assert HangingChild(k', t, k'.init);
    }
    if InitSleepsOverZombie(k') {
      var t :| HangingChild(k', t, k'.init);
      assert HangingChild(k, t, k.cpu) || HangingChild(k, t, k.init);
    }
  }

  /** From a state where init misses no zombie, the next step makes it miss one exactly when an exiting
      program hands over a zombie child while init sleeps. */
  lemma InitMissesExactly(k: Kernel, e: Event)
    requires Inv(k) && Enabled(k, e) && !InitSleepsOverZombie(k)
    ensures InitSleepsOverZombie(Next(k, e)) <==> e.ExitBeginE? && OrphansZombie(k)
  {
    EnabledFacts(k, e);
    match e
    case CloneE(t, prio) => QuietKeeps(k, Next(k, e));
    case WaitE => WaitKeeps(k);
    case RescanE => WaitKeeps(k);
    case ExitBeginE(code) => ExitBeginExact(k, code);
    case ExitEndE => ExitEndKeeps(k);
    case _ =>
      SchedulerQuiet(k, e);
      QuietKeeps(k, Next(k, e));
  }
}
