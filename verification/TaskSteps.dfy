/** Scheduler, semaphore and waiter-slot steps keep the invariant. */
module TaskSteps {
  import opened Sequences
  import opened TaskState
  import opened TaskInvariant
  import opened TaskDispatch

  // ----- queue moves of the running task

  lemma StayOffQueues(k: Kernel, x: Task)
    requires Queues(k) && k.cpu in k.tasks && k.tasks[k.cpu].at == OnCpu && (x.at == Off || x.at == OnCpu)
    ensures Queues(Put(k, k.cpu, x))
  {
    var k' := Put(k, k.cpu, x);
    forall t | t in k'.tasks && k'.tasks[t].at == InReady ensures t in k'.ready {
      assert t in k.ready;
    }
    forall s | s in k'.sems ensures SemQueue(k', s) {
      assert SemQueue(k, s);
    }
  }

  lemma JoinReady(k: Kernel, x: Task)
    requires Queues(k) && k.cpu in k.tasks && k.tasks[k.cpu].at == OnCpu && x.at == InReady
    ensures Queues(Put(k, k.cpu, x).(ready := k.ready + [k.cpu]))
  {
    var k' := Put(k, k.cpu, x).(ready := k.ready + [k.cpu]);
    assert k.cpu !in k.ready;
    assert k'.ready[|k.ready|] == k.cpu;
    forall t | t in k'.tasks && k'.tasks[t].at == InReady ensures t in k'.ready {
      if t != k.cpu { assert t in k.ready; }
    }
    forall s | s in k'.sems ensures SemQueue(k', s) {
      assert SemQueue(k, s);
    }
  }

  lemma JoinSem(k: Kernel, s: Sid, x: Task)
    requires Queues(k) && k.cpu in k.tasks && k.tasks[k.cpu].at == OnCpu && x.at == InSem(s) && s in k.sems
    ensures Queues(Put(k, k.cpu, x).(sems := k.sems[s := k.sems[s].(waiters := k.sems[s].waiters + [k.cpu])]))
  {
    var w := k.sems[s].waiters;
    var k' := Put(k, k.cpu, x).(sems := k.sems[s := k.sems[s].(waiters := w + [k.cpu])]);
    assert SemQueue(k, s);
    assert k.cpu !in w;
    assert k'.sems[s].waiters[|w|] == k.cpu;
    forall t | t in k'.tasks && k'.tasks[t].at == InReady ensures t in k'.ready {
      assert t in k.ready;
    }
    forall s' | s' in k'.sems ensures SemQueue(k', s') {
      assert SemQueue(k, s');
    }
  }

  /** Zombies are not missed if nobody new hangs and nobody new sleeps in `sys_wait`. */
  lemma MissedFrame(k: Kernel, k': Kernel)
    requires NoZombieMissed(k) && k'.tasks.Keys == k.tasks.Keys && k'.init == k.init
    requires forall t {:trigger k'.tasks[t]} | t in k.tasks ::
               && k'.tasks[t].parent == k.tasks[t].parent
               && (k'.tasks[t].status == Hanging ==> k.tasks[t].status == Hanging)
               && (k'.tasks[t].status == Waiting && k'.tasks[t].at == Off ==> k.tasks[t].status == Waiting && k.tasks[t].at == Off)
    ensures NoZombieMissed(k')
  {
    forall t | t in k'.tasks ensures NotMissed(k', t) { assert NotMissed(k, t); }
  }

  /** The running task parks with a consistent status; nobody else moves. */
  lemma CpuParks(k: Kernel, k': Kernel)
    requires Places(k) && k'.tasks.Keys == k.tasks.Keys && k'.cpu == k.cpu && k'.idle == k.idle && k'.init == k.init
    requires k'.sems.Keys == k.sems.Keys
    requires forall t | t in k.tasks && t != k.cpu :: k'.tasks[t] == k.tasks[t]
    requires TaskOk(k', k.cpu, k'.tasks[k.cpu], false) && k'.tasks[k.cpu].at != OnCpu
    ensures Parked(k')
  {
    forall t | t in k'.tasks ensures ParkOk(k', t) { assert PlaceOk(k, t); }
  }

  /** Processes, pids and zombies do not notice a step that only moves tasks between queues. */
  lemma ProcessesKeep(k: Kernel, k': Kernel)
    requires Sems(k) && Forest(k) && Pids(k) && NoZombieMissed(k)
    requires k'.tasks.Keys == k.tasks.Keys && k'.idle == k.idle && k'.init == k.init && k'.all == k.all && k'.pids == k.pids
    requires k'.sems == k.sems
    requires forall t {:trigger k'.tasks[t]} | t in k.tasks ::
               && k'.tasks[t].(status := k.tasks[t].status, at := k.tasks[t].at, resume := k.tasks[t].resume, ticks := k.tasks[t].ticks) == k.tasks[t]
               && (k'.tasks[t].status == Hanging ==> k.tasks[t].status == Hanging)
               && (k'.tasks[t].status == Waiting && k'.tasks[t].at == Off ==> k.tasks[t].status == Waiting && k.tasks[t].at == Off)
    requires forall s, t | Pending(k, s, t) :: Pending(k', s, t)
    ensures Sems(k') && Forest(k') && Pids(k') && NoZombieMissed(k')
  {
    forall t | t in k.tasks ensures SameStatic(k, k', t) { assert k'.tasks[t] == k'.tasks[t]; }
    MoveKeeps(k, k');
    MissedFrame(k, k');
  }

  // ----- timer and yield

  /** A task that keeps the processor: only its own counters change, or it leaves the loop of `sys_wait`. */
  lemma StayOnCpu(k: Kernel, x: Task)
    requires Inv(k) && x == k.tasks[k.cpu].(ticks := x.ticks, resume := x.resume)
    requires x.resume == k.tasks[k.cpu].resume || (x.resume == Go && k.tasks[k.cpu].resume == Rescan)
    ensures Inv(Put(k, k.cpu, x))
  {
    var k' := Put(k, k.cpu, x);
    StayPlaces(k, x);
    StayOffQueues(k, x);
    ProcessesKeep(k, k');
  }

  lemma StayPlaces(k: Kernel, x: Task)
    requires Places(k) && x == k.tasks[k.cpu].(ticks := x.ticks, resume := x.resume)
    requires x.resume == k.tasks[k.cpu].resume || (x.resume == Go && k.tasks[k.cpu].resume == Rescan)
    ensures Places(Put(k, k.cpu, x)) && k.tasks[k.cpu].at == OnCpu && k.tasks[k.cpu].status == Running
  {
    var k' := Put(k, k.cpu, x);
    assert PlaceOk(k, k.cpu);
    forall t | t in k'.tasks ensures PlaceOk(k', t) { assert PlaceOk(k, t); }
  }

  lemma GiveUpCpu(k: Kernel, x: Task)
    requires Inv(k) && x == k.tasks[k.cpu].(ticks := x.ticks, status := Ready, at := InReady)
    ensures Mid(Put(k, k.cpu, x).(ready := k.ready + [k.cpu]))
  {
    var k' := Put(k, k.cpu, x).(ready := k.ready + [k.cpu]);
    assert PlaceOk(k, k.cpu);
    JoinReady(k, x);
    CpuParks(k, k');
    ProcessesKeep(k, k');
  }

  lemma InvCanSchedule(k: Kernel)
    requires Inv(k)
    ensures CanSchedule(k) && k.tasks[k.cpu].status == Running && k.tasks[k.cpu].at == OnCpu
  {
    assert PlaceOk(k, k.cpu);
  }

  /** Zombies change only with somebody's status. */
  lemma StatusZombies(k: Kernel, k': Kernel)
    requires k'.tasks.Keys == k.tasks.Keys
    requires forall t {:trigger k'.tasks[t]} | t in k.tasks :: k'.tasks[t].status == Hanging <==> k.tasks[t].status == Hanging
    ensures Zombies(k') == Zombies(k)
  {
    assert forall t | t in k.tasks :: k'.tasks[t] == k'.tasks[t];
  }

  lemma TickSwitch(k: Kernel)
    requires Inv(k) && k.tasks[k.cpu].ticks == 0
    ensures CanSchedule(k) && Inv(Schedule(k)) && Zombies(Schedule(k)) == Zombies(k)
  {
    InvCanSchedule(k);
    var c, m := k.tasks[k.cpu], Requeue(k);
    GiveUpCpu(k, c.(ticks := c.prio, status := Ready, at := InReady));
    StatusZombies(k, m);
    assert Requeue(m) == m && Schedule(k) == Schedule(m);
    ScheduleInv(m);
  }

  lemma TickInv(k: Kernel)
    requires Inv(k)
    ensures CanSchedule(k) && Inv(Tick(k)) && Zombies(Tick(k)) == Zombies(k)
  {
    InvCanSchedule(k);
    if k.tasks[k.cpu].ticks == 0 {
      hide Inv, Schedule, Zombies;
      TickSwitch(k);
    } else {
      TickDown(k);
    }
  }

  lemma TickDown(k: Kernel)
    requires Inv(k) && k.tasks[k.cpu].ticks != 0
    ensures CanSchedule(k) && Inv(Tick(k)) && Zombies(Tick(k)) == Zombies(k)
  {
    InvCanSchedule(k);
    var c := k.tasks[k.cpu];
    StatusZombies(k, Tick(k));
    hide Queues, Places, Sems, Forest, Pids, NoZombieMissed;
    StayOnCpu(k, c.(ticks := c.ticks - 1));
  }

  lemma YieldInv(k: Kernel)
    requires Inv(k)
    ensures CanSchedule(k) && Inv(Yield(k)) && Zombies(Yield(k)) == Zombies(k)
  {
    InvCanSchedule(k);
    var x := k.tasks[k.cpu].(status := Ready, at := InReady);
    GiveUpCpu(k, x);
    ScheduleInv(Put(k, k.cpu, x).(ready := k.ready + [k.cpu]));
    StatusZombies(k, Put(k, k.cpu, x).(ready := k.ready + [k.cpu]));
  }

  /** Leaving the processor for no queue at all. */
  lemma OffParks(k: Kernel, status: Status, resume: Resume)
    requires Queues(k) && Places(k)
    requires TaskOk(k, k.cpu, k.tasks[k.cpu].(status := status, at := Off, resume := resume), false)
    ensures Queues(Park(k, status, Off, resume)) && Parked(Park(k, status, Off, resume))
  {
    var k' := Park(k, status, Off, resume);
    assert PlaceOk(k, k.cpu);
    StayOffQueues(k, k'.tasks[k.cpu]);
    CpuParks(k, k');
  }

  lemma IdleParks(k: Kernel)
    requires Inv(k) && Enabled(k, IdleBlockE)
    ensures Queues(Park(k, Blocked, Off, IdleLoop)) && Parked(Park(k, Blocked, Off, IdleLoop))
  {
    assert PlaceOk(k, k.cpu);
    OffParks(k, Blocked, IdleLoop);
  }

  lemma IdleBlockInv(k: Kernel)
    requires Inv(k) && Enabled(k, IdleBlockE)
    ensures CanSchedule(k) && Inv(IdleBlock(k)) && Zombies(IdleBlock(k)) == Zombies(k)
  {
    InvCanSchedule(k);
    var k' := Park(k, Blocked, Off, IdleLoop);
    assert PlaceOk(k, k.cpu);
    ProcessesKeep(k, k');
    StatusZombies(k, k');
    IdleParks(k);
    hide Queues, Places, Parked, Sems, Forest, Pids, NoZombieMissed, Schedule, Zombies;
    ScheduleInv(k');
  }

  // ----- semaphores

  /** The running task on the queue of `s`, about to switch. */
  function DownParked(k: Kernel, s: Sid): Kernel
    requires k.cpu in k.tasks && s in k.sems
  {
    Park(k.(sems := k.sems[s := k.sems[s].(waiters := k.sems[s].waiters + [k.cpu])]), Blocked, InSem(s), Retest(s))
  }

  ghost predicate MustWait(k: Kernel, s: Sid) {
    && Inv(k) && s in k.sems && k.sems[s].value == 0
    && (k.tasks[k.cpu].resume == Go || k.tasks[k.cpu].resume == Retest(s))
  }

  lemma DownParks(k: Kernel, s: Sid)
    requires MustWait(k, s)
    ensures Queues(DownParked(k, s)) && Parked(DownParked(k, s))
  {
    var k' := DownParked(k, s);
    assert PlaceOk(k, k.cpu);
    JoinSem(k, s, k'.tasks[k.cpu]);
    assert k' == Put(k, k.cpu, k'.tasks[k.cpu]).(sems := k'.sems);
    CpuParks(k, k');
  }

  lemma DownKeeps(k: Kernel, s: Sid)
    requires MustWait(k, s)
    ensures var k' := DownParked(k, s);
      Sems(k') && Forest(k') && Pids(k') && NoZombieMissed(k') && Zombies(k') == Zombies(k)
  {
    var k' := DownParked(k, s);
    assert PlaceOk(k, k.cpu);
    forall t | t in k.tasks ensures SameStatic(k, k', t) {}
    ForestFrame(k, k');
    PidsFrame(k, k');
    SemsAfterBlock(k, k', s);
    MissedFrame(k, k');
    StatusZombies(k, k');
  }

  lemma DownBlockInv(k: Kernel, s: Sid)
    requires MustWait(k, s)
    ensures CanSchedule(k) && Inv(DownTry(k, s)) && Zombies(DownTry(k, s)) == Zombies(k)
  {
    InvCanSchedule(k);
    hide Queues, Places, Parked, Sems, Forest, Pids, NoZombieMissed, Schedule, Zombies;
    DownParks(k, s);
    DownKeeps(k, s);
    ScheduleInv(DownParked(k, s));
  }

  lemma InsideFrame(k: Kernel, k': Kernel)
    requires SameStatics(k, k')
    ensures forall s, t :: Inside(k', s, t) <==> Inside(k, s, t)
  {
    forall s, t ensures Inside(k', s, t) <==> Inside(k, s, t) {
      if t in k.tasks { assert SameStatic(k, k', t); }
    }
  }

  lemma SemsAfterBlock(k: Kernel, k': Kernel, s: Sid)
    requires Sems(k) && s in k.sems && k.sems[s].value == 0 && SameStatics(k, k')
    requires k'.sems.Keys == k.sems.Keys && k'.sems[s] == k.sems[s].(waiters := k'.sems[s].waiters)
    requires forall q | q in k.sems && q != s :: k'.sems[q] == k.sems[q]
    requires forall q, t | Pending(k, q, t) && q != s :: Pending(k', q, t)
    ensures Sems(k')
  {
    InsideFrame(k, k');
    forall q | q in k'.sems ensures SemOk(k', q) {
      assert SemOk(k, q);
      if q != s {
        SemOkFrame(k, k', q);
      } else if k.sems[s].mutex {
        var t :| Inside(k, s, t);
        assert Inside(k', s, t);
      }
    }
  }

  lemma DownTakeQueues(k: Kernel, s: Sid)
    requires Queues(k) && Places(k) && CanSchedule(k) && s in k.sems && k.sems[s].value != 0
    requires k.tasks[k.cpu].resume == Go || k.tasks[k.cpu].resume == Retest(s)
    ensures Queues(DownTry(k, s)) && Places(DownTry(k, s))
  {
    var k' := DownTry(k, s);
    assert PlaceOk(k, k.cpu);
    StayOffQueues(k, k'.tasks[k.cpu]);
    forall q | q in k'.sems ensures SemQueue(k', q) { assert SemQueue(k, q); }
    forall t | t in k'.tasks ensures PlaceOk(k', t) { assert PlaceOk(k, t); }
  }

  lemma DownTakeInv(k: Kernel, s: Sid)
    requires Inv(k) && s in k.sems && k.sems[s].value != 0
    requires k.tasks[k.cpu].resume == Go || k.tasks[k.cpu].resume == Retest(s)
    ensures CanSchedule(k) && Inv(DownTry(k, s)) && Zombies(DownTry(k, s)) == Zombies(k)
  {
    InvCanSchedule(k);
    DownTakeQueues(k, s);
    ForestIgnoresSems(k, DownTry(k, s));
    MissedFrame(k, DownTry(k, s));
    SemsAfterTake(k, s);
    StatusZombies(k, DownTry(k, s));
  }

  /** As `ForestFrame` and `PidsFrame`, for steps that change who is inside what. */
  lemma ForestIgnoresSems(k: Kernel, k': Kernel)
    requires Forest(k) && Pids(k)
    requires k'.tasks.Keys == k.tasks.Keys && k'.idle == k.idle && k'.init == k.init && k'.all == k.all && k'.pids == k.pids
    requires forall t {:trigger k'.tasks[t]} | t in k.tasks ::
               && k'.tasks[t].pid == k.tasks[t].pid && k'.tasks[t].parent == k.tasks[t].parent
               && k'.tasks[t].exiting == k.tasks[t].exiting
    ensures Forest(k') && Pids(k')
  {
    forall i | 2 <= i < |k'.all|
      ensures Earlier(k'.all, k'.tasks[k'.all[i]].parent, i)
    {
      assert Earlier(k.all, k.tasks[k.all[i]].parent, i);
    }
    forall t | t in k'.tasks ensures ParentOk(k', t) { assert ParentOk(k, t); }
    forall t | t in k'.tasks ensures PidOk(k', t) { assert PidOk(k, t); }
    forall t, u | t in k'.tasks && u in k'.tasks ensures PidsDiffer(k', t, u) { assert PidsDiffer(k, t, u); }
    assert |k'.tasks.Keys| == |k.tasks.Keys|;
  }

  lemma SemsAfterTake(k: Kernel, s: Sid)
    requires Sems(k) && CanSchedule(k) && s in k.sems && k.sems[s].value != 0
    requires k.tasks[k.cpu].resume == Go || k.tasks[k.cpu].resume == Retest(s)
    ensures Sems(DownTry(k, s))
  {
    var k' := DownTry(k, s);
    assert SemOk(k, s);
    forall q, t ensures Inside(k', q, t) <==> Inside(k, q, t) || (q == s && t == k.cpu && k.sems[s].mutex) {}
    forall q | q in k'.sems ensures SemOk(k', q) {
      assert SemOk(k, q);
      if q != s {
        forall t | Pending(k, q, t) ensures Pending(k', q, t) {}
        SemOkFrame(k, k', q);
      } else if k.sems[s].mutex {
        assert Inside(k', s, k.cpu);
      }
    }
  }

  lemma DownInv(k: Kernel, s: Sid)
    requires Inv(k) && s in k.sems
    requires k.tasks[k.cpu].resume == Go || k.tasks[k.cpu].resume == Retest(s)
    ensures CanSchedule(k) && Inv(DownTry(k, s)) && Zombies(DownTry(k, s)) == Zombies(k)
  {
    if k.sems[s].value == 0 { DownBlockInv(k, s); } else { DownTakeInv(k, s); }
  }

  /** A task taken off a semaphore or slot queue goes to the head of the ready list. */
  ghost predicate ReadyHead(k: Kernel, k': Kernel, t0: Tid) {
    && t0 in k.tasks && k'.tasks.Keys == k.tasks.Keys && k'.ready == [t0] + k.ready && k.tasks[t0].at != InReady
    && k'.tasks[t0].at == InReady
    && forall t {:trigger k'.tasks[t]} | t in k.tasks && t != t0 :: k'.tasks[t].at == k.tasks[t].at
  }

  ghost predicate ReadyQueue(k: Kernel) {
    && NoDup(k.ready)
    && (forall i | 0 <= i < |k.ready| :: k.ready[i] in k.tasks && k.tasks[k.ready[i]].at == InReady)
    && (forall t {:trigger t in k.ready} | t in k.tasks && k.tasks[t].at == InReady :: t in k.ready)
  }

  lemma ReadyHeadKeeps(k: Kernel, k': Kernel, t0: Tid)
    requires ReadyQueue(k) && ReadyHead(k, k', t0)
    ensures ReadyQueue(k')
  {
    assert t0 !in k.ready;
    assert forall i | 0 <= i < |k'.ready| :: k'.ready[i] == if i == 0 then t0 else k.ready[i - 1];
    forall t | t in k'.tasks && k'.tasks[t].at == InReady ensures t in k'.ready {
      if t != t0 { assert t in k.ready; }
    }
  }

  /** The waiter popped by `sema_up` moves to the head of the ready list, still blocked. */
  lemma UpQueues(k: Kernel, s: Sid)
    requires Queues(k) && s in k.sems && k.cpu in k.tasks && k.tasks[k.cpu].at == OnCpu
    ensures k.sems[s].waiters != [] ==> k.sems[s].waiters[0] in k.tasks && k.sems[s].waiters[0] != k.cpu
    ensures Queues(Up(k, s))
  {
    assert SemQueue(k, s);
    var w, k' := k.sems[s].waiters, Up(k, s);
    assert ReadyQueue(k);
    if w != [] {
      NoDupTail(w);
      ReadyHeadKeeps(k, k', w[0]);
    }
    assert ReadyQueue(k');
    forall q | q in k'.sems ensures SemQueue(k', q) {
      assert SemQueue(k, q);
    }
  }

  lemma SemsAfterUp(k: Kernel, s: Sid)
    requires Sems(k) && Queues(k) && Places(k) && Enabled(k, UpE(s))
    ensures k.sems[s].waiters != [] ==> k.sems[s].waiters[0] in k.tasks
    ensures k.sems[s].value == 0 && Sems(Up(k, s))
  {
    assert SemOk(k, s) && SemQueue(k, s) && PlaceOk(k, k.cpu);
    var w := k.sems[s].waiters;
    assert k.sems[s].value == 0 by {
      if k.sems[s].mutex { assert Inside(k, s, k.cpu); }
    }
    var k' := Up(k, s);
    forall q, t ensures Inside(k', q, t) <==> Inside(k, q, t) && !(q == s && t == k.cpu) {}
    if w != [] {
      assert PlaceOk(k, w[0]);
      assert Pending(k', s, w[0]);
    }
    forall q | q in k'.sems ensures SemOk(k', q) {
      assert SemOk(k, q);
      if q != s {
        forall t | Pending(k, q, t) ensures Pending(k', q, t) {}
        SemOkFrame(k, k', q);
      } else if k.sems[s].mutex {
        assert Inside(k, s, k.cpu);
      }
    }
  }

  lemma UpPlaces(k: Kernel, s: Sid)
    requires Places(k) && Queues(k) && s in k.sems
    requires k.sems[s].waiters != [] ==> k.sems[s].waiters[0] in k.tasks && k.sems[s].waiters[0] != k.cpu
    ensures Places(Up(k, s))
  {
    var k' := Up(k, s);
    assert SemQueue(k, s) && PlaceOk(k, k.cpu);
    forall t | t in k'.tasks ensures PlaceOk(k', t) { assert PlaceOk(k, t); }
  }

  lemma UpRest(k: Kernel, s: Sid)
    requires NoZombieMissed(k) && Forest(k) && Pids(k) && s in k.sems && k.cpu in k.tasks
    requires k.sems[s].waiters != [] ==> k.sems[s].waiters[0] in k.tasks && k.sems[s].waiters[0] != k.cpu
    ensures Forest(Up(k, s)) && Pids(Up(k, s)) && NoZombieMissed(Up(k, s))
  {
    ForestIgnoresSems(k, Up(k, s));
    MissedFrame(k, Up(k, s));
  }

  lemma UpInv(k: Kernel, s: Sid)
    requires Inv(k) && Enabled(k, UpE(s))
    ensures k.sems[s].waiters != [] ==> k.sems[s].waiters[0] in k.tasks
    ensures Inv(Up(k, s)) && Zombies(Up(k, s)) == Zombies(k)
  {
    InvCanSchedule(k);
    SemsAfterUp(k, s);
    UpQueues(k, s);
    UpPlaces(k, s);
    hide Queues, Places, Sems, Forest, Pids, NoZombieMissed;
    UpRest(k, s);
    StatusZombies(k, Up(k, s));
  }

  // ----- waiter slots

  function SlotParked(k: Kernel, r: Rid): Kernel
    requires k.cpu in k.tasks
  {
    Park(k.(slots := k.slots[r := k.cpu]), Blocked, InSlot(r), Go)
  }

  lemma SlotParks(k: Kernel, r: Rid)
    requires Queues(k) && Places(k) && r !in k.slots && k.tasks[k.cpu].resume == Go
    ensures Queues(SlotParked(k, r)) && Parked(SlotParked(k, r))
  {
    assert PlaceOk(k, k.cpu);
    JoinSlot(k, r);
    hide Queues;
    CpuParks(k, SlotParked(k, r));
  }

  lemma JoinSlot(k: Kernel, r: Rid)
    requires Queues(k) && k.cpu in k.tasks && k.tasks[k.cpu].at == OnCpu && r !in k.slots
    ensures Queues(SlotParked(k, r))
  {
    var k' := SlotParked(k, r);
    forall t | t in k'.tasks && k'.tasks[t].at == InReady ensures t in k'.ready { assert t in k.ready; }
    forall s | s in k'.sems ensures SemQueue(k', s) { assert SemQueue(k, s); }
  }

  lemma SlotWaitInv(k: Kernel, r: Rid)
    requires Inv(k) && Enabled(k, SlotWaitE(r))
    ensures CanSchedule(k) && Inv(SlotWait(k, r)) && Zombies(SlotWait(k, r)) == Zombies(k)
  {
    InvCanSchedule(k);
    var k' := SlotParked(k, r);
    ProcessesKeep(k, k');
    StatusZombies(k, k');
    hide Queues, Parked, Sems, Forest, Pids, NoZombieMissed, Schedule, Zombies;
    SlotParks(k, r);
    ScheduleInv(k');
  }

  lemma SlotWakeQueues(k: Kernel, r: Rid)
    requires Queues(k) && r in k.slots
    ensures k.slots[r] in k.tasks && Queues(SlotWake(k, r))
  {
    var t0, k' := k.slots[r], SlotWake(k, r);
    assert ReadyQueue(k);
    ReadyHeadKeeps(k, k', t0);
    forall s | s in k'.sems ensures SemQueue(k', s) { assert SemQueue(k, s); }
  }

  lemma SlotWakePlaces(k: Kernel, r: Rid)
    requires Queues(k) && Places(k) && r in k.slots
    ensures Places(SlotWake(k, r))
  {
    var t0, k' := k.slots[r], SlotWake(k, r);
    assert PlaceOk(k, t0);
    forall t | t in k'.tasks ensures PlaceOk(k', t) { assert PlaceOk(k, t); }
  }

  lemma SlotWakeInv(k: Kernel, r: Rid)
    requires Inv(k) && r in k.slots
    ensures k.slots[r] in k.tasks && Inv(SlotWake(k, r)) && Zombies(SlotWake(k, r)) == Zombies(k)
  {
    SlotWakeQueues(k, r);
    SlotWakePlaces(k, r);
    ProcessesKeep(k, SlotWake(k, r));
    StatusZombies(k, SlotWake(k, r));
  }
}
