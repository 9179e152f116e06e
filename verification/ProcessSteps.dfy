/** Clone, wait and exit keep the invariant. */
module ProcessSteps {
  import opened Sequences
  import opened TaskState
  import opened TaskInvariant
  import opened TaskDispatch
  import opened TaskSteps

  // ----- clone

  /** First fit over the pid map: the least clear bit. */
  lemma LeastFreeIsLeast(used: set<nat>, from: nat)
    requires from <= PID_COUNT
    ensures from <= LeastFree(used, from) <= PID_COUNT
    ensures LeastFree(used, from) < PID_COUNT ==> LeastFree(used, from) !in used
    ensures forall p | from <= p < LeastFree(used, from) :: p in used
    decreases PID_COUNT - from
  {
  }

  /** The page pool runs dry before the pid map does. */
  lemma PidAvailable(k: Kernel)
    requires Pids(k) && |k.tasks| < KERNEL_PAGES
    ensures LeastFree(k.pids, 0) < PID_COUNT && LeastFree(k.pids, 0) !in k.pids && LeastFree(k.pids, 0) > 1
  {
    LeastFreeIsLeast(k.pids, 0);
    var p := LeastFree(k.pids, 0);
    if p == PID_COUNT {
      assert forall q | q in Below(PID_COUNT) :: q in k.pids;
      SubsetSize(Below(PID_COUNT), k.pids);
    }
    assert PidOk(k, k.idle) && PidOk(k, k.init);
  }

  ghost predicate CanClone(k: Kernel, t: Tid) {
    Inv(k) && t !in k.tasks && |k.tasks| < KERNEL_PAGES && k.tasks[k.cpu].resume == Go && !k.tasks[k.cpu].exiting
  }

  lemma CloneQueues(k: Kernel, t: Tid, prio: nat)
    requires Queues(k) && t !in k.tasks && k.cpu in k.tasks
    ensures Queues(Clone(k, t, prio))
  {
    var k' := Clone(k, t, prio);
    assert t !in k.ready;
    assert k'.ready[|k.ready|] == t;
    forall u | u in k'.tasks && k'.tasks[u].at == InReady ensures u in k'.ready {
      if u != t { assert u in k.ready; }
    }
    forall s | s in k'.sems ensures SemQueue(k', s) { assert SemQueue(k, s); }
  }

  lemma ClonePlaces(k: Kernel, t: Tid, prio: nat)
    requires Places(k) && t !in k.tasks
    ensures Places(Clone(k, t, prio))
  {
    var k' := Clone(k, t, prio);
    forall u | u in k'.tasks ensures PlaceOk(k', u) {
      if u != t { assert PlaceOk(k, u); }
    }
  }

  lemma CloneSems(k: Kernel, t: Tid, prio: nat)
    requires Sems(k) && t !in k.tasks && k.cpu in k.tasks
    ensures Sems(Clone(k, t, prio))
  {
    var k' := Clone(k, t, prio);
    forall s, u ensures Inside(k', s, u) <==> Inside(k, s, u) {}
    forall s | s in k'.sems ensures SemOk(k', s) {
      assert SemOk(k, s);
      forall u | Pending(k, s, u) ensures Pending(k', s, u) {}
      SemOkFrame(k, k', s);
    }
  }

  lemma CloneOrder(k: Kernel, t: Tid, prio: nat)
    requires Forest(k) && Pids(k) && t !in k.tasks && k.cpu in k.tasks && |k.tasks| < KERNEL_PAGES
    ensures var k' := Clone(k, t, prio);
      forall i {:trigger Earlier(k'.all, k'.tasks[k'.all[i]].parent, i)} | 2 <= i < |k'.all| ::
        k'.all[i] in k'.tasks && Earlier(k'.all, k'.tasks[k'.all[i]].parent, i)
  {
    PidAvailable(k);
    var k' := Clone(k, t, prio);
    forall i | 2 <= i < |k'.all|
      ensures k'.all[i] in k'.tasks && Earlier(k'.all, k'.tasks[k'.all[i]].parent, i)
    {
      if i < |k.all| {
        assert k'.all[i] == k.all[i] && k.all[i] in k.tasks;
        EarlierAppend(k.all, k.tasks[k.all[i]].parent, i, t);
      } else {
        assert k.cpu in k.all;
        assert Earlier(k.all, k.cpu, |k.all|);
        EarlierAppend(k.all, k.cpu, |k.all|, t);
      }
    }
  }

  lemma EarlierAppend(all: seq<Tid>, p: Tid, i: nat, t: Tid)
    requires i <= |all| && Earlier(all, p, i)
    ensures Earlier(all + [t], p, i)
  {
    var j :| 0 <= j < i && all[j] == p;
    assert (all + [t])[j] == p;
  }

  lemma CloneForest(k: Kernel, t: Tid, prio: nat)
    requires Forest(k) && Pids(k) && t !in k.tasks && k.cpu in k.tasks && |k.tasks| < KERNEL_PAGES
    requires k.cpu != k.idle && !k.tasks[k.cpu].exiting
    ensures Forest(Clone(k, t, prio))
  {
    PidAvailable(k);
    CloneOrder(k, t, prio);
    var k' := Clone(k, t, prio);
    assert t !in k.all;
    assert k'.all[|k.all|] == t;
    forall u | u in k'.tasks ensures u in k'.all {
      if u != t { assert u in k.all; }
    }
    CloneParents(k, t, prio);
  }

  lemma CloneParents(k: Kernel, t: Tid, prio: nat)
    requires Forest(k) && Pids(k) && t !in k.tasks && k.cpu in k.tasks && |k.tasks| < KERNEL_PAGES
    requires k.cpu != k.idle && !k.tasks[k.cpu].exiting
    ensures forall u {:trigger ParentOk(Clone(k, t, prio), u)} | u in Clone(k, t, prio).tasks :: ParentOk(Clone(k, t, prio), u)
  {
    PidAvailable(k);
    var k' := Clone(k, t, prio);
    forall u | u in k'.tasks ensures ParentOk(k', u) {
      if u != t { assert ParentOk(k, u); }
    }
  }

  lemma ClonePids(k: Kernel, t: Tid, prio: nat)
    requires Pids(k) && t !in k.tasks && k.cpu in k.tasks && |k.tasks| < KERNEL_PAGES
    ensures Pids(Clone(k, t, prio))
  {
    PidAvailable(k);
    var k' := Clone(k, t, prio);
    forall u | u in k'.tasks ensures PidOk(k', u) {
      if u != t { assert PidOk(k, u); }
    }
    forall u, v | u in k'.tasks && v in k'.tasks ensures PidsDiffer(k', u, v) {
      if u != t && v != t { assert PidsDiffer(k, u, v); }
      if u != t { assert PidOk(k, u); }
      if v != t { assert PidOk(k, v); }
    }
    assert k'.tasks.Keys == k.tasks.Keys + {t};
  }

  lemma CloneInv(k: Kernel, t: Tid, prio: nat)
    requires CanClone(k, t)
    ensures Inv(Clone(k, t, prio)) && Zombies(Clone(k, t, prio)) == Zombies(k)
  {
    assert PlaceOk(k, k.cpu);
    CloneQueues(k, t, prio);
    ClonePlaces(k, t, prio);
    CloneSems(k, t, prio);
    CloneForest(k, t, prio);
    ClonePids(k, t, prio);
    CloneMissed(k, t, prio);
  }

  lemma CloneMissed(k: Kernel, t: Tid, prio: nat)
    requires NoZombieMissed(k) && Forest(k) && t !in k.tasks && k.cpu in k.tasks
    ensures NoZombieMissed(Clone(k, t, prio))
  {
    var k' := Clone(k, t, prio);
    forall u | u in k'.tasks ensures NotMissed(k', u) {
      if u != t { assert NotMissed(k, u) && ParentOk(k, u); }
    }
  }

  // ----- wait

  /** A zombie collected by its parent: off no queue, nobody's parent, holding nothing. */
  ghost predicate Reapable(k: Kernel, t: Tid) {
    t in k.tasks && k.tasks[t].status == Hanging
  }

  /** A hanging task is on no ready list, so `sys_wait`'s search there never finds it. */
  lemma ZombieNotReady(k: Kernel, t: Tid)
    requires Queues(k) && Places(k) && Reapable(k, t)
    ensures t !in k.ready && Without(k.ready, t) == k.ready && t != k.cpu && t != k.idle && t != k.init
  {
    assert PlaceOk(k, t) && PlaceOk(k, k.cpu);
    WithoutAbsent(k.ready, t);
  }

  lemma ReapQueues(k: Kernel, t: Tid)
    requires Queues(k) && Places(k) && Reapable(k, t)
    ensures Queues(Reap(k, t)) && Places(Reap(k, t))
  {
    ZombieNotReady(k, t);
    var k' := Reap(k, t);
    assert PlaceOk(k, t);
    forall u | u in k'.tasks && k'.tasks[u].at == InReady ensures u in k'.ready { assert u in k.ready; }
    forall s | s in k'.sems ensures SemQueue(k', s) { assert SemQueue(k, s); }
    forall u | u in k'.tasks ensures PlaceOk(k', u) { assert PlaceOk(k, u); }
  }

  lemma ReapSems(k: Kernel, t: Tid)
    requires Sems(k) && Places(k) && Reapable(k, t)
    ensures Sems(Reap(k, t))
  {
    var k' := Reap(k, t);
    assert PlaceOk(k, t);
    forall s, u ensures Inside(k', s, u) <==> Inside(k, s, u) {}
    forall s | s in k'.sems ensures SemOk(k', s) {
      assert SemOk(k, s);
      forall u | Pending(k, s, u) ensures Pending(k', s, u) {}
      SemOkFrame(k, k', s);
    }
  }

  lemma ReapPids(k: Kernel, t: Tid)
    requires Pids(k) && t in k.tasks && t != k.idle && t != k.init
    ensures Pids(Reap(k, t))
  {
    var k' := Reap(k, t);
    assert PidOk(k, t);
    forall u | u in k'.tasks ensures PidOk(k', u) { assert PidOk(k, u) && PidsDiffer(k, t, u); }
    forall u, v | u in k'.tasks && v in k'.tasks ensures PidsDiffer(k', u, v) { assert PidsDiffer(k, u, v); }
    assert k'.tasks.Keys == k.tasks.Keys - {t};
  }

  lemma ReapParents(k: Kernel, t: Tid)
    requires Forest(k) && Places(k) && Reapable(k, t) && t != k.idle && t != k.init
    ensures forall u {:trigger ParentOk(Reap(k, t), u)} | u in Reap(k, t).tasks ::
              ParentOk(Reap(k, t), u) && k.tasks[u].parent != t
  {
    assert PlaceOk(k, t);
    forall u | u in Reap(k, t).tasks ensures ParentOk(Reap(k, t), u) && k.tasks[u].parent != t {
      assert ParentOk(k, u);
    }
  }

  lemma ReapOrder(k: Kernel, t: Tid, z: nat, i: nat)
    requires Forest(k) && Places(k) && Reapable(k, t) && t != k.idle && t != k.init
    requires 2 <= z < |k.all| && k.all[z] == t && 2 <= i < |k.all| - 1
    ensures var cut := DropAt(k.all, z);
      cut[i] in k.tasks && cut[i] != t && Earlier(cut, k.tasks[cut[i]].parent, i)
  {
    var o := if i < z then i else i + 1;
    var u := k.all[o];
    assert u in k.tasks && u != t;
    ReapParents(k, t);
    assert ParentOk(Reap(k, t), u);
    assert Earlier(k.all, k.tasks[k.all[o]].parent, o);
    EarlierAfterReap(k.all, z, k.tasks[u].parent, i);
  }

  lemma ReapForest(k: Kernel, t: Tid)
    requires Forest(k) && Places(k) && Reapable(k, t) && t != k.idle && t != k.init
    ensures Forest(Reap(k, t))
  {
    var k' := Reap(k, t);
    assert t in k.all;
    var z :| 0 <= z < |k.all| && k.all[z] == t;
    WithoutAt(k.all, z);
    DropNoDup(k.all, z);
    ReapParents(k, t);
    forall u | u in k'.tasks ensures u in k'.all { assert u in k.all; }
    forall i | 2 <= i < |k'.all|
      ensures Earlier(k'.all, k'.tasks[k'.all[i]].parent, i)
    {
      ReapOrder(k, t, z, i);
    }
    assert forall i | 0 <= i < |k'.all| :: k'.all[i] in k'.all;
  }

  lemma EarlierAfterReap(all: seq<Tid>, z: nat, p: Tid, i: nat)
    requires z < |all| && i < |all| - 1 && p != all[z]
    requires Earlier(all, p, if i < z then i else i + 1)
    ensures Earlier(DropAt(all, z), p, i)
  {
    var j :| 0 <= j < (if i < z then i else i + 1) && all[j] == p;
    assert DropAt(all, z)[if j < z then j else j - 1] == p;
  }

  lemma ReapMissed(k: Kernel, t: Tid)
    requires NoZombieMissed(k) && t in k.tasks
    ensures NoZombieMissed(Reap(k, t))
  {
    var k' := Reap(k, t);
    forall u | u in k'.tasks ensures NotMissed(k', u) { assert NotMissed(k, u); }
  }

  lemma ReapInv(k: Kernel, t: Tid)
    requires Inv(k) && Reapable(k, t)
    ensures Inv(Reap(k, t)) && Zombies(Reap(k, t)) == Zombies(k) - {t}
  {
    ZombieNotReady(k, t);
    ReapQueues(k, t);
    ReapSems(k, t);
    ReapPids(k, t);
    ReapForest(k, t);
    ReapMissed(k, t);
  }

  /** `sys_wait` goes to sleep: only after finding no zombie child. */
  ghost predicate MustSleep(k: Kernel) {
    Inv(k) && (k.tasks[k.cpu].resume == Go || k.tasks[k.cpu].resume == Rescan) && FirstZombie(k, 0) == |k.all|
  }

  lemma WaitParks(k: Kernel)
    requires MustSleep(k)
    ensures Queues(Park(k, Waiting, Off, Rescan)) && Parked(Park(k, Waiting, Off, Rescan))
  {
    assert PlaceOk(k, k.cpu);
    OffParks(k, Waiting, Rescan);
  }

  lemma WaitSleepInv(k: Kernel)
    requires MustSleep(k)
    ensures CanSchedule(k) && Inv(Block(k, Waiting, Off, Rescan))
    ensures Zombies(Block(k, Waiting, Off, Rescan)) == Zombies(k)
  {
    InvCanSchedule(k);
    var k' := Park(k, Waiting, Off, Rescan);
    assert PlaceOk(k, k.cpu);
    forall t | t in k.tasks ensures SameStatic(k, k', t) {}
    MoveKeeps(k, k');
    NoZombieForSleeper(k);
    StatusZombies(k, k');
    hide Queues, Places, Parked, Sems, Forest, Pids, NoZombieMissed, Schedule, Zombies;
    WaitParks(k);
    ScheduleInv(k');
  }

  lemma NoZombieForSleeper(k: Kernel)
    requires Forest(k) && NoZombieMissed(k) && k.cpu in k.tasks && FirstZombie(k, 0) == |k.all|
    ensures NoZombieMissed(Park(k, Waiting, Off, Rescan))
  {
    var k' := Park(k, Waiting, Off, Rescan);
    forall t | t in k'.tasks ensures NotMissed(k', t) {
      assert NotMissed(k, t) && t in k.all;
      var i :| 0 <= i < |k.all| && k.all[i] == t;
      assert !HangingChild(k, k.all[i], k.cpu);
    }
  }

  /** The zombie `sys_wait` would collect now, if any. */
  function Collected(k: Kernel): set<Tid> {
    var z := FirstZombie(k, 0);
    if z < |k.all| then {k.all[z]} else {}
  }

  lemma WaitInv(k: Kernel)
    requires Inv(k) && (k.tasks[k.cpu].resume == Go || k.tasks[k.cpu].resume == Rescan)
    ensures CanSchedule(k) && Inv(WaitTry(k))
    ensures Zombies(WaitTry(k)) == Zombies(k) - Collected(k)
  {
    InvCanSchedule(k);
    assert PlaceOk(k, k.cpu);
    var g := Put(k, k.cpu, k.tasks[k.cpu].(resume := Go));
    hide Queues, Places, Sems, Forest, Pids, NoZombieMissed, Block, Reap;
    StayOnCpu(k, g.tasks[k.cpu]);
    StatusZombies(k, g);
    var z := FirstZombie(k, 0);
    if z < |k.all| {
      assert HangingChild(k, k.all[z], k.cpu);
      ReapInv(g, k.all[z]);
    } else if HasChild(k) {
      WaitSleepInv(k);
    }
  }

  // ----- exit

  lemma ExitBeginParents(k: Kernel, code: int)
    requires Forest(k) && Pids(k) && Places(k) && k.tasks[k.cpu].pid > 1
    ensures forall t {:trigger ParentOk(ExitBegin(k, code), t)} | t in ExitBegin(k, code).tasks :: ParentOk(ExitBegin(k, code), t)
  {
    var k' := ExitBegin(k, code);
    assert PlaceOk(k, k.idle) && PlaceOk(k, k.init) && k.idle != k.init;
    forall t | t in k'.tasks ensures ParentOk(k', t) { assert ParentOk(k, t); }
  }

  lemma ExitBeginForest(k: Kernel, code: int)
    requires Forest(k) && Pids(k) && Places(k) && k.tasks[k.cpu].pid > 1
    ensures Forest(ExitBegin(k, code))
  {
    var k' := ExitBegin(k, code);
    ExitBeginParents(k, code);
    forall i | 2 <= i < |k'.all|
      ensures Earlier(k'.all, k'.tasks[k'.all[i]].parent, i)
    {
      assert k.all[i] in k.tasks;
      if k.tasks[k.all[i]].parent == k.cpu {
        assert k'.all[1] == k.init;
      } else {
        assert Earlier(k.all, k.tasks[k.all[i]].parent, i);
      }
    }
    forall t | t in k'.tasks ensures t in k'.all { assert t in k.all; }
  }

  lemma ExitBeginPids(k: Kernel, code: int)
    requires Pids(k) && k.cpu in k.tasks
    ensures Pids(ExitBegin(k, code))
  {
    var k' := ExitBegin(k, code);
    assert k'.tasks.Keys == k.tasks.Keys;
    forall t | t in k'.tasks ensures PidOk(k', t) { assert PidOk(k, t); }
    forall t, u | t in k'.tasks && u in k'.tasks ensures PidsDiffer(k', t, u) { assert PidsDiffer(k, t, u); }
    assert |k'.tasks.Keys| == |k.tasks.Keys|;
  }

  lemma ExitBeginSems(k: Kernel, code: int)
    requires Sems(k) && k.cpu in k.tasks
    ensures Sems(ExitBegin(k, code))
  {
    var k' := ExitBegin(k, code);
    forall s, u ensures Inside(k', s, u) <==> Inside(k, s, u) {}
    forall s | s in k'.sems ensures SemOk(k', s) {
      assert SemOk(k, s);
      forall u | Pending(k, s, u) ensures Pending(k', s, u) {}
      SemOkFrame(k, k', s);
    }
  }

  lemma ExitBeginQueues(k: Kernel, code: int)
    requires Queues(k) && Places(k) && k.cpu != k.idle && k.cpu != k.init
    ensures Queues(ExitBegin(k, code))
  {
    var k' := ExitBegin(k, code);
    forall u | u in k'.tasks && k'.tasks[u].at == InReady ensures u in k'.ready { assert u in k.ready; }
    forall s | s in k'.sems ensures SemQueue(k', s) { assert SemQueue(k, s); }
  }

  lemma ExitBeginPlaces(k: Kernel, code: int)
    requires Places(k) && k.cpu != k.idle && k.cpu != k.init
    ensures Places(ExitBegin(k, code))
  {
    var k' := ExitBegin(k, code);
    forall u | u in k'.tasks ensures PlaceOk(k', u) { assert PlaceOk(k, u) && PlaceOk(k, k.cpu); }
  }

  lemma ExitBeginInv(k: Kernel, code: int)
    requires Inv(k) && k.tasks[k.cpu].pid > 1
    ensures Inv(ExitBegin(k, code)) && Zombies(ExitBegin(k, code)) == Zombies(k)
  {
    ExitBeginQueues(k, code);
    ExitBeginPlaces(k, code);
    ExitBeginForest(k, code);
    ExitBeginPids(k, code);
    ExitBeginSems(k, code);
    var k' := ExitBegin(k, code);
    forall t | t in k'.tasks ensures NotMissed(k', t) { assert NotMissed(k, t); }
  }

  /** The state of `sys_exit` just before the switch: the parent, if asleep, is first on the ready list. */
  function ExitParked(k: Kernel): Kernel
    requires CanSchedule(k) && k.tasks[k.cpu].parent in k.tasks
  {
    var p := k.tasks[k.cpu].parent;
    Park(if k.tasks[p].status == Waiting then Unblock(k, p) else k, Hanging, Off, Gone)
  }

  ghost predicate CanExit(k: Kernel) {
    && Inv(k) && k.tasks[k.cpu].resume == Go && k.tasks[k.cpu].exiting && k.tasks[k.cpu].inside == {}
  }

  /** A waiting parent is off every queue, so waking it cannot queue it twice. */
  lemma WaitingParentIsOff(k: Kernel)
    requires Inv(k)
    ensures CanSchedule(k)
    ensures var p := k.tasks[k.cpu].parent;
      p in k.tasks && (k.tasks[p].status == Waiting ==> k.tasks[p].at == Off && p !in k.ready && p != k.cpu)
  {
    InvCanSchedule(k);
    assert ParentOk(k, k.cpu) && PlaceOk(k, k.cpu);
    assert PlaceOk(k, k.tasks[k.cpu].parent);
  }

  lemma ExitQueues(k: Kernel)
    requires CanExit(k)
    ensures CanSchedule(k) && k.tasks[k.cpu].parent in k.tasks && Queues(ExitParked(k))
  {
    WaitingParentIsOff(k);
    InvCanSchedule(k);
    var p := k.tasks[k.cpu].parent;
    if k.tasks[p].status == Waiting {
      UnblockQueues(k, p);
      StayOffQueues(Unblock(k, p), ExitParked(k).tasks[k.cpu]);
    } else {
      StayOffQueues(k, ExitParked(k).tasks[k.cpu]);
    }
  }

  lemma ExitParks(k: Kernel)
    requires CanExit(k)
    ensures CanSchedule(k) && k.tasks[k.cpu].parent in k.tasks && Parked(ExitParked(k))
  {
    WaitingParentIsOff(k);
    assert PlaceOk(k, k.cpu) && PlaceOk(k, k.idle) && PlaceOk(k, k.init);
    var k' := ExitParked(k);
    forall t | t in k'.tasks ensures ParkOk(k', t) { assert PlaceOk(k, t); }
  }

  lemma ExitEndInv(k: Kernel)
    requires CanExit(k)
    ensures CanSchedule(k) && k.tasks[k.cpu].parent in k.tasks && Inv(ExitEnd(k))
    ensures k.cpu !in Zombies(k) && Zombies(ExitEnd(k)) == Zombies(k) + {k.cpu}
  {
    ExitQueues(k);
    assert PlaceOk(k, k.cpu);
    assert Zombies(ExitParked(k)) == Zombies(k) + {k.cpu};
    hide Queues, Places, Parked, Sems, Forest, Pids, NoZombieMissed, Schedule;
    ExitParks(k);
    ExitStatics(k);
    ScheduleInv(ExitParked(k));
  }

  lemma ExitStatics(k: Kernel)
    requires CanExit(k)
    ensures CanSchedule(k) && k.tasks[k.cpu].parent in k.tasks
    ensures Sems(ExitParked(k)) && Forest(ExitParked(k)) && Pids(ExitParked(k)) && NoZombieMissed(ExitParked(k))
  {
    WaitingParentIsOff(k);
    assert PlaceOk(k, k.cpu);
    var k' := ExitParked(k);
    forall t | t in k.tasks ensures SameStatic(k, k', t) {}
    MoveKeeps(k, k');
    ExitMissesNone(k);
  }

  lemma ExitMissesNone(k: Kernel)
    requires CanSchedule(k) && NoZombieMissed(k) && k.tasks[k.cpu].parent in k.tasks
    ensures NoZombieMissed(ExitParked(k))
  {
    var k' := ExitParked(k);
    forall t | t in k'.tasks ensures NotMissed(k', t) { assert NotMissed(k, t); }
  }
}
