/** The common tail of every block: waking idle when nothing is ready, and switching. */
module TaskDispatch {
  import opened Sequences
  import opened TaskState
  import opened TaskInvariant

  /** The records of `t` name the same process. */
  ghost predicate SameStatic(k: Kernel, k': Kernel, t: Tid)
    requires t in k.tasks && t in k'.tasks
  {
    var a, b := k.tasks[t], k'.tasks[t];
    a.pid == b.pid && a.parent == b.parent && a.inside == b.inside && a.exiting == b.exiting
  }

  /** Two states with the same processes and pids. */
  ghost predicate SameStatics(k: Kernel, k': Kernel) {
    && k'.tasks.Keys == k.tasks.Keys && k'.idle == k.idle && k'.init == k.init && k'.all == k.all && k'.pids == k.pids
    && forall t {:trigger SameStatic(k, k', t)} | t in k.tasks :: SameStatic(k, k', t)
  }

  lemma ForestFrame(k: Kernel, k': Kernel)
    requires Forest(k) && SameStatics(k, k')
    ensures Forest(k')
  {
    forall i | 2 <= i < |k'.all|
      ensures Earlier(k'.all, k'.tasks[k'.all[i]].parent, i)
    {
      assert Earlier(k.all, k.tasks[k.all[i]].parent, i);
      assert SameStatic(k, k', k.all[i]);
    }
    forall t | t in k'.tasks ensures ParentOk(k', t) {
      assert ParentOk(k, t);
      assert SameStatic(k, k', t) && SameStatic(k, k', k.tasks[t].parent);
    }
    assert SameStatic(k, k', k.idle) && SameStatic(k, k', k.init);
  }

  lemma PidsFrame(k: Kernel, k': Kernel)
    requires Pids(k) && SameStatics(k, k')
    ensures Pids(k')
  {
    forall t | t in k'.tasks ensures PidOk(k', t) {
      assert PidOk(k, t) && SameStatic(k, k', t);
    }
    forall t, u | t in k'.tasks && u in k'.tasks ensures PidsDiffer(k', t, u) {
      assert PidsDiffer(k, t, u) && SameStatic(k, k', t) && SameStatic(k, k', u);
    }
    assert |k'.tasks.Keys| == |k.tasks.Keys|;
    assert SameStatic(k, k', k.idle) && SameStatic(k, k', k.init);
  }

  lemma SemOkFrame(k: Kernel, k': Kernel, s: Sid)
    requires s in k.sems && s in k'.sems && k'.sems[s] == k.sems[s] && SemOk(k, s)
    requires forall t :: Inside(k', s, t) <==> Inside(k, s, t)
    requires forall t | Pending(k, s, t) :: Pending(k', s, t)
    ensures SemOk(k', s)
  {
    if k.sems[s].value == 1 && k.sems[s].waiters != [] {
      var t :| Pending(k, s, t);
      assert Pending(k', s, t);
    }
    if k.sems[s].mutex && k.sems[s].value == 0 {
      var t :| Inside(k, s, t);
      assert Inside(k', s, t);
    }
  }

  lemma SemsFrame(k: Kernel, k': Kernel)
    requires Sems(k) && SameStatics(k, k') && k'.sems == k.sems
    requires forall s, t | Pending(k, s, t) :: Pending(k', s, t)
    ensures Sems(k')
  {
    forall s, t ensures Inside(k', s, t) <==> Inside(k, s, t) {
      if t in k.tasks { assert SameStatic(k, k', t); }
    }
    forall s | s in k'.sems ensures SemOk(k', s) {
      assert SemOk(k, s);
      SemOkFrame(k, k', s);
    }
  }

  /** A task that is on no queue goes to the head of the ready list. */
  lemma UnblockQueues(k: Kernel, t: Tid)
    requires Queues(k) && t in k.tasks && k.tasks[t].at == Off
    ensures Queues(Unblock(k, t))
  {
    var k' := Unblock(k, t);
    assert t !in k.ready;
    assert forall i | 0 <= i < |k'.ready| :: k'.ready[i] == if i == 0 then t else k.ready[i - 1];
    forall u | u in k'.tasks && k'.tasks[u].at == InReady ensures u in k'.ready {
      if u != t { assert u in k.ready; }
    }
    forall s | s in k'.sems ensures SemQueue(k', s) {
      assert SemQueue(k, s);
    }
  }

  lemma IdleIsOff(k: Kernel)
    requires Queues(k) && Parked(k) && k.ready == []
    ensures k.tasks[k.idle].at == Off && k.tasks[k.idle].status == Blocked
  {
    assert ParkOk(k, k.idle);
    assert k.idle !in k.ready;
  }

  /** `schedule` always finds a next task: with an empty ready list idle is blocked and off every queue. */
  lemma WakeIdleMid(k: Kernel)
    requires Mid(k)
    ensures Mid(WakeIdle(k)) && WakeIdle(k).ready != []
  {
    if k.ready == [] {
      IdleIsOff(k);
      var k' := Unblock(k, k.idle);
      UnblockQueues(k, k.idle);
      MoveKeeps(k, k');
      forall t | t in k'.tasks ensures ParkOk(k', t) {
        assert ParkOk(k, t);
      }
      forall t | t in k'.tasks ensures NotMissed(k', t) {
        assert NotMissed(k, t);
      }
    }
  }

  /** What a change of status, place or resume point alone leaves intact. */
  lemma MoveKeeps(k: Kernel, k': Kernel)
    requires Sems(k) && Forest(k) && Pids(k) && SameStatics(k, k') && k'.sems == k.sems
    requires forall s, t | Pending(k, s, t) :: Pending(k', s, t)
    ensures Sems(k') && Forest(k') && Pids(k')
  {
    ForestFrame(k, k');
    PidsFrame(k, k');
    SemsFrame(k, k');
  }

  lemma DispatchQueues(k: Kernel)
    requires Queues(k) && k.ready != []
    ensures Queues(Dispatch(k))
  {
    var k', next := Dispatch(k), k.ready[0];
    NoDupTail(k.ready);
    forall u | u in k'.tasks && k'.tasks[u].at == InReady ensures u in k'.ready {
      assert u in k.ready;
    }
    forall s | s in k'.sems ensures SemQueue(k', s) {
      assert SemQueue(k, s);
    }
  }

  lemma DispatchPlaces(k: Kernel)
    requires Queues(k) && Parked(k) && k.ready != []
    ensures Places(Dispatch(k))
  {
    var k' := Dispatch(k);
    forall t | t in k'.tasks ensures PlaceOk(k', t) {
      assert ParkOk(k, t);
    }
  }

  lemma DispatchInv(k: Kernel)
    requires Mid(k) && k.ready != []
    ensures Inv(Dispatch(k))
  {
    var k' := Dispatch(k);
    DispatchQueues(k);
    DispatchPlaces(k);
    MoveKeeps(k, k');
    forall t | t in k'.tasks ensures NotMissed(k', t) {
      assert NotMissed(k, t);
    }
  }

  lemma DispatchZombies(k: Kernel)
    requires Parked(k) && Queues(k) && k.ready != []
    ensures Zombies(Dispatch(k)) == Zombies(k)
  {
    assert ParkOk(k, k.ready[0]);
  }

  lemma WakeIdleZombies(k: Kernel)
    requires Parked(k)
    ensures Zombies(WakeIdle(k)) == Zombies(k)
  {
  }

  /** From a parked state `schedule` restores the whole invariant. */
  lemma ScheduleInv(k: Kernel)
    requires Mid(k) && k.tasks[k.cpu].status != Running
    ensures CanSchedule(k) && Inv(Schedule(k)) && Zombies(Schedule(k)) == Zombies(k)
  {
    assert Requeue(k) == k;
    WakeIdleMid(k);
    WakeIdleZombies(k);
    DispatchInv(WakeIdle(k));
    DispatchZombies(WakeIdle(k));
  }
}
