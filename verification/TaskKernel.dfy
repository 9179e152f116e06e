/** The kernel's task code as it runs: global lists and task records updated in place, one atomic step a method. */
module TaskKernel {
  import opened Sequences
  import opened Bitmaps
  import opened PagePool
  import opened TaskState
  import opened TaskInvariant
  import opened TaskSteps
  import opened ProcessSteps
  import opened TaskRuns

  /** The 1024 bits of the pid map, and the set of them that is set. */
  ghost predicate Holds(pidMap: Bitmap, pids: set<nat>)
    reads pidMap.bits
  {
    && pidMap.bytesLen == PID_COUNT / 8 && pidMap.bits.Length == PID_COUNT / 8
    && pids == Marked(pidMap.Bits(), PID_COUNT)
  }

  class Machine {
    const idleTask: Tid
    const initProc: Tid
    var running: Tid
    var readyTasks: seq<Tid>
    var allTasks: seq<Tid>
    var tasks: map<Tid, Task>
    var sems: map<Sid, Sem>
    var slots: map<Rid, Tid>
    const pidMap: Bitmap
    // The set bits of the pid map.
    ghost var pids: set<nat>

    /** `task_init`, with the semaphores `sema_init` has set up. */
    constructor (idle: Tid, main: Tid, sems: map<Sid, Sem>)
      requires idle != main && forall s | s in sems :: FreshSem(sems[s])
      ensures State() == Boot(idle, main, sems) && Good() && fresh(pidMap.bits)
    {
      hide Holds, LeastFree, Inv, Marked;
      var bits := new bv8[PID_COUNT / 8];
      pidMap := new Bitmap(PID_COUNT / 8, bits);
      pids := {};
      idleTask, initProc := idle, main;
      running, readyTasks, allTasks := main, [idle], [idle, main];
      this.sems, slots := sems, map[];
      new;
      FirstPids(pidMap);
      var p0 := AllocPid();
      assert pids == {0};
      var p1 := AllocPid();
      assert pids == {0, 1};
      tasks := map[idle := Task(p0, idle, 30, 30, Ready, InReady, IdleLoop, {}, false, 0),
                   main := Task(p1, main, 30, 30, Running, OnCpu, Go, {}, false, 0)];
      BootInv(idle, main, sems);
    }

    ghost function State(): Kernel
      reads this
    {
      Kernel(running, idleTask, initProc, readyTasks, allTasks, tasks, sems, slots, pids)
    }

    ghost predicate Good()
      reads this, pidMap.bits
    {
      Inv(State()) && Holds(pidMap, pids)
    }

    method DoSchedule()
      requires CanSchedule(State())
      modifies this
      ensures State() == Schedule(old(State()))
    {
      var cur := tasks[running];
      if cur.status == Running {
        tasks := tasks[running := cur.(status := Ready, ticks := cur.prio, at := InReady)];
        readyTasks := readyTasks + [running];
      }
      if readyTasks == [] {
        TaskUnblock(idleTask);
      }
      var next := readyTasks[0];
      readyTasks := readyTasks[1..];
      tasks := tasks[next := tasks[next].(status := Running, at := OnCpu)];
      running := next;
    }

    method TaskUnblock(t: Tid)
      requires t in tasks
      modifies this
      ensures State() == Unblock(old(State()), t)
    {
      readyTasks := [t] + readyTasks;
      tasks := tasks[t := tasks[t].(at := InReady)];
    }

    method TaskBlock(status: Status, at: Place, resume: Resume)
      requires CanSchedule(State()) && status != Running
      modifies this
      ensures State() == Block(old(State()), status, at, resume)
    {
      tasks := tasks[running := tasks[running].(status := status, at := at, resume := resume)];
      DoSchedule();
    }

    method TaskYield()
      requires Good() && Enabled(State(), YieldE)
      modifies this
      ensures State() == Next(old(State()), YieldE) && Good()
    {
      hide Holds, Queues, Places, Sems, Forest, NoZombieMissed, Pids;
      StepInv(State(), YieldE);
      InvCanSchedule(State());
      readyTasks := readyTasks + [running];
      tasks := tasks[running := tasks[running].(status := Ready, at := InReady)];
      DoSchedule();
    }

    method TimerTick()
      requires Good()
      modifies this
      ensures State() == Next(old(State()), TickE) && Good()
    {
      hide Holds, Queues, Places, Sems, Forest, NoZombieMissed, Pids;
      StepInv(State(), TickE);
      InvCanSchedule(State());
      var cur := tasks[running];
      if cur.ticks == 0 {
        DoSchedule();
      } else {
        tasks := tasks[running := cur.(ticks := cur.ticks - 1)];
      }
    }

    /** One pass of the loop in `sema_down`: the first of a call, or the re-test after a wake-up. */
    method SemaDownPass(s: Sid) returns (taken: bool)
      requires Good() && s in sems
      requires tasks[running].resume == Go || tasks[running].resume == Retest(s)
      modifies this
      ensures CanSchedule(old(State())) && State() == DownTry(old(State()), s) && Good()
      ensures taken <==> old(sems[s].value) != 0
    {
      hide Holds, Queues, Places, Sems, Forest, NoZombieMissed, Pids;
      DownInv(State(), s);
      InvCanSchedule(State());
      var sem := sems[s];
      taken := sem.value != 0;
      if !taken {
        sems := sems[s := sem.(waiters := sem.waiters + [running])];
        TaskBlock(Blocked, InSem(s), Retest(s));
      } else {
        var cur := tasks[running];
        sems := sems[s := sem.(value := sem.value - 1)];
        tasks := tasks[running := cur.(resume := Go, inside := if sem.mutex then cur.inside + {s} else cur.inside)];
      }
    }

    method SemaUp(s: Sid)
      requires Good() && Enabled(State(), UpE(s))
      modifies this
      ensures State() == Next(old(State()), UpE(s)) && Good()
    {
      hide Holds, Queues, Places, Sems, Forest, NoZombieMissed, Pids;
      StepInv(State(), UpE(s));
      EnabledFacts(State(), UpE(s));
      hide Inv;
      var waiters := sems[s].waiters;
      sems := sems[s := sems[s].(value := sems[s].value + 1, waiters := if waiters == [] then [] else waiters[1..])];
      if waiters != [] {
        TaskUnblock(waiters[0]);
      }
      tasks := tasks[running := tasks[running].(inside := tasks[running].inside - {s})];
    }

    /** `alloc_pid`: first fit over the pid map. */
    method AllocPid() returns (pid: int)
      requires Holds(pidMap, pids)
      modifies this`pids, pidMap.bits
      ensures Holds(pidMap, pids)
      ensures if LeastFree(old(pids), 0) == PID_COUNT then pid == -1 && pids == old(pids)
              else pid == LeastFree(old(pids), 0) && pid !in old(pids) && pids == old(pids) + {pid}
    {
      ghost var bits := pidMap.Bits();
      var idx, _ := pidMap.Alloc(1);
      FirstFitPid(bits, idx);
      pid := idx;
      if idx != -1 { pids := pids + {idx}; }
    }

    method SysClone(t: Tid, prio: nat) returns (pid: nat)
      requires Good() && Enabled(State(), CloneE(t, prio))
      modifies this, pidMap.bits
      ensures State() == Next(old(State()), CloneE(t, prio)) && Good()
      ensures t in tasks && pid == tasks[t].pid && pid !in old(pids) && tasks[t].parent == old(running)
    {
      hide Holds, Queues, Places, Sems, Forest, NoZombieMissed;
      StepInv(State(), CloneE(t, prio));
      PidAvailable(State());
      pid := AllocPid();
      tasks := tasks[t := Task(pid, running, prio, prio, Ready, InReady, Go, {}, false, 0)];
      allTasks := allTasks + [t];
      readyTasks := readyTasks + [t];
    }

    /** `list_traversal` of all_tasks_list with `find_hanging_child`. */
    method FindHangingChild() returns (i: nat)
      requires forall j | 0 <= j < |allTasks| :: allTasks[j] in tasks
      ensures i == FirstZombie(State(), 0)
    {
      i := 0;
      while i < |allTasks| && !(tasks[allTasks[i]].parent == running && tasks[allTasks[i]].status == Hanging)
        invariant i <= |allTasks| && FirstZombie(State(), 0) == FirstZombie(State(), i)
        decreases |allTasks| - i
      {
        i := i + 1;
      }
    }

    method FindChild() returns (found: bool)
      requires forall j | 0 <= j < |allTasks| :: allTasks[j] in tasks
      ensures found <==> HasChild(State())
    {
      var i := 0;
      while i < |allTasks|
        invariant i <= |allTasks| && forall j | 0 <= j < i :: !ChildOf(State(), allTasks[j], running)
      {
        if tasks[allTasks[i]].parent == running {
          assert ChildOf(State(), State().all[i], State().cpu);
          return true;
        }
        i := i + 1;
      }
      assert forall j | 0 <= j < |State().all| :: State().all[j] == allTasks[j];
      return false;
    }

    method ReleaseChild(child: Tid)
      requires child in tasks && tasks[child].pid < PID_COUNT && Holds(pidMap, pids)
      modifies this, pidMap.bits
      ensures State() == Reap(old(State()), child) && Holds(pidMap, pids)
    {
      readyTasks := RemoveFirst(readyTasks, child);
      allTasks := RemoveFirst(allTasks, child);
      ReleasePid(tasks[child].pid);
      tasks := tasks - {child};
    }

    method ReleasePid(pid: nat)
      requires pid < PID_COUNT && Holds(pidMap, pids)
      modifies this`pids, pidMap.bits
      ensures Holds(pidMap, pids) && pids == old(pids) - {pid}
    {
      ghost var bits := pidMap.Bits();
      pidMap.Set(pid, false);
      pids := pids - {pid};
      assert Marked(bits[pid := false], PID_COUNT) == Marked(bits, PID_COUNT) - {pid};
    }

    /** One pass of the loop in `sys_wait`: collect a zombie with its exit status, give up, or sleep. */
    method SysWaitPass() returns (pid: int, status: int, returned: bool)
      requires Good() && (tasks[running].resume == Go || tasks[running].resume == Rescan)
      modifies this, pidMap.bits
      ensures CanSchedule(old(State()))
      ensures forall i | 0 <= i < |old(allTasks)| :: old(allTasks)[i] in old(tasks)
      ensures State() == WaitTry(old(State())) && Good()
      ensures returned && pid != -1 ==> exists t | t in Collected(old(State())) :: 
        pid == old(tasks)[t].pid && status == old(tasks)[t].code && t !in tasks
      ensures returned && pid == -1 ==> Collected(old(State())) == {} && !HasChild(old(State()))
      ensures !returned ==> Collected(old(State())) == {} && HasChild(old(State()))
    {
      hide Holds, Queues, Places, Sems, Forest, NoZombieMissed, Pids;
      WaitInv(State());
      AllListed(State());
      InvCanSchedule(State());
      hide Inv, Schedule;
      status := 0;
      var i := FindHangingChild();
      if i < |allTasks| {
        assert i == FirstZombie(old(State()), 0);
        var child := allTasks[i];
        pid, status, returned := tasks[child].pid, tasks[child].code, true;
        assert child in Collected(old(State()));
        tasks := tasks[running := tasks[running].(resume := Go)];
        ReleaseChild(child);
      } else {
        var any := FindChild();
        pid, returned := -1, !any;
        if any {
          TaskBlock(Waiting, Off, Rescan);
        } else {
          tasks := tasks[running := tasks[running].(resume := Go)];
        }
      }
    }

    /** `list_traversal` of all_tasks_list with `init_adopt_a_child`. */
    method AdoptChildren()
      requires running in tasks
      requires forall i | 0 <= i < |allTasks| :: allTasks[i] in tasks
      requires forall t {:trigger Listed(State(), t)} | t in tasks :: Listed(State(), t)
      modifies this`tasks
      ensures tasks == map t | t in old(tasks) :: Adopted(old(State()), t)
    {
      ghost var k := State();
      var i := 0;
      while i < |allTasks|
        invariant i <= |allTasks| && tasks.Keys == k.tasks.Keys
        invariant forall j | 0 <= j < i :: tasks[allTasks[j]] == Adopted(k, allTasks[j])
        invariant forall t | t in k.tasks :: tasks[t] == k.tasks[t] || tasks[t] == Adopted(k, t)
      {
        var t := allTasks[i];
        if tasks[t].parent == running {
          tasks := tasks[t := tasks[t].(parent := initProc)];
        }
        i := i + 1;
      }
      forall t | t in tasks ensures tasks[t] == Adopted(k, t) {
        assert Listed(k, t);
      }
    }

    /** `sys_exit` up to the release of resources. */
    method SysExitAdopt(status: int)
      requires Good() && Enabled(State(), ExitBeginE(status))
      modifies this
      ensures State() == Next(old(State()), ExitBeginE(status)) && Good()
    {
      hide Holds, Queues, Places, Sems, Forest, NoZombieMissed, Pids;
      StepInv(State(), ExitBeginE(status));
      AllListed(State());
      ghost var k := State();
      assert Next(k, ExitBeginE(status)) == ExitBegin(k, status);
      hide Inv, Next;
      AdoptChildren();
      tasks := tasks[running := tasks[running].(exiting := true, code := status)];
      assert tasks == ExitBegin(k, status).tasks;
    }

    /** The rest of `sys_exit`. */
    method SysExitFinish()
      requires Good() && Enabled(State(), ExitEndE)
      modifies this
      ensures State() == Next(old(State()), ExitEndE) && Good()
    {
      hide Holds, Queues, Places, Sems, Forest, NoZombieMissed, Pids;
      StepInv(State(), ExitEndE);
      EnabledFacts(State(), ExitEndE);
      var parent := tasks[running].parent;
      if tasks[parent].status == Waiting {
        TaskUnblock(parent);
      }
      TaskBlock(Hanging, Off, Gone);
    }

    /** `ioq_wait` and `wakeup` on a waiter pointer. */
    method IoqWait(r: Rid)
      requires Good() && Enabled(State(), SlotWaitE(r))
      modifies this
      ensures State() == Next(old(State()), SlotWaitE(r)) && Good()
    {
      hide Holds, Queues, Places, Sems, Forest, NoZombieMissed, Pids;
      StepInv(State(), SlotWaitE(r));
      InvCanSchedule(State());
      slots := slots[r := running];
      TaskBlock(Blocked, InSlot(r), Go);
    }

    method IoqWakeup(r: Rid)
      requires Good() && r in slots
      modifies this
      ensures State() == Next(old(State()), SlotWakeE(r)) && Good()
    {
      hide Holds, Queues, Places, Sems, Forest, NoZombieMissed, Pids;
      StepInv(State(), SlotWakeE(r));
      EnabledFacts(State(), SlotWakeE(r));
      TaskUnblock(slots[r]);
      slots := slots - {r};
    }

    /** The body of the loop in `idle`. */
    method IdlePass()
      requires Good() && Enabled(State(), IdleBlockE)
      modifies this
      ensures State() == Next(old(State()), IdleBlockE) && Good()
    {
      hide Holds, Queues, Places, Sems, Forest, NoZombieMissed, Pids;
      StepInv(State(), IdleBlockE);
      InvCanSchedule(State());
      TaskBlock(Blocked, Off, IdleLoop);
    }
  }

  /** A clear map: idle gets pid 0 and main pid 1. */
  lemma FirstPids(pidMap: Bitmap)
    requires pidMap.bytesLen == PID_COUNT / 8 && pidMap.bits.Length == PID_COUNT / 8
    requires forall i | 0 <= i < PID_COUNT :: !pidMap.Bits()[i]
    ensures Holds(pidMap, {}) && LeastFree({}, 0) == 0 && LeastFree({0}, 0) == 1
  {
  }

  /** The one-bit search is the search for the least free pid. */
  lemma FirstFitPid(bits: seq<bool>, ret: int)
    requires PID_COUNT <= |bits| && FirstFit(bits, PID_COUNT, 1, ret)
    ensures LeastFree(Marked(bits, PID_COUNT), 0) == if ret == -1 then PID_COUNT else ret
    ensures ret != -1 ==> !bits[ret] && Marked(Fill(bits, ret, 1), PID_COUNT) == Marked(bits, PID_COUNT) + {ret}
  {
    var used := Marked(bits, PID_COUNT);
    LeastFreeIsLeast(used, 0);
    SingleBitExact(bits, PID_COUNT, ret);
    if ret != -1 {
      assert ClearRun(bits, ret, 1) && !bits[ret] && ret !in used;
      forall p: nat | p < ret ensures p in used { assert !ClearRun(bits, p, 1); }
    } else {
      forall p: nat | p < PID_COUNT ensures p in used { assert bits[p]; }
    }
  }

  ghost predicate Listed(k: Kernel, t: Tid) {
    exists i :: 0 <= i < |k.all| && k.all[i] == t
  }

  lemma AllListed(k: Kernel)
    requires Inv(k)
    ensures forall t {:trigger Listed(k, t)} | t in k.tasks :: Listed(k, t)
    ensures forall i | 0 <= i < |k.all| :: k.all[i] in k.tasks
    ensures k.cpu in k.tasks && forall t | t in k.tasks :: k.tasks[t].pid < PID_COUNT
  {
    forall t | t in k.tasks ensures k.tasks[t].pid < PID_COUNT { assert PidOk(k, t); }
    forall t | t in k.tasks ensures Listed(k, t) { assert t in k.all; }
  }

  function Adopted(k: Kernel, t: Tid): Task
    requires t in k.tasks
  {
    if k.tasks[t].parent == k.cpu then k.tasks[t].(parent := k.init) else k.tasks[t]
  }
}
