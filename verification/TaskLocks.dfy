/** What becomes of a program that takes a lock it already has. */
module TaskLocks {
  import opened TaskState
  import opened TaskInvariant
  import opened TaskRuns

  // ----- a lock taken twice

  /** `t` has `s` and waits for it. */
  ghost predicate SelfLocked(k: Kernel, s: Sid, t: Tid) {
    && s in k.sems && k.sems[s].mutex && Inside(k, s, t) && k.tasks[t].resume == Retest(s)
  }

  /** The parts of the state that a switch leaves alone. */
  ghost predicate SameSaved(k: Kernel, k': Kernel, t: Tid) {
    k'.sems == k.sems && t in k.tasks && t in k'.tasks
    && k'.tasks[t].resume == k.tasks[t].resume && k'.tasks[t].inside == k.tasks[t].inside
  }

  lemma ScheduleSaves(k: Kernel, t: Tid)
    requires CanSchedule(k) && t in k.tasks
    ensures SameSaved(k, Schedule(k), t)
  {
  }

  lemma RetestStuck(k: Kernel, s: Sid, t: Tid)
    requires Inv(k) && SelfLocked(k, s, t) && k.cpu == t && CanSchedule(k)
    ensures SelfLocked(DownTry(k, s), s, t)
  {
    assert SemOk(k, s);
    var sem := k.sems[s];
    ScheduleSaves(Park(k.(sems := k.sems[s := sem.(waiters := sem.waiters + [t])]), Blocked, InSem(s), Retest(s)), t);
  }

  lemma OtherDownStuck(k: Kernel, q: Sid, s: Sid, t: Tid)
    requires Inv(k) && SelfLocked(k, s, t) && k.cpu != t && CanSchedule(k) && q in k.sems
    ensures SelfLocked(DownTry(k, q), s, t)
  {
    var sem := k.sems[q];
    ScheduleSaves(Park(k.(sems := k.sems[q := sem.(waiters := sem.waiters + [k.cpu])]), Blocked, InSem(q), Retest(q)), t);
  }

  lemma UpStuck(k: Kernel, q: Sid, s: Sid, t: Tid)
    requires Inv(k) && Enabled(k, UpE(q)) && SelfLocked(k, s, t)
    ensures SelfLocked(Next(k, UpE(q)), s, t)
  {
    EnabledFacts(k, UpE(q));
    assert SemOk(k, s);
    assert Inside(k, q, k.cpu) <==> q in k.tasks[k.cpu].inside;
  }

  lemma WaitStuck(k: Kernel, s: Sid, t: Tid)
    requires Inv(k) && SelfLocked(k, s, t) && k.cpu != t && CanSchedule(k)
    requires forall i | 0 <= i < |k.all| :: k.all[i] in k.tasks
    ensures SelfLocked(WaitTry(k), s, t)
  {
    assert PlaceOk(k, t);
    ScheduleSaves(Park(k, Waiting, Off, Rescan), t);
  }

  lemma ExitStuck(k: Kernel, s: Sid, t: Tid)
    requires SelfLocked(k, s, t) && k.cpu != t && CanSchedule(k) && k.tasks[k.cpu].parent in k.tasks
    ensures SelfLocked(ExitEnd(k), s, t)
  {
    var p := k.tasks[k.cpu].parent;
    var k1 := if k.tasks[p].status == Waiting then Unblock(k, p) else k;
    ScheduleSaves(Park(k1, Hanging, Off, Gone), t);
  }

  lemma SlotWakeStuck(k: Kernel, r: Rid, s: Sid, t: Tid)
    requires SelfLocked(k, s, t) && r in k.slots && k.slots[r] in k.tasks
    ensures SelfLocked(SlotWake(k, r), s, t)
  {
  }

  lemma CloneStuck(k: Kernel, u: Tid, prio: nat, s: Sid, t: Tid)
    requires SelfLocked(k, s, t) && u !in k.tasks && k.cpu in k.tasks
    ensures SelfLocked(Clone(k, u, prio), s, t)
  {
  }

  lemma AdoptStuck(k: Kernel, code: int, s: Sid, t: Tid)
    requires SelfLocked(k, s, t) && k.cpu in k.tasks
    ensures SelfLocked(ExitBegin(k, code), s, t)
  {
  }

  lemma TickStuck(k: Kernel, s: Sid, t: Tid)
    requires SelfLocked(k, s, t) && CanSchedule(k)
    ensures SelfLocked(Tick(k), s, t)
  {
    ScheduleSaves(k, t);
  }

  lemma YieldStuck(k: Kernel, s: Sid, t: Tid)
    requires SelfLocked(k, s, t) && CanSchedule(k)
    ensures SelfLocked(Yield(k), s, t)
  {
    ScheduleSaves(Put(k, k.cpu, k.tasks[k.cpu].(status := Ready, at := InReady)).(ready := k.ready + [k.cpu]), t);
  }

  /** Others that block. */
  lemma ParkStuck(k: Kernel, s: Sid, t: Tid)
    requires SelfLocked(k, s, t) && CanSchedule(k) && k.cpu != t
    ensures SelfLocked(IdleBlock(k), s, t) && forall r :: SelfLocked(SlotWait(k, r), s, t)
  {
    ScheduleSaves(Park(k, Blocked, Off, IdleLoop), t);
    forall r ensures SelfLocked(SlotWait(k, r), s, t) {
      ScheduleSaves(Park(k.(slots := k.slots[r := k.cpu]), Blocked, InSlot(r), Go), t);
    }
  }

  lemma WhereStuck(k: Kernel, s: Sid, t: Tid)
    requires SelfLocked(k, s, t)
    ensures t in k.tasks && k.tasks[t].resume == Retest(s)
  {
  }

  /** No step of any program lets it through. */
  lemma SelfLockedStep(k: Kernel, e: Event, s: Sid, t: Tid)
    requires Inv(k) && Enabled(k, e) && SelfLocked(k, s, t)
    ensures SelfLocked(Next(k, e), s, t)
  {
    hide Inv, CanSchedule, SelfLocked, Tick, Yield, DownTry, Up, SlotWait, SlotWake, Clone, WaitTry, ExitBegin, ExitEnd, IdleBlock;
    EnabledFacts(k, e);
    WhereStuck(k, s, t);
    match e
    case TickE => TickStuck(k, s, t);
    case YieldE => YieldStuck(k, s, t);
    case DownE(q) => OtherDownStuck(k, q, s, t);
    case RetestE => if k.cpu == t { RetestStuck(k, s, t); } else { OtherDownStuck(k, k.tasks[k.cpu].resume.s, s, t); }
    case UpE(q) => UpStuck(k, q, s, t);
    case SlotWaitE(r) => ParkStuck(k, s, t);
    case SlotWakeE(r) => SlotWakeStuck(k, r, s, t);
    case CloneE(u, prio) => CloneStuck(k, u, prio, s, t);
    case WaitE => WaitStuck(k, s, t);
    case RescanE => WaitStuck(k, s, t);
    case ExitBeginE(code) => AdoptStuck(k, code, s, t);
    case ExitEndE => ExitStuck(k, s, t);
    case IdleBlockE => ParkStuck(k, s, t);
  }

  /** A task inside a semaphore that downs it again sleeps: it finds the count at 0. */
  lemma SelfDownSleeps(k: Kernel, s: Sid)
    requires Inv(k) && Enabled(k, DownE(s)) && Inside(k, s, k.cpu)
    ensures SelfLocked(Next(k, DownE(s)), s, k.cpu)
  {
    EnabledFacts(k, DownE(s));
    assert SemOk(k, s);
    var sem := k.sems[s];
    ScheduleSaves(Park(k.(sems := k.sems[s := sem.(waiters := sem.waiters + [k.cpu])]), Blocked, InSem(s), Retest(s)), k.cpu);
  }

  /** And it never gets past that down: in every later state of the run it still has the semaphore and waits for it,
      so that it is asleep, ready to re-test, or re-testing. */
  lemma {:induction false} SelfDownNeverReturns(ks: seq<Kernel>, es: seq<Event>, i: nat, j: nat, s: Sid)
    requires Run(ks, es) && |ks| == |es| + 1 && i < j < |ks| && es[i] == DownE(s) && Inside(ks[i], s, ks[i].cpu)
    ensures SelfLocked(ks[j], s, ks[i].cpu)
    decreases j
  {
    hide *;
    RunStep(ks, es, j - 1);
    RunStep(ks, es, i);
    if j - 1 == i {
      SelfDownSleeps(ks[i], s);
    } else {
      SelfDownNeverReturns(ks, es, i, j - 1, s);
      SelfLockedStep(ks[j - 1], es[j - 1], s, ks[i].cpu);
    }
  }
}
