/** Who runs and for how long: the ready list as a queue, quanta, and the order in which semaphores wake. */
module Scheduling {
  import opened TaskState
  import opened TaskInvariant
  import opened TaskSteps
  import opened ProcessSteps
  import opened TaskRuns
  import opened TaskAsserts

  // ----- the ready list

  /** The running task and those behind it. */
  datatype Line = Line(cpu: Tid, ready: seq<Tid>)

  /** The first of the queue runs; idle, if there is none. */
  function Turn(queue: seq<Tid>, idle: Tid): Line {
    if queue == [] then Line(idle, []) else Line(queue[0], queue[1..])
  }

  /** Who runs after a step, and who is ready in what order.  A task that is sent away or made goes to the end, one
      that is woken to the front. */
  ghost function LineAfter(k: Kernel, e: Event): Line
    requires Inv(k) && Enabled(k, e)
  {
    EnabledFacts(k, e);
    match e
    case TickE => if k.tasks[k.cpu].ticks == 0 then Turn(k.ready + [k.cpu], k.idle) else Line(k.cpu, k.ready)
    case YieldE => Turn(k.ready + [k.cpu], k.idle)
    case UpE(s) => Line(k.cpu, (if k.sems[s].waiters == [] then [] else [k.sems[s].waiters[0]]) + k.ready)
    case SlotWakeE(r) => Line(k.cpu, [k.slots[r]] + k.ready)
    case CloneE(t, _) => Line(k.cpu, k.ready + [t])
    case ExitBeginE(_) => Line(k.cpu, k.ready)
    case ExitEndE =>
      var p := k.tasks[k.cpu].parent;
      Turn((if k.tasks[p].status == Waiting then [p] else []) + k.ready, k.idle)
    case _ => if Switches(k, e) then Turn(k.ready, k.idle) else Line(k.cpu, k.ready)
  }

  lemma SwitchTurns(k: Kernel)
    requires CanSchedule(k)
    ensures var q := if k.tasks[k.cpu].status == Running then k.ready + [k.cpu] else k.ready;
      Line(Schedule(k).cpu, Schedule(k).ready) == Turn(q, k.idle)
  {
  }

  lemma SwitchingLine(k: Kernel, e: Event)
    requires Inv(k) && Enabled(k, e) && Switches(k, e)
    ensures Line(Next(k, e).cpu, Next(k, e).ready) == LineAfter(k, e)
  {
    hide Inv, Schedule, Turn;
    EnabledFacts(k, e);
    InvCanSchedule(k);
    EnteringIsEntry(k, e);
    SwitchTurns(Entering(k, e));
    if !e.TickE? { EnteringParked(k, e); }
    assert [] + k.ready == k.ready;
  }

  lemma StayingLine(k: Kernel, e: Event)
    requires Inv(k) && Enabled(k, e) && !Switches(k, e)
    ensures Line(Next(k, e).cpu, Next(k, e).ready) == LineAfter(k, e)
  {
    hide Queues, Places, Sems, Forest, Pids, NoZombieMissed, Schedule;
    EnabledFacts(k, e);
    InvCanSchedule(k);
    if (e.WaitE? || e.RescanE?) && FirstZombie(k, 0) < |k.all| {
      assert HangingChild(k, k.all[FirstZombie(k, 0)], k.cpu);
      ZombieNotReady(k, k.all[FirstZombie(k, 0)]);
    }
    assert [] + k.ready == k.ready;
  }

  /** Every step does this to the line, and nothing else. */
  lemma LineIsExact(k: Kernel, e: Event)
    requires Inv(k) && Enabled(k, e)
    ensures Line(Next(k, e).cpu, Next(k, e).ready) == LineAfter(k, e)
  {
    hide Inv, Enabled, Next, LineAfter, Switches;
    if Switches(k, e) { SwitchingLine(k, e); } else { StayingLine(k, e); }
  }

  // ----- quanta

  /** Nobody's quantum or priority changes but that of `but`. */
  ghost predicate SameQuanta(k: Kernel, k': Kernel, but: set<Tid>) {
    forall t {:trigger k'.tasks[t]} | t in k.tasks && t in k'.tasks && t !in but ::
      k'.tasks[t].ticks == k.tasks[t].ticks && k'.tasks[t].prio == k.tasks[t].prio
  }

  lemma SwitchQuanta(k: Kernel)
    requires CanSchedule(k)
    ensures SameQuanta(k, Schedule(k), if k.tasks[k.cpu].status == Running then {k.cpu} else {})
    ensures Schedule(k).tasks.Keys == k.tasks.Keys && Schedule(k).tasks[k.cpu].prio == k.tasks[k.cpu].prio
    ensures k.tasks[k.cpu].status == Running ==> Schedule(k).tasks[k.cpu].ticks == k.tasks[k.cpu].prio
  {
  }

  /** The timer takes one tick of the running task's quantum, or, if it has none left, gives it a new one. */
  lemma TickQuanta(k: Kernel)
    requires Inv(k)
    ensures k.cpu in k.tasks && Next(k, TickE).tasks.Keys == k.tasks.Keys && SameQuanta(k, Next(k, TickE), {k.cpu})
    ensures var c, c' := k.tasks[k.cpu], Next(k, TickE).tasks[k.cpu];
      c'.prio == c.prio && c'.ticks == if c.ticks > 0 then c.ticks - 1 else c.prio
  {
    hide Inv, Schedule;
    EnabledFacts(k, TickE);
    InvCanSchedule(k);
    SwitchQuanta(k);
  }

  /** Nothing else touches a quantum; a new task starts with a full one. */
  lemma OtherQuanta(k: Kernel, e: Event)
    requires Inv(k) && Enabled(k, e) && !e.TickE?
    ensures SameQuanta(k, Next(k, e), {})
    ensures e.CloneE? ==> e.t in Next(k, e).tasks && Next(k, e).tasks[e.t].ticks == Next(k, e).tasks[e.t].prio == e.prio
  {
    hide Inv, Enabled, Next, Entering, Switches, Schedule;
    if Switches(k, e) {
      EnteringIsEntry(k, e);
      EnteringParked(k, e);
      EnteringQuanta(k, e);
      SwitchQuanta(Entering(k, e));
      NotClone(k, e);
    } else {
      StayingQuanta(k, e);
    }
  }

  lemma NotClone(k: Kernel, e: Event)
    requires Inv(k) && Enabled(k, e) && Switches(k, e)
    ensures !e.CloneE?
  {
  }

  lemma EnteringQuanta(k: Kernel, e: Event)
    requires Inv(k) && Enabled(k, e)
    ensures SameQuanta(k, Entering(k, e), {}) && Entering(k, e).tasks.Keys == k.tasks.Keys
  {
    hide Inv;
    EnabledFacts(k, e);
  }

  lemma StayingQuanta(k: Kernel, e: Event)
    requires Inv(k) && Enabled(k, e) && !e.TickE? && !Switches(k, e)
    ensures SameQuanta(k, Next(k, e), {})
    ensures e.CloneE? ==> e.t in Next(k, e).tasks && Next(k, e).tasks[e.t].ticks == Next(k, e).tasks[e.t].prio == e.prio
  {
    hide Inv, Schedule;
    EnabledFacts(k, e);
  }

  /** From state `i` on, `n` timer interrupts and nothing else. */
  ghost predicate TicksOnly(es: seq<Event>, i: nat, n: nat) {
    i + n <= |es| && forall j | i <= j < i + n :: es[j] == TickE
  }

  /** A running task keeps the processor through as many timer interrupts as it has ticks, losing one at each. */
  lemma {:induction false} QuantumLasts(ks: seq<Kernel>, es: seq<Event>, i: nat, n: nat)
    requires Run(ks, es) && |ks| == |es| + 1 && TicksOnly(es, i, n)
    requires ks[i].cpu in ks[i].tasks && n <= ks[i].tasks[ks[i].cpu].ticks
    ensures ks[i + n].cpu == ks[i].cpu && ks[i + n].ready == ks[i].ready && ks[i + n].idle == ks[i].idle
    ensures ks[i + n].tasks.Keys == ks[i].tasks.Keys && SameQuanta(ks[i], ks[i + n], {ks[i].cpu})
    ensures var c, c' := ks[i].tasks[ks[i].cpu], ks[i + n].tasks[ks[i].cpu]; c'.ticks == c.ticks - n && c'.prio == c.prio
  {
    hide Run, Inv, Enabled, Next, LineAfter;
    if n > 0 {
      QuantumLasts(ks, es, i, n - 1);
      var k := ks[i + n - 1];
      RunStep(ks, es, i + n - 1);
      TickQuanta(k);
      TickLine(k);
      QuantaChain(ks[i], k, ks[i + n], ks[i].cpu);
    }
  }

  lemma TickLine(k: Kernel)
    requires Inv(k)
    ensures k.cpu in k.tasks && Next(k, TickE).idle == k.idle
    ensures Line(Next(k, TickE).cpu, Next(k, TickE).ready)
      == if k.tasks[k.cpu].ticks > 0 then Line(k.cpu, k.ready) else Turn(k.ready + [k.cpu], k.idle)
  {
    hide Inv, Schedule;
    EnabledFacts(k, TickE);
    LineIsExact(k, TickE);
    SwitchIdle(k);
  }

  lemma SwitchIdle(k: Kernel)
    requires CanSchedule(k)
    ensures Schedule(k).idle == k.idle
  {
  }

  lemma QuantaChain(a: Kernel, b: Kernel, c: Kernel, t: Tid)
    requires SameQuanta(a, b, {t}) && SameQuanta(b, c, {t}) && a.tasks.Keys == b.tasks.Keys == c.tasks.Keys
    ensures SameQuanta(a, c, {t})
  {
    forall u | u in a.tasks && u != t ensures c.tasks[u].ticks == a.tasks[u].ticks && c.tasks[u].prio == a.tasks[u].prio {
      assert b.tasks[u].ticks == a.tasks[u].ticks && c.tasks[u].ticks == b.tasks[u].ticks;
    }
  }

  /** The interrupt after that sends it to the end of the ready list with its priority as new quantum, and the first of
      the list runs; nobody else's quantum has changed. */
  lemma QuantumEnds(ks: seq<Kernel>, es: seq<Event>, i: nat, n: nat)
    requires Run(ks, es) && |ks| == |es| + 1 && TicksOnly(es, i, n + 1)
    requires ks[i].cpu in ks[i].tasks && n == ks[i].tasks[ks[i].cpu].ticks
    ensures var k, k' := ks[i], ks[i + n + 1];
      && (if k.ready == [] then k'.cpu == k.cpu && k'.ready == []
          else k'.cpu == k.ready[0] && k'.ready == k.ready[1..] + [k.cpu])
      && k'.tasks.Keys == k.tasks.Keys && k'.tasks[k.cpu].ticks == k.tasks[k.cpu].prio && SameQuanta(k, k', {k.cpu})
  {
    hide Run, Inv, Enabled, Next, LineAfter;
    QuantumLasts(ks, es, i, n);
    var k := ks[i + n];
    RunStep(ks, es, i + n);
    TickQuanta(k);
    TickLine(k);
    QuantaChain(ks[i], k, ks[i + n + 1], ks[i].cpu);
    if k.ready != [] { assert (k.ready + [k.cpu])[1..] == k.ready[1..] + [k.cpu]; }
  }

  // ----- semaphore queues

  /** The task joins the queue of the semaphore it is about to sleep on. */
  ghost predicate JoinsQueue(k: Kernel, e: Event, s: Sid)
    requires Inv(k) && Enabled(k, e)
  {
    && s in k.sems && k.sems[s].value == 0
    && (e == DownE(s) || (e.RetestE? && k.tasks[k.cpu].resume == Retest(s)))
  }

  /** Sleepers join at the end of a semaphore's queue, and each up takes the first. */
  lemma WaitersExact(k: Kernel, e: Event, s: Sid)
    requires Inv(k) && Enabled(k, e) && s in k.sems
    ensures s in Next(k, e).sems
    ensures var w := k.sems[s].waiters;
      Next(k, e).sems[s].waiters
        == if JoinsQueue(k, e, s) then w + [k.cpu] else if e == UpE(s) && w != [] then w[1..] else w
  {
    hide Inv, Schedule;
    EnabledFacts(k, e);
    if Switches(k, e) {
      EnteringIsEntry(k, e);
      SwitchSems(Entering(k, e));
    }
  }

  /** The running task gets past its down of `s`. */
  ghost predicate Passes(k: Kernel, e: Event, s: Sid)
    requires Inv(k) && Enabled(k, e)
  {
    && s in k.sems && k.sems[s].value > 0
    && (e == DownE(s) || (e.RetestE? && k.tasks[k.cpu].resume == Retest(s)))
  }

  lemma CountStep(k: Kernel, e: Event, s: Sid)
    requires Inv(k) && Enabled(k, e) && s in k.sems
    ensures s in Next(k, e).sems
    ensures Next(k, e).sems[s].value == k.sems[s].value + (if e == UpE(s) then 1 else 0) - (if Passes(k, e, s) then 1 else 0)
  {
    hide Inv, Schedule;
    EnabledFacts(k, e);
    if Switches(k, e) {
      EnteringIsEntry(k, e);
      SwitchSems(Entering(k, e));
    }
  }

  lemma SwitchSems(k: Kernel)
    requires CanSchedule(k)
    ensures Schedule(k).sems == k.sems
  {
  }

  ghost function Ups(es: seq<Event>, s: Sid, i: nat, n: nat): nat
    requires i + n <= |es|
  {
    if n == 0 then 0 else Ups(es, s, i, n - 1) + if es[i + n - 1] == UpE(s) then 1 else 0
  }

  /** How many downs of `s` were passed. */
  ghost function Downs(ks: seq<Kernel>, es: seq<Event>, s: Sid, i: nat, n: nat): nat
    requires Run(ks, es) && |ks| == |es| + 1 && i + n <= |es|
  {
    if n == 0 then 0 else
      RunStep(ks, es, i + n - 1);
      Downs(ks, es, s, i, n - 1) + if Passes(ks[i + n - 1], es[i + n - 1], s) then 1 else 0
  }

  /** Nothing is counted twice or lost: as many downs were passed as there were ups, but for what is in the count. */
  lemma {:induction false} CountIsConserved(ks: seq<Kernel>, es: seq<Event>, i: nat, n: nat, s: Sid)
    requires Run(ks, es) && |ks| == |es| + 1 && i + n <= |es| && s in ks[i].sems
    ensures s in ks[i + n].sems && ks[i + n].sems[s].value + Downs(ks, es, s, i, n) == ks[i].sems[s].value + Ups(es, s, i, n)
  {
    hide Run, Inv, Enabled, Next, Passes;
    if n > 0 {
      CountIsConserved(ks, es, i, n - 1, s);
      RunStep(ks, es, i + n - 1);
      CountStep(ks[i + n - 1], es[i + n - 1], s);
    }
  }

  /** First come, first served: a task with `a` others before it sleeps through `a` ups, moving up one place at each. */
  lemma {:induction false} WaitsItsTurn(ks: seq<Kernel>, es: seq<Event>, i: nat, n: nat, s: Sid, a: nat)
    requires Run(ks, es) && |ks| == |es| + 1 && i + n <= |es|
    requires s in ks[i].sems && a < |ks[i].sems[s].waiters| && Ups(es, s, i, n) <= a
    ensures s in ks[i + n].sems
    ensures var w, a' := ks[i + n].sems[s].waiters, a - Ups(es, s, i, n);
      a' < |w| && w[a'] == ks[i].sems[s].waiters[a]
  {
    hide Run, Inv, Enabled, Next;
    if n > 0 {
      WaitsItsTurn(ks, es, i, n - 1, s, a);
      RunStep(ks, es, i + n - 1);
      WaitersExact(ks[i + n - 1], es[i + n - 1], s);
    }
  }

  /** The up after those wakes it: it leaves the queue for the front of the ready list. */
  lemma WakesInTurn(ks: seq<Kernel>, es: seq<Event>, i: nat, n: nat, s: Sid, a: nat)
    requires Run(ks, es) && |ks| == |es| + 1 && i + n < |es|
    requires s in ks[i].sems && a < |ks[i].sems[s].waiters| && Ups(es, s, i, n) == a && es[i + n] == UpE(s)
    ensures var t, k' := ks[i].sems[s].waiters[a], ks[i + n + 1];
      s in k'.sems && t !in k'.sems[s].waiters && k'.ready != [] && k'.ready[0] == t
  {
    hide Run, Inv, Enabled, Next, LineAfter;
    WaitsItsTurn(ks, es, i, n, s, a);
    RunStep(ks, es, i + n);
    var k := ks[i + n];
    WaitersExact(k, UpE(s), s);
    UpWakes(k, s);
  }

  lemma UpWakes(k: Kernel, s: Sid)
    requires Inv(k) && Enabled(k, UpE(s)) && s in k.sems && k.sems[s].waiters != []
    ensures Next(k, UpE(s)).ready == [k.sems[s].waiters[0]] + k.ready
    ensures k.sems[s].waiters[0] !in k.sems[s].waiters[1..]
  {
    LineIsExact(k, UpE(s));
    assert SemQueue(k, s);
  }
}
