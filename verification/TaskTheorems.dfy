/** Process-tree theorems: where parent chains end, what pids mean, how zombies are collected. */
module TaskTheorems {
  import opened Sequences
  import opened TaskState
  import opened TaskInvariant
  import opened TaskSteps
  import opened ProcessSteps
  import opened TaskRuns
  import opened TaskAsserts

  // ----- parent chains

  /** `t` reaches `root` by following `parent_task` finitely often. */
  ghost predicate ChainsTo(k: Kernel, t: Tid, root: Tid, steps: nat)
    decreases steps
  {
    && t in k.tasks
    && if steps == 0 then t == root else ChainsTo(k, k.tasks[t].parent, root, steps - 1)
  }

  /** Every task but idle descends from init: no cycles, no dangling parents. */
  lemma {:induction false} DescendsFromInit(k: Kernel, i: nat) returns (steps: nat)
    requires Inv(k) && 1 <= i < |k.all|
    ensures steps < i && ChainsTo(k, k.all[i], k.init, steps)
  {
    assert k.all[i] in k.tasks;
    if i == 1 {
      steps := 0;
    } else {
      assert Earlier(k.all, k.tasks[k.all[i]].parent, i) && ParentOk(k, k.all[i]);
      var j :| 0 <= j < i && k.all[j] == k.tasks[k.all[i]].parent;
      assert k.all[i] != k.idle;
      var s := DescendsFromInit(k, j);
      steps := s + 1;
    }
  }

  /** The only self-parented tasks are idle and init, and a zombie has no children. */
  lemma OnlyRootsSelfParented(k: Kernel, t: Tid)
    requires Inv(k) && t in k.tasks
    ensures k.tasks[t].parent == t <==> t == k.idle || t == k.init
    ensures k.tasks[t].parent in k.all && k.tasks[k.tasks[t].parent].status != Hanging
  {
    assert t in k.all && ParentOk(k, t);
    assert k.tasks[t].parent in k.all && PlaceOk(k, k.tasks[t].parent);
    var i :| 0 <= i < |k.all| && k.all[i] == t;
    if i >= 2 {
      assert Earlier(k.all, k.tasks[k.all[i]].parent, i);
    }
  }

  // ----- pids

  function PidSet(k: Kernel): set<nat> {
    set t | t in k.tasks :: k.tasks[t].pid
  }

  lemma {:induction false} InjectiveImageSize(ts: set<Tid>, k: Kernel, im: set<nat>)
    requires ts <= k.tasks.Keys && forall t, u {:trigger PidsDiffer(k, t, u)} | t in k.tasks && u in k.tasks :: PidsDiffer(k, t, u)
    requires im == set t | t in ts :: k.tasks[t].pid
    ensures |im| == |ts|
  {
    if ts != {} {
      var x :| x in ts;
      var rest := ts - {x};
      var im' := set t | t in rest :: k.tasks[t].pid;
      InjectiveImageSize(rest, k, im');
      assert im == im' + {k.tasks[x].pid};
      assert k.tasks[x].pid !in im' by {
        forall t | t in rest ensures k.tasks[t].pid != k.tasks[x].pid { assert PidsDiffer(k, t, x); }
      }
    }
  }

  /** The set bits of the pid map are exactly the pids of the listed tasks. */
  lemma PidsExact(k: Kernel)
    requires Inv(k)
    ensures k.pids == PidSet(k)
  {
    var im := PidSet(k);
    forall t | t in k.tasks ensures k.tasks[t].pid in k.pids { assert PidOk(k, t); }
    assert im == set t | t in k.tasks.Keys :: k.tasks[t].pid;
    InjectiveImageSize(k.tasks.Keys, k, im);
    assert |k.tasks.Keys| == |k.tasks|;
    if k.pids != im {
      var p :| p in k.pids && p !in im;
      SubsetSize(im + {p}, k.pids);
    }
  }

  // ----- zombies

  ghost predicate Waits(e: Event) {
    e.WaitE? || e.RescanE?
  }

  lemma CollectsZombies(k: Kernel)
    requires Inv(k)
    ensures Collected(k) <= Zombies(k)
  {
  }

  /** What one step does to the set of zombies: an exit adds its task, a wait removes the child it collects. */
  lemma ZombieStep(k: Kernel, e: Event)
    requires Inv(k) && Enabled(k, e)
    ensures Zombies(Next(k, e)) ==
      if e.ExitEndE? then Zombies(k) + {k.cpu} else if Waits(e) then Zombies(k) - Collected(k) else Zombies(k)
    ensures e.ExitEndE? ==> k.cpu !in Zombies(k)
  {
    hide Inv, CanSchedule, Tick, Yield, DownTry, Up, SlotWait, SlotWake, Clone, WaitTry,
      ExitBegin, ExitEnd, IdleBlock, Zombies, Collected;
    EnabledFacts(k, e);
    match e
    case TickE => TickInv(k);
    case YieldE => YieldInv(k);
    case DownE(s) => DownInv(k, s);
    case RetestE => DownInv(k, k.tasks[k.cpu].resume.s);
    case UpE(s) => UpInv(k, s);
    case SlotWaitE(r) => SlotWaitInv(k, r);
    case SlotWakeE(r) => SlotWakeInv(k, r);
    case CloneE(t, prio) => CloneInv(k, t, prio);
    case WaitE => WaitInv(k);
    case RescanE => WaitInv(k);
    case ExitBeginE(code) => ExitBeginInv(k, code);
    case ExitEndE => ExitEndInv(k);
    case IdleBlockE => IdleBlockInv(k);
  }

  ghost function Exits(es: seq<Event>, n: nat): nat
    requires n <= |es|
  {
    if n == 0 then 0 else Exits(es, n - 1) + if es[n - 1].ExitEndE? then 1 else 0
  }

  ghost function Reaps(ks: seq<Kernel>, es: seq<Event>, n: nat): nat
    requires n <= |es| < |ks|
  {
    if n == 0 then 0 else Reaps(ks, es, n - 1) + if Waits(es[n - 1]) then |Collected(ks[n - 1])| else 0
  }

  lemma NoZombiesAtBoot(ks: seq<Kernel>, es: seq<Event>)
    requires Run(ks, es)
    ensures Zombies(ks[0]) == {}
  {
  }

  /** Over every run, each exit is collected at most once: exits are exactly reaps plus zombies left. */
  lemma {:induction false} ExitsAreReapedOnce(ks: seq<Kernel>, es: seq<Event>, n: nat)
    requires Run(ks, es) && n <= |es| < |ks|
    ensures Exits(es, n) == Reaps(ks, es, n) + |Zombies(ks[n])|
  {
    hide Run, Inv, Next, Enabled, Collected, Zombies;
    if n == 0 {
      NoZombiesAtBoot(ks, es);
    } else {
      ExitsAreReapedOnce(ks, es, n - 1);
      RunStep(ks, es, n - 1);
      CollectsZombies(ks[n - 1]);
      ZombieStep(ks[n - 1], es[n - 1]);
    }
  }

  // ----- who changes what of a family

  /** What a task is by itself, without where it stands in the queues. */
  predicate SamePerson(x: Task, x': Task) {
    x'.pid == x.pid && x'.parent == x.parent && x'.exiting == x.exiting && x'.code == x.code
  }

  ghost predicate SamePeople(k: Kernel, k': Kernel) {
    k'.tasks.Keys == k.tasks.Keys && forall t {:trigger k'.tasks[t]} | t in k.tasks :: SamePerson(k.tasks[t], k'.tasks[t])
  }

  lemma SwitchPeople(k: Kernel)
    requires CanSchedule(k)
    ensures SamePeople(k, Schedule(k))
  {
  }

  lemma EnteringPeople(k: Kernel, e: Event)
    requires Inv(k) && Enabled(k, e)
    ensures SamePeople(k, Entering(k, e))
  {
    hide Inv, Schedule;
    EnabledFacts(k, e);
  }

  lemma SwitchingPerson(k: Kernel, e: Event, t: Tid)
    requires Inv(k) && Enabled(k, e) && Switches(k, e) && t in k.tasks
    ensures t in Next(k, e).tasks && SamePerson(k.tasks[t], Next(k, e).tasks[t])
  {
    hide *;
    EnteringIsEntry(k, e);
    EnteringPeople(k, e);
    SwitchPeople(Entering(k, e));
    PeopleChain(k, Entering(k, e), Schedule(Entering(k, e)), t);
  }

  lemma PeopleChain(a: Kernel, b: Kernel, c: Kernel, t: Tid)
    requires SamePeople(a, b) && SamePeople(b, c) && t in a.tasks
    ensures t in c.tasks && SamePerson(a.tasks[t], c.tasks[t])
  {
  }

  lemma NotExit(k: Kernel, e: Event)
    requires Inv(k) && Enabled(k, e) && Switches(k, e)
    ensures !e.ExitBeginE?
  {
    hide Inv;
  }

  lemma StayingPerson(k: Kernel, e: Event, t: Tid)
    requires Inv(k) && Enabled(k, e) && !Switches(k, e) && !e.ExitBeginE? && t in k.tasks && t in Next(k, e).tasks
    ensures SamePerson(k.tasks[t], Next(k, e).tasks[t])
  {
    hide Inv, Schedule;
    EnabledFacts(k, e);
  }

  /** A task keeps its pid, its parent and what it left behind through every step but the first part of an exit: that
      hands the children of the running task, and nobody else, to init, and keeps its status. */
  lemma FamilyExact(k: Kernel, e: Event, t: Tid)
    requires Inv(k) && Enabled(k, e) && t in k.tasks && t in Next(k, e).tasks
    ensures var x, x' := k.tasks[t], Next(k, e).tasks[t];
      if !e.ExitBeginE? then SamePerson(x, x')
      else
        && x'.pid == x.pid && x'.parent == (if x.parent == k.cpu then k.init else x.parent)
        && x'.exiting == (x.exiting || t == k.cpu) && x'.code == if t == k.cpu then e.code else x.code
  {
    hide Inv, Switches, Schedule, SamePerson;
    if Switches(k, e) {
      SwitchingPerson(k, e, t);
      NotExit(k, e);
    } else if !e.ExitBeginE? {
      StayingPerson(k, e, t);
    }
  }

  // ----- exit statuses

  ghost predicate Exiting(k: Kernel, t: Tid) {
    t in k.tasks && k.tasks[t].exiting
  }

  /** Nobody is exiting when it is made. */
  lemma ExitingWasThere(k: Kernel, e: Event, t: Tid)
    requires Inv(k) && Enabled(k, e) && Exiting(Next(k, e), t)
    ensures t in k.tasks
  {
    hide Inv, Schedule;
    EnabledFacts(k, e);
    if Switches(k, e) {
      EnteringIsEntry(k, e);
      EnteringPeople(k, e);
      SwitchPeople(Entering(k, e));
    }
  }

  /** A child `sys_wait` collects has called `sys_exit` with the status that `sys_wait` hands over, and has been
      a listed exiting task ever since. */
  lemma {:induction false} StatusIsFromExit(ks: seq<Kernel>, es: seq<Event>, i: nat, t: Tid) returns (j: nat)
    requires Run(ks, es) && i < |ks| == |es| + 1 && Exiting(ks[i], t)
    ensures j < i && es[j] == ExitBeginE(ks[i].tasks[t].code) && ks[j].cpu == t
    ensures forall m | j < m <= i :: Exiting(ks[m], t)
  {
    hide Run, Inv, Next, Enabled;
    if i == 0 {
      NoExitAtBoot(ks, es, t);
    } else {
      RunStep(ks, es, i - 1);
      var k, e := ks[i - 1], es[i - 1];
      ExitingWasThere(k, e, t);
      FamilyExact(k, e, t);
      if e.ExitBeginE? && t == k.cpu {
        j := i - 1;
      } else {
        j := StatusIsFromExit(ks, es, i - 1, t);
      }
    }
  }

  lemma NoExitAtBoot(ks: seq<Kernel>, es: seq<Event>, t: Tid)
    requires Run(ks, es)
    ensures !Exiting(ks[0], t)
  {
  }

  /** What `sys_wait` collects is exiting. */
  lemma CollectedIsExiting(k: Kernel, t: Tid)
    requires Inv(k) && t in Collected(k)
    ensures Exiting(k, t) && k.tasks[t].parent == k.cpu
  {
    assert PlaceOk(k, t);
  }

  // ----- parents asleep over zombies

  /** A sleeping parent other than init has no child to collect. */
  lemma NoParentSleepsOverZombie(k: Kernel, p: Tid, t: Tid)
    requires Inv(k) && p in k.tasks && p != k.init && k.tasks[p].status == Waiting
    requires t in k.tasks && k.tasks[t].parent == p
    ensures k.tasks[t].status != Hanging
  {
    assert NotMissed(k, t) && PlaceOk(k, p);
  }
}
