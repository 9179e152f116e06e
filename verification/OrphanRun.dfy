/** From boot, step by step, to a state in which init sleeps over a zombie. */
module OrphanRun {
  import opened TaskState
  import opened TaskInvariant
  import opened ProcessSteps
  import opened TaskRuns
  import opened TaskInit

  function Rec(pid: nat, parent: Tid, status: Status, at: Place, resume: Resume): Task {
    Task(pid, parent, 30, 30, status, at, resume, {}, false, 0)
  }

  // Idle is task 0 and init task 1; tasks are numbered like their pids.  Init makes 2 and sleeps in `sys_wait`, idle
  // goes to sleep, 2 makes 3, 3 makes 4, and 4 exits while its parent is ready.

  function K0(): Kernel {
    Kernel(1, 0, 1, [0], [0, 1],
           map[0 := Rec(0, 0, Ready, InReady, IdleLoop),
               1 := Rec(1, 1, Running, OnCpu, Go)],
           map[], map[], {0, 1})
  }

  function K1(): Kernel {
    Kernel(1, 0, 1, [0, 2], [0, 1, 2],
           map[0 := Rec(0, 0, Ready, InReady, IdleLoop),
               1 := Rec(1, 1, Running, OnCpu, Go),
               2 := Rec(2, 1, Ready, InReady, Go)],
           map[], map[], {0, 1, 2})
  }

  function K2(): Kernel {
    Kernel(0, 0, 1, [2], [0, 1, 2],
           map[0 := Rec(0, 0, Running, OnCpu, IdleLoop),
               1 := Rec(1, 1, Waiting, Off, Rescan),
               2 := Rec(2, 1, Ready, InReady, Go)],
           map[], map[], {0, 1, 2})
  }

  function K3(): Kernel {
    Kernel(2, 0, 1, [], [0, 1, 2],
           map[0 := Rec(0, 0, Blocked, Off, IdleLoop),
               1 := Rec(1, 1, Waiting, Off, Rescan),
               2 := Rec(2, 1, Running, OnCpu, Go)],
           map[], map[], {0, 1, 2})
  }

  function K4(): Kernel {
    Kernel(2, 0, 1, [3], [0, 1, 2, 3],
           map[0 := Rec(0, 0, Blocked, Off, IdleLoop),
               1 := Rec(1, 1, Waiting, Off, Rescan),
               2 := Rec(2, 1, Running, OnCpu, Go),
               3 := Rec(3, 2, Ready, InReady, Go)],
           map[], map[], {0, 1, 2, 3})
  }

  function K5(): Kernel {
    Kernel(3, 0, 1, [2], [0, 1, 2, 3],
           map[0 := Rec(0, 0, Blocked, Off, IdleLoop),
               1 := Rec(1, 1, Waiting, Off, Rescan),
               2 := Rec(2, 1, Ready, InReady, Go),
               3 := Rec(3, 2, Running, OnCpu, Go)],
           map[], map[], {0, 1, 2, 3})
  }

  function K6(): Kernel {
    Kernel(3, 0, 1, [2, 4], [0, 1, 2, 3, 4],
           map[0 := Rec(0, 0, Blocked, Off, IdleLoop),
               1 := Rec(1, 1, Waiting, Off, Rescan),
               2 := Rec(2, 1, Ready, InReady, Go),
               3 := Rec(3, 2, Running, OnCpu, Go),
               4 := Rec(4, 3, Ready, InReady, Go)],
           map[], map[], {0, 1, 2, 3, 4})
  }

  function K7(): Kernel {
    Kernel(2, 0, 1, [4, 3], [0, 1, 2, 3, 4],
           map[0 := Rec(0, 0, Blocked, Off, IdleLoop),
               1 := Rec(1, 1, Waiting, Off, Rescan),
               2 := Rec(2, 1, Running, OnCpu, Go),
               3 := Rec(3, 2, Ready, InReady, Go),
               4 := Rec(4, 3, Ready, InReady, Go)],
           map[], map[], {0, 1, 2, 3, 4})
  }

  function K8(): Kernel {
    Kernel(4, 0, 1, [3, 2], [0, 1, 2, 3, 4],
           map[0 := Rec(0, 0, Blocked, Off, IdleLoop),
               1 := Rec(1, 1, Waiting, Off, Rescan),
               2 := Rec(2, 1, Ready, InReady, Go),
               3 := Rec(3, 2, Ready, InReady, Go),
               4 := Rec(4, 3, Running, OnCpu, Go)],
           map[], map[], {0, 1, 2, 3, 4})
  }

  function K9(): Kernel {
    Kernel(4, 0, 1, [3, 2], [0, 1, 2, 3, 4],
           map[0 := Rec(0, 0, Blocked, Off, IdleLoop),
               1 := Rec(1, 1, Waiting, Off, Rescan),
               2 := Rec(2, 1, Ready, InReady, Go),
               3 := Rec(3, 2, Ready, InReady, Go),
               4 := Rec(4, 3, Running, OnCpu, Go).(exiting := true)],
           map[], map[], {0, 1, 2, 3, 4})
  }

  function K10(): Kernel {
    Kernel(3, 0, 1, [2], [0, 1, 2, 3, 4],
           map[0 := Rec(0, 0, Blocked, Off, IdleLoop),
               1 := Rec(1, 1, Waiting, Off, Rescan),
               2 := Rec(2, 1, Ready, InReady, Go),
               3 := Rec(3, 2, Running, OnCpu, Go),
               4 := Rec(4, 3, Hanging, Off, Gone).(exiting := true)],
           map[], map[], {0, 1, 2, 3, 4})
  }

  lemma Step0()
    requires Inv(K0())
    ensures Enabled(K0(), CloneE(2, 30)) && Next(K0(), CloneE(2, 30)) == K1()
  {
    hide Inv;
    assert LeastFree({0, 1}, 1) == 2;
    EnabledFacts(K0(), CloneE(2, 30));
    assert Next(K0(), CloneE(2, 30)).tasks == K1().tasks;
  }

  lemma Step1()
    requires Inv(K1())
    ensures Enabled(K1(), WaitE) && Next(K1(), WaitE) == K2()
  {
    hide Inv;
    assert ChildOf(K1(), K1().all[2], 1);
    EnabledFacts(K1(), WaitE);
    assert Next(K1(), WaitE).tasks == K2().tasks;
  }

  lemma Step2()
    requires Inv(K2())
    ensures Enabled(K2(), IdleBlockE) && Next(K2(), IdleBlockE) == K3()
  {
    hide Inv;
    EnabledFacts(K2(), IdleBlockE);
    assert Next(K2(), IdleBlockE).tasks == K3().tasks;
  }

  lemma Step3()
    requires Inv(K3())
    ensures Enabled(K3(), CloneE(3, 30)) && Next(K3(), CloneE(3, 30)) == K4()
  {
    hide Inv;
    assert LeastFree({0, 1, 2}, 2) == 3;
    EnabledFacts(K3(), CloneE(3, 30));
    assert Next(K3(), CloneE(3, 30)).tasks == K4().tasks;
  }

  lemma Step4()
    requires Inv(K4())
    ensures Enabled(K4(), YieldE) && Next(K4(), YieldE) == K5()
  {
    hide Inv;
    EnabledFacts(K4(), YieldE);
    assert Next(K4(), YieldE).tasks == K5().tasks;
  }

  lemma Step5()
    requires Inv(K5())
    ensures Enabled(K5(), CloneE(4, 30)) && Next(K5(), CloneE(4, 30)) == K6()
  {
    hide Inv;
    assert LeastFree({0, 1, 2, 3}, 3) == 4 && LeastFree({0, 1, 2, 3}, 1) == 4;
    EnabledFacts(K5(), CloneE(4, 30));
    assert Next(K5(), CloneE(4, 30)).tasks == K6().tasks;
  }

  lemma Step6()
    requires Inv(K6())
    ensures Enabled(K6(), YieldE) && Next(K6(), YieldE) == K7()
  {
    hide Inv;
    EnabledFacts(K6(), YieldE);
    assert Next(K6(), YieldE).tasks == K7().tasks;
  }

  lemma Step7()
    requires Inv(K7())
    ensures Enabled(K7(), YieldE) && Next(K7(), YieldE) == K8()
  {
    hide Inv;
    EnabledFacts(K7(), YieldE);
    assert Next(K7(), YieldE).tasks == K8().tasks;
  }

  lemma Step8()
    requires Inv(K8())
    ensures Enabled(K8(), ExitBeginE(0)) && Next(K8(), ExitBeginE(0)) == K9()
  {
    hide Inv;
    EnabledFacts(K8(), ExitBeginE(0));
    assert Next(K8(), ExitBeginE(0)).tasks == K9().tasks;
  }

  lemma Step9()
    requires Inv(K9())
    ensures Enabled(K9(), ExitEndE) && Next(K9(), ExitEndE) == K10()
  {
    hide Inv;
    EnabledFacts(K9(), ExitEndE);
    assert Next(K9(), ExitEndE).tasks == K10().tasks;
  }

  // ----- the run

  function Stage(n: nat): Kernel {
    match n
    case 0 => K0()
    case 1 => K1()
    case 2 => K2()
    case 3 => K3()
    case 4 => K4()
    case 5 => K5()
    case 6 => K6()
    case 7 => K7()
    case 8 => K8()
    case 9 => K9()
    case 10 => K10()
    case 11 => ExitBegin(K10(), 0)
    case _ => Schedule(ExitParked(ExitBegin(K10(), 0)))
  }

  function Call(n: nat): Event {
    match n
    case 0 => CloneE(2, 30)
    case 1 => WaitE
    case 2 => IdleBlockE
    case 3 => CloneE(3, 30)
    case 4 => YieldE
    case 5 => CloneE(4, 30)
    case 6 => YieldE
    case 7 => YieldE
    case 8 => ExitBeginE(0)
    case 10 => ExitBeginE(0)
    case _ => ExitEndE
  }

  /** 3 exits: its zombie child 4 goes to init, which is asleep, and 3's own parent is 2. */
  lemma LastExit()
    ensures var k := K10();
      && OrphansZombie(k) && !InitSleepsOverZombie(k) && Enabled(k, ExitBeginE(0)) && k.tasks[k.cpu].parent in k.tasks
      && var k' := ExitBegin(k, 0);
      && Enabled(k', ExitEndE) && InitSleepsOverZombie(k')
      && var m := ExitParked(k');
      && CanSchedule(m) && InitSleepsOverZombie(Schedule(m)) && ExitEnd(k') == Schedule(m)
  {
    var k := K10();
    assert HangingChild(k, 4, 3);
    var k' := ExitBegin(k, 0);
    assert k'.tasks[1].status == Waiting && k'.tasks[2].status == Ready && HangingChild(k', 4, 1);
    var m := ExitParked(k');
    assert m.ready == [2] && WakeIdle(m) == m;
    assert HangingChild(Schedule(m), 4, 1);
  }

  lemma StageStep(n: nat)
    requires n < 12 && Inv(Stage(n))
    ensures Enabled(Stage(n), Call(n)) && Next(Stage(n), Call(n)) == Stage(n + 1)
  {
    hide Inv, Enabled, Next, K0, K1, K2, K3, K4, K5, K6, K7, K8, K9, K10, ExitBegin, ExitParked, Schedule,
      OrphansZombie, InitSleepsOverZombie;
    match n
    case 0 => Step0();
    case 1 => Step1();
    case 2 => Step2();
    case 3 => Step3();
    case 4 => Step4();
    case 5 => Step5();
    case 6 => Step6();
    case 7 => Step7();
    case 8 => Step8();
    case 9 => Step9();
    case 10 => ExitStep(Stage(10));
    case _ => LastStep();
  }

  lemma ExitStep(k: Kernel)
    requires Inv(k) && k == K10()
    ensures Enabled(k, ExitBeginE(0)) && Next(k, ExitBeginE(0)) == ExitBegin(k, 0)
  {
    hide Inv, K10;
    LastExit();
  }

  lemma LastStep()
    requires Inv(ExitBegin(K10(), 0))
    ensures Enabled(ExitBegin(K10(), 0), ExitEndE) && CanSchedule(ExitParked(ExitBegin(K10(), 0)))
    ensures Next(ExitBegin(K10(), 0), ExitEndE) == Schedule(ExitParked(ExitBegin(K10(), 0)))
  {
    hide Inv, ExitEnd, ExitBegin, ExitParked, Schedule, Enabled;
    LastExit();
    EnabledFacts(ExitBegin(K10(), 0), ExitEndE);
  }

  lemma {:induction false} StageInv(n: nat)
    requires n <= 12
    ensures Inv(Stage(n))
  {
    hide Inv, Stage, Call, Enabled, Next;
    if n == 0 {
      StartInv();
    } else {
      StageInv(n - 1);
      StageStep(n - 1);
      StepInv(Stage(n - 1), Call(n - 1));
    }
  }

  lemma StartInv()
    ensures Stage(0) == Boot(0, 1, map[]) && Inv(Stage(0))
  {
    BootInv(0, 1, map[]);
  }

  /** A run from boot in which init comes to sleep over a zombie, and goes on sleeping when the exit is complete. */
  lemma InitCanMissAZombie() returns (ks: seq<Kernel>, es: seq<Event>)
    ensures Run(ks, es) && |es| == 12 && |ks| == 13
    ensures !InitSleepsOverZombie(ks[10]) && InitSleepsOverZombie(ks[11]) && InitSleepsOverZombie(ks[12])
  {
    LastExit();
    StartInv();
    hide Inv, Call, Enabled, Next, InitSleepsOverZombie, ExitBegin, ExitParked, Schedule, K10;
    ks, es := seq(13, i requires 0 <= i < 13 => Stage(i)), seq(12, i requires 0 <= i < 12 => Call(i));
    forall i: nat | i < 12 ensures StepAt(ks, es, i) {
      StageInv(i);
      StageStep(i);
    }
    assert ks[10] == Stage(10) && ks[11] == Stage(11) && ks[12] == Stage(12);
  }
}
