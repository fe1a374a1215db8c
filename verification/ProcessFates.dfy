/** What becomes of a process over whole runs: sleepers, waiting parents, exited children, and the
    boot process on which the others depend. */
module ProcessFates {
  import opened Errno
  import opened Processes
  import opened Scheduling
  import opened SchedulerRuns

  // ---------- finding somebody to run ----------

  ghost predicate SomeReady(t: Table) { exists i :: 0 <= i < 16 && t[i].state == Ready }

  /** The scan finds a process exactly if there is one. */
  lemma ScanFinds(t: Table, start: nat)
    requires start < 16
    ensures NextReady(t, start, 1) < 16 <==> SomeReady(t)
  {
    hide NextReady;
    if SomeReady(t) {
      var p: nat :| p < 16 && t[p].state == Ready;
      ScanStops(t, start, 1, p);
    }
  }

  lemma {:induction false} ScanGives(t: Table, start: nat, offset: nat, p: nat)
    requires start < 16 && p < 16 && t[p].state == Ready && 1 <= offset <= Ahead(start, p)
    requires forall i :: 0 <= i < 16 && i != p ==> t[i].state != Ready
    ensures NextReady(t, start, offset) == p
    decreases 17 - offset
  {
    if Wrap(start + offset) != p { ScanGives(t, start, offset + 1, p); }
  }

  // ---------- sleeping ----------

  ghost predicate Asleep(s: State, i: nat) { i < 16 && s.table[i].state == Blocked && s.table[i].wait == NoWait }

  /** In all states of the run slot `i` is asleep, up to the tick that brings the clock to `due`;
      after that tick it is ready, or running if the tick also gave it the processor. */
  ghost predicate AsleepUntil(s: State, steps: seq<Step>, i: nat, due: nat)
    requires Runs(s, steps)
    decreases |steps|
  {
    && Asleep(s, i)
    && (steps == [] ||
        var s' := Next(s, steps[0]);
        if s'.clock < due then AsleepUntil(s', steps[1..], i, due)
        else s'.clock == due && steps[0].DoTick? && (s'.table[i].state == Ready || s'.table[i].state == Running))
  }

  lemma {:induction false} SleeperWakes(s: State, steps: seq<Step>, i: nat, due: nat)
    requires Valid(s) && Runs(s, steps) && Sleeping(s, i, due)
    ensures AsleepUntil(s, steps, i, due)
    decreases |steps|
  {
    hide Valid, Next, Enabled;
    if steps != [] {
      SleepStep(s, steps[0], i, due);
      NextKeeps(s, steps[0]);
      if Next(s, steps[0]).clock < due { SleeperWakes(Next(s, steps[0]), steps[1..], i, due); }
    }
  }

  /** A call to sleep for `n` ticks: it is refused exactly if there is nobody else to run; otherwise
      the caller sleeps, whatever the others do, up to the tick at which the clock, counted without
      bound, has advanced by `n`, and not beyond that tick. */
  lemma SleepsExactly(s: State, n: nat, steps: seq<Step>)
    requires Valid(s) && Me(s).request == 0 && s.current > 0 && 1 <= n <= 0x7FFF_FFFF && Runs(s, [DoSleep(n)] + steps)
    ensures Runs(Next(s, DoSleep(n)), steps)
    ensures if SomeReady(s.table) then AsleepUntil(Next(s, DoSleep(n)), steps, s.current, s.clock + n)
            else Next(s, DoSleep(n)) == s
  {
    hide Valid, NextReady, Sleeping;
    var all := [DoSleep(n)] + steps;
    assert all[0] == DoSleep(n) && all[1..] == steps;
    ScanFinds(s.table, s.current);
    if SomeReady(s.table) {
      NextKeeps(s, DoSleep(n));
      SleepStarts(s, n);
      SleeperWakes(Next(s, DoSleep(n)), steps, s.current, s.clock + n);
    }
  }

  // ---------- exit codes ----------

  /** The step is a waitpid call of the process `parent` that returns `pid` and `code`. */
  ghost predicate Collects(s: State, step: Step, parent: nat, pid: nat, code: int)
    requires s.current < 16
  {
    && (step.DoWait? || step.DoResume?) && Me(s).pid == parent
    && var r := if step.DoWait? then WaitPid(s, step.request) else WaitRound(s, Me(s).request);
       r.1 == pid && r.2 == code
  }

  /** Slot `c` holds `z` in all states of the run up to the first step that changes it, and that
      step is the parent's waitpid call, which returns the number and the exit code in `z` and
      leaves the slot unused. */
  ghost predicate KeptUntilCollected(s: State, steps: seq<Step>, c: nat, z: Process)
    requires Runs(s, steps) && c < 16
    decreases |steps|
  {
    && s.table[c] == z
    && (steps == [] ||
        if Next(s, steps[0]).table[c] == z then KeptUntilCollected(Next(s, steps[0]), steps[1..], c, z)
        else Collects(s, steps[0], z.parent, z.pid, z.exit) && Next(s, steps[0]).table[c].state == Unused)
  }

  lemma {:induction false} ZombieCollected(s: State, steps: seq<Step>, c: nat)
    requires Valid(s) && Runs(s, steps) && c < 16 && s.table[c].state == Zombie
    ensures KeptUntilCollected(s, steps, c, s.table[c])
    decreases |steps|
  {
    hide Valid, Next, WaitPid, WaitRound;
    if steps != [] {
      ZombieKept(s, steps[0], c);
      NextKeeps(s, steps[0]);
      if Next(s, steps[0]).table[c] == s.table[c] { ZombieCollected(Next(s, steps[0]), steps[1..], c); }
    }
  }

  /** From an exit on, whatever happens: the slot keeps the code until the parent's waitpid call
      that frees the slot, and that call returns the code. */
  lemma ExitCodeReturned(s: State, code: int, steps: seq<Step>)
    requires Valid(s) && Runs(s, [DoExit(code)] + steps)
    ensures Runs(Next(s, DoExit(code)), steps)
    ensures KeptUntilCollected(Next(s, DoExit(code)), steps, s.current, Me(s).(state := Zombie, exit := code))
  {
    hide Valid, KeptUntilCollected, NextReady;
    var all := [DoExit(code)] + steps;
    assert all[0] == DoExit(code) && all[1..] == steps;
    NextKeeps(s, DoExit(code));
    ExitLeaves(s, code);
    ZombieCollected(Next(s, DoExit(code)), steps, s.current);
  }

  lemma ExitLeaves(s: State, code: int)
    requires Valid(s) && Enabled(s, DoExit(code))
    ensures Next(s, DoExit(code)).table[s.current] == Me(s).(state := Zombie, exit := code)
  {
    hide PidsFine, FirstChild, NextReady;
    assert SlotFine(s, s.current);
  }

  // ---------- waiting ----------

  /** Slot `p` is in a waitpid call for `request` in all states of the run, up to its next step;
      that step ends the call with the number and the exit code of a matching child that has exited. */
  ghost predicate WaitsUntilReturn(s: State, steps: seq<Step>, p: nat, pid: nat, request: int)
    requires Runs(s, steps) && p < 16
    decreases |steps|
  {
    && s.table[p].request == request && s.table[p].pid == pid
    && (steps == [] ||
        if s.current != p then WaitsUntilReturn(Next(s, steps[0]), steps[1..], p, pid, request)
        else steps[0].DoResume? && exists c ::
               && 0 < c < 16 && Matches(s.table[c], pid, request, true)
               && Collects(s, steps[0], pid, s.table[c].pid, s.table[c].exit))
  }

  lemma RequestKept(s: State, step: Step, p: nat)
    requires Valid(s) && Enabled(s, step) && p < 16 && p != s.current && s.table[p].request != 0
    ensures Next(s, step).table[p].request == s.table[p].request && Next(s, step).table[p].pid == s.table[p].pid
  {
    hide PidsFine, FirstChild, NextReady, LowestFree, Due;
    assert SlotFine(s, p) && SlotFine(s, s.current);
    match step
    case DoSpawn(resources) =>
    case DoYield =>
    case DoSleep(ticks) =>
    case DoExit(code) =>
    case DoWait(request) =>
    case DoResume =>
    case DoTick =>
  }

  lemma {:induction false} WaiterReturns(s: State, steps: seq<Step>, p: nat)
    requires Valid(s) && Runs(s, steps) && p < 16 && s.table[p].request != 0
    ensures WaitsUntilReturn(s, steps, p, s.table[p].pid, s.table[p].request)
    decreases |steps|
  {
    hide Valid, Next, WaitPid, WaitRound;
    if steps != [] {
      if s.current == p {
        ResumeReturns(s);
      } else {
        RequestKept(s, steps[0], p);
        NextKeeps(s, steps[0]);
        WaiterReturns(Next(s, steps[0]), steps[1..], p);
      }
    }
  }

  /** A waitpid call that blocks does so once: the first thing its process does when it runs again
      is to return from it, successfully. */
  lemma WaitBlocksOnce(s: State, request: int, steps: seq<Step>)
    requires Valid(s) && Runs(s, [DoWait(request)] + steps) && WaitPid(s, request).1 == 0
    ensures Runs(Next(s, DoWait(request)), steps)
    ensures WaitsUntilReturn(Next(s, DoWait(request)), steps, s.current, Me(s).pid, request)
  {
    hide Valid, WaitsUntilReturn, NextReady, FirstChild;
    var all := [DoWait(request)] + steps;
    assert all[0] == DoWait(request) && all[1..] == steps;
    NextKeeps(s, DoWait(request));
    BlockedCall(s, request);
    WaiterReturns(Next(s, DoWait(request)), steps, s.current);
  }

  lemma BlockedCall(s: State, request: int)
    requires Valid(s) && WaitPid(s, request).1 == 0
    ensures request != 0 && Next(s, DoWait(request)).table[s.current].request == request
    ensures Next(s, DoWait(request)).table[s.current].pid == Me(s).pid
  {
    hide NextReady, FirstChild;
    assert SlotFine(s, s.current);
  }

  // ---------- when waitpid reports no child ----------

  ghost predicate HasChild(s: State, request: int, zombieOnly: bool)
    requires s.current < 16
  {
    exists c :: 1 <= c < 16 && Matches(s.table[c], Me(s).pid, request, zombieOnly)
  }

  /** It does so exactly if there is none, or if it would have to block and nobody else could run. */
  lemma NoChildIff(s: State, request: int)
    requires Valid(s) && (request == -1 || request > 0)
    ensures WaitPid(s, request).1 == ECHILD <==>
              !HasChild(s, request, false) || (!HasChild(s, request, true) && !SomeReady(s.table))
  {
    hide PidsFine, FirstChild, NextReady;
    assert SlotFine(s, s.current);
    var z, c := FirstChild(s.table, Me(s).pid, request, true, 1), FirstChild(s.table, Me(s).pid, request, false, 1);
    if z < 16 {
      assert Matches(s.table[z], Me(s).pid, request, false);
    } else if c < 16 {
      var t := s.table[s.current := AsWaiter(Me(s), request, c)];
      ScanFinds(t, s.current);
      assert SomeReady(t) <==> SomeReady(s.table) by { SameReady(s, t); }
    }
  }

  lemma SameReady(s: State, t: Table)
    requires s.current < 16 && Me(s).state != Ready && t[s.current].state != Ready
    requires t == s.table[s.current := t[s.current]]
    ensures SomeReady(t) <==> SomeReady(s.table)
  {
    if SomeReady(t) {
      var i :| 0 <= i < 16 && t[i].state == Ready;
      assert s.table[i].state == Ready;
    }
    if SomeReady(s.table) {
      var i :| 0 <= i < 16 && s.table[i].state == Ready;
      assert t[i].state == Ready;
    }
  }

  /** A process that exits has a successor exactly if somebody is ready or waits for it. */
  lemma CanExitIff(s: State, code: int)
    requires Valid(s)
    ensures CanExit(s, code) <==>
              || SomeReady(s.table)
              || exists i :: 0 <= i < 16 && i != s.current && WokenBy(s.table[i], s.current, Me(s).parent)
  {
    hide PidsFine, FirstChild, NextReady;
    assert SlotFine(s, s.current);
    ScanFinds(Exited(s, code), s.current);
    var t := Exited(s, code);
    if SomeReady(t) {
      var i :| 0 <= i < 16 && t[i].state == Ready;
      assert s.table[i].state == Ready || WokenBy(s.table[i], s.current, Me(s).parent);
    }
    if SomeReady(s.table) {
      var i :| 0 <= i < 16 && s.table[i].state == Ready;
      assert t[i].state == Ready;
    }
    if i :| 0 <= i < 16 && i != s.current && WokenBy(s.table[i], s.current, Me(s).parent) {
      assert t[i].state == Ready;
    }
  }

  // ---------- the boot process ----------

  lemma BootAsleepStep(s: State, step: Step)
    requires Valid(s) && Enabled(s, step) && Asleep(s, 0)
    ensures Next(s, step).table[0] == s.table[0]
  {
    hide FirstChild, NextReady, LowestFree, Due;
    assert SlotFine(s, 0) && SlotFine(s, s.current);
  }

  /** Slot 0 is never woken from sleep: the tick handler does not look at it. */
  lemma {:induction false} BootSleepsForever(s: State, steps: seq<Step>)
    requires Valid(s) && Runs(s, steps) && Asleep(s, 0)
    ensures After(s, steps).table[0] == s.table[0]
    decreases |steps|
  {
    hide Valid, Next;
    if steps != [] {
      BootAsleepStep(s, steps[0]);
      NextKeeps(s, steps[0]);
      BootSleepsForever(Next(s, steps[0]), steps[1..]);
    }
  }

  ghost predicate BootIdle(s: State) { s.table[0].request == 0
      && (s.table[0].state == Ready || s.table[0].state == Running) }

  /** In this run the boot process does nothing but yield and create processes. */
  ghost predicate BootOnlyYields(s: State, steps: seq<Step>)
    requires Runs(s, steps)
    decreases |steps|
  {
    steps != [] ==>
      && (s.current == 0 ==> steps[0].DoYield? || steps[0].DoTick? || steps[0].DoSpawn?)
      && BootOnlyYields(Next(s, steps[0]), steps[1..])
  }

  lemma BootIdleStep(s: State, step: Step)
    requires Valid(s) && Enabled(s, step) && BootIdle(s)
    requires s.current == 0 ==> step.DoYield? || step.DoTick? || step.DoSpawn?
    ensures BootIdle(Next(s, step))
  {
    hide PidsFine, FirstChild, NextReady, LowestFree, Due;
    assert SlotFine(s, 0) && SlotFine(s, s.current);
  }

  /** Then it is ready or running in every state. */
  lemma {:induction false} BootStaysIdle(s: State, steps: seq<Step>)
    requires Valid(s) && Runs(s, steps) && BootIdle(s) && BootOnlyYields(s, steps)
    ensures BootIdle(After(s, steps))
    decreases |steps|
  {
    hide Valid, Next, BootIdle;
    if steps != [] {
      BootIdleStep(s, steps[0]);
      NextKeeps(s, steps[0]);
      BootStaysIdle(Next(s, steps[0]), steps[1..]);
    }
  }

  /** As long as somebody is ready, a process is told that it has no child exactly if it has none. */
  lemma WaitFindsChild(s: State, request: int)
    requires Valid(s) && SomeReady(s.table) && (request == -1 || request > 0)
    ensures WaitPid(s, request).1 == ECHILD <==> !HasChild(s, request, false)
  {
    hide Valid, WaitPid;
    NoChildIff(s, request);
  }

  /** In every state of such a run from boot, every other process can exit and sleep, and is told that
      it has no child only if it has none. */
  lemma OthersProceed(s: State, steps: seq<Step>, code: int, request: int)
    requires Booted(s) && Runs(s, steps) && BootOnlyYields(s, steps)
    ensures After(s, steps).current < 16
    ensures var e := After(s, steps);
            e.current > 0 ==>
              && CanExit(e, code) && SomeReady(e.table)
              && (request == -1 || request > 0 ==> (WaitPid(e, request).1 == ECHILD <==> !HasChild(e, request, false)))
  {
    hide Valid, WaitPid, Next, CanExit;
    BootValid(s);
    BootStaysIdle(s, steps);
    RunKeeps(s, steps);
    var e := After(s, steps);
    ValidFacts(e);
    if e.current > 0 {
      BootReady(e);
      CanExitIff(e, code);
      if request == -1 || request > 0 { WaitFindsChild(e, request); }
    }
  }

  lemma BootReady(s: State)
    requires Valid(s) && BootIdle(s) && s.current > 0
    ensures s.table[0].state == Ready && SomeReady(s.table)
  {
    hide PidsFine, FirstChild;
    assert SlotFine(s, 0);
  }

  // ---------- runs in which the boot process does more ----------

  function Child1(state: RunState): (p: Process) { Process(1, state, 0, 0, 0, 5, NoWait, 0) }

  function Child2(state: RunState): (p: Process) { Process(2, state, 0, 1, 0, 5, NoWait, 0) }

  /** A table with at most three processes. */
  ghost predicate Holds(s: State, current: nat, p0: Process, p1: Process, p2: Process) {
    && s.current == current && s.table[0] == p0 && s.table[1] == p1 && s.table[2] == p2
    && forall i :: 3 <= i < 16 ==> s.table[i] == CLEARED
  }

  lemma SpawnFirst(s: State)
    requires Booted(s)
    ensures Enabled(s, DoSpawn(true)) && Holds(Next(s, DoSpawn(true)), 0, s.table[0], Child1(Ready), CLEARED)
    ensures Next(s, DoSpawn(true)).nextPid == 2 && Next(s, DoSpawn(true)).clock == s.clock
  {
    assert FirstUnused(s.table, 1) == 1;
  }

  /** The boot process can go to sleep, from where it never returns. */
  lemma BootMaySleep(s: State)
    requires Booted(s)
    ensures Runs(s, [DoSpawn(true), DoSleep(1)]) && Asleep(After(s, [DoSpawn(true), DoSleep(1)]), 0)
  {
    hide NextReady, Spawn;
    var s1 := Next(s, DoSpawn(true));
    SpawnFirst(s);
    ScanGives(s1.table, 0, 1, 1);
    assert [DoSpawn(true), DoSleep(1)][1..] == [DoSleep(1)] && [DoSleep(1)][1..] == [];
    assert Runs(s1, [DoSleep(1)]);
  }

  const WAITING_BOOT := Process(0, Blocked, 0, 0, 0, 5, AnyChild, -1)

  lemma BootWaits(s: State)
    requires Holds(s, 0, Process(0, Running, 0, 0, 0, 5, NoWait, 0), Child1(Ready), CLEARED) && s.nextPid == 2
    ensures Enabled(s, DoWait(-1)) && Holds(Next(s, DoWait(-1)), 1, WAITING_BOOT, Child1(Running), CLEARED)
    ensures Next(s, DoWait(-1)).nextPid == 2
  {
    hide NextReady, FirstChild;
    assert Matches(s.table[1], 0, -1, false);
    ScanGives(s.table[0 := WAITING_BOOT], 0, 1, 1);
  }

  lemma SpawnSecond(s: State)
    requires Holds(s, 1, WAITING_BOOT, Child1(Running), CLEARED) && s.nextPid == 2
    ensures Enabled(s, DoSpawn(true)) && Holds(Next(s, DoSpawn(true)), 1, WAITING_BOOT, Child1(Running), Child2(Ready))
  {
    assert FirstUnused(s.table, 1) == 2;
  }

  lemma YieldToSecond(s: State)
    requires Holds(s, 1, WAITING_BOOT, Child1(Running), Child2(Ready))
    ensures Enabled(s, DoYield) && Holds(Next(s, DoYield), 2, WAITING_BOOT, Child1(Ready), Child2(Running))
  {
    assert NextReady(s.table[1 := Child1(Ready)], 1, 1) == 2;
  }

  lemma SecondSleeps(s: State)
    requires Holds(s, 2, WAITING_BOOT, Child1(Ready), Child2(Running))
    ensures Enabled(s, DoSleep(5)) && Next(s, DoSleep(5)).table[2].state == Blocked
    ensures Holds(Next(s, DoSleep(5)), 1, WAITING_BOOT, Child1(Running), Next(s, DoSleep(5)).table[2])
    ensures Next(s, DoSleep(5)).table[2].pid == 2 && Next(s, DoSleep(5)).table[2].parent == 1
  {
    hide NextReady;
    ScanGives(s.table, 2, 1, 1);
  }

  /** Boot creates a process and waits for it; that process creates a child, which sleeps. When the
      process then waits for its child, it is told that it has none. */
  lemma LiveChildDenied(s: State)
    requires Booted(s)
    ensures var steps := [DoSpawn(true), DoWait(-1), DoSpawn(true), DoYield, DoSleep(5)];
            && Runs(s, steps) && After(s, steps).current < 16
            && HasChild(After(s, steps), -1, false) && WaitPid(After(s, steps), -1).1 == ECHILD
  {
    hide Next, WaitPid, Enabled;
    var steps := [DoSpawn(true), DoWait(-1), DoSpawn(true), DoYield, DoSleep(5)];
    var s1 := Next(s, DoSpawn(true));
    SpawnFirst(s);
    var s2 := Next(s1, DoWait(-1));
    BootWaits(s1);
    var s3 := Next(s2, DoSpawn(true));
    SpawnSecond(s2);
    var s4 := Next(s3, DoYield);
    YieldToSecond(s3);
    var s5 := Next(s4, DoSleep(5));
    SecondSleeps(s4);
    FiveSteps(s, steps, s1, s2, s3, s4, s5);
    BootValid(s);
    RunKeeps(s, steps);
    NoChildIff(s5, -1);
    assert Matches(s5.table[2], 1, -1, false);
  }

  lemma FiveSteps(s: State, steps: seq<Step>, s1: State, s2: State, s3: State, s4: State, s5: State)
    requires |steps| == 5 && s.current < 16 && s1.current < 16 && s2.current < 16 && s3.current < 16 && s4.current < 16
    requires s5.current < 16
    requires Enabled(s, steps[0]) && Enabled(s1, steps[1]) && Enabled(s2, steps[2]) && Enabled(s3, steps[3])
    requires Enabled(s4, steps[4])
    requires s1 == Next(s, steps[0]) && s2 == Next(s1, steps[1]) && s3 == Next(s2, steps[2])
    requires s4 == Next(s3, steps[3]) && s5 == Next(s4, steps[4])
    ensures Runs(s, steps) && After(s, steps) == s5
  {
    hide Next, Enabled;
    var a, b, c, d := steps[1..], steps[1..][1..], steps[1..][1..][1..], steps[1..][1..][1..][1..];
    assert Runs(s5, d[1..]) && After(s5, d[1..]) == s5;
    assert Runs(s4, d) && After(s4, d) == s5;
    assert Runs(s3, c) && After(s3, c) == s5;
    assert Runs(s2, b) && After(s2, b) == s5;
    assert Runs(s1, a) && After(s1, a) == s5;
  }
}
