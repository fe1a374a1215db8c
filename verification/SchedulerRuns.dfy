/** Whole runs of the scheduler. */
module SchedulerRuns {
  import opened Errno
  import opened Processes
  import opened Scheduling

  /** One call into the scheduler. `DoResume` is the rest of a waitpid call whose caller was
      blocked and now has the processor again; interrupts are off until it returns. */
  datatype Step = DoSpawn(resources: bool) | DoYield | DoSleep(ticks: nat) | DoExit(code: int)
                | DoWait(request: int) | DoResume | DoTick

  /** The least unused number from `c` on. */
  function LowestFree(t: Table, c: nat): (pid: nat)
    requires c <= PID_MAXIMUM + 1
    ensures c <= pid <= PID_MAXIMUM + 1 && (pid <= PID_MAXIMUM ==> !InUse(t, pid))
    ensures forall x :: c <= x < pid ==> InUse(t, x)
    decreases PID_MAXIMUM + 1 - c
  {
    if c > PID_MAXIMUM || !InUse(t, c) then c else LowestFree(t, c + 1)
  }

  function NewPid(s: State): (pid: nat) {
    if s.nextPid != 0 then s.nextPid else LowestFree(s.table, 1)
  }

  function Spawn(s: State, resources: bool): (s': State)
    requires s.current < 16
  {
    var slot := FirstUnused(s.table, 1);
    if slot == 16 || !resources || NewPid(s) > PID_MAXIMUM then s else Born(s, slot, NewPid(s))
  }

  function Next(s: State, step: Step): (s': State)
    requires s.current < 16
  {
    match step
    case DoSpawn(resources) => Spawn(s, resources)
    case DoYield => Yield(s)
    case DoSleep(ticks) => Sleep(s, ticks)
    case DoExit(code) => Exit(s, code)
    case DoWait(request) => WaitPid(s, request).0
    case DoResume => WaitRound(s, Me(s).request).0
    case DoTick => Tick(s)
  }

  ghost predicate Enabled(s: State, step: Step)
    requires s.current < 16
  {
    && (step.DoResume? <==> Me(s).request != 0)
    && (step.DoExit? ==> CanExit(s, step.code))
  }

  function Upto(n: nat): (xs: set<nat>)
    ensures |xs| == n && forall x :: x in xs <==> 1 <= x <= n
  {
    if n == 0 then {} else Upto(n - 1) + {n}
  }

  function UsedPids(t: Table, n: nat): (pids: set<nat>)
    requires 1 <= n <= 16
    ensures |pids| <= n - 1 && forall i :: 1 <= i < n ==> t[i].pid in pids
  {
    if n == 1 then {} else UsedPids(t, n - 1) + {t[n - 1].pid}
  }

  /** With 16 slots, one of the numbers 1 to 16 is always unused. */
  lemma SomePidFree(s: State)
    requires PidsFine(s)
    ensures LowestFree(s.table, 1) <= 16
  {
    hide UsedPids, Upto, LowestFree;
    var used := UsedPids(s.table, 16);
    if Upto(16) <= used {
      Subset(Upto(16), used);
    } else {
      var x :| x in Upto(16) && x !in used;
      assert !InUse(s.table, x);
    }
  }

  lemma {:induction false} Subset(a: set<nat>, b: set<nat>)
    requires a <= b
    ensures |a| <= |b|
  {
    if a != {} {
      var x :| x in a;
      Subset(a - {x}, b - {x});
    }
  }

  lemma NewPidFresh(s: State)
    requires PidsFine(s)
    ensures Fresh(s, NewPid(s))
  {
    SomePidFree(s);
  }

  lemma NextKeeps(s: State, step: Step)
    requires Valid(s) && Enabled(s, step)
    ensures Valid(Next(s, step))
  {
    hide PidsFine, SlotFine, NextReady, FirstChild, InUse;
    match step
    case DoSpawn(resources) =>
      var slot := FirstUnused(s.table, 1);
      NewPidFresh(s);
      if slot < 16 && resources { BornKeeps(s, slot, NewPid(s)); }
    case DoYield => YieldKeeps(s);
    case DoSleep(ticks) => SleepKeeps(s, ticks);
    case DoExit(code) => ExitKeeps(s, code);
    case DoWait(request) => if request != 0 && request >= -1 { WaitKeeps(s, request); }
    case DoResume =>
      RequestInRange(s);
      WaitKeeps(s, Me(s).request);
    case DoTick => TickKeeps(s);
  }

  lemma RequestInRange(s: State)
    requires Valid(s)
    ensures Me(s).request >= -1
  {
    assert SlotFine(s, s.current);
  }

  // ---------- runs ----------

  ghost predicate Runs(s: State, steps: seq<Step>)
    decreases |steps|
  {
    s.current < 16 && (steps == [] || (Enabled(s, steps[0]) && Runs(Next(s, steps[0]), steps[1..])))
  }

  ghost function After(s: State, steps: seq<Step>): (s': State)
    requires Runs(s, steps)
    decreases |steps|
  {
    if steps == [] then s else After(Next(s, steps[0]), steps[1..])
  }

  lemma {:induction false} RunKeeps(s: State, steps: seq<Step>)
    requires Valid(s) && Runs(s, steps)
    ensures Valid(After(s, steps))
    decreases |steps|
  {
    hide Valid, Next;
    if steps != [] {
      NextKeeps(s, steps[0]);
      RunKeeps(Next(s, steps[0]), steps[1..]);
    }
  }

  /** The table at boot. */
  ghost predicate Booted(s: State) {
    && s.table[0] == Process(0, Running, 0, 0, 0, 5, NoWait, 0) && s.current == 0 && s.nextPid == 1
    && forall i :: 1 <= i < 16 ==> s.table[i] == CLEARED
  }

  /** In every run from boot: exactly one process runs, and it is the current one; live processes
      have distinct numbers; nobody is blocked on a child that has exited. */
  lemma AlwaysInOrder(s: State, steps: seq<Step>, i: nat, j: nat)
    requires Booted(s) && Runs(s, steps) && i < 16 && j < 16
    ensures var t, current := After(s, steps).table, After(s, steps).current;
            && (t[i].state == Running <==> i == current)
            && (i != j && t[i].state != Unused && t[j].state != Unused ==> t[i].pid != t[j].pid)
            && (t[i].state == Blocked && t[i].request != 0 && j > 0 ==> !Matches(t[j], t[i].pid, t[i].request, true))
            && (t[i].state != Blocked && t[i].request != 0 ==>
               exists c :: 0 < c < 16 && Matches(t[c], t[i].pid, t[i].request, true))
  {
    hide FirstChild;
    BootValid(s);
    RunKeeps(s, steps);
    var s' := After(s, steps);
    assert SlotFine(s', i);
    ghost var c := FirstChild(s'.table, s'.table[i].pid, s'.table[i].request, true, 1);
  }

  lemma BootValid(s: State)
    requires Booted(s)
    ensures Valid(s)
  {
    forall i | 0 <= i < 16 ensures SlotFine(s, i) { }
  }

  // ---------- waitpid ----------

  /** A blocked waitpid call returns as soon as its caller runs again, with the number and the exit
      code of a child that has exited: it blocks at most once. */
  lemma ResumeReturns(s: State)
    requires Valid(s) && Me(s).request != 0
    ensures var r := WaitRound(s, Me(s).request);
            exists c :: && 0 < c < 16 && Matches(s.table[c], Me(s).pid, Me(s).request, true)
                        && r.1 == s.table[c].pid && r.2 == s.table[c].exit && r.0.table[c].state == Unused
  {
    assert SlotFine(s, s.current);
    var c := FirstChild(s.table, Me(s).pid, Me(s).request, true, 1);
    assert Matches(s.table[c], Me(s).pid, Me(s).request, true);
  }

  /** A child that has exited keeps its exit code until its parent collects it. */
  lemma ZombieKept(s: State, step: Step, c: nat)
    requires Valid(s) && Enabled(s, step) && c < 16 && s.table[c].state == Zombie
    ensures Next(s, step).table[c] != s.table[c] ==>
              && (step.DoWait? || step.DoResume?) && s.table[c].parent == Me(s).pid
              && Next(s, step).table[c].state == Unused
              && var r := if step.DoWait? then WaitPid(s, step.request) else WaitRound(s, Me(s).request);
                 r.1 == s.table[c].pid && r.2 == s.table[c].exit
  {
    hide PidsFine, FirstChild, NextReady, LowestFree, Due;
    assert SlotFine(s, c) && SlotFine(s, s.current);
    match step
    case DoSpawn(resources) =>
    case DoYield =>
    case DoSleep(ticks) =>
    case DoExit(code) =>
    case DoWait(request) =>
    case DoResume =>
    case DoTick =>
  }

  // ---------- bounded waiting ----------

  /** How far slot `p` is ahead of the running one, going round the table. */
  function Ahead(from: nat, p: nat): (d: nat)
    requires from < 16 && p < 16
    ensures 1 <= d <= 16
  {
    if p > from then p - from else p + 16 - from
  }

  /** The scan for the next process stops at `p` at the latest. */
  lemma {:induction false} ScanStops(t: Table, start: nat, offset: nat, p: nat)
    requires start < 16 && p < 16 && t[p].state == Ready && 1 <= offset <= Ahead(start, p)
    ensures NextReady(t, start, offset) < 16 && offset <= Ahead(start, NextReady(t, start, offset)) <= Ahead(start, p)
    decreases 17 - offset
  {
    if t[Wrap(start + offset)].state != Ready { ScanStops(t, start, offset + 1, p); }
  }

  /** Ticks that `p` may still have to wait for: five for each slot before it, and the rest of the
      current slice. */
  function TicksLeft(s: State, p: nat): (m: nat)
    requires s.current < 16 && p < 16
  {
    5 * (Ahead(s.current, p) - 1) + Me(s).slice
  }

  ghost predicate IsReady(s: State, p: nat) { p < 16 && s.table[p].state == Ready }

  /** If the processor changes hands, it moves towards `p`. */
  lemma SwitchApproaches(s: State, t: Table, p: nat)
    requires Valid(s) && IsReady(s, p) && t[p].state == Ready
    requires t[s.current].state != Ready || Ahead(s.current, p) < 16
    ensures var n := NextReady(t, s.current, 1);
            && n < 16 && n != s.current
            && (n != p ==> && Ahead(n, p) < Ahead(s.current, p)
                           && 5 * (Ahead(n, p) - 1) + 5 <= TicksLeft(s, p) - Me(s).slice)
  {
    ValidFacts(s);
    ScanStops(t, s.current, 1, p);
  }

  lemma StepApproaches(s: State, step: Step, p: nat)
    requires Valid(s) && Enabled(s, step) && IsReady(s, p) && IsReady(Next(s, step), p)
    ensures var s' := Next(s, step);
            && s'.current < 16
            && TicksLeft(s', p) + (if step.DoTick? then 1 else 0) <= TicksLeft(s, p)
            && Ahead(s'.current, p) + (if s'.current != s.current then 1 else 0) <= Ahead(s.current, p)
  {
    hide PidsFine, FirstChild, NextReady, LowestFree, Due, SlotFine, WaitRound, Tick;
    ValidFacts(s);
    match step
    case DoSpawn(resources) =>
    case DoYield => SwitchApproaches(s, s.table[s.current := Me(s).(state := Ready)], p);
    case DoSleep(ticks) =>
      SwitchApproaches(s, s.table, p);
      SwitchApproaches(s, s.table[s.current := Me(s).(state := Ready)], p);
    case DoExit(code) => SwitchApproaches(s, Exited(s, code), p);
    case DoWait(request) => if request != 0 && request >= -1 { WaitApproaches(s, request, p); }
    case DoResume => WaitApproaches(s, Me(s).request, p);
    case DoTick => TickApproaches(s, p);
  }

  lemma WaitApproaches(s: State, request: int, p: nat)
    requires Valid(s) && IsReady(s, p) && IsReady(WaitRound(s, request).0, p)
    ensures var s' := WaitRound(s, request).0;
            && s'.current < 16 && TicksLeft(s', p) <= TicksLeft(s, p)
            && Ahead(s'.current, p) + (if s'.current != s.current then 1 else 0) <= Ahead(s.current, p)
  {
    hide PidsFine, NextReady, SlotFine, FirstChild;
    ValidFacts(s);
    var z, c := FirstChild(s.table, Me(s).pid, request, true, 1), FirstChild(s.table, Me(s).pid, request, false, 1);
    if z == 16 && c < 16 {
      SwitchApproaches(s, s.table[s.current := AsWaiter(Me(s), request, c)], p);
    }
  }

  lemma TickApproaches(s: State, p: nat)
    requires Valid(s) && IsReady(s, p) && IsReady(Tick(s), p)
    ensures var s' := Tick(s);
            && s'.current < 16 && TicksLeft(s', p) + 1 <= TicksLeft(s, p)
            && Ahead(s'.current, p) + (if s'.current != s.current then 1 else 0) <= Ahead(s.current, p)
  {
    hide PidsFine, NextReady, SlotFine, Due;
    var now := (s.clock + 1) % 0x1_0000_0000;
    var s1 := s.(clock := s.clock + 1, table := TickAll(s.table, now));
    WakeSleepers(s, now, s.clock + 1);
    ValidFacts(s);
    ValidFacts(s1);
    assert Me(s1).slice == Me(s).slice;
    SwitchApproaches(s1, s1.table[s.current := Me(s1).(state := Ready)], p);
  }

  function Ticks(steps: seq<Step>): (n: nat) {
    if steps == [] then 0 else (if steps[0].DoTick? then 1 else 0) + Ticks(steps[1..])
  }

  ghost function Switches(s: State, steps: seq<Step>): (n: nat)
    requires Runs(s, steps)
    decreases |steps|
  {
    if steps == [] then 0
    else (if Next(s, steps[0]).current != s.current then 1 else 0) + Switches(Next(s, steps[0]), steps[1..])
  }

  ghost predicate StaysReady(s: State, steps: seq<Step>, p: nat)
    requires Runs(s, steps)
    decreases |steps|
  {
    IsReady(s, p) && (steps == [] || StaysReady(Next(s, steps[0]), steps[1..], p))
  }

  /** A process that stays ready without running sees fewer than 75 ticks and fewer than 15 changes
      of the running process, whatever the others do. */
  lemma {:induction false} BoundedWaiting(s: State, steps: seq<Step>, p: nat)
    requires Valid(s) && Runs(s, steps) && StaysReady(s, steps, p)
    ensures Ticks(steps) < TicksLeft(s, p) <= 75 && Switches(s, steps) < Ahead(s.current, p) <= 15
    decreases |steps|
  {
    hide PidsFine, FirstChild, NextReady, Next, SlotFine;
    ValidFacts(s);
    if steps != [] {
      NextKeeps(s, steps[0]);
      StepApproaches(s, steps[0], p);
      BoundedWaiting(Next(s, steps[0]), steps[1..], p);
    }
  }

  // ---------- sleeping ----------

  /** Process `i` sleeps until the clock shows `due`. */
  ghost predicate Sleeping(s: State, i: nat, due: nat) {
    && 0 < i < 16 && s.table[i].state == Blocked && s.table[i].wait == NoWait
    && s.table[i].wake == due % 0x1_0000_0000 && s.clock < due <= s.clock + 0x7FFF_FFFF
  }

  /** The wrapped comparison tells exactly whether the time has come. */
  lemma DueExactly(now: nat, due: nat)
    requires now <= due < now + 0x7FFF_FFFF
    ensures Due(now % 0x1_0000_0000, due % 0x1_0000_0000) <==> now == due
  {
    var n, d := now % 0x1_0000_0000, due - now;
    assert due % 0x1_0000_0000 == (n + d) % 0x1_0000_0000 by { ModAdd(now, d); }
    if n + d < 0x1_0000_0000 {
      assert (n + d) % 0x1_0000_0000 == n + d;
    } else {
      assert (n + d) % 0x1_0000_0000 == n + d - 0x1_0000_0000;
    }
  }

  lemma ModAdd(a: nat, d: nat)
    ensures (a + d) % 0x1_0000_0000 == (a % 0x1_0000_0000 + d) % 0x1_0000_0000
  {
    assert a + d == a % 0x1_0000_0000 + d + 0x1_0000_0000 * (a / 0x1_0000_0000);
  }

  lemma SleepStarts(s: State, ticks: nat)
    requires Valid(s) && Me(s).request == 0 && s.current > 0 && 1 <= ticks <= 0x7FFF_FFFF
    requires NextReady(s.table, s.current, 1) < 16
    ensures Sleeping(Sleep(s, ticks), s.current, s.clock + ticks)
  {
    hide NextReady, FirstChild, PidsFine;
    assert SlotFine(s, s.current);
  }

  /** A sleeper wakes at the tick that brings the clock to its time, and by nothing else: not by
      an earlier tick, and not by the exit of a child. */
  lemma SleepStep(s: State, step: Step, i: nat, due: nat)
    requires Valid(s) && Enabled(s, step) && Sleeping(s, i, due)
    ensures var s' := Next(s, step);
            if s'.clock == due then step.DoTick? && (s'.table[i].state == Ready || s'.table[i].state == Running)
            else Sleeping(s', i, due)
  {
    hide PidsFine, FirstChild, NextReady, LowestFree, Due;
    assert SlotFine(s, i) && SlotFine(s, s.current);
    match step
    case DoSpawn(resources) =>
    case DoYield =>
    case DoSleep(ticks) =>
    case DoExit(code) =>
    case DoWait(request) =>
    case DoResume =>
    case DoTick => DueExactly(s.clock + 1, due);
  }
}
