/** What holds of the process table in every run: one running process, distinct process
    numbers, prompt wake-ups, bounded waiting and exact sleeping. */
module Scheduling {
  import opened Processes

  // ---------- the invariant ----------

  ghost predicate WaitFine(t: Table, p: Process) {
    if p.request == 0 then p.wait == NoWait
    else && FirstChild(t, p.pid, p.request, true, 1) == 16 && FirstChild(t, p.pid, p.request, false, 1) < 16
         && p.wait == if p.request == -1 then AnyChild else Child(FirstChild(t, p.pid, p.request, false, 1))
  }

  /** A process in a waitpid call is blocked as long as no matching child has exited; once one
      has, it is ready or running, and will find that child. */
  ghost predicate SlotFine(s: State, i: nat)
    requires i < 16
  {
    var p := s.table[i];
    && (p.state == Running <==> i == s.current)
    && (p.request >= -1)
    && (p.state == Blocked ==> WaitFine(s.table, p))
    && (p.state != Blocked ==> p.wait == NoWait)
    && (p.state == Unused || p.state == Zombie ==> p.request == 0)
    && ((p.state == Ready || p.state == Running) && p.request != 0 ==>
       FirstChild(s.table, p.pid, p.request, true, 1) < 16)
  }

  /** Numbers of live processes are distinct, and fresh ones are larger than all of them until
      the counter has run out. */
  ghost predicate PidsFine(s: State) {
    && s.table[0].state != Unused && s.table[0].pid == 0 && s.table[0].parent == 0
    && (forall i, j :: 0 <= i < j < 16 && s.table[i].state != Unused && s.table[j].state != Unused ==>
       s.table[i].pid != s.table[j].pid)
    && (forall i :: 0 <= i < 16 ==> s.table[i].pid <= PID_MAXIMUM)
    && s.nextPid <= PID_MAXIMUM
    && (s.nextPid != 0 ==> forall i :: 0 <= i < 16 && s.table[i].state != Unused ==> s.table[i].pid < s.nextPid)
  }

  ghost predicate Valid(s: State) {
    && s.current < 16 && PidsFine(s) && 1 <= Me(s).slice <= 5
    && forall i {:trigger SlotFine(s, i)} :: 0 <= i < 16 ==> SlotFine(s, i)
  }

  // ---------- scanning ----------

  lemma {:induction false} SameChildren(t: Table, u: Table, parent: nat, request: int, zombieOnly: bool, from: nat)
    requires from <= 16
    requires forall i :: from <= i < 16 ==>
        Matches(t[i], parent, request, zombieOnly) == Matches(u[i], parent, request, zombieOnly)
    ensures FirstChild(t, parent, request, zombieOnly, from) == FirstChild(u, parent, request, zombieOnly, from)
    decreases 16 - from
  {
    if from < 16 { SameChildren(t, u, parent, request, zombieOnly, from + 1); }
  }

  /** The fields that waiting parents look at. */
  ghost predicate Alike(p: Process, q: Process) {
    p.pid == q.pid && p.parent == q.parent && (p.state == Unused <==> q.state == Unused)
      && (p.state == Zombie <==> q.state == Zombie)
  }

  ghost predicate AllAlike(t: Table, u: Table) { forall i :: 0 <= i < 16 ==> Alike(t[i], u[i]) }

  lemma AlikeChildren(t: Table, u: Table, parent: nat, request: int, zombieOnly: bool)
    requires AllAlike(t, u)
    ensures FirstChild(t, parent, request, zombieOnly, 1) == FirstChild(u, parent, request, zombieOnly, 1)
  {
    SameChildren(t, u, parent, request, zombieOnly, 1);
  }

  /** Slots that did not change stay in order if the others changed only in ways that waiting
      parents do not look at. */
  lemma KeepSlot(s: State, s': State, i: nat)
    requires i < 16 && SlotFine(s, i) && AllAlike(s.table, s'.table) && s'.table[i] == s.table[i]
    requires i == s.current <==> i == s'.current
    ensures SlotFine(s', i)
  {
    var p := s.table[i];
    AlikeChildren(s.table, s'.table, p.pid, p.request, true);
    AlikeChildren(s.table, s'.table, p.pid, p.request, false);
  }

  /** A ready process may be given the processor, and the running one may become ready. */
  lemma KeepRequest(s: State, s': State, i: nat)
    requires i < 16 && SlotFine(s, i) && AllAlike(s.table, s'.table)
    requires (s.table[i].state == Ready || s.table[i].state == Running)
    requires (s'.table[i].state == Ready || s'.table[i].state == Running)
    requires s'.table[i].request == s.table[i].request && s'.table[i].wait == NoWait
    requires s'.table[i].state == Running <==> i == s'.current
    ensures SlotFine(s', i)
  {
    AlikeChildren(s.table, s'.table, s.table[i].pid, s.table[i].request, true);
  }

  lemma AlikePids(s: State, s': State)
    requires PidsFine(s) && AllAlike(s.table, s'.table) && s'.nextPid == s.nextPid
    ensures PidsFine(s')
  {
  }

  // ---------- yield and tick ----------

  /** The running process becomes ready and another ready one runs. */
  lemma Preempt(s: State, n: nat)
    requires Valid(s) && n < 16 && n != s.current && s.table[n].state == Ready
    ensures Valid(SwitchTo(s.(table := s.table[s.current := Me(s).(state := Ready)]), n))
  {
    hide PidsFine, WaitFine, FirstChild;
    var s' := SwitchTo(s.(table := s.table[s.current := Me(s).(state := Ready)]), n);
    assert SlotFine(s, s.current) && SlotFine(s, n);
    assert AllAlike(s.table, s'.table);
    AlikePids(s, s');
    forall i | 0 <= i < 16 ensures SlotFine(s', i) {
      assert SlotFine(s, i);
      if i == n || i == s.current { KeepRequest(s, s', i); } else { KeepSlot(s, s', i); }
    }
  }

  lemma YieldKeeps(s: State)
    requires Valid(s)
    ensures Valid(Yield(s))
  {
    var n := NextReady(s.table[s.current := Me(s).(state := Ready)], s.current, 1);
    if n < 16 && n != s.current { Preempt(s, n); }
  }

  lemma WakeSleepers(s: State, now: nat, clock: nat)
    requires Valid(s)
    ensures Valid(s.(table := TickAll(s.table, now), clock := clock))
  {
    hide PidsFine, FirstChild, Due;
    var s' := s.(table := TickAll(s.table, now), clock := clock);
    assert AllAlike(s.table, s'.table);
    AlikePids(s, s');
    assert SlotFine(s, s.current);
    forall i | 0 <= i < 16 ensures SlotFine(s', i) {
      assert SlotFine(s, i);
      if s'.table[i] == s.table[i] { KeepSlot(s, s', i); }
    }
  }

  lemma SliceKeeps(s: State, slice: nat)
    requires Valid(s) && 1 <= slice <= 5
    ensures Valid(s.(table := s.table[s.current := Me(s).(slice := slice)]))
  {
    hide PidsFine, FirstChild, WaitFine;
    var s' := s.(table := s.table[s.current := Me(s).(slice := slice)]);
    assert AllAlike(s.table, s'.table);
    AlikePids(s, s');
    forall i | 0 <= i < 16 ensures SlotFine(s', i) {
      assert SlotFine(s, i);
      if i == s.current { KeepRequest(s, s', i); } else { KeepSlot(s, s', i); }
    }
  }

  lemma TickKeeps(s: State)
    requires Valid(s)
    ensures Valid(Tick(s))
  {
    hide PidsFine, FirstChild, WaitFine, Valid, Due;
    var s1 := s.(clock := s.clock + 1, table := TickAll(s.table, (s.clock + 1) % 0x1_0000_0000));
    WakeSleepers(s, (s.clock + 1) % 0x1_0000_0000, s.clock + 1);
    ValidFacts(s1);
    if Me(s1).slice > 1 {
      SliceKeeps(s1, Me(s1).slice - 1);
    } else {
      SliceKeeps(s1, 5);
      var n := NextReady(s1.table[s.current := Me(s1).(state := Ready)], s.current, 1);
      if n < 16 && n != s.current { Preempt(s1, n); }
    }
  }

  lemma ValidFacts(s: State)
    requires Valid(s)
    ensures s.current < 16 && Me(s).state == Running && Me(s).wait == NoWait && 1 <= Me(s).slice <= 5
  {
    assert SlotFine(s, s.current);
  }

  // ---------- blocking ----------

  /** The running process blocks, for a reason that is in order, and another one runs. */
  lemma BlockKeeps(s: State, p: Process, n: nat)
    requires Valid(s) && n < 16 && n != s.current && s.table[n].state == Ready
    requires Alike(Me(s), p) && p.state == Blocked && p.request >= -1 && WaitFine(s.table, p)
    ensures Valid(SwitchTo(s.(table := s.table[s.current := p]), n))
  {
    hide PidsFine, FirstChild;
    var s' := SwitchTo(s.(table := s.table[s.current := p]), n);
    assert SlotFine(s, s.current) && SlotFine(s, n);
    assert AllAlike(s.table, s'.table);
    AlikePids(s, s');
    forall i | 0 <= i < 16 ensures SlotFine(s', i) {
      assert SlotFine(s, i);
      if i == n {
        KeepRequest(s, s', i);
      } else if i == s.current {
        AlikeChildren(s.table, s'.table, p.pid, p.request, true);
        AlikeChildren(s.table, s'.table, p.pid, p.request, false);
      } else {
        KeepSlot(s, s', i);
      }
    }
  }

  lemma SleepKeeps(s: State, ticks: nat)
    requires Valid(s) && Me(s).request == 0
    ensures Valid(Sleep(s, ticks))
  {
    hide PidsFine, FirstChild, Valid;
    ValidFacts(s);
    var n := NextReady(s.table, s.current, 1);
    if ticks == 0 {
      YieldKeeps(s);
    } else if ticks <= 0x7FFF_FFFF && n < 16 {
      BlockKeeps(s, Me(s).(state := Blocked, wait := NoWait, wake := (s.clock + ticks) % 0x1_0000_0000), n);
    }
  }

  // ---------- exit ----------

  function Exited(s: State, code: int): (t: Table)
    requires s.current < 16
  {
    Wake(s.table[s.current := Me(s).(exit := code, state := Zombie)], s.current)
  }

  /** A process that waits for `request` among the children of `q` is not concerned by the exit of
      a process that is no such child. */
  lemma ExitOfOther(s: State, code: int, q: nat, request: int, zombieOnly: bool)
    requires Valid(s) && (Me(s).parent != q || (request != -1 && Me(s).pid != request))
    ensures FirstChild(Exited(s, code), q, request, zombieOnly, 1) == FirstChild(s.table, q, request, zombieOnly, 1)
  {
    hide PidsFine, WaitFine, FirstChild;
    SameChildren(s.table, Exited(s, code), q, request, zombieOnly, 1);
  }

  /** Children that have exited stay so. */
  lemma ExitKeepsZombies(s: State, code: int, q: nat, request: int)
    requires Valid(s)
    requires FirstChild(s.table, q, request, true, 1) < 16
        || (Me(s).parent == q && (request == -1 || Me(s).pid == request) && s.current > 0)
    ensures FirstChild(Exited(s, code), q, request, true, 1) < 16
  {
    hide PidsFine, WaitFine;
    var t := Exited(s, code);
    assert SlotFine(s, s.current);
    var c := if FirstChild(s.table, q, request, true, 1) < 16 then FirstChild(s.table, q, request, true, 1)
             else s.current;
    assert Matches(t[c], q, request, true);
  }

  /** The table after an exit is in order, except that nobody runs. */
  lemma ExitSlot(s: State, code: int, i: nat)
    requires Valid(s) && Me(s).request == 0 && i < 16
    ensures Exited(s, code)[i].state != Running
    ensures SlotFine(State(Exited(s, code), 16, s.nextPid, s.clock), i)
  {
    hide PidsFine, FirstChild;
    var t := Exited(s, code);
    var p, me := s.table[i], Me(s);
    assert SlotFine(s, i) && SlotFine(s, s.current);
    if i != s.current && p.request != 0 {
      if p.state == Blocked {
        var c := FirstChild(s.table, p.pid, p.request, false, 1);
        if WokenBy(p, s.current, me.parent) {
          WokenIsChild(s, i);
          ExitKeepsZombies(s, code, p.pid, p.request);
        } else {
          NotWoken(s, i);
          ExitOfOther(s, code, p.pid, p.request, true);
          ExitOfOther(s, code, p.pid, p.request, false);
        }
      } else {
        ExitKeepsZombies(s, code, p.pid, p.request);
      }
    }
  }

  lemma WokenIsChild(s: State, i: nat)
    requires Valid(s) && i < 16 && s.table[i].state == Blocked && WokenBy(s.table[i], s.current, Me(s).parent)
    ensures var p := s.table[i]; p.request != 0 && Me(s).parent == p.pid && (p.request == -1 || Me(s).pid == p.request)
    ensures s.current > 0
  {
    assert SlotFine(s, i) && SlotFine(s, s.current);
  }

  lemma NotWoken(s: State, i: nat)
    requires Valid(s) && i < 16 && s.table[i].state == Blocked && s.table[i].request != 0
    requires !WokenBy(s.table[i], s.current, Me(s).parent)
    ensures Me(s).parent != s.table[i].pid || (s.table[i].request != -1 && Me(s).pid != s.table[i].request)
  {
    assert SlotFine(s, i) && SlotFine(s, s.current);
  }

  lemma ExitPids(s: State, code: int)
    requires Valid(s)
    ensures PidsFine(s.(table := Exited(s, code)))
  {
    hide WaitFine, FirstChild;
    assert SlotFine(s, s.current);
    var t := Exited(s, code);
    assert forall i :: 0 <= i < 16 ==> t[i].pid == s.table[i].pid && t[i].parent == s.table[i].parent
                                       && (t[i].state == Unused <==> s.table[i].state == Unused);
  }

  /** Giving the processor to a ready process when nobody runs. */
  lemma StartKeeps(t: Table, nextPid: nat, clock: nat, n: nat)
    requires PidsFine(State(t, 16, nextPid, clock)) && n < 16 && t[n].state == Ready
    requires forall i {:trigger SlotFine(State(t, 16, nextPid, clock), i)} :: 0 <= i < 16 ==>
        SlotFine(State(t, 16, nextPid, clock), i)
    ensures Valid(SwitchTo(State(t, 16, nextPid, clock), n))
  {
    hide PidsFine, WaitFine, FirstChild;
    var s := State(t, 16, nextPid, clock);
    var s' := SwitchTo(s, n);
    assert SlotFine(s, n);
    assert AllAlike(s.table, s'.table);
    AlikePids(s, s');
    forall i | 0 <= i < 16 ensures SlotFine(s', i) {
      assert SlotFine(s, i);
      if i == n { KeepRequest(s, s', i); } else { KeepSlot(s, s', i); }
    }
  }

  /** Exit needs somebody to run next; otherwise the kernel panics. */
  ghost predicate CanExit(s: State, code: int)
    requires s.current < 16
  {
    NextReady(Exited(s, code), s.current, 1) < 16
  }

  lemma ExitKeeps(s: State, code: int)
    requires Valid(s) && Me(s).request == 0 && CanExit(s, code)
    ensures Valid(Exit(s, code))
  {
    hide PidsFine, WaitFine, FirstChild, Wake, SlotFine;
    var t := Exited(s, code);
    ExitPids(s, code);
    PidsOnly(s.(table := t), State(t, 16, s.nextPid, s.clock));
    forall i | 0 <= i < 16 ensures SlotFine(State(t, 16, s.nextPid, s.clock), i) { ExitSlot(s, code, i); }
    StartKeeps(t, s.nextPid, s.clock, NextReady(t, s.current, 1));
  }

  lemma PidsOnly(s: State, s': State)
    requires PidsFine(s) && s'.table == s.table && s'.nextPid == s.nextPid
    ensures PidsFine(s')
  {
  }

  // ---------- waitpid ----------

  /** Reaping a child of the running process concerns nobody else. */
  lemma ReapOther(s: State, z: nat, i: nat, zombieOnly: bool)
    requires Valid(s) && z < 16 && s.table[z].parent == Me(s).pid
    requires i < 16 && i != s.current && s.table[i].state != Unused
    ensures FirstChild(s.table[z := CLEARED], s.table[i].pid, s.table[i].request, zombieOnly, 1)
         == FirstChild(s.table, s.table[i].pid, s.table[i].request, zombieOnly, 1)
  {
    hide WaitFine, FirstChild;
    assert SlotFine(s, s.current);
    SameChildren(s.table, s.table[z := CLEARED], s.table[i].pid, s.table[i].request, zombieOnly, 1);
  }

  lemma DoneKeeps(s: State)
    requires Valid(s)
    ensures Valid(s.(table := s.table[s.current := Me(s).(request := 0)]))
  {
    hide PidsFine, WaitFine, FirstChild;
    var s' := s.(table := s.table[s.current := Me(s).(request := 0)]);
    assert SlotFine(s, s.current);
    assert AllAlike(s.table, s'.table);
    AlikePids(s, s');
    forall i | 0 <= i < 16 ensures SlotFine(s', i) {
      assert SlotFine(s, i);
      if i != s.current { KeepSlot(s, s', i); }
    }
  }

  lemma ReapKeeps(s: State, z: nat)
    requires Valid(s) && Me(s).request == 0 && 0 < z < 16 && s.table[z].state == Zombie
    requires s.table[z].parent == Me(s).pid
    ensures Valid(s.(table := s.table[z := CLEARED]))
  {
    hide WaitFine, FirstChild;
    var s' := s.(table := s.table[z := CLEARED]);
    assert SlotFine(s, s.current) && SlotFine(s, z);
    forall i | 0 <= i < 16 ensures SlotFine(s', i) {
      assert SlotFine(s, i);
      if i != z { ReapSlot(s, z, i); }
    }
  }

  lemma ReapSlot(s: State, z: nat, i: nat)
    requires Valid(s) && Me(s).request == 0 && 0 < z < 16 && s.table[z].state == Zombie
    requires s.table[z].parent == Me(s).pid
    requires i < 16 && i != z
    ensures SlotFine(s.(table := s.table[z := CLEARED]), i)
  {
    hide PidsFine, FirstChild;
    assert SlotFine(s, i) && SlotFine(s, s.current);
    if i != s.current && s.table[i].state != Unused {
      ReapOther(s, z, i, true);
      ReapOther(s, z, i, false);
    }
  }

  lemma WaitKeeps(s: State, request: int)
    requires Valid(s) && (Me(s).request == 0 || Me(s).request == request) && (request == -1 || request > 0)
    ensures Valid(WaitRound(s, request).0)
  {
    hide PidsFine, Valid, FirstChild, NextReady;
    ValidFacts(s);
    var z, c := FirstChild(s.table, Me(s).pid, request, true, 1), FirstChild(s.table, Me(s).pid, request, false, 1);
    var done := s.(table := s.table[s.current := Me(s).(request := 0)]);
    DoneKeeps(s);
    if z < 16 {
      ReapKeeps(done, z);
    } else if c < 16 {
      var p := AsWaiter(Me(s), request, c);
      var n := NextReady(s.table[s.current := p], s.current, 1);
      if n < 16 { BlockKeeps(s, p, n); }
    }
  }

  // ---------- new processes ----------

  lemma BornSlot(s: State, slot: nat, pid: nat, i: nat)
    requires Valid(s) && Me(s).request == 0 && 0 < slot < 16 && s.table[slot].state == Unused && i < 16
    ensures SlotFine(Born(s, slot, pid), i)
  {
    hide FirstChild, PidsFine;
    assert SlotFine(s, i) && SlotFine(s, s.current) && SlotFine(s, slot);
    if i != slot && i != s.current && s.table[i].request != 0 {
      var t := Born(s, slot, pid).table;
      DistinctFromMe(s, i);
      SameChildren(s.table, t, s.table[i].pid, s.table[i].request, true, 1);
      SameChildren(s.table, t, s.table[i].pid, s.table[i].request, false, 1);
    }
  }

  lemma DistinctFromMe(s: State, i: nat)
    requires Valid(s) && i < 16 && i != s.current && s.table[i].request != 0
    ensures s.table[i].pid != Me(s).pid
  {
    assert SlotFine(s, i) && SlotFine(s, s.current);
  }

  ghost predicate Fresh(s: State, pid: nat) {
    0 < pid <= PID_MAXIMUM && !InUse(s.table, pid) && (s.nextPid != 0 ==> pid == s.nextPid)
  }

  lemma BornKeeps(s: State, slot: nat, pid: nat)
    requires Valid(s) && Me(s).request == 0 && 0 < slot < 16 && s.table[slot].state == Unused && Fresh(s, pid)
    ensures Valid(Born(s, slot, pid))
  {
    hide FirstChild, SlotFine, WaitFine;
    assert slot != s.current by { ValidFacts(s); }
    forall i | 0 <= i < 16 ensures SlotFine(Born(s, slot, pid), i) { BornSlot(s, slot, pid, i); }
  }
}
