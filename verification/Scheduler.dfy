/** The scheduler over its process table, as the kernel runs it. */
module Scheduler {
  import opened Errno
  import opened Processes
  import opened Scheduling
  import opened SchedulerRuns

  class ProcessTable {
    const table: array<Process>
    var current: nat
    var nextPid: nat
    var ticks: nat
    ghost var clock: nat

    ghost predicate Shaped()
      reads this, table
    {
      table.Length == 16 && current < 16 && ticks == clock % 0x1_0000_0000
    }

    ghost function View(): (s: State)
      requires table.Length == 16
      reads this, table
    {
      State(table[..], current, nextPid, clock)
    }

    constructor ()
      ensures Shaped() && Booted(View()) && Scheduling.Valid(View()) && fresh(table)
    {
      table := new Process[16](_ => CLEARED);
      current, nextPid, ticks, clock := 0, 1, 0, 0;
      new;
      table[0] := Process(0, Running, 0, 0, 0, 5, NoWait, 0);
      BootValid(View());
    }

    // ---------- scanning ----------

    method FindUnusedProcess() returns (slot: nat)
      requires Shaped()
      ensures slot == FirstUnused(View().table, 1)
    {
      slot := 1;
      while slot < 16 && table[slot].state != Unused
        invariant 1 <= slot <= 16 && FirstUnused(View().table, 1) == FirstUnused(View().table, slot)
      {
        slot := slot + 1;
      }
    }

    method PidInUse(pid: nat) returns (used: bool)
      requires Shaped()
      ensures used == InUse(View().table, pid)
    {
      for index := 0 to 16
        invariant forall i :: 0 <= i < index ==> table[i].state == Unused || table[i].pid != pid
      {
        if table[index].state != Unused && table[index].pid == pid {
          assert View().table[index].pid == pid;
          return true;
        }
      }
      return false;
    }

    /** Always finds a number that no live process has. */
    method AllocatePid() returns (ok: bool, pid: nat)
      requires Shaped() && PidsFine(View())
      modifies `nextPid
      ensures ok && pid == NewPid(old(View())) && Fresh(old(View()), pid)
      ensures nextPid == if old(nextPid) == 0 || old(nextPid) == PID_MAXIMUM then 0 else old(nextPid) + 1
    {
      hide FirstUnused, InUse, LowestFree, PidsFine;
      NewPidFresh(View());
      SomePidFree(View());
      if nextPid != 0 {
        pid := nextPid;
        nextPid := if nextPid == PID_MAXIMUM then 0 else nextPid + 1;
        return true, pid;
      }
      for candidate := 1 to PID_MAXIMUM + 1
        invariant nextPid == 0 && LowestFree(View().table, 1) >= candidate
      {
        var used := PidInUse(candidate);
        if !used {
          return true, candidate;
        }
      }
      assert false;
    }

    method FindNextReady(after: nat) returns (n: nat)
      requires Shaped() && after < 16
      ensures n == NextReady(View().table, after, 1)
    {
      var offset := 1;
      while offset <= 16
        invariant 1 <= offset <= 17 && NextReady(View().table, after, 1) == NextReady(View().table, after, offset)
      {
        var index := Wrap(after + offset);
        if table[index].state == Ready {
          return index;
        }
        offset := offset + 1;
      }
      return 16;
    }

    lemma ValidPids(s: State)
      requires Scheduling.Valid(s)
      ensures PidsFine(s) && Fresh(s, NewPid(s)) && NewPid(s) <= PID_MAXIMUM
    {
      NewPidFresh(s);
    }

    method FindChild(parent: nat, request: int, zombieOnly: bool) returns (c: nat)
      requires Shaped()
      ensures c == FirstChild(View().table, parent, request, zombieOnly, 1)
    {
      c := 1;
      while c < 16
        invariant 1 <= c <= 16
        invariant FirstChild(View().table, parent, request, zombieOnly, 1) ==
            FirstChild(View().table, parent, request, zombieOnly, c)
      {
        if Matches(table[c], parent, request, zombieOnly) {
          return;
        }
        c := c + 1;
      }
    }

    // ---------- steps ----------

    method SwitchTo(next: nat)
      requires Shaped() && next < 16
      modifies `current, table
      ensures Shaped() && View() == Processes.SwitchTo(old(View()), next)
    {
      current := next;
      table[next] := table[next].(state := Running, slice := 5);
    }

    method WakeWaitingParent(child: nat)
      requires Shaped() && child < 16
      modifies table
      ensures Shaped() && View() == old(View()).(table := Wake(old(View().table), child))
    {
      var parentPid := table[child].parent;
      for index := 0 to 16
        invariant forall i :: 0 <= i < 16 ==>
            table[i] == if i < index then WakeOne(old(table[i]), child, parentPid) else old(table[i])
      {
        if WokenBy(table[index], child, parentPid) {
          table[index] := table[index].(state := Ready, wait := NoWait);
        }
      }
      assert View().table == Wake(old(View().table), child);
    }

    method ExitCurrent(code: int) returns (panicked: bool)
      requires Shaped() && Scheduling.Valid(View()) && table[current].request == 0
      modifies `current, table
      ensures Shaped() && View() == Exit(old(View()), code) && (panicked <==> !CanExit(old(View()), code))
      ensures !panicked ==> Scheduling.Valid(View())
    {
      hide NextReady, Wake, SlotFine, PidsFine;
      ghost var s := View();
      table[current] := table[current].(exit := code, state := Zombie);
      assert View().table == old(View().table)[current := Me(old(View())).(exit := code, state := Zombie)];
      WakeWaitingParent(current);
      var next := FindNextReady(current);
      if next == 16 {
        return true;
      }
      SwitchTo(next);
      ExitKeeps(s, code);
      return false;
    }

    method YieldCurrent()
      requires Shaped() && Scheduling.Valid(View())
      modifies `current, table
      ensures Shaped() && View() == Yield(old(View())) && Scheduling.Valid(View())
    {
      hide NextReady, SlotFine, PidsFine;
      ghost var s := View();
      YieldKeeps(s);
      ValidFacts(s);
      var me := table[current];
      table[current] := me.(state := Ready);
      assert View().table == s.table[s.current := Me(s).(state := Ready)];
      var next := FindNextReady(current);
      if next == 16 || next == current {
        table[current] := me.(state := Running);
        assert View().table == s.table;
        return;
      }
      SwitchTo(next);
    }

    method SleepCurrent(count: nat) returns (ok: bool)
      requires Shaped() && Scheduling.Valid(View()) && table[current].request == 0
      modifies `current, table
      ensures Shaped() && View() == Sleep(old(View()), count) && Scheduling.Valid(View())
      ensures ok <==> count == 0 || (count <= 0x7FFF_FFFF && NextReady(old(View().table), old(current), 1) < 16)
    {
      hide NextReady, SlotFine, PidsFine, Yield;
      ghost var s := View();
      SleepKeeps(s, count);
      if count == 0 {
        YieldCurrent();
        return true;
      }
      if count > 0x7FFF_FFFF {
        return false;
      }
      var next := FindNextReady(current);
      if next == 16 {
        return false;
      }
      SleepTime(clock, count);
      table[current] := table[current].(wake := (ticks + count) % 0x1_0000_0000, wait := NoWait, state := Blocked);
      assert View().table ==
          s.table[s.current := Me(s).(state := Blocked, wait := NoWait, wake := (s.clock + count) % 0x1_0000_0000)];
      SwitchTo(next);
      return true;
    }

    lemma SleepTime(clock: nat, count: nat)
      ensures (clock % 0x1_0000_0000 + count) % 0x1_0000_0000 == (clock + count) % 0x1_0000_0000
    {
      ModAdd(clock, count);
    }

    /** One round of the waitpid loop: returns, or blocks the caller and gives the processor away. */
    method WaitOnce(request: int) returns (blocked: bool, result: int, code: int)
      requires Shaped() && Scheduling.Valid(View()) && (request == -1 || request > 0)
      requires table[current].request == 0 || table[current].request == request
      modifies `current, table
      ensures Shaped() && Scheduling.Valid(View())
      ensures var r := WaitRound(old(View()), request);
              View() == r.0 && (blocked <==> r.1 == 0) && (!blocked ==> result == r.1 && code == r.2)
    {
      hide NextReady, SlotFine, FirstChild;
      ghost var s := View();
      WaitKeeps(s, request);
      ChildPid(s, request);
      ValidFacts(s);
      var parent := current;
      var child := FindChild(table[parent].pid, request, true);
      if child < 16 {
        result, code := table[child].pid, table[child].exit;
        table[parent] := table[parent].(request := 0);
        table[child] := CLEARED;
        assert View().table == s.table[parent := Me(s).(request := 0)][child := CLEARED];
        return false, result, code;
      }
      child := FindChild(table[parent].pid, request, false);
      if child == 16 {
        table[parent] := table[parent].(request := 0);
        assert View().table == s.table[parent := Me(s).(request := 0)];
        return false, ECHILD, 0;
      }
      table[parent] := AsWaiter(table[parent], request, child);
      assert View().table == s.table[parent := AsWaiter(Me(s), request, child)];
      var next := FindNextReady(parent);
      if next == 16 {
        table[parent] := table[parent].(state := Running, request := 0, wait := NoWait);
        assert View().table == s.table[parent := Me(s).(request := 0)];
        return false, ECHILD, 0;
      }
      SwitchTo(next);
      return true, 0, 0;
    }

    lemma ChildPid(s: State, request: int)
      requires Scheduling.Valid(s)
      ensures var z := FirstChild(s.table, Me(s).pid, request, true, 1); z < 16 ==> z != s.current && s.table[z].pid > 0
    {
      assert SlotFine(s, s.current);
    }

    /** A call of waitpid, up to its return or to the point where the caller is blocked. */
    method WaitPidCurrent(request: int) returns (blocked: bool, result: int, code: int)
      requires Shaped() && Scheduling.Valid(View()) && table[current].request == 0
      modifies `current, table
      ensures Shaped() && Scheduling.Valid(View())
      ensures var r := WaitPid(old(View()), request);
              View() == r.0 && (blocked <==> r.1 == 0) && (!blocked ==> result == r.1 && code == r.2)
    {
      hide WaitRound, Scheduling.Valid;
      if request == 0 || request < -1 {
        return false, EINVAL, 0;
      }
      blocked, result, code := WaitOnce(request);
    }

    /** The rest of a waitpid call that was blocked: it never blocks again. */
    method ResumeCurrent() returns (result: int, code: int)
      requires Shaped() && Scheduling.Valid(View()) && table[current].request != 0
      modifies `current, table
      ensures Shaped() && Scheduling.Valid(View()) && View() == WaitRound(old(View()), old(table[current].request)).0
      ensures exists c :: && 0 < c < 16
                          && Matches(old(table[c]), old(table[current].pid), old(table[current].request), true)
                          && result == old(table[c].pid) && code == old(table[c].exit)
    {
      hide WaitRound, Scheduling.Valid, PidsFine, SlotFine;
      ghost var s := View();
      ResumeReturns(s);
      RequestInRange(s);
      ResumePid(s);
      var blocked;
      blocked, result, code := WaitOnce(table[current].request);
    }

    lemma ResumePid(s: State)
      requires Scheduling.Valid(s) && Me(s).request != 0
      ensures WaitRound(s, Me(s).request).1 != 0
    {
      ChildPid(s, Me(s).request);
      assert SlotFine(s, s.current);
    }

    method WakeAllSleepers()
      requires Shaped()
      modifies table
      ensures Shaped() && View() == old(View()).(table := TickAll(old(View().table), ticks))
    {
      for index := 1 to 16
        invariant forall i :: 0 <= i < 16 ==>
            table[i] == if i < index then TickOne(old(table[i]), i, ticks) else old(table[i])
      {
        var p := table[index];
        if p.state == Blocked && p.wait == NoWait && Due(ticks, p.wake) {
          table[index] := p.(wake := 0, state := Ready);
        }
      }
      assert View().table == TickAll(old(View().table), ticks);
    }

    /** A timer interrupt: the counter advances and may wrap around, then the scheduler runs. */
    method OnTick()
      requires Shaped() && Scheduling.Valid(View())
      modifies `current, `ticks, `clock, table
      ensures Shaped() && View() == Tick(old(View())) && Scheduling.Valid(View())
    {
      hide NextReady, SlotFine, PidsFine, Due;
      ghost var s := View();
      TickKeeps(s);
      CounterStep(clock);
      ticks, clock := (ticks + 1) % 0x1_0000_0000, clock + 1;
      WakeAllSleepers();
      ghost var s1 := View();
      var me := table[current];
      if me.state != Running {
        return;
      }
      if me.slice > 1 {
        table[current] := me.(slice := me.slice - 1);
        assert View().table == s1.table[s.current := Me(s1).(slice := Me(s1).slice - 1)];
        return;
      }
      table[current] := me.(state := Ready);
      assert View().table == s1.table[s.current := Me(s1).(state := Ready)];
      var next := FindNextReady(current);
      if next == 16 || next == current {
        table[current] := me.(state := Running, slice := 5);
        assert View().table == s1.table[s.current := Me(s1).(slice := 5)];
        return;
      }
      SwitchTo(next);
    }

    lemma CounterStep(clock: nat)
      ensures (clock % 0x1_0000_0000 + 1) % 0x1_0000_0000 == (clock + 1) % 0x1_0000_0000
    {
      ModAdd(clock, 1);
    }

    /** Creates a process; `resources` says whether its memory could be allocated. */
    method CreateProcess(resources: bool) returns (ok: bool, pid: nat)
      requires Shaped() && Scheduling.Valid(View()) && table[current].request == 0
      modifies `nextPid, table
      ensures Shaped() && View() == Spawn(old(View()), resources) && Scheduling.Valid(View())
      ensures ok <==> resources && exists i :: 1 <= i < 16 && old(table[i].state) == Unused
      ensures ok ==> Fresh(old(View()), pid)
    {
      hide PidsFine, Scheduling.Valid, Fresh, LowestFree, InUse, FirstUnused;
      ghost var s := View();
      ValidPids(s);
      NextKeeps(s, DoSpawn(resources));
      var slot := FindUnusedProcess();
      assert slot < 16 ==> s.table[slot].state == Unused;
      assert forall i :: 0 <= i < 16 ==> old(table[i]) == s.table[i];
      if slot == 16 || !resources {
        return false, 0;
      }
      ok, pid := AllocatePid();
      table[slot] := Process(pid, Ready, 0, table[current].pid, 0, 5, NoWait, 0);
      assert View().table == Born(s, slot, pid).table;
    }
  }
}
