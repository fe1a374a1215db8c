/** What each scheduler step does, told on the slots of the table alone. */
module SchedulerSteps {
  import opened Errno
  import opened Processes
  import opened Scheduling
  import opened SchedulerRuns

  // ---------- who is next ----------

  ghost predicate ReadyAt(t: Table, start: nat, j: nat) { t[(start + j) % 16].state == Ready }

  /** Slot `n` is ready, and the first such slot when counting on from `start`, around the table. */
  ghost predicate FirstAfter(t: Table, start: nat, n: nat) {
    n < 16 && exists k :: 1 <= k <= 16 && n == (start + k) % 16 && FirstAt(t, start, k)
  }

  ghost predicate FirstAt(t: Table, start: nat, k: nat) {
    ReadyAt(t, start, k) && forall j :: 1 <= j < k ==> !ReadyAt(t, start, j)
  }

  ghost predicate NobodyReady(t: Table) { forall i :: 0 <= i < 16 ==> t[i].state != Ready }

  lemma {:induction false} NextReadyFrom(t: Table, start: nat, offset: nat)
    requires start < 16 && 1 <= offset <= 17 && forall j :: 1 <= j < offset ==> !ReadyAt(t, start, j)
    ensures var n := NextReady(t, start, offset);
            if n < 16 then FirstAfter(t, start, n) else forall j :: 1 <= j <= 16 ==> !ReadyAt(t, start, j)
    decreases 17 - offset
  {
    if offset <= 16 {
      if ReadyAt(t, start, offset) {
        assert FirstAt(t, start, offset);
      } else {
        NextReadyFrom(t, start, offset + 1);
      }
    }
  }

  /** The scan finds the next ready process in cyclic order, the starting one last. */
  lemma NextReadyMeans(t: Table, start: nat)
    requires start < 16
    ensures var n := NextReady(t, start, 1); if NobodyReady(t) then n == 16 else n < 16 && FirstAfter(t, start, n)
  {
    hide NextReady;
    NextReadyFrom(t, start, 1);
    if NextReady(t, start, 1) == 16 {
      forall i | 0 <= i < 16 ensures t[i].state != Ready {
        var j := if i > start then i - start else i + 16 - start;
        assert !ReadyAt(t, start, j);
      }
    } else {
      FirstIsReady(t, start, NextReady(t, start, 1));
    }
  }

  lemma FirstIsReady(t: Table, start: nat, n: nat)
    requires FirstAfter(t, start, n)
    ensures t[n].state == Ready
  {
  }

  /** Only slots other than `start` matter if both tables agree on who of them is ready, and
      some slot other than `start` is. */
  lemma SameFirst(t: Table, u: Table, start: nat, n: nat)
    requires start < 16 && n != start && FirstAfter(t, start, n)
    requires forall i :: 0 <= i < 16 && i != start ==> (t[i].state == Ready <==> u[i].state == Ready)
    ensures FirstAfter(u, start, n)
  {
    var k :| 1 <= k <= 16 && n == (start + k) % 16 && FirstAt(t, start, k);
    forall j | 1 <= j <= k ensures ReadyAt(u, start, j) == ReadyAt(t, start, j) {
      assert (start + j) % 16 != start;
    }
    assert FirstAt(u, start, k);
  }

  lemma FirstUnique(t: Table, start: nat, m: nat, n: nat)
    requires FirstAfter(t, start, m) && FirstAfter(t, start, n)
    ensures m == n
  {
    hide ReadyAt;
    var j :| 1 <= j <= 16 && m == (start + j) % 16 && FirstAt(t, start, j);
    var k :| 1 <= k <= 16 && n == (start + k) % 16 && FirstAt(t, start, k);
    assert ReadyAt(t, start, j) && ReadyAt(t, start, k);
  }

  /** What the scan finds when slot `c` is left out, or comes last. */
  lemma OtherNext(t: Table, u: Table, c: nat)
    requires c < 16 && t[c].state != Ready && u == t[c := u[c]]
    ensures var n := NextReady(u, c, 1);
            if NobodyReady(t) then n == (if u[c].state == Ready then c else 16)
            else n < 16 && n != c && FirstAfter(t, c, n)
  {
    hide NextReady, FirstAfter;
    NextReadyMeans(t, c);
    NextReadyMeans(u, c);
    var n, m := NextReady(u, c, 1), NextReady(t, c, 1);
    if m < 16 {
      FirstIsReady(t, c, m);
      SameFirst(t, u, c, m);
      assert u[m].state == Ready;
      FirstUnique(u, c, m, n);
    } else if n < 16 {
      FirstIsReady(u, c, n);
    }
  }

  /** `s'` is `s` with the table `t` and slot `n` running with a slice of five ticks. */
  ghost predicate HandsOver(s: State, s': State, t: Table, n: nat) {
    n < 16 && s' == s.(table := t[n := t[n].(state := Running, slice := 5)], current := n)
  }

  // ---------- yield and sleep ----------

  /** With another process ready, yield makes the caller ready and runs the next one in cyclic
      order; otherwise it does nothing. */
  lemma YieldMeans(s: State)
    requires Valid(s)
    ensures if NobodyReady(s.table) then Yield(s) == s
            else exists n :: n != s.current && FirstAfter(s.table, s.current, n)
                   && HandsOver(s, Yield(s), s.table[s.current := Me(s).(state := Ready)], n)
  {
    hide NextReady, FirstAfter, PidsFine;
    assert SlotFine(s, s.current);
    var t := s.table[s.current := Me(s).(state := Ready)];
    OtherNext(s.table, t, s.current);
    if !NobodyReady(s.table) { assert HandsOver(s, Yield(s), t, NextReady(t, s.current, 1)); }
  }

  /** Sleeping for no tick is yielding; too long sleeps, and sleeps that would leave nobody to run,
      do nothing; otherwise the caller is blocked with its wake-up time and the next one runs. */
  lemma SleepMeans(s: State, ticks: nat)
    requires Valid(s)
    ensures if ticks == 0 then Sleep(s, ticks) == Yield(s)
            else if ticks >= 0x8000_0000 || NobodyReady(s.table) then Sleep(s, ticks) == s
            else exists n :: FirstAfter(s.table, s.current, n)
                   && HandsOver(s, Sleep(s, ticks),
                            s.table[s.current := Me(s).(state := Blocked, wait := NoWait,
                                                        wake := (s.clock + ticks) % 0x1_0000_0000)], n)
  {
    hide NextReady, FirstAfter, PidsFine;
    NextReadyMeans(s.table, s.current);
    var n := NextReady(s.table, s.current, 1);
    if 0 < ticks < 0x8000_0000 && n < 16 {
      assert HandsOver(s, Sleep(s, ticks), s.table[s.current := Me(s).(state := Blocked, wait := NoWait,
                                               wake := (s.clock + ticks) % 0x1_0000_0000)], n);
    }
  }

  // ---------- exit ----------

  /** The table after slot `c` has exited: it is a zombie with that code, and exactly the processes
      that are blocked in a waitpid call for it, or for any child, as its parent are ready. */
  ghost predicate AfterExit(t: Table, c: nat, code: int, u: Table) {
    && c < 16 && u[c] == t[c].(state := Zombie, exit := code)
    && forall i :: 0 <= i < 16 && i != c ==>
         u[i] == if t[i].state == Blocked && t[i].pid == t[c].parent && (t[i].wait == AnyChild || t[i].wait == Child(c))
                 then t[i].(state := Ready, wait := NoWait) else t[i]
  }

  /** And the next ready process runs; the step is not enabled if there is none. */
  lemma ExitMeans(s: State, code: int) returns (u: Table)
    requires Valid(s)
    ensures AfterExit(s.table, s.current, code, u)
    ensures CanExit(s, code) <==> !NobodyReady(u)
    ensures CanExit(s, code) ==> exists n :: FirstAfter(u, s.current, n) && HandsOver(s, Exit(s, code), u, n)
  {
    hide NextReady, FirstAfter, PidsFine;
    assert SlotFine(s, s.current);
    u := Wake(s.table[s.current := Me(s).(exit := code, state := Zombie)], s.current);
    NextReadyMeans(u, s.current);
    if CanExit(s, code) { assert HandsOver(s, Exit(s, code), u, NextReady(u, s.current, 1)); }
  }

  // ---------- waitpid ----------

  /** Slot `c` holds a child of the caller that `request` asks for. */
  ghost predicate AsksFor(s: State, request: int, c: nat)
    requires s.current < 16
  {
    && 1 <= c < 16 && s.table[c].state != Unused && s.table[c].parent == Me(s).pid
    && (request == -1 || s.table[c].pid == request)
  }

  ghost predicate HasExited(s: State, request: int, c: nat)
    requires s.current < 16
  {
    AsksFor(s, request, c) && s.table[c].state == Zombie
  }

  /** With exited children, waitpid returns the number and the exit code of the one in the lowest
      slot, and that slot, and nothing else, is cleared; then no slot holds that number any more. */
  lemma WaitReaps(s: State, request: int, c: nat)
    requires Valid(s) && Me(s).request == 0 && (request == -1 || request > 0)
    requires HasExited(s, request, c) && forall i :: 1 <= i < c ==> !HasExited(s, request, i)
    ensures var (s', pid, code) := WaitPid(s, request);
            && pid == s.table[c].pid && code == s.table[c].exit
            && s' == s.(table := s.table[c := Process(0, Unused, 0, 0, 0, 0, NoWait, 0)])
            && forall i :: 0 <= i < 16 && s'.table[i].state != Unused ==> s'.table[i].pid != pid
  {
    hide NextReady, FirstChild;
    assert SlotFine(s, s.current);
    var z := FirstChild(s.table, Me(s).pid, request, true, 1);
    assert z < 16 ==> HasExited(s, request, z);
    assert Matches(s.table[c], Me(s).pid, request, true);
    assert s.table[s.current := Me(s).(request := 0)] == s.table;
  }

  /** So does the rest of a call whose caller was blocked, and that ends the call. */
  lemma ResumeReaps(s: State, c: nat)
    requires Valid(s) && Me(s).request != 0
    requires HasExited(s, Me(s).request, c) && forall i :: 1 <= i < c ==> !HasExited(s, Me(s).request, i)
    ensures var (s', pid, code) := WaitRound(s, Me(s).request);
            && pid == s.table[c].pid && code == s.table[c].exit
            && s' == s.(table := s.table[s.current := Me(s).(request := 0)]
                                        [c := Process(0, Unused, 0, 0, 0, 0, NoWait, 0)])
  {
    hide NextReady, FirstChild;
    assert SlotFine(s, s.current);
    var z := FirstChild(s.table, Me(s).pid, Me(s).request, true, 1);
    assert z < 16 ==> HasExited(s, Me(s).request, z);
    assert Matches(s.table[c], Me(s).pid, Me(s).request, true);
  }

  /** Without children it fails and changes nothing, as it does for arguments out of range. */
  lemma WaitRefuses(s: State, request: int)
    requires Valid(s) && Me(s).request == 0
    ensures request == 0 || request < -1 ==> WaitPid(s, request) == (s, EINVAL, 0)
    ensures (request == -1 || request > 0) && (forall c :: 1 <= c < 16 ==> !AsksFor(s, request, c)) ==>
              WaitPid(s, request) == (s, ECHILD, 0)
  {
    hide NextReady, FirstChild;
    var z, c := FirstChild(s.table, Me(s).pid, request, true, 1), FirstChild(s.table, Me(s).pid, request, false, 1);
    assert z < 16 ==> AsksFor(s, request, z);
    assert c < 16 ==> AsksFor(s, request, c);
    assert s.table[s.current := Me(s).(request := 0)] == s.table;
  }

  /** With children of which none has exited, the caller is blocked until one does, for any of them
      or for that one, and the next ready process runs; it fails if there is none. */
  lemma WaitBlocks(s: State, request: int, c: nat)
    requires Valid(s) && Me(s).request == 0 && (request == -1 || request > 0)
    requires AsksFor(s, request, c) && forall i :: 1 <= i < 16 ==> !HasExited(s, request, i)
    requires forall i :: 1 <= i < c ==> !AsksFor(s, request, i)
    ensures if NobodyReady(s.table) then WaitPid(s, request) == (s, ECHILD, 0)
            else WaitPid(s, request).1 == 0 &&
                 exists n :: FirstAfter(s.table, s.current, n)
                   && HandsOver(s, WaitPid(s, request).0,
                            s.table[s.current := Me(s).(state := Blocked, request := request,
                                                        wait := if request == -1 then AnyChild else Child(c))], n)
  {
    hide NextReady, FirstChild, FirstAfter;
    assert SlotFine(s, s.current);
    LowestChild(s, request, c);
    var t := s.table[s.current := AsWaiter(Me(s), request, c)];
    OtherNext(s.table, t, s.current);
    assert s.table[s.current := Me(s).(request := 0)] == s.table;
    if !NobodyReady(s.table) { assert HandsOver(s, WaitPid(s, request).0, t, NextReady(t, s.current, 1)); }
  }

  lemma LowestChild(s: State, request: int, c: nat)
    requires s.current < 16 && AsksFor(s, request, c)
    requires forall i :: 1 <= i < 16 ==> !HasExited(s, request, i)
    requires forall i :: 1 <= i < c ==> !AsksFor(s, request, i)
    ensures FirstChild(s.table, Me(s).pid, request, true, 1) == 16
    ensures FirstChild(s.table, Me(s).pid, request, false, 1) == c
  {
    hide FirstChild;
    var z, f := FirstChild(s.table, Me(s).pid, request, true, 1), FirstChild(s.table, Me(s).pid, request, false, 1);
    assert z < 16 ==> HasExited(s, request, z);
    assert f < 16 ==> AsksFor(s, request, f);
    assert Matches(s.table[c], Me(s).pid, request, false);
  }

  // ---------- ticks ----------

  /** The table after the clock has come to `now`: exactly the sleepers whose time has come, by the
      difference of 32-bit counters, are ready; slot 0 is not looked at. */
  ghost predicate Woken(t: Table, now: nat, u: Table) {
    forall i :: 0 <= i < 16 ==>
      u[i] == if && i > 0 && t[i].state == Blocked && t[i].wait == NoWait
                 && (now - t[i].wake) % 0x1_0000_0000 < 0x8000_0000
              then t[i].(state := Ready, wake := 0) else t[i]
  }

  /** A tick wakes sleepers and takes one from the slice of the running process; when the slice is
      used up, the next ready process runs, or the same one with a new slice. */
  lemma TickMeans(s: State) returns (u: Table)
    requires Valid(s)
    ensures Woken(s.table, s.clock + 1, u)
    ensures var s1, c := s.(clock := s.clock + 1), s.current;
            if Me(s).slice > 1 then Tick(s) == s1.(table := u[c := u[c].(slice := Me(s).slice - 1)])
            else if NobodyReady(u) then Tick(s) == s1.(table := u[c := u[c].(slice := 5)])
            else exists n :: n != c && FirstAfter(u, c, n) && HandsOver(s1, Tick(s), u[c := u[c].(state := Ready)], n)
  {
    hide NextReady, FirstAfter, PidsFine, Due, Woken;
    assert SlotFine(s, s.current);
    u := TickAll(s.table, (s.clock + 1) % 0x1_0000_0000);
    SleepersWoken(s.table, s.clock + 1);
    var s1, c := s.(clock := s.clock + 1, table := u), s.current;
    var t := u[c := u[c].(state := Ready)];
    OtherNext(u, t, c);
    if Me(s).slice <= 1 && !NobodyReady(u) {
      assert HandsOver(s.(clock := s.clock + 1), Tick(s), t, NextReady(t, c, 1));
    }
  }

  lemma SleepersWoken(t: Table, clock: nat)
    ensures Woken(t, clock, TickAll(t, clock % 0x1_0000_0000))
  {
    hide Due;
    forall i | 0 <= i < 16
      ensures Due(clock % 0x1_0000_0000, t[i].wake) <==> (clock - t[i].wake) % 0x1_0000_0000 < 0x8000_0000
    {
      DueMeans(clock, t[i].wake);
    }
  }

  lemma DueMeans(clock: nat, wake: nat)
    ensures Due(clock % 0x1_0000_0000, wake) <==> (clock - wake) % 0x1_0000_0000 < 0x8000_0000
  {
    var m := 0x1_0000_0000;
    assert (clock % m + m - wake % m) % m == (clock - wake) % m by {
      var q := clock / m - wake / m - 1;
      assert clock - wake == (clock % m + m - wake % m) + m * q;
      ModPlus(clock % m + m - wake % m, q);
    }
  }

  lemma ModPlus(x: int, q: int)
    ensures (x + 0x1_0000_0000 * q) % 0x1_0000_0000 == x % 0x1_0000_0000
  {
  }

  // ---------- new processes ----------

  ghost predicate NumberUsed(t: Table, pid: nat) { exists i :: 0 <= i < 16 && t[i].state != Unused && t[i].pid == pid }

  /** The next number, or the least unused one after the counter has run out. */
  ghost predicate NextNumber(s: State, pid: nat) {
    && !NumberUsed(s.table, pid)
    && if s.nextPid != 0 then pid == s.nextPid else forall x :: 1 <= x < pid ==> NumberUsed(s.table, x)
  }

  /** `s'` is `s` with a ready child of the caller in slot `i`, with a slice of five ticks. */
  ghost predicate BornAs(s: State, s': State, i: nat, pid: nat) {
    s.current < 16 && i < 16 &&
    s' == s.(table := s.table[i := Process(pid, Ready, 0, Me(s).pid, 0, 5, NoWait, 0)],
             nextPid := if 0 < s.nextPid < 0x7FFF_FFFF then s.nextPid + 1 else 0)
  }

  /** With an unused slot from 1 on, and the resources, the lowest one gets a new child of the
      caller under an unused number. */
  lemma SpawnMeans(s: State, resources: bool, i: nat)
    requires Valid(s) && 1 <= i <= 16 && (forall j :: 1 <= j < i ==> s.table[j].state != Unused)
    requires i < 16 ==> s.table[i].state == Unused
    ensures i == 16 || !resources ==> Spawn(s, resources) == s
    ensures i < 16 && resources ==>
              exists pid :: 1 <= pid <= 0x7FFF_FFFF && NextNumber(s, pid) && BornAs(s, Spawn(s, resources), i, pid)
  {
    hide LowestFree, SlotFine, NextNumber, FirstUnused;
    LowestUnused(s.table, i);
    if i < 16 && resources {
      NumberMeans(s);
      assert BornAs(s, Spawn(s, resources), i, NewPid(s));
    }
  }

  lemma LowestUnused(t: Table, i: nat)
    requires 1 <= i <= 16 && (forall j :: 1 <= j < i ==> t[j].state != Unused) && (i < 16 ==> t[i].state == Unused)
    ensures FirstUnused(t, 1) == i
  {
    hide FirstUnused;
  }

  lemma NumberMeans(s: State)
    requires Valid(s)
    ensures 1 <= NewPid(s) <= 0x7FFF_FFFF && NextNumber(s, NewPid(s))
  {
    hide LowestFree, SlotFine;
    NewPidFresh(s);
    SomePidFree(s);
    if s.nextPid == 0 {
      forall x | 1 <= x < NewPid(s) ensures NumberUsed(s.table, x) { assert InUse(s.table, x); }
    }
  }
}
