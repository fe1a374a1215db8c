/** The process table as a state machine: what each scheduler step does to it. */
module Processes {
  import opened Errno

  const PID_MAXIMUM: nat := 0x7FFF_FFFF

  datatype RunState = Unused | Ready | Running | Blocked | Zombie

  /** What a blocked process waits for; a sleeping one waits for no child. */
  datatype Wait = NoWait | AnyChild | Child(slot: nat)

  /** `request` is the argument of the waitpid call that the process is in, and 0 outside one. */
  datatype Process = Process(pid: nat, state: RunState, exit: int, parent: nat, wake: nat, slice: nat,
                             wait: Wait, request: int)

  const CLEARED := Process(0, Unused, 0, 0, 0, 0, NoWait, 0)

  type Table = t: seq<Process> | |t| == 16 witness seq(16, _ => CLEARED)

  /** `clock` counts all ticks since the start; the kernel's counter is `clock` modulo 2^32. */
  datatype State = State(table: Table, current: nat, nextPid: nat, clock: nat)

  // ---------- scanning ----------

  /** Slot number of a position that may run once past the end of the table. */
  function Wrap(x: nat): (i: nat)
    requires x < 32
    ensures i < 16
  {
    if x < 16 then x else x - 16
  }

  /** The first ready slot at distance `offset..16` after `start`; 16 if there is none. */
  function NextReady(t: Table, start: nat, offset: nat): (n: nat)
    requires start < 16 && 1 <= offset <= 17
    ensures n <= 16 && (n < 16 ==> t[n].state == Ready)
    decreases 17 - offset
  {
    if offset > 16 then 16 else if t[Wrap(start + offset)].state == Ready then Wrap(start + offset)
                                else NextReady(t, start, offset + 1)
  }

  predicate Matches(p: Process, parent: nat, request: int, zombieOnly: bool) {
    p.state != Unused && p.parent == parent && (request == -1 || p.pid == request) && (zombieOnly ==> p.state == Zombie)
  }

  /** The first child in slot `from..16`; 16 if there is none. */
  function FirstChild(t: Table, parent: nat, request: int, zombieOnly: bool, from: nat): (c: nat)
    requires from <= 16
    ensures from <= c <= 16
    ensures c < 16 ==> Matches(t[c], parent, request, zombieOnly)
    ensures forall i :: from <= i < c ==> !Matches(t[i], parent, request, zombieOnly)
    decreases 16 - from
  {
    if from == 16 then 16
    else if Matches(t[from], parent, request, zombieOnly) then from
    else FirstChild(t, parent, request, zombieOnly, from + 1)
  }

  function FirstUnused(t: Table, from: nat): (i: nat)
    requires from <= 16
    ensures from <= i <= 16 && (i < 16 ==> t[i].state == Unused) && forall j :: from <= j < i ==> t[j].state != Unused
    decreases 16 - from
  {
    if from == 16 || t[from].state == Unused then from else FirstUnused(t, from + 1)
  }

  predicate InUse(t: Table, pid: nat) { exists i :: 0 <= i < 16 && t[i].state != Unused && t[i].pid == pid }

  // ---------- steps ----------

  function Me(s: State): (p: Process)
    requires s.current < 16
  {
    s.table[s.current]
  }

  function SwitchTo(s: State, n: nat): (s': State)
    requires n < 16
  {
    s.(table := s.table[n := s.table[n].(state := Running, slice := 5)], current := n)
  }

  function Yield(s: State): (s': State)
    requires s.current < 16
  {
    var t := s.table[s.current := Me(s).(state := Ready)];
    var n := NextReady(t, s.current, 1);
    if n == 16 || n == s.current then s else SwitchTo(s.(table := t), n)
  }

  function Sleep(s: State, ticks: nat): (s': State)
    requires s.current < 16
  {
    var n := NextReady(s.table, s.current, 1);
    if ticks == 0 then Yield(s)
    else if ticks > 0x7FFF_FFFF || n == 16 then s
    else
      var asleep := Me(s).(state := Blocked, wait := NoWait, wake := (s.clock + ticks) % 0x1_0000_0000);
      SwitchTo(s.(table := s.table[s.current := asleep]), n)
  }

  predicate WokenBy(p: Process, child: nat, parentPid: nat) {
    p.state == Blocked && p.pid == parentPid && (p.wait == Child(child) || p.wait == AnyChild)
  }

  function WakeOne(p: Process, child: nat, parentPid: nat): (q: Process) {
    if WokenBy(p, child, parentPid) then p.(state := Ready, wait := NoWait) else p
  }

  /** All processes that wait for `child` become ready. */
  function Wake(t: Table, child: nat): (t': Table)
    requires child < 16
    ensures forall i :: 0 <= i < 16 ==> t'[i] == WakeOne(t[i], child, t[child].parent)
  {
    seq(16, i requires 0 <= i < 16 => WakeOne(t[i], child, t[child].parent))
  }

  function Exit(s: State, code: int): (s': State)
    requires s.current < 16
  {
    var t := Wake(s.table[s.current := Me(s).(exit := code, state := Zombie)], s.current);
    var n := NextReady(t, s.current, 1);
    if n == 16 then s.(table := t) else SwitchTo(s.(table := t), n)
  }

  /** A process blocked in waitpid; `c` is the first child that matches. */
  function AsWaiter(p: Process, request: int, c: nat): (q: Process) {
    p.(state := Blocked, request := request, wait := if request == -1 then AnyChild else Child(c))
  }

  /** One round of the waitpid loop; the result is 0 when the caller was blocked. */
  function WaitRound(s: State, request: int): (r: (State, int, int))
    requires s.current < 16
  {
    var z := FirstChild(s.table, Me(s).pid, request, true, 1);
    var c := FirstChild(s.table, Me(s).pid, request, false, 1);
    var done := s.(table := s.table[s.current := Me(s).(request := 0)]);
    if z < 16 then (done.(table := done.table[z := CLEARED]), s.table[z].pid, s.table[z].exit)
    else if c == 16 then (done, ECHILD, 0)
    else
      var t := s.table[s.current := AsWaiter(Me(s), request, c)];
      var n := NextReady(t, s.current, 1);
      if n == 16 then (done, ECHILD, 0) else (SwitchTo(s.(table := t), n), 0, 0)
  }

  function WaitPid(s: State, request: int): (r: (State, int, int))
    requires s.current < 16
  {
    if request == 0 || request < -1 then (s, EINVAL, 0) else WaitRound(s, request)
  }

  /** `(int32_t)(now - wake) >= 0` on 32-bit counters. */
  predicate Due(now: nat, wake: nat) { (now + 0x1_0000_0000 - wake % 0x1_0000_0000) % 0x1_0000_0000 < 0x8000_0000 }

  function TickOne(p: Process, slot: nat, now: nat): (q: Process) {
    if slot > 0 && p.state == Blocked && p.wait == NoWait && Due(now, p.wake) then p.(state := Ready, wake := 0) else p
  }

  /** All sleepers whose time has come become ready; slot 0 is not looked at. */
  function TickAll(t: Table, now: nat): (t': Table)
    ensures forall i :: 0 <= i < 16 ==> t'[i] == TickOne(t[i], i, now)
  {
    seq(16, i requires 0 <= i < 16 => TickOne(t[i], i, now))
  }

  function Tick(s: State): (s': State)
    requires s.current < 16
  {
    var s1 := s.(clock := s.clock + 1, table := TickAll(s.table, (s.clock + 1) % 0x1_0000_0000));
    if Me(s1).state != Running then s1
    else if Me(s1).slice > 1 then s1.(table := s1.table[s.current := Me(s1).(slice := Me(s1).slice - 1)])
    else
      var t := s1.table[s.current := Me(s1).(state := Ready)];
      var n := NextReady(t, s.current, 1);
      if n == 16 || n == s.current then s1.(table := s1.table[s.current := Me(s1).(slice := 5)])
      else SwitchTo(s1.(table := t), n)
  }

  /** A new process in slot `i`. */
  function Born(s: State, i: nat, pid: nat): (s': State)
    requires s.current < 16 && i < 16
  {
    s.(table := s.table[i := Process(pid, Ready, 0, Me(s).pid, 0, 5, NoWait, 0)],
       nextPid := if s.nextPid == 0 || s.nextPid == PID_MAXIMUM then 0 else s.nextPid + 1)
  }
}
