/** The process table and round-robin scheduler as a state machine over its atomic steps. */
module Processes {

  const MAX_PROCESSES: nat := 64
  const WORD: nat := 0x1_0000_0000_0000_0000

  datatype ProcState = Unused | Ready | Running | Blocked | Zombie

  datatype Proc = Proc(pid: int, ppid: int, state: ProcState, exitCode: int, wakeTime: nat)

  /** `current` is -1 before the first process runs; the timer calls the scheduler every `interval`
      ticks (never, when it is 0). */
  datatype Sys = Sys(procs: seq<Proc>, current: int, ticks: nat, interval: nat)

  predicate Shaped(s: Sys) {
    |s.procs| == MAX_PROCESSES && -1 <= s.current < MAX_PROCESSES
  }

  function SetState(p: Proc, st: ProcState): Proc {
    Proc(p.pid, p.ppid, st, p.exitCode, p.wakeTime)
  }

  // ---- The scheduler ----

  /** The wake-up pass on one slot. */
  function WakeOne(p: Proc, now: nat): Proc {
    if p.state == Blocked && p.wakeTime > 0 && now >= p.wakeTime
    then Proc(p.pid, p.ppid, Ready, p.exitCode, 0) else p
  }

  function Wakeups(procs: seq<Proc>, now: nat): (r: seq<Proc>)
    ensures |r| == |procs| && forall i :: 0 <= i < |procs| ==> r[i] == WakeOne(procs[i], now)
  {
    seq(|procs|, i requires 0 <= i < |procs| => WakeOne(procs[i], now))
  }

  function Start(current: int): (r: nat)
    requires -1 <= current < MAX_PROCESSES
    ensures r < MAX_PROCESSES
  {
    if current < 0 then 0 else current
  }

  /** The slot looked at in turn `i` of the search. */
  function Slot(start: nat, i: nat): (r: nat)
    ensures r < MAX_PROCESSES
  {
    (start + 1 + i) % MAX_PROCESSES
  }

  /** First READY slot in cyclic order from turn `i` on, or -1. */
  function NextReady(procs: seq<Proc>, start: nat, i: nat := 0): (r: int)
    requires |procs| == MAX_PROCESSES && i <= MAX_PROCESSES
    ensures -1 <= r < MAX_PROCESSES
    ensures r >= 0 ==> procs[r].state == Ready
    decreases MAX_PROCESSES - i
  {
    if i == MAX_PROCESSES then -1
    else if procs[Slot(start, i)].state == Ready then Slot(start, i)
    else NextReady(procs, start, i + 1)
  }

  /** process_scheduler. */
  function Schedule(s: Sys): (r: Sys)
    requires Shaped(s)
    ensures Shaped(r)
  {
    var procs := Wakeups(s.procs, s.ticks);
    var next := NextReady(procs, Start(s.current));
    if next < 0 || next == s.current then Sys(procs, s.current, s.ticks, s.interval)
    else
      var parked := if s.current >= 0 && procs[s.current].state == Running
                    then procs[s.current := SetState(procs[s.current], Ready)] else procs;
      Sys(parked[next := SetState(parked[next], Running)], next, s.ticks, s.interval)
  }

  // ---- The other steps ----

  function FirstUnused(procs: seq<Proc>, i: nat := 0): (r: int)
    requires i <= |procs|
    ensures -1 <= r < |procs|
    ensures r >= 0 ==> procs[r].state == Unused
    decreases |procs| - i
  {
    if i == |procs| then -1 else if procs[i].state == Unused then i else FirstUnused(procs, i + 1)
  }

  /** process_create, at the level of the slot. */
  function Create(s: Sys): (r: Sys)
    requires Shaped(s)
    ensures Shaped(r)
  {
    var pid := FirstUnused(s.procs);
    if pid < 0 then s
    else SetSlot(s, pid, Proc(pid, s.current, Ready, 0, 0))
  }

  /** process_fork, at the level of the slot: the child copies the parent's wake time. */
  function Fork(s: Sys): (r: Sys)
    requires Shaped(s)
    ensures Shaped(r)
  {
    if s.current < 0 then s
    else
      var pid := FirstUnused(s.procs);
      if pid < 0 then s
      else SetSlot(s, pid, Proc(pid, s.current, Ready, 0, s.procs[s.current].wakeTime))
  }

  function SetSlot(s: Sys, i: int, p: Proc): (r: Sys)
    requires Shaped(s) && 0 <= i < MAX_PROCESSES
    ensures Shaped(r)
  {
    Sys(s.procs[i := p], s.current, s.ticks, s.interval)
  }

  predicate CanExit(s: Sys)
    requires Shaped(s)
  {
    s.current >= 0 && s.procs[s.current].pid != 0
  }

  /** The current slot turned ZOMBIE, before process_exit yields. */
  function Exiting(s: Sys, code: int): (r: Sys)
    requires Shaped(s) && CanExit(s)
    ensures Shaped(r)
  {
    var p := s.procs[s.current];
    SetSlot(s, s.current, Proc(p.pid, p.ppid, Zombie, code, p.wakeTime))
  }

  function Exit(s: Sys, code: int): (r: Sys)
    requires Shaped(s)
    ensures Shaped(r)
  {
    if CanExit(s) then Schedule(Exiting(s, code)) else s
  }

  /** The current slot turned BLOCKED, before process_sleep yields. */
  function Sleeping(s: Sys, ms: nat): (r: Sys)
    requires Shaped(s) && s.current >= 0
    ensures Shaped(r)
  {
    var p := s.procs[s.current];
    SetSlot(s, s.current, Proc(p.pid, p.ppid, Blocked, p.exitCode, (s.ticks + ms) % WORD))
  }

  function Sleep(s: Sys, ms: nat): (r: Sys)
    requires Shaped(s)
    ensures Shaped(r)
  {
    if s.current < 0 then s else Schedule(Sleeping(s, ms))
  }

  function Wake(s: Sys, pid: int): (r: Sys)
    requires Shaped(s)
    ensures Shaped(r)
  {
    if pid < 0 || pid >= MAX_PROCESSES || s.procs[pid].state != Blocked then s
    else SetSlot(s, pid, SetState(s.procs[pid], Ready))
  }

  /** First zombie child of `mypid`, or -1. */
  function ZombieChild(procs: seq<Proc>, mypid: int, i: nat := 0): (r: int)
    requires i <= |procs|
    ensures -1 <= r < |procs|
    ensures r >= 0 ==> procs[r].state == Zombie && procs[r].ppid == mypid
    ensures r < 0 ==> forall j :: i <= j < |procs| ==> !(procs[j].ppid == mypid && procs[j].state == Zombie)
    decreases |procs| - i
  {
    if i == |procs| then -1
    else if procs[i].ppid == mypid && procs[i].state == Zombie then i
    else ZombieChild(procs, mypid, i + 1)
  }

  predicate HasLiveChild(procs: seq<Proc>, mypid: int) {
    exists i :: 0 <= i < |procs| && procs[i].ppid == mypid && procs[i].state != Unused && procs[i].state != Zombie
  }

  /** One pass of sys_wait: reap a zombie child, or fail without children, or yield and try again. */
  datatype WaitResult = Reaped(pid: int) | NoChild | Yielded

  function Wait(s: Sys): (r: (Sys, WaitResult))
    requires Shaped(s)
    ensures Shaped(r.0)
  {
    if s.current < 0 then (s, NoChild)
    else
      var mypid := s.procs[s.current].pid;
      var z := ZombieChild(s.procs, mypid);
      if z >= 0 then
        (SetSlot(s, z, SetState(s.procs[z], Unused)), Reaped(s.procs[z].pid))
      else if HasLiveChild(s.procs, mypid) then (Schedule(s), Yielded)
      else (s, NoChild)
  }

  function Ticked(s: Sys): (r: Sys)
    requires Shaped(s)
    ensures Shaped(r)
  {
    Sys(s.procs, s.current, s.ticks + 1, s.interval)
  }

  predicate TickSchedules(s: Sys) {
    s.interval > 0 && (s.ticks + 1) % s.interval == 0
  }

  /** timer_handler. */
  function Tick(s: Sys): (r: Sys)
    requires Shaped(s)
    ensures Shaped(r)
  {
    if TickSchedules(s) then Schedule(Ticked(s)) else Ticked(s)
  }

  datatype Step =
    | DoCreate
    | DoFork
    | DoExit(code: int)
    | DoSleep(ms: nat)
    | DoWake(pid: int)
    | DoWait
    | DoSchedule
    | DoTick

  function Next(s: Sys, step: Step): (r: Sys)
    requires Shaped(s)
    ensures Shaped(r)
  {
    match step
    case DoCreate => Create(s)
    case DoFork => Fork(s)
    case DoExit(code) => Exit(s, code)
    case DoSleep(ms) => Sleep(s, ms)
    case DoWake(pid) => Wake(s, pid)
    case DoWait => Wait(s).0
    case DoSchedule => Schedule(s)
    case DoTick => Tick(s)
  }

  /** The state at the end of a run. */
  function Run(s: Sys, steps: seq<Step>): (r: Sys)
    requires Shaped(s)
    ensures Shaped(r)
    decreases |steps|
  {
    if steps == [] then s else Run(Next(s, steps[0]), steps[1..])
  }

  /** process_init. */
  function Initial(interval: nat): (s: Sys)
    ensures Shaped(s)
  {
    Sys(seq(MAX_PROCESSES, _ => Proc(-1, 0, Unused, 0, 0)), -1, 0, interval)
  }

  // ---- The invariant ----

  ghost predicate Inv(s: Sys) {
    && Shaped(s)
    && (forall i :: 0 <= i < MAX_PROCESSES && s.procs[i].state != Unused ==>
          s.procs[i].pid == i && s.procs[i].ppid != i)
    && (forall i :: 0 <= i < MAX_PROCESSES && s.procs[i].state == Running ==> i == s.current)
    && s.procs[0].state != Zombie
    && (s.current >= 0 ==> s.procs[s.current].state != Unused)
  }

  lemma ScheduleKeepsInv(s: Sys)
    requires Inv(s)
    ensures Inv(Schedule(s))
  {
  }

  /** Writing one slot keeps the invariant if the new contents fit it. */
  lemma SetSlotKeepsInv(s: Sys, i: int, p: Proc)
    requires Inv(s) && 0 <= i < MAX_PROCESSES
    requires p.state != Unused ==> p.pid == i && p.ppid != i
    requires p.state == Running ==> i == s.current
    requires i == 0 ==> p.state != Zombie
    requires i == s.current ==> p.state != Unused
    ensures Inv(SetSlot(s, i, p))
  {
  }

  lemma CreateKeepsInv(s: Sys)
    requires Inv(s)
    ensures Inv(Create(s)) && Inv(Fork(s))
  {
    var pid := FirstUnused(s.procs);
    if pid >= 0 {
      SetSlotKeepsInv(s, pid, Proc(pid, s.current, Ready, 0, 0));
      if s.current >= 0 {
        SetSlotKeepsInv(s, pid, Proc(pid, s.current, Ready, 0, s.procs[s.current].wakeTime));
      }
    }
  }

  lemma WaitKeepsInv(s: Sys)
    requires Inv(s)
    ensures Inv(Wait(s).0)
  {
    ScheduleKeepsInv(s);
    if s.current >= 0 {
      var z := ZombieChild(s.procs, s.procs[s.current].pid);
      if z >= 0 { SetSlotKeepsInv(s, z, SetState(s.procs[z], Unused)); }
    }
  }

  lemma NextKeepsInv(s: Sys, step: Step)
    requires Inv(s)
    ensures Inv(Next(s, step))
  {
    match step
    case DoCreate => CreateKeepsInv(s);
    case DoFork => CreateKeepsInv(s);
    case DoExit(code) =>
      if CanExit(s) {
        var p := s.procs[s.current];
        SetSlotKeepsInv(s, s.current, Proc(p.pid, p.ppid, Zombie, code, p.wakeTime));
        ScheduleKeepsInv(Exiting(s, code));
      }
    case DoSleep(ms) =>
      if s.current >= 0 {
        var p := s.procs[s.current];
        SetSlotKeepsInv(s, s.current, Proc(p.pid, p.ppid, Blocked, p.exitCode, (s.ticks + ms) % WORD));
        ScheduleKeepsInv(Sleeping(s, ms));
      }
    case DoWake(pid) =>
      if 0 <= pid < MAX_PROCESSES && s.procs[pid].state == Blocked {
        SetSlotKeepsInv(s, pid, SetState(s.procs[pid], Ready));
      }
    case DoWait => WaitKeepsInv(s);
    case DoSchedule => ScheduleKeepsInv(s);
    case DoTick => if TickSchedules(s) { ScheduleKeepsInv(Ticked(s)); }
  }

  lemma {:induction false} RunKeepsInv(s: Sys, steps: seq<Step>)
    requires Inv(s)
    ensures Inv(Run(s, steps))
    decreases |steps|
  {
    if steps != [] {
      NextKeepsInv(s, steps[0]);
      RunKeepsInv(Next(s, steps[0]), steps[1..]);
    }
  }

  /** In every reachable state only the current process can be RUNNING, every slot in use carries its
      index as pid, slot 0 is never ZOMBIE, and the current slot is in use. */
  lemma ReachableInv(interval: nat, steps: seq<Step>)
    ensures Inv(Run(Initial(interval), steps))
  {
    RunKeepsInv(Initial(interval), steps);
  }
}
