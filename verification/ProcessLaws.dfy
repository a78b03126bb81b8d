/** The process table as a relation between states, written on its 64 slots without the search loops, and
    how soon a process runs after a wake, a fork or the loss of the processor. */
module ProcessLaws {
  import opened Processes
  import opened Scheduling

  // ---- The relation ----

  /** A sleeper whose time has come. */
  predicate Due(p: Proc, now: nat) {
    p.state == Blocked && 0 < p.wakeTime <= now
  }

  predicate CanRun(p: Proc, now: nat) {
    p.state == Ready || Due(p, now)
  }

  /** What a scheduler call leaves in a slot that keeps off the processor. */
  function Rested(p: Proc, now: nat): Proc {
    if Due(p, now) then p.(state := Ready, wakeTime := 0) else p
  }

  /** How many slots on from `start` slot `j` comes, going round; `start` itself comes last. */
  function Gap(start: int, j: int): int {
    if j > start then j - start else j + 64 - start
  }

  /** The processor went from the current process of `s` to the first slot behind it, going round, that was
      READY or due; the process that lost it is READY if it was RUNNING. */
  ghost predicate Switched(s: Sys, r: Sys)
    requires |s.procs| == |r.procs| == 64 && s.current < 64
  {
    var start := if s.current < 0 then 0 else s.current;
    && 0 <= r.current < 64
    && CanRun(s.procs[r.current], s.ticks)
    && (forall j :: 0 <= j < 64 && Gap(start, j) < Gap(start, r.current) ==> !CanRun(s.procs[j], s.ticks))
    && r.procs[r.current] == Rested(s.procs[r.current], s.ticks).(state := Running)
    && (s.current >= 0 && s.procs[s.current].state == Running ==>
          r.procs[s.current] == s.procs[s.current].(state := Ready))
    && (s.current >= 0 && s.procs[s.current].state != Running ==>
          r.procs[s.current] == Rested(s.procs[s.current], s.ticks))
  }

  /** A scheduler call: it switches exactly when another process can run, and sleepers that are due become
      READY; all other slots stay as they were. */
  ghost predicate Rescheduled(s: Sys, r: Sys)
    requires |s.procs| == 64 && s.current < 64
  {
    && |r.procs| == 64 && r.ticks == s.ticks && r.interval == s.interval
    && (r.current == s.current <==> forall j :: 0 <= j < 64 && CanRun(s.procs[j], s.ticks) ==> j == s.current)
    && (r.current != s.current ==> Switched(s, r))
    && (forall j :: 0 <= j < 64 && j != r.current && j != s.current ==> r.procs[j] == Rested(s.procs[j], s.ticks))
    && (0 <= s.current == r.current ==> r.procs[s.current] == Rested(s.procs[s.current], s.ticks))
  }

  /** One slot rewritten, nothing else. */
  function With(s: Sys, i: int, p: Proc): Sys
    requires 0 <= i < |s.procs|
  {
    s.(procs := s.procs[i := p])
  }

  /** The lowest unused slot, if any, became a READY child of the current process. */
  ghost predicate Spawned(s: Sys, r: Sys, wakeTime: nat) {
    || (r == s && forall j :: 0 <= j < |s.procs| ==> s.procs[j].state != Unused)
    || (exists c :: && 0 <= c < |s.procs| && s.procs[c].state == Unused
                    && (forall j :: 0 <= j < c ==> s.procs[j].state != Unused)
                    && r == With(s, c, Proc(c, s.current, Ready, 0, wakeTime)))
  }

  predicate IsChild(s: Sys, j: int) {
    0 <= j < |s.procs| && s.procs[j].ppid == s.current && s.procs[j].state != Unused
  }

  /** The first zombie child was freed and its pid returned; without one the caller yields if it has a
      child at all and fails otherwise. */
  ghost predicate Waited(s: Sys, r: Sys, result: WaitResult)
    requires |s.procs| == 64 && s.current < 64
  {
    match result
    case Reaped(z) =>
      && IsChild(s, z) && s.procs[z].state == Zombie
      && (forall j :: 0 <= j < z && IsChild(s, j) ==> s.procs[j].state != Zombie)
      && r == With(s, z, s.procs[z].(state := Unused))
    case Yielded =>
      && s.current >= 0 && Rescheduled(s, r)
      && (exists j :: IsChild(s, j))
      && (forall j :: IsChild(s, j) ==> s.procs[j].state != Zombie)
    case NoChild => r == s && (s.current >= 0 ==> forall j :: !IsChild(s, j))
  }

  /** The steps of the table as a relation. */
  ghost predicate Goes(s: Sys, step: Step, r: Sys)
    requires |s.procs| == 64 && s.current < 64
  {
    match step
    case DoCreate => Spawned(s, r, 0)
    case DoFork => if s.current < 0 then r == s else Spawned(s, r, s.procs[s.current].wakeTime)
    case DoExit(code) =>
      if s.current <= 0 then r == s
      else Rescheduled(With(s, s.current, s.procs[s.current].(state := Zombie, exitCode := code)), r)
    case DoSleep(ms) =>
      if s.current < 0 then r == s
      else Rescheduled(With(s, s.current, s.procs[s.current].(state := Blocked,
                                            wakeTime := (s.ticks + ms) % 0x1_0000_0000_0000_0000)), r)
    case DoWake(p) =>
      if 0 <= p < 64 && s.procs[p].state == Blocked then r == With(s, p, s.procs[p].(state := Ready))
      else r == s
    case DoWait => exists result :: Waited(s, r, result)
    case DoSchedule => Rescheduled(s, r)
    case DoTick =>
      var t := s.(ticks := s.ticks + 1);
      if s.interval > 0 && t.ticks % s.interval == 0 then Rescheduled(t, r) else r == t
  }

  // ---- The steps meet it ----

  lemma {:induction false} SearchExactly(procs: seq<Proc>, start: nat, i: nat)
    requires |procs| == 64 && start < 64 && i <= 64
    requires forall j :: 0 <= j < 64 && Gap(start, j) <= i ==> procs[j].state != Ready
    ensures var next := NextReady(procs, start, i);
            forall j :: 0 <= j < 64 && (next >= 0 ==> Gap(start, j) < Gap(start, next)) ==> procs[j].state != Ready
    decreases 64 - i
  {
    if i < 64 {
      hide Slot;
      GapOfSlot(start, i);
      if procs[Slot(start, i)].state != Ready { SearchExactly(procs, start, i + 1); }
    }
  }

  lemma GapOfSlot(start: nat, i: nat)
    requires start < 64 && i < 64
    ensures forall j :: 0 <= j < 64 ==> (Gap(start, j) == i + 1 <==> j == Slot(start, i))
  {
  }

  lemma ScheduleExactly(s: Sys)
    requires Inv(s)
    ensures Rescheduled(s, Schedule(s))
  {
    hide NextReady;
    var procs := Wakeups(s.procs, s.ticks);
    SearchExactly(procs, Start(s.current), 0);
    assert forall j :: 0 <= j < 64 ==> procs[j] == Rested(s.procs[j], s.ticks);
    assert forall j :: 0 <= j < 64 ==> (procs[j].state == Ready <==> CanRun(s.procs[j], s.ticks));
  }

  lemma {:induction false} UnusedExactly(procs: seq<Proc>, i: nat)
    requires i <= |procs|
    ensures var c := FirstUnused(procs, i);
            forall j :: i <= j < (if c < 0 then |procs| else c) ==> procs[j].state != Unused
    decreases |procs| - i
  {
    if i < |procs| { UnusedExactly(procs, i + 1); }
  }

  lemma {:induction false} ZombieExactly(procs: seq<Proc>, mypid: int, i: nat)
    requires i <= |procs|
    ensures var z := ZombieChild(procs, mypid, i);
            forall j :: i <= j < z ==> !(procs[j].ppid == mypid && procs[j].state == Zombie)
    decreases |procs| - i
  {
    if i < |procs| { ZombieExactly(procs, mypid, i + 1); }
  }

  lemma WaitExactly(s: Sys)
    requires Inv(s)
    ensures Waited(s, Wait(s).0, Wait(s).1)
  {
    if s.current >= 0 {
      hide Schedule, Rescheduled, ZombieChild, HasLiveChild;
      ScheduleExactly(s);
      ZombieExactly(s.procs, s.current, 0);
      LiveExactly(s);
      var z := ZombieChild(s.procs, s.current);
      if z >= 0 {
        assert SetState(s.procs[z], Unused) == s.procs[z].(state := Unused);
        assert Wait(s) == (With(s, z, s.procs[z].(state := Unused)), Reaped(z));
      }
    }
  }

  lemma LiveExactly(s: Sys)
    requires |s.procs| == 64
    ensures HasLiveChild(s.procs, s.current) <==> exists j :: IsChild(s, j) && s.procs[j].state != Zombie
  {
    if j :| IsChild(s, j) && s.procs[j].state != Zombie { assert s.procs[j].state != Unused; }
  }

  /** Every step, from every state the table can be in, is one the relation allows. */
  lemma NextGoes(s: Sys, step: Step)
    requires Inv(s)
    ensures Goes(s, step, Next(s, step))
  {
    hide Rescheduled, Schedule;
    match step
    case DoExit(code) => if s.current > 0 { ExitGoes(s, code); }
    case DoSleep(ms) => if s.current >= 0 { SleepGoes(s, ms); }
    case DoWait =>
      WaitExactly(s);
      assert Waited(s, Wait(s).0, Wait(s).1);
    case DoSchedule => ScheduleExactly(s);
    case DoTick => if TickSchedules(s) { ScheduleExactly(Ticked(s)); }
    case _ => UnusedExactly(s.procs, 0);
  }

  lemma ExitGoes(s: Sys, code: int)
    requires Inv(s) && s.current > 0
    ensures Goes(s, DoExit(code), Exit(s, code))
  {
    hide Rescheduled, Schedule;
    var p := s.procs[s.current];
    SetSlotKeepsInv(s, s.current, Proc(p.pid, p.ppid, Zombie, code, p.wakeTime));
    ScheduleExactly(Exiting(s, code));
  }

  lemma SleepGoes(s: Sys, ms: nat)
    requires Inv(s) && s.current >= 0
    ensures Goes(s, DoSleep(ms), Sleep(s, ms))
  {
    hide Rescheduled, Schedule;
    var p := s.procs[s.current];
    SetSlotKeepsInv(s, s.current, Proc(p.pid, p.ppid, Blocked, p.exitCode, (s.ticks + ms) % WORD));
    ScheduleExactly(Sleeping(s, ms));
  }

  /** The steps that call the scheduler, which the bounds on waiting count. */
  lemma SchedulesExactly(s: Sys, step: Step)
    requires Inv(s)
    ensures Schedules(s, step) <==>
      || step.DoSchedule?
      || (step.DoExit? && s.current > 0)
      || (step.DoSleep? && s.current >= 0)
      || (step.DoTick? && s.interval > 0 && (s.ticks + 1) % s.interval == 0)
      || (step.DoWait? && s.current >= 0 && (exists j :: IsChild(s, j))
          && forall j :: IsChild(s, j) ==> s.procs[j].state != Zombie)
  {
    hide Schedule, Rescheduled;
    if step.DoWait? { WaitExactly(s); }
  }

  // ---- Who runs ----

  lemma FirstStep(s: Sys, step: Step, steps: seq<Step>, p: nat)
    requires Shaped(s) && p < 64 && !Schedules(s, step)
    ensures SchedulerCalls(s, [step] + steps) == SchedulerCalls(Next(s, step), steps)
    ensures GetsCpu(Next(s, step), steps, p) ==> GetsCpu(s, [step] + steps, p)
  {
    assert ([step] + steps)[1..] == steps;
  }

  /** A wake makes a BLOCKED process READY, keeping everything else in its slot and every other slot, and
      does nothing to any other; and a process woken while another is current gets the processor within 64
      scheduler calls, whatever the run. */
  lemma WokenRuns(s: Sys, p: nat, steps: seq<Step>)
    requires Inv(s) && p < 64 && s.procs[p].state == Blocked
    ensures var r := Next(s, DoWake(p));
            && r.procs[p] == s.procs[p].(state := Ready)
            && (forall j :: 0 <= j < 64 && j != p ==> r.procs[j] == s.procs[j])
            && r.current == s.current && r.ticks == s.ticks
    ensures p != s.current && SchedulerCalls(s, [DoWake(p)] + steps) >= 64 ==> GetsCpu(s, [DoWake(p)] + steps, p)
  {
    var r := Next(s, DoWake(p));
    NextKeepsInv(s, DoWake(p));
    FirstStep(s, DoWake(p), steps, p);
    if p != s.current { BoundedWaiting(r, steps, p); }
  }

  lemma OtherwiseAsleep(s: Sys, p: int)
    requires Inv(s)
    ensures Next(s, DoWake(p)) == s <==> !(0 <= p < 64 && s.procs[p].state == Blocked)
  {
    if 0 <= p < 64 && s.procs[p].state == Blocked {
      assert Next(s, DoWake(p)).procs[p].state == Ready;
    }
  }

  /** With a slot free, a fork makes a child of the caller in it, which gets the processor within 64
      scheduler calls, whatever the run. */
  lemma ForkedRuns(s: Sys, steps: seq<Step>) returns (c: nat)
    requires Inv(s) && s.current >= 0 && exists j :: 0 <= j < 64 && s.procs[j].state == Unused
    ensures c < 64 && s.procs[c].state == Unused
    ensures var r := Next(s, DoFork);
            && r.procs[c] == Proc(c, s.current, Ready, 0, s.procs[s.current].wakeTime)
            && (forall j :: 0 <= j < 64 && j != c ==> r.procs[j] == s.procs[j])
            && r.current == s.current
    ensures SchedulerCalls(s, [DoFork] + steps) >= 64 ==> GetsCpu(s, [DoFork] + steps, c)
  {
    UnusedExactly(s.procs, 0);
    c := FirstUnused(s.procs);
    NextKeepsInv(s, DoFork);
    FirstStep(s, DoFork, steps, c);
    BoundedWaiting(Next(s, DoFork), steps, c);
  }

  predicate Runnable(s: Sys, p: nat) {
    p < |s.procs| && (s.procs[p].state == Ready || s.procs[p].state == Running)
  }

  /** A process stops only by its own exit or sleep. */
  ghost predicate Stops(s: Sys, step: Step, p: nat) {
    s.current == p && (step.DoExit? || step.DoSleep?)
  }

  ghost predicate NeverStops(s: Sys, steps: seq<Step>, p: nat)
    requires Shaped(s)
    decreases |steps|
  {
    steps == [] || (!Stops(s, steps[0], p) && NeverStops(Next(s, steps[0]), steps[1..], p))
  }

  lemma RunnableStep(s: Sys, step: Step, p: nat)
    requires Inv(s) && Runnable(s, p) && !Stops(s, step, p)
    ensures Runnable(Next(s, step), p)
  {
    hide Next;
    NextGoes(s, step);
  }

  /** No process is lost: through any run in which it does not itself exit or sleep, a process stays READY
      or RUNNING, and from whatever state the run ends in, it has the processor or gets it within 64
      scheduler calls of any further run. */
  lemma {:induction false} NeverLost(s: Sys, steps: seq<Step>, more: seq<Step>, p: nat)
    requires Inv(s) && Runnable(s, p) && NeverStops(s, steps, p)
    ensures var r := Run(s, steps);
            Runnable(r, p) && (r.current == p || (SchedulerCalls(r, more) >= 64 ==> GetsCpu(r, more, p)))
    decreases |steps|
  {
    if steps == [] {
      if s.current != p { BoundedWaiting(s, more, p); }
    } else {
      RunnableStep(s, steps[0], p);
      NextKeepsInv(s, steps[0]);
      NeverLost(Next(s, steps[0]), steps[1..], more, p);
    }
  }

  // ---- The timer ----

  /** A run calls the scheduler at least once in each timer interval it spans. */
  lemma {:induction false} CallsByTicks(s: Sys, steps: seq<Step>)
    requires Shaped(s) && s.interval > 0
    ensures Run(s, steps).ticks / s.interval <= s.ticks / s.interval + SchedulerCalls(s, steps)
    decreases |steps|
  {
    if steps != [] {
      StepTime(s, steps[0]);
      RoundAdvances(s.ticks, s.interval);
      CallsByTicks(Next(s, steps[0]), steps[1..]);
    }
  }

  lemma RoundsOf(t: nat, t': nat, interval: nat)
    requires interval > 0 && t + 64 * interval <= t'
    ensures t / interval + 64 <= t' / interval
  {
    var q, q' := t / interval, t' / interval;
    assert q * interval <= t && t' < (q' + 1) * interval;
    assert (q + 64) * interval == q * interval + 64 * interval;
    if q' < q + 64 { MulMonotone(q' + 1, q + 64, interval); }
  }

  /** In time: a READY process that is not current has been RUNNING after 64 timer intervals, whatever else
      happens in the run. */
  lemma WaitsAtMost(s: Sys, steps: seq<Step>, p: nat)
    requires Inv(s) && s.interval > 0 && p < 64 && Waiting(s, p)
    requires Run(s, steps).ticks >= s.ticks + 64 * s.interval
    ensures GetsCpu(s, steps, p)
  {
    CallsByTicks(s, steps);
    RoundsOf(s.ticks, Run(s, steps).ticks, s.interval);
    BoundedWaiting(s, steps, p);
  }
}
