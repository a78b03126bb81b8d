/** What every run of the process table guarantees: zombies, waiting times and sleepers. */
module Scheduling {
  import opened Processes

  // ---- Zombies ----

  ghost predicate OtherReady(s: Sys)
    requires Shaped(s)
  {
    exists i :: 0 <= i < MAX_PROCESSES && i != s.current && WakeOne(s.procs[i], s.ticks).state == Ready
  }

  /** An exit gives up the processor if and only if some other process is READY once sleepers that are
      due have been woken; otherwise the zombie stays current. */
  lemma ExitHandsOver(s: Sys, code: int)
    requires Inv(s) && CanExit(s)
    ensures Exit(s, code).current != s.current <==> OtherReady(s)
    ensures Exit(s, code).procs[s.current].state == Zombie && Exit(s, code).procs[s.current].exitCode == code
  {
    HandsOver(s, Exiting(s, code));
  }

  /** When the current process can no longer run, the scheduler moves on exactly if another one can. */
  lemma HandsOver(s: Sys, t: Sys)
    requires Shaped(s) && Shaped(t) && t.current == s.current >= 0 && t.ticks == s.ticks
    requires forall i :: 0 <= i < MAX_PROCESSES && i != s.current ==> t.procs[i] == s.procs[i]
    requires WakeOne(t.procs[s.current], t.ticks).state != Ready
    ensures Schedule(t).current != s.current <==> OtherReady(s)
  {
    var procs := Wakeups(t.procs, t.ticks);
    assert forall i :: 0 <= i < MAX_PROCESSES && i != s.current ==> procs[i] == WakeOne(s.procs[i], s.ticks);
    if OtherReady(s) {
      var i :| 0 <= i < MAX_PROCESSES && i != s.current && WakeOne(s.procs[i], s.ticks).state == Ready;
      var d := Distance(Start(t.current), i);
      SlotAtDistance(Start(t.current), i);
      var e := FindsBy(procs, Start(t.current), 0, d);
    }
  }

  ghost predicate Reaps(s: Sys, step: Step, z: int)
    requires Shaped(s)
  {
    step == DoWait && s.current >= 0 && ZombieChild(s.procs, s.procs[s.current].pid) == z
  }

  /** A zombie that is still current is rewritten by its own sleep, and by an exit with another code. */
  ghost predicate Disturbs(s: Sys, step: Step, z: int)
    requires Shaped(s) && 0 <= z < MAX_PROCESSES
  {
    z == s.current && (step.DoSleep? || (step.DoExit? && step.code != s.procs[z].exitCode))
  }

  lemma ScheduleKeepsZombie(s: Sys, z: int)
    requires Shaped(s) && 0 <= z < MAX_PROCESSES && s.procs[z].state == Zombie
    ensures Schedule(s).procs[z] == s.procs[z]
    ensures z != s.current ==> Schedule(s).current != z
  {
  }

  lemma SleepingIsNoZombie(s: Sys, ms: nat)
    requires Shaped(s) && s.current >= 0
    ensures Sleep(s, ms).procs[s.current].state != Zombie
  {
  }

  /** A zombie's slot changes exactly when its parent waits for it, which frees the slot, or when the
      zombie is still current and sleeps or exits again. */
  lemma ZombieStep(s: Sys, step: Step, z: int)
    requires Inv(s) && 0 <= z < MAX_PROCESSES && s.procs[z].state == Zombie
    ensures z != s.current ==> Next(s, step).current != z
    ensures Next(s, step).procs[z] == s.procs[z] <==> !Reaps(s, step, z) && !Disturbs(s, step, z)
    ensures Reaps(s, step, z) ==>
      && s.procs[z].ppid == s.current != z
      && Wait(s).1 == Reaped(z)
      && Next(s, step).procs[z] == SetState(s.procs[z], Unused)
  {
    match step
    case DoExit(code) =>
      if CanExit(s) {
        ScheduleKeepsZombie(Exiting(s, code), z);
      }
    case DoSleep(ms) =>
      if s.current == z {
        SleepingIsNoZombie(s, ms);
      } else if s.current >= 0 {
        ScheduleKeepsZombie(Sleeping(s, ms), z);
      }
    case DoTick => if TickSchedules(s) { ScheduleKeepsZombie(Ticked(s), z); }
    case _ => ScheduleKeepsZombie(s, z);
  }

  /** No step of the run reaps `z`. */
  ghost predicate NeverReaped(s: Sys, steps: seq<Step>, z: int)
    requires Shaped(s)
    decreases |steps|
  {
    steps == [] || (!Reaps(s, steps[0], z) && NeverReaped(Next(s, steps[0]), steps[1..], z))
  }

  /** Over whole runs: until its parent reaps it, a zombie off the processor keeps its slot, exit code
      included, whatever else happens. */
  lemma {:induction false} ZombieUntilReaped(s: Sys, steps: seq<Step>, z: int)
    requires Inv(s) && 0 <= z < MAX_PROCESSES && z != s.current && s.procs[z].state == Zombie
    requires NeverReaped(s, steps, z)
    ensures Run(s, steps).procs[z] == s.procs[z] && Run(s, steps).current != z
    decreases |steps|
  {
    if steps != [] {
      ZombieStep(s, steps[0], z);
      NextKeepsInv(s, steps[0]);
      ZombieUntilReaped(Next(s, steps[0]), steps[1..], z);
    }
  }

  /** A process alone on the machine: init asleep without a deadline, process 1 current. */
  function Alone(p: Proc): (s: Sys)
    ensures Shaped(s)
    ensures forall i :: 0 <= i < MAX_PROCESSES ==>
      s.procs[i] == if i == 0 then Proc(0, -1, Blocked, 0, 0) else if i == 1 then p else Proc(-1, 0, Unused, 0, 0)
    ensures s.current == 1
  {
    Sys(seq(MAX_PROCESSES, (i: int) => if i == 0 then Proc(0, -1, Blocked, 0, 0) else if i == 1 then p
                                       else Proc(-1, 0, Unused, 0, 0)), 1, 0, 10)
  }

  lemma AloneStays(p: Proc)
    requires p.state == Zombie || (p.state == Blocked && p.wakeTime > 0)
    ensures Schedule(Alone(p)) == Alone(p)
  {
    var s := Alone(p);
    assert Wakeups(s.procs, 0) == s.procs;
    NoneReady(s.procs, 1, 0);
  }

  lemma AloneExits()
    ensures Exit(Alone(Proc(1, 0, Running, 0, 0)), 3) == Alone(Proc(1, 0, Zombie, 3, 0))
  {
    var s, dead := Alone(Proc(1, 0, Running, 0, 0)), Proc(1, 0, Zombie, 3, 0);
    assert Exiting(s, 3).procs == Alone(dead).procs;
    AloneStays(dead);
  }

  lemma AloneSleeps()
    ensures Sleep(Alone(Proc(1, 0, Zombie, 3, 0)), 5) == Alone(Proc(1, 0, Blocked, 3, 5))
  {
    var s, asleep := Alone(Proc(1, 0, Zombie, 3, 0)), Proc(1, 0, Blocked, 3, 5);
    assert Sleeping(s, 5).procs == Alone(asleep).procs;
    AloneStays(asleep);
  }

  /** The state is reachable: init starts, creates process 1 and sleeps without a deadline. */
  lemma AloneIsReachable()
    ensures Run(Initial(10), [DoCreate, DoSchedule, DoCreate, DoSleep(0)]) == Alone(Proc(1, 0, Running, 0, 0))
  {
    hide Create, Schedule, Sleep, Run, Inv;
    var steps := [DoCreate, DoSchedule, DoCreate, DoSleep(0)];
    var s3 := FirstThree();
    AloneAtLast(s3);
    var s4 := Sleep(s3, 0);
    RunNone(s4);
    assert steps[3..][1..] == [] && steps[2..][1..] == steps[3..] && steps[1..][1..] == steps[2..];
    RunFirst(s3, s4, s4, DoSleep(0), steps[3..]);
    RunFirst(Schedule(Create(Initial(10))), s3, s4, DoCreate, steps[2..]);
    RunFirst(Create(Initial(10)), Schedule(Create(Initial(10))), s4, DoSchedule, steps[1..]);
    RunFirst(Initial(10), Create(Initial(10)), s4, DoCreate, steps);
  }

  lemma RunNone(s: Sys)
    requires Shaped(s)
    ensures Run(s, []) == s
  {
  }

  /** The first three of those steps. */
  lemma FirstThree() returns (s3: Sys)
    ensures Shaped(Create(Initial(10))) && Shaped(Schedule(Create(Initial(10))))
    ensures s3 == Create(Schedule(Create(Initial(10)))) && Shaped(s3)
    ensures s3.current == 0 && s3.ticks == 0 && s3.interval == 10
    ensures s3.procs[0] == Proc(0, -1, Running, 0, 0) && s3.procs[1] == Proc(1, 0, Ready, 0, 0)
    ensures forall i :: 1 < i < MAX_PROCESSES ==> s3.procs[i] == Proc(-1, 0, Unused, 0, 0)
  {
    var s1 := Create(Initial(10));
    FirstRuns(s1);
    var s2 := Schedule(s1);
    SecondSlot(s2);
    s3 := Create(s2);
  }

  lemma AloneAtLast(s: Sys)
    requires Shaped(s) && s.current == 0 && s.ticks == 0 && s.interval == 10
    requires s.procs[0] == Proc(0, -1, Running, 0, 0) && s.procs[1] == Proc(1, 0, Ready, 0, 0)
    requires forall i :: 1 < i < MAX_PROCESSES ==> s.procs[i] == Proc(-1, 0, Unused, 0, 0)
    ensures Sleep(s, 0) == Alone(Proc(1, 0, Running, 0, 0))
  {
    SecondRuns(s);
    assert Sleep(s, 0).procs == Alone(Proc(1, 0, Running, 0, 0)).procs;
  }

  lemma RunFirst(s: Sys, next: Sys, last: Sys, step: Step, steps: seq<Step>)
    requires Shaped(s) && steps != [] && steps[0] == step && Next(s, step) == next
    requires Run(next, steps[1..]) == last
    ensures Run(s, steps) == last
  {
  }

  lemma FirstRuns(s: Sys)
    requires Shaped(s) && s.current == -1 && s.procs[0].state == Ready
    requires forall i :: 0 < i < MAX_PROCESSES ==> s.procs[i].state == Unused
    ensures Schedule(s) == Sys(s.procs[0 := SetState(s.procs[0], Running)], 0, s.ticks, s.interval)
  {
    assert Wakeups(s.procs, s.ticks) == s.procs;
    assert Slot(0, 63) == 0;
    var e := FindsBy(s.procs, 0, 0, 63);
  }

  lemma SecondRuns(s: Sys)
    requires Shaped(s) && s.current == 0 && s.ticks == 0 && s.procs[1].state == Ready
    requires forall i :: 1 < i < MAX_PROCESSES ==> s.procs[i].state == Unused
    ensures var p := s.procs[0];
            Sleep(s, 0) == Sys(s.procs[0 := Proc(p.pid, p.ppid, Blocked, p.exitCode, 0)]
                                      [1 := SetState(s.procs[1], Running)], 1, 0, s.interval)
  {
    var t := Sleeping(s, 0);
    assert Slot(0, 0) == 1 && Wakeups(t.procs, 0) == t.procs;
  }

  lemma SecondSlot(s: Sys)
    requires Shaped(s) && s.procs[0].state != Unused && s.procs[1].state == Unused
    ensures FirstUnused(s.procs) == 1
  {
    assert FirstUnused(s.procs, 1) == 1;
  }

  /** Without the hand-over the law fails, in a state that is reached: process 1 exits while only it could
      run, keeps the processor as a zombie, and its next sleep turns the zombie back into a sleeper. */
  lemma ZombieRevived()
    ensures
      var s := Alone(Proc(1, 0, Running, 0, 0));
      && s == Run(Initial(10), [DoCreate, DoSchedule, DoCreate, DoSleep(0)])
      && Inv(s) && CanExit(s) && !OtherReady(s) && s.current == 1
      && Exit(s, 3).procs[1].state == Zombie
      && Sleep(Exit(s, 3), 5).procs[1].state == Blocked
  {
    AloneIsReachable();
    AloneFacts();
    AloneExits();
    AloneSleeps();
  }

  lemma AloneFacts()
    ensures var s := Alone(Proc(1, 0, Running, 0, 0));
            Inv(s) && CanExit(s) && !OtherReady(s)
  {
  }

  /** Whatever happens, short of being reaped, `z` keeps its slot. */
  ghost predicate Lasting(s: Sys, z: int)
    requires Shaped(s) && 0 <= z < MAX_PROCESSES
  {
    forall steps :: NeverReaped(s, steps, z) ==> Run(s, steps).procs[z] == s.procs[z]
  }

  lemma OffCpuIsLasting(s: Sys, z: int)
    requires Inv(s) && 0 <= z < MAX_PROCESSES && z != s.current && s.procs[z].state == Zombie
    ensures Lasting(s, z)
  {
    forall steps | NeverReaped(s, steps, z)
      ensures Run(s, steps).procs[z] == s.procs[z]
    {
      ZombieUntilReaped(s, steps, z);
    }
  }

  lemma CurrentIsNotLasting(s: Sys)
    requires Shaped(s) && s.current >= 0 && s.procs[s.current].state == Zombie
    ensures !Lasting(s, s.current)
  {
    var step := DoSleep(0);
    SleepingIsNoZombie(s, 0);
    OneStep(s, step, s.current);
    assert !Reaps(s, step, s.current);
    assert Run(s, [step]).procs[s.current].state != Zombie;
  }

  lemma OneStep(s: Sys, step: Step, z: int)
    requires Shaped(s)
    ensures Run(s, [step]) == Next(s, step)
    ensures NeverReaped(s, [step], z) <==> !Reaps(s, step, z)
  {
    assert [step][1..] == [];
    assert NeverReaped(Next(s, step), [], z);
  }

  /** The law of zombies: what an exit leaves in its slot survives every run in which it is not reaped,
      if and only if another process was ready, or due to be woken, when it exited. */
  lemma ZombieLaw(s: Sys, code: int)
    requires Inv(s) && CanExit(s)
    ensures Lasting(Exit(s, code), s.current) <==> OtherReady(s)
  {
    var t := Exit(s, code);
    ExitHandsOver(s, code);
    NextKeepsInv(s, DoExit(code));
    if OtherReady(s) {
      OffCpuIsLasting(t, s.current);
    } else {
      CurrentIsNotLasting(t);
    }
  }

  lemma {:induction false} NoneReady(procs: seq<Proc>, start: nat, i: nat)
    requires |procs| == MAX_PROCESSES && i <= MAX_PROCESSES
    requires forall j :: 0 <= j < MAX_PROCESSES ==> procs[j].state != Ready
    ensures NextReady(procs, start, i) == -1
    decreases MAX_PROCESSES - i
  {
    if i < MAX_PROCESSES { NoneReady(procs, start, i + 1); }
  }

  // ---- Bounded waiting ----

  /** How many slots the search passes before it looks at `p`. */
  function Distance(start: nat, p: nat): (d: nat)
    requires start < MAX_PROCESSES && p < MAX_PROCESSES
    ensures d < MAX_PROCESSES
  {
    (p + 63 - start) % 64
  }

  lemma SlotAtDistance(start: nat, p: nat)
    requires start < MAX_PROCESSES && p < MAX_PROCESSES
    ensures Slot(start, Distance(start, p)) == p
    ensures Distance(start, p) == 63 <==> p == start
  {
  }

  /** After moving to the slot at distance `e`, a slot that was at distance `d > e` is nearer. */
  lemma DistanceFalls(start: nat, p: nat, e: nat)
    requires start < MAX_PROCESSES && p < MAX_PROCESSES && e < Distance(start, p)
    ensures Distance(Slot(start, e), p) == Distance(start, p) - e - 1
  {
  }

  lemma {:induction false} FindsBy(procs: seq<Proc>, start: nat, i: nat, d: nat) returns (e: nat)
    requires |procs| == MAX_PROCESSES && i <= d < MAX_PROCESSES && procs[Slot(start, d)].state == Ready
    ensures i <= e <= d && NextReady(procs, start, i) == Slot(start, e)
    decreases d - i
  {
    if procs[Slot(start, i)].state == Ready { e := i; } else { e := FindsBy(procs, start, i + 1, d); }
  }

  function Dist(s: Sys, p: nat): nat
    requires Shaped(s) && p < MAX_PROCESSES
  {
    Distance(Start(s.current), p)
  }

  ghost predicate Waiting(s: Sys, p: nat)
    requires Shaped(s) && p < MAX_PROCESSES
  {
    s.procs[p].state == Ready && s.current != p
  }

  ghost predicate OnCpu(s: Sys, p: nat)
    requires Shaped(s) && p < MAX_PROCESSES
  {
    s.procs[p].state == Running && s.current == p
  }

  /** One scheduler call either runs `p` or brings the search nearer to it. */
  lemma ScheduleProgress(s: Sys, p: nat)
    requires Shaped(s) && p < MAX_PROCESSES && Waiting(s, p)
    ensures
      var r := Schedule(s);
      OnCpu(r, p) || (Waiting(r, p) && Dist(r, p) < Dist(s, p))
  {
    var procs := Wakeups(s.procs, s.ticks);
    var start := Start(s.current);
    SlotAtDistance(start, p);
    var e := FindsBy(procs, start, 0, Dist(s, p));
    var next := Slot(start, e);
    if e < Dist(s, p) { DistanceFalls(start, p, e); }
    NotBackToCurrent(start, p, e);
  }

  lemma NotBackToCurrent(start: nat, p: nat, e: nat)
    requires start < MAX_PROCESSES && p < MAX_PROCESSES && e <= Distance(start, p)
    ensures e < Distance(start, p) ==> Slot(start, e) != start && Slot(start, e) != p
  {
  }

  /** Whether a step enters the scheduler. */
  predicate Schedules(s: Sys, step: Step)
    requires Shaped(s)
  {
    match step
    case DoCreate => false
    case DoFork => false
    case DoExit(_) => CanExit(s)
    case DoSleep(_) => s.current >= 0
    case DoWake(_) => false
    case DoWait => Wait(s).1.Yielded?
    case DoSchedule => true
    case DoTick => TickSchedules(s)
  }

  function SchedulerCalls(s: Sys, steps: seq<Step>): nat
    requires Shaped(s)
    decreases |steps|
  {
    if steps == [] then 0
    else (if Schedules(s, steps[0]) then 1 else 0) + SchedulerCalls(Next(s, steps[0]), steps[1..])
  }

  lemma StepProgress(s: Sys, step: Step, p: nat)
    requires Inv(s) && p < MAX_PROCESSES && Waiting(s, p)
    ensures
      var r := Next(s, step);
      || OnCpu(r, p)
      || (Waiting(r, p) && Dist(r, p) + (if Schedules(s, step) then 1 else 0) <= Dist(s, p))
  {
    match step
    case DoExit(code) => if CanExit(s) { ScheduleProgress(Exiting(s, code), p); }
    case DoSleep(ms) => if s.current >= 0 { ScheduleProgress(Sleeping(s, ms), p); }
    case DoWait => if Wait(s).1.Yielded? { ScheduleProgress(s, p); }
    case DoSchedule => ScheduleProgress(s, p);
    case DoTick => if TickSchedules(s) { ScheduleProgress(Ticked(s), p); }
    case _ =>
  }

  /** Some state of the run has `p` on the processor. */
  ghost predicate GetsCpu(s: Sys, steps: seq<Step>, p: nat)
    requires Shaped(s) && p < MAX_PROCESSES
    decreases |steps|
  {
    OnCpu(s, p) || (steps != [] && GetsCpu(Next(s, steps[0]), steps[1..], p))
  }

  /** Bounded waiting: whatever the steps of a run, a READY process that is not current has been RUNNING
      by the time the scheduler has been called more often than its cyclic distance, hence within
      MAX_PROCESSES calls. */
  lemma {:induction false} BoundedWaiting(s: Sys, steps: seq<Step>, p: nat)
    requires Inv(s) && p < MAX_PROCESSES && Waiting(s, p)
    ensures SchedulerCalls(s, steps) > Dist(s, p) ==> GetsCpu(s, steps, p)
    ensures SchedulerCalls(s, steps) >= MAX_PROCESSES ==> GetsCpu(s, steps, p)
    decreases |steps|
  {
    if steps != [] {
      StepProgress(s, steps[0], p);
      NextKeepsInv(s, steps[0]);
      if Waiting(Next(s, steps[0]), p) { BoundedWaiting(Next(s, steps[0]), steps[1..], p); }
    }
  }

  // ---- Sleepers ----

  ghost predicate Asleep(s: Sys, p: nat, w: nat)
    requires Shaped(s) && p < MAX_PROCESSES
  {
    s.procs[p].state == Blocked && s.procs[p].wakeTime == w && s.current != p
  }

  /** The scheduler leaves a sleeper alone before its time and wakes it from then on. */
  lemma ScheduleSleeper(s: Sys, p: nat, w: nat)
    requires Shaped(s) && p < MAX_PROCESSES && Asleep(s, p, w) && w > 0
    ensures s.ticks < w ==> Asleep(Schedule(s), p, w)
    ensures s.ticks >= w ==> OnCpu(Schedule(s), p) || Waiting(Schedule(s), p)
  {
  }

  /** One step of a sleeper that nobody wakes by hand. */
  lemma SleeperStep(s: Sys, step: Step, p: nat, w: nat)
    requires Inv(s) && p < MAX_PROCESSES && Asleep(s, p, w) && w > 0 && step != DoWake(p)
    ensures
      var r := Next(s, step);
      && (r.ticks < w ==> Asleep(r, p, w))
      && (Schedules(s, step) && r.ticks >= w ==> OnCpu(r, p) || Waiting(r, p))
      && (!Schedules(s, step) ==> Asleep(r, p, w))
  {
    match step
    case DoExit(code) => if CanExit(s) { ScheduleSleeper(Exiting(s, code), p, w); }
    case DoSleep(ms) => if s.current >= 0 { ScheduleSleeper(Sleeping(s, ms), p, w); }
    case DoWait => if Wait(s).1.Yielded? { ScheduleSleeper(s, p, w); }
    case DoSchedule => ScheduleSleeper(s, p, w);
    case DoTick => if TickSchedules(s) { ScheduleSleeper(Ticked(s), p, w); }
    case _ =>
  }

  lemma StepTime(s: Sys, step: Step)
    requires Shaped(s)
    ensures Next(s, step).interval == s.interval
    ensures Next(s, step).ticks == s.ticks + if step == DoTick then 1 else 0
  {
  }

  lemma {:induction false} RunTime(s: Sys, steps: seq<Step>)
    requires Shaped(s)
    ensures Run(s, steps).ticks >= s.ticks
    decreases |steps|
  {
    if steps != [] {
      StepTime(s, steps[0]);
      RunTime(Next(s, steps[0]), steps[1..]);
    }
  }

  /** Never early: in any run without an explicit wake-up, a sleeper is still asleep as long as the tick
      count is below its wake time. */
  lemma {:induction false} NeverEarly(s: Sys, steps: seq<Step>, p: nat, w: nat)
    requires Inv(s) && p < MAX_PROCESSES && Asleep(s, p, w) && w > 0
    requires DoWake(p) !in steps && Run(s, steps).ticks < w
    ensures Asleep(Run(s, steps), p, w)
    decreases |steps|
  {
    if steps != [] {
      SleeperStep(s, steps[0], p, w);
      NextKeepsInv(s, steps[0]);
      RunTime(Next(s, steps[0]), steps[1..]);
      NeverEarly(Next(s, steps[0]), steps[1..], p, w);
    }
  }

  /** The scheduler round, counted from boot, at which a wake time is due. */
  function DueRound(w: nat, interval: nat): nat
    requires interval > 0
  {
    (w + interval - 1) / interval
  }

  lemma RoundAdvances(t: nat, interval: nat)
    requires interval > 0
    ensures (t + 1) / interval == t / interval + if (t + 1) % interval == 0 then 1 else 0
  {
    var q, r := t / interval, t % interval;
    assert t == q * interval + r;
    if r + 1 == interval {
      assert t + 1 == (q + 1) * interval;
      DivUnique(t + 1, interval, q + 1, 0);
    } else {
      DivUnique(t + 1, interval, q, r + 1);
    }
  }

  lemma MulMonotone(a: nat, b: nat, c: nat)
    requires a <= b
    ensures a * c <= b * c
  {
    assert b * c == a * c + (b - a) * c;
  }

  lemma DivUnique(t: nat, interval: nat, q: nat, r: nat)
    requires interval > 0 && t == q * interval + r && r < interval
    ensures t / interval == q && t % interval == r
  {
    var q' := t / interval;
    assert t == q' * interval + t % interval;
    assert (q + 1) * interval == q * interval + interval;
    assert (q' + 1) * interval == q' * interval + interval;
    if q' > q { MulMonotone(q + 1, q', interval); }
    if q' < q { MulMonotone(q' + 1, q, interval); }
  }

  /** A multiple of the interval below the wake time belongs to an earlier round. */
  lemma BeforeDue(t: nat, w: nat, interval: nat)
    requires interval > 0 && t % interval == 0 && t < w
    ensures t / interval < DueRound(w, interval)
  {
    var q, c := t / interval, DueRound(w, interval);
    assert t == q * interval;
    assert w + interval - 1 < c * interval + interval;
    if c <= q { MulMonotone(c, q, interval); }
  }

  /** A sleeper on schedule: asleep before its due round, or waiting with few enough rounds to go. */
  ghost predicate OnTrack(s: Sys, p: nat, w: nat)
    requires Shaped(s) && p < MAX_PROCESSES && s.interval > 0
  {
    || (Asleep(s, p, w) && s.ticks / s.interval < DueRound(w, s.interval))
    || (Waiting(s, p) && s.ticks / s.interval + Dist(s, p) <= DueRound(w, s.interval) + 63)
  }

  lemma OnTrackStep(s: Sys, step: Step, p: nat, w: nat)
    requires Inv(s) && p < MAX_PROCESSES && s.interval > 0 && w > 0 && step != DoWake(p) && OnTrack(s, p, w)
    ensures Next(s, step).interval == s.interval
    ensures OnCpu(Next(s, step), p) || OnTrack(Next(s, step), p, w)
  {
    var r := Next(s, step);
    StepTime(s, step);
    RoundAdvances(s.ticks, s.interval);
    if Waiting(s, p) {
      StepProgress(s, step, p);
    } else {
      AsleepStep(s, step, p, w);
    }
  }

  lemma AsleepStep(s: Sys, step: Step, p: nat, w: nat)
    requires Inv(s) && p < MAX_PROCESSES && s.interval > 0 && w > 0 && step != DoWake(p)
    requires Asleep(s, p, w) && s.ticks / s.interval < DueRound(w, s.interval)
    ensures Next(s, step).interval == s.interval
    ensures OnCpu(Next(s, step), p) || OnTrack(Next(s, step), p, w)
  {
    var r := Next(s, step);
    StepTime(s, step);
    RoundAdvances(s.ticks, s.interval);
    SleeperStep(s, step, p, w);
    if step == DoTick && (s.ticks + 1) % s.interval == 0 && r.ticks < w { BeforeDue(r.ticks, w, s.interval); }
  }

  /** In timer-driven runs a sleeper nobody wakes by hand is off the sleep queue from the first multiple
      of the interval at or after its wake time, and has been RUNNING within MAX_PROCESSES further
      rounds, whatever other steps come between. */
  lemma {:induction false} SleeperRuns(s: Sys, steps: seq<Step>, p: nat, w: nat)
    requires Inv(s) && p < MAX_PROCESSES && s.interval > 0 && w > 0 && OnTrack(s, p, w)
    requires DoWake(p) !in steps
    ensures
      var r := Run(s, steps);
      && r.interval == s.interval
      && (GetsCpu(s, steps, p) || OnTrack(r, p, w))
      && (r.ticks / s.interval >= DueRound(w, s.interval) ==> GetsCpu(s, steps, p) || Waiting(r, p))
      && (r.ticks / s.interval >= DueRound(w, s.interval) + MAX_PROCESSES ==> GetsCpu(s, steps, p))
    decreases |steps|
  {
    if steps != [] {
      OnTrackStep(s, steps[0], p, w);
      NextKeepsInv(s, steps[0]);
      if OnTrack(Next(s, steps[0]), p, w) {
        SleeperRuns(Next(s, steps[0]), steps[1..], p, w);
      } else {
        RunInterval(Next(s, steps[0]), steps[1..]);
      }
    }
  }

  lemma {:induction false} RunInterval(s: Sys, steps: seq<Step>)
    requires Shaped(s)
    ensures Run(s, steps).interval == s.interval
    decreases |steps|
  {
    if steps != [] {
      StepTime(s, steps[0]);
      RunInterval(Next(s, steps[0]), steps[1..]);
    }
  }

  /** A process that goes to sleep while another is ready starts out on schedule. */
  lemma SleepStartsOnTrack(s: Sys, ms: nat)
    requires Inv(s) && s.current >= 0 && s.interval > 0 && 0 < ms && s.ticks + ms < WORD
    requires OtherReady(s)
    ensures Asleep(Sleep(s, ms), s.current, s.ticks + ms)
    ensures OnTrack(Sleep(s, ms), s.current, s.ticks + ms)
  {
    SleepHandsOver(s, ms);
    BeforeDueAnytime(s.ticks, s.ticks + ms, s.interval);
    SleepSpares(s, ms);
  }

  /** A sleep gives up the processor if and only if some other process is READY once sleepers that are due
      have been woken. */
  lemma SleepHandsOver(s: Sys, ms: nat)
    requires Inv(s) && s.current >= 0 && 0 < ms && s.ticks + ms < WORD
    ensures Sleep(s, ms).current != s.current <==> OtherReady(s)
  {
    var t := Sleeping(s, ms);
    assert t.procs[s.current].wakeTime == s.ticks + ms;
    HandsOver(s, t);
  }

  lemma SleepSpares(s: Sys, ms: nat)
    requires Shaped(s) && s.current >= 0 && 0 < ms && s.ticks + ms < WORD
    requires Sleep(s, ms).current != s.current
    ensures Asleep(Sleep(s, ms), s.current, s.ticks + ms)
    ensures Sleep(s, ms).ticks == s.ticks && Sleep(s, ms).interval == s.interval
  {
    assert (s.ticks + ms) % WORD == s.ticks + ms;
    ScheduleSpares(Sleeping(s, ms), s.current, s.ticks + ms);
  }

  lemma BeforeDueAnytime(t: nat, w: nat, interval: nat)
    requires interval > 0 && t < w
    ensures t / interval < DueRound(w, interval)
  {
    var q := t / interval;
    assert q * interval <= t;
    DivUnique(q * interval, interval, q, 0);
    assert q * interval % interval == 0;
    BeforeDue(q * interval, w, interval);
  }

  lemma ScheduleSpares(s: Sys, p: int, w: nat)
    requires Shaped(s) && 0 <= p < MAX_PROCESSES && Schedule(s).current != p
    requires s.procs[p].state == Blocked && s.ticks < s.procs[p].wakeTime == w
    ensures Asleep(Schedule(s), p, w)
    ensures Schedule(s).ticks == s.ticks && Schedule(s).interval == s.interval
  {
  }
}
