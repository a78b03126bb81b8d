/** The process table as the kernel keeps it: an array of slots changed in place. */
module ProcessTable {
  import opened Processes
  import P = Processes

  class Table {
    const procs: array<Proc>
    var current: int
    var ticks: nat
    var interval: nat

    ghost predicate Valid()
      reads this, procs
    {
      procs.Length == MAX_PROCESSES && -1 <= current < MAX_PROCESSES
    }

    ghost function State(): Sys
      reads this, procs
    {
      Sys(procs[..], current, ticks, interval)
    }

    /** process_init. */
    constructor (interval: nat)
      ensures Valid() && fresh(procs) && State() == Initial(interval)
    {
      var a := new Proc[MAX_PROCESSES](_ => Proc(-1, 0, Unused, 0, 0));
      procs := a;
      current, ticks := -1, 0;
      this.interval := interval;
    }

    /** The wake-up loop of the scheduler. */
    method WakeSleepers()
      requires Valid()
      modifies procs
      ensures procs[..] == Wakeups(old(procs[..]), ticks)
    {
      for i := 0 to MAX_PROCESSES
        invariant forall j :: 0 <= j < i ==> procs[j] == WakeOne(old(procs[j]), ticks)
        invariant forall j :: i <= j < MAX_PROCESSES ==> procs[j] == old(procs[j])
      {
        if procs[i].state == Blocked && procs[i].wakeTime > 0 && ticks >= procs[i].wakeTime {
          procs[i] := Proc(procs[i].pid, procs[i].ppid, Ready, procs[i].exitCode, 0);
        }
      }
    }

    /** The search loop of the scheduler. */
    method FindNext(start: nat) returns (next: int)
      requires Valid() && start < MAX_PROCESSES
      ensures next == NextReady(procs[..], start)
    {
      for i := 0 to MAX_PROCESSES
        invariant NextReady(procs[..], start) == NextReady(procs[..], start, i)
      {
        var idx := (start + 1 + i) % MAX_PROCESSES;
        if procs[idx].state == Ready { return idx; }
      }
      return -1;
    }

    method Scheduler()
      requires Valid()
      modifies this`current, procs
      ensures Valid() && State() == Schedule(old(State()))
    {
      var start := if current < 0 then 0 else current;
      WakeSleepers();
      var next := FindNext(start);
      if next < 0 { return; }
      if next == current { return; }
      if current >= 0 && procs[current].state == Running {
        procs[current] := SetState(procs[current], Ready);
      }
      current := next;
      procs[current] := SetState(procs[current], Running);
    }

    method FindUnused() returns (pid: int)
      requires Valid()
      ensures pid == FirstUnused(procs[..])
    {
      for i := 0 to MAX_PROCESSES
        invariant FirstUnused(procs[..]) == FirstUnused(procs[..], i)
      {
        if procs[i].state == Unused { return i; }
      }
      return -1;
    }

    method Create() returns (pid: int)
      requires Valid()
      modifies procs
      ensures Valid() && pid == FirstUnused(old(procs[..])) && State() == P.Create(old(State()))
    {
      pid := FindUnused();
      if pid < 0 { return -1; }
      procs[pid] := Proc(pid, current, Ready, 0, 0);
    }

    method Fork() returns (pid: int)
      requires Valid()
      modifies procs
      ensures Valid() && State() == P.Fork(old(State()))
      ensures pid == if current < 0 then -1 else FirstUnused(old(procs[..]))
    {
      if current < 0 { return -1; }
      pid := FindUnused();
      if pid < 0 { return -1; }
      procs[pid] := Proc(pid, current, Ready, 0, procs[current].wakeTime);
    }

    method Exit(code: int)
      requires Valid()
      modifies this`current, procs
      ensures Valid() && State() == P.Exit(old(State()), code)
    {
      if current < 0 { return; }
      if procs[current].pid == 0 { return; }
      var p := procs[current];
      procs[current] := Proc(p.pid, p.ppid, Zombie, code, p.wakeTime);
      Scheduler();
    }

    method Doze(ms: nat)
      requires Valid() && current >= 0
      modifies procs
      ensures Valid() && State() == P.Sleeping(old(State()), ms)
    {
      var p := procs[current];
      procs[current] := Proc(p.pid, p.ppid, Blocked, p.exitCode, (ticks + ms) % WORD);
    }

    method Sleep(ms: nat)
      requires Valid()
      modifies this`current, procs
      ensures Valid() && State() == P.Sleep(old(State()), ms)
    {
      if current < 0 { return; }
      Doze(ms);
      Scheduler();
    }

    method Wake(pid: int)
      requires Valid()
      modifies procs
      ensures Valid() && State() == P.Wake(old(State()), pid)
      // a BLOCKED process becomes READY, with nothing else changed, here or in any other slot
      ensures procs[..] ==
        if 0 <= pid < 64 && old(procs[pid]).state == Blocked
        then old(procs[..])[pid := old(procs[pid]).(state := Ready)] else old(procs[..])
    {
      if pid < 0 || pid >= MAX_PROCESSES { return; }
      if procs[pid].state == Blocked {
        procs[pid] := SetState(procs[pid], Ready);
      }
    }

    /** One pass of the loop of sys_wait. */
    method WaitPass() returns (r: WaitResult)
      requires Valid()
      modifies this`current, procs
      ensures Valid() && State() == P.Wait(old(State())).0 && r == P.Wait(old(State())).1
    {
      if current < 0 { return NoChild; }
      var mypid := procs[current].pid;
      var found := false;
      for i := 0 to MAX_PROCESSES
        invariant procs[..] == old(procs[..])
        invariant ZombieChild(procs[..], mypid) == ZombieChild(procs[..], mypid, i)
        invariant found <==> exists j ::
          0 <= j < i && procs[j].ppid == mypid && procs[j].state != Unused && procs[j].state != Zombie
      {
        if procs[i].ppid == mypid && procs[i].state == Zombie {
          var child := procs[i].pid;
          procs[i] := SetState(procs[i], Unused);
          return Reaped(child);
        }
        if procs[i].ppid == mypid && procs[i].state != Unused && procs[i].state != Zombie { found := true; }
      }
      assert found <==> HasLiveChild(procs[..], mypid);
      if !found { return NoChild; }
      Scheduler();
      return Yielded;
    }

    method TimerTick()
      requires Valid()
      modifies this`current, this`ticks, procs
      ensures Valid() && State() == P.Tick(old(State()))
    {
      hide P.Schedule;
      ticks := ticks + 1;
      if interval > 0 && ticks % interval == 0 { Scheduler(); }
    }
  }
}
