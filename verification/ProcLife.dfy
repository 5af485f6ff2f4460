/** What each critical section does to one process of the table, and what that makes of its life in a run. */
module ProcLife {
  import opened Params
  import opened Sequences
  import opened Proc
  import opened ProcMachine

  // ------------------------------------------------------------ one step, one process

  /** The step takes p, which sleeps, out of its sleep: by a wakeup of what it sleeps on, by killing it or,
      if it sleeps in wait, by the exit of a child; for init also by an exit that leaves it a zombie. */
  ghost predicate Wakes(s: System, a: Action, p: nat)
    requires p < NPROC && Enabled(s, a)
  {
    || a == Kill(p)
    || (a.Wakeup? && s.t[p].chan == OtherChan(a.id))
    || (a.Exit? && s.t[p].chan == ProcChan(p)
        && (s.t[s.cpus[a.c]].parent == p
            || (p == s.init && exists z :: 0 <= z < NPROC && s.t[z].parent == s.cpus[a.c] && s.t[z].state.Zombie?)))
  }

  /** The step is a turn of wait by process p. */
  ghost predicate Waits(s: System, a: Action, p: nat)
    requires p < NPROC && Enabled(s, a)
  {
    (a.Wait? && s.cpus[a.c] == p) || (a.Schedule? && a.p == p && s.t[p].chan == ProcChan(p))
  }

  ghost predicate Reaps(s: System, a: Action, p: nat)
    requires p < NPROC && Enabled(s, a)
  {
    (a.Wait? || (a.Schedule? && s.t[a.p].chan == ProcChan(a.p))) && a.scan == Child(p)
  }

  /** p runs, or is given the CPU, and the step makes it give the CPU up. */
  ghost predicate Stops(s: System, a: Action, p: nat)
    requires p < NPROC && Enabled(s, a)
  {
    ((a.Exit? || a.Sleep? || a.Yield?) && s.cpus[a.c] == p) || (Waits(s, a, p) && a.scan.MustSleep?)
  }

  /** The state a process goes to: the edges of its life cycle, each with its one cause. */
  ghost function NextState(s: System, a: Action, p: nat): State
    requires p < NPROC && Enabled(s, a)
  {
    match s.t[p].state
    case Unused => if a.Alloc? && a.e == p then Embryo else Unused
    case Embryo =>
      if a.ForkRun? && s.fork[s.cpus[a.c]].e == p then Runnable
      else if a.ForkFail? && s.fork[s.cpus[a.c]].e == p then Unused
      else Embryo
    case Sleeping => if Wakes(s, a, p) then Runnable else Sleeping
    case Runnable =>
      if !(a.Schedule? && a.p == p) then Runnable else if Stops(s, a, p) then Sleeping else Running
    case Running =>
      if !Stops(s, a, p) then Running else if a.Exit? then Zombie else if a.Yield? then Runnable else Sleeping
    case Zombie => if Reaps(s, a, p) then Unused else Zombie
  }

  lemma {:induction false} ZombieChildSame(t: Table, t1: Table, x: nat)
    requires x < NPROC
    requires forall q :: 0 <= q < NPROC ==> t1[q].parent == t[q].parent && t1[q].state.Zombie? == t[q].state.Zombie?
    ensures HasZombieChild(t1, x) == HasZombieChild(t, x)
  {
  }

  /** exit, slot by slot: who is woken, and that nobody else changes state. */
  lemma {:induction false} ExitedWakes(s: System, a: Action, p: nat)
    requires Inv(s) && Enabled(s, a) && a.Exit? && p < NPROC && p != s.cpus[a.c]
    ensures var e := Exited(s.t, s.cpus[a.c], s.init)[p];
            && e.state == (if s.t[p].state.Sleeping? && Wakes(s, a, p) then Runnable else s.t[p].state)
            && e.chan == s.t[p].chan && e.pid == s.t[p].pid && e.prio == s.t[p].prio && e.killed == s.t[p].killed
  {
    hide Wake, Adopted, Forks, Cpus, Pids;
    var x := s.cpus[a.c];
    RunningActor(s, a.c);
    var t1 := Wake(s.t, SlotChan(s.t[x].parent));
    ZombieChildSame(s.t, t1, x);
  }

  lemma {:induction false} ForkedEmbryo(s: System, c: nat)
    requires Inv(s) && Forking(s, c)
    ensures s.t[s.fork[s.cpus[c]].e].state.Embryo?
  {
    assert ForkOk(s.t, s.fork, s.cpus[c]);
  }

  lemma {:induction false} ExitState(s: System, a: Action, p: nat)
    requires Inv(s) && Enabled(s, a) && p < NPROC && a.Exit?
    ensures Do(s, a).t[p].state == NextState(s, a, p)
  {
    hide Inv, Exited, Wakes;
    RunningActor(s, a.c);
    if p == s.cpus[a.c] {
      ExitedRunning(s, p);
    } else {
      ExitedWakes(s, a, p);
    }
  }

  lemma {:induction false} WaitOnState(s: System, t: Table, c: nat, q: nat, scan: Scan, sameTick: bool, p: nat)
    requires c < |s.cpus| && q < NPROC && p < NPROC && IsScan(t, q, scan)
    ensures WaitOn(s, t, c, q, scan, sameTick).t[p].state ==
            if scan.MustSleep? && p == q then Sleeping else if scan == Child(p) then Unused else t[p].state
    ensures scan == Child(p) ==> t[p].state.Zombie?
  {
    hide HasZombieChild;
  }

  lemma {:induction false} ScheduleState(s: System, a: Action, p: nat)
    requires Inv(s) && Enabled(s, a) && p < NPROC && a.Schedule?
    ensures Do(s, a).t[p].state == NextState(s, a, p)
  {
    hide Inv, Choose, SomeRunnable, IsScan, WaitOn;
    ChoiceIsLeast(s.t, a.ticks);
    if s.t[a.p].chan == ProcChan(a.p) {
      var r := s.(t := Started(s.t, a.p), cpus := s.cpus[a.c := a.p]);
      WaitOnState(r, r.t, a.c, a.p, a.scan, a.sameTick, p);
    }
  }

  lemma {:induction false} WaitState(s: System, a: Action, p: nat)
    requires Inv(s) && Enabled(s, a) && p < NPROC && a.Wait?
    ensures Do(s, a).t[p].state == NextState(s, a, p)
  {
    hide Inv, IsScan, WaitOn;
    RunningActor(s, a.c);
    WaitOnState(s, s.t, a.c, s.cpus[a.c], a.scan, a.sameTick, p);
  }

  lemma {:induction false} ForkState(s: System, a: Action, p: nat)
    requires Inv(s) && Enabled(s, a) && p < NPROC && (a.ForkFail? || a.ForkLink? || a.ForkRun?)
    ensures Do(s, a).t[p].state == NextState(s, a, p)
  {
    hide Inv;
    ForkedEmbryo(s, a.c);
  }

  /** The life cycle: after each step every slot is in the state that its one cause gives, and otherwise in the
      state it was in. */
  lemma {:induction false} LifeCycle(s: System, a: Action, p: nat)
    requires Inv(s) && Enabled(s, a) && p < NPROC
    ensures Do(s, a).t[p].state == NextState(s, a, p)
  {
    hide Inv, Exited, Wake, Choose, IsScan, SomeRunnable;
    match a
    case ForkFail(_) => ForkState(s, a, p);
    case ForkLink(_) => ForkState(s, a, p);
    case ForkRun(_) => ForkState(s, a, p);
    case Exit(_, _) => ExitState(s, a, p);
    case Schedule(_, _, _, _, _) => ScheduleState(s, a, p);
    case Wait(_, _, _) => WaitState(s, a, p);
    case Sleep(c, _, _) => RunningActor(s, c);
    case Yield(c, _) => RunningActor(s, c);
    case _ =>
  }

  lemma {:induction false} ExitedSelf(t: Table, p: nat, init: nat)
    requires p < NPROC && t[p].state.Running?
    ensures var e := Exited(t, p, init)[p]; e.killed == t[p].killed && e.prio == t[p].prio && e.chan == t[p].chan
  {
    hide Wake, Adopted;
  }

  /** A process keeps its kill until it is reaped. */
  lemma {:induction false} KillStays(s: System, a: Action, p: nat)
    requires Inv(s) && Enabled(s, a) && p < NPROC
    ensures Do(s, a).t[p].killed <==> (s.t[p].killed || a == Kill(p)) && !Reaps(s, a, p)
  {
    hide Inv, Exited, Wake, Choose, SomeRunnable, HasZombieChild;
    match a
    case Exit(c, _) =>
      RunningActor(s, c);
      if p == s.cpus[c] {
        ExitedSelf(s.t, p, s.init);
      } else {
        ExitedWakes(s, a, p);
      }
    case _ =>
  }

  // ------------------------------------------------------------ sleep, over whole runs

  ghost predicate AsleepOn(t: Table, p: nat, ch: Chan)
    requires p < NPROC
  {
    t[p].state.Sleeping? && t[p].chan == ch
  }

  /** Whoever sleeps keeps its channel. */
  lemma {:induction false} SleepStep(s: System, a: Action, p: nat, ch: Chan)
    requires Inv(s) && p < NPROC && AsleepOn(s.t, p, ch)
    ensures Enabled(s, a) && Wakes(s, a, p) ==> Step(s, a).t[p].state.Runnable?
    ensures !(Enabled(s, a) && Wakes(s, a, p)) ==> AsleepOn(Step(s, a).t, p, ch)
  {
    hide Family, Channels, Forks, Cpus, Pids, Exited, Wake, Choose, Wakes;
    if Enabled(s, a) {
      LifeCycle(s, a, p);
      match a
      case ForkFail(c) => ForkedEmbryo(s, c);
      case ForkLink(c) => ForkedEmbryo(s, c);
      case ForkRun(c) => ForkedEmbryo(s, c);
      case Exit(c, _) =>
        RunningActor(s, c);
        ExitedWakes(s, a, p);
      case Schedule(_, ticks, _, _, _) => ChoiceIsLeast(s.t, ticks);
      case Wait(c, _, _) => RunningActor(s, c);
      case Sleep(c, _, _) => RunningActor(s, c);
      case Yield(c, _) => RunningActor(s, c);
      case _ =>
    }
  }

  /** sleep sleeps on the address it is given, and wait on the process that waits. */
  lemma {:induction false} FallsAsleep(s: System, a: Action, p: nat)
    requires Inv(s) && Enabled(s, a) && p < NPROC && Stops(s, a, p) && !a.Exit? && !a.Yield?
    ensures AsleepOn(Do(s, a).t, p, if a.Sleep? then OtherChan(a.id) else ProcChan(p))
  {
    hide Inv, Choose, SomeRunnable, IsScan;
  }

  /** Step i of the run wakes p. */
  ghost predicate WokenAt(s: System, actions: seq<Action>, p: nat, i: nat)
    requires Inv(s) && p < NPROC && i < |actions|
  {
    var r := Run(s, actions[..i]);
    Enabled(r, actions[i]) && Wakes(r, actions[i], p)
  }

  lemma {:induction false} RunNext(s: System, actions: seq<Action>, n: nat)
    requires Inv(s) && n < |actions|
    ensures Run(s, actions[..n + 1]) == Step(Run(s, actions[..n]), actions[n])
  {
    hide Inv, Step;
    assert actions[..n + 1][..n] == actions[..n];
  }

  /** Sleep ends exactly by being woken: in every run, however the others interleave, a sleeper sleeps on the
      same channel until the first step that wakes it, and that step makes it runnable. */
  lemma {:induction false} SleepsUntilWoken(s: System, actions: seq<Action>, p: nat, ch: Chan, n: nat)
    requires Inv(s) && p < NPROC && AsleepOn(s.t, p, ch) && n <= |actions|
    requires forall i :: 0 <= i < n ==> !WokenAt(s, actions, p, i)
    ensures AsleepOn(Run(s, actions[..n]).t, p, ch)
    ensures n < |actions| && WokenAt(s, actions, p, n) ==> Run(s, actions[..n + 1]).t[p].state.Runnable?
    decreases n
  {
    hide Inv, Step, Wakes, Enabled;
    if n > 0 {
      SleepsUntilWoken(s, actions, p, ch, n - 1);
      RunNext(s, actions, n - 1);
      SleepStep(Run(s, actions[..n - 1]), actions[n - 1], p, ch);
      assert !WokenAt(s, actions, p, n - 1);
    } else {
      assert actions[..0] == [];
    }
    if n < |actions| {
      RunNext(s, actions, n);
      SleepStep(Run(s, actions[..n]), actions[n], p, ch);
    }
  }

  /** So a process asleep on an address other than a process leaves its sleep by the first wakeup of that address
      or kill of the process, and by nothing else. */
  lemma {:induction false} SleepsUntilWakeup(s: System, actions: seq<Action>, p: nat, id: nat, n: nat)
    requires Inv(s) && p < NPROC && AsleepOn(s.t, p, OtherChan(id)) && n <= |actions|
    requires forall i :: 0 <= i < n ==> actions[i] != Wakeup(id) && actions[i] != Kill(p)
    ensures AsleepOn(Run(s, actions[..n]).t, p, OtherChan(id))
    ensures n < |actions| && (actions[n] == Wakeup(id) || actions[n] == Kill(p)) ==>
              Run(s, actions[..n + 1]).t[p].state.Runnable?
    decreases n
  {
    hide Inv, Step;
    if n > 0 {
      SleepsUntilWakeup(s, actions, p, id, n - 1);
      RunNext(s, actions, n - 1);
      SleepStep(Run(s, actions[..n - 1]), actions[n - 1], p, OtherChan(id));
    } else {
      assert actions[..0] == [];
    }
    if n < |actions| {
      RunNext(s, actions, n);
      SleepStep(Run(s, actions[..n]), actions[n], p, OtherChan(id));
    }
  }

  // ------------------------------------------------------------ priorities, over whole runs

  /** A step changes a priority only when the process is made or reaped, by sp, or when the process gives up the
      CPU: down by one in the tick in which it was started, otherwise up by one, within 0 and 10. */
  ghost predicate PriorityAfter(s: System, a: Action, p: nat, x: Word)
    requires p < NPROC && Enabled(s, a)
  {
    var prio := s.t[p].prio;
    if Reaps(s, a, p) then x == 0
    else if a.Alloc? && a.e == p then 1 <= x <= MAXPRIO && (x - 1 - a.second) % MAXPRIO == 0
    else if a.SetPrio? && a.p == p then x == a.prio
    else if !Stops(s, a, p) then x == prio
    else if a.sameTick then x == Max(0, prio - 1)
    else x == if prio > MAXPRIO then prio else Min(MAXPRIO, prio + 1)
  }

  lemma {:induction false} PriorityWait(s: System, a: Action, p: nat)
    requires Inv(s) && Enabled(s, a) && p < NPROC && (a.Wait? || a.Schedule?)
    ensures PriorityAfter(s, a, p, Do(s, a).t[p].prio)
  {
    hide Inv, Choose, SomeRunnable, HasZombieChild;
  }

  lemma {:induction false} PriorityExit(s: System, a: Action, p: nat)
    requires Inv(s) && Enabled(s, a) && p < NPROC && a.Exit?
    ensures PriorityAfter(s, a, p, Do(s, a).t[p].prio)
  {
    hide Inv, Exited;
    RunningActor(s, a.c);
    if p == s.cpus[a.c] {
      ExitedSelf(s.t, p, s.init);
    } else {
      ExitedWakes(s, a, p);
    }
  }

  lemma {:induction false} PriorityStep(s: System, a: Action, p: nat)
    requires Inv(s) && Enabled(s, a) && p < NPROC
    ensures PriorityAfter(s, a, p, Do(s, a).t[p].prio)
  {
    hide Inv, Exited, Wake, Choose, SomeRunnable, IsScan;
    if a.Wait? || a.Schedule? {
      PriorityWait(s, a, p);
    } else if a.Exit? {
      PriorityExit(s, a, p);
    }
  }

  /** p gives up the CPU in a step, in the tick in which it was started or not. */
  ghost predicate StopsIn(s: System, a: Action, p: nat, same: bool)
    requires p < NPROC
  {
    Enabled(s, a) && Stops(s, a, p) && a.sameTick == same
  }

  /** How often p gives up the CPU in a run. */
  ghost function StopCount(s: System, actions: seq<Action>, p: nat, same: bool): nat
    requires Inv(s) && p < NPROC
  {
    if actions == [] then 0
    else
      var front, a := actions[..|actions|-1], actions[|actions|-1];
      StopCount(s, front, p, same) + if StopsIn(Run(s, front), a, p, same) then 1 else 0
  }

  /** In this step p is not made, reaped or given a priority by sp, and every stop of p is of the one kind. */
  ghost predicate Drifts(s: System, a: Action, p: nat, same: bool)
    requires p < NPROC
  {
    Enabled(s, a) ==>
      && !Reaps(s, a, p) && !(a.Alloc? && a.e == p) && !(a.SetPrio? && a.p == p)
      && (Stops(s, a, p) ==> a.sameTick == same)
  }

  /** A priority after k stops of one kind. */
  function Drifted(prio: int, k: nat, same: bool): int {
    if same then Max(0, prio - k) else Min(MAXPRIO, prio + k)
  }

  lemma {:induction false} DriftMore(prio: nat, k: nat, j: nat, same: bool)
    requires prio <= MAXPRIO
    ensures Drifted(Drifted(prio, k, same), j, same) == Drifted(prio, k + j, same)
    ensures 0 <= Drifted(prio, k, same) <= MAXPRIO && Drifted(prio, 0, same) == prio
  {
  }

  lemma {:induction false} DriftStep(s: System, a: Action, p: nat, same: bool)
    requires Inv(s) && p < NPROC && s.t[p].prio <= MAXPRIO && Drifts(s, a, p, same)
    ensures var k := if StopsIn(s, a, p, same) then 1 else 0;
            Step(s, a).t[p].prio == Drifted(s.t[p].prio, k, same)
  {
    hide Inv, Do, Enabled, Stops, Reaps;
    if Enabled(s, a) {
      PriorityStep(s, a, p);
    }
  }

  ghost predicate DriftsThrough(s: System, actions: seq<Action>, p: nat, same: bool)
    requires Inv(s) && p < NPROC
  {
    forall i :: 0 <= i < |actions| ==> Drifts(Run(s, actions[..i]), actions[i], p, same)
  }

  lemma {:induction false} DriftsFront(s: System, actions: seq<Action>, p: nat, same: bool)
    requires Inv(s) && p < NPROC && actions != [] && DriftsThrough(s, actions, p, same)
    ensures var front := actions[..|actions|-1];
            DriftsThrough(s, front, p, same) && Drifts(Run(s, front), actions[|actions|-1], p, same)
  {
    hide Inv, Run, Drifts;
    var front := actions[..|actions|-1];
    forall i | 0 <= i < |front| ensures Drifts(Run(s, front[..i]), front[i], p, same) {
      assert front[..i] == actions[..i];
    }
  }

  /** The scheduler favours those who give the CPU up early: a process that always does so within its tick
      rises by one each time, to 0; one that never does sinks by one each time, to 10. */
  lemma {:induction false} PriorityDrifts(s: System, actions: seq<Action>, p: nat, same: bool)
    requires Inv(s) && p < NPROC && s.t[p].prio <= MAXPRIO && DriftsThrough(s, actions, p, same)
    ensures Run(s, actions).t[p].prio == Drifted(s.t[p].prio, StopCount(s, actions, p, same), same)
  {
    hide Inv, Step, Drifts, DriftsThrough, StopsIn, Drifted;
    DriftMore(s.t[p].prio, 0, 0, same);
    if actions != [] {
      var front, a := actions[..|actions|-1], actions[|actions|-1];
      DriftsFront(s, actions, p, same);
      PriorityDrifts(s, front, p, same);
      var k, j := StopCount(s, front, p, same), if StopsIn(Run(s, front), a, p, same) then 1 else 0;
      DriftMore(s.t[p].prio, k, j, same);
      DriftStep(Run(s, front), a, p, same);
    }
  }

  // ------------------------------------------------------------ taking turns

  /** The runnable processes with the priority of p. */
  function Rivals(t: Table, p: nat): set<nat>
    requires p < NPROC
  {
    set q: nat | q < NPROC && t[q].state.Runnable? && t[q].prio == t[p].prio
  }

  lemma {:induction false} Multiples(d: int, n: nat)
    ensures d >= 1 ==> d * n >= n
    ensures d <= -1 ==> d * n + n <= 0
  {
    if d >= 1 {
      assert (d - 1) * n >= 0;
    } else if d <= -1 {
      assert (-d - 1) * n >= 0;
    }
  }

  lemma {:induction false} Remainder(x: nat, q: int, r: nat, n: nat)
    requires r < n && x == q * n + r
    ensures x % n == r
  {
    var d := x / n - q;
    assert d * n == r - x % n;
    Multiples(d, n);
  }

  /** Of n consecutive numbers exactly one has the remainder k. */
  lemma {:induction false} TurnOf(k: nat, start: nat, n: nat) returns (tick: nat)
    requires k < n
    ensures start <= tick < start + n && tick % n == k
    ensures forall j :: start <= j < start + n && j % n == k ==> j == tick
    decreases start
  {
    if start == 0 {
      tick := k;
      forall j | 0 <= j < n ensures j % n == j {
        Remainder(j, 0, j, n);
      }
    } else {
      tick := TurnOf(k, start - 1, n);
      var first := start - 1;
      Remainder(first + n, first / n + 1, first % n, n);
      if tick == first {
        tick := first + n;
      }
    }
  }

  lemma {:induction false} RivalsListed(t: Table, p: nat)
    requires p < NPROC && t[p].state.Runnable? && t[p].prio <= 20
    requires forall q :: 0 <= q < NPROC && t[q].state.Runnable? ==> t[p].prio <= t[q].prio
    ensures var s := Ties(t, Least(t, NPROC), NPROC);
            p in s && |s| == |Rivals(t, p)| && forall i, j :: 0 <= i < j < |s| ==> s[i] != s[j]
  {
    hide Ties;
    var mn := Least(t, NPROC);
    assert mn == t[p].prio;
    var s := Ties(t, mn, NPROC);
    TiesAre(t, mn, NPROC);
    DistinctSize(s);
    assert Members(s) == Rivals(t, p);
  }

  /** Processes of the same least priority take turns: over as many consecutive ticks as there are of them,
      each is chosen in exactly one. */
  lemma {:induction false} TakeTurns(t: Table, start: nat, p: nat) returns (tick: Word)
    requires p < NPROC && t[p].state.Runnable? && t[p].prio <= 20 && |Rivals(t, p)| <= PLIST
    requires forall q :: 0 <= q < NPROC && t[q].state.Runnable? ==> t[p].prio <= t[q].prio
    requires start + |Rivals(t, p)| <= WORD_RANGE
    ensures start <= tick < start + |Rivals(t, p)| && Choose(t, tick, SomeRunnable(t)) == Chosen(p)
    ensures forall j: Word :: start <= j < start + |Rivals(t, p)| && j != tick ==>
              Choose(t, j, SomeRunnable(t)) != Chosen(p)
  {
    hide Ties, Least, Rivals;
    RivalsListed(t, p);
    var s := Ties(t, Least(t, NPROC), NPROC);
    var k := Position(s, p);
    tick := TurnOf(k, start, |s|);
    forall j: Word | start <= j < start + |s| && j != tick ensures Choose(t, j, SomeRunnable(t)) != Chosen(p) {
      assert s[j % |s|] != s[k];
    }
  }
}
