/** Runs from boot in which the scheduler fails: too many processes of one priority for its list, a priority
    above its starting minimum, and a process that never gets the CPU. */
module ProcRuns {
  import opened Params
  import opened Sequences
  import opened Proc
  import opened ProcMachine

  // ------------------------------------------------------------ choosing

  lemma {:induction false} OnlyChoice(t: Table, ticks: Word, p: nat)
    requires p < NPROC && t[p].state.Runnable? && t[p].prio <= 20
    requires forall q :: 0 <= q < NPROC && t[q].state.Runnable? ==> q == p
    ensures Choose(t, ticks, SomeRunnable(t)) == Chosen(p)
  {
    hide Ties, Least;
    var mn := Least(t, NPROC);
    var s := Ties(t, mn, NPROC);
    TiesAre(t, mn, NPROC);
    DistinctSize(s);
    assert Members(s) == {p};
  }

  /** When the slots 1 .. n are runnable with the least priority of all, the list overflows if n exceeds its
      length. */
  lemma {:induction false} TooManyTies(t: Table, ticks: Word, prio: Word, n: nat)
    requires PLIST < n < NPROC && prio <= 20
    requires forall q :: 1 <= q <= n ==> t[q].state.Runnable? && t[q].prio == prio
    requires forall q :: 0 <= q < NPROC && t[q].state.Runnable? ==> t[q].prio >= prio
    ensures Choose(t, ticks, SomeRunnable(t)) == ListOverflow
  {
    hide Ties, Least;
    var mn := Least(t, NPROC);
    assert t[1].state.Runnable? && mn == prio;
    var s := Ties(t, mn, NPROC);
    TiesAre(t, mn, NPROC);
    DistinctSize(s);
    SubsetSize(Interval(1, n + 1), Members(s));
  }

  // ------------------------------------------------------------ forks in one second

  function Prio(second: nat): Word {
    second % 10 + 1
  }

  /** init runs on CPU 0 and has forked n children, all runnable with the priority of the same second. */
  ghost predicate Spawned(s: System, second: nat, n: nat) {
    && n < NPROC && |s.cpus| > 0 && s.cpus[0] == 0 && s.t[0].state.Running? && s.t[0].prio == Prio(second)
    && |s.fork| == NPROC && (forall q :: 0 <= q < NPROC ==> s.fork[q] == NoFork)
    && (forall q :: 1 <= q <= n ==> s.t[q].state.Runnable? && s.t[q].prio == Prio(second))
    && forall q :: n < q < NPROC ==> s.t[q].state.Unused?
  }

  lemma {:induction false} FirstScheduled(ncpu: nat, second: nat, ticks: Word)
    requires ncpu > 0
    ensures Inv(Boot(ncpu, second))
    ensures var s := Boot(ncpu, second);
            var a := Schedule(0, ticks, 0, NoChildren, true);
            Enabled(s, a) && Spawned(Do(s, a), second, 0) && Do(s, a).t == Started(s.t, 0)
  {
    BootOk(ncpu, second);
    hide Inv;
    OnlyChoice(Boot(ncpu, second).t, ticks, 0);
  }

  function ForkActions(e: nat, second: nat): seq<Action> {
    [Alloc(0, e, second), ForkLink(0), ForkRun(0)]
  }

  lemma {:induction false} RunThree(s: System, a: Action, b: Action, c: Action)
    requires Inv(s)
    ensures Run(s, [a, b, c]) == Step(Step(Step(s, a), b), c)
  {
    hide Inv, Step;
    assert [a, b, c][..2] == [a, b] && [a, b][..1] == [a] && [a][..0] == [];
    assert Run(s, [a, b]) == Step(Run(s, [a]), b);
  }

  lemma {:induction false} SpawnOne(s: System, second: nat, n: nat)
    requires Inv(s) && Spawned(s, second, n) && n + 1 < NPROC
    ensures Spawned(Run(s, ForkActions(n + 1, second)), second, n + 1)
  {
    hide Inv;
    var a := ForkActions(n + 1, second);
    RunThree(s, a[0], a[1], a[2]);
    assert Enabled(s, a[0]);
    var s1 := Step(s, a[0]);
    var s2 := Step(s1, a[1]);
    assert s1.fork[0] == Making(n + 1) && s2.fork[0] == Linked(n + 1);
  }

  lemma {:induction false} RunAppend(s: System, a: seq<Action>, b: seq<Action>)
    requires Inv(s)
    ensures Run(s, a + b) == Run(Run(s, a), b)
    decreases |b|
  {
    hide Inv, Step;
    if b == [] {
      assert a + b == a;
    } else {
      assert (a + b)[..|a + b| - 1] == a + b[..|b| - 1];
      RunAppend(s, a, b[..|b| - 1]);
    }
  }

  lemma {:induction false} SpawnMany(s: System, second: nat, n: nat) returns (actions: seq<Action>)
    requires Inv(s) && Spawned(s, second, 0) && n < NPROC
    ensures Spawned(Run(s, actions), second, n) && forall i :: 0 <= i < |actions| ==> !actions[i].SetPrio?
  {
    hide Inv, Spawned, Step;
    if n == 0 {
      return [];
    }
    var front := SpawnMany(s, second, n - 1);
    SpawnOne(Run(s, front), second, n - 1);
    RunAppend(s, front, ForkActions(n, second));
    actions := front + ForkActions(n, second);
  }

  lemma {:induction false} Yielded(s: System, second: nat, ticks: Word, n: nat)
    requires Inv(s) && Spawned(s, second, n) && PLIST < n
    ensures var r := Step(s, Yield(0, false));
            |r.cpus| > 0 && r.cpus[0] == -1 && Choose(r.t, ticks, SomeRunnable(r.t)) == ListOverflow
  {
    hide Inv, Choose;
    TooManyTies(Step(s, Yield(0, false)).t, ticks, Prio(second), n);
  }

  /** From boot, without any call of sp: init forks more than PLIST children within one second and yields in
      a later tick. Then the scheduler of its CPU chooses, and has no room in its list for all of them. */
  lemma {:induction false} ListOverflows(ncpu: nat, second: nat, ticks: Word, n: nat) returns (actions: seq<Action>)
    requires ncpu > 0 && PLIST < n < NPROC
    ensures Inv(Boot(ncpu, second)) && forall i :: 0 <= i < |actions| ==> !actions[i].SetPrio?
    ensures var r := Run(Boot(ncpu, second), actions);
            |r.cpus| > 0 && r.cpus[0] == -1 && Choose(r.t, ticks, SomeRunnable(r.t)) == ListOverflow
  {
    hide Inv, Choose;
    var s := Boot(ncpu, second);
    var first := Schedule(0, ticks, 0, NoChildren, true);
    FirstScheduled(ncpu, second, ticks);
    assert [first][..0] == [];
    assert Run(s, [first]) == Do(s, first);
    var forks := SpawnMany(Run(s, [first]), second, n);
    RunAppend(s, [first], forks);
    var front := [first] + forks;
    actions := front + [Yield(0, false)];
    assert actions[..|front|] == front;
    Yielded(Run(s, front), second, ticks, n);
  }

  // ------------------------------------------------------------ a priority that is too large

  /** From boot, init gives itself priority prio by sp and yields: the scheduler then divides by zero exactly
      when the adjusted priority is above 20, the value its minimum starts from. */
  lemma {:induction false} DividesByZero(ncpu: nat, second: nat, ticks: Word, prio: Word, sameTick: bool)
    requires ncpu > 0
    ensures Inv(Boot(ncpu, second))
    ensures var actions := [Schedule(0, ticks, 0, NoChildren, true), SetPrio(0, prio), Yield(0, sameTick)];
            var t := Run(Boot(ncpu, second), actions).t;
            Choose(t, ticks, SomeRunnable(t)) == DivideFault <==> prio > if sameTick then 21 else 20
  {
    hide Inv, Choose;
    var s := Boot(ncpu, second);
    var a, b, c := Schedule(0, ticks, 0, NoChildren, true), SetPrio(0, prio), Yield(0, sameTick);
    FirstScheduled(ncpu, second, ticks);
    RunThree(s, a, b, c);
    var t := Run(s, [a, b, c]).t;
    assert t[0].state.Runnable? && t[0].prio == Adjusted(s.t[0].(prio := prio), sameTick).prio;
    assert forall q :: 1 <= q < NPROC ==> t[q].state.Unused?;
    ChoiceIsLeast(t, ticks);
  }

  // ------------------------------------------------------------ starvation

  /** init runs on CPU 0 with at least the priority of its one child, which waits to run. */
  ghost predicate Ahead(s: System) {
    && |s.cpus| > 0 && s.cpus[0] == 0 && s.t[0].state.Running?
    && s.t[1].state.Runnable? && s.t[0].prio <= s.t[1].prio && 1 <= s.t[1].prio <= MAXPRIO
    && forall q :: 2 <= q < NPROC ==> s.t[q].state.Unused?
  }

  lemma {:induction false} LeastAlone(t: Table, ticks: Word)
    requires t[0].state.Runnable? && t[0].prio <= 20 && t[1].state.Runnable? && t[0].prio < t[1].prio
    requires forall q :: 2 <= q < NPROC ==> t[q].state.Unused?
    ensures Choose(t, ticks, SomeRunnable(t)) == Chosen(0)
  {
    hide Ties, Least;
    var mn := Least(t, NPROC);
    var s := Ties(t, mn, NPROC);
    TiesAre(t, mn, NPROC);
    DistinctSize(s);
    assert t[0].state.Runnable? && mn == t[0].prio;
    assert Members(s) == {0};
  }

  lemma {:induction false} RunningChannel(s: System, p: nat)
    requires Inv(s) && p < NPROC && s.t[p].state.Running?
    ensures s.t[p].chan == NoChan
  {
  }

  /** init yields in the tick in which it was started and is chosen again. */
  lemma {:induction false} ChosenAgain(s: System, ticks: Word)
    requires Inv(s) && Ahead(s)
    ensures var a, b := Yield(0, true), Schedule(0, ticks, 0, NoChildren, true);
            && Enabled(s, a) && Enabled(Step(s, a), b)
            && Ahead(Step(Step(s, a), b)) && Step(Step(s, a), b).t[1] == s.t[1]
  {
    hide Inv, Choose;
    RunningChannel(s, 0);
    LeastAlone(Step(s, Yield(0, true)).t, ticks);
  }

  /** n times: init yields and the scheduler of its CPU runs. */
  function Rounds(ticks: nat -> Word, n: nat): seq<Action> {
    if n == 0 then []
    else Rounds(ticks, n - 1) + [Yield(0, true), Schedule(0, ticks(n - 1), 0, NoChildren, true)]
  }

  lemma {:induction false} RunTwo(s: System, a: Action, b: Action)
    requires Inv(s)
    ensures Run(s, [a, b]) == Step(Step(s, a), b)
  {
    hide Inv, Step;
    assert [a, b][..1] == [a] && [a][..0] == [];
    assert Run(s, [a]) == Step(s, a);
  }

  lemma {:induction false} StaysAhead(s: System, ticks: nat -> Word, n: nat)
    requires Inv(s) && Ahead(s)
    ensures var r := Run(s, Rounds(ticks, n)); Ahead(r) && r.t[1] == s.t[1]
  {
    hide Inv, Ahead, Step, Enabled;
    if n > 0 {
      var a, b := Yield(0, true), Schedule(0, ticks(n - 1), 0, NoChildren, true);
      StaysAhead(s, ticks, n - 1);
      RunAppend(s, Rounds(ticks, n - 1), [a, b]);
      RunTwo(Run(s, Rounds(ticks, n - 1)), a, b);
      ChosenAgain(Run(s, Rounds(ticks, n - 1)), ticks(n - 1));
    }
  }

  /** No aging: from boot there is a run after which, however often the scheduler then runs, a process that is
      runnable all the time is not chosen, since another one gives the CPU up within its tick each time. */
  lemma {:induction false} Starves(second: nat, ticks: nat -> Word, n: nat) returns (actions: seq<Action>)
    ensures Inv(Boot(1, second))
    ensures var s := Run(Boot(1, second), actions);
            var r := Run(s, Rounds(ticks, n));
            && s.t[1].state.Runnable? && r.t[1] == s.t[1]
            && Enabled(r, Yield(0, true))
            && Enabled(Step(r, Yield(0, true)), Schedule(0, ticks(n), 0, NoChildren, true))
  {
    hide Inv, Choose;
    var s := Boot(1, second);
    var first := Schedule(0, ticks(0), 0, NoChildren, true);
    FirstScheduled(1, second, ticks(0));
    assert [first][..0] == [];
    assert Run(s, [first]) == Do(s, first);
    SpawnOne(Run(s, [first]), second, 0);
    RunAppend(s, [first], ForkActions(1, second));
    actions := [first] + ForkActions(1, second);
    var r := Run(s, actions);
    assert Ahead(r);
    StaysAhead(r, ticks, n);
    ChosenAgain(Run(r, Rounds(ticks, n)), ticks(n));
  }
}
