/** Every interleaving of the critical sections of proc.c on any number of CPUs, and what they keep. */
module ProcMachine {
  import opened Params
  import opened Proc

  /** How far a process's fork has come with the slot it allocated. */
  datatype Fork = NoFork | Making(e: nat) | Linked(e: nat)

  /** `cpus[c]` is the slot that CPU c runs, or -1. */
  datatype System = System(t: Table, cpus: seq<int>, nextpid: nat, init: nat, fork: seq<Fork>)

  /** One critical section. `c` is the CPU whose process acts; `sameTick` says whether the process that
      stops running was started in the current tick; scan results are those the code computes. */
  datatype Action =
    | Alloc(c: nat, e: nat, second: nat)
    | ForkFail(c: nat)
    | ForkLink(c: nat)
    | ForkRun(c: nat)
    | Exit(c: nat, sameTick: bool)
    | Wait(c: nat, scan: Scan, sameTick: bool)
    | Sleep(c: nat, id: nat, sameTick: bool)
    | Yield(c: nat, sameTick: bool)
    | Schedule(c: nat, ticks: Word, p: nat, scan: Scan, sameTick: bool)
    | Wakeup(id: nat)
    | Kill(p: nat)
    | SetPrio(p: nat, prio: Word)

  // ------------------------------------------------------------ invariant

  /** Any other process than init that lives or waits to be reaped has a living parent, never itself. */
  ghost predicate ParentOk(t: Table, init: nat, p: nat)
    requires p < NPROC
  {
    && t[p].parent != p
    && (t[p].state.Unused? ==> t[p].parent == -1)
    && (p != init && (Live(t[p]) || t[p].state.Zombie?) ==> 0 <= t[p].parent < NPROC && Live(t[t[p].parent]))
  }

  /** If p is asleep in wait, q is not a zombie child of p. */
  ghost predicate NoMissedExit(t: Table, p: nat, q: nat)
    requires p < NPROC && q < NPROC
  {
    t[p].state.Sleeping? && t[p].chan == ProcChan(p) && t[q].parent == p ==> !t[q].state.Zombie?
  }

  ghost predicate Family(t: Table, init: nat) {
    && init < NPROC && Live(t[init]) && t[init].parent == -1
    && (forall p :: 0 <= p < NPROC ==> ParentOk(t, init, p))
    && (forall p, q :: 0 <= p < NPROC && 0 <= q < NPROC ==> NoMissedExit(t, p, q))
  }

  /** Only a process that sleeps or has been woken has a channel, and only wait sleeps on a process: on
      the sleeper itself. */
  ghost predicate Channels(t: Table) {
    forall p :: 0 <= p < NPROC ==>
      && (t[p].chan.ProcChan? ==> t[p].chan.slot == p)
      && (t[p].chan != NoChan ==> t[p].state.Sleeping? || t[p].state.Runnable?)
  }

  /** A fork in progress: the forker is awake, the slot an embryo that nobody else makes. */
  ghost predicate ForkOk(t: Table, fork: seq<Fork>, p: nat)
    requires p < NPROC == |fork|
  {
    fork[p] != NoFork ==>
      && (t[p].state.Runnable? || t[p].state.Running?) && t[p].chan == NoChan
      && fork[p].e < NPROC && t[fork[p].e].state.Embryo?
      && t[fork[p].e].parent == if fork[p].Linked? then p else -1
  }

  /** An embryo has no parent until its maker has linked it. */
  ghost predicate EmbryoOk(t: Table, fork: seq<Fork>, e: nat)
    requires e < NPROC == |fork|
  {
    t[e].state.Embryo? ==> t[e].parent == -1 || (0 <= t[e].parent < NPROC && fork[t[e].parent] == Linked(e))
  }

  ghost predicate Forks(t: Table, fork: seq<Fork>) {
    && |fork| == NPROC
    && (forall p :: 0 <= p < NPROC ==> ForkOk(t, fork, p))
    && (forall p, q :: 0 <= p < q < NPROC && fork[p] != NoFork && fork[q] != NoFork ==> fork[p].e != fork[q].e)
    && (forall e :: 0 <= e < NPROC ==> EmbryoOk(t, fork, e))
  }

  /** Running processes and busy CPUs correspond one to one. */
  ghost predicate Cpus(t: Table, cpus: seq<int>) {
    && (forall c :: 0 <= c < |cpus| && cpus[c] != -1 ==> 0 <= cpus[c] < NPROC && t[cpus[c]].state.Running?)
    && (forall p :: 0 <= p < NPROC && t[p].state.Running? ==> p in cpus)
    && (forall c, d :: 0 <= c < d < |cpus| && cpus[c] != -1 ==> cpus[c] != cpus[d])
  }

  /** Process ids in use are distinct and were handed out before. */
  ghost predicate Pids(t: Table, nextpid: nat) {
    && (forall p :: 0 <= p < NPROC && !t[p].state.Unused? ==> 0 < t[p].pid < nextpid)
    && (forall p, q :: 0 <= p < q < NPROC && !t[p].state.Unused? && !t[q].state.Unused? ==> t[p].pid != t[q].pid)
  }

  ghost predicate Inv(s: System) {
    && Family(s.t, s.init) && Channels(s.t) && Forks(s.t, s.fork)
    && Cpus(s.t, s.cpus) && Pids(s.t, s.nextpid)
  }

  // ------------------------------------------------------------ the table, step by step

  /** Two tables that agree on parents and on who lives, is a zombie, unused or an embryo. */
  ghost predicate SameShape(t: Table, r: Table) {
    forall p :: 0 <= p < NPROC ==>
      && r[p].parent == t[p].parent && Live(r[p]) == Live(t[p])
      && r[p].state.Zombie? == t[p].state.Zombie? && r[p].state.Unused? == t[p].state.Unused?
      && r[p].state.Embryo? == t[p].state.Embryo?
  }

  lemma {:induction false} ShapeParents(t: Table, r: Table, init: nat)
    requires SameShape(t, r) && forall p :: 0 <= p < NPROC ==> ParentOk(t, init, p)
    ensures forall p :: 0 <= p < NPROC ==> ParentOk(r, init, p)
  {
    forall p | 0 <= p < NPROC ensures ParentOk(r, init, p) {
      assert ParentOk(t, init, p);
    }
  }

  /** Processes only waking up, or changing state in ways no parent or child can see, keep the family. */
  lemma {:induction false} ShapeFamily(t: Table, r: Table, init: nat)
    requires Family(t, init) && SameShape(t, r)
    requires forall p :: 0 <= p < NPROC && r[p].state.Sleeping? && r[p].chan == ProcChan(p) ==>
               t[p].state.Sleeping? && t[p].chan == ProcChan(p)
    ensures Family(r, init)
  {
    ShapeParents(t, r, init);
    forall p, q | 0 <= p < NPROC && 0 <= q < NPROC ensures NoMissedExit(r, p, q) {
      assert NoMissedExit(t, p, q);
    }
  }

  lemma {:induction false} ShapeForks(t: Table, r: Table, fork: seq<Fork>)
    requires Forks(t, fork) && SameShape(t, r)
    requires forall p :: 0 <= p < NPROC && fork[p] != NoFork ==>
               (r[p].state.Runnable? || r[p].state.Running?) && r[p].chan == NoChan
    ensures Forks(r, fork)
  {
    forall p | 0 <= p < NPROC ensures ForkOk(r, fork, p) && EmbryoOk(r, fork, p) {
      assert ForkOk(t, fork, p) && EmbryoOk(t, fork, p);
    }
  }

  lemma {:induction false} WakeKeeps(t: Table, ch: Chan, init: nat, fork: seq<Fork>)
    requires Family(t, init) && Channels(t) && Forks(t, fork)
    ensures Family(Wake(t, ch), init) && Channels(Wake(t, ch)) && Forks(Wake(t, ch), fork)
  {
    hide Wake;
    var r := Wake(t, ch);
    ShapeFamily(t, r, init);
    forall p | 0 <= p < NPROC && fork[p] != NoFork
      ensures (r[p].state.Runnable? || r[p].state.Running?) && r[p].chan == NoChan
    {
      assert ForkOk(t, fork, p);
    }
    ShapeForks(t, r, fork);
  }

  /** The table at the end of exit, slot by slot. */
  lemma {:induction false} ExitedAt(t: Table, p: nat, init: nat, q: nat)
    requires p < NPROC && t[p].parent >= 0 && t[p].parent != p && q < NPROC && p != init
    ensures var r := Exited(t, p, init);
            && r[q].parent == (if t[q].parent == p then init else t[q].parent)
            && r[q].chan == t[q].chan && r[q].pid == t[q].pid && r[q].prio == t[q].prio && r[q].killed == t[q].killed
            && (q != p ==> r[q].state == t[q].state || (t[q].state.Sleeping? && r[q].state.Runnable?))
            && (q == p ==> r[q].state.Zombie?)
            && (r[q].state.Sleeping? ==> t[q].chan != ProcChan(t[p].parent))
            && (r[q].state.Sleeping? && HasZombieChild(t, p) ==> t[q].chan != ProcChan(init))
  {
    hide Wake, Adopted;
    var t1 := Wake(t, SlotChan(t[p].parent));
    if HasZombieChild(t, p) {
      var z :| 0 <= z < NPROC && t[z].parent == p && t[z].state.Zombie?;
      assert t1[z].parent == p && t1[z].state.Zombie?;
    }
  }

  lemma {:induction false} ExitedNoZombie(t: Table, p: nat, init: nat, w: nat, q: nat)
    requires Family(t, init) && p < NPROC && p != init && t[p].state.Running? && w < NPROC && q < NPROC
    requires t[p].parent >= 0 && t[p].parent != p
    ensures NoMissedExit(Exited(t, p, init), w, q)
  {
    hide Exited;
    ExitedAt(t, p, init, w);
    ExitedAt(t, p, init, q);
    assert NoMissedExit(t, w, q);
  }

  /** exit keeps the family: the parent has been woken, the children have moved to init. */
  lemma {:induction false} ExitedFamily(t: Table, p: nat, init: nat)
    requires Family(t, init) && p < NPROC && p != init && t[p].state.Running?
    ensures t[p].parent >= 0 && Family(Exited(t, p, init), init)
  {
    assert ParentOk(t, init, p);
    var r := Exited(t, p, init);
    hide Exited;
    forall q | 0 <= q < NPROC ensures ParentOk(r, init, q) {
      assert ParentOk(t, init, q);
      ExitedAt(t, p, init, q);
      ExitedAt(t, p, init, init);
      if 0 <= t[q].parent < NPROC { ExitedAt(t, p, init, t[q].parent); }
    }
    ExitedAt(t, p, init, init);
    forall w, q | 0 <= w < NPROC && 0 <= q < NPROC ensures NoMissedExit(r, w, q) {
      ExitedNoZombie(t, p, init, w, q);
    }
  }

  lemma {:induction false} ExitedRest(t: Table, p: nat, init: nat, fork: seq<Fork>)
    requires Channels(t) && Forks(t, fork) && p < NPROC && p != init && t[p].state.Running? && fork[p] == NoFork
    requires t[p].parent >= 0 && t[p].parent != p
    ensures Channels(Exited(t, p, init)) && Forks(Exited(t, p, init), fork)
  {
    hide Exited;
    var r := Exited(t, p, init);
    forall q | 0 <= q < NPROC
      ensures ForkOk(r, fork, q) && EmbryoOk(r, fork, q)
      ensures (r[q].chan.ProcChan? ==> r[q].chan.slot == q)
      ensures (r[q].chan != NoChan ==> r[q].state.Sleeping? || r[q].state.Runnable?)
    {
      assert ForkOk(t, fork, q) && EmbryoOk(t, fork, q);
      ExitedAt(t, p, init, q);
      if fork[q] != NoFork {
        ExitedAt(t, p, init, fork[q].e);
      }
    }
  }

  /** One turn of wait's loop keeps the family: a reaped child had no children, and a sleeper no zombie. */
  lemma {:induction false} WaitedFamily(t: Table, p: nat, s: Scan, init: nat)
    requires Family(t, init) && p < NPROC && t[p].state.Running? && IsScan(t, p, s)
    ensures Family(Waited(t, p, s), init)
  {
    var r := Waited(t, p, s);
    forall q | 0 <= q < NPROC ensures ParentOk(r, init, q) {
      assert ParentOk(t, init, q);
    }
    forall w, q | 0 <= w < NPROC && 0 <= q < NPROC ensures NoMissedExit(r, w, q) {
      assert NoMissedExit(t, w, q);
    }
  }

  lemma {:induction false} WaitedRest(t: Table, p: nat, s: Scan, fork: seq<Fork>)
    requires Channels(t) && Forks(t, fork) && p < NPROC && t[p].state.Running? && IsScan(t, p, s) && fork[p] == NoFork
    ensures Channels(Waited(t, p, s)) && Forks(Waited(t, p, s), fork)
  {
    var r := Waited(t, p, s);
    forall q | 0 <= q < NPROC ensures ForkOk(r, fork, q) && EmbryoOk(r, fork, q) {
      assert ForkOk(t, fork, q) && EmbryoOk(t, fork, q);
    }
  }

  // ------------------------------------------------------------ actions

  /** A process runs on CPU c, and is not in the middle of fork. */
  ghost predicate Acts(s: System, c: nat) {
    c < |s.cpus| && 0 <= s.cpus[c] < NPROC && |s.fork| == NPROC && s.fork[s.cpus[c]] == NoFork
  }

  ghost predicate Forking(s: System, c: nat) {
    c < |s.cpus| && 0 <= s.cpus[c] < NPROC && |s.fork| == NPROC && s.fork[s.cpus[c]] != NoFork
      && s.fork[s.cpus[c]].e < NPROC
  }

  /** The chosen process runs again; coming out of sleep it clears its channel. */
  function Started(t: Table, p: nat): Table
    requires p < NPROC
  {
    t[p := t[p].(state := Running, chan := NoChan)]
  }

  ghost predicate Enabled(s: System, a: Action) {
    match a
    case Alloc(c, e, _) =>
      Acts(s, c) && e < NPROC && s.t[e].state.Unused? && forall q :: 0 <= q < e ==> !s.t[q].state.Unused?
    case ForkFail(c) => Forking(s, c) && s.fork[s.cpus[c]].Making?
    case ForkLink(c) => Forking(s, c) && s.fork[s.cpus[c]].Making?
    case ForkRun(c) => Forking(s, c) && s.fork[s.cpus[c]].Linked?
    case Exit(c, _) => Acts(s, c) && s.cpus[c] != s.init
    case Wait(c, scan, _) => Acts(s, c) && IsScan(s.t, s.cpus[c], scan)
    case Sleep(c, _, _) => Acts(s, c)
    case Yield(c, _) => c < |s.cpus| && 0 <= s.cpus[c] < NPROC
    case Schedule(c, ticks, p, scan, _) =>
      && c < |s.cpus| && s.cpus[c] == -1 && p < NPROC
      && Choose(s.t, ticks, SomeRunnable(s.t)) == Chosen(p)
      && (s.t[p].chan == ProcChan(p) ==> IsScan(Started(s.t, p), p, scan))
    case Wakeup(_) => true
    case Kill(p) => p < NPROC
    case SetPrio(p, _) => p < NPROC
  }

  /** The scheduler's bookkeeping when process p has stopped running on CPU c. */
  function Stop(s: System, t: Table, c: nat, p: nat, sameTick: bool): System
    requires c < |s.cpus| && p < NPROC
  {
    s.(t := t[p := Adjusted(t[p], sameTick)], cpus := s.cpus[c := -1])
  }

  function WaitOn(s: System, t: Table, c: nat, p: nat, scan: Scan, sameTick: bool): System
    requires c < |s.cpus| && p < NPROC && (scan.Child? ==> scan.q < NPROC)
  {
    if scan.MustSleep? then Stop(s, Waited(t, p, scan), c, p, sameTick) else s.(t := Waited(t, p, scan))
  }

  ghost function Do(s: System, a: Action): System
    requires Enabled(s, a)
  {
    match a
    case Alloc(c, e, second) =>
      s.(t := s.t[e := s.t[e].(state := Embryo, pid := s.nextpid, prio := second % 10 + 1)],
         nextpid := s.nextpid + 1, fork := s.fork[s.cpus[c] := Making(e)])
    case ForkFail(c) =>
      var e := s.fork[s.cpus[c]].e;
      s.(t := s.t[e := s.t[e].(state := Unused)], fork := s.fork[s.cpus[c] := NoFork])
    case ForkLink(c) =>
      var e := s.fork[s.cpus[c]].e;
      s.(t := s.t[e := s.t[e].(parent := s.cpus[c])], fork := s.fork[s.cpus[c] := Linked(e)])
    case ForkRun(c) =>
      var e := s.fork[s.cpus[c]].e;
      s.(t := s.t[e := s.t[e].(state := Runnable)], fork := s.fork[s.cpus[c] := NoFork])
    case Exit(c, sameTick) =>
      var p := s.cpus[c];
      Stop(s, Exited(s.t, p, s.init), c, p, sameTick)
    case Wait(c, scan, sameTick) => WaitOn(s, s.t, c, s.cpus[c], scan, sameTick)
    case Sleep(c, id, sameTick) =>
      var p := s.cpus[c];
      Stop(s, s.t[p := s.t[p].(state := Sleeping, chan := OtherChan(id))], c, p, sameTick)
    case Yield(c, sameTick) =>
      var p := s.cpus[c];
      Stop(s, s.t[p := s.t[p].(state := Runnable)], c, p, sameTick)
    case Schedule(c, _, p, scan, sameTick) =>
      var r := s.(t := Started(s.t, p), cpus := s.cpus[c := p]);
      if s.t[p].chan == ProcChan(p) then WaitOn(r, r.t, c, p, scan, sameTick) else r
    case Wakeup(id) => s.(t := Wake(s.t, OtherChan(id)))
    case Kill(p) =>
      var e := s.t[p].(killed := true);
      s.(t := s.t[p := if e.state.Sleeping? then e.(state := Runnable) else e])
    case SetPrio(p, prio) => s.(t := s.t[p := s.t[p].(prio := prio)])
  }

  // ------------------------------------------------------------ each action keeps the invariant

  ghost predicate TableOk(t: Table, init: nat, fork: seq<Fork>) {
    Family(t, init) && Channels(t) && Forks(t, fork)
  }

  /** Changing priority or killed flag of a slot, or making an awake process sleep elsewhere, yield or run. */
  lemma {:induction false} EntryChange(t: Table, init: nat, fork: seq<Fork>, p: nat, e: Entry)
    requires TableOk(t, init, fork) && p < NPROC && e.parent == t[p].parent
    requires e.state == t[p].state || (Live(e) && Live(t[p]))
    requires e.chan != NoChan ==> e.state.Sleeping? || e.state.Runnable?
    requires e.chan.ProcChan? ==>
               e.chan.slot == p && t[p].chan == e.chan && (e.state.Sleeping? ==> t[p].state.Sleeping?)
    requires fork[p] != NoFork ==> e.chan == NoChan && (e.state.Runnable? || e.state.Running?)
    ensures TableOk(t[p := e], init, fork)
  {
    var r := t[p := e];
    ShapeFamily(t, r, init);
    forall q | 0 <= q < NPROC && fork[q] != NoFork
      ensures (r[q].state.Runnable? || r[q].state.Running?) && r[q].chan == NoChan
    {
      assert ForkOk(t, fork, q);
    }
    ShapeForks(t, r, fork);
  }

  lemma {:induction false} AdjustKeeps(t: Table, init: nat, fork: seq<Fork>, p: nat, sameTick: bool)
    requires TableOk(t, init, fork) && p < NPROC
    ensures TableOk(t[p := Adjusted(t[p], sameTick)], init, fork)
  {
    hide Family;
    assert fork[p] != NoFork ==> t[p].chan == NoChan && (t[p].state.Runnable? || t[p].state.Running?) by {
      assert ForkOk(t, fork, p);
    }
    EntryChange(t, init, fork, p, Adjusted(t[p], sameTick));
  }

  lemma {:induction false} AllocTable(t: Table, init: nat, fork: seq<Fork>, p: nat, e: nat, pid: nat, prio: Word)
    requires TableOk(t, init, fork) && p < NPROC && e < NPROC && t[p].state.Running? && fork[p] == NoFork
    requires t[e].state.Unused?
    ensures TableOk(t[e := t[e].(state := Embryo, pid := pid, prio := prio)], init, fork[p := Making(e)])
  {
    var r, f := t[e := t[e].(state := Embryo, pid := pid, prio := prio)], fork[p := Making(e)];
    assert ParentOk(t, init, e);
    forall q | 0 <= q < NPROC ensures ParentOk(r, init, q) && ForkOk(r, f, q) && EmbryoOk(r, f, q) {
      assert ParentOk(t, init, q) && ForkOk(t, fork, q) && EmbryoOk(t, fork, q);
      if r[q].state.Embryo? && 0 <= t[q].parent < NPROC { assert t[q].parent != p; }
    }
    forall w, q | 0 <= w < NPROC && 0 <= q < NPROC ensures NoMissedExit(r, w, q) {
      assert NoMissedExit(t, w, q);
    }
    forall q | 0 <= q < NPROC && fork[q] != NoFork ensures fork[q].e != e {
      assert ForkOk(t, fork, q);
    }
  }

  lemma {:induction false} ForkFailTable(t: Table, init: nat, fork: seq<Fork>, p: nat)
    requires TableOk(t, init, fork) && p < NPROC && fork[p].Making?
    ensures fork[p].e < NPROC
    ensures TableOk(t[fork[p].e := t[fork[p].e].(state := Unused)], init, fork[p := NoFork])
  {
    assert ForkOk(t, fork, p);
    var e := fork[p].e;
    var r, f := t[e := t[e].(state := Unused)], fork[p := NoFork];
    forall q | 0 <= q < NPROC ensures ParentOk(r, init, q) && ForkOk(r, f, q) && EmbryoOk(r, f, q) {
      assert ParentOk(t, init, q) && ForkOk(t, fork, q) && EmbryoOk(t, fork, q);
    }
    forall w, q | 0 <= w < NPROC && 0 <= q < NPROC ensures NoMissedExit(r, w, q) {
      assert NoMissedExit(t, w, q);
    }
  }

  lemma {:induction false} ForkLinkTable(t: Table, init: nat, fork: seq<Fork>, p: nat)
    requires TableOk(t, init, fork) && p < NPROC && fork[p].Making?
    ensures fork[p].e < NPROC
    ensures TableOk(t[fork[p].e := t[fork[p].e].(parent := p)], init, fork[p := Linked(fork[p].e)])
  {
    assert ForkOk(t, fork, p);
    var e := fork[p].e;
    var r, f := t[e := t[e].(parent := p)], fork[p := Linked(e)];
    forall q | 0 <= q < NPROC ensures ParentOk(r, init, q) && ForkOk(r, f, q) && EmbryoOk(r, f, q) {
      assert ParentOk(t, init, q) && ForkOk(t, fork, q) && EmbryoOk(t, fork, q);
    }
    forall w, q | 0 <= w < NPROC && 0 <= q < NPROC ensures NoMissedExit(r, w, q) {
      assert NoMissedExit(t, w, q);
    }
  }

  lemma {:induction false} ForkRunTable(t: Table, init: nat, fork: seq<Fork>, p: nat)
    requires TableOk(t, init, fork) && p < NPROC && fork[p].Linked?
    ensures fork[p].e < NPROC
    ensures TableOk(t[fork[p].e := t[fork[p].e].(state := Runnable)], init, fork[p := NoFork])
  {
    assert ForkOk(t, fork, p);
    var e := fork[p].e;
    var r, f := t[e := t[e].(state := Runnable)], fork[p := NoFork];
    forall q | 0 <= q < NPROC ensures ParentOk(r, init, q) && ForkOk(r, f, q) && EmbryoOk(r, f, q) {
      assert ParentOk(t, init, q) && ForkOk(t, fork, q) && EmbryoOk(t, fork, q);
    }
    forall w, q | 0 <= w < NPROC && 0 <= q < NPROC ensures NoMissedExit(r, w, q) {
      assert NoMissedExit(t, w, q);
    }
  }

  lemma {:induction false} WaitOnTable(s: System, t: Table, c: nat, p: nat, scan: Scan, sameTick: bool)
    requires TableOk(t, s.init, s.fork) && c < |s.cpus| && p < NPROC && t[p].state.Running? && s.fork[p] == NoFork
    requires IsScan(t, p, scan)
    ensures TableOk(WaitOn(s, t, c, p, scan, sameTick).t, s.init, s.fork)
  {
    hide Family, Forks, IsScan, Channels;
    WaitedFamily(t, p, scan, s.init);
    WaitedRest(t, p, scan, s.fork);
    if scan.MustSleep? {
      AdjustKeeps(Waited(t, p, scan), s.init, s.fork, p, sameTick);
    }
  }

  lemma {:induction false} StopTable(s: System, c: nat, e: Entry, sameTick: bool)
    requires Inv(s) && c < |s.cpus| && 0 <= s.cpus[c] < NPROC
    requires var p := s.cpus[c];
             && e == s.t[p].(state := e.state, chan := e.chan) && (e.state.Sleeping? || e.state.Runnable?)
             && !e.chan.ProcChan? && (s.fork[p] != NoFork ==> e.state.Runnable? && e.chan == s.t[p].chan)
    ensures TableOk(Stop(s, s.t[s.cpus[c] := e], c, s.cpus[c], sameTick).t, s.init, s.fork)
  {
    hide Pids;
    var p := s.cpus[c];
    assert ForkOk(s.t, s.fork, p);
    EntryChange(s.t, s.init, s.fork, p, e);
    AdjustKeeps(s.t[p := e], s.init, s.fork, p, sameTick);
  }

  lemma {:induction false} ScheduleTable(s: System, a: Action)
    requires Inv(s) && a.Schedule? && Enabled(s, a)
    ensures TableOk(Do(s, a).t, s.init, s.fork)
  {
    var p := a.p;
    ChoiceIsLeast(s.t, a.ticks);
    hide Pids, Choose;
    assert ForkOk(s.t, s.fork, p);
    EntryChange(s.t, s.init, s.fork, p, s.t[p].(state := Running, chan := NoChan));
    if s.t[p].chan == ProcChan(p) {
      var r := s.(t := Started(s.t, p), cpus := s.cpus[a.c := p]);
      WaitOnTable(r, r.t, a.c, p, a.scan, a.sameTick);
    }
  }

  lemma {:induction false} TableKept(s: System, a: Action)
    requires Inv(s) && Enabled(s, a)
    ensures TableOk(Do(s, a).t, s.init, Do(s, a).fork)
  {
    hide Pids, Wake, Exited;
    match a
    case Alloc(c, e, second) => AllocTable(s.t, s.init, s.fork, s.cpus[c], e, s.nextpid, second % 10 + 1);
    case ForkFail(c) => ForkFailTable(s.t, s.init, s.fork, s.cpus[c]);
    case ForkLink(c) => ForkLinkTable(s.t, s.init, s.fork, s.cpus[c]);
    case ForkRun(c) => ForkRunTable(s.t, s.init, s.fork, s.cpus[c]);
    case Exit(c, sameTick) =>
      var p := s.cpus[c];
      assert ParentOk(s.t, s.init, p);
      ExitedFamily(s.t, p, s.init);
      ExitedRest(s.t, p, s.init, s.fork);
      AdjustKeeps(Exited(s.t, p, s.init), s.init, s.fork, p, sameTick);
    case Wait(c, scan, sameTick) => WaitOnTable(s, s.t, c, s.cpus[c], scan, sameTick);
    case Sleep(c, id, sameTick) => StopTable(s, c, s.t[s.cpus[c]].(state := Sleeping, chan := OtherChan(id)), sameTick);
    case Yield(c, sameTick) => StopTable(s, c, s.t[s.cpus[c]].(state := Runnable), sameTick);
    case Schedule(c, _, p, scan, sameTick) => ScheduleTable(s, a);
    case Wakeup(id) => WakeKeeps(s.t, OtherChan(id), s.init, s.fork);
    case Kill(p) =>
      assert ForkOk(s.t, s.fork, p);
      EntryChange(s.t, s.init, s.fork, p, Do(s, a).t[p]);
    case SetPrio(p, prio) =>
      assert ForkOk(s.t, s.fork, p);
      EntryChange(s.t, s.init, s.fork, p, s.t[p].(prio := prio));
  }

  lemma {:induction false} CpusSame(t: Table, r: Table, cpus: seq<int>)
    requires Cpus(t, cpus) && forall p :: 0 <= p < NPROC ==> r[p].state.Running? == t[p].state.Running?
    ensures Cpus(r, cpus)
  {
  }

  lemma {:induction false} CpusStop(t: Table, r: Table, cpus: seq<int>, c: nat)
    requires Cpus(t, cpus) && c < |cpus| && 0 <= cpus[c] < NPROC && !r[cpus[c]].state.Running?
    requires forall p :: 0 <= p < NPROC && p != cpus[c] ==> r[p].state.Running? == t[p].state.Running?
    ensures Cpus(r, cpus[c := -1])
  {
    forall p | 0 <= p < NPROC && r[p].state.Running? ensures p in cpus[c := -1] {
      var d :| 0 <= d < |cpus| && cpus[d] == p;
      assert cpus[c := -1][d] == p;
    }
  }

  lemma {:induction false} CpusStart(t: Table, r: Table, cpus: seq<int>, c: nat, p: nat)
    requires Cpus(t, cpus) && c < |cpus| && cpus[c] == -1 && p < NPROC && !t[p].state.Running? && r[p].state.Running?
    requires forall q :: 0 <= q < NPROC && q != p ==> r[q].state.Running? == t[q].state.Running?
    ensures Cpus(r, cpus[c := p])
  {
    forall q | 0 <= q < NPROC && r[q].state.Running? ensures q in cpus[c := p] {
      if q == p {
        assert cpus[c := p][c] == q;
      } else {
        var d :| 0 <= d < |cpus| && cpus[d] == q;
        assert cpus[c := p][d] == q;
      }
    }
  }

  lemma {:induction false} WaitOnCpus(s: System, t: Table, c: nat, p: nat, scan: Scan, sameTick: bool)
    requires Cpus(t, s.cpus) && c < |s.cpus| && s.cpus[c] == p && p < NPROC && IsScan(t, p, scan)
    ensures var r := WaitOn(s, t, c, p, scan, sameTick); Cpus(r.t, r.cpus)
  {
    var r := WaitOn(s, t, c, p, scan, sameTick);
    if scan.MustSleep? {
      CpusStop(t, r.t, s.cpus, c);
    } else {
      CpusSame(t, r.t, s.cpus);
    }
  }

  lemma {:induction false} ExitedRunning(s: System, p: nat)
    requires Inv(s) && p < NPROC && p != s.init && s.t[p].state.Running?
    ensures var r := Exited(s.t, p, s.init);
            forall q :: 0 <= q < NPROC && q != p ==> r[q].state.Running? == s.t[q].state.Running?
    ensures var r := Exited(s.t, p, s.init);
            forall q :: 0 <= q < NPROC ==>
              r[q].pid == s.t[q].pid && r[q].prio == s.t[q].prio && r[q].state.Unused? == s.t[q].state.Unused?
    ensures Exited(s.t, p, s.init)[p].state.Zombie?
  {
    hide Exited;
    assert ParentOk(s.t, s.init, p);
    forall q | 0 <= q < NPROC
      ensures var r := Exited(s.t, p, s.init);
              && (q != p ==> r[q].state.Running? == s.t[q].state.Running?)
              && r[q].pid == s.t[q].pid && r[q].prio == s.t[q].prio && r[q].state.Unused? == s.t[q].state.Unused?
    {
      ExitedAt(s.t, p, s.init, q);
    }
    ExitedAt(s.t, p, s.init, p);
  }

  lemma {:induction false} RunningActor(s: System, c: nat)
    requires Inv(s) && c < |s.cpus| && 0 <= s.cpus[c] < NPROC
    ensures s.t[s.cpus[c]].state.Running? && ParentOk(s.t, s.init, s.cpus[c])
  {
  }

  lemma {:induction false} CpusSwitch(s: System, a: Action)
    requires Inv(s) && Enabled(s, a) && (a.Exit? || a.Wait? || a.Sleep? || a.Yield? || a.Schedule?)
    ensures Cpus(Do(s, a).t, Do(s, a).cpus)
  {
    hide Pids, Family, Channels, Forks, Cpus, Exited, IsScan, Choose, SomeRunnable;
    var r := Do(s, a);
    match a
    case Exit(c, sameTick) =>
      RunningActor(s, c);
      ExitedRunning(s, s.cpus[c]);
      CpusStop(s.t, r.t, s.cpus, c);
    case Wait(c, scan, sameTick) => WaitOnCpus(s, s.t, c, s.cpus[c], scan, sameTick);
    case Sleep(c, id, sameTick) => CpusStop(s.t, r.t, s.cpus, c);
    case Yield(c, sameTick) => CpusStop(s.t, r.t, s.cpus, c);
    case Schedule(c, ticks, p, scan, sameTick) =>
      ChoiceIsLeast(s.t, ticks);
      CpusStart(s.t, Started(s.t, p), s.cpus, c, p);
      if s.t[p].chan == ProcChan(p) {
        WaitOnCpus(s.(t := Started(s.t, p), cpus := s.cpus[c := p]), Started(s.t, p), c, p, scan, sameTick);
      }
    case _ =>
  }

  lemma {:induction false} CpusKept(s: System, a: Action)
    requires Inv(s) && Enabled(s, a)
    ensures Cpus(Do(s, a).t, Do(s, a).cpus)
  {
    hide Pids, Family, Channels, Cpus, Exited, IsScan, Choose, SomeRunnable, WaitOn, Stop;
    if a.Exit? || a.Wait? || a.Sleep? || a.Yield? || a.Schedule? {
      CpusSwitch(s, a);
    } else {
      if a.ForkFail? || a.ForkRun? { assert ForkOk(s.t, s.fork, s.cpus[a.c]); }
      CpusSame(s.t, Do(s, a).t, s.cpus);
    }
  }

  // ------------------------------------------------------------ process ids

  /** No new process id, and no change of those in use. */
  ghost predicate PidsStay(t: Table, r: Table) {
    forall p :: 0 <= p < NPROC && !r[p].state.Unused? ==> !t[p].state.Unused? && r[p].pid == t[p].pid
  }

  lemma {:induction false} PidsFromStay(t: Table, r: Table, nextpid: nat)
    requires Pids(t, nextpid) && PidsStay(t, r)
    ensures Pids(r, nextpid)
  {
  }

  lemma {:induction false} StaySlot(t: Table, p: nat, e: Entry)
    requires p < NPROC && (e.state.Unused? || (!t[p].state.Unused? && e.pid == t[p].pid))
    ensures PidsStay(t, t[p := e])
  {
  }

  lemma {:induction false} StayTrans(t: Table, t1: Table, t2: Table)
    requires PidsStay(t, t1) && PidsStay(t1, t2)
    ensures PidsStay(t, t2)
  {
  }

  lemma {:induction false} StayWake(t: Table, ch: Chan)
    ensures PidsStay(t, Wake(t, ch))
  {
    hide Wake;
  }

  lemma {:induction false} AdjustedPid(e: Entry, sameTick: bool)
    ensures Adjusted(e, sameTick).pid == e.pid && Adjusted(e, sameTick).state == e.state
  {
  }

  lemma {:induction false} StayExit(s: System, p: nat, sameTick: bool)
    requires p < NPROC && !s.t[p].state.Unused?
    requires var r := Exited(s.t, p, s.init);
             forall q :: 0 <= q < NPROC ==> r[q].pid == s.t[q].pid && r[q].state.Unused? == s.t[q].state.Unused?
    ensures var r := Exited(s.t, p, s.init); PidsStay(s.t, r[p := Adjusted(r[p], sameTick)])
  {
    hide Exited;
  }

  lemma {:induction false} WaitOnPids(s: System, t: Table, c: nat, p: nat, scan: Scan, sameTick: bool)
    requires c < |s.cpus| && p < NPROC && t[p].state.Running? && IsScan(t, p, scan)
    ensures PidsStay(t, WaitOn(s, t, c, p, scan, sameTick).t) && WaitOn(s, t, c, p, scan, sameTick).nextpid == s.nextpid
  {
  }

  /** Every action but allocproc takes no process id. */
  lemma {:induction false} PidsStayStep(s: System, a: Action)
    requires Inv(s) && Enabled(s, a) && !a.Alloc?
    ensures PidsStay(s.t, Do(s, a).t) && Do(s, a).nextpid == s.nextpid
  {
    hide Family, Channels, Exited, IsScan, Pids, Cpus, Wake, PidsStay, Adjusted;
    match a
    case ForkFail(c) => StaySlot(s.t, s.fork[s.cpus[c]].e, Do(s, a).t[s.fork[s.cpus[c]].e]);
    case ForkLink(c) => StaySlot(s.t, s.fork[s.cpus[c]].e, Do(s, a).t[s.fork[s.cpus[c]].e]);
    case ForkRun(c) =>
      assert ForkOk(s.t, s.fork, s.cpus[c]);
      StaySlot(s.t, s.fork[s.cpus[c]].e, Do(s, a).t[s.fork[s.cpus[c]].e]);
    case Exit(c, sameTick) =>
      RunningActor(s, c);
      ExitedRunning(s, s.cpus[c]);
      StayExit(s, s.cpus[c], sameTick);
    case Wait(c, scan, sameTick) =>
      RunningActor(s, c);
      WaitOnPids(s, s.t, c, s.cpus[c], scan, sameTick);
    case Sleep(c, id, sameTick) =>
      RunningActor(s, c);
      AdjustedPid(s.t[s.cpus[c]].(state := Sleeping, chan := OtherChan(id)), sameTick);
      StaySlot(s.t, s.cpus[c], Do(s, a).t[s.cpus[c]]);
      assert Do(s, a).t == s.t[s.cpus[c] := Do(s, a).t[s.cpus[c]]];
    case Yield(c, sameTick) =>
      RunningActor(s, c);
      AdjustedPid(s.t[s.cpus[c]].(state := Runnable), sameTick);
      StaySlot(s.t, s.cpus[c], Do(s, a).t[s.cpus[c]]);
      assert Do(s, a).t == s.t[s.cpus[c] := Do(s, a).t[s.cpus[c]]];
    case Schedule(c, ticks, p, scan, sameTick) =>
      ChoiceIsLeast(s.t, ticks);
      StaySlot(s.t, p, Started(s.t, p)[p]);
      if s.t[p].chan == ProcChan(p) {
        WaitOnPids(s.(t := Started(s.t, p), cpus := s.cpus[c := p]), Started(s.t, p), c, p, scan, sameTick);
        StayTrans(s.t, Started(s.t, p), Do(s, a).t);
      }
    case Wakeup(id) => StayWake(s.t, OtherChan(id));
    case Kill(p) => StaySlot(s.t, p, Do(s, a).t[p]);
    case SetPrio(p, prio) => StaySlot(s.t, p, Do(s, a).t[p]);
  }

  lemma {:induction false} SomePid(s: System)
    requires Inv(s)
    ensures s.nextpid > 0
  {
    hide Forks, Cpus, Channels;
    assert 0 < s.t[s.init].pid < s.nextpid;
  }

  lemma {:induction false} PidsAlloc(s: System, a: Action)
    requires Inv(s) && Enabled(s, a) && a.Alloc?
    ensures Do(s, a).nextpid == s.nextpid + 1 && Pids(Do(s, a).t, s.nextpid + 1)
    ensures forall p :: 0 <= p < NPROC && !Do(s, a).t[p].state.Unused? ==>
              Do(s, a).t[p].pid == s.nextpid || (!s.t[p].state.Unused? && Do(s, a).t[p].pid == s.t[p].pid)
  {
    hide Family, Channels, Forks, Cpus, Exited, IsScan, Wake;
    SomePid(s);
  }

  lemma {:induction false} PidsKept(s: System, a: Action)
    requires Inv(s) && Enabled(s, a)
    ensures Pids(Do(s, a).t, Do(s, a).nextpid)
  {
    hide Family, Channels, Forks, Cpus, Pids, Do;
    if a.Alloc? {
      PidsAlloc(s, a);
    } else {
      PidsStayStep(s, a);
      PidsFromStay(s.t, Do(s, a).t, s.nextpid);
    }
  }

  /** Every critical section, on every CPU, keeps the invariant. */
  lemma {:induction false} InvKept(s: System, a: Action)
    requires Inv(s) && Enabled(s, a)
    ensures Inv(Do(s, a))
  {
    hide Family, Channels, Forks, Cpus, Pids;
    TableKept(s, a);
    CpusKept(s, a);
    PidsKept(s, a);
    match a
    case _ =>
  }

  // ------------------------------------------------------------ whole runs

  ghost function Step(s: System, a: Action): (r: System)
    requires Inv(s)
    ensures Inv(r) && r.init == s.init
  {
    if Enabled(s, a) then
      InvKept(s, a);
      Do(s, a)
    else s
  }

  ghost function Run(s: System, actions: seq<Action>): (r: System)
    requires Inv(s)
    ensures Inv(r) && r.init == s.init
  {
    if actions == [] then s else Step(Run(s, actions[..|actions|-1]), actions[|actions|-1])
  }

  /** The exit/wait protocol and the scheduler's bookkeeping, in every state that any interleaving of any
      number of critical sections reaches while the lock is free. */
  lemma {:induction false} ExitWait(s: System, actions: seq<Action>, p: nat, q: nat)
    requires Inv(s) && p < NPROC && q < NPROC
    ensures var r := Run(s, actions);
            && (r.t[p].state.Sleeping? && r.t[p].chan == ProcChan(p) && r.t[q].parent == p ==> !r.t[q].state.Zombie?)
            && (p != r.init && (Live(r.t[p]) || r.t[p].state.Zombie?) ==>
                0 <= r.t[p].parent < NPROC && Live(r.t[r.t[p].parent]))
            && (r.t[p].state.Running? <==> p in r.cpus)
            && (forall c, d :: 0 <= c < d < |r.cpus| && r.cpus[c] != -1 ==> r.cpus[c] != r.cpus[d])
  {
    var r := Run(s, actions);
    assert NoMissedExit(r.t, p, q);
    assert ParentOk(r.t, r.init, p);
  }

  /** The process id that an action's wait returns, if it reaps a child. */
  ghost function ReapedPid(s: System, a: Action): seq<nat>
    requires Inv(s)
  {
    if Enabled(s, a) && a.Wait? && a.scan.Child? then [s.t[a.scan.q].pid]
    else if Enabled(s, a) && a.Schedule? && s.t[a.p].chan == ProcChan(a.p) && a.scan.Child? then [s.t[a.scan.q].pid]
    else []
  }

  ghost function ReapedPids(s: System, actions: seq<Action>): seq<nat>
    requires Inv(s)
  {
    if actions == [] then []
    else
      var front := actions[..|actions|-1];
      ReapedPids(s, front) + ReapedPid(Run(s, front), actions[|actions|-1])
  }

  /** None of these ids is, or will again be, in use. */
  ghost predicate Retired(pids: seq<nat>, s: System) {
    && (forall i :: 0 <= i < |pids| ==> pids[i] < s.nextpid)
    && (forall i, p :: 0 <= i < |pids| && 0 <= p < NPROC && !s.t[p].state.Unused? ==> s.t[p].pid != pids[i])
  }

  lemma {:induction false} RetiredStays(pids: seq<nat>, s: System, a: Action)
    requires Inv(s) && Retired(pids, s)
    ensures Retired(pids, Step(s, a))
  {
    hide Inv, Do;
    if Enabled(s, a) {
      if a.Alloc? {
        PidsAlloc(s, a);
      } else {
        PidsStayStep(s, a);
      }
    }
  }

  /** A slot reaped in a wait is unused afterwards, and it alone had its process id. */
  lemma {:induction false} ReapedSlot(s: System, r: Table, q: nat)
    requires Pids(s.t, s.nextpid) && q < NPROC && !s.t[q].state.Unused? && PidsStay(s.t, r) && r[q].state.Unused?
    ensures forall p :: 0 <= p < NPROC && !r[p].state.Unused? ==> r[p].pid != s.t[q].pid
  {
  }

  lemma {:induction false} ReapedState(s: System, a: Action)
    requires Inv(s) && ReapedPid(s, a) != []
    ensures (a.Wait? || a.Schedule?) && a.scan.Child? && a.scan.q < NPROC
    ensures s.t[a.scan.q].state.Zombie? && Do(s, a).t[a.scan.q].state.Unused?
  {
    hide Family, Channels, Forks, Cpus, Pids, HasZombieChild;
    if a.Schedule? {
      ChoiceIsLeast(s.t, a.ticks);
    }
  }

  lemma {:induction false} ReapRetires(s: System, a: Action)
    requires Inv(s) && ReapedPid(s, a) != []
    ensures Retired(ReapedPid(s, a), Step(s, a))
    ensures exists q :: 0 <= q < NPROC && !s.t[q].state.Unused? && s.t[q].pid == ReapedPid(s, a)[0]
  {
    var q := a.scan.q;
    ReapedState(s, a);
    PidsStayStep(s, a);
    hide Family, Channels, Forks, Cpus, Do, Enabled;
    ReapedSlot(s, Do(s, a).t, q);
    assert !s.t[q].state.Unused? && s.t[q].pid == ReapedPid(s, a)[0];
  }

  lemma {:induction false} NoneRetired(s: System)
    ensures Retired([], s)
  {
  }

  lemma {:induction false} ReapOne(s: System, a: Action)
    requires Inv(s)
    ensures |ReapedPid(s, a)| <= 1
  {
    hide Inv, Enabled;
  }

  /** An id in use is none of the retired ones. */
  lemma {:induction false} RetiredAppend(pids: seq<nat>, s: System, more: seq<nat>, r: System)
    requires Retired(pids, s) && Retired(pids, r) && Retired(more, r) && |more| == 1
    requires exists q :: 0 <= q < NPROC && !s.t[q].state.Unused? && s.t[q].pid == more[0]
    requires forall i, j :: 0 <= i < j < |pids| ==> pids[i] != pids[j]
    ensures Retired(pids + more, r)
    ensures forall i, j :: 0 <= i < j < |pids + more| ==> (pids + more)[i] != (pids + more)[j]
  {
  }

  /** In every run each exited child is reaped by at most one wait: no process id is returned twice. */
  lemma {:induction false} ReapedOnce(s: System, actions: seq<Action>)
    requires Inv(s)
    ensures var pids := ReapedPids(s, actions);
            && (forall i, j :: 0 <= i < j < |pids| ==> pids[i] != pids[j])
            && Retired(pids, Run(s, actions))
  {
    if actions != [] {
      hide Inv, Step, Retired, ReapedPid;
      var front, a := actions[..|actions|-1], actions[|actions|-1];
      ReapedOnce(s, front);
      var r := Run(s, front);
      RetiredStays(ReapedPids(s, front), r, a);
      ReapOne(r, a);
      if ReapedPid(r, a) != [] {
        ReapRetires(r, a);
        RetiredAppend(ReapedPids(s, front), r, ReapedPid(r, a), Step(r, a));
      } else {
        assert ReapedPids(s, front) + [] == ReapedPids(s, front);
      }
    } else {
      NoneRetired(s);
    }
  }

  // ------------------------------------------------------------ priorities

  ghost predicate PriosOk(t: Table) {
    forall p :: 0 <= p < NPROC ==> t[p].prio <= MAXPRIO
  }

  ghost predicate ModestPrios(actions: seq<Action>) {
    forall i :: 0 <= i < |actions| && actions[i].SetPrio? ==> actions[i].prio <= MAXPRIO
  }

  lemma {:induction false} WaitOnPrios(s: System, t: Table, c: nat, p: nat, scan: Scan, sameTick: bool)
    requires c < |s.cpus| && p < NPROC && IsScan(t, p, scan) && PriosOk(t)
    ensures PriosOk(WaitOn(s, t, c, p, scan, sameTick).t)
  {
  }

  lemma {:induction false} PrioStep(s: System, a: Action)
    requires Inv(s) && PriosOk(s.t) && (a.SetPrio? ==> a.prio <= MAXPRIO)
    ensures PriosOk(Step(s, a).t)
  {
    hide Inv, Exited, IsScan, Wake;
    if Enabled(s, a) {
      match a
      case Exit(c, sameTick) =>
        RunningActor(s, c);
        ExitedRunning(s, s.cpus[c]);
      case Wait(c, scan, sameTick) => WaitOnPrios(s, s.t, c, s.cpus[c], scan, sameTick);
      case Schedule(c, ticks, p, scan, sameTick) =>
        if s.t[p].chan == ProcChan(p) {
          WaitOnPrios(s.(t := Started(s.t, p), cpus := s.cpus[c := p]), Started(s.t, p), c, p, scan, sameTick);
        }
      case _ =>
    }
  }

  /** As long as setpriority is only given values up to 10, priorities stay in 0..10, and the scheduler
      never divides by zero: it finds a process of least priority whenever one is runnable, unless more
      than 50 tie. */
  lemma {:induction false} PrioritiesStay(s: System, actions: seq<Action>, ticks: Word)
    requires Inv(s) && PriosOk(s.t) && ModestPrios(actions)
    ensures var t := Run(s, actions).t;
            && PriosOk(t)
            && Choose(t, ticks, SomeRunnable(t)) != DivideFault
            && (SomeRunnable(t) && |Ties(t, Least(t, NPROC), NPROC)| <= PLIST ==>
                Choose(t, ticks, SomeRunnable(t)).Chosen?)
  {
    if actions != [] {
      PrioritiesStay(s, actions[..|actions|-1], ticks);
      PrioStep(Run(s, actions[..|actions|-1]), actions[|actions|-1]);
    }
    ChoiceIsLeast(Run(s, actions).t, ticks);
  }

  /** After userinit: init alone, runnable, and every CPU idle. */
  function Boot(ncpu: nat, second: nat): System {
    var empty := Entry(Unused, 0, -1, NoChan, false, 0);
    System(seq<Entry>(NPROC, p => if p == 0 then Entry(Runnable, 1, -1, NoChan, false, second % 10 + 1) else empty),
           seq<int>(ncpu, _ => -1), 2, 0, seq<Fork>(NPROC, _ => NoFork))
  }

  /** The machine starts in the invariant, so every run from boot stays in it. */
  lemma {:induction false} BootOk(ncpu: nat, second: nat)
    ensures Inv(Boot(ncpu, second)) && PriosOk(Boot(ncpu, second).t)
  {
    var s := Boot(ncpu, second);
    forall p | 0 <= p < NPROC ensures ParentOk(s.t, 0, p) && ForkOk(s.t, s.fork, p) && EmbryoOk(s.t, s.fork, p) {
    }
  }
}
