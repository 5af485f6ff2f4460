/** The loops of proc.c over the process table, run in place and proved to do what module Proc says. */
module ProcOps {
  import opened Params
  import opened Proc

  /** exit's loop after the first n slots: their links are changed, and init has been woken if one of
      them is a zombie. */
  ghost predicate AdoptedUpTo(t1: Table, p: nat, init: nat, n: nat, t: Table)
    requires n <= NPROC
  {
    var woke := exists q :: 0 <= q < n && t1[q].parent == p && t1[q].state.Zombie?;
    forall q :: 0 <= q < NPROC ==>
      t[q] == var e := if woke then Woken(t1[q], ProcChan(init)) else t1[q];
              if q < n && t1[q].parent == p then e.(parent := init) else e
  }

  lemma {:induction false} AdoptedNone(t: Table, p: nat, init: nat)
    ensures AdoptedUpTo(t, p, init, 0, t)
  {
  }

  lemma {:induction false} AdoptedNext(t1: Table, p: nat, init: nat, n: nat, t: Table)
    requires n < NPROC && init < NPROC && AdoptedUpTo(t1, p, init, n, t)
    ensures var u := t[n := t[n].(parent := init)];
            var t' := if t[n].parent != p then t else if t[n].state == Zombie then Wake(u, ProcChan(init)) else u;
            AdoptedUpTo(t1, p, init, n + 1, t')
  {
    hide Wake;
    assert t1[n].state.Zombie? <==> t[n].state.Zombie?;
  }

  lemma {:induction false} AdoptedAll(t1: Table, p: nat, init: nat, t: Table)
    requires AdoptedUpTo(t1, p, init, NPROC, t)
    ensures t == if HasZombieChild(t1, p) then Wake(Adopted(t1, p, init), ProcChan(init)) else Adopted(t1, p, init)
  {
    hide Wake, Adopted;
    var r := if HasZombieChild(t1, p) then Wake(Adopted(t1, p, init), ProcChan(init)) else Adopted(t1, p, init);
    forall q | 0 <= q < NPROC ensures t[q] == r[q] {
    }
  }

  lemma {:induction false} TiesGrow(t: Table, mn: int, m: nat, n: nat)
    requires m <= n <= NPROC
    ensures |Ties(t, mn, m)| <= |Ties(t, mn, n)|
    decreases n
  {
    if m < n { TiesGrow(t, mn, m, n - 1); }
  }

  class ProcTable {
    var t: Table
    var nextpid: nat

    /** wakeup1: whoever slept on the channel is runnable, and nothing else has changed. */
    method Wakeup1(ch: Chan)
      modifies this`t
      ensures t == Wake(old(t), ch)
      ensures forall p :: 0 <= p < NPROC ==> !(t[p].state.Sleeping? && t[p].chan == ch)
      ensures forall p :: 0 <= p < NPROC ==>
                var e := old(t)[p]; t[p] == if e.state.Sleeping? && e.chan == ch then e.(state := Runnable) else e
    {
      var p := 0;
      while p < NPROC
        invariant 0 <= p <= NPROC
        invariant forall q :: 0 <= q < NPROC ==> t[q] == if q < p then Woken(old(t)[q], ch) else old(t)[q]
      {
        if t[p].state == Sleeping && t[p].chan == ch {
          t := t[p := t[p].(state := Runnable)];
        }
        p := p + 1;
      }
    }

    /** allocproc's search: the first unused slot becomes an embryo with a new process id. */
    method Allocproc(second: nat) returns (e: int)
      modifies this
      ensures e == -1 ==> t == old(t) && nextpid == old(nextpid) && forall q :: 0 <= q < NPROC ==> !t[q].state.Unused?
      ensures e != -1 ==>
                && 0 <= e < NPROC && old(t)[e].state.Unused? && (forall q :: 0 <= q < e ==> !old(t)[q].state.Unused?)
                && t == old(t)[e := old(t)[e].(state := Embryo, pid := old(nextpid), prio := second % 10 + 1)]
                && nextpid == old(nextpid) + 1 && 1 <= t[e].prio <= 10
    {
      e := 0;
      while e < NPROC && t[e].state != Unused
        invariant 0 <= e <= NPROC
        invariant forall q :: 0 <= q < e ==> !t[q].state.Unused?
      {
        e := e + 1;
      }
      if e == NPROC {
        return -1;
      }
      t := t[e := t[e].(state := Embryo, pid := nextpid, prio := second % 10 + 1)];
      nextpid := nextpid + 1;
    }

    /** exit up to its call of sched. */
    method Exit(p: nat, init: nat)
      requires p < NPROC && init < NPROC && p != init
      modifies this`t
      ensures t == Exited(old(t), p, init)
    {
      hide Wake, Adopted, AdoptedUpTo;
      Wakeup1(SlotChan(t[p].parent));
      ghost var t1 := t;
      AdoptedNone(t1, p, init);
      var q := 0;
      while q < NPROC
        invariant 0 <= q <= NPROC
        invariant AdoptedUpTo(t1, p, init, q, t)
      {
        AdoptedNext(t1, p, init, q, t);
        if t[q].parent == p {
          t := t[q := t[q].(parent := init)];
          if t[q].state == Zombie {
            Wakeup1(ProcChan(init));
          }
        }
        q := q + 1;
      }
      AdoptedAll(t1, p, init, t);
      t := t[p := t[p].(state := Zombie)];
    }

    /** One scan of wait, with what it decides: reap the first zombie child, give up, or sleep. */
    method WaitScan(p: nat) returns (s: Scan, pid: nat)
      requires p < NPROC
      modifies this`t
      ensures IsScan(old(t), p, s) && t == Waited(old(t), p, s)
      ensures s.Child? ==> pid == old(t)[s.q].pid && t[s.q].state.Unused? && t[s.q].pid == 0 && t[s.q].parent == -1
      ensures s.MustSleep? ==> t[p].state.Sleeping? && t[p].chan == ProcChan(p)
      ensures forall q :: 0 <= q < NPROC && s != Child(q) && !(s.MustSleep? && q == p) ==> t[q] == old(t)[q]
    {
      var havekids := false;
      pid := 0;
      var q := 0;
      while q < NPROC
        invariant 0 <= q <= NPROC && t == old(t)
        invariant forall r :: 0 <= r < q ==> !(t[r].parent == p && t[r].state.Zombie?)
        invariant havekids <==> exists r :: 0 <= r < q && t[r].parent == p
      {
        if t[q].parent == p {
          havekids := true;
          if t[q].state == Zombie {
            pid := t[q].pid;
            t := t[q := Reaped(t[q])];
            return Child(q), pid;
          }
        }
        q := q + 1;
      }
      if !havekids || t[p].killed {
        return NoChildren, 0;
      }
      t := t[p := t[p].(state := Sleeping, chan := ProcChan(p))];
      return MustSleep, 0;
    }

    method AnyRunnable() returns (flag: bool)
      ensures flag <==> SomeRunnable(t)
    {
      flag := false;
      var p := 0;
      while p < NPROC
        invariant 0 <= p <= NPROC
        invariant flag <==> exists q :: 0 <= q < p && t[q].state.Runnable?
      {
        if t[p].state == Runnable {
          flag := true;
        }
        p := p + 1;
      }
    }

    method MinPrio() returns (mn: int)
      ensures mn == Least(t, NPROC)
    {
      mn := 20;
      var p := 0;
      while p < NPROC
        invariant 0 <= p <= NPROC && mn == Least(t, p)
      {
        if t[p].state == Runnable {
          mn := if mn > t[p].prio then t[p].prio else mn;
        }
        p := p + 1;
      }
    }

    /** The candidate list, cut off where the code would write past its end. */
    method Candidates(mn: int, plist: array<nat>) returns (idx: nat, overflow: bool)
      requires plist.Length == PLIST
      modifies plist
      ensures overflow <==> |Ties(t, mn, NPROC)| > PLIST
      ensures !overflow ==> idx <= PLIST && plist[..idx] == Ties(t, mn, NPROC)
    {
      idx := 0;
      var p := 0;
      while p < NPROC
        invariant 0 <= p <= NPROC && 0 <= idx <= PLIST
        invariant plist[..idx] == Ties(t, mn, p)
      {
        if t[p].state == Runnable && t[p].prio == mn {
          if idx == PLIST {
            TiesGrow(t, mn, p + 1, NPROC);
            return idx, true;
          }
          plist[idx] := p;
          idx := idx + 1;
        }
        p := p + 1;
      }
      overflow := false;
    }

    /** The scheduler's three passes and its pick among the ties. */
    method Pick(ticks: Word) returns (ch: Choice)
      ensures ch == Choose(t, ticks, SomeRunnable(t))
    {
      hide Ties, Least, SomeRunnable;
      var flag := AnyRunnable();
      if !flag {
        return Nothing;
      }
      var mn := MinPrio();
      var plist := new nat[PLIST];
      var idx, overflow := Candidates(mn, plist);
      if overflow {
        return ListOverflow;
      }
      if idx == 0 {
        return DivideFault;
      }
      ch := Chosen(plist[ticks % idx]);
    }

    /** kill: the first slot with the process id is marked, and runnable if it was asleep; no other changes. */
    method Kill(pid: nat) returns (found: bool)
      modifies this`t
      ensures !found ==> t == old(t) && forall q :: 0 <= q < NPROC ==> t[q].pid != pid
      ensures found ==>
                exists p :: 0 <= p < NPROC && old(t)[p].pid == pid && (forall q :: 0 <= q < p ==> old(t)[q].pid != pid)
                            && t[p].killed && !t[p].state.Sleeping?
                            && t[p].state == (if old(t)[p].state.Sleeping? then Runnable else old(t)[p].state)
                            && t == old(t)[p := old(t)[p].(killed := true, state := t[p].state)]
    {
      var p := 0;
      while p < NPROC
        invariant 0 <= p <= NPROC && t == old(t)
        invariant forall q :: 0 <= q < p ==> t[q].pid != pid
      {
        if t[p].pid == pid {
          t := t[p := t[p].(killed := true)];
          if t[p].state == Sleeping {
            t := t[p := t[p].(state := Runnable)];
          }
          assert t == old(t)[p := old(t)[p].(killed := true, state := t[p].state)];
          return true;
        }
        p := p + 1;
      }
      return false;
    }
  }
}
