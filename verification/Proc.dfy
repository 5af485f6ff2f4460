/** The process table under ptable.lock: what each critical section does to it, on values. */
module Proc {
  import opened Params

  const MAXPRIO := 10
  const PLIST := 50

  datatype State = Unused | Embryo | Sleeping | Runnable | Running | Zombie

  /** What a process sleeps on: nothing, a process (only wait does that), or some other address. */
  datatype Chan = NoChan | ProcChan(slot: nat) | OtherChan(id: nat)

  /** A slot of the table; `parent` is a slot number or -1. */
  datatype Entry = Entry(state: State, pid: nat, parent: int, chan: Chan, killed: bool, prio: Word)

  type Table = s: seq<Entry> | |s| == NPROC witness seq(NPROC, _ => Entry(Unused, 0, -1, NoChan, false, 0))

  predicate Live(e: Entry) {
    e.state.Runnable? || e.state.Running? || e.state.Sleeping?
  }

  // ------------------------------------------------------------ sleep and wakeup

  function Woken(e: Entry, ch: Chan): Entry {
    if e.state.Sleeping? && e.chan == ch then e.(state := Runnable) else e
  }

  /** wakeup1 */
  function Wake(t: Table, ch: Chan): (r: Table)
    ensures forall p :: 0 <= p < NPROC ==> r[p] == Woken(t[p], ch)
  {
    seq<Entry>(NPROC, p requires 0 <= p < NPROC => Woken(t[p], ch))
  }

  // ------------------------------------------------------------ exit and wait

  predicate HasZombieChild(t: Table, p: int) {
    exists q :: 0 <= q < NPROC && t[q].parent == p && t[q].state.Zombie?
  }

  /** The children of p passed to init. */
  function Adopted(t: Table, p: nat, init: nat): (r: Table)
    ensures forall q :: 0 <= q < NPROC ==> r[q] == if t[q].parent == p then t[q].(parent := init) else t[q]
  {
    seq<Entry>(NPROC, q requires 0 <= q < NPROC => if t[q].parent == p then t[q].(parent := init) else t[q])
  }

  /** The address of a slot, or the null pointer, as a channel. */
  function SlotChan(p: int): Chan {
    if p < 0 then NoChan else ProcChan(p)
  }

  /** exit, up to the call of sched: wake the parent, pass the children to init, become a zombie. */
  function Exited(t: Table, p: nat, init: nat): Table
    requires p < NPROC
  {
    var t1 := Wake(t, SlotChan(t[p].parent));
    var t2 := Adopted(t1, p, init);
    var t3 := if HasZombieChild(t1, p) then Wake(t2, ProcChan(init)) else t2;
    t3[p := t3[p].(state := Zombie)]
  }

  function Reaped(e: Entry): Entry {
    e.(state := Unused, pid := 0, parent := -1, killed := false, prio := 0)
  }

  /** What one scan of wait finds. */
  datatype Scan = Child(q: nat) | NoChildren | MustSleep

  ghost predicate IsScan(t: Table, p: nat, s: Scan)
    requires p < NPROC
  {
    match s
    case Child(q) =>
      && q < NPROC && t[q].parent == p && t[q].state.Zombie?
      && forall r :: 0 <= r < q ==> !(t[r].parent == p && t[r].state.Zombie?)
    case NoChildren => !HasZombieChild(t, p) && ((forall q :: 0 <= q < NPROC ==> t[q].parent != p) || t[p].killed)
    case MustSleep => !HasZombieChild(t, p) && (exists q :: 0 <= q < NPROC && t[q].parent == p) && !t[p].killed
  }

  /** wait, one turn of its loop, for a scan result s. */
  function Waited(t: Table, p: nat, s: Scan): Table
    requires p < NPROC && (s.Child? ==> s.q < NPROC)
  {
    match s
    case Child(q) => t[q := Reaped(t[q])]
    case NoChildren => t
    case MustSleep => t[p := t[p].(state := Sleeping, chan := ProcChan(p))]
  }

  // ------------------------------------------------------------ scheduling

  /** The scheduler's adjustment of the process it has just run. */
  function Adjusted(e: Entry, sameTick: bool): Entry {
    if sameTick then (if e.prio > 0 then e.(prio := e.prio - 1) else e)
    else if e.prio < MAXPRIO then e.(prio := e.prio + 1) else e
  }

  /** The runnable slots below n with priority mn, in table order. */
  function Ties(t: Table, mn: int, n: nat): seq<nat>
    requires n <= NPROC
  {
    if n == 0 then []
    else
      var r := Ties(t, mn, n - 1);
      if t[n-1].state.Runnable? && t[n-1].prio == mn then r + [n - 1] else r
  }

  /** Ties lists exactly the runnable slots of that priority, each once and in order. */
  lemma {:induction false} TiesAre(t: Table, mn: int, n: nat)
    requires n <= NPROC
    ensures var s := Ties(t, mn, n);
            && (forall i :: 0 <= i < |s| ==> s[i] < n && t[s[i]].state.Runnable? && t[s[i]].prio == mn)
            && (forall p :: 0 <= p < n && t[p].state.Runnable? && t[p].prio == mn ==> p in s)
            && (forall i, j :: 0 <= i < j < |s| ==> s[i] < s[j])
  {
    if n > 0 { TiesAre(t, mn, n - 1); }
  }

  /** The scheduler's minimum: 20, or the smallest priority of a runnable slot below n if that is less. */
  function Least(t: Table, n: nat): (mn: int)
    requires n <= NPROC
    ensures mn <= 20 && forall p :: 0 <= p < n && t[p].state.Runnable? ==> mn <= t[p].prio
    ensures mn < 20 ==> exists p :: 0 <= p < n && t[p].state.Runnable? && t[p].prio == mn
  {
    if n == 0 then 20
    else
      var mn := Least(t, n - 1);
      if t[n-1].state.Runnable? && mn > t[n-1].prio then t[n-1].prio else mn
  }

  ghost predicate SomeRunnable(t: Table) {
    exists p :: 0 <= p < NPROC && t[p].state.Runnable?
  }

  /** Nothing to run; a remainder by zero; a write past the end of plist; or a choice. */
  datatype Choice = Nothing | DivideFault | ListOverflow | Chosen(p: nat)

  function Choose(t: Table, ticks: Word, any: bool): Choice {
    var s := Ties(t, Least(t, NPROC), NPROC);
    if !any then Nothing
    else if |s| > PLIST then ListOverflow
    else if |s| == 0 then DivideFault
    else Chosen(s[ticks % |s|])
  }

  /** The scheduler runs a process exactly when one is runnable, the least priority is at most 20 and at
      most 50 processes share it; it is then runnable and no runnable process has a smaller priority. */
  lemma {:induction false} ChoiceIsLeast(t: Table, ticks: Word)
    ensures var ch := Choose(t, ticks, SomeRunnable(t));
            var mn := Least(t, NPROC);
            && (ch == Nothing <==> !SomeRunnable(t))
            && (ch == DivideFault <==>
                  SomeRunnable(t) && forall p :: 0 <= p < NPROC && t[p].state.Runnable? ==> t[p].prio > 20)
            && (ch == ListOverflow <==> |Ties(t, mn, NPROC)| > PLIST)
            && (ch.Chosen? ==> ch.p < NPROC && t[ch.p].state.Runnable?
                               && forall q :: 0 <= q < NPROC && t[q].state.Runnable? ==> t[ch.p].prio <= t[q].prio)
  {
    var mn := Least(t, NPROC);
    var s := Ties(t, mn, NPROC);
    TiesAre(t, mn, NPROC);
    if SomeRunnable(t) && s == [] {
      forall p | 0 <= p < NPROC && t[p].state.Runnable? ensures t[p].prio > 20 {
        assert t[p].prio != mn;
      }
    }
    if s != [] {
      assert t[s[0]].state.Runnable? && t[s[0]].prio == mn;
    }
  }
}
