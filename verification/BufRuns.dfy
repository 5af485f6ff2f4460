/** What the buffer cache promises over whole runs from boot, told by the run's own actions: which contents a
    holder sees, and which buffer a miss recycles. */
module BufRuns {
  import opened Params
  import opened Block
  import opened BufCache
  import opened BufSteps

  ghost function Step(s: State, a: Action): (r: State)
    requires Inv(s)
    ensures Inv(r)
  {
    if Enabled(s, a) then
      InvKept(s, a);
      After(s, a)
    else s
  }

  /** The state that a run from boot reaches; an action that the code cannot take does nothing. */
  ghost function Run(disk: seq<Data>, acts: seq<Action>): (r: State)
    ensures Inv(r)
  {
    if acts == [] then
      BootInv(disk);
      Boot(disk)
    else Step(Run(disk, acts[..|acts| - 1]), acts[|acts| - 1])
  }

  // ------------------------------------------------------------ one step

  lemma {:induction false} IdleUnused(s: State, h: nat, b: nat)
    requires Inv(s) && h in s.refs && b < NBUF && Idle(s.bufs[b])
    ensures s.refs[h].buf != b
  {
    hide Distinct, Coherent, Exclusive, Listed;
    if s.refs[h].buf == b { Referenced(s.bufs, s.refs, h); }
  }

  /** A reference keeps its block. */
  lemma {:induction false} BlockStep(s: State, a: Action, h: nat)
    requires Inv(s) && Enabled(s, a) && h in After(s, a).refs
    ensures var t := After(s, a);
            && t.refs[h].buf < |t.bufs| && ((a.Get? && a.h == h) || Has(s, h))
            && t.bufs[t.refs[h].buf].blockno == if a.Get? && a.h == h then a.blockno else s.bufs[s.refs[h].buf].blockno
  {
    hide Distinct, Coherent, Exclusive, Listed;
    if a.Get? && a.h != h && !Cached(s.bufs, a.dev, a.blockno) {
      IdleUnused(s, h, a.b);
    }
  }

  /** What a holder has in its hands comes from its own change or, when it takes the lock of a valid buffer or
      reads the block, from the last write. */
  lemma {:induction false} SeenStep(s: State, a: Action, h: nat)
    requires Inv(s) && Enabled(s, a) && Owns(After(s, a), h)
    ensures var t := After(s, a);
            var k, data := t.bufs[t.refs[h].buf].blockno, t.bufs[t.refs[h].buf].data;
            && k < |s.last|
            && if a.h == h && a.Change? then data == a.d
               else if a.h == h && (a.Lock? || a.Read?) then data == s.last[k]
               else Owns(s, h) && data == s.bufs[s.refs[h].buf].data
  {
    hide Distinct, Coherent, Counted, Listed, Front;
    var t := After(s, a);
    InvKept(s, a);
    AbstractDisk(s, a);
    if a.h == h {
      if a.Lock? { Transparent(t, h); }
      if a.Read? { ReadsLast(s, a); }
    } else if a.Get? && !Cached(s.bufs, a.dev, a.blockno) {
      IdleUnused(s, h, a.b);
    }
  }

  // ------------------------------------------------------------ contents

  /** The block that h last asked bget for. */
  ghost function BlockOf(disk: seq<Data>, acts: seq<Action>, h: nat): nat {
    if acts == [] then 0
    else
      var front, a := acts[..|acts| - 1], acts[|acts| - 1];
      if a.Get? && a.h == h && Enabled(Run(disk, front), a) then a.blockno else BlockOf(disk, front, h)
  }

  /** What h has in its hands: the data of its last change, or else the block as it was when h took its lock or
      read it. */
  ghost function Seen(disk: seq<Data>, acts: seq<Action>, h: nat): Data
    decreases |acts|
  {
    if acts == [] then Zeroes()
    else
      var front, a := acts[..|acts| - 1], acts[|acts| - 1];
      if a.h != h || !Enabled(Run(disk, front), a) then Seen(disk, front, h)
      else if a.Change? then a.d
      else if a.Lock? || a.Read? then Contents(disk, front, BlockOf(disk, front, h))
      else Seen(disk, front, h)
  }

  /** A disk without a cache: block k has what its last log_write or bwrite was given, or what it had at boot. */
  ghost function Contents(disk: seq<Data>, acts: seq<Action>, k: nat): Data
    decreases |acts|
  {
    if acts == [] then (if k < |disk| then disk[k] else Zeroes())
    else
      var front, a := acts[..|acts| - 1], acts[|acts| - 1];
      if (a.LogWrite? || a.Write?) && Enabled(Run(disk, front), a) && BlockOf(disk, front, a.h) == k
      then Seen(disk, front, a.h)
      else Contents(disk, front, k)
  }

  lemma {:induction false} BlockKnown(disk: seq<Data>, acts: seq<Action>, h: nat)
    requires h in Run(disk, acts).refs
    ensures var s := Run(disk, acts); Has(s, h) && s.bufs[s.refs[h].buf].blockno == BlockOf(disk, acts, h)
  {
    hide Inv, Enabled, After;
    if acts != [] {
      var front, a := acts[..|acts| - 1], acts[|acts| - 1];
      var s := Run(disk, front);
      if Enabled(s, a) {
        BlockStep(s, a, h);
        if !(a.Get? && a.h == h) { BlockKnown(disk, front, h); }
      } else {
        BlockKnown(disk, front, h);
      }
    }
  }

  ghost predicate SeenKnown(disk: seq<Data>, acts: seq<Action>) {
    var s := Run(disk, acts);
    && |s.last| == |disk|
    && (forall k :: 0 <= k < |disk| ==> s.last[k] == Contents(disk, acts, k))
    && (forall h :: Owns(s, h) ==> s.bufs[s.refs[h].buf].data == Seen(disk, acts, h))
  }

  lemma {:induction false} WriterOwns(s: State, a: Action)
    requires Enabled(s, a) && (a.LogWrite? || a.Write?)
    ensures Owns(s, a.h) && a.h in s.refs
  {
  }

  lemma {:induction false} LastKnownStep(disk: seq<Data>, acts: seq<Action>)
    requires acts != [] && SeenKnown(disk, acts[..|acts| - 1])
    ensures var s := Run(disk, acts);
            |s.last| == |disk| && forall k :: 0 <= k < |disk| ==> s.last[k] == Contents(disk, acts, k)
  {
    hide Inv;
    var front, a := acts[..|acts| - 1], acts[|acts| - 1];
    var s := Run(disk, front);
    if Enabled(s, a) {
      hide Enabled, After, Seen;
      AbstractDisk(s, a);
      if a.LogWrite? || a.Write? {
        WriterOwns(s, a);
        BlockKnown(disk, front, a.h);
      }
    }
  }

  lemma {:induction false} SeenKnownStep(disk: seq<Data>, acts: seq<Action>, h: nat)
    requires acts != [] && SeenKnown(disk, acts[..|acts| - 1]) && Owns(Run(disk, acts), h)
    ensures var s := Run(disk, acts); s.bufs[s.refs[h].buf].data == Seen(disk, acts, h)
  {
    hide Inv, Enabled, After, Contents;
    var front, a := acts[..|acts| - 1], acts[|acts| - 1];
    var s := Run(disk, front);
    if Enabled(s, a) {
      SeenStep(s, a, h);
      BlockStep(s, a, h);
      if !(a.Get? && a.h == h) { BlockKnown(disk, front, h); }
    }
  }

  lemma {:induction false} AllSeenKnown(disk: seq<Data>, acts: seq<Action>)
    ensures SeenKnown(disk, acts)
  {
    if acts != [] {
      hide Inv, Enabled, After, Seen, Contents, Run;
      AllSeenKnown(disk, acts[..|acts| - 1]);
      LastKnownStep(disk, acts);
      forall h | Owns(Run(disk, acts), h)
        ensures var s := Run(disk, acts); s.bufs[s.refs[h].buf].data == Seen(disk, acts, h)
      {
        SeenKnownStep(disk, acts, h);
      }
    }
  }

  /** The cache cannot be seen: in every run from boot, of any number of processes, whoever holds a buffer has
      the block it asked for, with the data that a disk without a cache would have given it. If it has changed
      nothing since it last wrote, that is what the block was last given by anybody. */
  lemma {:induction false} ReadsSeeWrites(disk: seq<Data>, acts: seq<Action>, h: nat)
    requires Owns(Run(disk, acts), h)
    ensures var s := Run(disk, acts);
            var f, k := s.bufs[s.refs[h].buf], BlockOf(disk, acts, h);
            && f.dev == ROOTDEV && f.blockno == k && f.data == Seen(disk, acts, h)
            && (s.refs[h].phase == Holding(false) ==> f.data == Contents(disk, acts, k))
  {
    var s := Run(disk, acts);
    assert Sound(s, s.refs[h].buf);
    hide Inv, Seen, Contents, Run, Sound;
    AllSeenKnown(disk, acts);
    BlockKnown(disk, acts, h);
    if s.refs[h].phase == Holding(false) { Transparent(s, h); }
  }

  // ------------------------------------------------------------ eviction

  /** The step is a brelse of b by its last user. */
  ghost predicate Releases(s: State, a: Action, b: nat) {
    Enabled(s, a) && a.Drop? && s.refs[a.h].buf == b && s.bufs[b].refcnt == 1
  }

  /** The place, from 1, of the last release of b in the run; 0 if there is none. */
  ghost function LastRelease(disk: seq<Data>, acts: seq<Action>, b: nat): (n: nat)
    ensures n <= |acts|
  {
    if acts == [] then 0
    else
      var front, a := acts[..|acts| - 1], acts[|acts| - 1];
      if Releases(Run(disk, front), a, b) then |acts| else LastRelease(disk, front, b)
  }

  /** a was released after b; of two never released, a has the larger number. */
  ghost predicate Newer(disk: seq<Data>, acts: seq<Action>, a: nat, b: nat) {
    var x, y := LastRelease(disk, acts, a), LastRelease(disk, acts, b);
    x > y || (x == y == 0 && a > b)
  }

  lemma {:induction false} OrderStep(s: State, a: Action)
    requires Inv(s)
    ensures (forall b :: !Releases(s, a, b)) ==> Step(s, a).order == s.order
    ensures forall b :: Releases(s, a, b) ==> b in s.order && Step(s, a).order == Front(s.order, b)
  {
    hide Inv;
    if a.Drop? && Enabled(s, a) {
      assert s.bufs[s.refs[a.h].buf].refcnt == 1 ==> Releases(s, a, s.refs[a.h].buf);
    }
  }

  lemma {:induction false} OneReleased(s: State, a: Action, b: nat, c: nat)
    requires Releases(s, a, b) && Releases(s, a, c)
    ensures b == c
  {
  }

  /** The list is in the order of the last release, however the run went. */
  lemma {:induction false} OrderedByRelease(disk: seq<Data>, acts: seq<Action>, i: nat, j: nat)
    requires i < j < |Run(disk, acts).order|
    ensures var order := Run(disk, acts).order; Newer(disk, acts, order[i], order[j])
    decreases |acts|
  {
    if acts == [] {
    } else {
      hide Enabled, After, Step;
      var front, a := acts[..|acts| - 1], acts[|acts| - 1];
      var s, r := Run(disk, front), Run(disk, acts);
      OrderStep(s, a);
      if b :| Releases(s, a, b) {
        FrontPairs(s.order, b, i, j);
        hide Releases, Front;
        if r.order[j] != b && Releases(s, a, r.order[j]) { OneReleased(s, a, b, r.order[j]); }
        if i > 0 {
          var k, l :| 0 <= k < l < |s.order| && s.order[k] == r.order[i] != b && s.order[l] == r.order[j];
          if Releases(s, a, r.order[i]) { OneReleased(s, a, b, r.order[i]); }
          OrderedByRelease(disk, front, k, l);
        }
      } else {
        OrderedByRelease(disk, front, i, j);
      }
    }
  }

  /** Least recently used: in every run from boot, a bget that misses recycles, among the clean buffers nobody
      refers to, the one whose last release by its last user comes first in the run, a buffer never released
      before all others, and of these the lowest. */
  lemma {:induction false} OldestRecycled(disk: seq<Data>, acts: seq<Action>, a: Action, c: nat)
    requires var s := Run(disk, acts);
             a.Get? && Enabled(s, a) && !Cached(s.bufs, a.dev, a.blockno) && c < NBUF && Idle(s.bufs[c]) && c != a.b
    ensures Idle(Run(disk, acts).bufs[a.b])
    ensures var x, y := LastRelease(disk, acts, a.b), LastRelease(disk, acts, c); x < y || (x == y == 0 && a.b < c)
  {
    hide Distinct, Counted, Exclusive, Coherent, Run, LastRelease;
    var s := Run(disk, acts);
    var i :| && 0 <= i < |s.order| && s.order[i] == a.b
             && forall j :: i < j < |s.order| && s.order[j] < |s.bufs| ==> !Idle(s.bufs[s.order[j]]);
    assert c in s.order;
    var j :| 0 <= j < |s.order| && s.order[j] == c;
    OrderedByRelease(disk, acts, j, i);
  }
}
