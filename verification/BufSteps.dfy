/** Every step of the buffer cache keeps its invariant, and what that means for whole runs. */
module BufSteps {
  import opened Params
  import opened Block
  import opened Sequences
  import opened BufCache

  // ------------------------------------------------------------ each part is kept

  lemma {:induction false} CountedAdd(bufs: seq<Buf>, refs: map<nat, Ref>, h: nat, b: nat, buf: Buf)
    requires Counted(bufs, refs) && h !in refs && b < |bufs| && buf.refcnt == bufs[b].refcnt + 1
    ensures Counted(bufs[b := buf], refs[h := Ref(b, Waiting)])
  {
    var refs' := refs[h := Ref(b, Waiting)];
    forall c | 0 <= c < |bufs| ensures bufs[b := buf][c].refcnt == |On(refs', c)| {
      assert On(refs', c) == if c == b then On(refs, c) + {h} else On(refs, c);
    }
  }

  lemma {:induction false} CountedSame(bufs: seq<Buf>, refs: map<nat, Ref>, h: nat, phase: Phase, buf: Buf)
    requires Counted(bufs, refs) && h in refs && buf.refcnt == bufs[refs[h].buf].refcnt
    ensures Counted(bufs[refs[h].buf := buf], refs[h := Ref(refs[h].buf, phase)])
  {
    var refs' := refs[h := Ref(refs[h].buf, phase)];
    forall c | 0 <= c < |bufs| ensures On(refs', c) == On(refs, c) {
    }
  }

  lemma {:induction false} CountedDrop(bufs: seq<Buf>, refs: map<nat, Ref>, h: nat)
    requires Counted(bufs, refs) && h in refs && bufs[refs[h].buf].refcnt > 0
    ensures var b := refs[h].buf;
            Counted(bufs[b := bufs[b].(refcnt := bufs[b].refcnt - 1)], refs - {h})
  {
    var b, refs' := refs[h].buf, refs - {h};
    forall c | 0 <= c < |bufs| ensures |On(refs', c)| == if c == b then bufs[c].refcnt - 1 else bufs[c].refcnt {
      assert On(refs', c) == On(refs, c) - {h};
    }
  }

  /** A buffer that is referenced has a positive count: so brelse never takes it below zero. */
  lemma {:induction false} Referenced(bufs: seq<Buf>, refs: map<nat, Ref>, h: nat)
    requires Counted(bufs, refs) && h in refs
    ensures bufs[refs[h].buf].refcnt > 0
  {
    assert h in On(refs, refs[h].buf);
  }

  /** Moving to the front changes the order of no two others. */
  lemma {:induction false} FrontPairs(order: seq<nat>, b: nat, i: nat, j: nat)
    requires Listed(order) && b in order && i < j < |Front(order, b)|
    ensures var r := Front(order, b);
            && r[j] != b && r[j] in order && (i == 0 ==> r[i] == b)
            && (i > 0 ==> exists k, l :: 0 <= k < l < |order| && order[k] == r[i] != b && order[l] == r[j])
  {
    var p, r := Position(order, b), Front(order, b);
    var l := if j - 1 < p then j - 1 else j;
    assert r[j] == order[l] && order[l] != order[p];
    if i > 0 {
      var k := if i - 1 < p then i - 1 else i;
      assert r[i] == order[k] && order[k] != order[p];
    }
  }

  lemma {:induction false} FrontListed(order: seq<nat>, b: nat)
    requires Listed(order) && b in order
    ensures Listed(Front(order, b))
  {
    var k := Position(order, b);
    var rest, r := Dropped(order, k), Front(order, b);
    forall c | c in order && c != b ensures c in rest {
      var j :| 0 <= j < |order| && order[j] == c;
      assert rest[if j < k then j else j - 1] == c;
    }
    forall c | c in r ensures c in order {
    }
    forall i, j | 0 <= i < j < |r| ensures r[i] != r[j] {
      FrontPairs(order, b, i, j);
    }
  }

  /** A change in the reference h, which was and is not changing its buffer, and in b's count. */
  lemma {:induction false} CoherentRefs(s: State, t: State, b: nat)
    requires Coherent(s) && |t.bufs| == |s.bufs| && b < |s.bufs| && t.disk == s.disk && t.last == s.last
    requires t.bufs == s.bufs[b := s.bufs[b].(refcnt := t.bufs[b].refcnt)]
    requires forall h :: h in s.refs && s.refs[h].phase == Holding(true) ==> h in t.refs && t.refs[h] == s.refs[h]
    ensures Coherent(t)
  {
    forall c | 0 <= c < |t.bufs| ensures Sound(t, c) {
      assert Sound(s, c);
    }
    forall k | 0 <= k < |t.disk| ensures Stored(t, k) {
      assert Stored(s, k);
      if s.disk[k] != s.last[k] {
        var c :| 0 <= c < |s.bufs| && Pins(s.bufs[c], k);
        assert Pins(t.bufs[c], k);
      }
    }
  }

  lemma {:induction false} CoherentMiss(s: State, a: Action)
    requires Inv(s) && Enabled(s, a) && a.Get? && !Cached(s.bufs, a.dev, a.blockno)
    ensures Coherent(After(s, a)) && Distinct(After(s, a).bufs)
  {
    hide Listed, Exclusive, Counted;
    var t := After(s, a);
    forall c | 0 <= c < |t.bufs| ensures Sound(t, c) {
      assert Sound(s, c);
      if Changing(s.refs, c) {
        var h :| h in s.refs && s.refs[h] == Ref(c, Holding(true));
        assert t.refs[h] == Ref(c, Holding(true));
      }
    }
    forall k | 0 <= k < |t.disk| ensures Stored(t, k) {
      assert Stored(s, k);
      if s.disk[k] != s.last[k] {
        var c :| 0 <= c < |s.bufs| && Pins(s.bufs[c], k);
        assert Pins(t.bufs[c], k);
      }
    }
    forall i, j | 0 <= i < j < |t.bufs| && Holds(t.bufs[i], t.bufs[j].dev, t.bufs[j].blockno)
      ensures Holds(t.bufs[i], 0, 0)
    {
      assert forall c :: 0 <= c < |s.bufs| ==> !Holds(s.bufs[c], a.dev, a.blockno);
    }
  }

  /** What iderw reads is what was last written: no other buffer has the block, so none has it dirty. */
  lemma {:induction false} ReadsLast(s: State, a: Action)
    requires Inv(s) && Enabled(s, a) && a.Read?
    ensures var k := s.bufs[s.refs[a.h].buf].blockno; s.disk[k] == s.last[k]
  {
    hide Listed, Exclusive, Counted, Distinct;
    var b := s.refs[a.h].buf;
    var k := s.bufs[b].blockno;
    assert Stored(s, k);
    if s.disk[k] != s.last[k] {
      var c :| 0 <= c < |s.bufs| && Pins(s.bufs[c], k);
      OtherBlock(s, b, c, k);
    }
  }

  lemma {:induction false} CoherentRead(s: State, a: Action)
    requires Inv(s) && Enabled(s, a) && a.Read?
    ensures Coherent(After(s, a))
  {
    hide Listed, Exclusive, Counted, Distinct;
    var t := After(s, a);
    ReadsLast(s, a);
    forall c | 0 <= c < |t.bufs| ensures Sound(t, c) {
      assert Sound(s, c);
    }
    forall j | 0 <= j < |t.disk| ensures Stored(t, j) {
      assert Stored(s, j);
      if s.disk[j] != s.last[j] {
        var c :| 0 <= c < |s.bufs| && Pins(s.bufs[c], j);
        assert Pins(t.bufs[c], j);
      }
    }
  }

  lemma {:induction false} CoherentChange(s: State, a: Action)
    requires Inv(s) && Enabled(s, a) && a.Change?
    ensures Coherent(After(s, a))
  {
    hide Listed, Exclusive, Counted, Distinct;
    var t, b := After(s, a), s.refs[a.h].buf;
    assert t.refs[a.h] == Ref(b, Holding(true));
    forall c | 0 <= c < |t.bufs| ensures Sound(t, c) {
      assert Sound(s, c);
      if Changing(s.refs, c) {
        var h :| h in s.refs && s.refs[h] == Ref(c, Holding(true));
        assert t.refs[h] == Ref(c, Holding(true));
      }
    }
    forall j | 0 <= j < |t.disk| ensures Stored(t, j) {
      assert Stored(s, j);
      if s.disk[j] != s.last[j] {
        var c :| 0 <= c < |s.bufs| && Pins(s.bufs[c], j);
        assert Pins(t.bufs[c], j);
      }
    }
  }

  /** Logging pins the new contents; writing puts them on the disk. */
  lemma {:induction false} CoherentWritten(s: State, a: Action)
    requires Inv(s) && Enabled(s, a) && (a.LogWrite? || a.Write?)
    ensures Coherent(After(s, a))
  {
    hide Listed, Exclusive, Counted, Distinct;
    var t, b := After(s, a), s.refs[a.h].buf;
    var k := s.bufs[b].blockno;
    assert Sound(s, b);
    forall c | 0 <= c < |t.bufs| ensures Sound(t, c) {
      assert Sound(s, c);
      if s.bufs[c].valid && s.bufs[c].blockno == k {
        OtherBlock(s, b, c, k);
      }
      if c != b && Changing(s.refs, c) {
        var h :| h in s.refs && s.refs[h] == Ref(c, Holding(true));
        assert t.refs[h] == Ref(c, Holding(true));
      }
    }
    forall j | 0 <= j < |t.disk| ensures Stored(t, j) {
      assert Stored(s, j);
      if j == k {
        assert a.LogWrite? ==> Pins(t.bufs[b], k);
      } else if s.disk[j] != s.last[j] {
        var c :| 0 <= c < |s.bufs| && Pins(s.bufs[c], j);
        assert Pins(t.bufs[c], j);
      }
    }
  }

  lemma {:induction false} CoherentKept(s: State, a: Action)
    requires Inv(s) && Enabled(s, a)
    ensures Coherent(After(s, a)) && Distinct(After(s, a).bufs)
  {
    hide Listed, Exclusive, Counted, Coherent, Victim, Front;
    match a {
      case Get(_, dev, blockno, b) =>
        if Cached(s.bufs, dev, blockno) {
          CoherentRefs(s, After(s, a), b);
        } else {
          CoherentMiss(s, a);
        }
      case Read(_) => CoherentRead(s, a);
      case Change(_, _) => CoherentChange(s, a);
      case LogWrite(_) => CoherentWritten(s, a);
      case Write(_) => CoherentWritten(s, a);
      case _ => CoherentRefs(s, After(s, a), s.refs[a.h].buf);
    }
  }

  lemma {:induction false} CountedKept(s: State, a: Action)
    requires Inv(s) && Enabled(s, a)
    ensures Counted(After(s, a).bufs, After(s, a).refs) && Exclusive(After(s, a).refs)
  {
    hide Listed, Distinct, Coherent, Counted, Front;
    var t := After(s, a);
    match a {
      case Get(h, _, _, b) => CountedAdd(s.bufs, s.refs, h, b, t.bufs[b]);
      case Drop(h) => CountedDrop(s.bufs, s.refs, h);
      case _ =>
        var b := s.refs[a.h].buf;
        CountedSame(s.bufs, s.refs, a.h, t.refs[a.h].phase, t.bufs[b]);
        assert t.refs == s.refs[a.h := Ref(b, t.refs[a.h].phase)] && t.bufs == s.bufs[b := t.bufs[b]];
    }
  }

  /** Every step of every interleaving keeps the invariant. */
  lemma {:induction false} InvKept(s: State, a: Action)
    requires Inv(s) && Enabled(s, a)
    ensures Inv(After(s, a))
  {
    hide Listed, Distinct, Coherent, Counted, Exclusive, Front, Victim;
    CoherentKept(s, a);
    CountedKept(s, a);
    if a.Drop? {
      FrontListed(s.order, s.refs[a.h].buf);
    }
  }

  /** The disk changes by bwrite only, in its one block. A buffer is dirty from a log_write of it to a bwrite of
      it, and valid from a read of its block until it is recycled. */
  lemma {:induction false} WriteBack(s: State, a: Action, b: nat)
    requires Inv(s) && Enabled(s, a) && b < NBUF
    ensures var t := After(s, a);
            var on := !a.Get? && s.refs[a.h].buf == b;
            && t.disk == (if a.Write? then s.disk[s.bufs[s.refs[a.h].buf].blockno := s.bufs[s.refs[a.h].buf].data]
                          else s.disk)
            && (t.bufs[b].dirty <==> (a.LogWrite? && on) || (s.bufs[b].dirty && !(a.Write? && on)))
            && (t.bufs[b].valid <==> (a.Read? && on)
                                     || (s.bufs[b].valid && Holds(t.bufs[b], s.bufs[b].dev, s.bufs[b].blockno)))
  {
    hide Listed, Counted, Exclusive, Distinct, Front;
    assert Sound(s, b);
    if a.Get? && !Cached(s.bufs, a.dev, a.blockno) {
      assert forall c :: 0 <= c < |s.bufs| ==> !Holds(s.bufs[c], a.dev, a.blockno);
    }
  }
}
