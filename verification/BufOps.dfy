/** bio.c and memide.c's iderw on their own data: the next/prev ring relinked in place, buffers and disk
    updated field by field. Each critical section takes the step of the machine in BufCache. */
module BufOps {
  import opened Params
  import opened Block
  import opened BufCache
  import opened BufSteps
  import opened Sequences

  const HEAD := NBUF

  // ------------------------------------------------------------ the ring

  /** The ring's members in order, with the head before the first and after the last. */
  function At(order: seq<nat>, i: nat): nat {
    if 0 < i <= |order| then order[i - 1] else HEAD
  }

  ghost predicate Linked(next: seq<nat>, prev: seq<nat>, order: seq<nat>, i: nat) {
    && At(order, i) < |next| && next[At(order, i)] == At(order, i + 1)
    && At(order, i + 1) < |prev| && prev[At(order, i + 1)] == At(order, i)
  }

  /** next and prev form one ring through the head and every buffer of `order`, each once. */
  ghost predicate Ring(next: seq<nat>, prev: seq<nat>, order: seq<nat>) {
    && |next| == |prev| == NBUF + 1
    && (forall i :: 0 <= i < |order| ==> order[i] < NBUF)
    && (forall i, j :: 0 <= i < j < |order| ==> order[i] != order[j])
    && (forall i :: 0 <= i <= |order| ==> Linked(next, prev, order, i))
  }

  lemma {:induction false} RingInsert(next: seq<nat>, prev: seq<nat>, order: seq<nat>, b: nat)
    requires Ring(next, prev, order) && b < NBUF && b !in order
    ensures next[HEAD] < |prev|
    ensures Ring(next[b := next[HEAD]][HEAD := b], prev[b := HEAD][next[HEAD] := b], [b] + order)
  {
    assert Linked(next, prev, order, 0);
    var n, p, r := next[b := next[HEAD]][HEAD := b], prev[b := HEAD][next[HEAD] := b], [b] + order;
    forall i | 0 <= i <= |r| ensures Linked(n, p, r, i) {
      if i > 0 {
        assert Linked(next, prev, order, i - 1) && At(r, i + 1) == At(order, i);
        assert i > 1 ==> At(r, i) == At(order, i - 1) && At(order, i) != At(order, 1);
      }
    }
  }

  lemma {:induction false} RingRemove(next: seq<nat>, prev: seq<nat>, order: seq<nat>, k: nat)
    requires Ring(next, prev, order) && k < |order|
    ensures var b := order[k];
            && next[b] < |prev| && prev[b] < |next| && next[b] != b
            && Ring(next[prev[b] := next[b]], prev[next[b] := prev[b]], Dropped(order, k))
  {
    var b := order[k];
    assert Linked(next, prev, order, k) && Linked(next, prev, order, k + 1);
    assert At(order, k + 1) == b;
    var n, p, r := next[prev[b] := next[b]], prev[next[b] := prev[b]], Dropped(order, k);
    forall i | 0 <= i <= |r| ensures Linked(n, p, r, i) {
      assert Linked(next, prev, order, if i < k then i else i + 1);
    }
  }

  lemma {:induction false} BufCount(s: State)
    requires Inv(s)
    ensures |s.bufs| == NBUF && |s.disk| == |s.last|
  {
  }

  /** The order misses no buffer. */
  lemma {:induction false} Complete(s: State, b: nat)
    requires Inv(s) && b < NBUF
    ensures |s.bufs| == NBUF && exists j :: 0 <= j < |s.order| && s.order[j] == b
  {
    assert b in s.order;
  }

  lemma {:induction false} VictimRange(s: State, b: nat)
    requires Inv(s) && Victim(s.bufs, s.order, b)
    ensures b < NBUF
  {
  }

  lemma {:induction false} CleanIfInvalid(s: State, b: nat)
    requires Inv(s) && b < |s.bufs|
    ensures s.bufs[b].dirty ==> s.bufs[b].valid
    ensures s.bufs[b].valid ==> s.bufs[b].blockno < |s.disk|
  {
    assert Sound(s, b);
  }

  lemma {:induction false} DropEnabled(s: State, h: nat)
    requires Inv(s) && Has(s, h) && s.refs[h].phase == Leaving
    ensures Enabled(s, Drop(h)) && s.refs[h].buf < NBUF
  {
    hide Exclusive, Distinct, Coherent;
    Referenced(s.bufs, s.refs, h);
    assert s.refs[h].buf in s.order;
  }

  lemma {:induction false} RingBounds(next: seq<nat>, prev: seq<nat>, order: seq<nat>, k: nat)
    requires Ring(next, prev, order) && k < |order|
    ensures |next| == |prev| == NBUF + 1 && order[k] < NBUF
  {
  }

  lemma {:induction false} Gone(next: seq<nat>, prev: seq<nat>, order: seq<nat>, k: nat)
    requires Ring(next, prev, order) && k < |order|
    ensures order[k] !in Dropped(order, k)
  {
  }

  /** The six assignments of brelse. */
  lemma {:induction false} MoveFront(next: seq<nat>, prev: seq<nat>, order: seq<nat>, b: nat)
    requires Ring(next, prev, order) && b in order
    ensures b < |next| == |prev| == NBUF + 1 && next[b] < |prev| && prev[b] < |next| && b != HEAD && next[b] != b
    ensures var p := prev[next[b] := prev[b]];
            var n := next[p[b] := next[b]];
            n[HEAD] <= NBUF && Ring(n[b := n[HEAD]][HEAD := b], p[b := HEAD][n[HEAD] := b], Front(order, b))
  {
    hide Ring, Linked;
    var k := Position(order, b);
    RingRemove(next, prev, order, k);
    RingBounds(next, prev, order, k);
    var rest := Dropped(order, k);
    assert b !in rest by { Gone(next, prev, order, k); }
    RingInsert(next[prev[b] := next[b]], prev[next[b] := prev[b]], rest, b);
  }

  class Cache {
    var next: seq<nat>
    var prev: seq<nat>
    var bufs: seq<Buf>
    var disk: seq<Data>
    ghost var order: seq<nat>
    ghost var refs: map<nat, Ref>
    ghost var last: seq<Data>

    ghost function Value(): State
      reads this
    {
      State(bufs, order, refs, disk, last)
    }

    ghost predicate Valid()
      reads this
    {
      Ring(next, prev, order) && Inv(Value())
    }

    /** binit. */
    constructor (disk: seq<Data>)
      ensures Valid() && Value() == Boot(disk)
    {
      this.disk, last := disk, disk;
      refs := map[];
      bufs := seq(NBUF, _ => Buf(0, 0, false, false, 0, Zeroes()));
      next, prev := seq(NBUF, _ => 0) + [HEAD], seq(NBUF, _ => 0) + [HEAD];
      order := [];
      new;
      assert Linked(next, prev, order, 0);
      for b := 0 to NBUF
        invariant Ring(next, prev, order) && |order| == b && forall i :: 0 <= i < b ==> order[i] == b - 1 - i
        invariant Value() == Boot(disk).(order := order)
      {
        RingInsert(next, prev, order, b);
        next := next[b := next[HEAD]];
        prev := prev[b := HEAD];
        prev := prev[next[HEAD] := b];
        next := next[HEAD := b];
        order := [b] + order;
      }
      BootInv(disk);
      assert order == Boot(disk).order;
    }

    /** bget's first loop, from the most recently used end. */
    method Find(dev: nat, blockno: nat) returns (b: nat)
      requires Valid()
      ensures if Cached(bufs, dev, blockno) then b < NBUF && Holds(bufs[b], dev, blockno) else b == HEAD
    {
      hide Listed, Counted, Exclusive, Distinct, Coherent;
      BufCount(Value());
      b := next[HEAD];
      ghost var i: nat := 1;
      assert Linked(next, prev, order, 0);
      while b != HEAD
        invariant 1 <= i <= |order| + 1 && b == At(order, i)
        invariant forall j :: 0 <= j < i - 1 ==> !Holds(bufs[order[j]], dev, blockno)
        decreases |order| + 1 - i
      {
        if bufs[b].dev == dev && bufs[b].blockno == blockno {
          return;
        }
        assert Linked(next, prev, order, i);
        b := next[b];
        i := i + 1;
      }
      forall c: nat | c < NBUF ensures !Holds(bufs[c], dev, blockno) {
        Complete(Value(), c);
      }
    }

    /** bget's second loop, from the least recently used end. */
    method FindVictim() returns (b: nat)
      requires Valid()
      ensures b == HEAD <==> forall c :: 0 <= c < NBUF ==> !Idle(bufs[c])
      ensures b != HEAD ==> Victim(bufs, order, b)
    {
      hide Listed, Counted, Exclusive, Distinct, Coherent;
      BufCount(Value());
      b := prev[HEAD];
      ghost var i: nat := |order|;
      assert Linked(next, prev, order, |order|);
      while b != HEAD
        invariant 0 <= i <= |order| && b == At(order, i)
        invariant forall j :: i <= j < |order| ==> !Idle(bufs[order[j]])
        decreases i
      {
        if bufs[b].refcnt == 0 && !bufs[b].dirty {
          assert order[i - 1] == b && Idle(bufs[b]);
          return;
        }
        assert Linked(next, prev, order, i - 1);
        b := prev[b];
        i := i - 1;
      }
      forall c: nat | c < NBUF ensures !Idle(bufs[c]) {
        Complete(Value(), c);
      }
    }

    /** bget up to the release of bcache.lock; the result HEAD stands for the panic. */
    method Bget(ghost h: nat, dev: nat, blockno: nat) returns (b: nat)
      requires Valid() && h !in refs
      modifies this
      ensures b == HEAD <==> !Cached(old(bufs), dev, blockno) && forall c :: 0 <= c < NBUF ==> !Idle(old(bufs)[c])
      ensures b == HEAD ==> unchanged(this)
      ensures b != HEAD ==>
                && Enabled(old(Value()), Get(h, dev, blockno, b))
                && Value() == After(old(Value()), Get(h, dev, blockno, b))
      ensures Valid()
    {
      hide Ring, Inv, Victim, Cached;
      BufCount(Value());
      ghost var s := Value();
      b := Find(dev, blockno);
      if b != HEAD {
        InvKept(s, Get(h, dev, blockno, b));
        bufs := bufs[b := bufs[b].(refcnt := bufs[b].refcnt + 1)];
      } else {
        b := FindVictim();
        if b == HEAD {
          return;
        }
        VictimRange(s, b);
        InvKept(s, Get(h, dev, blockno, b));
        bufs := bufs[b := Buf(dev, blockno, false, false, 1, bufs[b].data)];
      }
      refs := refs[h := Ref(b, Waiting)];
    }

    /** memide.c's iderw, by a caller that holds the buffer's sleep lock or does not; false stands for its
        panics. */
    method Iderw(b: nat, held: bool) returns (ok: bool)
      requires b < |bufs|
      modifies `bufs, `disk
      ensures var f := old(bufs)[b];
              && (ok <==> held && !(f.valid && !f.dirty) && f.dev == ROOTDEV && f.blockno < |old(disk)|)
              && (ok && f.dirty ==>
                    && disk == old(disk)[f.blockno := f.data]
                    && bufs == old(bufs)[b := f.(dirty := false, valid := true)])
              && (ok && !f.dirty ==>
                    disk == old(disk) && bufs == old(bufs)[b := f.(data := disk[f.blockno], valid := true)])
              && (!ok ==> disk == old(disk) && bufs == old(bufs))
    {
      if !held {
        return false;
      }
      if bufs[b].valid && !bufs[b].dirty {
        return false;
      }
      if bufs[b].dev != 1 || bufs[b].blockno >= |disk| {
        return false;
      }
      if bufs[b].dirty {
        bufs := bufs[b := bufs[b].(dirty := false)];
        disk := disk[bufs[b].blockno := bufs[b].data];
      } else {
        bufs := bufs[b := bufs[b].(data := disk[bufs[b].blockno])];
      }
      bufs := bufs[b := bufs[b].(valid := true)];
      ok := true;
    }

    /** bread once it holds the sleep lock: the buffer has the last contents written to its block. */
    method Bread(ghost h: nat, b: nat) returns (ok: bool)
      requires Valid() && Has(Value(), h) && refs[h] == Ref(b, Holding(false))
      modifies `bufs, `disk
      ensures Valid()
      ensures ok <==> old(bufs)[b].valid || (old(bufs)[b].dev == ROOTDEV && old(bufs)[b].blockno < |disk|)
      ensures ok ==> bufs[b].valid && bufs[b].blockno < |last| && bufs[b].data == last[bufs[b].blockno]
      ensures bufs[b].dev == old(bufs)[b].dev && bufs[b].blockno == old(bufs)[b].blockno
      ensures ok && !old(bufs)[b].valid ==> Enabled(old(Value()), Read(h)) && Value() == After(old(Value()), Read(h))
      ensures !ok || old(bufs)[b].valid ==> Value() == old(Value())
    {
      hide Ring, Inv;
      BufCount(Value());
      CleanIfInvalid(Value(), b);
      ok := true;
      if !bufs[b].valid {
        ghost var s := Value();
        ok := Iderw(b, true);
        if ok {
          InvKept(s, Read(h));
        }
      }
      if ok {
        BufCount(Value());
        Transparent(Value(), h);
      }
    }

    /** bwrite. */
    method Bwrite(ghost h: nat, b: nat)
      requires Valid() && Owns(Value(), h) && refs[h].buf == b
      modifies `bufs, `disk, `refs, `last
      ensures Valid() && Value() == After(old(Value()), Write(h))
    {
      hide Ring, Inv;
      BufCount(Value());
      ghost var s := Value();
      InvKept(s, Write(h));
      AbstractDisk(s, Write(h));
      bufs := bufs[b := bufs[b].(dirty := true)];
      var ok := Iderw(b, true);
      assert ok && bufs == s.bufs[b := s.bufs[b].(dirty := false, valid := true)];
      last := last[s.bufs[b].blockno := s.bufs[b].data];
      refs := refs[h := Ref(b, Holding(false))];
    }

    /** log_write's last step, which keeps the buffer from being recycled. */
    method Pin(ghost h: nat, b: nat)
      requires Valid() && Owns(Value(), h) && refs[h].buf == b
      modifies `bufs, `refs, `last
      ensures Valid() && Value() == After(old(Value()), LogWrite(h))
    {
      hide Ring, Inv;
      InvKept(Value(), LogWrite(h));
      last := last[bufs[b].blockno := bufs[b].data];
      refs := refs[h := Ref(b, Holding(false))];
      bufs := bufs[b := bufs[b].(dirty := true)];
    }

    method MoveToFront(b: nat)
      requires Ring(next, prev, order) && b in order
      modifies `next, `prev, `order
      ensures Ring(next, prev, order) && order == Front(old(order), b)
    {
      hide Ring, Front, Position;
      MoveFront(next, prev, order, b);
      prev := prev[next[b] := prev[b]];
      next := next[prev[b] := next[b]];
      next := next[b := next[HEAD]];
      prev := prev[b := HEAD];
      prev := prev[next[HEAD] := b];
      next := next[HEAD := b];
      order := Front(order, b);
    }

    /** brelse once it has released the sleep lock: the last user moves the buffer to the front. */
    method Brelse(ghost h: nat, b: nat)
      requires Valid() && Has(Value(), h) && refs[h] == Ref(b, Leaving)
      modifies this
      ensures Valid() && Enabled(old(Value()), Drop(h)) && Value() == After(old(Value()), Drop(h)) && disk == old(disk)
      ensures old(bufs)[b].refcnt == 1 ==> order[0] == b && bufs[b].refcnt == 0
      ensures old(bufs)[b].refcnt != 1 ==> order == old(order)
    {
      hide Ring, Inv, Front, Position;
      ghost var s := Value();
      DropEnabled(s, h);
      InvKept(s, Drop(h));
      bufs := bufs[b := bufs[b].(refcnt := bufs[b].refcnt - 1)];
      refs := refs - {h};
      if bufs[b].refcnt == 0 {
        MoveToFront(b);
      }
    }
  }
}
