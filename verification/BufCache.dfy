/** The buffer cache over memide.c's disk as a machine: every interleaving of the critical sections of
    bio.c, with sleep locks, eviction and log_write's pinning, and the abstract disk it implements. */
module BufCache {
  import opened Params
  import opened Block
  import opened Sequences

  datatype Buf = Buf(dev: nat, blockno: nat, valid: bool, dirty: bool, refcnt: nat, data: Data)

  /** A reference to a buffer, from bget to the end of brelse. While the sleep lock is held, `changed` says
      that the data differ from what was last logged or written. */
  datatype Phase = Waiting | Holding(changed: bool) | Leaving

  datatype Ref = Ref(buf: nat, phase: Phase)

  /** `order` lists the buffers from most to least recently used, and `last` the contents last given to bwrite
      or log_write for each block: the disk that callers should see. */
  datatype State = State(bufs: seq<Buf>, order: seq<nat>, refs: map<nat, Ref>, disk: seq<Data>, last: seq<Data>)

  datatype Action =
    | Get(h: nat, dev: nat, blockno: nat, b: nat)
    | Lock(h: nat)
    | Read(h: nat)
    | Change(h: nat, d: Data)
    | LogWrite(h: nat)
    | Write(h: nat)
    | Unlock(h: nat)
    | Drop(h: nat)

  // ------------------------------------------------------------ choices

  predicate Holds(b: Buf, dev: nat, blockno: nat) {
    b.dev == dev && b.blockno == blockno
  }

  predicate Cached(bufs: seq<Buf>, dev: nat, blockno: nat) {
    exists b :: 0 <= b < |bufs| && Holds(bufs[b], dev, blockno)
  }

  predicate Idle(b: Buf) {
    b.refcnt == 0 && !b.dirty
  }

  /** The last buffer in the order that is unreferenced and clean. */
  ghost predicate Victim(bufs: seq<Buf>, order: seq<nat>, b: nat) {
    exists i :: 0 <= i < |order| && order[i] == b < |bufs| && Idle(bufs[b])
                && forall j :: i < j < |order| && order[j] < |bufs| ==> !Idle(bufs[order[j]])
  }

  /** The buffer bget settles on. */
  ghost predicate Chosen(s: State, dev: nat, blockno: nat, b: nat) {
    b < |s.bufs| && if Cached(s.bufs, dev, blockno) then Holds(s.bufs[b], dev, blockno) else Victim(s.bufs, s.order, b)
  }

  // ------------------------------------------------------------ steps

  ghost predicate Free(refs: map<nat, Ref>, b: nat) {
    forall h :: h in refs && refs[h].buf == b ==> !refs[h].phase.Holding?
  }

  ghost predicate Has(s: State, h: nat) {
    h in s.refs && s.refs[h].buf < |s.bufs|
  }

  /** h holds the sleep lock of a buffer that bread has returned. */
  ghost predicate Owns(s: State, h: nat) {
    && Has(s, h) && s.refs[h].phase.Holding? && s.bufs[s.refs[h].buf].valid
    && s.bufs[s.refs[h].buf].blockno < |s.disk| == |s.last|
  }

  /** When the code can take the step. Read and Write are iderw, which panics for other devices and for
      blocks past the end; Unlock is the callers' rule to log or write each change before brelse. */
  ghost predicate Enabled(s: State, a: Action) {
    match a
    case Get(h, dev, blockno, b) => h !in s.refs && Chosen(s, dev, blockno, b)
    case Lock(h) => Has(s, h) && s.refs[h].phase == Waiting && Free(s.refs, s.refs[h].buf)
    case Read(h) => Has(s, h) && s.refs[h].phase.Holding? && var b := s.bufs[s.refs[h].buf];
                    !b.valid && !b.dirty && b.dev == ROOTDEV && b.blockno < |s.disk|
    case Change(h, d) => Owns(s, h)
    case LogWrite(h) => Owns(s, h)
    case Write(h) => Owns(s, h)
    case Unlock(h) => Owns(s, h) && s.refs[h].phase == Holding(false)
    case Drop(h) => Has(s, h) && s.refs[h].phase == Leaving && s.bufs[s.refs[h].buf].refcnt > 0
                    && s.refs[h].buf in s.order
  }

  /** The order after b has moved to the front. */
  ghost function Front(order: seq<nat>, b: nat): (r: seq<nat>)
    requires b in order
    ensures |r| == |order| && r[0] == b
  {
    [b] + Dropped(order, Position(order, b))
  }

  ghost function After(s: State, a: Action): State
    requires Enabled(s, a)
  {
    match a
    case Get(h, dev, blockno, b) =>
      var buf := if Cached(s.bufs, dev, blockno) then s.bufs[b].(refcnt := s.bufs[b].refcnt + 1)
                 else Buf(dev, blockno, false, false, 1, s.bufs[b].data);
      s.(bufs := s.bufs[b := buf], refs := s.refs[h := Ref(b, Waiting)])
    case Lock(h) => s.(refs := s.refs[h := Ref(s.refs[h].buf, Holding(false))])
    case Read(h) =>
      var b := s.refs[h].buf;
      s.(bufs := s.bufs[b := s.bufs[b].(data := s.disk[s.bufs[b].blockno], valid := true)])
    case Change(h, d) =>
      var b := s.refs[h].buf;
      s.(bufs := s.bufs[b := s.bufs[b].(data := d)], refs := s.refs[h := Ref(b, Holding(true))])
    case LogWrite(h) =>
      var b := s.refs[h].buf;
      s.(bufs := s.bufs[b := s.bufs[b].(dirty := true)], refs := s.refs[h := Ref(b, Holding(false))],
         last := s.last[s.bufs[b].blockno := s.bufs[b].data])
    case Write(h) =>
      var b := s.refs[h].buf;
      s.(bufs := s.bufs[b := s.bufs[b].(dirty := false, valid := true)], refs := s.refs[h := Ref(b, Holding(false))],
         disk := s.disk[s.bufs[b].blockno := s.bufs[b].data], last := s.last[s.bufs[b].blockno := s.bufs[b].data])
    case Unlock(h) => s.(refs := s.refs[h := Ref(s.refs[h].buf, Leaving)])
    case Drop(h) =>
      var b := s.refs[h].buf;
      var t := s.(bufs := s.bufs[b := s.bufs[b].(refcnt := s.bufs[b].refcnt - 1)], refs := s.refs - {h});
      if t.bufs[b].refcnt == 0 then t.(order := Front(s.order, b)) else t
  }

  // ------------------------------------------------------------ invariant

  ghost function On(refs: map<nat, Ref>, b: nat): set<nat> {
    set h | h in refs && refs[h].buf == b
  }

  ghost predicate Counted(bufs: seq<Buf>, refs: map<nat, Ref>) {
    && (forall h :: h in refs ==> refs[h].buf < |bufs|)
    && (forall b :: 0 <= b < |bufs| ==> bufs[b].refcnt == |On(refs, b)|)
  }

  ghost predicate Exclusive(refs: map<nat, Ref>) {
    forall g, h ::
      && g in refs && h in refs && refs[g].phase.Holding? && refs[h].phase.Holding?
      && refs[g].buf == refs[h].buf
      ==> g == h
  }

  /** No block has two buffers; only the pair (0, 0), which binit leaves in every buffer, may repeat. */
  ghost predicate Distinct(bufs: seq<Buf>) {
    forall i, j :: 0 <= i < j < |bufs| && Holds(bufs[i], bufs[j].dev, bufs[j].blockno) ==> Holds(bufs[i], 0, 0)
  }

  ghost predicate Changing(refs: map<nat, Ref>, b: nat) {
    exists h :: h in refs && refs[h] == Ref(b, Holding(true))
  }

  /** A valid buffer has what was last written to its block, unless its holder is changing it. */
  ghost predicate Sound(s: State, b: nat)
    requires b < |s.bufs|
  {
    var f := s.bufs[b];
    && (f.dirty ==> f.valid)
    && (f.valid ==> f.dev == ROOTDEV && f.blockno < |s.last| && (f.data == s.last[f.blockno] || Changing(s.refs, b)))
  }

  ghost predicate Pins(b: Buf, k: nat) {
    b.dirty && Holds(b, ROOTDEV, k)
  }

  /** A block's last contents are on the disk unless a dirty buffer has them. */
  ghost predicate Stored(s: State, k: nat)
    requires k < |s.disk| == |s.last|
  {
    s.disk[k] == s.last[k] || exists b :: 0 <= b < |s.bufs| && Pins(s.bufs[b], k)
  }

  ghost predicate Coherent(s: State) {
    && |s.disk| == |s.last|
    && (forall b :: 0 <= b < |s.bufs| ==> Sound(s, b))
    && (forall k :: 0 <= k < |s.disk| ==> Stored(s, k))
  }

  /** Every buffer is in the order once. */
  ghost predicate Listed(order: seq<nat>) {
    && (forall i, j :: 0 <= i < j < |order| ==> order[i] != order[j])
    && (forall b :: b in order <==> 0 <= b < NBUF)
  }

  ghost predicate Inv(s: State) {
    && |s.bufs| == NBUF && Counted(s.bufs, s.refs) && Exclusive(s.refs) && Distinct(s.bufs)
    && Listed(s.order) && Coherent(s)
  }

  // ------------------------------------------------------------ what the cache promises

  /** Different buffers that hold a valid block hold different blocks. */
  lemma {:induction false} OtherBlock(s: State, b: nat, c: nat, k: nat)
    requires Distinct(s.bufs) && b < |s.bufs| && c < |s.bufs| && Holds(s.bufs[b], ROOTDEV, k)
    requires Holds(s.bufs[c], ROOTDEV, k)
    ensures b == c
  {
  }

  /** Transparency: whoever holds a buffer that bread returned, and has not changed it, sees what was last
      given to log_write or bwrite for that block, however often the block was evicted. */
  lemma {:induction false} Transparent(s: State, h: nat)
    requires Inv(s) && Owns(s, h) && s.refs[h].phase == Holding(false)
    ensures var f := s.bufs[s.refs[h].buf]; f.dev == ROOTDEV && f.data == s.last[f.blockno]
  {
    hide Listed, Distinct, Counted;
    assert Sound(s, s.refs[h].buf);
  }

  /** No step but log_write and bwrite changes the disk that callers see, and those change one block, to the
      data of the buffer. */
  lemma {:induction false} AbstractDisk(s: State, a: Action)
    requires Inv(s) && Enabled(s, a)
    ensures var t := After(s, a);
            if a.LogWrite? || a.Write? then
              var f := s.bufs[s.refs[a.h].buf]; t.last == s.last[f.blockno := f.data] && f.dev == ROOTDEV
            else t.last == s.last
  {
    hide Listed, Distinct, Counted, Exclusive, Front, Victim;
    if a.LogWrite? || a.Write? {
      assert Sound(s, s.refs[a.h].buf);
    }
  }

  /** A valid clean buffer that nobody is changing equals its block on the disk. */
  lemma {:induction false} CleanOnDisk(s: State, b: nat)
    requires Inv(s) && b < NBUF && s.bufs[b].valid && !s.bufs[b].dirty && !Changing(s.refs, b)
    ensures s.bufs[b].blockno < |s.disk| && s.bufs[b].data == s.disk[s.bufs[b].blockno]
  {
    hide Listed, Distinct, Counted, Exclusive;
    assert Sound(s, b) && Stored(s, s.bufs[b].blockno);
    if s.disk[s.bufs[b].blockno] != s.last[s.bufs[b].blockno] {
      var c :| 0 <= c < |s.bufs| && Pins(s.bufs[c], s.bufs[b].blockno);
      OtherBlock(s, b, c, s.bufs[b].blockno);
    }
  }

  /** Log_write pins: a dirty buffer keeps its block through every step but the write of that buffer. */
  lemma {:induction false} Pinned(s: State, a: Action, b: nat)
    requires Inv(s) && Enabled(s, a) && b < NBUF && s.bufs[b].dirty
    requires !(a.Write? && s.refs[a.h].buf == b)
    ensures var f := After(s, a).bufs[b]; f.dirty && f.valid && Holds(f, s.bufs[b].dev, s.bufs[b].blockno)
  {
    hide Listed, Distinct, Counted, Exclusive, Front;
    assert Sound(s, b);
  }

  /** No two buffers hold the same block of the disk. */
  lemma {:induction false} OneBuffer(s: State, b: nat, c: nat, k: nat)
    requires Inv(s) && b < NBUF && c < NBUF && Holds(s.bufs[b], ROOTDEV, k) && Holds(s.bufs[c], ROOTDEV, k)
    ensures b == c
  {
    OtherBlock(s, b, c, k);
  }

  // ------------------------------------------------------------ boot

  ghost function Boot(disk: seq<Data>): State {
    State(seq(NBUF, _ => Buf(0, 0, false, false, 0, Zeroes())), seq(NBUF, i requires 0 <= i < NBUF => NBUF - 1 - i),
          map[], disk, disk)
  }

  lemma {:induction false} BootInv(disk: seq<Data>)
    ensures Inv(Boot(disk))
  {
    var s := Boot(disk);
    forall b | 0 <= b < NBUF ensures b in s.order {
      assert s.order[NBUF - 1 - b] == b;
    }
    forall b | 0 <= b < NBUF ensures On(s.refs, b) == {} {
    }
  }
}
