/** log.c as the code runs it: fields updated in place, one block write after another. Each method
    is proved to issue exactly the write sequence whose crash points module Log analyses. */
module LogOps {
  import opened Params
  import opened Block
  import opened Sequences
  import opened Log
  import opened LogProtocol

  /** What bread returns, or bget's panic when every buffer is dirty or in use. */
  datatype Read = Found(data: Data) | NoBuffers

  /** How a commit ends: normally, in bget's panic, or where its next log slot lies behind the log area. */
  datatype Outcome = Complete | Stuck | PastEnd

  /** How end_op ends: with the outcome of a commit, without one, or in its own panic. */
  datatype Ending = Left | Overlap | Committed(outcome: Outcome)

  /** How the commit of lh ends while others hold `held` clean buffers. */
  function Fate(c: Layout, lh: seq<Word>, held: nat): Outcome {
    if lh == [] then Complete
    else if |lh| + held >= NBUF then Stuck
    else if |lh| >= c.size then PastEnd
    else Complete
  }

  ghost predicate AllHome(c: Layout, dirty: map<nat, Data>) {
    forall b :: b in dirty ==> c.Home(b)
  }

  ghost predicate SameBlocks(dirty: map<nat, Data>, lh: seq<Word>) {
    forall b :: b in dirty <==> b in lh
  }

  /** Beside the dirty buffers and `held` others there is one more. */
  predicate Room(dirty: map<nat, Data>, held: nat) {
    |dirty| + held < NBUF
  }

  /** The pinned buffers are as many as the logged blocks. */
  lemma {:induction false} PinnedCount(c: Layout, lh: seq<Word>, dirty: map<nat, Data>, held: nat)
    requires Listed(c, lh) && SameBlocks(dirty, lh)
    ensures Room(dirty, held) <==> |lh| + held < NBUF
  {
    var blocks: seq<nat> := lh;
    DistinctSize(blocks);
    assert dirty.Keys == Members(blocks);
    assert |dirty.Keys| == |dirty|;
  }

  lemma {:induction false} PinnedModifies(c: Layout, d: Disk, dirty: map<nat, Data>, lh: seq<Word>)
    requires c.Valid() && Listed(c, lh) && SameBlocks(dirty, lh) && |d| == c.disksize
    ensures Modifies(c, d, View(d, dirty), lh) && (|lh| < c.size ==> Loggable(c, lh))
    ensures |lh| <= LOGSIZE && forall i :: 0 <= i < |lh| ==> lh[i] < c.disksize
  {
  }

  lemma {:induction false} ListedRange(c: Layout, lh: seq<Word>)
    requires c.Valid() && Listed(c, lh)
    ensures forall i :: 0 <= i < |lh| ==> lh[i] < c.disksize
    ensures |lh| < c.size ==> Loggable(c, lh) && c.start + 1 + |lh| <= c.disksize
  {
  }

  lemma {:induction false} LoggedAt(c: Layout, lh: seq<Word>, dirty: map<nat, Data>, t: nat)
    requires c.Valid() && Listed(c, lh) && t < |lh| && t < c.size - 1 && AllHome(c, dirty)
    ensures c.Home(lh[t]) && c.start + t + 1 < c.disksize && c.start + t + 1 !in dirty && c.start + t + 1 != lh[t]
    ensures SameBlocks(dirty, lh) ==> lh[t] in dirty
  {
  }

  /** The blocks that are still to be installed are dirty. */
  ghost predicate Waiting(dirty: map<nat, Data>, lh: seq<Word>, t: nat) {
    forall k :: t <= k < |lh| ==> lh[k] in dirty
  }

  /** The blocks of lh are dirty no more. */
  ghost predicate Cleaned(dirty0: map<nat, Data>, lh: seq<Word>, dirty: map<nat, Data>) {
    dirty == dirty0 - Members(lh)
  }

  /** install_trans after t blocks: their buffers are clean, and a buffer can always be found. */
  ghost predicate Cleaning(c: Layout, dirty0: map<nat, Data>, lh: seq<Word>, t: nat, dirty: map<nat, Data>, held: nat) {
    && t <= |lh| && dirty == dirty0 - Members(lh[..t]) && Room(dirty, held)
    && (dirty0 == map[] || Waiting(dirty, lh, t))
    && AllHome(c, dirty)
  }

  lemma {:induction false} Grown<T>(s: seq<T>, k: nat)
    requires k <= |s|
    ensures Members(s[..k]) == if k == 0 then {} else Members(s[..k - 1]) + {s[k - 1]}
  {
    if k > 0 { assert s[..k] == s[..k - 1] + [s[k - 1]]; }
  }

  lemma {:induction false} CleaningStart(c: Layout, dirty: map<nat, Data>, lh: seq<Word>, held: nat)
    requires Room(dirty, held) && (dirty == map[] || Waiting(dirty, lh, 0)) && AllHome(c, dirty)
    ensures Cleaning(c, dirty, lh, 0, dirty, held)
  {
    Grown(lh, 0);
  }

  lemma {:induction false} RoomLess(dirty: map<nat, Data>, b: nat, held: nat)
    requires Room(dirty, held)
    ensures Room(dirty - {b}, held) && (dirty == map[] && held + 1 < NBUF ==> Room(dirty, held + 1))
  {
    var rest := dirty - {b};
    SubsetSize(rest.Keys, dirty.Keys);
    assert |dirty.Keys| == |dirty| && |rest.Keys| == |rest|;
  }

  lemma {:induction false} WaitingNext(c: Layout, dirty: map<nat, Data>, lh: seq<Word>, t: nat)
    requires Loggable(c, lh) && t < |lh| && Waiting(dirty, lh, t)
    ensures lh[t] in dirty && Waiting(dirty - {lh[t]}, lh, t + 1)
  {
  }

  lemma {:induction false} DirtyNext(dirty0: map<nat, Data>, dirty: map<nat, Data>, lh: seq<Word>, t: nat)
    requires t < |lh| && dirty == dirty0 - Members(lh[..t])
    ensures dirty - {lh[t]} == dirty0 - Members(lh[..t + 1])
  {
    Grown(lh, t + 1);
  }

  lemma {:induction false} CleaningNext(c: Layout, dirty0: map<nat, Data>, lh: seq<Word>, t: nat,
                                        dirty: map<nat, Data>, held: nat)
    requires c.Valid() && Loggable(c, lh) && t < |lh| && Cleaning(c, dirty0, lh, t, dirty, held)
    requires dirty0 == map[] ==> held + 1 < NBUF
    ensures c.Home(lh[t]) && c.start + t + 1 < c.disksize && c.start + t + 1 !in dirty && Room(dirty, held)
    ensures lh[t] in dirty || Room(dirty, held + 1)
    ensures Cleaning(c, dirty0, lh, t + 1, dirty - {lh[t]}, held)
  {
    hide Members, Room, Waiting;
    LoggedAt(c, lh, dirty, t);
    RoomLess(dirty, lh[t], held);
    if dirty0 != map[] {
      WaitingNext(c, dirty, lh, t);
    }
    DirtyNext(dirty0, dirty, lh, t);
  }

  lemma {:induction false} CleaningDone(c: Layout, dirty0: map<nat, Data>, lh: seq<Word>, dirty: map<nat, Data>,
                                        held: nat)
    requires Cleaning(c, dirty0, lh, |lh|, dirty, held)
    ensures Cleaned(dirty0, lh, dirty) && AllHome(c, dirty) && Room(dirty, held)
  {
    assert lh[..|lh|] == lh;
  }

  /** From trace t0 and disk d0, the writes ws and no others have been issued. */
  ghost predicate Issued(t0: seq<Write>, d0: Disk, ws: seq<Write>, t: seq<Write>, d: Disk) {
    t == t0 + ws && d == Apply(d0, ws)
  }

  lemma {:induction false} IssuedNone(t: seq<Write>, d: Disk, ws: seq<Write>)
    ensures Issued(t, d, ws[..0], t, d)
  {
  }

  lemma {:induction false} IssuedNext(t0: seq<Write>, d0: Disk, ws: seq<Write>, k: nat, t: seq<Write>, d: Disk)
    requires k < |ws| && Issued(t0, d0, ws[..k], t, d) && ws[k].blockno < |d0|
    ensures |d| == |d0|
    ensures Issued(t0, d0, ws[..k + 1], t + [ws[k]], d[ws[k].blockno := ws[k].data])
  {
    ApplyNext(d0, ws, k);
  }

  lemma {:induction false} IssuedAll(t0: seq<Write>, d0: Disk, ws: seq<Write>, t: seq<Write>, d: Disk)
    requires Issued(t0, d0, ws[..|ws|], t, d)
    ensures t == t0 + ws && d == Apply(d0, ws) && |d| == |d0|
  {
    assert ws[..|ws|] == ws;
  }

  lemma {:induction false} IssuedIs(t0: seq<Write>, d0: Disk, ws: seq<Write>, t: seq<Write>, d: Disk)
    requires Issued(t0, d0, ws, t, d)
    ensures t == t0 + ws && d == Apply(d0, ws)
  {
  }

  /** The block writes of write_log. */
  function SlotWrites(c: Layout, view: Disk, lh: seq<Word>): (ws: seq<Write>)
    requires forall i :: 0 <= i < |lh| ==> lh[i] < |view|
    ensures |ws| == |lh|
  {
    Copies(Slots(c, |lh|), Pick(view, lh))
  }

  /** write_log's next copy: the cached block goes to its slot. */
  lemma {:induction false} CopyStep(c: Layout, t0: seq<Write>, d0: Disk, dirty: map<nat, Data>, lh: seq<Word>, k: nat,
                                    t: seq<Write>, d: Disk)
    requires c.Valid() && |d0| == c.disksize && Listed(c, lh) && SameBlocks(dirty, lh) && k < |lh| && k < c.size - 1
    requires Issued(t0, d0, SlotWrites(c, View(d0, dirty), lh)[..k], t, d)
    ensures |d| == |d0| && lh[k] in dirty
    ensures var ws := SlotWrites(c, View(d0, dirty), lh);
            var w := Write(c.start + k + 1, dirty[lh[k]]);
            Issued(t0, d0, ws[..k + 1], t + [w], d[w.blockno := w.data])
  {
    hide Apply, Issued;
    IssuedNext(t0, d0, SlotWrites(c, View(d0, dirty), lh), k, t, d);
  }

  /** Installing home blocks does not touch the log slots still to be read. */
  lemma {:induction false} InstallStep(c: Layout, t0: seq<Write>, d0: Disk, h: seq<nat>, src: seq<Data>, k: nat,
                                       t: seq<Write>, d: Disk)
    requires c.Valid() && |d0| == c.disksize && Loggable(c, h)
    requires src == d0[c.start + 1 .. c.start + 1 + |h|] && k < |h|
    requires Issued(t0, d0, Copies(h, src)[..k], t, d)
    ensures |d| == |d0| && h[k] < |d| && c.start + k + 1 < |d|
    ensures var data := d[c.start + k + 1];
            Issued(t0, d0, Copies(h, src)[..k + 1], t + [Write(h[k], data)], d[h[k] := data])
  {
    CopiesAt(d0, h, src, k, c.start + 1 + k);
    IssuedNext(t0, d0, Copies(h, src), k, t, d);
  }

  /** Installing home blocks does not touch the header. */
  lemma {:induction false} HomeKeepsHeader(c: Layout, d: Disk, h: seq<nat>, src: seq<Data>)
    requires c.Valid() && |d| == c.disksize && Loggable(c, h) && |src| == |h|
    ensures Apply(d, Copies(h, src))[c.start] == d[c.start]
  {
    assert Copies(h, src) == Copies(h, src)[..|h|];
    CopiesAt(d, h, src, |h|, c.start);
  }

  lemma {:induction false} HeaderLoggable(c: Layout, d: Disk, dirty: map<nat, Data>)
    requires DiskOk(c, d) && (dirty == map[] || SameBlocks(dirty, HeaderOf(d[c.start])))
    ensures var h := HeaderOf(d[c.start]);
            && Loggable(c, h) && c.start + 1 + |h| <= c.disksize
            && (forall d' :: Cleaned(dirty, h, d') ==> d' == map[]) && (dirty == map[] || Waiting(dirty, h, 0))
            && AllHome(c, dirty) && Loggable(c, []) && |h| < c.size
  {
    hide GetWord, HeaderOf;
  }

  lemma {:induction false} WholeSlice<T>(s: seq<T>)
    ensures s[..|s|] == s
  {
  }

  lemma {:induction false} ApplyNone(d: Disk)
    ensures Apply(d, []) == d
  {
  }

  lemma {:induction false} CommitWhole(c: Layout, d: Disk, lh: seq<Word>, view: Disk)
    requires Quiet(c, d) && Loggable(c, lh) && Modifies(c, d, view, lh)
    ensures var ws := CommitWrites(c, d, lh, view);
            var e := Apply(d, ws[..|lh| + 1]);
            && DiskOk(c, e)
            && ws == ws[..|lh| + 1] + RecoverWrites(c, e)
            && Apply(d, ws) == Recovered(c, e)
            && Quiet(c, Apply(d, ws)) && SameHome(c, Apply(d, ws), view)
  {
    hide Apply, GetWord, PutHeader;
    var ws := CommitWrites(c, d, lh, view);
    var m := |lh| + 1;
    CommitTail(c, d, lh, view);
    ApplySplit(d, ws, m, |ws|);
    assert ws[..|ws|] == ws && ws[m..][..|ws| - m] == ws[m..];
    CommitPoint(c, d, lh, view, |ws|);
  }

  lemma {:induction false} SlotsFirst(c: Layout, d: Disk, lh: seq<Word>, view: Disk, n: nat)
    requires Quiet(c, d) && Listed(c, lh) && |view| == |d| && n <= |lh|
    ensures var slots := SlotWrites(c, view, lh);
            CommitWrites(c, d, lh, view)[..n] == slots[..n] && slots[..|lh|] == slots
  {
  }

  /** The writes of write_log and of the first write_head are the first half of CommitWrites. */
  lemma {:induction false} CommitSoFar(c: Layout, d: Disk, lh: seq<Word>, view: Disk)
    requires Quiet(c, d) && Loggable(c, lh) && |view| == |d|
    ensures var ws := CommitWrites(c, d, lh, view);
            var slots := SlotWrites(c, view, lh);
            && ws[..|lh| + 1] == slots + [Write(c.start, PutHeader(d[c.start], lh, |lh|))]
            && Apply(d, slots)[c.start] == d[c.start]
            && Apply(d, ws[..|lh| + 1]) == Apply(d, slots)[c.start := PutHeader(d[c.start], lh, |lh|)]
  {
    HeaderWrite(c, d, lh, view);
    var slots := SlotWrites(c, view, lh);
    assert slots == slots[..|lh|];
    CopiesAt(d, Slots(c, |lh|), Pick(view, lh), |lh|, c.start);
  }

  class LogState {
    const c: Layout
    var disk: Disk
    var dirty: map<nat, Data>     // buffers with B_DIRTY set; every other buffer equals the disk
    var lh: seq<Word>             // lh.block[0..lh.n]
    var outstanding: nat
    var committing: bool
    ghost var trace: seq<Write>   // every block write so far

    ghost predicate Valid()
      reads this
    {
      && c.Valid() && |disk| == c.disksize && AllHome(c, dirty)
      && Listed(c, lh) && (lh != [] ==> c.size >= 2)
    }

    /** bread while `held` other clean buffers are in use: the dirty buffer if there is one, else the disk
        block, for which one of the remaining buffers is needed. */
    function Bread(b: nat, held: nat): (r: Read)
      requires b < |disk|
      reads this
      ensures r == NoBuffers <==> b !in dirty && !Room(dirty, held)
      ensures r.Found? ==> r.data == View(disk, dirty)[b]
    {
      if b in dirty then Found(dirty[b]) else if Room(dirty, held) then Found(disk[b]) else NoBuffers
    }

    /** What commit starts from: exactly the logged blocks are dirty. */
    ghost predicate Pinned()
      reads this
    {
      SameBlocks(dirty, lh)
    }

    /** bwrite: the block reaches the disk and the buffer is clean. */
    method Bwrite(b: nat, d: Data)
      requires b < |disk|
      modifies this`disk, this`dirty, this`trace
      ensures disk == old(disk)[b := d]
      ensures dirty == old(dirty) - {b}
      ensures trace == old(trace) + [Write(b, d)]
    {
      disk := disk[b := d];
      dirty := dirty - {b};
      trace := trace + [Write(b, d)];
    }

    /** write_log, while others hold `held` buffers: copy the modified blocks from the cache to the log. It
        panics on the first log block if every buffer is taken, and stops before the first slot behind the
        log area if it has no slot for every block. */
    method WriteLog(held: nat) returns (r: Outcome)
      requires Valid() && Pinned()
      modifies this`disk, this`dirty, this`trace
      ensures r == Fate(c, lh, held) && dirty == old(dirty) && Valid()
      ensures var ws := SlotWrites(c, View(old(disk), dirty), lh);
              var n := if r == Complete then |lh| else if r == Stuck then 0 else c.size - 1;
              n <= |lh| && trace == old(trace) + ws[..n] && disk == Apply(old(disk), ws[..n])
    {
      hide Apply, Issued, SlotWrites, View, Listed, Room, AllHome, SameBlocks;
      ListedRange(c, lh);
      ghost var ws := SlotWrites(c, View(disk, dirty), lh);
      IssuedNone(trace, disk, ws);
      PinnedCount(c, lh, dirty, held);
      var tail := 0;
      while tail < |lh|
        invariant 0 <= tail <= |lh| && (tail > 0 ==> |lh| + held < NBUF) && tail < c.size
        invariant dirty == old(dirty) && |disk| == |old(disk)|
        invariant Issued(old(trace), old(disk), ws[..tail], trace, disk)
      {
        if tail + 1 == c.size {
          IssuedIs(old(trace), old(disk), ws[..tail], trace, disk);
          return PastEnd;
        }
        LoggedAt(c, lh, dirty, tail);
        CopyStep(c, old(trace), old(disk), dirty, lh, tail, trace, disk);
        var to := Bread(c.start + tail + 1, held);
        if to.NoBuffers? {
          IssuedIs(old(trace), old(disk), ws[..tail], trace, disk);
          return Stuck;
        }
        var from := Bread(lh[tail], held + 1);
        Bwrite(c.start + tail + 1, from.data);
        assert dirty == old(dirty);
        tail := tail + 1;
      }
      IssuedIs(old(trace), old(disk), ws[..tail], trace, disk);
      r := Complete;
    }

    /** write_head: overwrite the count and the entries of the header block. In a commit write_log has found
        a buffer by then, and at boot none is dirty. */
    method WriteHead(held: nat)
      requires Valid() && Room(dirty, held)
      modifies this`disk, this`dirty, this`trace
      ensures var head := PutHeader(old(disk)[c.start], lh, |lh|);
              trace == old(trace) + [Write(c.start, head)] && disk == old(disk)[c.start := head]
      ensures dirty == old(dirty) && Valid()
    {
      assert |lh| <= LOGSIZE && c.start !in dirty;
      hide Listed, AllHome, View, PutWord, Room;
      var buf := Bread(c.start, held).data;
      buf := PutWord(buf, 0, |lh|);
      var i := 0;
      while i < |lh|
        invariant 0 <= i <= |lh|
        invariant buf == PutHeader(disk[c.start], lh, i)
      {
        buf := PutWord(buf, 1 + i, lh[i]);
        i := i + 1;
      }
      Bwrite(c.start, buf);
      assert dirty == old(dirty);
    }

    /** One turn of install_trans' loop. */
    method InstallBlock(tail: nat, held: nat)
      requires tail < |lh| && lh[tail] < |disk| && c.start + tail + 1 < |disk|
      requires c.start + tail + 1 !in dirty && Room(dirty, held) && (lh[tail] in dirty || Room(dirty, held + 1))
      modifies this`disk, this`dirty, this`trace
      ensures var data := old(disk)[c.start + tail + 1];
              disk == old(disk)[lh[tail] := data] && trace == old(trace) + [Write(lh[tail], data)]
      ensures dirty == old(dirty) - {lh[tail]}
    {
      hide Room;
      var lbuf := Bread(c.start + tail + 1, held);
      var dbuf := Bread(lh[tail], held + 1);
      assert dbuf.Found?;
      Bwrite(lh[tail], lbuf.data);
    }

    /** install_trans: copy the logged blocks to their home locations. */
    method InstallTrans(held: nat)
      requires Valid() && |lh| < c.size && Room(dirty, held)
      requires if dirty == map[] then held + 1 < NBUF else Waiting(dirty, lh, 0)
      modifies this`disk, this`dirty, this`trace
      ensures var ws := Copies(lh, old(disk)[c.start + 1 .. c.start + 1 + |lh|]);
              trace == old(trace) + ws && disk == Apply(old(disk), ws)
      ensures Cleaning(c, old(dirty), lh, |lh|, dirty, held)
    {
      hide Apply, Issued, Copies, View, Listed, Loggable, Room, Waiting, Cleaning, AllHome;
      ListedRange(c, lh);
      ghost var src := disk[c.start + 1 .. c.start + 1 + |lh|];
      ghost var ws := Copies(lh, src);
      IssuedNone(trace, disk, ws);
      CleaningStart(c, dirty, lh, held);
      var tail := 0;
      while tail < |lh|
        invariant 0 <= tail <= |lh| && Cleaning(c, old(dirty), lh, tail, dirty, held)
        invariant Issued(old(trace), old(disk), ws[..tail], trace, disk)
      {
        InstallStep(c, old(trace), old(disk), lh, src, tail, trace, disk);
        CleaningNext(c, old(dirty), lh, tail, dirty, held);
        InstallBlock(tail, held);
        tail := tail + 1;
      }
      IssuedAll(old(trace), old(disk), ws, trace, disk);
    }

    /** read_head: load the header block into memory. */
    method ReadHead()
      requires DiskOk(c, disk) && c.start !in dirty && Room(dirty, 0)
      modifies this`lh
      ensures lh == HeaderOf(disk[c.start])
    {
      var buf := Bread(c.start, 0).data;
      var n := GetWord(buf, 0);
      lh := [];
      var i := 0;
      while i < n
        invariant 0 <= i <= n && lh == HeaderOf(disk[c.start])[..i]
      {
        lh := lh + [GetWord(buf, 1 + i)];
        i := i + 1;
      }
    }

    /** The second half of commit, and all of recovery once the header is loaded. */
    method InstallAndClear(held: nat)
      requires DiskOk(c, disk) && lh == HeaderOf(disk[c.start])
      requires Room(dirty, held) && if dirty == map[] then held + 1 < NBUF else Pinned()
      modifies this`disk, this`dirty, this`trace, this`lh
      ensures trace == old(trace) + RecoverWrites(c, old(disk))
      ensures disk == Recovered(c, old(disk))
      ensures lh == [] && dirty == map[]
    {
      hide Apply, GetWord, PutHeader, HeaderOf, Copies, Recovered, Listed, Cleaning, Cleaned, Waiting, Room;
      hide AllHome, SameBlocks;
      HeaderLoggable(c, disk, dirty);
      ghost var src := disk[c.start + 1 .. c.start + 1 + |lh|];
      HomeKeepsHeader(c, disk, lh, src);
      RecoveredLast(c, disk);
      InstallTrans(held);
      CleaningDone(c, old(dirty), lh, dirty, held);
      lh := [];
      WriteHead(held);
    }

    /** recover_from_log, run at boot with an empty cache: it issues RecoverWrites and leaves the
        recovered disk with an empty header. */
    method RecoverFromLog()
      requires DiskOk(c, disk) && dirty == map[]
      modifies this`disk, this`dirty, this`trace, this`lh
      ensures trace == old(trace) + RecoverWrites(c, old(disk))
      ensures disk == Recovered(c, old(disk))
      ensures lh == [] && dirty == map[] && Quiet(c, disk)
    {
      hide Apply, GetWord, PutHeader, Represents;
      ReadHead();
      InstallAndClear(0);
      RecoveredRepresents(c, old(disk));
      RecoveryCompletes(c, old(disk), Recovered(c, old(disk)));
    }

    /** The first half of commit, up to and including the header write. */
    method LogAndMark(held: nat) returns (r: Outcome)
      requires Valid() && Quiet(c, disk) && Pinned() && lh != []
      modifies this`disk, this`dirty, this`trace
      ensures r == Fate(c, lh, held) && dirty == old(dirty)
      ensures var ws := CommitWrites(c, old(disk), lh, View(old(disk), dirty));
              var n := if r == Complete then |lh| + 1 else if r == Stuck then 0 else c.size - 1;
              n <= |lh| + 1 && trace == old(trace) + ws[..n] && disk == Apply(old(disk), ws[..n])
      ensures r == Complete ==> DiskOk(c, disk) && HeaderOf(disk[c.start]) == lh && Room(dirty, held)
    {
      hide Apply, GetWord, PutHeader, Represents, CommitWrites, SlotWrites, View, Listed, Room, AllHome, SameBlocks;
      hide Modifies;
      ghost var view := View(disk, dirty);
      PinnedCount(c, lh, dirty, held);
      PinnedModifies(c, disk, dirty, lh);
      r := WriteLog(held);
      SlotsFirst(c, old(disk), lh, view, if r == Complete then |lh| else if r == Stuck then 0 else c.size - 1);
      if r == Complete {
        WriteHead(held);
        CommitSoFar(c, old(disk), lh, view);
        AtHeader(c, old(disk), lh, view);
      }
    }

    /** commit: writes nothing for an empty transaction, else exactly CommitWrites; or only its first writes,
        none of them outside the log area, if it panics for want of a buffer or has no slot for every
        block. */
    method Commit(held: nat) returns (r: Outcome)
      requires Valid() && Quiet(c, disk) && Pinned()
      modifies this`disk, this`dirty, this`trace, this`lh
      ensures r == Fate(c, old(lh), held)
      ensures var ws := if old(lh) == [] then []
                        else CommitWrites(c, old(disk), old(lh), View(old(disk), old(dirty)));
              var n := if r == Complete then |ws| else if r == Stuck then 0 else c.size - 1;
              n <= |ws| && trace == old(trace) + ws[..n] && disk == Apply(old(disk), ws[..n])
      ensures r == Complete ==> lh == [] && dirty == map[] && Quiet(c, disk)
      ensures r == Complete ==> SameHome(c, disk, View(old(disk), old(dirty)))
      ensures r != Complete ==> dirty == old(dirty) && lh == old(lh) && Represents(c, disk, old(disk))
    {
      hide Apply, GetWord, PutHeader, HeaderOf, Represents, Recovered, CommitWrites, RecoverWrites, View;
      ApplyNone(disk);
      r := Complete;
      if |lh| > 0 {
        ghost var view := View(disk, dirty);
        r := LogAndMark(held);
        if r == Complete {
          InstallAndClear(held);
          CommitWhole(c, old(disk), old(lh), view);
          WholeSlice(CommitWrites(c, old(disk), old(lh), view));
        } else {
          BeforeHeader(c, old(disk), lh, view, if r == Stuck then 0 else c.size - 1);
        }
      }
    }

    /** begin_op, one turn of its loop: admitted, or put to sleep with nothing changed. */
    method BeginOp() returns (admitted: bool)
      modifies this`outstanding
      ensures admitted <==> !committing && |lh| + (old(outstanding) + 1) * MAXOPBLOCKS <= LOGSIZE
      ensures outstanding == old(outstanding) + if admitted then 1 else 0
    {
      if committing {
        return false;
      } else if |lh| + (outstanding + 1) * MAXOPBLOCKS > LOGSIZE {
        return false;
      }
      outstanding := outstanding + 1;
      return true;
    }

    /** end_op, while others hold `held` buffers: the last operation out commits the whole group. */
    method EndOp(held: nat) returns (e: Ending)
      requires Valid() && Quiet(c, disk) && Pinned()
      requires outstanding >= 1
      modifies this
      ensures outstanding == old(outstanding) - 1
      ensures e == Overlap <==> old(committing)
      ensures e.Committed? <==> !old(committing) && outstanding == 0
      ensures e.Committed? ==> e.outcome == Fate(c, old(lh), held)
      ensures e == Left || e == Committed(Complete) ==> !committing && Quiet(c, disk)
      ensures e == Left || e == Overlap ==>
                trace == old(trace) && disk == old(disk) && dirty == old(dirty) && lh == old(lh)
      ensures e == Committed(Complete) ==>
                SameHome(c, disk, View(old(disk), old(dirty))) && dirty == map[] && lh == []
      ensures e.Committed? && e != Committed(Complete) ==>
                dirty == old(dirty) && lh == old(lh) && Represents(c, disk, old(disk))
    {
      hide Represents;
      outstanding := outstanding - 1;
      if committing {
        return Overlap;
      }
      if outstanding > 0 {
        return Left;
      }
      committing := true;
      var r := Commit(held);
      committing := r != Complete;
      return Committed(r);
    }

    /** log_write's test for room, made without log.lock; false stands for the panics. */
    method TestRoom() returns (ok: bool)
      ensures ok <==> |lh| < LOGSIZE && |lh| < c.size - 1 && outstanding >= 1
    {
      if |lh| >= LOGSIZE || |lh| >= c.size - 1 {
        return false;
      }
      return outstanding >= 1;
    }

    /** The rest of log_write, made with it, for a buffer whose new contents are `data`: pin it and record it
        once. Other operations may have filled the log up to LOGSIZE in between. */
    method Enter(b: Word, data: Data)
      requires Valid() && c.Home(b) && (b in lh || |lh| < LOGSIZE) && c.size >= 2
      modifies this`lh, this`dirty
      ensures lh == Absorb(old(lh), b) && dirty == old(dirty)[b := data]
      ensures View(disk, dirty) == View(disk, old(dirty))[b := data]
      ensures Valid()
    {
      var i := 0;
      while i < |lh| && lh[i] != b
        invariant 0 <= i <= |lh|
        invariant b !in lh[..i]
      {
        i := i + 1;
      }
      if i == |lh| {
        lh := lh + [b];
      } else {
        lh := lh[i := b];
      }
      dirty := dirty[b := data];
    }

    /** log_write when no other operation comes in between. */
    method LogWrite(b: Word, data: Data) returns (ok: bool)
      requires Valid() && c.Home(b)
      modifies this`lh, this`dirty
      ensures ok <==> |old(lh)| < LOGSIZE && |old(lh)| < c.size - 1 && outstanding >= 1
      ensures ok ==> lh == Absorb(old(lh), b) && dirty == old(dirty)[b := data]
      ensures ok ==> View(disk, dirty) == View(disk, old(dirty))[b := data]
      ensures !ok ==> lh == old(lh) && dirty == old(dirty)
      ensures Valid()
    {
      ok := TestRoom();
      if ok {
        Enter(b, data);
      }
    }
  }
}
