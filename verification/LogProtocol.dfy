/** The log shared by concurrent operations: every interleaving of begin_op, log_write, end_op,
    single disk writes and crashes, and what each one keeps. */
module LogProtocol {
  import opened Params
  import opened Block
  import opened Sequences
  import opened Log

  /** What the committer or the recovery code is doing; `pre` is the disk it started from and
      `k` the number of block writes it has issued since. Overrun is a commit that has just written a
      block behind the log area. */
  datatype Phase = Idle | Committing(pre: Disk, k: nat) | Recovering(pre: Disk, k: nat) | Overrun

  /** An outstanding operation: the distinct blocks it has logged so far, and whether it is inside a
      log_write, past the test for room but not yet holding log.lock. */
  datatype Op = Op(blocks: set<nat>, past: bool)

  /** `dirty` holds the pinned cache buffers, `lh` the in-memory header, `ops` the operations. */
  datatype System = System(disk: Disk, dirty: map<nat, Data>, lh: seq<Word>, ops: seq<Op>, phase: Phase)

  /** log_write is two steps: the test for room, made without log.lock, and the entry, made with it. */
  datatype Action =
    | Begin
    | Test(i: nat)
    | Append(i: nat, b: nat, data: Data)
    | End(i: nat)
    | DiskWrite
    | Finish
    | Crash

  /** The disk as bread shows it. */
  function View(d: Disk, dirty: map<nat, Data>): (v: Disk)
    ensures |v| == |d|
    ensures forall b :: 0 <= b < |d| ==> v[b] == if b in dirty then dirty[b] else d[b]
  {
    seq(|d|, b requires 0 <= b < |d| => if b in dirty then dirty[b] else d[b])
  }

  function Absorb(lh: seq<Word>, b: Word): seq<Word> {
    if b in lh then lh else lh + [b]
  }

  /** The "too big a transaction" test of log_write. */
  predicate TooBig(c: Layout, s: System) {
    |s.lh| >= LOGSIZE || |s.lh| >= c.size - 1
  }

  /** Every buffer of the cache holds a pinned block, so the committer's bread of a log block panics. */
  predicate CacheFull(s: System) {
    s.phase.Committing? && |s.lh| >= NBUF
  }

  /** The committer's next write is to the first log slot behind the log area, a home block. */
  predicate PastArea(c: Layout, s: System) {
    s.phase.Committing? && c.size - 1 <= s.phase.k < |s.lh|
  }

  /** Log blocks that the outstanding operations may still claim. */
  function Unspent(ops: seq<Op>): int {
    if ops == [] then 0 else Unspent(ops[..|ops|-1]) + MAXOPBLOCKS - |ops[|ops|-1].blocks|
  }

  function Count(past: bool): nat {
    if past then 1 else 0
  }

  /** The operations past the test. */
  function Past(ops: seq<Op>): nat {
    if ops == [] then 0 else Past(ops[..|ops|-1]) + Count(ops[|ops|-1].past)
  }

  ghost predicate Reserved(s: System) {
    && |s.lh| + Unspent(s.ops) <= LOGSIZE
    && (forall i :: 0 <= i < |s.ops| ==> |s.ops[i].blocks| <= MAXOPBLOCKS)
    && (forall i, b :: 0 <= i < |s.ops| && b in s.ops[i].blocks ==> b in s.lh)
  }

  /** Three operations at most can be past the test together, so that is how far the log can outgrow it. */
  ghost predicate Bounded(c: Layout, s: System) {
    && |s.ops| * MAXOPBLOCKS <= LOGSIZE
    && |s.lh| + Past(s.ops) <= c.size + 1
    && (|s.lh| + Past(s.ops) > 0 ==> c.size >= 2)
  }

  ghost predicate Pinned(c: Layout, s: System) {
    && Listed(c, s.lh)
    && (forall b :: b in s.dirty ==> b in s.lh)
    && (!s.phase.Overrun? ==> forall b :: b in s.lh ==> b in s.dirty)
  }

  ghost predicate PhaseOk(c: Layout, s: System)
    requires c.Valid() && Pinned(c, s)
  {
    match s.phase
    case Idle => Quiet(c, s.disk)
    case Committing(pre, k) =>
      && s.ops == []
      && Quiet(c, pre)
      && if s.lh == [] then k == 0 && s.disk == pre
         else var ws := CommitWrites(c, pre, s.lh, View(pre, s.dirty));
              k <= |ws| && s.disk == Apply(pre, ws[..k]) && (k < c.size || |s.lh| < c.size)
    case Recovering(pre, k) =>
      && s.ops == [] && s.lh == []
      && DiskOk(c, pre)
      && k <= |RecoverWrites(c, pre)|
      && s.disk == Apply(pre, RecoverWrites(c, pre)[..k])
    case Overrun => s.ops == [] && Quiet(c, s.disk)
  }

  ghost predicate Inv(c: Layout, s: System) {
    && c.Valid()
    && |s.disk| == c.disksize
    && Pinned(c, s)
    && PhaseOk(c, s)
    && Reserved(s)
    && Bounded(c, s)
  }

  /** The whole write sequence that the current phase is working through. */
  ghost function Pending(c: Layout, s: System): seq<Write>
    requires Inv(c, s)
  {
    match s.phase
    case Idle => []
    case Committing(pre, _) => if s.lh == [] then [] else CommitWrites(c, pre, s.lh, View(pre, s.dirty))
    case Recovering(pre, _) => RecoverWrites(c, pre)
    case Overrun => []
  }

  /** The committer or the recovery code can issue its next block write: it finds a buffer, and the block
      is on the disk. */
  ghost predicate CanWrite(c: Layout, s: System)
    requires Inv(c, s)
  {
    && (s.phase.Committing? || s.phase.Recovering?) && s.phase.k < |Pending(c, s)|
    && !CacheFull(s) && Pending(c, s)[s.phase.k].blockno < c.disksize
  }

  ghost predicate Enabled(c: Layout, s: System, a: Action)
    requires Inv(c, s)
  {
    match a
    case Begin => s.phase.Idle? && |s.lh| + (|s.ops| + 1) * MAXOPBLOCKS <= LOGSIZE
    case Test(i) => i < |s.ops| && !s.ops[i].past && !TooBig(c, s)
    case Append(i, b, _) =>
      i < |s.ops| && s.ops[i].past && c.Home(b) && |s.ops[i].blocks + {b}| <= MAXOPBLOCKS
    case End(i) => i < |s.ops| && !s.ops[i].past
    case DiskWrite => CanWrite(c, s)
    case Finish => (s.phase.Committing? || s.phase.Recovering?) && s.phase.k == |Pending(c, s)|
    case Crash => true
  }

  ghost function Do(c: Layout, s: System, a: Action): System
    requires Inv(c, s) && Enabled(c, s, a)
  {
    match a
    case Begin => s.(ops := s.ops + [Op({}, false)])
    case Test(i) => s.(ops := s.ops[i := s.ops[i].(past := true)])
    case Append(i, b, data) =>
      s.(lh := Absorb(s.lh, b), dirty := s.dirty[b := data], ops := s.ops[i := Op(s.ops[i].blocks + {b}, false)])
    case End(i) =>
      var rest := Dropped(s.ops, i);
      s.(ops := rest, phase := if rest == [] then Committing(s.disk, 0) else s.phase)
    case DiskWrite =>
      var w := Pending(c, s)[s.phase.k];
      var disk := s.disk[w.blockno := w.data];
      if PastArea(c, s) then s.(disk := disk, dirty := s.dirty - {w.blockno}, phase := Overrun)
      else s.(disk := disk, phase := s.phase.(k := s.phase.k + 1))
    case Finish => System(s.disk, map[], [], [], Idle)
    case Crash => System(s.disk, map[], [], [], Recovering(s.disk, 0))
  }

  // ------------------------------------------------------------ invariant

  lemma {:induction false} UnspentBound(ops: seq<Op>)
    requires forall i :: 0 <= i < |ops| ==> |ops[i].blocks| <= MAXOPBLOCKS
    ensures 0 <= Unspent(ops) <= |ops| * MAXOPBLOCKS
  {
    if ops != [] { UnspentBound(ops[..|ops|-1]); }
  }

  lemma {:induction false} OpUpdate(ops: seq<Op>, i: nat, x: Op)
    requires i < |ops|
    ensures Unspent(ops[i := x]) == Unspent(ops) + |ops[i].blocks| - |x.blocks|
    ensures Past(ops[i := x]) == Past(ops) - Count(ops[i].past) + Count(x.past)
    decreases |ops|
  {
    var n := |ops| - 1;
    if i < n {
      OpUpdate(ops[..n], i, x);
      assert ops[i := x][..n] == ops[..n][i := x];
    } else {
      assert ops[i := x][..n] == ops[..n];
    }
  }

  lemma {:induction false} OpWithout(ops: seq<Op>, i: nat)
    requires i < |ops|
    ensures Unspent(Dropped(ops, i)) == Unspent(ops) - MAXOPBLOCKS + |ops[i].blocks|
    ensures Past(Dropped(ops, i)) == Past(ops) - Count(ops[i].past)
    decreases |ops|
  {
    var n := |ops| - 1;
    if i < n {
      OpWithout(ops[..n], i);
      assert Dropped(ops, i)[..n-1] == Dropped(ops[..n], i);
    } else {
      assert Dropped(ops, i) == ops[..n];
    }
  }

  lemma {:induction false} PastAtMost(ops: seq<Op>)
    ensures Past(ops) <= |ops|
  {
    if ops != [] { PastAtMost(ops[..|ops|-1]); }
  }

  /** An operation within its budget never finds the log full, unless the block is already in it. */
  lemma {:induction false} BudgetLeavesRoom(s: System, i: nat, b: nat)
    requires Reserved(s) && i < |s.ops| && |s.ops[i].blocks + {b}| <= MAXOPBLOCKS
    requires b !in s.lh
    ensures |s.lh| < LOGSIZE
  {
    assert |s.ops[i].blocks| < MAXOPBLOCKS by {
      assert b !in s.ops[i].blocks;
    }
    OpWithout(s.ops, i);
    UnspentBound(Dropped(s.ops, i));
  }

  lemma {:induction false} AppendReserved(s: System, i: nat, b: Word, t: System)
    requires Reserved(s) && i < |s.ops| && |s.ops[i].blocks + {b}| <= MAXOPBLOCKS
    requires t.lh == Absorb(s.lh, b) && t.ops == s.ops[i := Op(s.ops[i].blocks + {b}, false)]
    ensures Reserved(t)
  {
    var was := s.ops[i].blocks;
    OpUpdate(s.ops, i, Op(was + {b}, false));
    if b !in s.lh {
      assert b !in was;
      assert |was + {b}| == |was| + 1;
    } else {
      SubsetSize(was, was + {b});
    }
  }

  lemma {:induction false} TestReserved(s: System, i: nat, t: System)
    requires Reserved(s) && i < |s.ops| && t.lh == s.lh && t.ops == s.ops[i := s.ops[i].(past := true)]
    ensures Reserved(t)
  {
    OpUpdate(s.ops, i, s.ops[i].(past := true));
  }

  lemma {:induction false} UnspentOne(ops: seq<Op>, x: Op)
    ensures Unspent(ops + [x]) == Unspent(ops) + MAXOPBLOCKS - |x.blocks|
  {
    assert (ops + [x])[..|ops|] == ops;
  }

  lemma {:induction false} BeginReserved(s: System)
    requires Reserved(s) && |s.lh| + (|s.ops| + 1) * MAXOPBLOCKS <= LOGSIZE
    ensures Reserved(s.(ops := s.ops + [Op({}, false)]))
  {
    UnspentBound(s.ops);
    UnspentOne(s.ops, Op({}, false));
    hide Unspent;
  }

  lemma {:induction false} ReservedSame(s: System, t: System)
    requires Reserved(s) && t.lh == s.lh && t.ops == s.ops
    ensures Reserved(t)
  {
  }

  lemma {:induction false} NothingReserved(s: System)
    requires s.lh == [] && s.ops == []
    ensures Reserved(s)
  {
  }

  lemma {:induction false} EndReserved(s: System, i: nat)
    requires Reserved(s) && i < |s.ops|
    ensures Reserved(s.(ops := Dropped(s.ops, i)))
  {
    OpWithout(s.ops, i);
  }

  /** Every action keeps the reservation: logged blocks plus unspent budgets fit in the log. */
  lemma {:induction false} ReservationKept(c: Layout, s: System, a: Action)
    requires Inv(c, s) && Enabled(c, s, a)
    ensures Reserved(Do(c, s, a))
  {
    hide PhaseOk, Pinned, Pending, View, Absorb, Reserved, Dropped, Bounded;
    match a
    case Begin => BeginReserved(s);
    case Test(i) => TestReserved(s, i, Do(c, s, a));
    case Append(i, b, _) => AppendReserved(s, i, b, Do(c, s, a));
    case End(i) =>
      EndReserved(s, i);
      ReservedSame(s.(ops := Dropped(s.ops, i)), Do(c, s, a));
    case DiskWrite => ReservedSame(s, Do(c, s, a));
    case Finish => NothingReserved(Do(c, s, a));
    case Crash => NothingReserved(Do(c, s, a));
  }

  lemma {:induction false} PastOne(ops: seq<Op>, x: Op)
    ensures Past(ops + [x]) == Past(ops) + Count(x.past)
  {
    assert (ops + [x])[..|ops|] == ops;
  }

  /** Every action keeps the bound: an operation passes the test only while the log is below the limit. */
  lemma {:induction false} BoundKept(c: Layout, s: System, a: Action)
    requires Inv(c, s) && Enabled(c, s, a)
    ensures Bounded(c, Do(c, s, a))
  {
    hide PhaseOk, Pinned, Pending, View, Reserved, Past, CanWrite;
    match a
    case Begin =>
      assert (s.ops + [Op({}, false)])[..|s.ops|] == s.ops;
      PastOne(s.ops, Op({}, false));
    case Test(i) =>
      OpUpdate(s.ops, i, s.ops[i].(past := true));
      PastAtMost(s.ops[i := s.ops[i].(past := true)]);
    case Append(i, b, _) => OpUpdate(s.ops, i, Op(s.ops[i].blocks + {b}, false));
    case End(i) => OpWithout(s.ops, i);
    case DiskWrite =>
    case Finish => PastAtMost([]);
    case Crash => PastAtMost([]);
  }

  lemma {:induction false} PinnedKept(c: Layout, s: System, a: Action)
    requires Inv(c, s) && Enabled(c, s, a)
    ensures Pinned(c, Do(c, s, a))
  {
    hide Bounded, Unspent, Pending, Apply, CommitWrites, RecoverWrites;
    match a
    case Append(i, b, _) => if b !in s.lh { BudgetLeavesRoom(s, i, b); }
    case _ =>
  }

  // ------------------------------------------------------------ what is durable

  /** What the running system shows its users. */
  ghost function Volatile(c: Layout, s: System): (v: Disk)
    requires Inv(c, s)
    ensures |v| == c.disksize
  {
    match s.phase
    case Idle => View(s.disk, s.dirty)
    case Committing(pre, _) => View(pre, s.dirty)
    case Recovering(pre, _) => Recovered(c, pre)
    case Overrun => View(s.disk, s.dirty)
  }

  /** Has the current commit written its header? */
  ghost predicate HeaderOut(s: System) {
    s.phase.Committing? && s.lh != [] && s.phase.k > |s.lh|
  }

  /** The home blocks that should survive a crash now. */
  ghost function Target(c: Layout, s: System): (t: Disk)
    requires Inv(c, s)
    ensures |t| == c.disksize
  {
    match s.phase
    case Idle => s.disk
    case Committing(pre, _) => if HeaderOut(s) then View(pre, s.dirty) else pre
    case Recovering(pre, _) => Recovered(c, pre)
    case Overrun => s.disk
  }

  lemma {:induction false} RecoveredLast(c: Layout, d: Disk)
    requires DiskOk(c, d)
    ensures var h := HeaderOf(d[c.start]);
            Recovered(c, d) ==
              Apply(d, Copies(h, d[c.start + 1 .. c.start + 1 + |h|]))[c.start := PutHeader(d[c.start], [], 0)]
  {
    hide Apply, GetWord, PutHeader;
    var ws := RecoverWrites(c, d);
    var h := HeaderOf(d[c.start]);
    assert ws[..|ws| - 1] == Copies(h, d[c.start + 1 .. c.start + 1 + |h|]);
    ApplyLast(d, ws);
  }

  lemma {:induction false} RecoveredRepresents(c: Layout, d: Disk)
    requires DiskOk(c, d)
    ensures Represents(c, d, Recovered(c, d))
  {
    hide Apply, GetWord, PutHeader;
    var h := HeaderOf(d[c.start]);
    var src := d[c.start + 1 .. c.start + 1 + |h|];
    RecoveredLast(c, d);
    hide RecoverWrites, Recovered;
    assert Copies(h, src)[..|h|] == Copies(h, src);
    forall b | c.Home(b) && b !in h ensures Recovered(c, d)[b] == d[b] {
      CopiesAt(d, h, src, |h|, b);
    }
    forall t | 0 <= t < |h| ensures Recovered(c, d)[h[t]] == d[c.start + 1 + t] {
      CopiesAt(d, h, src, |h|, h[t]);
    }
  }

  lemma {:induction false} TargetIsDurable(c: Layout, s: System)
    requires Inv(c, s)
    ensures Represents(c, s.disk, Target(c, s))
  {
    hide Reserved, Bounded;
    match s.phase
    case Idle =>
    case Committing(pre, k) =>
      if s.lh != [] {
        if |s.lh| < c.size {
          CommitPoint(c, pre, s.lh, View(pre, s.dirty), k);
        } else {
          BeforeHeader(c, pre, s.lh, View(pre, s.dirty), k);
        }
      }
    case Recovering(pre, k) =>
      RecoveredRepresents(c, pre);
      RecoveryPoint(c, pre, Recovered(c, pre), k);
    case Overrun =>
  }

  /** What a commit that outgrows the log area writes behind it: its first block without a slot. */
  ghost function Spilled(c: Layout, s: System): Data
    requires Inv(c, s) && PastArea(c, s)
  {
    Volatile(c, s)[s.lh[s.phase.k]]
  }

  lemma {:induction false} SlotsKeepHeader(c: Layout, d: Disk, lh: seq<Word>, view: Disk, k: nat)
    requires c.Valid() && |d| == |view| == c.disksize && Listed(c, lh) && k <= |lh|
    ensures Apply(d, CommitWrites(c, d, lh, view)[..k])[c.start] == d[c.start]
  {
    var slots, src := Slots(c, |lh|), Pick(view, lh);
    assert CommitWrites(c, d, lh, view)[..k] == Copies(slots, src)[..k];
    CopiesAt(d, slots, src, k, c.start);
  }

  /** Up to there it has changed no home block. */
  lemma {:induction false} BeforeSpill(c: Layout, s: System)
    requires Inv(c, s) && PastArea(c, s)
    ensures s.phase.k == c.size - 1 && Quiet(c, s.disk) && SameHome(c, s.disk, s.phase.pre)
    ensures Pending(c, s)[s.phase.k] == Write(c.start + c.size, Spilled(c, s))
  {
    hide Reserved, Bounded, Apply, GetWord;
    TargetIsDurable(c, s);
    SlotsKeepHeader(c, s.phase.pre, s.lh, View(s.phase.pre, s.dirty), s.phase.k);
  }

  lemma {:induction false} ApplyNext(d: Disk, ws: seq<Write>, k: nat)
    requires k < |ws|
    ensures var r := Apply(d, ws[..k]); var w := ws[k];
            Apply(d, ws[..k+1]) == if w.blockno < |r| then r[w.blockno := w.data] else r
  {
    assert ws[..k+1][..k] == ws[..k];
  }

  lemma {:induction false} DiskWriteKeeps(c: Layout, s: System)
    requires Inv(c, s) && Enabled(c, s, DiskWrite)
    ensures Pinned(c, Do(c, s, DiskWrite)) && PhaseOk(c, Do(c, s, DiskWrite))
  {
    hide Apply, CommitWrites, RecoverWrites, Reserved, Bounded;
    PinnedKept(c, s, DiskWrite);
    if PastArea(c, s) {
      BeforeSpill(c, s);
    } else {
      ApplyNext(s.phase.pre, Pending(c, s), s.phase.k);
    }
  }

  /** With an empty header the home blocks are the represented ones. */
  lemma {:induction false} QuietIs(c: Layout, d: Disk, target: Disk)
    requires Represents(c, d, target) && Quiet(c, d)
    ensures SameHome(c, target, d)
  {
  }

  lemma {:induction false} FinishKeeps(c: Layout, s: System)
    requires Inv(c, s) && Enabled(c, s, Finish)
    ensures Quiet(c, s.disk) && SameHome(c, Target(c, s), s.disk) && SameHome(c, Volatile(c, s), s.disk)
  {
    hide Reserved, Bounded, Apply, GetWord, CommitWrites, RecoverWrites, Represents, HeaderOf;
    match s.phase
    case Committing(pre, k) =>
      if s.lh != [] {
        CommitPoint(c, pre, s.lh, View(pre, s.dirty), k);
        QuietIs(c, s.disk, View(pre, s.dirty));
      }
    case Recovering(pre, k) =>
      RecoveredRepresents(c, pre);
      RecoveryPoint(c, pre, Recovered(c, pre), k);
      QuietIs(c, s.disk, Recovered(c, pre));
  }

  lemma {:induction false} NoWritesYet(c: Layout, s: System)
    ensures Apply(s.disk, []) == s.disk
    ensures forall ws: seq<Write> {:trigger ws[..0]} :: ws[..0] == []
  {
  }

  /** Every action of every participant keeps the invariant. */
  lemma {:induction false} InvKept(c: Layout, s: System, a: Action)
    requires Inv(c, s) && Enabled(c, s, a)
    ensures Inv(c, Do(c, s, a))
  {
    hide Reserved, Pinned, Unspent, Bounded, Apply;
    ReservationKept(c, s, a);
    BoundKept(c, s, a);
    PinnedKept(c, s, a);
    match a
    case Begin =>
    case Test(i) =>
    case Append(i, b, data) =>
    case End(i) => NoWritesYet(c, s);
    case DiskWrite => DiskWriteKeeps(c, s);
    case Finish => FinishKeeps(c, s);
    case Crash =>
      TargetIsDurable(c, s);
      assert RecoverWrites(c, s.disk)[..0] == [];
      NoWritesYet(c, s);
  }

  // ------------------------------------------------------------ layouts

  /** The blocks that operations may log: all but the log area. */
  function Homes(c: Layout): int {
    c.disksize - c.size
  }

  /** A log holds no more blocks than there are. */
  lemma {:induction false} HomeCount(c: Layout, h: seq<nat>)
    requires c.Valid() && Distinct(h) && forall i :: 0 <= i < |h| ==> c.Home(h[i])
    ensures |h| <= Homes(c)
  {
    var below, above := Interval(0, c.start), Interval(c.start + c.size, c.disksize);
    DistinctSize(h);
    SubsetSize(Members(h), below + above);
    assert below !! above;
  }

  /** The layouts in which a commit can outgrow the log area: it has fewer than LOGSIZE blocks and the disk
      has as many others. A group of LOGSIZE blocks finds no buffer, so it writes nothing. */
  predicate Outgrows(c: Layout) {
    2 <= c.size < LOGSIZE && c.size <= Homes(c)
  }

  lemma {:induction false} OnlyOutgrown(c: Layout, s: System)
    requires Inv(c, s) && PastArea(c, s) && !CacheFull(s)
    ensures Outgrows(c)
  {
    hide PhaseOk, Reserved;
    HomeCount(c, s.lh);
  }

  // ------------------------------------------------------------ whole runs

  /** The block write that makes a transaction durable: its header. */
  ghost predicate CommitStep(s: System, a: Action) {
    a.DiskWrite? && s.phase.Committing? && s.lh != [] && s.phase.k == |s.lh|
  }

  lemma {:induction false} CrashLosesVolatile(c: Layout, s: System)
    requires Inv(c, s)
    ensures DiskOk(c, s.disk) && SameHome(c, Recovered(c, s.disk), Target(c, s))
  {
    TargetIsDurable(c, s);
    RecoveryCompletes(c, s.disk, Target(c, s));
  }

  lemma {:induction false} InvBasics(c: Layout, s: System)
    requires Inv(c, s)
    ensures c.Valid() && |s.disk| == c.disksize && (s.ops != [] ==> s.phase.Idle?)
  {
    hide Reserved, Bounded, Pinned, Apply, CommitWrites, RecoverWrites;
  }

  /** The block write of a commit that leaves the log area. */
  ghost predicate SpillStep(c: Layout, s: System, a: Action) {
    a.DiskWrite? && PastArea(c, s)
  }

  /** Each action leaves the durable blocks alone, with two exceptions, both with no operation outstanding:
      the header write of a commit makes durable what the system shows, and the write of a commit that has
      outgrown the log area replaces the home block behind it. */
  lemma {:induction false} DurableStep(c: Layout, s: System, a: Action)
    requires Inv(c, s) && Enabled(c, s, a)
    ensures Inv(c, Do(c, s, a))
    ensures SpillStep(c, s, a) ==> c.start + c.size < c.disksize
    ensures SameHome(c, Target(c, Do(c, s, a)),
                     if CommitStep(s, a) then Volatile(c, s)
                     else if SpillStep(c, s, a) then Target(c, s)[c.start + c.size := Spilled(c, s)]
                     else Target(c, s))
    ensures CommitStep(s, a) || SpillStep(c, s, a) ==> s.ops == []
  {
    hide Inv, Pending, View, Recovered, Absorb, DiskOk, Dropped, Spilled;
    InvKept(c, s, a);
    InvBasics(c, s);
    if SpillStep(c, s, a) {
      BeforeSpill(c, s);
      return;
    }
    match a
    case Finish => FinishKeeps(c, s);
    case Crash => CrashLosesVolatile(c, s);
    case _ =>
  }

  lemma {:induction false} ViewWrite(d: Disk, dirty: map<nat, Data>, b: nat, data: Data)
    requires b < |d|
    ensures View(d, dirty[b := data]) == View(d, dirty)[b := data]
  {
  }

  lemma {:induction false} ViewSpill(c: Layout, pre: Disk, d: Disk, dirty: map<nat, Data>, b: nat, data: Data)
    requires c.Valid() && SameHome(c, d, pre) && b < |d|
    ensures SameHome(c, View(d[b := data], dirty - {b}), View(pre, dirty)[b := data])
  {
  }

  /** Only log_write changes what the system shows, in the one block it logs, or a commit that outgrows the
      log area, in the block behind it; only a crash takes it back, to what was durable. */
  lemma {:induction false} VolatileStep(c: Layout, s: System, a: Action)
    requires Inv(c, s) && Enabled(c, s, a)
    ensures Inv(c, Do(c, s, a))
    ensures SameHome(c, Volatile(c, Do(c, s, a)),
                     match a
                     case Append(_, b, data) => Volatile(c, s)[b := data]
                     case DiskWrite => if PastArea(c, s) && c.start + c.size < c.disksize
                                       then Volatile(c, s)[c.start + c.size := Spilled(c, s)] else Volatile(c, s)
                     case Crash => Target(c, s)
                     case _ => Volatile(c, s))
  {
    hide Inv, Pending, View, Recovered, Absorb, DiskOk, Dropped, Spilled;
    InvKept(c, s, a);
    InvBasics(c, s);
    if SpillStep(c, s, a) {
      BeforeSpill(c, s);
      ViewSpill(c, s.phase.pre, s.disk, s.dirty, c.start + c.size, Spilled(c, s));
      return;
    }
    match a
    case Append(_, b, data) =>
      ViewWrite(s.disk, s.dirty, b, data);
    case Finish => FinishKeeps(c, s);
    case Crash => CrashLosesVolatile(c, s);
    case _ =>
  }

  /** One scheduling decision: a disabled action (an operation that has to sleep) changes nothing. */
  ghost function Step(c: Layout, s: System, a: Action): (r: System)
    requires Inv(c, s)
    ensures Inv(c, r)
  {
    if Enabled(c, s, a) then
      InvKept(c, s, a);
      Do(c, s, a)
    else s
  }

  ghost function Run(c: Layout, s: System, actions: seq<Action>): (r: System)
    requires Inv(c, s)
    ensures Inv(c, r)
  {
    if actions == [] then s
    else Step(c, Run(c, s, actions[..|actions|-1]), actions[|actions|-1])
  }

  /** No operation in progress and nothing to lose. */
  ghost predicate Synced(c: Layout, s: System) {
    && Inv(c, s)
    && s.ops == []
    && SameHome(c, Target(c, s), Volatile(c, s))
  }

  /** Action k of the run is the header write of a commit. */
  ghost predicate Commits(c: Layout, s: System, actions: seq<Action>, k: nat)
    requires Inv(c, s) && k < |actions|
  {
    var r := Run(c, s, actions[..k]);
    Enabled(c, r, actions[k]) && CommitStep(r, actions[k])
  }

  /** j is the moment of the last commit of the run, or its start if there is none. */
  ghost predicate LastCommitAt(c: Layout, s: System, actions: seq<Action>, j: nat)
    requires Inv(c, s)
  {
    && j <= |actions| && (j > 0 ==> j < |actions| && Commits(c, s, actions, j))
    && forall k :: j < k < |actions| ==> !Commits(c, s, actions, k)
  }

  /** Layouts in which a commit can write over a home block: it can outgrow the log area, and the log area
      is not the end of the disk. */
  predicate Clobbers(c: Layout) {
    Outgrows(c) && c.start + c.size < c.disksize
  }

  lemma {:induction false} NoSpill(c: Layout, s: System, a: Action)
    requires Inv(c, s) && Enabled(c, s, a) && !Clobbers(c)
    ensures !SpillStep(c, s, a)
  {
    hide Inv, Pending, Spilled;
    if SpillStep(c, s, a) {
      BeforeSpill(c, s);
      OnlyOutgrown(c, s);
    }
  }

  lemma {:induction false} LastCommit(c: Layout, s: System, actions: seq<Action>) returns (j: nat)
    requires Synced(c, s) && !Clobbers(c)
    ensures LastCommitAt(c, s, actions, j)
    ensures Run(c, s, actions[..j]).ops == []
    ensures SameHome(c, Target(c, Run(c, s, actions)), Volatile(c, Run(c, s, actions[..j])))
  {
    hide Inv, Volatile, Target, Enabled, Do;
    if actions == [] {
      return 0;
    }
    var n := |actions| - 1;
    var front := actions[..n];
    var r := Run(c, s, front);
    j := LastCommit(c, s, front);
    assert actions[..j] == front[..j];
    forall k | 0 <= k < n ensures Commits(c, s, actions, k) == Commits(c, s, front, k) {
      assert actions[..k] == front[..k];
    }
    if Enabled(c, r, actions[n]) {
      DurableStep(c, r, actions[n]);
      NoSpill(c, r, actions[n]);
      if CommitStep(r, actions[n]) {
        j := n;
      }
    }
  }

  lemma {:induction false} LastCommitRange(c: Layout, s: System, actions: seq<Action>, j: nat)
    requires Inv(c, s) && LastCommitAt(c, s, actions, j)
    ensures j <= |actions|
  {
  }

  /** A recovery of the disk after the run yields exactly the blocks the system showed at the last commit of
      the run (at its start if there was none), a moment at which no operation was in progress. */
  ghost predicate Atomic(c: Layout, s: System, actions: seq<Action>)
    requires Inv(c, s)
  {
    && DiskOk(c, Run(c, s, actions).disk)
    && exists j: nat :: LastCommitAt(c, s, actions, j)
         && Run(c, s, actions[..j]).ops == []
         && SameHome(c, Recovered(c, Run(c, s, actions).disk), Volatile(c, Run(c, s, actions[..j])))
  }

  /** Group commit is atomic for whole operations, and durable: for any interleaving of any number of
      operations, single block writes and crashes, from a synced system, on every layout in which no commit
      can write over a home block. mkfs's is one. */
  lemma {:induction false} WholeOperations(c: Layout, s: System, actions: seq<Action>)
    requires Synced(c, s) && !Clobbers(c)
    ensures Atomic(c, s, actions)
  {
    hide Inv, Volatile, Target, Enabled, Do, LastCommitAt, Clobbers;
    CrashLosesVolatile(c, Run(c, s, actions));
    var j := LastCommit(c, s, actions);
    assert LastCommitAt(c, s, actions, j) ==> j <= |actions| by { LastCommitRange(c, s, actions, j); }
    assert SameHome(c, Recovered(c, Run(c, s, actions).disk), Volatile(c, Run(c, s, actions[..j])));
  }

  /** In every run reserved space is never exceeded, and a commit runs with no operation outstanding (so
      end_op's "log.committing" panic is unreachable). A block that an operation within its budget has yet
      to log meets the "too big a transaction" panic only on a log area of at most LOGSIZE blocks. */
  lemma {:induction false} Reservation(c: Layout, s: System, actions: seq<Action>, i: nat, b: nat)
    requires Inv(c, s)
    ensures var r := Run(c, s, actions);
            && |r.lh| + Unspent(r.ops) <= LOGSIZE
            && (r.phase.Committing? ==> r.ops == [])
            && (i < |r.ops| && |r.ops[i].blocks + {b}| <= MAXOPBLOCKS && b !in r.lh ==>
                  |r.lh| < LOGSIZE && (TooBig(c, r) ==> c.size <= LOGSIZE))
  {
    var r := Run(c, s, actions);
    if i < |r.ops| && |r.ops[i].blocks + {b}| <= MAXOPBLOCKS && b !in r.lh {
      BudgetLeavesRoom(r, i, b);
    }
  }

  lemma {:induction false} RunFrom(c: Layout, s: System, a: seq<Action>, b: seq<Action>)
    requires Inv(c, s)
    ensures Run(c, s, a + b) == Run(c, Run(c, s, a), b)
    decreases |b|
  {
    hide Inv, Step;
    if b == [] {
      assert a + b == a;
    } else {
      assert (a + b)[..|a + b| - 1] == a + b[..|b|-1];
      RunFrom(c, s, a, b[..|b|-1]);
    }
  }
}
