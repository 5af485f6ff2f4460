/** How far the log can grow, and when its limits stop or break an operation that keeps its promises:
    log_write's "too big a transaction" panic for a new block and for one already logged, the commit that
    finds no buffer to work with, and the commit that outgrows the log area. Each is characterised by the
    sizes of log and disk. */
module LogLimits {
  import opened Params
  import opened Block
  import opened Sequences
  import opened Log
  import opened LogProtocol

  /** How many blocks make log_write refuse: TooBig(c, s) says that the log has them. */
  function Limit(c: Layout): int {
    Min(LOGSIZE, c.size - 1)
  }

  /** The largest transaction: two blocks more than the test for room allows, since it is made without
      log.lock and three operations can pass it together. */
  function Most(c: Layout): int {
    if c.size < 2 then 0 else Min(Min(LOGSIZE, c.size + 1), Homes(c))
  }

  function HomeAt(c: Layout, k: nat): Word
    requires c.Valid() && k < Homes(c)
  {
    if k < c.start then k else k + c.size
  }

  // ------------------------------------------------------------ runs that fill the log

  function ZeroDisk(c: Layout): (d: Disk)
    ensures |d| == c.disksize && forall b :: 0 <= b < |d| ==> d[b] == Zeroes()
  {
    seq<Data>(c.disksize, _ => Zeroes())
  }

  /** What the operations log. */
  function Filler(): (d: Data)
    ensures d != Zeroes()
  {
    assert Zeroes()[0 := 1][0] != Zeroes()[0];
    Zeroes()[0 := 1]
  }

  /** Three operations take turns: how many of the first m blocks are operation q's. */
  function Share(m: nat, q: nat): nat
    requires q < 3
  {
    m / 3 + if q < m % 3 then 1 else 0
  }

  /** Operation q is one of the next a in turn. */
  predicate Due(m: nat, a: nat, q: nat) {
    (if q >= m % 3 then q - m % 3 else q + 3 - m % 3) < a
  }

  /** The first m home blocks are logged, and the next a operations in turn are past the test. */
  ghost predicate Filled(c: Layout, s: System, m: nat, a: nat)
    requires c.Valid()
  {
    && s.phase.Idle? && |s.ops| == 3 && m <= Homes(c) && a <= 3 && s.disk == ZeroDisk(c)
    && s.lh == seq(m, i requires 0 <= i < m => HomeAt(c, i))
    && (forall b :: b in s.dirty ==> s.dirty[b] == Filler())
    && (forall q :: 0 <= q < 3 ==> |s.ops[q].blocks| == Share(m, q) && s.ops[q].past == Due(m, a, q))
    && (m > 0 ==> HomeAt(c, 0) in s.ops[0].blocks)
  }

  lemma {:induction false} TurnNext(m: nat)
    ensures (m + 1) % 3 == if m % 3 == 2 then 0 else m % 3 + 1
    ensures (m + 1) / 3 == m / 3 + if m % 3 == 2 then 1 else 0
  {
  }

  /** The operation a turns after the one whose turn it is. */
  function Turn(m: nat, a: nat): nat
    requires a < 3
  {
    if m % 3 + a < 3 then m % 3 + a else m % 3 + a - 3
  }

  lemma {:induction false} DueNext(m: nat, a: nat)
    requires a < 3
    ensures Turn(m, a) < 3 && !Due(m, a, Turn(m, a))
    ensures forall q :: 0 <= q < 3 ==> Due(m, a + 1, q) == (Due(m, a, q) || q == Turn(m, a))
  {
  }

  lemma {:induction false} ShareNext(m: nat, a: nat)
    requires m < LOGSIZE && 0 < a <= 3
    ensures Due(m, a, m % 3) && Share(m, m % 3) < MAXOPBLOCKS
    ensures forall q :: 0 <= q < 3 ==> Share(m + 1, q) == Share(m, q) + if q == m % 3 then 1 else 0
    ensures forall q :: 0 <= q < 3 ==> Due(m + 1, a - 1, q) == (Due(m, a, q) && q != m % 3)
  {
    TurnNext(m);
  }

  /** An operation's blocks are in the log. */
  lemma {:induction false} InLog(c: Layout, r: System, q: nat)
    requires Inv(c, r) && q < |r.ops|
    ensures forall b :: b in r.ops[q].blocks ==> b in r.lh
  {
    hide PhaseOk, Pinned, Bounded;
  }

  /** The next operation in turn passes the test. */
  lemma {:induction false} TestNext(c: Layout, r: System, m: nat, a: nat)
    requires c.Valid() && Inv(c, r) && Filled(c, r, m, a) && a < 3 && m < Limit(c)
    ensures Filled(c, Step(c, r, Test(Turn(m, a))), m, a + 1)
  {
    hide Inv, Share, Due, Filler, ZeroDisk;
    DueNext(m, a);
  }

  /** The operation whose turn it is enters a fresh block. */
  lemma {:induction false} AppendNext(c: Layout, r: System, m: nat, a: nat)
    requires c.Valid() && Inv(c, r) && Filled(c, r, m, a) && 0 < a && m < LOGSIZE && m < Homes(c)
    ensures Filled(c, Step(c, r, Append(m % 3, HomeAt(c, m), Filler())), m + 1, a - 1)
  {
    hide Inv, Share, Due, Filler, ZeroDisk;
    var q, b := m % 3, HomeAt(c, m);
    ShareNext(m, a);
    InLog(c, r, q);
    assert b !in r.lh;
    assert |r.ops[q].blocks + {b}| == |r.ops[q].blocks| + 1;
    assert r.lh + [b] == seq(m + 1, i requires 0 <= i < m + 1 => HomeAt(c, i));
  }

  /** No action of the run is a block write. */
  ghost predicate NoWrites(actions: seq<Action>) {
    forall k :: 0 <= k < |actions| ==> !actions[k].DiskWrite?
  }

  /** The next a operations pass the test together. */
  lemma {:induction false} TestAll(c: Layout, s: System, m: nat, a: nat) returns (actions: seq<Action>)
    requires c.Valid() && Inv(c, s) && Filled(c, s, m, 0) && a <= 3 && (a > 0 ==> m < Limit(c))
    ensures Filled(c, Run(c, s, actions), m, a) && NoWrites(actions)
  {
    hide Inv, Step, Filled;
    if a == 0 {
      return [];
    }
    var front := TestAll(c, s, m, a - 1);
    TestNext(c, Run(c, s, front), m, a - 1);
    actions := front + [Test(Turn(m, a - 1))];
    assert actions[..|front|] == front;
  }

  lemma {:induction false} FilledRange(c: Layout, s: System, m: nat, a: nat)
    requires c.Valid() && Filled(c, s, m, a)
    ensures a <= 3
  {
  }

  /** And then enter one block each. */
  lemma {:induction false} AppendAll(c: Layout, s: System, m: nat, a: nat, n: nat) returns (actions: seq<Action>)
    requires c.Valid() && Inv(c, s) && Filled(c, s, m, a) && n <= a && m + n <= LOGSIZE && m + n <= Homes(c)
    ensures n <= a && Filled(c, Run(c, s, actions), m + n, a - n) && NoWrites(actions)
  {
    hide Inv, Step, Filled;
    if n == 0 {
      return [];
    }
    assert a <= 3 by { FilledRange(c, s, m, a); }
    var front := AppendAll(c, s, m, a, n - 1);
    AppendNext(c, Run(c, s, front), m + n - 1, a - (n - 1));
    actions := front + [Append((m + n - 1) % 3, HomeAt(c, m + n - 1), Filler())];
    assert actions[..|front|] == front;
  }

  /** a operations pass the test at m blocks and then enter one block each. */
  lemma {:induction false} Together(c: Layout, s: System, m: nat, a: nat) returns (actions: seq<Action>)
    requires c.Valid() && Inv(c, s) && Filled(c, s, m, 0) && a <= 3 && (a > 0 ==> m < Limit(c))
    requires m + a <= LOGSIZE && m + a <= Homes(c)
    ensures Filled(c, Run(c, s, actions), m + a, 0) && NoWrites(actions)
  {
    hide Inv, Step, Run, Filled;
    var tests := TestAll(c, s, m, a);
    var appends := AppendAll(c, Run(c, s, tests), m, a, a);
    actions := tests + appends;
    RunFrom(c, s, tests, appends);
  }

  lemma {:induction false} Fill(c: Layout, s: System, m: nat) returns (actions: seq<Action>)
    requires c.Valid() && Inv(c, s) && Filled(c, s, 0, 0) && m <= Limit(c) && m <= Homes(c)
    ensures Filled(c, Run(c, s, actions), m, 0) && NoWrites(actions)
  {
    hide Inv, Step, Filled;
    if m == 0 {
      return [];
    }
    var front := Fill(c, s, m - 1);
    var more := Together(c, Run(c, s, front), m - 1, 1);
    actions := front + more;
    RunFrom(c, s, front, more);
  }

  /** A disk of zeroes is a synced system with an empty log. */
  lemma {:induction false} Blank(c: Layout) returns (s: System)
    requires c.Valid()
    ensures Synced(c, s) && s == System(ZeroDisk(c), map[], [], [], Idle)
  {
    s := System(ZeroDisk(c), map[], [], [], Idle);
    ZeroWord(0);
    assert s.disk[c.start] == Zeroes();
  }

  lemma {:induction false} ThreeBegins(c: Layout, s: System) returns (actions: seq<Action>)
    requires Inv(c, s) && c.Valid() && s == System(ZeroDisk(c), map[], [], [], Idle)
    ensures Filled(c, Run(c, s, actions), 0, 0) && NoWrites(actions)
  {
    hide Inv, ZeroDisk, Filler;
    var s1 := Step(c, s, Begin);
    var s2 := Step(c, s1, Begin);
    var s3 := Step(c, s2, Begin);
    var none := Op({}, false);
    assert s3.ops == [none, none, none];
    actions := [Begin, Begin, Begin];
    assert actions[..2] == [Begin, Begin] && [Begin, Begin][..1] == [Begin] && [Begin][..0] == [];
    assert Run(c, s, [Begin]) == s1;
    assert Run(c, s, [Begin, Begin]) == s2;
  }

  /** Any filling that the limits allow is reached by a run of three operations within their budgets. Up to
      the limit of the test they enter blocks one by one; beyond it up to three pass the test together. */
  lemma {:induction false} Reach(c: Layout, m: nat) returns (s: System, actions: seq<Action>)
    requires c.Valid() && m <= Most(c)
    ensures Synced(c, s) && s == System(ZeroDisk(c), map[], [], [], Idle)
    ensures Filled(c, Run(c, s, actions), m, 0) && NoWrites(actions)
  {
    hide Inv, Step, Run, Filled;
    s := Blank(c);
    var begins := ThreeBegins(c, s);
    var p := if m <= Limit(c) then m else Limit(c) - 1;
    var singles := Fill(c, Run(c, s, begins), p);
    RunFrom(c, s, begins, singles);
    var rest := Together(c, Run(c, s, begins + singles), p, m - p);
    RunFrom(c, s, begins + singles, rest);
    actions := begins + singles + rest;
  }

  lemma {:induction false} LogBounds(c: Layout, r: System)
    requires Inv(c, r)
    ensures |r.lh| <= Most(c)
    ensures TooBig(c, r) <==> |r.lh| >= Limit(c)
  {
    hide PhaseOk, Reserved;
    HomeCount(c, r.lh);
  }

  /** The sizes that the log takes, over all runs. */
  lemma {:induction false} LogSizes(c: Layout, m: nat)
    requires c.Valid()
    ensures (exists s, actions :: Synced(c, s) && |Run(c, s, actions).lh| == m) <==> m <= Most(c)
  {
    hide Inv, Run;
    if s, actions :| Synced(c, s) && |Run(c, s, actions).lh| == m {
      LogBounds(c, Run(c, s, actions));
    }
    if m <= Most(c) {
      var s, actions := Reach(c, m);
      assert |Run(c, s, actions).lh| == m;
    }
  }

  // ------------------------------------------------------------ the panics of log_write

  /** Operation i of the state r is about to log block b within its budget and is refused. */
  ghost predicate Refused(c: Layout, r: System, i: nat, b: nat) {
    && i < |r.ops| && !r.ops[i].past && c.Home(b) && |r.ops[i].blocks + {b}| <= MAXOPBLOCKS
    && TooBig(c, r)
  }

  /** A run after which a block that is not in the log is refused. */
  ghost predicate RefusesNew(c: Layout, s: System, actions: seq<Action>, i: nat, b: nat) {
    Synced(c, s) && var r := Run(c, s, actions); Refused(c, r, i, b) && b !in r.lh
  }

  /** A run after which a block that is in the log already, and so needs no space, is refused. */
  ghost predicate RefusesOld(c: Layout, s: System, actions: seq<Action>, i: nat, b: nat) {
    Synced(c, s) && var r := Run(c, s, actions); Refused(c, r, i, b) && b in r.lh
  }

  lemma {:induction false} NewIsExtra(c: Layout, r: System, b: nat)
    requires Inv(c, r) && c.Home(b) && b !in r.lh
    ensures |r.lh| < Homes(c)
  {
    hide PhaseOk, Reserved, Bounded;
    HomeCount(c, r.lh + [b]);
  }

  lemma {:induction false} DueNone(m: nat, q: nat)
    ensures !Due(m, 0, q)
  {
  }

  lemma {:induction false} NextIsRefused(c: Layout, r: System, m: nat)
    requires c.Valid() && Inv(c, r) && Filled(c, r, m, 0) && m < LOGSIZE && m < Homes(c) && TooBig(c, r)
    ensures Refused(c, r, m % 3, HomeAt(c, m)) && HomeAt(c, m) !in r.lh
  {
    hide Inv, Due, Share;
    var q, b := m % 3, HomeAt(c, m);
    ShareNext(m, 1);
    assert !Due(m, 0, q) by { DueNone(m, q); }
    InLog(c, r, q);
    assert b !in r.lh;
    assert |r.ops[q].blocks + {b}| == |r.ops[q].blocks| + 1;
  }

  /** An operation within its budget can be refused a new block exactly when the log area has at most
      LOGSIZE blocks (its header leaves fewer) and the disk has blocks enough to fill it. */
  lemma {:induction false} NewBlockRefused(c: Layout)
    requires c.Valid()
    ensures (exists s, actions, i, b :: RefusesNew(c, s, actions, i, b)) <==> c.size <= LOGSIZE && c.size <= Homes(c)
  {
    hide Inv, Run, TooBig;
    if s, actions, i, b :| RefusesNew(c, s, actions, i, b) {
      var r := Run(c, s, actions);
      Reservation(c, s, actions, i, b);
      LogBounds(c, r);
      NewIsExtra(c, r, b);
    }
    if c.size <= LOGSIZE && c.size <= Homes(c) {
      var m := c.size - 1;
      var s, actions := Reach(c, m);
      LogBounds(c, Run(c, s, actions));
      NextIsRefused(c, Run(c, s, actions), m);
      assert RefusesNew(c, s, actions, m % 3, HomeAt(c, m));
    }
  }

  /** It can be refused a block that it has logged before exactly when some filling reaches the limit. */
  lemma {:induction false} OldBlockRefused(c: Layout)
    requires c.Valid()
    ensures (exists s, actions, i, b :: RefusesOld(c, s, actions, i, b)) <==> 1 <= Limit(c) <= Homes(c)
  {
    hide Inv, Run, TooBig;
    if s, actions, i, b :| RefusesOld(c, s, actions, i, b) {
      LogBounds(c, Run(c, s, actions));
    }
    if 1 <= Limit(c) <= Homes(c) {
      var s, actions := Reach(c, Limit(c));
      var r, b := Run(c, s, actions), HomeAt(c, 0);
      LogBounds(c, r);
      DueNone(Limit(c), 0);
      assert r.lh[0] == b && r.ops[0].blocks + {b} == r.ops[0].blocks;
      assert RefusesOld(c, s, actions, 0, b);
    }
  }

  // ------------------------------------------------------------ the panic of commit

  /** With `held` buffers in use by others, the committer's first bread of a log block finds none left. */
  ghost predicate NoBuffer(s: System, held: nat) {
    s.phase.Committing? && s.phase.k == 0 && s.lh != [] && |s.lh| + held >= NBUF
  }

  /** A run after which the committer finds no buffer. */
  ghost predicate CommitStuck(c: Layout, s: System, actions: seq<Action>, held: nat) {
    Synced(c, s) && NoBuffer(Run(c, s, actions), held)
  }

  /** The operations end one after the other, and the last one commits. */
  lemma {:induction false} ThreeEnds(c: Layout, s: System, m: nat) returns (actions: seq<Action>)
    requires c.Valid() && Inv(c, s) && Filled(c, s, m, 0)
    ensures Run(c, s, actions) == s.(ops := [], phase := Committing(s.disk, 0)) && NoWrites(actions)
  {
    hide Inv, Share, Due, Filler, ZeroDisk;
    DueNone(m, 0);
    DueNone(m, 1);
    DueNone(m, 2);
    var s1 := Step(c, s, End(0));
    var s2 := Step(c, s1, End(0));
    actions := [End(0), End(0), End(0)];
    assert actions[..2] == [End(0), End(0)] && [End(0), End(0)][..1] == [End(0)] && [End(0)][..0] == [];
    assert Run(c, s, [End(0)]) == s1;
    assert Run(c, s, [End(0), End(0)]) == s2;
  }

  /** The start of a commit of the first m home blocks, with their new contents in the cache. */
  ghost predicate Ready(c: Layout, r: System, m: nat)
    requires c.Valid()
  {
    && m <= Homes(c) && r.ops == [] && r.phase == Committing(ZeroDisk(c), 0) && r.disk == ZeroDisk(c)
    && r.lh == seq(m, i requires 0 <= i < m => HomeAt(c, i))
    && (forall b :: b in r.dirty ==> r.dirty[b] == Filler())
  }

  lemma {:induction false} ReachCommit(c: Layout, m: nat) returns (s: System, actions: seq<Action>)
    requires c.Valid() && m <= Most(c)
    ensures Synced(c, s) && s == System(ZeroDisk(c), map[], [], [], Idle)
    ensures Ready(c, Run(c, s, actions), m) && NoWrites(actions)
  {
    hide Inv, Step, Run, ZeroDisk, Filler;
    var fill;
    s, fill := Reach(c, m);
    var ends := ThreeEnds(c, Run(c, s, fill), m);
    RunFrom(c, s, fill, ends);
    actions := fill + ends;
  }

  /** A commit can find every buffer taken, `held` of them by others, exactly when the log can grow to the
      number of the rest (and has something to commit). For the log alone, held == 0, that is a log area of
      at least LOGSIZE - 1 blocks on a disk with LOGSIZE blocks to log: NBUF is no more than LOGSIZE. */
  lemma {:induction false} GroupTooLarge(c: Layout, held: nat)
    requires c.Valid()
    ensures (exists s, actions :: CommitStuck(c, s, actions, held)) <==> Max(1, NBUF - held) <= Most(c)
    ensures NBUF <= Most(c) <==> c.size >= LOGSIZE - 1 && LOGSIZE <= Homes(c)
  {
    hide Inv, Run;
    if s, actions :| CommitStuck(c, s, actions, held) {
      LogBounds(c, Run(c, s, actions));
    }
    if Max(1, NBUF - held) <= Most(c) {
      var s, actions := ReachCommit(c, Max(1, NBUF - held));
      assert CommitStuck(c, s, actions, held);
    }
  }

  /** So on a disk large enough no size of the log area is free of both. */
  lemma {:induction false} NoSafeSize(c: Layout)
    requires c.Valid() && c.size <= Homes(c) && LOGSIZE <= Homes(c)
    ensures || (exists s, actions, i, b :: RefusesNew(c, s, actions, i, b))
            || (exists s, actions :: CommitStuck(c, s, actions, 0))
  {
    NewBlockRefused(c);
    GroupTooLarge(c, 0);
  }

  // ------------------------------------------------------------ the commit that outgrows the log area

  /** After k of the commit's writes, all of them to slots of the log area. */
  ghost predicate Logging(r: System, r0: System, k: nat)
    requires r0.phase.Committing?
  {
    r == r0.(disk := r.disk, phase := Committing(r0.phase.pre, k))
  }

  lemma {:induction false} WriteSlot(c: Layout, r: System)
    requires Inv(c, r) && r.phase.Committing? && !CacheFull(r) && r.phase.k < |r.lh| && r.phase.k < c.size - 1
    ensures Logging(Step(c, r, DiskWrite), r, r.phase.k + 1)
  {
    hide Reserved, Bounded, Apply, GetWord, PutHeader;
    assert Pending(c, r)[r.phase.k].blockno == c.start + 1 + r.phase.k;
  }

  lemma {:induction false} WriteSlots(c: Layout, r: System, k: nat) returns (actions: seq<Action>)
    requires c.Valid() && Inv(c, r) && r.phase.Committing? && r.phase.k == 0 && !CacheFull(r)
    requires k < c.size && k <= |r.lh|
    ensures |actions| == k && Logging(Run(c, r, actions), r, k)
    ensures forall j :: 0 <= j < k ==> Logging(Run(c, r, actions[..j]), r, j)
  {
    hide Inv, Step;
    if k == 0 {
      return [];
    }
    var front := WriteSlots(c, r, k - 1);
    actions := front + [DiskWrite];
    assert actions[..k - 1] == front;
    assert forall j :: 0 <= j < k - 1 ==> actions[..j] == front[..j];
    WriteSlot(c, Run(c, r, front));
  }

  /** A run after which the committer is about to write behind the log area. */
  ghost predicate Spills(c: Layout, s: System, actions: seq<Action>) {
    Synced(c, s) && var r := Run(c, s, actions); PastArea(c, r) && !CacheFull(r)
  }

  /** A commit can outgrow the log area exactly when that has fewer than LOGSIZE blocks, a header and a slot
      at least, and the disk has as many others to log. */
  lemma {:induction false} CommitOutgrows(c: Layout)
    requires c.Valid()
    ensures (exists s, actions :: Spills(c, s, actions)) <==> Outgrows(c)
  {
    hide Inv, Run;
    if s, actions :| Spills(c, s, actions) {
      OnlyOutgrown(c, Run(c, s, actions));
    }
    if Outgrows(c) {
      var s, ready := ReachCommit(c, c.size);
      var r := Run(c, s, ready);
      var writes := WriteSlots(c, r, c.size - 1);
      RunFrom(c, s, ready, writes);
      assert Spills(c, s, ready + writes);
    }
  }

  /** Before the write that leaves the log area the run commits nothing. */
  lemma {:induction false} NothingCommitted(c: Layout, s: System, ready: seq<Action>, writes: seq<Action>, k: nat)
    requires Inv(c, s) && NoWrites(ready) && k < |ready + writes + [DiskWrite]|
    requires Run(c, s, ready).phase.Committing?
    requires forall j :: 0 <= j <= |writes| ==> Logging(Run(c, Run(c, s, ready), writes[..j]), Run(c, s, ready), j)
    requires |writes| < |Run(c, s, ready).lh|
    ensures !Commits(c, s, ready + writes + [DiskWrite], k)
  {
    hide Inv, Run, Enabled;
    var actions := ready + writes + [DiskWrite];
    if k < |ready| {
      assert actions[k] == ready[k];
    } else {
      var j := k - |ready|;
      assert actions[..k] == ready + writes[..j];
      RunFrom(c, s, ready, writes[..j]);
    }
  }

  /** It leaves what would survive a crash with one home block changed. */
  lemma {:induction false} SpillChanges(c: Layout, r: System)
    requires Inv(c, r) && PastArea(c, r) && !CacheFull(r) && c.start + c.size < c.disksize
    requires forall b :: b in r.dirty ==> r.dirty[b] == Filler()
    ensures var d := Step(c, r, DiskWrite).disk;
            DiskOk(c, d) && Recovered(c, d)[c.start + c.size] == Filler()
  {
    hide Apply, GetWord, CommitWrites, Recovered, Represents;
    BeforeSpill(c, r);
    assert r.lh[r.phase.k] in r.dirty;
    DurableStep(c, r, DiskWrite);
    CrashLosesVolatile(c, Step(c, r, DiskWrite));
  }

  lemma {:induction false} LastStep(c: Layout, s: System, front: seq<Action>, a: Action)
    requires Inv(c, s)
    ensures Run(c, s, front + [a]) == Step(c, Run(c, s, front), a)
  {
    assert (front + [a])[..|front|] == front;
  }

  lemma {:induction false} NoSteps(c: Layout, s: System)
    requires Inv(c, s)
    ensures Run(c, s, []) == s
  {
  }

  /** A run that is not atomic: a commit outgrows the log area and the machine crashes. */
  lemma {:induction false} Torn(c: Layout) returns (s: System, actions: seq<Action>)
    requires c.Valid() && Clobbers(c)
    ensures Synced(c, s) && !Atomic(c, s, actions)
  {
    hide Inv, Run, Recovered, Commits, Filler, ZeroDisk;
    var ready;
    s, ready := ReachCommit(c, c.size);
    var r := Run(c, s, ready);
    var writes := WriteSlots(c, r, c.size - 1);
    assert writes[..|writes|] == writes;
    actions := ready + writes + [DiskWrite];
    forall k | 0 <= k < |actions| ensures !Commits(c, s, actions, k) {
      NothingCommitted(c, s, ready, writes, k);
    }
    RunFrom(c, s, ready, writes);
    SpillChanges(c, Run(c, s, ready + writes));
    LastStep(c, s, ready + writes, DiskWrite);
    assert actions[..0] == [];
    NoSteps(c, s);
    assert c.Home(c.start + c.size) && View(ZeroDisk(c), map[])[c.start + c.size] == Zeroes();
  }

  /** Every run is atomic exactly on the layouts in which no commit can write over a home block. */
  lemma {:induction false} AtomicExactly(c: Layout)
    requires c.Valid()
    ensures (forall s, actions :: Synced(c, s) ==> Atomic(c, s, actions)) <==> !Clobbers(c)
  {
    hide Atomic, Clobbers;
    if Clobbers(c) {
      var s, actions := Torn(c);
    } else {
      forall s, actions | Synced(c, s) ensures Atomic(c, s, actions) {
        WholeOperations(c, s, actions);
      }
    }
  }
}
