/** The redo log: the order of its disk writes, what recovery makes of every crash point,
    and the protocol by which concurrent operations share one transaction. */
module Log {
  import opened Params
  import opened Block

  /** The log occupies blocks start .. start+size: a header block, then the logged data. */
  datatype Layout = Layout(start: nat, size: nat, disksize: nat) {
    predicate Valid() {
      && 1 <= size
      && start + size <= disksize < WORD_RANGE
    }

    /** Blocks outside the log area: the only ones an operation may log. */
    predicate Home(b: int) {
      0 <= b < disksize && !(start <= b < start + size)
    }
  }

  type Disk = seq<Data>

  /** One block write reaching the disk; a crash can fall between any two. */
  datatype Write = Write(blockno: nat, data: Data)

  function Apply(d: Disk, ws: seq<Write>): (r: Disk)
    ensures |r| == |d|
  {
    if ws == [] then d
    else
      var r := Apply(d, ws[..|ws|-1]);
      var w := ws[|ws|-1];
      if w.blockno < |r| then r[w.blockno := w.data] else r
  }

  lemma {:induction false} ApplyLast(d: Disk, ws: seq<Write>)
    requires ws != []
    ensures var n := |ws| - 1; var r := Apply(d, ws[..n]);
            Apply(d, ws) == if ws[n].blockno < |r| then r[ws[n].blockno := ws[n].data] else r
  {
  }

  lemma {:induction false} ApplyAppend(d: Disk, a: seq<Write>, b: seq<Write>)
    ensures Apply(d, a + b) == Apply(Apply(d, a), b)
    decreases |b|
  {
    if b == [] {
      assert a + b == a;
    } else {
      assert (a + b)[..|a + b| - 1] == a + b[..|b|-1];
      ApplyAppend(d, a, b[..|b|-1]);
    }
  }

  lemma {:induction false} ApplySplit(d: Disk, ws: seq<Write>, m: nat, k: nat)
    requires m <= k <= |ws|
    ensures Apply(d, ws[..k]) == Apply(Apply(d, ws[..m]), ws[m..][..k - m])
  {
    ApplyAppend(d, ws[..m], ws[m..][..k - m]);
    assert ws[..m] + ws[m..][..k - m] == ws[..k];
  }

  // ------------------------------------------------------------ the header block

  /** The block numbers a header block lists. */
  function HeaderOf(d: Data): (h: seq<Word>)
    requires GetWord(d, 0) < WORDS
    ensures |h| == GetWord(d, 0)
  {
    seq(GetWord(d, 0), i requires 0 <= i < GetWord(d, 0) => GetWord(d, 1 + i))
  }

  /** The header block after its count and first k entries are overwritten. */
  function PutHeader(d: Data, lh: seq<Word>, k: nat): Data
    requires k <= |lh| < WORDS
  {
    if k == 0 then PutWord(d, 0, |lh|) else PutWord(PutHeader(d, lh, k - 1), k, lh[k-1])
  }

  lemma {:induction false} PutHeaderWord(d: Data, lh: seq<Word>, k: nat, j: nat)
    requires k <= |lh| < WORDS && j <= k
    ensures GetWord(PutHeader(d, lh, k), j) == if j == 0 then |lh| else lh[j-1]
  {
    if k == 0 {
      PutGet(d, 0, |lh|, j);
    } else {
      PutGet(PutHeader(d, lh, k - 1), k, lh[k-1], j);
      if j < k { PutHeaderWord(d, lh, k - 1, j); }
    }
  }

  /** What write_head stores, read_head reads back, whatever the block held before. */
  lemma {:induction false} HeaderRoundTrip(d: Data, lh: seq<Word>)
    requires |lh| < WORDS
    ensures var b := PutHeader(d, lh, |lh|); GetWord(b, 0) == |lh| && HeaderOf(b) == lh
  {
    var b := PutHeader(d, lh, |lh|);
    PutHeaderWord(d, lh, |lh|, 0);
    forall i | 0 <= i < |lh| ensures HeaderOf(b)[i] == lh[i] {
      PutHeaderWord(d, lh, |lh|, 1 + i);
    }
  }

  // ------------------------------------------------------------ write sequences

  ghost predicate Distinct(h: seq<nat>) {
    forall i, j :: 0 <= i < j < |h| ==> h[i] != h[j]
  }

  /** A transaction the in-memory header can hold: distinct home blocks. */
  ghost predicate Listed(c: Layout, h: seq<nat>) {
    && |h| <= LOGSIZE
    && Distinct(h)
    && forall i :: 0 <= i < |h| ==> c.Home(h[i])
  }

  /** A transaction for which the log area has a slot each. */
  ghost predicate Loggable(c: Layout, h: seq<nat>) {
    Listed(c, h) && |h| < c.size
  }

  ghost predicate DiskOk(c: Layout, d: Disk) {
    && c.Valid()
    && |d| == c.disksize
    && GetWord(d[c.start], 0) < WORDS
    && Loggable(c, HeaderOf(d[c.start]))
  }

  function Slots(c: Layout, n: nat): (s: seq<nat>)
    ensures |s| == n && forall i :: 0 <= i < n ==> s[i] == c.start + 1 + i
  {
    seq(n, i => c.start + 1 + i)
  }

  function Copies(to: seq<nat>, src: seq<Data>): (ws: seq<Write>)
    requires |to| == |src|
    ensures |ws| == |to| && forall i :: 0 <= i < |to| ==> ws[i] == Write(to[i], src[i])
  {
    seq(|to|, i requires 0 <= i < |to| => Write(to[i], src[i]))
  }

  function Pick(view: Disk, lh: seq<nat>): (src: seq<Data>)
    requires forall i :: 0 <= i < |lh| ==> lh[i] < |view|
    ensures |src| == |lh| && forall i :: 0 <= i < |lh| ==> src[i] == view[lh[i]]
  {
    seq(|lh|, i requires 0 <= i < |lh| => view[lh[i]])
  }

  /** The block writes of one commit, in order. `view` is the disk as seen through the cache. */
  function CommitWrites(c: Layout, d: Disk, lh: seq<Word>, view: Disk): (ws: seq<Write>)
    requires c.Valid() && |d| == |view| == c.disksize
    requires |lh| <= LOGSIZE && forall i :: 0 <= i < |lh| ==> lh[i] < |view|
    ensures |ws| == 2 * |lh| + 2
  {
    var src := Pick(view, lh);
    var head := PutHeader(d[c.start], lh, |lh|);
    Copies(Slots(c, |lh|), src) + [Write(c.start, head)]
    + Copies(lh, src) + [Write(c.start, PutHeader(head, [], 0))]
  }

  /** The block writes of recovery: install whatever the header lists, then clear it. */
  function RecoverWrites(c: Layout, d: Disk): (ws: seq<Write>)
    requires c.Valid() && |d| == c.disksize
    requires GetWord(d[c.start], 0) < WORDS && GetWord(d[c.start], 0) < c.size
    ensures |ws| == GetWord(d[c.start], 0) + 1
  {
    var h := HeaderOf(d[c.start]);
    Copies(h, d[c.start + 1 .. c.start + 1 + |h|]) + [Write(c.start, PutHeader(d[c.start], [], 0))]
  }

  function Recovered(c: Layout, d: Disk): (r: Disk)
    requires c.Valid() && |d| == c.disksize
    requires GetWord(d[c.start], 0) < WORDS && GetWord(d[c.start], 0) < c.size
    ensures |r| == |d|
  {
    Apply(d, RecoverWrites(c, d))
  }

  lemma {:induction false} CopiesAt(d: Disk, to: seq<nat>, src: seq<Data>, k: nat, b: nat)
    requires |to| == |src| && k <= |to| && b < |d|
    requires Distinct(to)
    ensures b !in to[..k] ==> Apply(d, Copies(to, src)[..k])[b] == d[b]
    ensures forall t :: 0 <= t < k && to[t] == b ==> Apply(d, Copies(to, src)[..k])[b] == src[t]
  {
    if k > 0 {
      var ws := Copies(to, src);
      assert ws[..k][..k-1] == ws[..k-1];
      assert to[..k] == to[..k-1] + [to[k-1]];
      CopiesAt(d, to, src, k - 1, b);
    }
  }

  // ------------------------------------------------------------ crash points

  /** `d` is a disk on which recovery will produce the home blocks of `target`. */
  ghost predicate Represents(c: Layout, d: Disk, target: Disk) {
    && DiskOk(c, d)
    && |target| == |d|
    && var h := HeaderOf(d[c.start]);
       && (forall t :: 0 <= t < |h| ==> d[c.start + 1 + t] == target[h[t]])
       && (forall b :: c.Home(b) && b !in h ==> d[b] == target[b])
  }

  /** The same home blocks; the log area may differ. */
  ghost predicate SameHome(c: Layout, d: Disk, e: Disk) {
    && |d| == |e| == c.disksize
    && forall b :: c.Home(b) ==> d[b] == e[b]
  }

  ghost predicate Quiet(c: Layout, d: Disk) {
    && DiskOk(c, d)
    && HeaderOf(d[c.start]) == []
  }

  /** `view` differs from `d`, outside the log area, at most in the listed blocks. */
  ghost predicate Modifies(c: Layout, d: Disk, view: Disk, lh: seq<nat>) {
    && |d| == |view| == c.disksize
    && forall b :: c.Home(b) && b !in lh ==> view[b] == d[b]
  }

  /** Installing j of the logged blocks leaves the header and the log slots, and puts those j in place. */
  lemma {:induction false} Installing(c: Layout, d: Disk, target: Disk, j: nat)
    requires Represents(c, d, target) && j <= |HeaderOf(d[c.start])|
    ensures var h := HeaderOf(d[c.start]);
            var e := Apply(d, Copies(h, d[c.start + 1 .. c.start + 1 + |h|])[..j]);
            && Represents(c, e, target) && e[c.start] == d[c.start]
            && forall t :: 0 <= t < j ==> e[h[t]] == target[h[t]]
  {
    hide Apply, GetWord, HeaderOf, Copies, Distinct;
    var h := HeaderOf(d[c.start]);
    var src := d[c.start + 1 .. c.start + 1 + |h|];
    var e := Apply(d, Copies(h, src)[..j]);
    forall b | 0 <= b < |d| && b !in h ensures e[b] == d[b] {
      CopiesAt(d, h, src, j, b);
    }
    forall t | 0 <= t < j ensures e[h[t]] == target[h[t]] {
      CopiesAt(d, h, src, j, h[t]);
      assert src[t] == target[h[t]];
    }
  }

  /** Clearing the header once everything is installed. */
  lemma {:induction false} Erased(c: Layout, e: Disk, target: Disk)
    requires Represents(c, e, target)
    requires var h := HeaderOf(e[c.start]); forall t :: 0 <= t < |h| ==> e[h[t]] == target[h[t]]
    ensures var r := e[c.start := PutHeader(e[c.start], [], 0)]; Represents(c, r, target) && Quiet(c, r)
  {
    HeaderRoundTrip(e[c.start], []);
    hide GetWord;
    var h := HeaderOf(e[c.start]);
    forall b | c.Home(b) ensures e[b] == target[b] {
      if b in h {
        var t :| 0 <= t < |h| && h[t] == b;
        assert e[h[t]] == target[h[t]];
      }
    }
  }

  /** A crash after any number of recovery's writes leaves the same home blocks to be recovered. */
  lemma {:induction false} RecoveryPoint(c: Layout, d: Disk, target: Disk, k: nat)
    requires Represents(c, d, target)
    requires k <= |RecoverWrites(c, d)|
    ensures Represents(c, Apply(d, RecoverWrites(c, d)[..k]), target)
    ensures k == |RecoverWrites(c, d)| ==> Quiet(c, Apply(d, RecoverWrites(c, d)[..k]))
  {
    hide Apply, GetWord, HeaderOf, Copies, PutHeader;
    var h := HeaderOf(d[c.start]);
    var n := |h|;
    var copies := Copies(h, d[c.start + 1 .. c.start + 1 + n]);
    var ws := RecoverWrites(c, d);
    if k <= n {
      assert ws[..k] == copies[..k];
      Installing(c, d, target, k);
    } else {
      assert ws[..k] == ws && ws[..n] == copies[..n];
      ApplyLast(d, ws);
      Installing(c, d, target, n);
      Erased(c, Apply(d, copies[..n]), target);
    }
  }

  /** Until the header write, and as long as its slots lie in the log area, a commit leaves the old home
      blocks to be recovered. */
  lemma {:induction false} BeforeHeader(c: Layout, d: Disk, lh: seq<Word>, view: Disk, k: nat)
    requires Quiet(c, d) && Listed(c, lh) && |view| == |d|
    requires k <= |lh| && k < c.size
    ensures Represents(c, Apply(d, CommitWrites(c, d, lh, view)[..k]), d)
  {
    var src := Pick(view, lh);
    var slots := Slots(c, |lh|);
    assert CommitWrites(c, d, lh, view)[..k] == Copies(slots, src)[..k];
    forall b | c.Home(b) || b == c.start
      ensures b < |d| && Apply(d, Copies(slots, src)[..k])[b] == d[b]
    {
      CopiesAt(d, slots, src, k, b);
    }
  }

  lemma {:induction false} HeaderWrite(c: Layout, d: Disk, lh: seq<Word>, view: Disk)
    requires Quiet(c, d) && Loggable(c, lh) && |view| == |d|
    ensures Apply(d, CommitWrites(c, d, lh, view)[..|lh| + 1])
         == Apply(d, Copies(Slots(c, |lh|), Pick(view, lh)))[c.start := PutHeader(d[c.start], lh, |lh|)]
  {
    var ws := CommitWrites(c, d, lh, view);
    assert ws[..|lh| + 1][..|lh|] == Copies(Slots(c, |lh|), Pick(view, lh));
  }

  lemma {:induction false} SlotsWritten(c: Layout, d: Disk, src: seq<Data>)
    requires c.Valid() && |d| == c.disksize && |src| < c.size
    ensures var e := Apply(d, Copies(Slots(c, |src|), src));
            SameHome(c, e, d) && e[c.start + 1 .. c.start + 1 + |src|] == src
  {
    var slots := Slots(c, |src|);
    var ws := Copies(slots, src);
    assert ws == ws[..|src|];
    var e := Apply(d, ws);
    forall b | c.Home(b) ensures e[b] == d[b] {
      CopiesAt(d, slots, src, |src|, b);
    }
    forall t | 0 <= t < |src| ensures e[c.start + 1 + t] == src[t] {
      CopiesAt(d, slots, src, |src|, slots[t]);
    }
  }

  lemma {:induction false} InstalledHeader(c: Layout, d: Disk, lh: seq<Word>, view: Disk, e: Disk, head: Data)
    requires c.Valid() && Loggable(c, lh) && Modifies(c, d, view, lh)
    requires SameHome(c, e, d) && e[c.start + 1 .. c.start + 1 + |lh|] == Pick(view, lh)
    requires GetWord(head, 0) == |lh| && HeaderOf(head) == lh
    ensures var e' := e[c.start := head];
            Represents(c, e', view) && e'[c.start + 1 .. c.start + 1 + |lh|] == Pick(view, lh)
  {
    var e' := e[c.start := head];
    forall t | 0 <= t < |lh| ensures e'[c.start + 1 + t] == view[lh[t]] {
      assert e'[c.start + 1 + t] == e[c.start + 1 .. c.start + 1 + |lh|][t];
    }
  }

  /** The disk right after the header write: log slots hold the new data, home is old. */
  lemma {:induction false} AtHeader(c: Layout, d: Disk, lh: seq<Word>, view: Disk)
    requires Quiet(c, d) && Loggable(c, lh) && Modifies(c, d, view, lh)
    ensures var e := Apply(d, CommitWrites(c, d, lh, view)[..|lh| + 1]);
            && Represents(c, e, view)
            && e[c.start] == PutHeader(d[c.start], lh, |lh|)
            && HeaderOf(e[c.start]) == lh
            && e[c.start + 1 .. c.start + 1 + |lh|] == Pick(view, lh)
  {
    hide Apply, GetWord;
    HeaderWrite(c, d, lh, view);
    SlotsWritten(c, d, Pick(view, lh));
    HeaderRoundTrip(d[c.start], lh);
    var head := PutHeader(d[c.start], lh, |lh|);
    InstalledHeader(c, d, lh, view, Apply(d, Copies(Slots(c, |lh|), Pick(view, lh))), head);
  }

  /** From the header write on, a commit continues exactly as recovery from that point would. */
  lemma {:induction false} CommitTail(c: Layout, d: Disk, lh: seq<Word>, view: Disk)
    requires Quiet(c, d) && Loggable(c, lh) && Modifies(c, d, view, lh)
    ensures var ws := CommitWrites(c, d, lh, view);
            var e := Apply(d, ws[..|lh| + 1]);
            DiskOk(c, e) && ws[|lh| + 1..] == RecoverWrites(c, e)
  {
    hide Apply, GetWord, PutHeader;
    AtHeader(c, d, lh, view);
  }

  lemma {:induction false} AfterHeader(c: Layout, d: Disk, lh: seq<Word>, view: Disk, k: nat)
    requires Quiet(c, d) && Loggable(c, lh) && Modifies(c, d, view, lh)
    requires |lh| < k <= 2 * |lh| + 2
    ensures var e := Apply(d, CommitWrites(c, d, lh, view)[..k]);
            Represents(c, e, view) && (k == 2 * |lh| + 2 ==> Quiet(c, e))
  {
    hide Apply, GetWord, PutHeader;
    var ws := CommitWrites(c, d, lh, view);
    var m := |lh| + 1;
    ApplySplit(d, ws, m, k);
    AtHeader(c, d, lh, view);
    CommitTail(c, d, lh, view);
    RecoveryPoint(c, Apply(d, ws[..m]), view, k - m);
  }

  /** The disk after k writes of a commit recovers to the new blocks iff the header write is among them. */
  lemma {:induction false} CommitPoint(c: Layout, d: Disk, lh: seq<Word>, view: Disk, k: nat)
    requires Quiet(c, d) && Loggable(c, lh) && Modifies(c, d, view, lh)
    requires k <= 2 * |lh| + 2
    ensures var e := Apply(d, CommitWrites(c, d, lh, view)[..k]);
            && Represents(c, e, if k <= |lh| then d else view)
            && (k == 2 * |lh| + 2 ==> Quiet(c, e))
  {
    if k <= |lh| {
      BeforeHeader(c, d, lh, view, k);
    } else {
      AfterHeader(c, d, lh, view, k);
    }
  }

  /** The disk after a series of recoveries, the i-th cut off after crashes[i] writes. */
  function AfterCrashes(c: Layout, d: Disk, crashes: seq<nat>): (r: Disk)
    requires c.Valid() && |d| == c.disksize
    ensures |r| == |d|
  {
    if crashes == [] then d
    else
      var e := AfterCrashes(c, d, crashes[..|crashes|-1]);
      var k := crashes[|crashes|-1];
      if GetWord(e[c.start], 0) < WORDS && GetWord(e[c.start], 0) < c.size && k <= |RecoverWrites(c, e)|
      then Apply(e, RecoverWrites(c, e)[..k])
      else e
  }

  lemma {:induction false} CrashesKeep(c: Layout, d: Disk, target: Disk, crashes: seq<nat>)
    requires Represents(c, d, target)
    ensures Represents(c, AfterCrashes(c, d, crashes), target)
  {
    if crashes != [] {
      CrashesKeep(c, d, target, crashes[..|crashes|-1]);
      var e := AfterCrashes(c, d, crashes[..|crashes|-1]);
      var k := crashes[|crashes|-1];
      if k <= |RecoverWrites(c, e)| { RecoveryPoint(c, e, target, k); }
    }
  }

  /** Completed recovery yields the represented home blocks and an empty log. */
  lemma {:induction false} RecoveryCompletes(c: Layout, d: Disk, target: Disk)
    requires Represents(c, d, target)
    ensures Quiet(c, Recovered(c, d)) && SameHome(c, Recovered(c, d), target)
  {
    var ws := RecoverWrites(c, d);
    assert ws[..|ws|] == ws;
    RecoveryPoint(c, d, target, |ws|);
  }

  /** Crash atomicity: cut a commit after any k of its block writes, let any number of recoveries be
      cut off anywhere, and complete one more. The home blocks are then all old or all new, and all
      new exactly when the header write (the one with index |lh|) reached the disk. */
  lemma {:induction false} CrashAtomicity(c: Layout, d: Disk, lh: seq<Word>, view: Disk, k: nat, crashes: seq<nat>)
    requires Quiet(c, d) && Loggable(c, lh) && Modifies(c, d, view, lh)
    requires k <= |CommitWrites(c, d, lh, view)|
    ensures var e := AfterCrashes(c, Apply(d, CommitWrites(c, d, lh, view)[..k]), crashes);
            && DiskOk(c, e)
            && Quiet(c, Recovered(c, e))
            && SameHome(c, Recovered(c, e), if k > |lh| then view else d)
  {
    CommitPoint(c, d, lh, view, k);
    var e := Apply(d, CommitWrites(c, d, lh, view)[..k]);
    var target := if k > |lh| then view else d;
    CrashesKeep(c, e, target, crashes);
    RecoveryCompletes(c, AfterCrashes(c, e, crashes), target);
  }
}
