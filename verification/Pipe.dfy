/** Pipes: a 512-byte ring with wrapping 32-bit counters, and the sleep/wakeup protocol around it. */
module Pipe {
  import opened Params

  const PIPESIZE := 512

  // ------------------------------------------------------------ the protocol, on values

  /** A pipe whose lock is free. `queue` is what is in flight, `written` and `read` everything deposited
      and taken so far, `readers` and `writers` the processes asleep on nread and nwrite. */
  datatype State = State(queue: seq<Byte>, written: seq<Byte>, read: seq<Byte>,
                         readopen: bool, writeopen: bool, readers: set<nat>, writers: set<nat>)

  datatype Outcome = Finished | Bailed | Asleep

  /** How many of n bytes fit. */
  function Room(s: State, n: nat): (k: int)
  {
    Min(n, PIPESIZE - |s.queue|)
  }

  function WriterOutcome(s: State, rest: seq<Byte>, killed: bool): Outcome {
    if |rest| <= PIPESIZE - |s.queue| then Finished
    else if !s.readopen || killed then Bailed
    else Asleep
  }

  /** pipewrite by process w with `rest` still to write, from taking the lock to giving it up. */
  function AfterWriter(s: State, w: nat, rest: seq<Byte>, killed: bool): State
    requires |s.queue| <= PIPESIZE
  {
    var k := Room(s, |rest|);
    var t := s.(queue := s.queue + rest[..k], written := s.written + rest[..k]);
    match WriterOutcome(s, rest, killed)
    case Finished => t.(readers := {})
    case Bailed => t
    case Asleep => t.(readers := {}, writers := s.writers + {w})
  }

  function ReaderOutcome(s: State, killed: bool): Outcome {
    if s.queue == [] && s.writeopen then (if killed then Bailed else Asleep) else Finished
  }

  function ReaderGets(s: State, n: nat, killed: bool): seq<Byte> {
    if ReaderOutcome(s, killed) == Finished then s.queue[..Min(n, |s.queue|)] else []
  }

  /** piperead of up to n bytes by process r, from taking the lock to giving it up. */
  function AfterReader(s: State, r: nat, n: nat, killed: bool): State {
    match ReaderOutcome(s, killed)
    case Asleep => s.(readers := s.readers + {r})
    case Bailed => s
    case Finished =>
      var k := Min(n, |s.queue|);
      s.(queue := s.queue[k..], read := s.read + s.queue[..k], writers := {})
  }

  /** One critical section of the pipe's lock, or a kill that wakes a sleeper. A process inside piperead
      or pipewrite keeps its end open, so an end is closed only while nobody sleeps in a call on it. */
  datatype Action =
    | Write(w: nat, rest: seq<Byte>, killed: bool)
    | Read(r: nat, n: nat, killed: bool)
    | CloseWrite
    | CloseRead
    | Wake(p: nat)

  ghost predicate Enabled(s: State, a: Action) {
    match a
    case Write(w, _, _) => s.writeopen && w !in s.writers
    case Read(r, _, _) => s.readopen && r !in s.readers
    case CloseWrite => s.writers == {}
    case CloseRead => s.readers == {}
    case Wake(_) => true
  }

  function Do(s: State, a: Action): State
    requires |s.queue| <= PIPESIZE
  {
    match a
    case Write(w, rest, killed) => AfterWriter(s, w, rest, killed)
    case Read(r, n, killed) => AfterReader(s, r, n, killed)
    case CloseWrite => s.(writeopen := false, readers := {})
    case CloseRead => s.(readopen := false, writers := {})
    case Wake(p) => s.(readers := s.readers - {p}, writers := s.writers - {p})
  }

  /** Bytes are read in the order deposited, none lost or invented, at most PIPESIZE in flight; a
      sleeping writer means a full pipe with its reading end open. */
  ghost predicate Inv(s: State) {
    && s.written == s.read + s.queue
    && |s.queue| <= PIPESIZE
    && (s.writers != {} ==> |s.queue| == PIPESIZE && s.readopen)
    && (s.readers != {} ==> s.readopen && s.writeopen)
  }

  /** A sleeping reader means an empty pipe with its writing end open. */
  ghost predicate ReadersJustified(s: State) {
    s.readers != {} ==> s.queue == [] && s.writeopen
  }

  lemma {:induction false} WriteKeeps(s: State, w: nat, rest: seq<Byte>, killed: bool)
    requires Inv(s) && s.writeopen
    ensures Inv(AfterWriter(s, w, rest, killed))
  {
    var k := Room(s, |rest|);
    assert (s.read + s.queue) + rest[..k] == s.read + (s.queue + rest[..k]);
  }

  lemma {:induction false} ReadKeeps(s: State, r: nat, n: nat, killed: bool)
    requires Inv(s) && s.readopen
    ensures Inv(AfterReader(s, r, n, killed))
  {
    var k := Min(n, |s.queue|);
    assert s.read + s.queue == (s.read + s.queue[..k]) + s.queue[k..];
  }

  /** Every critical section keeps the bytes in order and the writers' sleep justified. */
  lemma {:induction false} InvKept(s: State, a: Action)
    requires Inv(s) && Enabled(s, a)
    ensures Inv(Do(s, a))
  {
    match a
    case Write(w, rest, killed) => WriteKeeps(s, w, rest, killed);
    case Read(r, n, killed) => ReadKeeps(s, r, n, killed);
    case _ =>
  }

  // ------------------------------------------------------------ what a turn does

  /** A turn of piperead finishes unless the pipe is empty with its write end open. It then returns the next
      bytes in flight, as many as it asked for or all there are, and takes exactly these; otherwise it gets
      nothing and leaves, or sleeps. */
  lemma {:induction false} ReadTurn(s: State, r: nat, n: nat, killed: bool)
    requires Inv(s)
    ensures var t, got, out := AfterReader(s, r, n, killed), ReaderGets(s, n, killed), ReaderOutcome(s, killed);
            && |s.read| <= |s.written|
            && (out.Finished? <==> |s.read| < |s.written| || !s.writeopen)
            && (out.Finished? ==>
                && |got| == Min(n, |s.written| - |s.read|)
                && (got == [] <==> n == 0 || (|s.read| == |s.written| && !s.writeopen)) && t.writers == {})
            && (forall i :: 0 <= i < |got| ==> |s.read| + i < |s.written| && got[i] == s.written[|s.read| + i])
            && t.read == s.read + got && t.written == s.written && |t.queue| == |s.queue| - |got|
            && (!out.Finished? ==> got == [] && t.writers == s.writers && (out.Bailed? <==> killed))
            && t.readers == (if out.Asleep? then s.readers + {r} else s.readers)
            && t.readopen == s.readopen && t.writeopen == s.writeopen
  {
  }

  /** A turn of pipewrite finishes exactly if all it has left fits, and has then deposited all of it; otherwise
      it has deposited as much as makes the pipe full. */
  lemma {:induction false} WriteTurn(s: State, w: nat, rest: seq<Byte>, killed: bool)
    requires Inv(s)
    ensures var t, out := AfterWriter(s, w, rest, killed), WriterOutcome(s, rest, killed);
            && (out.Finished? ==> t.written == s.written + rest && |t.queue| == |s.queue| + |rest| <= PIPESIZE)
            && (!out.Finished? ==>
                && s.written <= t.written < s.written + rest && |t.queue| == PIPESIZE
                && (out.Bailed? <==> !s.readopen || killed))
            && t.read == s.read && t.readers == (if out.Bailed? then s.readers else {})
            && t.writers == (if out.Asleep? then s.writers + {w} else s.writers)
            && t.readopen == s.readopen && t.writeopen == s.writeopen
  {
    var k := Room(s, |rest|);
    assert rest[..|rest|] == rest;
    assert s.written + rest[..k] <= s.written + rest;
  }

  /** A writer that gives up because it was killed, leaving bytes and a reader unwoken. */
  ghost predicate AbandonsReader(s: State, a: Action) {
    a.Write? && a.killed && s.readopen && s.readers != {} && |a.rest| > PIPESIZE
  }

  /** The one way to leave a reader asleep beside a filled pipe: from a state without such a reader, an
      action leads to one exactly when a killed writer abandons it with more than PIPESIZE bytes to go. */
  lemma {:induction false} LostWakeup(s: State, a: Action)
    requires Inv(s) && ReadersJustified(s) && Enabled(s, a)
    ensures ReadersJustified(Do(s, a)) <==> !AbandonsReader(s, a)
  {
    if a.Write? && s.readers != {} {
      var k := Room(s, |a.rest|);
      assert |s.queue + a.rest[..k]| == k;
    }
  }

  // ------------------------------------------------------------ whole runs

  ghost function Step(s: State, a: Action): (r: State)
    requires Inv(s)
    ensures Inv(r)
  {
    if Enabled(s, a) then
      InvKept(s, a);
      Do(s, a)
    else s
  }

  ghost function Run(s: State, actions: seq<Action>): (r: State)
    requires Inv(s)
    ensures Inv(r)
  {
    if actions == [] then s else Step(Run(s, actions[..|actions|-1]), actions[|actions|-1])
  }

  ghost predicate NoneAbandoned(s: State, actions: seq<Action>)
    requires Inv(s)
  {
    forall i :: 0 <= i < |actions| ==> !AbandonsReader(Run(s, actions[..i]), actions[i])
  }

  function Open(): (s: State)
    ensures Inv(s)
  {
    State([], [], [], true, true, {}, {})
  }

  /** All the bytes that the reads of a run return, in order. */
  ghost function Received(s: State, actions: seq<Action>): seq<Byte>
    requires Inv(s)
  {
    if actions == [] then []
    else
      var front, a := actions[..|actions|-1], actions[|actions|-1];
      var r := Run(s, front);
      Received(s, front) + if a.Read? && Enabled(r, a) then ReaderGets(r, a.n, a.killed) else []
  }

  lemma {:induction false} ReadStep(s: State, a: Action)
    requires Inv(s)
    ensures Do(s, a).read == s.read + if a.Read? then ReaderGets(s, a.n, a.killed) else []
  {
    assert s.read + [] == s.read;
  }

  lemma {:induction false} ReceivedIsRead(s: State, actions: seq<Action>)
    requires Inv(s)
    ensures Run(s, actions).read == s.read + Received(s, actions)
  {
    if actions == [] {
      assert s.read + [] == s.read;
    } else {
      hide Inv, Enabled, Do;
      var front, a := actions[..|actions|-1], actions[|actions|-1];
      ReceivedIsRead(s, front);
      var r := Run(s, front);
      if Enabled(r, a) { ReadStep(r, a); }
    }
  }

  /** The bytes that a write turn deposits. */
  ghost function Given(s: State, actions: seq<Action>): seq<Byte>
    requires Inv(s)
  {
    if actions == [] then []
    else
      var front, a := actions[..|actions|-1], actions[|actions|-1];
      var r := Run(s, front);
      Given(s, front) + if a.Write? && Enabled(r, a) then a.rest[..Room(r, |a.rest|)] else []
  }

  lemma {:induction false} WriteStep(s: State, a: Action)
    requires Inv(s)
    ensures Do(s, a).written == s.written + if a.Write? then a.rest[..Room(s, |a.rest|)] else []
  {
    assert s.written + [] == s.written;
  }

  lemma {:induction false} GivenIsWritten(s: State, actions: seq<Action>)
    requires Inv(s)
    ensures Run(s, actions).written == s.written + Given(s, actions)
  {
    if actions == [] {
      assert s.written + [] == s.written;
    } else {
      hide Inv, Enabled, Do;
      var front, a := actions[..|actions|-1], actions[|actions|-1];
      GivenIsWritten(s, front);
      var r := Run(s, front);
      if Enabled(r, a) { WriteStep(r, a); }
    }
  }

  // ------------------------------------------------------------ whole messages

  /** The writes of the run are the turns of one pipewrite of msg: each goes on where the one before stopped. */
  ghost predicate Sends(s: State, actions: seq<Action>, msg: seq<Byte>)
    requires Inv(s)
  {
    forall i :: 0 <= i < |actions| && actions[i].Write? && Enabled(Run(s, actions[..i]), actions[i]) ==>
      var sent := Given(s, actions[..i]); |sent| <= |msg| && actions[i].rest == msg[|sent|..]
  }

  ghost predicate Completes(s: State, a: Action) {
    a.Write? && Enabled(s, a) && WriterOutcome(s, a.rest, a.killed) == Finished
  }

  /** A write of the run has finished. */
  ghost predicate Sent(s: State, actions: seq<Action>)
    requires Inv(s)
  {
    exists i :: 0 <= i < |actions| && Completes(Run(s, actions[..i]), actions[i])
  }

  lemma {:induction false} SendTurn(s: State, rest: seq<Byte>, msg: seq<Byte>, sent: seq<Byte>, killed: bool)
    requires Inv(s) && sent <= msg && rest == msg[|sent|..]
    ensures var more := sent + rest[..Room(s, |rest|)];
            more <= msg && (WriterOutcome(s, rest, killed) == Finished || sent == msg ==> more == msg)
  {
    assert sent + rest == msg;
  }

  lemma {:induction false} SendsFront(s: State, actions: seq<Action>, msg: seq<Byte>)
    requires Inv(s) && actions != [] && Sends(s, actions, msg)
    ensures var n := |actions| - 1;
            var r, sent := Run(s, actions[..n]), Given(s, actions[..n]);
            && Sends(s, actions[..n], msg)
            && (Sent(s, actions) ==> Sent(s, actions[..n]) || Completes(r, actions[n]))
            && (actions[n].Write? && Enabled(r, actions[n]) ==>
                |sent| <= |msg| && actions[n].rest == msg[|sent|..])
  {
    hide Inv, Run, Given, Enabled, Completes;
    var n := |actions| - 1;
    var front := actions[..n];
    assert forall i :: 0 <= i < n ==> front[..i] == actions[..i] && front[i] == actions[i];
    if Sent(s, actions) {
      var i :| 0 <= i < |actions| && Completes(Run(s, actions[..i]), actions[i]);
      if i < n { assert Completes(Run(s, front[..i]), front[i]); }
    }
  }

  /** However its turns interleave with readers, a pipewrite of msg deposits a prefix of msg, and all of it once
      one of its turns has finished. */
  lemma {:induction false} SendsInOrder(s: State, actions: seq<Action>, msg: seq<Byte>)
    requires Inv(s) && Sends(s, actions, msg)
    ensures Given(s, actions) <= msg && (Sent(s, actions) ==> Given(s, actions) == msg)
  {
    if actions != [] {
      hide Inv, Room, WriterOutcome, Run, Sends, Sent, Enabled;
      var n := |actions| - 1;
      var front, a := actions[..n], actions[n];
      SendsFront(s, actions, msg);
      SendsInOrder(s, front, msg);
      var r, sent := Run(s, front), Given(s, front);
      if a.Write? && Enabled(r, a) {
        SendTurn(r, a.rest, msg, sent, a.killed);
      } else {
        assert sent + [] == sent;
      }
    }
  }

  /** Reading until the pipe is empty delivers all that the writers gave: after any run, by any number of
      readers and writers, a read of at least PIPESIZE bytes that finishes leaves nothing behind. */
  lemma {:induction false} ReadDelivers(actions: seq<Action>, r: nat, n: nat, killed: bool)
    requires n >= PIPESIZE
    requires var s := Run(Open(), actions); s.readopen && r !in s.readers && (s.queue != [] || !s.writeopen)
    ensures Received(Open(), actions + [Read(r, n, killed)]) == Given(Open(), actions)
  {
    var s, a := Run(Open(), actions), Read(r, n, killed);
    assert (actions + [a])[..|actions|] == actions;
    ReceivedIsRead(Open(), actions + [a]);
    GivenIsWritten(Open(), actions);
    hide Received, Given;
    ReadTurn(s, r, n, killed);
    var t := AfterReader(s, r, n, killed);
    assert Run(Open(), actions + [a]) == t;
    assert t.read + t.queue == t.read;
    var got, given := Received(Open(), actions + [a]), Given(Open(), actions);
    assert got == [] + got && given == [] + given;
  }

  /** End to end: one process sends msg by pipewrite while any readers read. When its call has finished and a
      reader then empties the pipe, the bytes received are msg. */
  lemma {:induction false} MessageArrives(actions: seq<Action>, msg: seq<Byte>, r: nat, n: nat, killed: bool)
    requires n >= PIPESIZE && Sends(Open(), actions, msg) && Sent(Open(), actions)
    requires var s := Run(Open(), actions); s.readopen && r !in s.readers && (s.queue != [] || !s.writeopen)
    ensures Received(Open(), actions + [Read(r, n, killed)]) == msg
  {
    hide Inv, Sends, Sent, Received, Given, Run;
    SendsInOrder(Open(), actions, msg);
    ReadDelivers(actions, r, n, killed);
  }

  /** End of file: once the write end is closed nothing is deposited any more and no reader sleeps, so every
      read finishes; once the read end is closed nothing is taken and no writer sleeps. */
  lemma {:induction false} ClosedStays(s: State, actions: seq<Action>)
    requires Inv(s)
    ensures var r := Run(s, actions);
            && (!s.writeopen ==> !r.writeopen && r.written == s.written && r.readers == {})
            && (!s.readopen ==> !r.readopen && r.read == s.read && r.writers == {})
  {
    if actions != [] {
      ClosedStays(s, actions[..|actions|-1]);
    }
  }

  lemma {:induction false} JustifiedRun(s: State, actions: seq<Action>)
    requires Inv(s) && ReadersJustified(s)
    ensures NoneAbandoned(s, actions) ==> ReadersJustified(Run(s, actions))
  {
    if actions != [] && NoneAbandoned(s, actions) {
      hide Inv;
      var n := |actions| - 1;
      var front := actions[..n];
      forall i | 0 <= i < |front| ensures !AbandonsReader(Run(s, front[..i]), front[i]) {
        assert front[..i] == actions[..i];
      }
      JustifiedRun(s, front);
      if Enabled(Run(s, front), actions[n]) { LostWakeup(Run(s, front), actions[n]); }
    }
  }

  /** FIFO and no lost wakeup, for every interleaving of any number of readers and writers: what has been
      read is a prefix of what has been written, at most PIPESIZE bytes behind; a sleeping writer implies a
      full, read-open pipe; and, if no killed writer abandoned a sleeping reader, a sleeping reader
      implies an empty, write-open pipe. */
  lemma {:induction false} FifoNoLostWakeup(actions: seq<Action>)
    ensures var r := Run(Open(), actions);
            && Received(Open(), actions) <= r.written
            && |r.written| - |Received(Open(), actions)| <= PIPESIZE
            && (r.writers != {} ==> |r.queue| == PIPESIZE && r.readopen)
            && (NoneAbandoned(Open(), actions) ==> ReadersJustified(r))
  {
    ReceivedIsRead(Open(), actions);
    JustifiedRun(Open(), actions);
  }

  /** Such a run exists: a reader goes to sleep on the empty pipe, a killed writer with 513 bytes fills it
      and gives up, and the reader stays asleep beside 512 bytes. */
  lemma {:induction false} AbandonedReader(rest: seq<Byte>)
    requires |rest| == PIPESIZE + 1
    ensures var r := Run(Open(), [Read(1, 1, false), Write(2, rest, true)]);
            r.readers == {1} && r.queue == rest[..PIPESIZE]
  {
    var a1, a2 := Read(1, 1, false), Write(2, rest, true);
    assert [a1, a2][..1] == [a1] && [a1][..0] == [];
    assert Run(Open(), [a1]) == Open().(readers := {1});
  }

  // ------------------------------------------------------------ the ring

  lemma {:induction false} IndexWraps(n: nat)
    ensures n % WORD_RANGE % PIPESIZE == n % PIPESIZE
    ensures (n % WORD_RANGE + 1) % WORD_RANGE == (n + 1) % WORD_RANGE
  {
  }

  /** Distinct positions less than PIPESIZE apart share no ring slot. */
  lemma {:induction false} IndexApart(a: nat, b: nat)
    requires a <= b < a + PIPESIZE
    ensures forall j :: a <= j < b ==> j % PIPESIZE != b % PIPESIZE
  {
    forall j | a <= j < b ensures j % PIPESIZE != b % PIPESIZE {
      assert b == b / PIPESIZE * PIPESIZE + b % PIPESIZE && j == j / PIPESIZE * PIPESIZE + j % PIPESIZE;
    }
  }

  lemma {:induction false} FullTest(r: nat, w: nat)
    requires r <= w <= r + PIPESIZE
    ensures w % WORD_RANGE == (r % WORD_RANGE + PIPESIZE) % WORD_RANGE <==> w == r + PIPESIZE
  {
    assert r == r / WORD_RANGE * WORD_RANGE + r % WORD_RANGE && w == w / WORD_RANGE * WORD_RANGE + w % WORD_RANGE;
  }

  lemma {:induction false} EmptyTest(r: nat, w: nat)
    requires r <= w <= r + PIPESIZE
    ensures w % WORD_RANGE == r % WORD_RANGE <==> w == r
  {
    assert r == r / WORD_RANGE * WORD_RANGE + r % WORD_RANGE && w == w / WORD_RANGE * WORD_RANGE + w % WORD_RANGE;
  }

  lemma {:induction false} WrittenQueue(written: seq<Byte>, read: seq<Byte>, rest: seq<Byte>, k: nat)
    requires |read| <= |written| && k <= |rest|
    ensures (written + rest[..k])[|read|..] == written[|read|..] + rest[..k]
  {
  }

  /** pipe.c's struct pipe. The counters wrap at 2^32; since PIPESIZE divides 2^32 the ring does not notice. */
  class Ring {
    var data: array<Byte>
    var nread: Word
    var nwrite: Word
    var readopen: bool
    var writeopen: bool
    var readers: set<nat>
    var writers: set<nat>
    ghost var written: seq<Byte>
    ghost var read: seq<Byte>

    ghost predicate Valid()
      reads this, data
    {
      && data.Length == PIPESIZE
      && |read| <= |written| <= |read| + PIPESIZE
      && nread == |read| % WORD_RANGE && nwrite == |written| % WORD_RANGE
      && read <= written
      && forall j :: |read| <= j < |written| ==> data[j % PIPESIZE] == written[j]
    }

    ghost function Abs(): State
      requires Valid()
      reads this, data
    {
      State(written[|read|..], written, read, readopen, writeopen, readers, writers)
    }

    constructor ()
      ensures Valid() && Abs() == Open() && fresh(data)
    {
      data := new Byte[PIPESIZE](_ => 0);
      nread, nwrite := 0, 0;
      readopen, writeopen := true, true;
      readers, writers := {}, {};
      written, read := [], [];
    }

    method Deposit(b: Byte)
      requires Valid() && |written| < |read| + PIPESIZE
      modifies this`nwrite, this`written, data
      ensures Valid() && written == old(written) + [b]
    {
      IndexWraps(|written|);
      IndexApart(|read|, |written|);
      data[nwrite % PIPESIZE] := b;
      nwrite := (nwrite + 1) % WORD_RANGE;
      written := written + [b];
    }

    /** pipewrite from taking the lock to giving it up: k bytes of rest are deposited, all of them or as many as
        make the pipe full. */
    method WriterTurn(w: nat, rest: seq<Byte>, killed: bool) returns (k: nat, out: Outcome)
      requires Valid()
      modifies this, data
      ensures Valid() && data == old(data)
      ensures |old(Abs()).queue| <= PIPESIZE
      ensures Abs() == AfterWriter(old(Abs()), w, rest, killed)
      ensures k == Room(old(Abs()), |rest|) && out == WriterOutcome(old(Abs()), rest, killed)
      ensures k <= |rest| && written == old(written) + rest[..k] && read == old(read)
      ensures (out.Finished? <==> k == |rest|) && (!out.Finished? ==> |written| == |read| + PIPESIZE)
    {
      k := 0;
      while k < |rest|
        invariant 0 <= k <= |rest| && Valid() && data == old(data)
        invariant written == old(written) + rest[..k] && read == old(read)
        invariant readopen == old(readopen) && writeopen == old(writeopen) && readers == old(readers)
        invariant writers == old(writers)
      {
        FullTest(|read|, |written|);
        if nwrite == (nread + PIPESIZE) % WORD_RANGE {
          if !readopen || killed {
            out := Bailed;
          } else {
            readers := {};
            writers := writers + {w};
            out := Asleep;
          }
          WrittenQueue(old(written), old(read), rest, k);
          return;
        }
        Deposit(rest[k]);
        assert rest[..k + 1] == rest[..k] + [rest[k]];
        k := k + 1;
      }
      readers := {};
      out := Finished;
      WrittenQueue(old(written), old(read), rest, k);
    }

    method Take() returns (b: Byte)
      requires Valid() && |read| < |written|
      modifies this`nread, this`read
      ensures Valid() && b == written[|old(read)|] && read == old(read) + [b]
    {
      IndexWraps(|read|);
      b := data[nread % PIPESIZE];
      nread := (nread + 1) % WORD_RANGE;
      read := read + [b];
    }

    /** piperead from taking the lock to giving it up: it returns the next bytes written that were not yet read,
        n of them or all there are, and none before the pipe has bytes or its write end is closed. */
    method ReaderTurn(r: nat, n: nat, killed: bool) returns (bytes: seq<Byte>, out: Outcome)
      requires Valid()
      modifies this
      ensures Valid() && data == old(data)
      ensures Abs() == AfterReader(old(Abs()), r, n, killed)
      ensures bytes == ReaderGets(old(Abs()), n, killed) && out == ReaderOutcome(old(Abs()), killed)
      ensures out.Finished? <==> |old(read)| < |old(written)| || !old(writeopen)
      ensures |bytes| == if out.Finished? then Min(n, |old(written)| - |old(read)|) else 0
      ensures bytes == old(written)[|old(read)|..][..|bytes|] && read == old(read) + bytes && written == old(written)
    {
      EmptyTest(|read|, |written|);
      bytes := [];
      if nread == nwrite && writeopen {
        if killed {
          return [], Bailed;
        }
        readers := readers + {r};
        return [], Asleep;
      }
      ghost var q := written[|read|..];
      var i := 0;
      while i < n && nread != nwrite
        invariant 0 <= i <= n && i <= |q| && Valid() && data == old(data)
        invariant |bytes| == i && bytes == q[..i] && read == old(read) + bytes && written == old(written)
        invariant readopen == old(readopen) && writeopen == old(writeopen) && readers == old(readers)
        invariant writers == old(writers)
      {
        EmptyTest(|read|, |written|);
        var b := Take();
        bytes := bytes + [b];
        i := i + 1;
      }
      EmptyTest(|read|, |written|);
      writers := {};
      out := Finished;
    }

    /** pipeclose: closes one end and wakes who sleeps on the other; the pipe is freed when both are closed. */
    method Close(writable: bool) returns (freed: bool)
      requires Valid()
      modifies this
      ensures Valid() && data == old(data) && |old(Abs()).queue| <= PIPESIZE
      ensures Abs() == Do(old(Abs()), if writable then CloseWrite else CloseRead)
      ensures writeopen == (old(writeopen) && !writable) && readopen == (old(readopen) && writable)
      ensures readers == (if writable then {} else old(readers)) && writers == (if writable then old(writers) else {})
      ensures written == old(written) && read == old(read) && (freed <==> !readopen && !writeopen)
    {
      if writable {
        writeopen := false;
        readers := {};
      } else {
        readopen := false;
        writers := {};
      }
      freed := !readopen && !writeopen;
    }
  }
}
