/** fs.c over the logged, cached disk: block allocation, the block map, truncation, and file I/O. */
module Fs {
  import opened Params
  import opened Block
  import opened Bitmap
  import opened Inode
  import opened FileSpec
  import opened BlockMap
  import opened BlockCount
  import opened FileWriteSpec
  import opened Truncate
  import opened Mkfs

  const T_DEV := 3
  const NDEV := 10

  /** A count, the code's -1, a kernel panic, or whatever the driver of a device answers. */
  datatype IoResult = Done(n: nat) | Refused | Panicked | ShortWrite | ToDevice(major: nat)

  /** The bytes read, the code's -1, or whatever the driver of a device answers. */
  datatype ReadResult = Bytes(data: seq<Byte>) | Error | FromDevice(major: nat)

  /** A device inode whose major number has an entry. A negative major number is one of 0x8000 or more. */
  predicate HasDriver(devices: set<nat>, di: Dinode) {
    di.typ == T_DEV && di.major < NDEV && di.major in devices
  }

  class OpenFile {
    const inum: nat
    var off: Word

    constructor (inum: nat)
      ensures this.inum == inum && off == 0
    {
      this.inum := inum;
      off := 0;
    }
  }

  ghost predicate OtherFilesSame(d: Disk, ino: seq<Dinode>, d': Disk, ino': seq<Dinode>, i: nat) {
    && |ino'| == |ino|
    && forall m :: 0 <= m < |ino| && m != i ==>
         ino'[m] == ino[m] && (ino[m].size <= MAXBYTES ==> Contents(d', ino[m]) == Contents(d, ino[m]))
  }

  /** After the first w bytes of src have been written to file i at off. */
  ghost predicate FileWritten(d0: Disk, ino0: seq<Dinode>, d: Disk, ino: seq<Dinode>, i: nat, off: nat,
                              src: seq<Byte>, w: int) {
    && i < |ino0| == |ino| && 0 <= w <= |src|
    && ino0[i].size <= MAXBYTES && ino[i].size <= MAXBYTES
    && ino[i] == ino0[i].(addrs := ino[i].addrs, size := ino[i].size)
    && OtherFilesSame(d0, ino0, d, ino, i)
    && if w == 0 then Contents(d, ino[i]) == Contents(d0, ino0[i])
       else off <= ino0[i].size && Contents(d, ino[i]) == Splice(Contents(d0, ino0[i]), off, src[..w])
  }

  lemma {:induction false} WrittenBasics(d0: Disk, ino0: seq<Dinode>, d: Disk, ino: seq<Dinode>, i: nat, off: nat,
                                         src: seq<Byte>, w: nat)
    requires FileWritten(d0, ino0, d, ino, i, off, src, w)
    ensures i < |ino| == |ino0| && w <= |src| && ino[i].typ == ino0[i].typ
    ensures if w == 0 then ino[i].size == ino0[i].size
            else off <= ino0[i].size && ino[i].size == Max(ino0[i].size, off + w)
  {
    assert |Contents(d, ino[i])| == ino[i].size && |Contents(d0, ino0[i])| == ino0[i].size;
  }

  lemma {:induction false} FileUnwritten(sb: Super, d: Disk, ino: seq<Dinode>, owner: map<nat, Slot>, i: nat,
                                         off: nat, src: seq<Byte>)
    requires AtRest(sb, d, ino, owner) && i < |ino|
    ensures FileWritten(d, ino, d, ino, i, off, src, 0)
  {
    hide AtRest, Contents;
    AtRestBasics(sb, d, ino, owner);
  }

  /** One more chunk. */
  lemma {:induction false} WrittenMore(d0: Disk, ino0: seq<Dinode>, d: Disk, ino: seq<Dinode>, d': Disk,
                                       ino': seq<Dinode>,
                                       i: nat, off: nat, src: seq<Byte>, w: nat, n: nat)
    requires FileWritten(d0, ino0, d, ino, i, off, src, w) && 0 < n && w + n <= |src|
    requires |ino'| == |ino| && off + w <= ino[i].size && ino'[i].size <= MAXBYTES
    requires ino'[i] == ino[i].(addrs := ino'[i].addrs, size := ino'[i].size)
    requires Contents(d', ino'[i]) == Splice(Contents(d, ino[i]), off + w, src[w..w + n])
    requires OtherFilesSame(d, ino, d', ino', i)
    ensures FileWritten(d0, ino0, d', ino', i, off, src, w + n)
  {
    hide Splice;
    assert src[..w] + src[w..w + n] == src[..w + n];
    if w == 0 {
      assert src[..0] == [] && |Contents(d, ino[i])| == |Contents(d0, ino0[i])|;
    } else {
      SpliceSplice(Contents(d0, ino0[i]), off, src[..w], src[w..w + n]);
    }
  }

  // ------------------------------------------------------------ how far filewrite gets

  const CHUNK := (MAXOPBLOCKS - 1 - 1 - 2) / 2 * BSIZE

  /** The bytes that filewrite of n bytes at off gets to write: all if they fit the file, else the chunks that
      do; none past the end or on a device without a driver. */
  function Goal(di: Dinode, off: nat, n: nat): nat {
    if di.typ == T_DEV || off > di.size then 0
    else if off + n <= MAXBYTES then n
    else if off > MAXBYTES then 0
    else (MAXBYTES - off) / CHUNK * CHUNK
  }

  /** The blocks the file grows by when w bytes are written at off. */
  function GoalBlocks(di: Dinode, off: nat, w: nat): int {
    if w == 0 then 0 else NewBlocks(di.size, off + w)
  }

  /** filewrite's cursor is a whole number of chunks, or at the end. */
  predicate Stride(i: nat, n: nat) {
    i % CHUNK == 0 || i == n
  }

  lemma {:induction false} NothingNew(di: Dinode, off: nat)
    ensures GoalBlocks(di, off, 0) == 0 && forall n: nat :: Stride(0, n)
  {
  }

  /** The whole chunks that fit in `room` bytes. */
  lemma {:induction false} LastChunk(room: nat, i: nat)
    requires i % CHUNK == 0
    ensures i <= room ==> i <= room / CHUNK * CHUNK
    ensures i <= room < i + CHUNK ==> i == room / CHUNK * CHUNK
  {
    assert CHUNK == 1536;
    var q, k := i / 1536, room / 1536;
    assert i == q * 1536;
    assert k * 1536 <= room < k * 1536 + 1536;
  }

  lemma {:induction false} GoalTaken(size: nat, off: nat, n: nat, i: nat)
    requires i < n && Stride(i, n) && off <= size <= MAXBYTES && off + i + Min(n - i, CHUNK) <= MAXBYTES
    ensures off + n > MAXBYTES ==> i + Min(n - i, CHUNK) <= (MAXBYTES - off) / CHUNK * CHUNK
  {
    if off + n > MAXBYTES {
      assert CHUNK == 1536;
      LastChunk(MAXBYTES - off, i + CHUNK);
    }
  }

  lemma {:induction false} GoalReached(size: nat, off: nat, n: nat, i: nat)
    requires i < n && Stride(i, n) && off <= size <= MAXBYTES && off + i <= MAXBYTES < off + i + Min(n - i, CHUNK)
    ensures i == (MAXBYTES - off) / CHUNK * CHUNK
  {
    LastChunk(MAXBYTES - off, i);
  }

  /** The blocks of one more chunk add up, and none is beyond the goal's. */
  predicate ChunkBlocks(di: Dinode, off: nat, i: nat, n1: nat, goal: nat) {
    && GoalBlocks(di, off, i + n1) ==
         GoalBlocks(di, off, i) + NewBlocks(if i == 0 then di.size else Max(di.size, off + i), off + i + n1)
    && GoalBlocks(di, off, i + n1) <= GoalBlocks(di, off, goal)
  }

  lemma {:induction false} BlocksTaken(di: Dinode, off: nat, i: nat, n1: nat, goal: nat)
    requires off <= di.size && 0 < n1 && i + n1 <= goal
    ensures ChunkBlocks(di, off, i, n1, goal)
  {
    hide NewBlocks;
    NewBlocksMore(di.size, off + i, off + i + n1);
    NewBlocksMonotone(di.size, off + i + n1, off + goal);
  }

  lemma {:induction false} NextStride(i: nat, n: nat)
    requires i < n && Stride(i, n)
    ensures Stride(i + Min(n - i, CHUNK), n)
  {
  }

  /** At i the next chunk is within the goal exactly if writei takes it, and if not the goal is reached. */
  lemma {:induction false} GoalStep(di: Dinode, off: nat, n: nat, i: nat)
    requires i < n && Stride(i, n) && di.size <= MAXBYTES
    requires i > 0 ==> di.typ != T_DEV && off <= di.size && off + i <= MAXBYTES
    ensures var n1 := Min(n - i, CHUNK);
            var taken := di.typ != T_DEV && off <= di.size && off + i + n1 <= MAXBYTES;
            && Stride(i + n1, n)
            && (taken ==> ChunkBlocks(di, off, i, n1, Goal(di, off, n)))
            && (!taken ==> i == Goal(di, off, n) < n)
  {
    hide NewBlocks, Stride, GoalBlocks;
    var n1 := Min(n - i, CHUNK);
    NextStride(i, n);
    if di.typ != T_DEV && off <= di.size {
      if off + i + n1 <= MAXBYTES {
        GoalTaken(di.size, off, n, i);
        BlocksTaken(di, off, i, n1, Goal(di, off, n));
      } else {
        GoalReached(di.size, off, n, i);
      }
    }
  }

  lemma {:induction false} GoalEnd(di: Dinode, off: nat, n: nat)
    requires di.size <= MAXBYTES && (n > 0 ==> di.typ != T_DEV && off <= di.size && off + n <= MAXBYTES)
    ensures Goal(di, off, n) == n
  {
  }

  /** The first chunk from i on whose answer is not its size, or the end. */
  function DeviceStop(answer: (nat, nat) -> int, n: nat, i: nat): (e: nat)
    requires i <= n
    ensures i <= e <= n
    decreases n - i
  {
    if i == n then n
    else
      var n1 := Min(n - i, CHUNK);
      if answer(i, n1) == n1 then DeviceStop(answer, n, i + n1) else i
  }

  /** A file offset after k more bytes, in 32-bit arithmetic. */
  function Moved(off: Word, k: nat): Word {
    (off + k) % WORD_RANGE
  }

  /** What filewrite of n bytes does on a device: it goes on as long as the driver takes whole chunks. An
      error is passed on, and a short answer panics; the offset counts every byte reported as written. */
  ghost predicate DeviceWritten(answer: (nat, nat) -> int, n: nat, off: Word, off': Word, r: IoResult) {
    var e := DeviceStop(answer, n, 0);
    if e == n then r == Done(n) && off' == Moved(off, n)
    else
      var a := answer(e, Min(n - e, CHUNK));
      r == (if a < 0 then Refused else ShortWrite) && off' == Moved(off, e + Max(a, 0))
  }

  lemma {:induction false} MovedOn(off: Word, i: nat, a: nat)
    ensures Moved(off, 0) == off && Moved(Moved(off, i), a) == Moved(off, i + a)
  {
  }

  /** No transaction since the first n has logged more than MAXOPBLOCKS blocks. */
  ghost predicate Budgeted(txns: seq<set<nat>>, n: nat) {
    |txns| >= n && forall k :: n <= k < |txns| ==> |txns[k]| <= MAXOPBLOCKS
  }

  lemma {:induction false} BudgetedNone(txns: seq<set<nat>>)
    ensures Budgeted(txns, |txns|)
  {
  }

  lemma {:induction false} BudgetedNext(txns: seq<set<nat>>, n: nat, t: set<nat>)
    requires Budgeted(txns, n) && |t| <= MAXOPBLOCKS
    ensures Budgeted(txns + [t], n)
  {
  }

  class FileSystem {
    const sb: Super
    const readers: set<nat>          // the devices with a read function in devsw
    const writers: set<nat>          // and those with a write function
    var disk: Disk                   // as seen through the buffer cache
    var ino: seq<Dinode>             // the in-memory inodes
    ghost var owner: map<nat, Slot>
    ghost var logged: set<nat>       // blocks logged by the current operation
    ghost var txns: seq<set<nat>>    // blocks logged by each finished operation of filewrite

    /** An image as mkfs makes it, without files. */
    constructor (sb: Super, readers: set<nat>, writers: set<nat>)
      requires sb.Valid()
      ensures this.sb == sb && this.readers == readers && this.writers == writers
      ensures AtRest(this.sb, disk, ino, owner) && owner == map[] && logged == {} && txns == []
    {
      this.sb, this.readers, this.writers := sb, readers, writers;
      disk, ino, owner := Blank(sb), FreeInodes(sb), map[];
      logged, txns := {}, [];
      BlankAtRest(sb);
    }

    method LogWrite(b: nat, d: Data)
      requires b < |disk|
      modifies this`disk, this`logged
      ensures disk == old(disk)[b := d] && logged == old(logged) + {b}
    {
      disk := disk[b := d];
      logged := logged + {b};
    }

    method Bzero(b: nat)
      requires b < |disk|
      modifies this`disk, this`logged
      ensures disk == old(disk)[b := Zeroes()] && logged == old(logged) + {b}
    {
      LogWrite(b, Zeroes());
    }

    /** balloc once it has found the clear bit bi of the bitmap block for blocks b and up. */
    method Claim(b: nat, bi: nat)
      requires sb.Valid() && |disk| == sb.size && b % BPB == 0 && bi < BPB
      requires sb.DataStart() <= b + bi < sb.size && !InUse(sb, disk, b + bi)
      modifies this`disk, this`logged
      ensures Allocated(sb, old(disk), disk, b + bi) && logged == old(logged) + {sb.BBlock(b + bi), b + bi}
    {
      hide InUse, Mark, Bit, ByteWithBit, Allocated;
      Cursor(sb, disk, b, bi);
      AllocateOne(sb, disk, b + bi);
      var bp := disk[sb.BBlock(b)];
      LogWrite(sb.BBlock(b), bp[bi / 8 := ByteWithBit(bp[bi / 8], bi % 8, true)]);
      Bzero(b + bi);
    }

    /** balloc's inner loop: the first clear bit of the bitmap block for blocks b and up. */
    method FindClear(b: nat) returns (bi: nat)
      requires sb.Valid() && |disk| == sb.size && b % BPB == 0 && b < sb.size && UsedBelow(sb, disk, b)
      ensures bi <= BPB && b + bi <= sb.size && UsedBelow(sb, disk, b + bi)
      ensures bi < BPB && b + bi < sb.size ==> !InUse(sb, disk, b + bi)
    {
      hide InUse, Mark, Bit, ByteWithBit, UsedBelow, Full;
      BitmapPlace(sb, b);
      var bp := disk[sb.BBlock(b)];
      bi := 0;
      while bi < BPB && b + bi < sb.size
        invariant 0 <= bi <= BPB && b + bi <= sb.size && UsedBelow(sb, disk, b + bi)
      {
        Cursor(sb, disk, b, bi);
        if !Bit(bp[bi / 8], bi % 8) {
          return;
        }
        UsedNext(sb, disk, b + bi);
        bi := bi + 1;
      }
    }

    /** The first free block, marked and zeroed; 0 stands for the panic when there is none. */
    method Balloc() returns (r: Word)
      requires Inv(sb, disk, ino, owner)
      modifies this`disk, this`logged
      ensures r == 0 <==> Free(sb, owner) == 0
      ensures r == 0 ==> disk == old(disk) && Full(sb, disk)
      ensures r != 0 ==> Allocated(sb, old(disk), disk, r) && logged == old(logged) + {sb.BBlock(r), r}
      ensures UsedBelow(sb, old(disk), r)
    {
      hide Inv, InUse, Allocated, UsedBelow, Full, Free;
      InvRange(sb, disk, ino, owner);
      FullIff(sb, disk, ino, owner);
      UsedNone(sb, disk);
      var b := 0;
      while b < sb.size
        invariant b % BPB == 0 && disk == old(disk) && logged == old(logged)
        invariant UsedBelow(sb, disk, Min(b, sb.size))
      {
        var bi := FindClear(b);
        if bi < BPB && b + bi < sb.size {
          FreeIsData(sb, disk, ino, owner, b + bi);
          NotFull(sb, disk, b + bi);
          Claim(b, bi);
          return b + bi;
        }
        b := b + BPB;
      }
      UsedNext(sb, disk, sb.size);
      return 0;
    }

    /** Clear the bit of a block in use; false stands for the panic when the block is free already. */
    method Bfree(b: nat) returns (ok: bool)
      requires sb.Valid() && |disk| == sb.size && b < sb.size
      modifies this`disk, this`logged
      ensures ok <==> InUse(sb, old(disk), b)
      ensures ok ==> Freed(sb, old(disk), disk, b) && logged == old(logged) + {sb.BBlock(b)}
      ensures !ok ==> disk == old(disk) && logged == old(logged)
    {
      hide Bit, ByteWithBit;
      BitmapPlace(sb, b);
      FreeOne(sb, disk, b);
      var bp, bi := disk[sb.BBlock(b)], b % BPB;
      if !Bit(bp[bi / 8], bi % 8) {
        return false;
      }
      ok := true;
      LogWrite(sb.BBlock(b), bp[bi / 8 := ByteWithBit(bp[bi / 8], bi % 8, false)]);
    }

    /** `ip->addrs[j] = balloc()` for an empty address j of file i; 0 stands for the panic. */
    method BallocAddr(i: nat, j: nat) returns (r: Word)
      requires Inv(sb, disk, ino, owner) && i < |ino| && j <= NDIRECT && ino[i].addrs[j] == 0
      modifies this`disk, this`ino, this`owner, this`logged
      ensures r != 0 ==>
                var k := if j == NDIRECT then MAXFILE else j;
                && Inv(sb, disk, ino, owner)
                && ino == SetAddr(old(ino), i, j, r)
                && r !in old(owner)
                && (forall l :: 0 <= l <= MAXFILE ==>
                    Ref(disk, ino[i], l) == if l == k then r else Ref(old(disk), old(ino)[i], l))
                && Untouched(sb, old(disk), old(ino), old(owner), disk, owner, i)
                && logged == old(logged) + {sb.BBlock(r), r} && |owner| == |old(owner)| + 1
      ensures r == 0 <==> Free(sb, old(owner)) == 0
      ensures r == 0 ==> Full(sb, disk)
    {
      hide InUse, Ref, Owned, BitmapIs, Untouched, Allocated, Full, Free;
      r := Balloc();
      if r != 0 {
        AttachAddr(sb, old(disk), disk, r, ino, owner, i, j);
        AddrUntouched(sb, old(disk), disk, r, ino, owner, i, if j == NDIRECT then MAXFILE else j);
        ino := SetAddr(ino, i, j, r);
        owner := owner[r := Slot(i, if j == NDIRECT then MAXFILE else j)];
      }
    }

    /** bmap beyond the direct blocks, once the indirect block is there. */
    method MapIndirect(i: nat, bn: nat) returns (addr: Word)
      requires Inv(sb, disk, ino, owner) && i < |ino| && NDIRECT <= bn < MAXFILE && ino[i].addrs[NDIRECT] != 0
      modifies this`disk, this`owner, this`logged
      ensures addr != 0 ==>
                && Inv(sb, disk, ino, owner)
                && RefSet(old(disk), ino[i], disk, ino[i], bn, addr)
                && Untouched(sb, old(disk), ino, old(owner), disk, owner, i)
      ensures var was := Ref(old(disk), ino[i], bn);
              if was != 0 then addr == was && disk == old(disk) && owner == old(owner) && logged == old(logged)
              else addr !in old(owner)
                   && (addr != 0 ==> logged == old(logged) + {sb.BBlock(addr), addr, ino[i].addrs[NDIRECT]})
      ensures addr == 0 <==> Free(sb, old(owner)) < MapCost(old(disk), ino[i], bn)
      ensures addr != 0 ==> |owner| == |old(owner)| + MapCost(old(disk), ino[i], bn)
      ensures addr == 0 ==> Full(sb, disk)
    {
      hide Inv, Ref, Untouched, Allocated, GetWord, PutWord, Full, MapCost;
      MapCosts(disk, ino[i], bn);
      FullIff(sb, disk, ino, owner);
      var x := ino[i].addrs[NDIRECT];
      IndirectBlock(sb, disk, ino, owner, i, bn);
      UntouchedSelf(sb, disk, ino, owner, i);
      addr := GetWord(disk[x], bn - NDIRECT);
      if addr == 0 {
        addr := Balloc();
        if addr != 0 {
          AttachEntry(sb, old(disk), disk, addr, ino, owner, i, bn);
          EntryUntouched(sb, old(disk), disk, addr, ino, owner, i, bn);
          LogWrite(x, PutWord(disk[x], bn - NDIRECT, addr));
          owner := owner[addr := Slot(i, bn)];
        }
      }
    }

    /** bmap beyond the direct blocks of a file that has no indirect block yet. */
    method MapDeep(i: nat, bn: nat) returns (addr: Word)
      requires Inv(sb, disk, ino, owner) && i < |ino| && NDIRECT <= bn < MAXFILE && ino[i].addrs[NDIRECT] == 0
      modifies this`disk, this`ino, this`owner, this`logged
      ensures addr != 0 ==>
                && Inv(sb, disk, ino, owner) && |ino| == |old(ino)|
                && ino == old(ino)[i := ino[i]]
                && RefSet(old(disk), old(ino)[i], disk, ino[i], bn, addr)
                && Untouched(sb, old(disk), old(ino), old(owner), disk, owner, i)
                && logged <= old(logged) + MapLog(sb, old(ino)[i], ino[i], bn, addr)
      ensures addr == 0 <==> Free(sb, old(owner)) < MapCost(old(disk), old(ino)[i], bn)
      ensures addr != 0 ==> |owner| == |old(owner)| + MapCost(old(disk), old(ino)[i], bn)
      ensures addr !in old(owner) && (addr == 0 ==> Full(sb, disk))
    {
      hide InUse, Ref, Owned, BitmapIs, Untouched, Full, MapCost;
      FullIff(sb, disk, ino, owner);
      MapCosts(disk, ino[i], bn);
      RefCases(disk, ino[i], bn);
      InvRange(sb, disk, ino, owner);
      var x := BallocAddr(i, NDIRECT);
      if x == 0 {
        return 0;
      }
      label L:
      MapCosts(disk, ino[i], bn);
      InvRange(sb, disk, ino, owner);
      RefCases(disk, ino[i], bn);
      addr := MapIndirect(i, bn);
      if addr != 0 {
        InvRange(sb, disk, ino, owner);
        UntouchedTrans(sb, old(disk), old(ino), old(owner), old@L(disk), ino, old@L(owner), disk, owner, i);
        UntouchedOwner(sb, old(disk), old(ino), old(owner), old@L(disk), old@L(owner), i);
      }
    }

    /** The block of file i at index bn, allocated if there was none; 0 stands for a panic: balloc's when the
        disk is full, or bmap's own when bn is out of range. */
    method Bmap(i: nat, bn: nat) returns (addr: Word)
      requires Inv(sb, disk, ino, owner) && i < |ino|
      modifies this`disk, this`ino, this`owner, this`logged
      ensures addr != 0 ==>
                && bn < MAXFILE && Inv(sb, disk, ino, owner) && |ino| == |old(ino)|
                && ino == old(ino)[i := ino[i]]
                && RefSet(old(disk), old(ino)[i], disk, ino[i], bn, addr)
                && Untouched(sb, old(disk), old(ino), old(owner), disk, owner, i)
                && logged <= old(logged) + MapLog(sb, old(ino)[i], ino[i], bn, addr)
      ensures bn < MAXFILE ==>
                var was := Ref(old(disk), old(ino)[i], bn);
                if was == 0 then addr !in old(owner)
                else addr == was && disk == old(disk) && ino == old(ino) && owner == old(owner) && logged == old(logged)
      ensures bn < MAXFILE ==>
                && (addr == 0 <==> Free(sb, old(owner)) < MapCost(old(disk), old(ino)[i], bn))
                && (addr != 0 ==> |owner| == |old(owner)| + MapCost(old(disk), old(ino)[i], bn))
      ensures addr == 0 && bn < MAXFILE ==> Full(sb, disk)
      ensures bn >= MAXFILE ==>
                addr == 0 && disk == old(disk) && ino == old(ino) && owner == old(owner) && logged == old(logged)
    {
      hide InUse, Ref, Owned, BitmapIs, Untouched, Full, MapCost;
      if bn >= MAXFILE {
        return 0;
      }
      MapCosts(disk, ino[i], bn);
      FullIff(sb, disk, ino, owner);
      RefCases(disk, ino[i], bn);
      InvRange(sb, disk, ino, owner);
      if bn < NDIRECT {
        addr := ino[i].addrs[bn];
        if addr == 0 {
          addr := BallocAddr(i, bn);
        } else {
          UntouchedSelf(sb, disk, ino, owner, i);
        }
      } else if ino[i].addrs[NDIRECT] != 0 {
        addr := MapIndirect(i, bn);
      } else {
        addr := MapDeep(i, bn);
      }
    }

    /** Copy the in-memory inode to its slot on disk. */
    method Iupdate(i: nat)
      requires sb.Valid() && |disk| == sb.size && i < sb.ninodes == |ino|
      modifies this`disk, this`logged
      ensures sb.IBlock(i) < sb.size
      ensures disk == old(disk)[sb.IBlock(i) := PutDinode(old(disk)[sb.IBlock(i)], i % IPB, ino[i])]
      ensures logged == old(logged) + {sb.IBlock(i)}
    {
      InodePlace(sb, i);
      LogWrite(sb.IBlock(i), PutDinode(disk[sb.IBlock(i)], i % IPB, ino[i]));
    }

    /** One turn of writei's loop, which advances by m bytes; 0 stands for balloc's panic. */
    method WriteBlock(i: nat, src: seq<Byte>, off: nat, tot: nat, ghost d0: Disk, ghost ino0: seq<Dinode>,
                      ghost owner0: map<nat, Slot>,
                      ghost log0: set<nat>, ghost data: set<nat>, ghost maps: set<nat>)
      returns (m: nat, ghost data': set<nat>, ghost maps': set<nat>)
      requires tot < |src| && off + |src| <= MAXBYTES && (tot == 0 || (off + tot) % BSIZE == 0)
      requires Wrote(sb, d0, ino0, owner0, disk, ino, owner, i, off, src[..tot])
      requires LogIs(log0, logged, ino0[i], ino[i], data, maps, off, off + tot)
      requires Free(sb, owner) == Free(sb, owner0) - NewBlocks(ino0[i].size, off + tot)
      modifies this`disk, this`ino, this`owner, this`logged
      ensures m == 0 ==> Free(sb, owner0) < NewBlocks(ino0[i].size, off + |src|)
      ensures m > 0 ==> Free(sb, owner) == Free(sb, owner0) - NewBlocks(ino0[i].size, off + tot + m)
      ensures m > 0 ==>
                && tot + m <= |src| && |ino| == |ino0|
                && (tot + m == |src| || (off + tot + m) % BSIZE == 0)
                && Wrote(sb, d0, ino0, owner0, disk, ino, owner, i, off, src[..tot + m])
                && LogIs(log0, logged, ino0[i], ino[i], data', maps', off, off + tot + m)
      ensures m == 0 ==> Full(sb, disk)
    {
      hide Full, InUse, Ref, Owned, BitmapIs, Untouched, RefSet, Extent, BytesAre, OthersKept, ByteAt, Patch, Blocks;
      hide LogIs, MapLog, MapCost, NewBlocks;
      data', maps' := data, maps;
      ghost var d, io, ow, lg := disk, ino, owner, logged;
      var cur := off + tot;
      m := Min(|src| - tot, BSIZE - cur % BSIZE);
      BlockArithmetic(ino[i].size, cur, m);
      CostAtEnd(disk, ino[i], ino0[i].size, cur, m);
      NewBlocksMonotone(ino0[i].size, cur + m, off + |src|);
      var addr := Bmap(i, cur / BSIZE);
      if addr == 0 {
        m := 0;
        return;
      }
      ghost var e := disk;
      WroteStep(sb, d0, ino0, owner0, d, io, ow, disk, ino, owner, i, off, src[..tot], src[tot..tot + m], addr);
      LogWrite(addr, Patch(disk[addr], cur % BSIZE, src[tot..tot + m]));
      assert src[..tot] + src[tot..tot + m] == src[..tot + m];
      MapLogHas(sb, io[i], ino[i], cur / BSIZE, addr);
      data', maps' := LogStep(sb, log0, lg, logged, ino0[i], d, io[i], e, ino[i], off, cur, m, addr, data, maps);
      if tot + m < |src| { NextCursor(cur, m); }
    }

    /** writei: refused exactly when the range starts past the end, wraps, or exceeds the largest file;
        otherwise the file is spliced, no other file changes, the inode is written through, and at most
        ten blocks are logged for up to three blocks of data. It panics exactly when fewer blocks are free
        than the file grows by. */
    method Writei(i: nat, src: seq<Byte>, off: Word) returns (r: IoResult)
      requires AtRest(sb, disk, ino, owner) && i < |ino| && |src| < WORD_RANGE
      modifies this`disk, this`ino, this`owner, this`logged
      ensures r.ToDevice? <==> HasDriver(writers, old(ino)[i])
      ensures r != ShortWrite
      ensures r == Refused <==>
                if old(ino)[i].typ == T_DEV then !HasDriver(writers, old(ino)[i])
                else off > old(ino)[i].size || off + |src| >= WORD_RANGE || off + |src| > MAXBYTES
      ensures r == Refused || r.ToDevice? ==>
                disk == old(disk) && ino == old(ino) && owner == old(owner) && logged == old(logged)
      ensures r.Done? ==>
                && r.n == |src|
                && AtRest(sb, disk, ino, owner) && |ino| == |old(ino)|
                && ino[i] == old(ino)[i].(addrs := ino[i].addrs, size := Max(old(ino)[i].size, off + |src|))
                && old(ino)[i].size <= MAXBYTES
                && Contents(disk, ino[i]) == Splice(Contents(old(disk), old(ino)[i]), off, src)
                && OtherFilesSame(old(disk), old(ino), disk, ino, i)
                && |logged - old(logged)| <= Touched(off, off + |src|) + Grown(old(ino)[i].size, off + |src|) + 3
                && Free(sb, owner) == Free(sb, old(owner)) - NewBlocks(old(ino)[i].size, off + |src|)
      ensures r == Panicked <==> !r.ToDevice? && r != Refused
                                 && Free(sb, old(owner)) < NewBlocks(old(ino)[i].size, off + |src|)
      ensures r == Panicked ==> Full(sb, disk)
    {
      hide Full, AtRest, Wrote, LogIs, Touched, Grown, Contents, Splice, PutDinode, NewBlocks, FreeBlocks, Free;
      AtRestBasics(sb, disk, ino, owner);
      if ino[i].typ == T_DEV {
        if ino[i].major >= NDEV || ino[i].major !in writers {
          return Refused;
        }
        return ToDevice(ino[i].major);
      }
      if off > ino[i].size || off + |src| >= WORD_RANGE {
        return Refused;
      }
      if off + |src| > MAXBYTES {
        return Refused;
      }
      StartWrite(sb, disk, ino, owner, i, off);
      ghost var data, maps := {}, {};
      LogStart(logged, ino[i], off);
      NewBlocksMonotone(ino[i].size, off, ino[i].size);
      var tot := 0;
      while tot < |src|
        invariant 0 <= tot <= |src| && |ino| == |old(ino)|
        invariant tot == |src| || tot == 0 || (off + tot) % BSIZE == 0
        invariant Wrote(sb, old(disk), old(ino), old(owner), disk, ino, owner, i, off, src[..tot])
        invariant LogIs(old(logged), logged, old(ino)[i], ino[i], data, maps, off, off + tot)
        invariant Free(sb, owner) == Free(sb, old(owner)) - NewBlocks(old(ino)[i].size, off + tot)
      {
        var m;
        m, data, maps := WriteBlock(i, src, off, tot, old(disk), old(ino), old(owner), old(logged), data, maps);
        if m == 0 {
          return Panicked;
        }
        tot := tot + m;
      }
      assert src[..tot] == src;
      ghost var d, io := disk, ino;
      LogTotal(old(logged), logged, old(ino)[i], ino[i], data, maps, off, off + tot, sb.IBlock(i));
      WroteBasics(sb, old(disk), old(ino), old(owner), disk, ino, owner, i, off, src);
      if |src| > 0 && off + tot > ino[i].size {
        ino := ino[i := ino[i].(size := off + tot)];
        Iupdate(i);
      }
      Settled(sb, old(disk), old(ino), old(owner), d, io, owner, i, off, src, disk, ino);
      AtRestFree(sb, disk, ino, owner);
      r := Done(|src|);
    }

    /** readi: the requested slice, clipped to the file; nothing changes, although bmap could allocate. */
    method Readi(i: nat, off: Word, n: Word) returns (r: ReadResult)
      requires AtRest(sb, disk, ino, owner) && i < |ino|
      modifies this`disk, this`ino, this`owner, this`logged
      ensures disk == old(disk) && ino == old(ino) && owner == old(owner) && logged == old(logged)
      ensures ino[i].size <= MAXBYTES
      ensures r.FromDevice? <==> HasDriver(readers, ino[i])
      ensures r == Error <==> if ino[i].typ == T_DEV then !HasDriver(readers, ino[i])
                              else off > ino[i].size || off + n >= WORD_RANGE
      ensures r.Bytes? ==> r.data == Contents(disk, ino[i])[off..Min(off + n, ino[i].size)]
    {
      hide InUse, Ref, Owned, BitmapIs, Extent, DinodeAt, Contents, Untouched, RefSet, MapLog;
      AtRestBasics(sb, disk, ino, owner);
      if ino[i].typ == T_DEV {
        if ino[i].major >= NDEV || ino[i].major !in readers {
          return Error;
        }
        return FromDevice(ino[i].major);
      }
      if off > ino[i].size || off + n >= WORD_RANGE {
        return Error;
      }
      var len := n;
      if off + n > ino[i].size {
        len := ino[i].size - off;
      }
      var tot, dst := 0, [];
      while tot < len
        invariant 0 <= tot <= len
        invariant disk == old(disk) && ino == old(ino) && owner == old(owner) && logged == old(logged)
        invariant dst == Contents(disk, ino[i])[off..off + tot]
      {
        var cur := off + tot;
        var m := Min(len - tot, BSIZE - cur % BSIZE);
        ReadSlice(sb, disk, ino, owner, i, cur, m);
        var addr := Bmap(i, cur / BSIZE);
        dst := dst + disk[addr][cur % BSIZE .. cur % BSIZE + m];
        tot := tot + m;
      }
      r := Bytes(dst);
    }

    /** itrunc's first loop. */
    method FreeDirect(i: nat)
      requires Inv(sb, disk, ino, owner) && i < |ino|
      modifies this`disk, this`ino, this`logged
      ensures Truncating(sb, old(disk), old(ino), owner, disk, i, NDIRECT)
      ensures ino == Cleared(old(ino), i, NDIRECT)
      ensures logged == old(logged) + FreedMaps(sb, old(disk), old(ino)[i], NDIRECT)
    {
      hide Truncating, Inv, InUse, Freed, FreedMaps;
      FreedMapsNext(sb, disk, ino[i], 0);
      TruncateStart(sb, disk, ino, owner, i);
      ClearedNext(ino, i, 0);
      var j := 0;
      while j < NDIRECT
        invariant 0 <= j <= NDIRECT
        invariant Truncating(sb, old(disk), old(ino), owner, disk, i, j)
        invariant ino == Cleared(old(ino), i, j)
        invariant logged == old(logged) + FreedMaps(sb, old(disk), old(ino)[i], j)
      {
        FreedMapsNext(sb, old(disk), old(ino)[i], j);
        ghost var d := disk;
        assert ino[i].addrs[j] == Ref(old(disk), old(ino)[i], j);
        if ino[i].addrs[j] != 0 {
          TruncateUsed(sb, old(disk), old(ino), owner, disk, i, j);
          var ok := Bfree(ino[i].addrs[j]);
          TruncateFree(sb, old(disk), old(ino), owner, d, disk, i, j);
          ino := SetAddr(ino, i, j, 0);
        } else {
          TruncateSkip(sb, old(disk), old(ino), owner, disk, i, j);
        }
        ClearedNext(old(ino), i, j);
        j := j + 1;
      }
    }

    /** The rest of itrunc's freeing: the indirect entries, then the indirect block. */
    method FreeIndirect(i: nat, ghost d0: Disk, ghost ino0: seq<Dinode>, ghost log0: set<nat>)
      requires Truncating(sb, d0, ino0, owner, disk, i, NDIRECT) && i < |ino0|
      requires ino == Cleared(ino0, i, NDIRECT) && logged == log0 + FreedMaps(sb, d0, ino0[i], NDIRECT)
      modifies this`disk, this`ino, this`logged
      ensures Truncating(sb, d0, ino0, owner, disk, i, MAXFILE + 1)
      ensures ino == Cleared(ino0, i, NDIRECT + 1)
      ensures logged == log0 + FreedMaps(sb, d0, ino0[i], MAXFILE + 1)
    {
      hide Truncating, Inv, InUse, Freed, GetWord, FreedMaps;
      ClearedNext(ino0, i, NDIRECT);
      var x := ino[i].addrs[NDIRECT];
      IndirectEntries(sb, d0, ino0, owner, disk, i);
      if x == 0 {
        TruncateSkipTo(sb, d0, ino0, owner, disk, i, NDIRECT, MAXFILE + 1);
        FreedMapsSkip(sb, d0, ino0[i], NDIRECT, MAXFILE + 1);
        return;
      }
      var a := disk[x];
      var j := 0;
      while j < NINDIRECT
        invariant 0 <= j <= NINDIRECT && ino == old(ino)
        invariant Truncating(sb, d0, ino0, owner, disk, i, NDIRECT + j)
        invariant logged == log0 + FreedMaps(sb, d0, ino0[i], NDIRECT + j)
      {
        FreedMapsNext(sb, d0, ino0[i], NDIRECT + j);
        ghost var d := disk;
        if GetWord(a, j) != 0 {
          TruncateUsed(sb, d0, ino0, owner, disk, i, NDIRECT + j);
          var ok := Bfree(GetWord(a, j));
          TruncateFree(sb, d0, ino0, owner, d, disk, i, NDIRECT + j);
        } else {
          TruncateSkip(sb, d0, ino0, owner, disk, i, NDIRECT + j);
        }
        j := j + 1;
      }
      ghost var d := disk;
      FreedMapsNext(sb, d0, ino0[i], MAXFILE);
      TruncateUsed(sb, d0, ino0, owner, disk, i, MAXFILE);
      var ok := Bfree(x);
      TruncateFree(sb, d0, ino0, owner, d, disk, i, MAXFILE);
      ino := SetAddr(ino, i, NDIRECT, 0);
    }

    /** itrunc: the file is empty, exactly its blocks are free again, every other file is as before. It logs
        the bitmap blocks of the file's blocks and its inode's block. */
    method Itrunc(i: nat)
      requires AtRest(sb, disk, ino, owner) && i < |ino|
      modifies this`disk, this`ino, this`owner, this`logged
      ensures AtRest(sb, disk, ino, owner) && ino == Emptied(old(ino), i)
      ensures OtherFilesSame(old(disk), old(ino), disk, ino, i)
      ensures forall b :: 0 <= b < sb.size ==>
                (InUse(sb, disk, b) <==> InUse(sb, old(disk), b) && !(b in old(owner) && old(owner)[b].inum == i))
      ensures logged == old(logged) + FreedMaps(sb, old(disk), old(ino)[i], MAXFILE + 1) + {sb.IBlock(i)}
    {
      hide AtRest, Truncating, Ref, InUse, Without, Cleared, Freed, Contents, PutDinode, FreedMaps;
      AtRestInv(sb, disk, ino, owner);
      TruncateStart(sb, disk, ino, owner, i);
      FreeDirect(i);
      FreeIndirect(i, old(disk), old(ino), old(logged));
      TruncatingBasics(sb, old(disk), old(ino), old(owner), disk, i, MAXFILE + 1);
      EmptiedIsCleared(old(ino), i);
      ino := ino[i := ino[i].(size := 0)];
      owner := Without(old(owner), i, MAXFILE + 1);
      ghost var d := disk;
      Iupdate(i);
      TruncateSettles(sb, old(disk), old(ino), old(owner), d, i, disk);
      AtRestInv(sb, disk, ino, owner);
      forall b | 0 <= b < sb.size
        ensures InUse(sb, disk, b) <==> InUse(sb, old(disk), b) && !(b in old(owner) && old(owner)[b].inum == i)
      {
        FreedExactly(sb, old(disk), old(ino), old(owner), disk, ino, i, b);
      }
    }

    /** filewrite's loop on a file: chunks small enough for the log, each its own transaction. */
    method WriteChunks(f: OpenFile, src: seq<Byte>) returns (r: IoResult)
      requires AtRest(sb, disk, ino, owner) && f.inum < |ino| && |src| < WORD_RANGE
      requires !HasDriver(writers, ino[f.inum])
      modifies this, f
      ensures Budgeted(txns, |old(txns)|)
      ensures var goal := Goal(old(ino)[f.inum], old(f.off), |src|);
              && (r == Panicked <==> Free(sb, old(owner)) < GoalBlocks(old(ino)[f.inum], old(f.off), goal))
              && (r == Panicked ==> Full(sb, disk))
              && (r != Panicked ==>
                    && r == (if goal == |src| then Done(|src|) else Refused) && f.off == old(f.off) + goal
                    && AtRest(sb, disk, ino, owner)
                    && FileWritten(old(disk), old(ino), disk, ino, f.inum, old(f.off), src, goal))
    {
      hide Full, AtRest, Touched, Grown, Contents, Splice, FileWritten, NewBlocks, Free, Goal, GoalBlocks, FreeBlocks;
      hide Budgeted, OtherFilesSame, Stride;
      assert Budgeted(txns, |txns|) by { BudgetedNone(txns); }
      var i := 0;
      ghost var di := ino[f.inum];
      FileUnwritten(sb, disk, ino, owner, f.inum, f.off, src);
      AtRestBasics(sb, disk, ino, owner);
      NothingNew(di, f.off);
      while i < |src|
        invariant 0 <= i <= |src| && f.off == old(f.off) + i && Stride(i, |src|)
        invariant AtRest(sb, disk, ino, owner)
        invariant FileWritten(old(disk), old(ino), disk, ino, f.inum, old(f.off), src, i)
        invariant Budgeted(txns, |old(txns)|)
        invariant i == 0 ==> ino == old(ino)
        invariant i > 0 ==> di.typ != T_DEV && old(f.off) <= di.size && old(f.off) + i <= MAXBYTES
        invariant Free(sb, owner) == Free(sb, old(owner)) - GoalBlocks(di, old(f.off), i)
      {
        var n1 := Min(|src| - i, CHUNK);
        WrittenBasics(old(disk), old(ino), disk, ino, f.inum, old(f.off), src, i);
        ghost var d, io := disk, ino;
        logged := {};                                // begin_op
        var c := Writei(f.inum, src[i..i + n1], f.off);
        GoalStep(di, old(f.off), |src|, i);
        if c == Panicked {
          return Panicked;
        }
        if c.Done? {
          ChunkFits(io[f.inum].size, f.off, n1);
          assert logged - {} == logged;
          WrittenMore(old(disk), old(ino), d, io, disk, ino, f.inum, old(f.off), src, i, n1);
          f.off := f.off + n1;
        }
        BudgetedNext(txns, |old(txns)|, logged);
        txns := txns + [logged];                     // end_op
        if c == Refused {
          AtRestFree(sb, disk, ino, owner);
          return Refused;
        }
        i := i + n1;
      }
      AtRestFree(sb, disk, ino, owner);
      GoalEnd(di, old(f.off), |src|);
      r := Done(|src|);
    }

    /** filewrite's loop on a device with a driver, whose answer to the chunk of n1 bytes from i on is
        answer(i, n1). */
    method WriteDevice(f: OpenFile, src: seq<Byte>, answer: (nat, nat) -> int) returns (r: IoResult)
      requires AtRest(sb, disk, ino, owner) && f.inum < |ino| && |src| < WORD_RANGE
      requires HasDriver(writers, ino[f.inum])
      modifies this, f
      ensures Budgeted(txns, |old(txns)|)
      ensures disk == old(disk) && ino == old(ino) && owner == old(owner)
      ensures DeviceWritten(answer, |src|, old(f.off), f.off, r)
    {
      hide AtRest, Full, Contents, Splice, Touched, Grown, NewBlocks, Free, Moved, Budgeted, OtherFilesSame;
      BudgetedNone(txns);
      MovedOn(f.off, 0, 0);
      var i := 0;
      while i < |src|
        invariant 0 <= i <= |src| && f.off == Moved(old(f.off), i)
        invariant disk == old(disk) && ino == old(ino) && owner == old(owner)
        invariant Budgeted(txns, |old(txns)|)
        invariant DeviceStop(answer, |src|, i) == DeviceStop(answer, |src|, 0)
      {
        var n1 := Min(|src| - i, CHUNK);
        logged := {};                                // begin_op
        var c := Writei(f.inum, src[i..i + n1], f.off);
        var a := answer(i, n1);
        if a > 0 {
          MovedOn(old(f.off), i, a);
          f.off := Moved(f.off, a);
        }
        BudgetedNext(txns, |old(txns)|, logged);
        txns := txns + [logged];                     // end_op
        if a < 0 {
          return Refused;
        }
        if a != n1 {
          return ShortWrite;
        }
        i := i + n1;
      }
      r := Done(|src|);
    }

    /** filewrite on an inode. What has been written to a file when it stops is one splice: all of src exactly
        when the range fits the file, else the chunks that do; no transaction logs more than MAXOPBLOCKS
        blocks, and it panics exactly when fewer blocks are free than the file would grow by. On a device
        the driver's answers decide. */
    method FileWrite(f: OpenFile, src: seq<Byte>, answer: (nat, nat) -> int) returns (r: IoResult)
      requires AtRest(sb, disk, ino, owner) && f.inum < |ino| && |src| < WORD_RANGE
      modifies this, f
      ensures Budgeted(txns, |old(txns)|)
      ensures HasDriver(writers, old(ino)[f.inum]) ==>
                disk == old(disk) && ino == old(ino) && owner == old(owner)
                && DeviceWritten(answer, |src|, old(f.off), f.off, r)
      ensures !HasDriver(writers, old(ino)[f.inum]) ==>
                var goal := Goal(old(ino)[f.inum], old(f.off), |src|);
                && (r == Panicked <==> Free(sb, old(owner)) < GoalBlocks(old(ino)[f.inum], old(f.off), goal))
                && (r == Panicked ==> Full(sb, disk))
                && (r != Panicked ==>
                      && r == (if goal == |src| then Done(|src|) else Refused) && f.off == old(f.off) + goal
                      && AtRest(sb, disk, ino, owner)
                      && FileWritten(old(disk), old(ino), disk, ino, f.inum, old(f.off), src, goal))
    {
      hide AtRest, Full, FileWritten, Goal, GoalBlocks, Free;
      if HasDriver(writers, ino[f.inum]) {
        r := WriteDevice(f, src, answer);
      } else {
        r := WriteChunks(f, src);
      }
    }
  }
}
