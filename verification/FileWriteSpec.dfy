/** Why the loop of writei is right: one block more keeps what has been written so far, disturbs no
    other file, and stays within the log budget. */
module FileWriteSpec {
  import opened Params
  import opened Block
  import opened Sequences
  import opened Bitmap
  import opened Inode
  import opened FileSpec
  import opened BlockMap

  /** Files other than i are as they were: references, blocks, and the inode blocks. */
  ghost predicate OthersKept(sb: Super, d0: Disk, ino0: seq<Dinode>, owner0: map<nat, Slot>, d: Disk,
                             owner: map<nat, Slot>, i: nat) {
    && sb.Valid() && |d| == |d0| == sb.size
    && (forall m, l :: 0 <= m < |ino0| && m != i && 0 <= l <= MAXFILE ==> Ref(d, ino0[m], l) == Ref(d0, ino0[m], l))
    && (forall b :: b in owner0 && owner0[b].inum != i ==>
          b < sb.size && d[b] == d0[b] && b in owner && owner[b] == owner0[b])
    && (forall b :: 0 <= b < sb.bmapstart ==> d[b] == d0[b])
  }

  /** Byte j of the file once src has been written at off, but for the bytes before. */
  function Target(d0: Disk, di0: Dinode, off: nat, src: seq<Byte>, j: nat): Byte
    requires j < MAXBYTES
  {
    if off <= j < off + |src| then src[j - off] else ByteAt(d0, di0, j)
  }

  ghost predicate BytesAre(d0: Disk, di0: Dinode, d: Disk, di: Dinode, off: nat, src: seq<Byte>) {
    forall j :: 0 <= j < Max(di0.size, off + |src|) && j < MAXBYTES ==> ByteAt(d, di, j) == Target(d0, di0, off, src, j)
  }

  /** The state of a write into file i at off after the bytes of `done`. */
  ghost predicate Wrote(sb: Super, d0: Disk, ino0: seq<Dinode>, owner0: map<nat, Slot>,
                        d: Disk, ino: seq<Dinode>, owner: map<nat, Slot>, i: nat, off: nat, done: seq<Byte>)
  {
    && Inv(sb, d0, ino0, owner0) && Inv(sb, d, ino, owner)
    && i < |ino0| && off <= ino0[i].size && off + |done| <= MAXBYTES
    && ino == ino0[i := ino[i]] && ino[i] == ino0[i].(addrs := ino[i].addrs)
    && Extent(d, ino[i], Max(Blocks(ino0[i].size), Blocks(off + |done|)))
    && BytesAre(d0, ino0[i], d, ino[i], off, done)
    && OthersKept(sb, d0, ino0, owner0, d, owner, i)
    && (off + |done| <= ino0[i].size ==> ino == ino0)
  }

  lemma {:induction false} ExtentGrows(d: Disk, di: Dinode, e: Disk, di': Dinode, bn: nat, addr: Word, nb: nat)
    requires Extent(d, di, nb) && RefSet(d, di, e, di', bn, addr) && bn <= nb
    ensures Extent(e, di', Max(nb, bn + 1))
  {
    hide Ref;
    forall k | 0 <= k < MAXFILE ensures Ref(e, di', k) != 0 <==> k < Max(nb, bn + 1) {
      assert k != bn ==> Ref(e, di', k) == Ref(d, di, k);
    }
  }

  /** Mapping a block leaves every byte that was there. */
  lemma {:induction false} MapKeepsByte(sb: Super, d: Disk, ino: seq<Dinode>, owner: map<nat, Slot>,
                                        e: Disk, ino': seq<Dinode>, owner': map<nat, Slot>, i: nat, bn: nat,
                                        addr: Word, j: nat)
    requires Inv(sb, d, ino, owner) && Inv(sb, e, ino', owner') && i < |ino| == |ino'|
    requires RefSet(d, ino[i], e, ino'[i], bn, addr) && Untouched(sb, d, ino, owner, e, owner', i)
    requires Ref(d, ino[i], bn) != 0 ==> e == d && ino' == ino
    requires j < MAXBYTES && Ref(d, ino[i], j / BSIZE) != 0
    ensures ByteAt(e, ino'[i], j) == ByteAt(d, ino[i], j)
  {
    hide Ref, InUse;
    var k := j / BSIZE;
    assert k < MAXFILE;
    var b := Ref(d, ino[i], k);
    RefOwner(sb, d, ino, owner, i, k);
    if k != bn {
      assert Ref(e, ino'[i], k) == b;
    }
  }

  /** Where the loop stands before and after one block. */
  lemma {:induction false} BlockArithmetic(size: nat, cur: nat, m: nat)
    requires 0 < m <= BSIZE - cur % BSIZE
    ensures cur / BSIZE <= Blocks(cur) <= cur / BSIZE + 1 == Blocks(cur + m)
    ensures cur < size ==> cur / BSIZE < Blocks(size)
    ensures cur + m <= MAXBYTES ==> cur / BSIZE < MAXFILE
    ensures forall j :: cur <= j < cur + m ==> j / BSIZE == cur / BSIZE && j % BSIZE == cur % BSIZE + j - cur
    ensures forall j :: 0 <= j && j / BSIZE == cur / BSIZE && cur % BSIZE <= j % BSIZE < cur % BSIZE + m ==>
              cur <= j < cur + m
  {
    var q, r := cur / BSIZE, cur % BSIZE;
    assert cur == BSIZE * q + r;
  }

  lemma {:induction false} ByteOfBlock(e: Disk, di: Dinode, j: nat, addr: Word)
    requires j < MAXBYTES && addr != 0 && addr < |e|
    ensures Ref(e, di, j / BSIZE) == addr ==> ByteAt(e, di, j) == e[addr][j % BSIZE]
  {
  }

  lemma {:induction false} OldByte(sb: Super, d: Disk, ino: seq<Dinode>, owner: map<nat, Slot>,
                                   e: Disk, ino': seq<Dinode>, owner': map<nat, Slot>, i: nat, bn: nat, addr: Word,
                                   j: nat, size: nat, cur: nat)
    requires Inv(sb, d, ino, owner) && Inv(sb, e, ino', owner') && i < |ino| == |ino'|
    requires RefSet(d, ino[i], e, ino'[i], bn, addr) && Untouched(sb, d, ino, owner, e, owner', i)
    requires Ref(d, ino[i], bn) != 0 ==> e == d && ino' == ino
    requires Extent(d, ino[i], Max(Blocks(size), Blocks(cur))) && j < Max(size, cur) && j < MAXBYTES
    ensures ByteAt(e, ino'[i], j) == ByteAt(d, ino[i], j)
  {
    hide Ref, InUse, ByteAt, Owned, BitmapIs, Untouched, RefSet;
    assert j / BSIZE < Max(Blocks(size), Blocks(cur));
    MapKeepsByte(sb, d, ino, owner, e, ino', owner', i, bn, addr, j);
  }

  /** The bytes, once the block at cur has been mapped and patched with chunk. */
  lemma {:induction false} BytesStep(sb: Super, d0: Disk, di0: Dinode,
                                     d: Disk, ino: seq<Dinode>, owner: map<nat, Slot>,
                                     e: Disk, ino': seq<Dinode>, owner': map<nat, Slot>,
                                     i: nat, off: nat, done: seq<Byte>, chunk: seq<Byte>, addr: Word)
    requires Inv(sb, d, ino, owner) && Inv(sb, e, ino', owner') && i < |ino| == |ino'|
    requires off <= di0.size && 0 < |chunk| <= BSIZE - (off + |done|) % BSIZE && off + |done| + |chunk| <= MAXBYTES
    requires Extent(d, ino[i], Max(Blocks(di0.size), Blocks(off + |done|))) && BytesAre(d0, di0, d, ino[i], off, done)
    requires var bn := (off + |done|) / BSIZE;
             && RefSet(d, ino[i], e, ino'[i], bn, addr) && Untouched(sb, d, ino, owner, e, owner', i)
             && (Ref(d, ino[i], bn) != 0 ==> e == d && ino' == ino)
    ensures addr < |e|
    ensures BytesAre(d0, di0, e[addr := Patch(e[addr], (off + |done|) % BSIZE, chunk)], ino'[i], off, done + chunk)
  {
    hide Ref, InUse, ByteAt, Patch, Owned, BitmapIs, Untouched;
    var cur := off + |done|;
    var bn, at := cur / BSIZE, cur % BSIZE;
    BlockArithmetic(di0.size, cur, |chunk|);
    PatchBlock(sb, e, ino', owner', i, bn, Zeroes());
    var blk := Patch(e[addr], at, chunk);
    var f := e[addr := blk];
    forall j | 0 <= j < Max(di0.size, cur + |chunk|) && j < MAXBYTES
      ensures ByteAt(f, ino'[i], j) == Target(d0, di0, off, done + chunk, j)
    {
      PatchBytes(sb, e, ino', owner', i, bn, blk, j);
      if cur <= j < cur + |chunk| {
      } else {
        OldByte(sb, d, ino, owner, e, ino', owner', i, bn, addr, j, di0.size, cur);
        assert j / BSIZE == bn ==> blk[j % BSIZE] == e[addr][j % BSIZE] == ByteAt(e, ino'[i], j) by {
          ByteOfBlock(e, ino'[i], j, addr);
        }
      }
    }
  }

  lemma {:induction false} OthersMap(sb: Super, d0: Disk, ino0: seq<Dinode>, owner0: map<nat, Slot>,
                                     d: Disk, ino: seq<Dinode>, owner: map<nat, Slot>, e: Disk,
                                     owner': map<nat, Slot>, i: nat)
    requires Inv(sb, d, ino, owner) && |e| == |d| && i < |ino| == |ino0|
    requires ino == ino0[i := ino[i]]
    requires OthersKept(sb, d0, ino0, owner0, d, owner, i) && Untouched(sb, d, ino, owner, e, owner', i)
    ensures OthersKept(sb, d0, ino0, owner0, e, owner', i)
  {
    hide Ref, InUse;
    forall m, l | 0 <= m < |ino0| && m != i && 0 <= l <= MAXFILE ensures Ref(e, ino0[m], l) == Ref(d0, ino0[m], l) {
      assert Ref(e, ino[m], l) == Ref(d, ino[m], l);
    }
  }

  lemma {:induction false} OthersPatch(sb: Super, d0: Disk, ino0: seq<Dinode>, owner0: map<nat, Slot>,
                                       e: Disk, ino': seq<Dinode>, owner': map<nat, Slot>, i: nat, bn: nat, blk: Data)
    requires Inv(sb, e, ino', owner') && i < |ino'| == |ino0| && ino' == ino0[i := ino'[i]]
    requires OthersKept(sb, d0, ino0, owner0, e, owner', i)
    requires bn < MAXFILE && Ref(e, ino'[i], bn) != 0 && Ref(e, ino'[i], bn) < |e|
    ensures OthersKept(sb, d0, ino0, owner0, e[Ref(e, ino'[i], bn) := blk], owner', i)
  {
    hide Ref, InUse, Owned, BitmapIs;
    PatchBlock(sb, e, ino', owner', i, bn, blk);
    RefOwner(sb, e, ino', owner', i, bn);
    var f := e[Ref(e, ino'[i], bn) := blk];
    forall m, l | 0 <= m < |ino0| && m != i && 0 <= l <= MAXFILE ensures Ref(f, ino0[m], l) == Ref(d0, ino0[m], l) {
      assert Ref(f, ino'[m], l) == Ref(e, ino'[m], l);
    }
  }

  lemma {:induction false} ExtentHas(d: Disk, di: Dinode, nb: nat, k: nat)
    requires Extent(d, di, nb) && k < MAXFILE
    ensures Ref(d, di, k) != 0 <==> k < nb
  {
  }

  lemma {:induction false} ExtentFrame(d: Disk, di: Dinode, e: Disk, di': Dinode, nb: nat)
    requires Extent(d, di, nb)
    requires forall l :: 0 <= l <= MAXFILE ==> Ref(e, di', l) == Ref(d, di, l)
    ensures Extent(e, di', nb)
  {
    hide Ref;
    forall k | 0 <= k < MAXFILE ensures Ref(e, di', k) != 0 <==> k < nb {
      assert Ref(e, di', k) == Ref(d, di, k);
    }
  }

  /** One turn of writei's loop: map the block at the cursor, patch it with the next chunk. */
  lemma {:induction false} WroteStep(sb: Super, d0: Disk, ino0: seq<Dinode>, owner0: map<nat, Slot>,
                                     d: Disk, ino: seq<Dinode>, owner: map<nat, Slot>,
                                     e: Disk, ino': seq<Dinode>, owner': map<nat, Slot>,
                                     i: nat, off: nat, done: seq<Byte>, chunk: seq<Byte>, addr: Word)
    requires Wrote(sb, d0, ino0, owner0, d, ino, owner, i, off, done)
    requires Inv(sb, e, ino', owner') && |ino'| == |ino| && ino' == ino[i := ino'[i]]
    requires 0 < |chunk| <= BSIZE - (off + |done|) % BSIZE && off + |done| + |chunk| <= MAXBYTES
    requires var bn := (off + |done|) / BSIZE;
             && RefSet(d, ino[i], e, ino'[i], bn, addr) && Untouched(sb, d, ino, owner, e, owner', i)
             && (Ref(d, ino[i], bn) != 0 ==> e == d && ino' == ino)
    ensures addr < |e|
    ensures Wrote(sb, d0, ino0, owner0, e[addr := Patch(e[addr], (off + |done|) % BSIZE, chunk)], ino', owner', i,
                  off, done + chunk)
  {
    hide Ref, InUse, ByteAt, Patch, Inv, Untouched, BytesAre, OthersKept, Extent, Blocks;
    InvRange(sb, d, ino, owner);
    InvRange(sb, e, ino', owner');
    var cur := off + |done|;
    var bn, size := cur / BSIZE, ino0[i].size;
    var nb := Max(Blocks(size), Blocks(cur));
    BlockArithmetic(size, cur, |chunk|);
    BytesStep(sb, d0, ino0[i], d, ino, owner, e, ino', owner', i, off, done, chunk, addr);
    var blk := Patch(e[addr], cur % BSIZE, chunk);
    PatchBlock(sb, e, ino', owner', i, bn, blk);
    OthersMap(sb, d0, ino0, owner0, d, ino, owner, e, owner', i);
    OthersPatch(sb, d0, ino0, owner0, e, ino', owner', i, bn, blk);
    ExtentGrows(d, ino[i], e, ino'[i], bn, addr, nb);
    ExtentFrame(e, ino'[i], e[addr := blk], ino'[i], Max(nb, bn + 1));
    if cur < size { ExtentHas(d, ino[i], nb, bn); }
  }

  // ------------------------------------------------------------ the end of a write

  /** Writing a block before the bitmap disturbs neither references nor the bitmap. */
  lemma {:induction false} BelowBitmap(sb: Super, d: Disk, ino: seq<Dinode>, owner: map<nat, Slot>, x: nat, blk: Data)
    requires Inv(sb, d, ino, owner) && x < sb.bmapstart
    ensures x < |d| && Inv(sb, d[x := blk], ino, owner)
    ensures forall m, l :: 0 <= m < |ino| && 0 <= l <= MAXFILE ==> Ref(d[x := blk], ino[m], l) == Ref(d, ino[m], l)
  {
    hide Owned, BitmapIs, Ref;
    InvRange(sb, d, ino, owner);
    OwnedFrame(sb, d, d[x := blk], ino, owner);
    BitmapFrame(sb, d, d[x := blk], owner.Keys);
  }

  lemma {:induction false} InodePlace(sb: Super, i: nat)
    requires sb.Valid() && i < sb.ninodes
    ensures 2 <= sb.IBlock(i) < sb.bmapstart
  {
  }

  lemma {:induction false} DinodeWritten(sb: Super, d: Disk, i: nat, di: Dinode, m: nat)
    requires sb.Valid() && |d| == sb.size && i < sb.ninodes && m < sb.ninodes
    ensures DinodeAt(sb, d[sb.IBlock(i) := PutDinode(d[sb.IBlock(i)], i % IPB, di)], m) == if m == i then di
              else DinodeAt(sb, d, m)
  {
    hide PutDinode, GetDinode;
    InodePlace(sb, i);
    InodePlace(sb, m);
    assert i == i / IPB * IPB + i % IPB && m == m / IPB * IPB + m % IPB;
    DinodeRoundTrip(d[sb.IBlock(i)], i % IPB, di, m % IPB);
  }

  /** iupdate: the inode's slot in its block is overwritten, and nothing else changes. */
  lemma {:induction false} UpdateInode(sb: Super, d: Disk, ino: seq<Dinode>, owner: map<nat, Slot>, i: nat, di: Dinode)
    requires Inv(sb, d, ino, owner) && i < |ino|
    ensures sb.IBlock(i) < sb.bmapstart
    ensures var e := d[sb.IBlock(i) := PutDinode(d[sb.IBlock(i)], i % IPB, di)];
            && Inv(sb, e, ino, owner)
            && (forall b :: sb.bmapstart <= b < sb.size ==> e[b] == d[b])
            && (forall m, l :: 0 <= m < |ino| && 0 <= l <= MAXFILE ==> Ref(e, ino[m], l) == Ref(d, ino[m], l))
            && (forall m :: 0 <= m < |ino| ==> DinodeAt(sb, e, m) == if m == i then di else DinodeAt(sb, d, m))
  {
    hide Inv, Ref, PutDinode, DinodeAt;
    InvRange(sb, d, ino, owner);
    InodePlace(sb, i);
    var e := d[sb.IBlock(i) := PutDinode(d[sb.IBlock(i)], i % IPB, di)];
    BelowBitmap(sb, d, ino, owner, sb.IBlock(i), PutDinode(d[sb.IBlock(i)], i % IPB, di));
    forall m | 0 <= m < |ino| ensures DinodeAt(sb, e, m) == if m == i then di else DinodeAt(sb, d, m) {
      DinodeWritten(sb, d, i, di, m);
    }
  }

  /** A change of its recorded size does not change what an inode refers to. */
  lemma {:induction false} ResizeKeeps(sb: Super, d: Disk, ino: seq<Dinode>, owner: map<nat, Slot>, i: nat, size: Word)
    requires Inv(sb, d, ino, owner) && i < |ino|
    ensures var ino' := ino[i := ino[i].(size := size)];
            && Inv(sb, d, ino', owner)
            && (forall m, l :: 0 <= m < |ino| && 0 <= l <= MAXFILE ==> Ref(d, ino'[m], l) == Ref(d, ino[m], l))
  {
    hide InUse, GetWord;
    var ino' := ino[i := ino[i].(size := size)];
    assert forall m, l :: 0 <= m < |ino| && 0 <= l <= MAXFILE ==> Ref(d, ino'[m], l) == Ref(d, ino[m], l);
    SameRefs(sb, d, ino, d, ino', owner);
  }

  /** Another file's bytes are where they were. */
  lemma {:induction false} OtherContents(sb: Super, d0: Disk, ino0: seq<Dinode>, owner0: map<nat, Slot>, d: Disk,
                                         owner: map<nat, Slot>, i: nat, m: nat)
    requires Inv(sb, d0, ino0, owner0) && OthersKept(sb, d0, ino0, owner0, d, owner, i)
    requires m < |ino0| && m != i && ino0[m].size <= MAXBYTES
    ensures Contents(d, ino0[m]) == Contents(d0, ino0[m])
  {
    hide Ref, Owned, BitmapIs;
    forall j | 0 <= j < ino0[m].size ensures ByteAt(d, ino0[m], j) == ByteAt(d0, ino0[m], j) {
      var k := j / BSIZE;
      assert k < MAXFILE;
      if Ref(d0, ino0[m], k) != 0 { RefOwner(sb, d0, ino0, owner0, m, k); }
    }
  }

  lemma {:induction false} OtherFileOk(sb: Super, d0: Disk, ino0: seq<Dinode>, owner0: map<nat, Slot>, d: Disk,
                                       owner: map<nat, Slot>, i: nat, m: nat)
    requires OthersKept(sb, d0, ino0, owner0, d, owner, i) && m < |ino0| && m != i && FileOk(d0, ino0[m])
    ensures FileOk(d, ino0[m])
  {
    hide Ref;
    ExtentFrame(d0, ino0[m], d, ino0[m], Blocks(ino0[m].size));
  }

  /** The bytes of a finished write, read as a file of the final size. */
  lemma {:induction false} WrittenContents(d0: Disk, di0: Dinode, d: Disk, di: Dinode, off: nat, src: seq<Byte>)
    requires BytesAre(d0, di0, d, di, off, src)
    requires off <= di0.size <= MAXBYTES && off + |src| <= MAXBYTES
    requires di.size == Max(di0.size, off + |src|)
    ensures Contents(d, di) == Splice(Contents(d0, di0), off, src)
  {
    hide ByteAt;
    var r := Splice(Contents(d0, di0), off, src);
    forall j | 0 <= j < di.size ensures Contents(d, di)[j] == r[j] {
      assert ByteAt(d, di, j) == Target(d0, di0, off, src, j);
    }
  }

  lemma {:induction false} SameByte(sb: Super, d: Disk, ino: seq<Dinode>, owner: map<nat, Slot>, e: Disk,
                                    ino': seq<Dinode>, m: nat, j: nat)
    requires Inv(sb, d, ino, owner) && |e| == |d| && m < |ino| == |ino'| && j < MAXBYTES
    requires forall b :: sb.bmapstart <= b < sb.size ==> e[b] == d[b]
    requires Ref(e, ino'[m], j / BSIZE) == Ref(d, ino[m], j / BSIZE)
    ensures ByteAt(e, ino'[m], j) == ByteAt(d, ino[m], j)
  {
    hide Ref, Owned, BitmapIs;
    if Ref(d, ino[m], j / BSIZE) != 0 { RefOwner(sb, d, ino, owner, m, j / BSIZE); }
  }

  /** A finished write, size recorded and inode written through, leaves the file system at rest with
      the file spliced and every other file as it was. */
  lemma {:induction false} Settle(sb: Super, d0: Disk, ino0: seq<Dinode>, owner0: map<nat, Slot>,
                                  d: Disk, ino: seq<Dinode>, owner: map<nat, Slot>, i: nat, off: nat, src: seq<Byte>,
                                  d': Disk, ino': seq<Dinode>)
    requires AtRest(sb, d0, ino0, owner0)
    requires Wrote(sb, d0, ino0, owner0, d, ino, owner, i, off, src)
    requires |ino'| == |ino| && ino' == ino[i := ino[i].(size := Max(ino0[i].size, off + |src|))]
    requires Inv(sb, d', ino', owner) && OthersKept(sb, d0, ino0, owner0, d, owner, i)
    requires forall b :: sb.bmapstart <= b < sb.size ==> d'[b] == d[b]
    requires forall m, l :: 0 <= m < |ino| && 0 <= l <= MAXFILE ==> Ref(d', ino'[m], l) == Ref(d, ino[m], l)
    requires forall m :: 0 <= m < |ino| ==> DinodeAt(sb, d', m) == ino'[m]
    ensures AtRest(sb, d', ino', owner)
    ensures Contents(d', ino'[i]) == Splice(Contents(d0, ino0[i]), off, src)
    ensures forall m :: 0 <= m < |ino0| && m != i ==>
              ino'[m] == ino0[m] && Contents(d', ino'[m]) == Contents(d0, ino0[m])
  {
    hide Ref, InUse, ByteAt, Owned, BitmapIs, DinodeAt;
    InvRange(sb, d, ino, owner);
    InvRange(sb, d', ino', owner);
    assert FileOk(d', ino'[i]) && Contents(d', ino'[i]) == Splice(Contents(d0, ino0[i]), off, src) by {
      assert FileOk(d0, ino0[i]);
      ExtentFrame(d, ino[i], d', ino'[i], Max(Blocks(ino0[i].size), Blocks(off + |src|)));
      forall j | 0 <= j < Max(ino0[i].size, off + |src|) && j < MAXBYTES
        ensures ByteAt(d', ino'[i], j) == Target(d0, ino0[i], off, src, j)
      {
        SameByte(sb, d, ino, owner, d', ino', i, j);
      }
      WrittenContents(d0, ino0[i], d', ino'[i], off, src);
    }
    forall m | 0 <= m < |ino0| && m != i
      ensures ino'[m] == ino0[m] && FileOk(d', ino'[m]) && Contents(d', ino'[m]) == Contents(d0, ino0[m])
    {
      assert FileOk(d0, ino0[m]) && ino[m] == ino0[m];
      OtherFileOk(sb, d0, ino0, owner0, d, owner, i, m);
      ExtentFrame(d, ino[m], d', ino'[m], Blocks(ino0[m].size));
      OtherContents(sb, d0, ino0, owner0, d, owner, i, m);
      forall j | 0 <= j < ino0[m].size ensures ByteAt(d', ino'[m], j) == ByteAt(d, ino[m], j) {
        SameByte(sb, d, ino, owner, d', ino', m, j);
      }
    }
  }

  /** A write begins with nothing written. */
  lemma {:induction false} StartWrite(sb: Super, d: Disk, ino: seq<Dinode>, owner: map<nat, Slot>, i: nat, off: nat)
    requires AtRest(sb, d, ino, owner) && i < |ino| && off <= ino[i].size
    ensures Wrote(sb, d, ino, owner, d, ino, owner, i, off, [])
  {
    hide Ref, InUse, ByteAt, Extent;
    assert FileOk(d, ino[i]);
    assert Blocks(off) <= Blocks(ino[i].size);
  }

  lemma {:induction false} WroteBasics(sb: Super, d0: Disk, ino0: seq<Dinode>, owner0: map<nat, Slot>,
                                       d: Disk, ino: seq<Dinode>, owner: map<nat, Slot>, i: nat, off: nat,
                                       done: seq<Byte>)
    requires Wrote(sb, d0, ino0, owner0, d, ino, owner, i, off, done)
    ensures sb.Valid() && |d| == sb.size && i < |ino| == |ino0| == sb.ninodes
    ensures ino[i].size == ino0[i].size && sb.IBlock(i) < sb.size
  {
    hide Ref, InUse, Extent, BytesAre, OthersKept;
    InodePlace(sb, i);
  }

  lemma {:induction false} NextCursor(cur: nat, m: nat)
    requires m == BSIZE - cur % BSIZE
    ensures (cur + m) % BSIZE == 0
  {
    assert cur == cur / BSIZE * BSIZE + cur % BSIZE;
  }

  /** writei's last step: record the new size and call iupdate if the file grew, and only then. Either
      way the inode on disk equals the one in memory, because blocks are added only at the end. */
  lemma {:induction false} Settled(sb: Super, d0: Disk, ino0: seq<Dinode>, owner0: map<nat, Slot>,
                                   d: Disk, ino: seq<Dinode>, owner: map<nat, Slot>, i: nat, off: nat, src: seq<Byte>,
                                   d': Disk, ino': seq<Dinode>)
    requires AtRest(sb, d0, ino0, owner0)
    requires Wrote(sb, d0, ino0, owner0, d, ino, owner, i, off, src)
    requires sb.IBlock(i) < |d|
    requires if |src| > 0 && off + |src| > ino[i].size
             then ino' == ino[i := ino[i].(size := off + |src|)]
                  && d' == d[sb.IBlock(i) := PutDinode(d[sb.IBlock(i)], i % IPB, ino'[i])]
             else ino' == ino && d' == d
    ensures AtRest(sb, d', ino', owner) && ino0[i].size <= MAXBYTES
    ensures Contents(d', ino'[i]) == Splice(Contents(d0, ino0[i]), off, src)
    ensures forall m :: 0 <= m < |ino0| && m != i ==>
              ino'[m] == ino0[m] && Contents(d', ino'[m]) == Contents(d0, ino0[m])
    ensures ino'[i] == ino0[i].(addrs := ino'[i].addrs, size := Max(ino0[i].size, off + |src|))
  {
    hide Ref, InUse, ByteAt, Extent, Owned, BitmapIs, BytesAre, PutDinode, GetDinode;
    InvRange(sb, d, ino, owner);
    forall m | 0 <= m < |ino| ensures DinodeAt(sb, d, m) == ino0[m] {
      InodePlace(sb, m);
      assert DinodeAt(sb, d0, m) == ino0[m];
    }
    if |src| > 0 && off + |src| > ino[i].size {
      ResizeKeeps(sb, d, ino, owner, i, off + |src|);
      UpdateInode(sb, d, ino', owner, i, ino'[i]);
    }
    Settle(sb, d0, ino0, owner0, d, ino, owner, i, off, src, d', ino');
  }

  // ------------------------------------------------------------ the log budget

  /** Blocks of the file that a write of [off, cur) has touched. */
  function Touched(off: nat, cur: nat): int {
    if cur == off then 0 else Blocks(cur) - off / BSIZE
  }

  /** Blocks by which the file has grown. */
  function Grown(size: nat, cur: nat): int {
    Max(Blocks(size), Blocks(cur)) - Blocks(size)
  }

  function Indirect(di: Dinode): set<nat> {
    if di.addrs[NDIRECT] == 0 then {} else {di.addrs[NDIRECT]}
  }

  /** Everything logged so far is one of the touched data blocks `data`, a bitmap block in `maps`, or
      the indirect block; there are as many data blocks as blocks touched, and as many bitmap blocks as
      allocations. */
  ghost predicate LogIs(log0: set<nat>, log: set<nat>, di0: Dinode, di: Dinode, data: set<nat>, maps: set<nat>,
                        off: nat, cur: nat) {
    && log <= log0 + data + maps + Indirect(di)
    && (di0.addrs[NDIRECT] == 0 || di.addrs[NDIRECT] == di0.addrs[NDIRECT])
    && |data| <= Touched(off, cur)
    && |maps| <= Grown(di0.size, cur) + if di.addrs[NDIRECT] == di0.addrs[NDIRECT] then 0 else 1
  }

  lemma {:induction false} LogStart(log: set<nat>, di: Dinode, off: nat)
    ensures LogIs(log, log, di, di, {}, {}, off, off)
  {
  }

  lemma {:induction false} AddOne<T>(s: set<T>, x: T)
    ensures |s + {x}| <= |s| + 1
  {
    if x in s { assert s + {x} == s; } else { assert |s + {x}| == |s| + 1; }
  }

  lemma {:induction false} CountStep(size: nat, off: nat, cur: nat, m: nat)
    requires off <= cur && (cur == off || cur % BSIZE == 0) && 0 < m <= BSIZE - cur % BSIZE
    ensures Touched(off, cur + m) == Touched(off, cur) + 1
    ensures Grown(size, cur + m) >= Grown(size, cur) >= 0
    ensures cur / BSIZE >= Max(Blocks(size), Blocks(cur)) ==> Grown(size, cur + m) == Grown(size, cur) + 1
  {
    BlockArithmetic(size, cur, m);
    if cur == off {
    } else {
      assert Blocks(cur) == cur / BSIZE;
    }
  }

  /** One more touched block, already there: it is the only new entry in the log. */
  lemma {:induction false} LogTouch(log0: set<nat>, log: set<nat>, log': set<nat>, di0: Dinode, di: Dinode, off: nat,
                                    cur: nat, m: nat, addr: nat,
                                    data: set<nat>, maps: set<nat>)
    requires LogIs(log0, log, di0, di, data, maps, off, cur) && log' <= log + {addr}
    requires Touched(off, cur + m) == Touched(off, cur) + 1 && Grown(di0.size, cur + m) >= Grown(di0.size, cur)
    ensures LogIs(log0, log', di0, di, data + {addr}, maps, off, cur + m)
  {
    hide Touched, Grown;
    AddOne(data, addr);
  }

  lemma {:induction false} LogGrows(log0: set<nat>, log: set<nat>, log': set<nat>, data: set<nat>, maps: set<nat>,
                                    ind: set<nat>,
                                    addr: nat, maps': set<nat>, ind': set<nat>)
    requires log <= log0 + data + maps + ind && log' <= log + ({addr} + maps' + ind')
    requires maps <= maps' && ind <= ind'
    ensures log' <= log0 + (data + {addr}) + maps' + ind'
  {
    forall x | x in log' ensures x in log0 + (data + {addr}) + maps' + ind' {
      assert x in log || x in {addr} + maps' + ind';
    }
  }

  /** One more touched block, freshly allocated: its bitmap block is new too, and so are the indirect
      block and its bitmap block if that had to be allocated first. */
  lemma {:induction false} LogAllocate(sb: Super, log0: set<nat>, log: set<nat>, log': set<nat>, di0: Dinode,
                                       di: Dinode, di': Dinode,
                                       off: nat, cur: nat, m: nat, addr: Word, data: set<nat>, maps: set<nat>)
    returns (maps': set<nat>)
    requires LogIs(log0, log, di0, di, data, maps, off, cur)
    requires log' <= log + MapLog(sb, di, di', cur / BSIZE, addr)
    requires cur / BSIZE >= NDIRECT ==> di'.addrs[NDIRECT] != 0
    requires di.addrs[NDIRECT] == 0 || di'.addrs[NDIRECT] == di.addrs[NDIRECT]
    requires Touched(off, cur + m) == Touched(off, cur) + 1 && Grown(di0.size, cur + m) == Grown(di0.size, cur) + 1
    ensures LogIs(log0, log', di0, di', data + {addr}, maps', off, cur + m)
  {
    hide Touched, Grown;
    AddOne(data, addr);
    maps' := maps + {sb.BBlock(addr)};
    AddOne(maps, sb.BBlock(addr));
    var x := di'.addrs[NDIRECT];
    if x != di.addrs[NDIRECT] {
      AddOne(maps', sb.BBlock(x));
      maps' := maps' + {sb.BBlock(x)};
    }
    assert MapLog(sb, di, di', cur / BSIZE, addr) <= {addr} + maps' + Indirect(di') && Indirect(di) <= Indirect(di');
    LogGrows(log0, log, log', data, maps, Indirect(di), addr, maps', Indirect(di'));
  }

  lemma {:induction false} IndirectNeeded(d: Disk, di: Dinode, e: Disk, di': Dinode, bn: nat, addr: Word)
    requires RefSet(d, di, e, di', bn, addr)
    ensures bn >= NDIRECT ==> di'.addrs[NDIRECT] != 0
    ensures di.addrs[NDIRECT] == 0 || di'.addrs[NDIRECT] == di.addrs[NDIRECT]
  {
    hide GetWord;
  }

  lemma {:induction false} LogStep(sb: Super, log0: set<nat>, log: set<nat>, log': set<nat>, di0: Dinode,
                                   d: Disk, di: Dinode, e: Disk, di': Dinode, off: nat, cur: nat, m: nat, addr: Word,
                                   data: set<nat>, maps: set<nat>) returns (data': set<nat>, maps': set<nat>)
    requires off <= cur && (cur == off || cur % BSIZE == 0) && 0 < m <= BSIZE - cur % BSIZE && cur + m <= MAXBYTES
    requires LogIs(log0, log, di0, di, data, maps, off, cur)
    requires Extent(d, di, Max(Blocks(di0.size), Blocks(cur))) && RefSet(d, di, e, di', cur / BSIZE, addr)
    requires if Ref(d, di, cur / BSIZE) != 0 then di' == di && log' <= log + {addr}
             else log' <= log + MapLog(sb, di, di', cur / BSIZE, addr)
    ensures LogIs(log0, log', di0, di', data', maps', off, cur + m)
  {
    hide Ref, Touched, Grown, RefSet, Extent, Blocks, LogIs, MapLog;
    CountStep(di0.size, off, cur, m);
    BlockArithmetic(di0.size, cur, m);
    IndirectNeeded(d, di, e, di', cur / BSIZE, addr);
    data' := data + {addr};
    if Ref(d, di, cur / BSIZE) != 0 {
      maps' := maps;
      LogTouch(log0, log, log', di0, di, off, cur, m, addr, data, maps);
    } else {
      ExtentHas(d, di, Max(Blocks(di0.size), Blocks(cur)), cur / BSIZE);
      maps' := LogAllocate(sb, log0, log, log', di0, di, di', off, cur, m, addr, data, maps);
    }
  }

  lemma {:induction false} UnionSize<T>(a: set<T>, b: set<T>)
    ensures |a + b| <= |a| + |b|
  {
    assert |a + b| == |a| + |b - a| by { assert a + b == a + (b - a); }
    SubsetSize(b - a, b);
  }

  /** A write logs at most its touched blocks, a bitmap block per allocation, the indirect block and
      the inode's block. */
  lemma {:induction false} LogTotal(log0: set<nat>, log: set<nat>, di0: Dinode, di: Dinode, data: set<nat>,
                                    maps: set<nat>, off: nat, cur: nat, iblock: nat)
    requires LogIs(log0, log, di0, di, data, maps, off, cur)
    ensures |log - log0| <= |(log + {iblock}) - log0| <= Touched(off, cur) + Grown(di0.size, cur) + 3
  {
    hide Touched, Grown;
    SubsetSize(log - log0, (log + {iblock}) - log0);
    UnionSize(data, maps);
    UnionSize(data + maps, Indirect(di));
    UnionSize(data + maps + Indirect(di), {iblock});
    SubsetSize((log + {iblock}) - log0, data + maps + Indirect(di) + {iblock});
  }

  /** With at most three blocks of data, at any offset within the file, that is at most ten. */
  lemma {:induction false} ChunkFits(size: nat, off: nat, n: nat)
    requires off <= size && n <= (MAXOPBLOCKS - 1 - 1 - 2) / 2 * BSIZE
    ensures Touched(off, off + n) + Grown(size, off + n) + 3 <= MAXOPBLOCKS
  {
    assert Blocks(off) <= Blocks(size);
    assert Blocks(off + n) <= Blocks(off) + 3;
    assert Blocks(off) <= off / BSIZE + 1;
  }

  // ------------------------------------------------------------ reading, and writing in chunks

  /** The part of a block that readi copies is the corresponding slice of the file. */
  lemma {:induction false} ReadSlice(sb: Super, d: Disk, ino: seq<Dinode>, owner: map<nat, Slot>, i: nat, cur: nat,
                                     m: nat)
    requires AtRest(sb, d, ino, owner) && i < |ino|
    requires 0 < m <= BSIZE - cur % BSIZE && cur + m <= ino[i].size
    ensures ino[i].size <= MAXBYTES && cur / BSIZE < MAXFILE
    ensures var b := Ref(d, ino[i], cur / BSIZE);
            b != 0 && b < |d| && d[b][cur % BSIZE .. cur % BSIZE + m] == Contents(d, ino[i])[cur .. cur + m]
  {
    hide InUse, Ref, Owned, BitmapIs;
    AtRestBasics(sb, d, ino, owner);
    BlockArithmetic(ino[i].size, cur, m);
    assert FileOk(d, ino[i]);
    ExtentHas(d, ino[i], Blocks(ino[i].size), cur / BSIZE);
    RefOwner(sb, d, ino, owner, i, cur / BSIZE);
    var b := Ref(d, ino[i], cur / BSIZE);
    var piece, slice := d[b][cur % BSIZE .. cur % BSIZE + m], Contents(d, ino[i])[cur .. cur + m];
    forall j | 0 <= j < m ensures piece[j] == slice[j] {
      assert ByteAt(d, ino[i], cur + j) == d[b][(cur + j) % BSIZE];
    }
  }

  /** Two adjacent writes are one write. */
  lemma {:induction false} SpliceSplice(c: seq<Byte>, off: nat, a: seq<Byte>, b: seq<Byte>)
    requires off <= |c|
    ensures Splice(Splice(c, off, a), off + |a|, b) == Splice(c, off, a + b)
  {
  }
}
