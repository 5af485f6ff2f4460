/** Truncation: which blocks itrunc has given back at each point, and that it ends with all of them. */
module Truncate {
  import opened Params
  import opened Sequences
  import opened Block
  import opened Bitmap
  import opened Inode
  import opened FileSpec
  import opened BlockMap
  import opened FileWriteSpec

  /** Ownership once the first j references of file i are gone. */
  function Without(owner: map<nat, Slot>, i: nat, j: nat): map<nat, Slot> {
    map b | b in owner && !(owner[b].inum == i && owner[b].k < j) :: owner[b]
  }

  /** Only bitmap blocks differ. */
  ghost predicate OnlyBitmap(sb: Super, d: Disk, e: Disk) {
    && sb.Valid() && |e| == |d| == sb.size
    && forall b :: 0 <= b < sb.size && !(sb.bmapstart <= b < sb.DataStart()) ==> e[b] == d[b]
  }

  /** Dropping reference j drops exactly the block it names. */
  lemma {:induction false} WithoutNext(sb: Super, d: Disk, ino: seq<Dinode>, owner: map<nat, Slot>, i: nat, j: nat)
    requires Inv(sb, d, ino, owner) && i < |ino| && j <= MAXFILE
    ensures var b := Ref(d, ino[i], j);
            if b == 0 then Without(owner, i, j + 1) == Without(owner, i, j)
            else b in Without(owner, i, j) && Without(owner, i, j + 1) == Without(owner, i, j) - {b}
  {
    hide Ref, Inv;
    var r: nat := Ref(d, ino[i], j);
    if r != 0 { RefOwner(sb, d, ino, owner, i, j); }
    forall b | b in owner && owner[b] == Slot(i, j) ensures b == r != 0 {
      InvRange(sb, d, ino, owner);
      OwnerRef(sb, d, ino, owner, b);
    }
    var w, w' := Without(owner, i, j), Without(owner, i, j + 1);
    assert w'.Keys == if r == 0 then w.Keys else w.Keys - {r};
  }

  lemma {:induction false} WithoutNone(owner: map<nat, Slot>, i: nat)
    ensures Without(owner, i, 0) == owner
  {
  }

  /** Freeing a block shrinks the set of blocks in use by that block. */
  lemma {:induction false} FreedBitmap(sb: Super, d: Disk, e: Disk, b: nat, used: set<nat>)
    requires BitmapIs(sb, d, used) && Freed(sb, d, e, b) && sb.DataStart() <= b
    ensures BitmapIs(sb, e, used - {b}) && OnlyBitmap(sb, d, e)
  {
    hide InUse;
    BitmapPlace(sb, b);
  }

  /** The inode table with the first j direct references of file i cleared. */
  function Cleared(ino: seq<Dinode>, i: nat, j: nat): (r: seq<Dinode>)
    requires i < |ino| && j <= NDIRECT + 1
    ensures |r| == |ino|
  {
    var a := seq<Word>(NDIRECT + 1, l requires 0 <= l < NDIRECT + 1 => if l < j then 0 else ino[i].addrs[l]);
    ino[i := ino[i].(addrs := a)]
  }

  /** The references of file i that its cleared inode still has. */
  lemma {:induction false} ClearedRefs(sb: Super, d: Disk, ino: seq<Dinode>, owner: map<nat, Slot>, e: Disk, i: nat,
                                       j: nat)
    requires Inv(sb, d, ino, owner) && OnlyBitmap(sb, d, e) && i < |ino| && j <= NDIRECT + 1
    ensures var ino' := Cleared(ino, i, j);
            forall m, l :: 0 <= m < |ino| && 0 <= l <= MAXFILE ==>
              Ref(e, ino'[m], l) == if m == i && (l < j || j > NDIRECT) then 0 else Ref(d, ino[m], l)
  {
    hide InUse, GetWord;
    InvRange(sb, d, ino, owner);
    OwnedFrame(sb, d, e, ino, owner);
    var ino' := Cleared(ino, i, j);
    forall m, l | 0 <= m < |ino| && 0 <= l <= MAXFILE
      ensures Ref(e, ino'[m], l) == if m == i && (l < j || j > NDIRECT) then 0 else Ref(e, ino[m], l)
    {
    }
  }

  lemma {:induction false} OwnedWithout(sb: Super, d: Disk, ino: seq<Dinode>, owner: map<nat, Slot>, e: Disk, i: nat,
                                        j: nat)
    requires Inv(sb, d, ino, owner) && OnlyBitmap(sb, d, e) && i < |ino| && j <= NDIRECT + 1
    ensures Owned(sb, e, Cleared(ino, i, j), Without(owner, i, if j > NDIRECT then MAXFILE + 1 else j))
  {
    hide InUse, Ref, Cleared;
    ClearedRefs(sb, d, ino, owner, e, i, j);
    var ino', w := Cleared(ino, i, j), Without(owner, i, if j > NDIRECT then MAXFILE + 1 else j);
    forall b | b in w ensures OwnedBy(sb, e, ino', w, b) {
      assert OwnedBy(sb, d, ino, owner, b);
    }
    forall m, l | 0 <= m < |ino| && 0 <= l <= MAXFILE ensures Claimed(e, ino', w, m, l) {
      assert Claimed(d, ino, owner, m, l);
    }
  }

  /** itrunc at work on reference j of file i (direct references first, then the indirect entries, then
      the indirect block): exactly the earlier references' blocks are free again. */
  ghost predicate Truncating(sb: Super, d0: Disk, ino0: seq<Dinode>, owner0: map<nat, Slot>, d: Disk, i: nat, j: nat) {
    && Inv(sb, d0, ino0, owner0) && i < |ino0| && j <= MAXFILE + 1
    && OnlyBitmap(sb, d0, d)
    && BitmapIs(sb, d, Without(owner0, i, j).Keys)
  }

  lemma {:induction false} TruncatingBasics(sb: Super, d0: Disk, ino0: seq<Dinode>, owner0: map<nat, Slot>, d: Disk,
                                            i: nat, j: nat)
    requires Truncating(sb, d0, ino0, owner0, d, i, j)
    ensures sb.Valid() && |d| == sb.size && |ino0| == sb.ninodes
  {
  }

  lemma {:induction false} TruncateStart(sb: Super, d: Disk, ino: seq<Dinode>, owner: map<nat, Slot>, i: nat)
    requires Inv(sb, d, ino, owner) && i < |ino|
    ensures Truncating(sb, d, ino, owner, d, i, 0)
  {
    WithoutNone(owner, i);
  }

  lemma {:induction false} TruncateSkip(sb: Super, d0: Disk, ino0: seq<Dinode>, owner0: map<nat, Slot>, d: Disk,
                                        i: nat, j: nat)
    requires Truncating(sb, d0, ino0, owner0, d, i, j) && j <= MAXFILE && Ref(d0, ino0[i], j) == 0
    ensures Truncating(sb, d0, ino0, owner0, d, i, j + 1)
  {
    hide Ref, InUse, Owned, BitmapIs, OnlyBitmap;
    WithoutNext(sb, d0, ino0, owner0, i, j);
  }

  /** The next block to free is in use, and freeing it completes the step. */
  lemma {:induction false} TruncateUsed(sb: Super, d0: Disk, ino0: seq<Dinode>, owner0: map<nat, Slot>, d: Disk,
                                        i: nat, j: nat)
    requires Truncating(sb, d0, ino0, owner0, d, i, j) && j <= MAXFILE && Ref(d0, ino0[i], j) != 0
    ensures sb.Valid() && |d| == sb.size && Ref(d0, ino0[i], j) < sb.size && InUse(sb, d, Ref(d0, ino0[i], j))
  {
    hide Ref, InUse;
    RefOwner(sb, d0, ino0, owner0, i, j);
    WithoutNext(sb, d0, ino0, owner0, i, j);
  }

  lemma {:induction false} TruncateFree(sb: Super, d0: Disk, ino0: seq<Dinode>, owner0: map<nat, Slot>, d: Disk,
                                        e: Disk, i: nat, j: nat)
    requires Truncating(sb, d0, ino0, owner0, d, i, j) && j <= MAXFILE && Ref(d0, ino0[i], j) != 0
    requires Freed(sb, d, e, Ref(d0, ino0[i], j))
    ensures Truncating(sb, d0, ino0, owner0, e, i, j + 1)
  {
    hide Ref, InUse, Owned, BitmapIs;
    RefOwner(sb, d0, ino0, owner0, i, j);
    WithoutNext(sb, d0, ino0, owner0, i, j);
    var b: nat := Ref(d0, ino0[i], j);
    FreedBitmap(sb, d, e, b, Without(owner0, i, j).Keys);
    assert (Without(owner0, i, j) - {b}).Keys == Without(owner0, i, j).Keys - {b};
  }

  lemma {:induction false} TruncateSkipTo(sb: Super, d0: Disk, ino0: seq<Dinode>, owner0: map<nat, Slot>, d: Disk,
                                          i: nat, j: nat, k: nat)
    requires Truncating(sb, d0, ino0, owner0, d, i, j) && j <= k <= MAXFILE + 1
    requires forall l :: j <= l < k ==> Ref(d0, ino0[i], l) == 0
    ensures Truncating(sb, d0, ino0, owner0, d, i, k)
    decreases k - j
  {
    hide Truncating, Ref;
    if j < k {
      TruncateSkip(sb, d0, ino0, owner0, d, i, j);
      TruncateSkipTo(sb, d0, ino0, owner0, d, i, j + 1, k);
    }
  }

  lemma {:induction false} ClearedNext(ino: seq<Dinode>, i: nat, j: nat)
    requires i < |ino| && j <= NDIRECT
    ensures Cleared(ino, i, j + 1) == SetAddr(Cleared(ino, i, j), i, j, 0)
    ensures Cleared(ino, i, j)[i].addrs[j] == ino[i].addrs[j]
    ensures ino[i].addrs[j] == 0 ==> Cleared(ino, i, j + 1) == Cleared(ino, i, j)
    ensures Cleared(ino, i, 0) == ino
  {
    assert Cleared(ino, i, j + 1)[i].addrs == SetAddr(Cleared(ino, i, j), i, j, 0)[i].addrs;
    assert Cleared(ino, i, 0)[i].addrs == ino[i].addrs;
    if ino[i].addrs[j] == 0 {
      assert Cleared(ino, i, j + 1)[i].addrs == Cleared(ino, i, j)[i].addrs;
    }
  }

  /** What itrunc reads in the indirect block, though it has already changed the bitmap. */
  lemma {:induction false} IndirectEntries(sb: Super, d0: Disk, ino0: seq<Dinode>, owner0: map<nat, Slot>, d: Disk,
                                           i: nat)
    requires Truncating(sb, d0, ino0, owner0, d, i, NDIRECT)
    ensures var x := ino0[i].addrs[NDIRECT];
            && Ref(d0, ino0[i], MAXFILE) == x
            && (x == 0 ==> forall l :: NDIRECT <= l <= MAXFILE ==> Ref(d0, ino0[i], l) == 0)
            && (x != 0 ==> x < |d| && forall l :: NDIRECT <= l < MAXFILE ==>
                Ref(d0, ino0[i], l) == GetWord(d[x], l - NDIRECT))
  {
    hide GetWord, InUse, Owned, BitmapIs;
    var x := ino0[i].addrs[NDIRECT];
    if x != 0 { RefOwner(sb, d0, ino0, owner0, i, MAXFILE); }
  }

  function Emptied(ino: seq<Dinode>, i: nat): (r: seq<Dinode>)
    requires i < |ino|
    ensures |r| == |ino|
  {
    ino[i := ino[i].(addrs := seq<Word>(NDIRECT + 1, _ => 0), size := 0)]
  }

  lemma {:induction false} EmptiedIsCleared(ino: seq<Dinode>, i: nat)
    requires i < |ino|
    ensures var c := Cleared(ino, i, NDIRECT + 1); Emptied(ino, i) == c[i := c[i].(size := 0)]
  {
    var c := Cleared(ino, i, NDIRECT + 1);
    assert c[i].addrs == seq<Word>(NDIRECT + 1, _ => 0);
  }

  /** All references given back, size zeroed: consistent again before the inode is written. */
  lemma {:induction false} TruncateDone(sb: Super, d0: Disk, ino0: seq<Dinode>, owner0: map<nat, Slot>, d: Disk, i: nat)
    requires Truncating(sb, d0, ino0, owner0, d, i, MAXFILE + 1)
    ensures var ino := Emptied(ino0, i);
            && Inv(sb, d, ino, Without(owner0, i, MAXFILE + 1))
            && (forall m, l :: 0 <= m < |ino| && 0 <= l <= MAXFILE ==>
                Ref(d, ino[m], l) == if m == i then 0 else Ref(d0, ino0[m], l))
  {
    hide Ref, InUse, Cleared;
    var c, w := Cleared(ino0, i, NDIRECT + 1), Without(owner0, i, MAXFILE + 1);
    OwnedWithout(sb, d0, ino0, owner0, d, i, NDIRECT + 1);
    ClearedRefs(sb, d0, ino0, owner0, d, i, NDIRECT + 1);
    EmptiedIsCleared(ino0, i);
    ResizeKeeps(sb, d, c, w, i, 0);
  }

  lemma {:induction false} NoRefs(d: Disk, di: Dinode)
    requires di.size == 0 && forall l :: 0 <= l <= MAXFILE ==> Ref(d, di, l) == 0
    ensures FileOk(d, di)
  {
    hide Ref;
    assert Blocks(0) == 0;
  }

  lemma {:induction false} BitmapOnlyDinode(sb: Super, d: Disk, e: Disk, m: nat)
    requires OnlyBitmap(sb, d, e) && m < sb.ninodes
    ensures DinodeAt(sb, e, m) == DinodeAt(sb, d, m)
  {
    hide GetDinode;
    InodePlace(sb, m);
  }

  lemma {:induction false} SameByteOnlyBitmap(sb: Super, d0: Disk, ino0: seq<Dinode>, owner0: map<nat, Slot>, d: Disk,
                                              e: Disk, m: nat, j: nat)
    requires Inv(sb, d0, ino0, owner0) && OnlyBitmap(sb, d0, d) && m < |ino0| && j < MAXBYTES && |e| == |d|
    requires forall b :: sb.bmapstart <= b < sb.size ==> e[b] == d[b]
    requires Ref(e, ino0[m], j / BSIZE) == Ref(d0, ino0[m], j / BSIZE)
    ensures ByteAt(e, ino0[m], j) == ByteAt(d0, ino0[m], j)
  {
    hide Ref, Owned, BitmapIs;
    if Ref(d0, ino0[m], j / BSIZE) != 0 { RefOwner(sb, d0, ino0, owner0, m, j / BSIZE); }
  }

  /** The state after iupdate: at rest, the file empty, every other file as before. */
  lemma {:induction false} TruncateSettles(sb: Super, d0: Disk, ino0: seq<Dinode>, owner0: map<nat, Slot>, d: Disk,
                                           i: nat, e: Disk)
    requires AtRest(sb, d0, ino0, owner0) && Truncating(sb, d0, ino0, owner0, d, i, MAXFILE + 1)
    requires sb.IBlock(i) < |d| && e == d[sb.IBlock(i) := PutDinode(d[sb.IBlock(i)], i % IPB, Emptied(ino0, i)[i])]
    ensures AtRest(sb, e, Emptied(ino0, i), Without(owner0, i, MAXFILE + 1))
    ensures forall m :: 0 <= m < |ino0| && m != i ==> Contents(e, ino0[m]) == Contents(d0, ino0[m])
  {
    hide Ref, InUse, Owned, BitmapIs, PutDinode, ByteAt, DinodeAt;
    var ino, w := Emptied(ino0, i), Without(owner0, i, MAXFILE + 1);
    TruncateDone(sb, d0, ino0, owner0, d, i);
    UpdateInode(sb, d, ino, w, i, ino[i]);
    InvRange(sb, d, ino, w);
    forall m | 0 <= m < |ino| ensures DinodeAt(sb, e, m) == ino[m] {
      assert DinodeAt(sb, d0, m) == ino0[m];
      BitmapOnlyDinode(sb, d0, d, m);
    }
    forall m | 0 <= m < |ino| ensures FileOk(e, ino[m]) && (m != i ==> Contents(e, ino0[m]) == Contents(d0, ino0[m])) {
      assert FileOk(d0, ino0[m]);
      if m == i {
        NoRefs(e, ino[m]);
      } else {
        ExtentFrame(d0, ino0[m], e, ino[m], Blocks(ino0[m].size));
        forall j | 0 <= j < ino0[m].size ensures ByteAt(e, ino0[m], j) == ByteAt(d0, ino0[m], j) {
          SameByteOnlyBitmap(sb, d0, ino0, owner0, d, e, m, j);
        }
      }
    }
  }

  /** In terms of the bitmap alone: exactly the file's own blocks have been freed. */
  lemma {:induction false} FreedExactly(sb: Super, d0: Disk, ino0: seq<Dinode>, owner0: map<nat, Slot>, e: Disk,
                                        ino: seq<Dinode>, i: nat, b: nat)
    requires Inv(sb, d0, ino0, owner0) && Inv(sb, e, ino, Without(owner0, i, MAXFILE + 1)) && b < sb.size
    ensures InUse(sb, e, b) <==> InUse(sb, d0, b) && !(b in owner0 && owner0[b].inum == i)
  {
    hide InUse, Ref;
    if b in owner0 { OwnerRef(sb, d0, ino0, owner0, b); }
  }

  // ------------------------------------------------------------ what itrunc logs

  /** The bitmap blocks of the blocks that the first j references of a file name. */
  function FreedMaps(sb: Super, d: Disk, di: Dinode, j: nat): set<nat>
    requires j <= MAXFILE + 1
  {
    set k: nat | k < j && Ref(d, di, k) != 0 :: sb.BBlock(Ref(d, di, k))
  }

  lemma {:induction false} FreedMapsNext(sb: Super, d: Disk, di: Dinode, j: nat)
    requires j <= MAXFILE
    ensures FreedMaps(sb, d, di, 0) == {}
    ensures FreedMaps(sb, d, di, j + 1) ==
              FreedMaps(sb, d, di, j) + if Ref(d, di, j) != 0 then {sb.BBlock(Ref(d, di, j))} else {}
  {
    hide Ref;
    var next := FreedMaps(sb, d, di, j) + if Ref(d, di, j) != 0 then {sb.BBlock(Ref(d, di, j))} else {};
    forall x | x in next ensures x in FreedMaps(sb, d, di, j + 1) {
      if x !in FreedMaps(sb, d, di, j) {
        assert Ref(d, di, j) != 0 && x == sb.BBlock(Ref(d, di, j));
      }
    }
  }

  /** References that name no block add none. */
  lemma {:induction false} FreedMapsSkip(sb: Super, d: Disk, di: Dinode, j: nat, k: nat)
    requires j <= k <= MAXFILE + 1 && forall l :: j <= l < k ==> Ref(d, di, l) == 0
    ensures FreedMaps(sb, d, di, k) == FreedMaps(sb, d, di, j)
  {
    hide Ref;
  }

  /** The bitmap blocks that have bits of data blocks. */
  function DataMaps(sb: Super): set<nat>
    requires sb.Valid()
  {
    if sb.DataStart() == sb.size then {}
    else
      assert sb.DataStart() / BPB <= (sb.size - 1) / BPB;
      Interval(sb.BBlock(sb.DataStart()), sb.BBlock(sb.size - 1) + 1)
  }

  lemma {:induction false} DataMap(sb: Super, b: nat)
    requires sb.Valid() && sb.DataStart() <= b < sb.size
    ensures sb.BBlock(b) in DataMaps(sb) && sb.BBlock(b) >= sb.bmapstart
  {
    hide Interval;
    assert sb.DataStart() / BPB <= b / BPB <= (sb.size - 1) / BPB;
  }

  /** itrunc of file i logs one block more than there are bitmap blocks with a block of the file, so it keeps
      within its budget exactly if these are fewer than MAXOPBLOCKS. */
  lemma {:induction false} TruncateFits(sb: Super, d: Disk, ino: seq<Dinode>, owner: map<nat, Slot>, i: nat)
    requires Inv(sb, d, ino, owner) && i < |ino|
    ensures var maps := FreedMaps(sb, d, ino[i], MAXFILE + 1);
            && sb.IBlock(i) !in maps && |maps + {sb.IBlock(i)}| == |maps| + 1
            && (|maps + {sb.IBlock(i)}| <= MAXOPBLOCKS <==> |maps| < MAXOPBLOCKS)
            && |maps| <= |DataMaps(sb)|
  {
    hide Ref, InUse, Owned, BitmapIs, DataMaps;
    InvRange(sb, d, ino, owner);
    InodePlace(sb, i);
    var maps := FreedMaps(sb, d, ino[i], MAXFILE + 1);
    forall x | x in maps ensures x in DataMaps(sb) && x >= sb.bmapstart {
      var k: nat :| k < MAXFILE + 1 && Ref(d, ino[i], k) != 0 && x == sb.BBlock(Ref(d, ino[i], k));
      RefOwner(sb, d, ino, owner, i, k);
      DataMap(sb, Ref(d, ino[i], k));
    }
    SubsetSize(maps, DataMaps(sb));
  }
}
