/** When truncating a file can log more than an operation may: on disks whose data blocks have bits in
    MAXOPBLOCKS bitmap blocks or more. */
module TruncateBudget {
  import opened Params
  import opened Block
  import opened Bitmap
  import opened Inode
  import opened FileSpec
  import opened BlockMap
  import opened Sequences
  import opened Truncate
  import opened FileWriteSpec
  import opened Mkfs

  /** There are MAXOPBLOCKS bitmap blocks with bits of data blocks. */
  predicate Wide(sb: Super)
    requires sb.Valid()
  {
    sb.DataStart() < sb.size && (sb.size - 1) / BPB - sb.DataStart() / BPB + 1 >= MAXOPBLOCKS
  }

  /** Truncating file i of this file system at rest exceeds the budget. */
  ghost predicate OverBudget(sb: Super, d: Disk, ino: seq<Dinode>, owner: map<nat, Slot>, i: nat) {
    && AtRest(sb, d, ino, owner) && i < |ino|
    && |FreedMaps(sb, d, ino[i], MAXFILE + 1) + {sb.IBlock(i)}| > MAXOPBLOCKS
  }

  // ------------------------------------------------------------ a file spread over the disk

  /** The first data block with its bit in the k-th of these bitmap blocks. */
  function Spot(sb: Super, k: nat): nat
    requires sb.Valid()
  {
    if k == 0 then sb.DataStart() else (sb.DataStart() / BPB + k) * BPB
  }

  lemma {:induction false} SpotAt(sb: Super, k: nat)
    requires sb.Valid() && Wide(sb) && k < MAXOPBLOCKS
    ensures sb.DataStart() <= Spot(sb, k) < sb.size
    ensures Spot(sb, k) / BPB == sb.DataStart() / BPB + k && Spot(sb, k) > 0
  {
    var g, last := sb.DataStart() / BPB, (sb.size - 1) / BPB;
    assert g * BPB <= sb.DataStart() < g * BPB + BPB;
    assert last * BPB <= sb.size - 1;
    assert (g + k) * BPB == g * BPB + k * BPB;
  }

  /** Ten data blocks, one for each of ten bitmap blocks. */
  function SpreadInode(sb: Super): (di: Dinode)
    requires sb.Valid() && Wide(sb)
    ensures di.size == MAXOPBLOCKS * BSIZE && di.addrs[NDIRECT] == 0
    ensures forall k :: 0 <= k < NDIRECT ==> di.addrs[k] == if k < MAXOPBLOCKS then Spot(sb, k) else 0
  {
    assert forall k: nat :: k < MAXOPBLOCKS ==> Spot(sb, k) < WORD_RANGE by {
      forall k: nat | k < MAXOPBLOCKS ensures Spot(sb, k) < WORD_RANGE { SpotAt(sb, k); }
    }
    Dinode(2, 0, 0, 1, MAXOPBLOCKS * BSIZE,
           seq<Word>(NDIRECT + 1, k requires 0 <= k < NDIRECT + 1 => if k < MAXOPBLOCKS then Spot(sb, k) else 0))
  }

  function SpreadInodes(sb: Super): (ino: seq<Dinode>)
    requires sb.Valid() && Wide(sb) && sb.ninodes > 0
    ensures |ino| == sb.ninodes && ino[0] == SpreadInode(sb)
    ensures forall i :: 0 < i < |ino| ==> ino[i] == FreeInode()
  {
    FreeInodes(sb)[0 := SpreadInode(sb)]
  }

  /** The blank image with the bits of the first n of these blocks set. */
  function SpreadMarks(sb: Super, n: nat): (d: Disk)
    requires sb.Valid() && Wide(sb) && n <= MAXOPBLOCKS
    ensures |d| == sb.size
  {
    if n == 0 then Blank(sb)
    else
      SpotAt(sb, n - 1);
      Mark(sb, SpreadMarks(sb, n - 1), Spot(sb, n - 1), true)
  }

  lemma {:induction false} SpreadMarksAt(sb: Super, n: nat, x: nat)
    requires sb.Valid() && Wide(sb) && n <= MAXOPBLOCKS && x < sb.size
    ensures InUse(sb, SpreadMarks(sb, n), x) <==> x < sb.DataStart() || exists k: nat :: k < n && x == Spot(sb, k)
    ensures x < sb.bmapstart ==> SpreadMarks(sb, n)[x] == Zeroes()
  {
    hide InUse, Mark, Spot, Marked, Zeroes;
    if n == 0 {
      MarkedAt(sb, sb.DataStart(), x);
    } else {
      SpotAt(sb, n - 1);
      SpreadMarksAt(sb, n - 1, x);
      MarkOne(sb, SpreadMarks(sb, n - 1), Spot(sb, n - 1), true, x);
    }
  }

  function SpreadDisk(sb: Super): (d: Disk)
    requires sb.Valid() && Wide(sb) && sb.ninodes > 0
    ensures |d| == sb.size
  {
    var d := SpreadMarks(sb, MAXOPBLOCKS);
    d[sb.inodestart := PutDinode(d[sb.inodestart], 0, SpreadInode(sb))]
  }

  function SpreadOwner(sb: Super): map<nat, Slot>
    requires sb.Valid() && Wide(sb)
  {
    map k: nat | k < MAXOPBLOCKS :: Spot(sb, k) := Slot(0, k)
  }

  lemma {:induction false} SpotsDiffer(sb: Super, j: nat, k: nat)
    requires sb.Valid() && Wide(sb) && j < MAXOPBLOCKS && k < MAXOPBLOCKS && Spot(sb, j) == Spot(sb, k)
    ensures j == k
  {
    SpotAt(sb, j);
    SpotAt(sb, k);
  }

  lemma {:induction false} OwnerAt(sb: Super, b: nat)
    requires sb.Valid() && Wide(sb)
    ensures b in SpreadOwner(sb) <==> exists k: nat :: k < MAXOPBLOCKS && b == Spot(sb, k)
    ensures forall k: nat :: k < MAXOPBLOCKS && b == Spot(sb, k) ==>
              b in SpreadOwner(sb) && SpreadOwner(sb)[b] == Slot(0, k)
  {
    hide Spot;
    forall k: nat | k < MAXOPBLOCKS && b == Spot(sb, k)
      ensures b in SpreadOwner(sb) && SpreadOwner(sb)[b] == Slot(0, k)
    {
      var j := SpreadOwner(sb)[b].k;
      SpotsDiffer(sb, j, k);
    }
  }

  lemma {:induction false} SpreadRefs(sb: Super, d: Disk, k: nat)
    requires sb.Valid() && Wide(sb) && k <= MAXFILE
    ensures Ref(d, SpreadInode(sb), k) == if k < MAXOPBLOCKS then Spot(sb, k) else 0
  {
  }

  lemma {:induction false} SpreadOwned(sb: Super, d: Disk)
    requires sb.Valid() && Wide(sb) && sb.ninodes > 0 && |d| == sb.size
    ensures Owned(sb, d, SpreadInodes(sb), SpreadOwner(sb))
  {
    hide Ref, Spot, SpreadInode, SpreadOwner;
    var ino, owner := SpreadInodes(sb), SpreadOwner(sb);
    forall i, k | 0 <= i < |ino| && 0 <= k <= MAXFILE ensures Claimed(d, ino, owner, i, k) {
      FreeRefs(d, k);
      SpreadRefs(sb, d, k);
      if k < MAXOPBLOCKS { OwnerAt(sb, Spot(sb, k)); }
    }
    forall b | b in owner ensures OwnedBy(sb, d, ino, owner, b) {
      OwnerAt(sb, b);
      var k: nat :| k < MAXOPBLOCKS && b == Spot(sb, k);
      SpotAt(sb, k);
      SpreadRefs(sb, d, k);
    }
  }

  lemma {:induction false} InodeNoBitmap(sb: Super, d: Disk, blk: Data, b: nat)
    requires sb.Valid() && |d| == sb.size && b < sb.size
    ensures InUse(sb, d[sb.inodestart := blk], b) <==> InUse(sb, d, b)
  {
    hide Bit;
    BitmapPlace(sb, b);
  }

  lemma {:induction false} SpreadBitmap(sb: Super)
    requires sb.Valid() && Wide(sb) && sb.ninodes > 0
    ensures BitmapIs(sb, SpreadDisk(sb), SpreadOwner(sb).Keys)
  {
    hide InUse, Spot, SpreadMarks, PutDinode, SpreadInode, SpreadOwner;
    var d := SpreadMarks(sb, MAXOPBLOCKS);
    forall b | 0 <= b < sb.size
      ensures InUse(sb, SpreadDisk(sb), b) <==> b < sb.DataStart() || b in SpreadOwner(sb).Keys
    {
      SpreadMarksAt(sb, MAXOPBLOCKS, b);
      OwnerAt(sb, b);
      InodeNoBitmap(sb, d, PutDinode(d[sb.inodestart], 0, SpreadInode(sb)), b);
    }
  }

  lemma {:induction false} SpreadStored(sb: Super, i: nat)
    requires sb.Valid() && Wide(sb) && i < sb.ninodes
    ensures DinodeAt(sb, SpreadDisk(sb), i) == SpreadInodes(sb)[i]
  {
    hide GetDinode, PutDinode, SpreadInode, SpreadMarks, Zeroes;
    InodePlace(sb, i);
    SpreadMarksAt(sb, MAXOPBLOCKS, sb.IBlock(i));
    SpreadMarksAt(sb, MAXOPBLOCKS, sb.inodestart);
    ZeroInode(i % IPB);
    DinodeRoundTrip(Zeroes(), 0, SpreadInode(sb), i % IPB);
  }

  /** It is a file system at rest. */
  lemma {:induction false} SpreadAtRest(sb: Super)
    requires sb.Valid() && Wide(sb) && sb.ninodes > 0
    ensures AtRest(sb, SpreadDisk(sb), SpreadInodes(sb), SpreadOwner(sb))
  {
    hide Owned, BitmapIs, SpreadDisk, SpreadInode, SpreadOwner, DinodeAt, Ref;
    var d, ino := SpreadDisk(sb), SpreadInodes(sb);
    SpreadOwned(sb, d);
    SpreadBitmap(sb);
    forall i | 0 <= i < |ino| ensures FileOk(d, ino[i]) && DinodeAt(sb, d, i) == ino[i] {
      SpreadStored(sb, i);
      forall k | 0 <= k <= MAXFILE
        ensures Ref(d, ino[i], k) != 0 <==> i == 0 && k < MAXOPBLOCKS
      {
        FreeRefs(d, k);
        SpreadRefs(sb, d, k);
        if k < MAXOPBLOCKS { SpotAt(sb, k); }
      }
    }
  }

  lemma {:induction false} SpreadMaps(sb: Super, d: Disk)
    requires sb.Valid() && Wide(sb)
    ensures |FreedMaps(sb, d, SpreadInode(sb), MAXFILE + 1)| >= MAXOPBLOCKS
  {
    hide Ref, Spot;
    var g := sb.BBlock(sb.DataStart());
    var maps := FreedMaps(sb, d, SpreadInode(sb), MAXFILE + 1);
    forall x | x in Interval(g, g + MAXOPBLOCKS) ensures x in maps {
      var k := x - g;
      SpotAt(sb, k);
      SpreadRefs(sb, d, k);
      assert Ref(d, SpreadInode(sb), k) != 0 && x == sb.BBlock(Ref(d, SpreadInode(sb), k));
    }
    SubsetSize(Interval(g, g + MAXOPBLOCKS), maps);
  }

  /** A file whose truncation exceeds the budget is possible exactly on the disks whose data blocks have bits in
      MAXOPBLOCKS bitmap blocks or more (and that have an inode): FSSIZE blocks have bits in one. */
  lemma {:induction false} TruncateExceeds(sb: Super)
    requires sb.Valid()
    ensures (exists d, ino, owner, i :: OverBudget(sb, d, ino, owner, i)) <==> Wide(sb) && sb.ninodes > 0
  {
    hide AtRest, FreedMaps, SpreadDisk, SpreadInode, SpreadOwner;
    if d, ino, owner, i :| OverBudget(sb, d, ino, owner, i) {
      AtRestInv(sb, d, ino, owner);
      TruncateFits(sb, d, ino, owner, i);
    }
    if Wide(sb) && sb.ninodes > 0 {
      var d, ino, owner := SpreadDisk(sb), SpreadInodes(sb), SpreadOwner(sb);
      SpreadAtRest(sb);
      AtRestInv(sb, d, ino, owner);
      SpreadMaps(sb, d);
      TruncateFits(sb, d, ino, owner, 0);
      assert OverBudget(sb, d, ino, owner, 0);
    }
  }
}
