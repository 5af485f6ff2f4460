/** How many blocks are free, and how many a file takes. */
module BlockCount {
  import opened Params
  import opened Block
  import opened Bitmap
  import opened Inode
  import opened FileSpec
  import opened BlockMap
  import opened Sequences

  function FreeBlocks(sb: Super, d: Disk): set<nat>
    requires sb.Valid() && |d| == sb.size
  {
    set b: nat | b < sb.size && !InUse(sb, d, b)
  }

  lemma {:induction false} DisjointSizes(a: set<nat>, b: set<nat>, c: set<nat>)
    requires a !! b && a !! c && b !! c
    ensures |a + b + c| == |a| + |b| + |c|
  {
    assert (a + b) !! c;
  }

  lemma {:induction false} Partition(free: set<nat>, used: set<nat>, lo: nat, n: nat)
    requires lo <= n && forall b :: b in used ==> lo <= b < n
    requires forall b: nat :: b in free <==> lo <= b < n && b !in used
    ensures |free| + |used| + lo == n
  {
    hide Interval;
    assert free + used + Interval(0, lo) == Interval(0, n);
    DisjointSizes(free, used, Interval(0, lo));
  }

  lemma {:induction false} FreeIff(sb: Super, d: Disk, ino: seq<Dinode>, owner: map<nat, Slot>, b: nat)
    requires Inv(sb, d, ino, owner)
    ensures b in FreeBlocks(sb, d) <==> sb.DataStart() <= b < sb.size && b !in owner
  {
    hide InUse, Owned;
    if b < sb.size {
      assert InUse(sb, d, b) <==> b < sb.DataStart() || b in owner;
    }
  }

  /** Free, owned and metadata blocks always add up to the whole disk. */
  lemma {:induction false} Conservation(sb: Super, d: Disk, ino: seq<Dinode>, owner: map<nat, Slot>)
    requires Inv(sb, d, ino, owner)
    ensures |FreeBlocks(sb, d)| + |owner| + sb.DataStart() == sb.size
  {
    hide Inv, FreeBlocks;
    InvRange(sb, d, ino, owner);
    forall b: nat ensures b in FreeBlocks(sb, d) <==> sb.DataStart() <= b < sb.size && b !in owner {
      FreeIff(sb, d, ino, owner, b);
    }
    Partition(FreeBlocks(sb, d), owner.Keys, sb.DataStart(), sb.size);
    assert |owner.Keys| == |owner|;
  }

  /** The blocks that are neither metadata nor owned: by Conservation the free ones. */
  function Free(sb: Super, owner: map<nat, Slot>): int {
    sb.size - sb.DataStart() - |owner|
  }

  lemma {:induction false} FullIff(sb: Super, d: Disk, ino: seq<Dinode>, owner: map<nat, Slot>)
    requires Inv(sb, d, ino, owner)
    ensures sb.Valid() && |d| == sb.size && |FreeBlocks(sb, d)| == Free(sb, owner)
    ensures Full(sb, d) <==> Free(sb, owner) == 0
  {
    hide Inv, InUse;
    InvRange(sb, d, ino, owner);
    Conservation(sb, d, ino, owner);
    if Full(sb, d) {
      assert FreeBlocks(sb, d) == {};
    } else {
      var b :| 0 <= b < sb.size && !InUse(sb, d, b);
      assert b in FreeBlocks(sb, d);
    }
  }

  lemma {:induction false} NotFull(sb: Super, d: Disk, b: nat)
    requires sb.Valid() && |d| == sb.size && b < sb.size && !InUse(sb, d, b)
    ensures !Full(sb, d)
  {
    hide InUse;
  }

  lemma {:induction false} AtRestFree(sb: Super, d: Disk, ino: seq<Dinode>, owner: map<nat, Slot>)
    requires AtRest(sb, d, ino, owner)
    ensures sb.Valid() && |d| == sb.size && Free(sb, owner) == |FreeBlocks(sb, d)|
  {
    hide AtRest, Inv, FreeBlocks;
    AtRestInv(sb, d, ino, owner);
    FullIff(sb, d, ino, owner);
  }

  /** The blocks that a file of nb data blocks owns. */
  function Footprint(nb: nat): nat {
    nb + if nb > NDIRECT then 1 else 0
  }

  /** The blocks by which a file of `size` bytes grows when bytes up to `end` are written. */
  function NewBlocks(size: nat, end: nat): int {
    Footprint(Max(Blocks(size), Blocks(end))) - Footprint(Blocks(size))
  }

  lemma {:induction false} NewBlocksMonotone(size: nat, e1: nat, e2: nat)
    requires e1 <= e2
    ensures 0 <= NewBlocks(size, e1) <= NewBlocks(size, e2)
    ensures NewBlocks(size, size) == 0
  {
    assert Blocks(e1) <= Blocks(e2);
  }

  /** Writing on from the new size. */
  lemma {:induction false} NewBlocksMore(size: nat, e1: nat, e2: nat)
    requires e1 <= e2
    ensures NewBlocks(size, e2) == NewBlocks(size, e1) + NewBlocks(Max(size, e1), e2)
  {
    assert Blocks(e1) <= Blocks(e2);
    assert Blocks(Max(size, e1)) == Max(Blocks(size), Blocks(e1));
  }

  /** The blocks that bmap allocates for block bn of a file: none if it is there, else itself and the
      indirect block if that is missing. */
  function MapCost(d: Disk, di: Dinode, bn: nat): nat
    requires bn < MAXFILE
  {
    if Ref(d, di, bn) != 0 then 0
    else 1 + if bn >= NDIRECT && Ref(d, di, MAXFILE) == 0 then 1 else 0
  }

  lemma {:induction false} MapCosts(d: Disk, di: Dinode, bn: nat)
    requires bn < MAXFILE
    ensures MapCost(d, di, bn) == if Ref(d, di, bn) != 0 then 0
                                  else if bn >= NDIRECT && di.addrs[NDIRECT] == 0 then 2 else 1
  {
  }

  lemma {:induction false} EndArithmetic(size: nat, cur: nat, m: nat)
    requires 0 < m <= BSIZE - cur % BSIZE && cur + m <= MAXBYTES
    requires cur <= size || cur % BSIZE == 0
    ensures cur / BSIZE < MAXFILE && Blocks(cur + m) == cur / BSIZE + 1
    ensures Blocks(cur) <= Blocks(cur + m) && cur / BSIZE <= Max(Blocks(size), Blocks(cur))
  {
    assert cur == cur / BSIZE * BSIZE + cur % BSIZE;
  }

  /** At the end of a file without holes that is what the file grows by. */
  lemma {:induction false} CostAtEnd(d: Disk, di: Dinode, size: nat, cur: nat, m: nat)
    requires 0 < m <= BSIZE - cur % BSIZE && cur + m <= MAXBYTES
    requires cur <= size || cur % BSIZE == 0
    requires Extent(d, di, Max(Blocks(size), Blocks(cur)))
    ensures cur / BSIZE < MAXFILE
    ensures MapCost(d, di, cur / BSIZE) == NewBlocks(size, cur + m) - NewBlocks(size, cur)
  {
    hide Ref;
    var bn, nb := cur / BSIZE, Max(Blocks(size), Blocks(cur));
    EndArithmetic(size, cur, m);
    assert Ref(d, di, bn) != 0 <==> bn < nb;
    assert Ref(d, di, MAXFILE) != 0 <==> nb > NDIRECT;
  }
}
