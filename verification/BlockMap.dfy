/** What allocating, freeing and mapping one block does to the disk and to block ownership. */
module BlockMap {
  import opened Params
  import opened Block
  import opened Bitmap
  import opened Inode
  import opened FileSpec

  lemma {:induction false} DataBlockNoBitmap(sb: Super, d: Disk, r: nat, blk: Data, b: nat)
    requires sb.Valid() && |d| == sb.size && sb.DataStart() <= r < sb.size && b < sb.size
    ensures InUse(sb, d[r := blk], b) <==> InUse(sb, d, b)
  {
    hide Bit;
    BitmapPlace(sb, b);
  }

  /** Mark and zero: what balloc does to the disk once it has found a free block. */
  lemma {:induction false} AllocateOne(sb: Super, d: Disk, r: nat)
    requires sb.Valid() && |d| == sb.size && sb.DataStart() <= r < sb.size && !InUse(sb, d, r)
    ensures Allocated(sb, d, Mark(sb, d, r, true)[r := Zeroes()], r)
  {
    hide InUse, Mark;
    var m := Mark(sb, d, r, true);
    var e := m[r := Zeroes()];
    forall b | 0 <= b < sb.size
      ensures InUse(sb, e, b) <==> b == r || InUse(sb, d, b)
      ensures b != r && b != sb.BBlock(r) ==> e[b] == d[b]
    {
      MarkOne(sb, d, r, true, b);
      DataBlockNoBitmap(sb, m, r, Zeroes(), b);
    }
  }

  lemma {:induction false} FreeIsData(sb: Super, d: Disk, ino: seq<Dinode>, owner: map<nat, Slot>, b: nat)
    requires Inv(sb, d, ino, owner) && b < sb.size && !InUse(sb, d, b)
    ensures sb.DataStart() <= b
  {
    hide InUse, Owned;
  }

  /** No block is free. */
  ghost predicate Full(sb: Super, d: Disk) {
    sb.Valid() && |d| == sb.size && forall b :: 0 <= b < sb.size ==> InUse(sb, d, b)
  }

  /** Every block below n is in use. */
  ghost predicate UsedBelow(sb: Super, d: Disk, n: nat) {
    sb.Valid() && |d| == sb.size && forall b :: 0 <= b < n && b < sb.size ==> InUse(sb, d, b)
  }

  lemma {:induction false} UsedNone(sb: Super, d: Disk)
    requires sb.Valid() && |d| == sb.size
    ensures UsedBelow(sb, d, 0)
  {
    hide InUse;
  }

  lemma {:induction false} UsedNext(sb: Super, d: Disk, n: nat)
    requires UsedBelow(sb, d, n)
    ensures n >= sb.size ==> Full(sb, d)
    ensures n < sb.size && InUse(sb, d, n) ==> UsedBelow(sb, d, n + 1)
  {
    hide InUse;
  }

  /** `e` is `d` with the bit of block b cleared. */
  ghost predicate Freed(sb: Super, d: Disk, e: Disk, b: nat) {
    && sb.Valid() && |d| == |e| == sb.size && b < sb.size
    && (forall x :: 0 <= x < sb.size ==> (InUse(sb, e, x) <==> x != b && InUse(sb, d, x)))
    && (forall x :: 0 <= x < sb.size && x != sb.BBlock(b) ==> e[x] == d[x])
  }

  lemma {:induction false} FreeOne(sb: Super, d: Disk, b: nat)
    requires sb.Valid() && |d| == sb.size && b < sb.size
    ensures Freed(sb, d, Mark(sb, d, b, false), b)
  {
    hide InUse, Mark;
    forall x | 0 <= x < sb.size
      ensures InUse(sb, Mark(sb, d, b, false), x) <==> x != b && InUse(sb, d, x)
      ensures x != sb.BBlock(b) ==> Mark(sb, d, b, false)[x] == d[x]
    {
      MarkOne(sb, d, b, false, x);
    }
  }

  /** The bit that balloc's cursor (b, bi) points at, and the block it stores after setting it. */
  lemma {:induction false} Cursor(sb: Super, d: Disk, b: nat, bi: nat)
    requires sb.Valid() && |d| == sb.size && b % BPB == 0 && bi < BPB && b + bi < sb.size
    ensures sb.BBlock(b) == sb.BBlock(b + bi) < sb.DataStart()
    ensures var bp := d[sb.BBlock(b)];
            && (InUse(sb, d, b + bi) <==> Bit(bp[bi / 8], bi % 8))
            && Mark(sb, d, b + bi, true) == d[sb.BBlock(b) := bp[bi / 8 := ByteWithBit(bp[bi / 8], bi % 8, true)]]
  {
    hide Bit, ByteWithBit;
    BitmapPlace(sb, b + bi);
    assert (b + bi) / BPB == b / BPB && (b + bi) % BPB == bi;
  }

  /** No file but i notices: their references stand, no block changes owner, and every owned block
      but i's indirect block keeps its contents, as do the inode blocks. */
  ghost predicate Untouched(sb: Super, d: Disk, ino: seq<Dinode>, owner: map<nat, Slot>, d': Disk,
                            owner': map<nat, Slot>, i: nat)
    requires |d'| == |d| == sb.size && forall b :: b in owner ==> b < sb.size
    requires sb.Valid()
  {
    && (forall m, l :: 0 <= m < |ino| && m != i && 0 <= l <= MAXFILE ==> Ref(d', ino[m], l) == Ref(d, ino[m], l))
    && (forall b :: b in owner ==> b in owner' && owner'[b] == owner[b])
    && (forall b :: b in owner && owner[b] != Slot(i, MAXFILE) ==> d'[b] == d[b])
    && (forall b :: 0 <= b < sb.bmapstart ==> d'[b] == d[b])
  }

  /** Reference bn of the inode is addr afterwards, and every other data reference is as before. */
  ghost predicate RefSet(d: Disk, di: Dinode, d': Disk, di': Dinode, bn: nat, addr: Word) {
    && bn < MAXFILE && addr != 0
    && di' == di.(addrs := di'.addrs)
    && Ref(d', di', bn) == addr
    && (forall l :: 0 <= l < MAXFILE && l != bn ==> Ref(d', di', l) == Ref(d, di, l))
    && (Ref(d', di', MAXFILE) == 0 <==> Ref(d, di, MAXFILE) == 0 && bn < NDIRECT)
    && (Ref(d, di, MAXFILE) != 0 ==> Ref(d', di', MAXFILE) == Ref(d, di, MAXFILE))
  }

  lemma {:induction false} AddrUntouched(sb: Super, d: Disk, e: Disk, r: Word, ino: seq<Dinode>,
                                         owner: map<nat, Slot>, i: nat, k: nat)
    requires Inv(sb, d, ino, owner) && Allocated(sb, d, e, r)
    ensures |e| == |d| == sb.size && sb.Valid() && (forall b :: b in owner ==> b < sb.size)
    ensures r !in owner && Untouched(sb, d, ino, owner, e, owner[r := Slot(i, k)], i)
  {
    hide InUse, Ref;
    BitmapPlace(sb, r);
    FreshBlock(sb, d, e, r, ino, owner);
  }

  lemma {:induction false} EntryUntouched(sb: Super, d: Disk, e: Disk, r: Word, ino: seq<Dinode>,
                                          owner: map<nat, Slot>, i: nat, k: nat)
    requires Inv(sb, d, ino, owner) && Allocated(sb, d, e, r)
    requires i < |ino| && NDIRECT <= k < MAXFILE
    requires ino[i].addrs[NDIRECT] != 0 && ino[i].addrs[NDIRECT] < |e|
    ensures var x := ino[i].addrs[NDIRECT];
            r !in owner && Untouched(sb, d, ino, owner, e[x := PutWord(e[x], k - NDIRECT, r)],
                                     owner[r := Slot(i, k)], i)
  {
    hide InUse, GetWord, PutWord;
    var x := Ref(d, ino[i], MAXFILE);
    var f := e[x := PutWord(e[x], k - NDIRECT, r)];
    BitmapPlace(sb, r);
    FreshBlock(sb, d, e, r, ino, owner);
    RefOwner(sb, d, ino, owner, i, MAXFILE);
    OtherRefs(sb, e, f, x, ino, owner, i);
  }

  lemma {:induction false} UntouchedTrans(sb: Super, d: Disk, ino: seq<Dinode>, owner: map<nat, Slot>,
                                          d1: Disk, ino1: seq<Dinode>, owner1: map<nat, Slot>, d2: Disk,
                                          owner2: map<nat, Slot>, i: nat)
    requires sb.Valid() && |d| == |d1| == |d2| == sb.size
    requires forall b :: b in owner ==> b < sb.size
    requires forall b :: b in owner1 ==> b < sb.size
    requires i < |ino| == |ino1| && ino1 == ino[i := ino1[i]]
    requires Untouched(sb, d, ino, owner, d1, owner1, i) && Untouched(sb, d1, ino1, owner1, d2, owner2, i)
    ensures Untouched(sb, d, ino, owner, d2, owner2, i)
  {
    hide Ref;
    forall m, l | 0 <= m < |ino| && m != i && 0 <= l <= MAXFILE ensures Ref(d2, ino[m], l) == Ref(d, ino[m], l) {
      assert Ref(d2, ino1[m], l) == Ref(d1, ino1[m], l);
    }
  }

  lemma {:induction false} UntouchedSelf(sb: Super, d: Disk, ino: seq<Dinode>, owner: map<nat, Slot>, i: nat)
    requires Inv(sb, d, ino, owner)
    ensures Untouched(sb, d, ino, owner, d, owner, i)
  {
  }

  lemma {:induction false} UntouchedOwner(sb: Super, d: Disk, ino: seq<Dinode>, owner: map<nat, Slot>, d': Disk,
                                          owner': map<nat, Slot>, i: nat)
    requires sb.Valid() && |d'| == |d| == sb.size && forall b :: b in owner ==> b < sb.size
    requires Untouched(sb, d, ino, owner, d', owner', i)
    ensures owner.Keys <= owner'.Keys
  {
  }

  lemma {:induction false} InvRange(sb: Super, d: Disk, ino: seq<Dinode>, owner: map<nat, Slot>)
    requires Inv(sb, d, ino, owner)
    ensures sb.Valid() && |d| == sb.size && |ino| == sb.ninodes && 0 !in owner
    ensures forall b :: b in owner ==> sb.DataStart() <= b < sb.size
  {
  }

  /** Ref, one case per kind of reference. */
  lemma {:induction false} RefCases(d: Disk, di: Dinode, k: nat)
    requires k < MAXFILE
    ensures k < NDIRECT ==> Ref(d, di, k) == di.addrs[k]
    ensures Ref(d, di, MAXFILE) == di.addrs[NDIRECT]
    ensures NDIRECT <= k && di.addrs[NDIRECT] == 0 ==> Ref(d, di, k) == 0
  {
  }

  /** An entry of the indirect block, as bmap reads it. */
  lemma {:induction false} IndirectBlock(sb: Super, d: Disk, ino: seq<Dinode>, owner: map<nat, Slot>, i: nat, bn: nat)
    requires Inv(sb, d, ino, owner) && i < |ino| && NDIRECT <= bn < MAXFILE && ino[i].addrs[NDIRECT] != 0
    ensures 0 !in owner && sb.Valid() && |d| == sb.size
    ensures var x := ino[i].addrs[NDIRECT];
              x < |d| && Ref(d, ino[i], bn) == GetWord(d[x], bn - NDIRECT) && Ref(d, ino[i], MAXFILE) == x
  {
    hide GetWord, BitmapIs;
    RefOwner(sb, d, ino, owner, i, MAXFILE);
    InvRange(sb, d, ino, owner);
  }

  /** The blocks bmap may log when it allocates block addr at index bn. */
  function MapLog(sb: Super, di: Dinode, di': Dinode, bn: nat, addr: Word): set<nat> {
    var x := di'.addrs[NDIRECT];
    {addr, sb.BBlock(addr)} + (if bn < NDIRECT then {} else {x})
      + (if x == di.addrs[NDIRECT] then {} else {sb.BBlock(x)})
  }

  lemma {:induction false} MapLogHas(sb: Super, di: Dinode, di': Dinode, bn: nat, addr: Word)
    ensures addr in MapLog(sb, di, di', bn, addr)
  {
  }
}
