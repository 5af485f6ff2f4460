/** Files as byte sequences: what an inode's blocks spell, and how block-level changes act on it. */
module FileSpec {
  import opened Params
  import opened Block
  import opened Bitmap
  import opened Inode

  const MAXBYTES := MAXFILE * BSIZE

  function Blocks(n: nat): nat {
    (n + BSIZE - 1) / BSIZE
  }

  /** Byte j of the blocks of an inode; 0 where there is no block. */
  function ByteAt(d: Disk, di: Dinode, j: nat): Byte
    requires j < MAXBYTES
  {
    var b := Ref(d, di, j / BSIZE);
    if b == 0 || b >= |d| then 0 else d[b][j % BSIZE]
  }

  /** The file: its first size bytes. */
  function Contents(d: Disk, di: Dinode): (c: seq<Byte>)
    requires di.size <= MAXBYTES
    ensures |c| == di.size && forall j :: 0 <= j < |c| ==> c[j] == ByteAt(d, di, j)
  {
    seq<Byte>(di.size, j requires 0 <= j < di.size => ByteAt(d, di, j))
  }

  /** c with src written at off, growing it if need be. */
  function Splice(c: seq<Byte>, off: nat, src: seq<Byte>): (r: seq<Byte>)
    requires off <= |c|
    ensures |r| == Max(|c|, off + |src|)
  {
    c[..off] + src + (if off + |src| < |c| then c[off + |src|..] else [])
  }

  /** Exactly the first nb data blocks are there, and the indirect block iff one of them needs it. */
  ghost predicate Extent(d: Disk, di: Dinode, nb: nat) {
    && (forall k :: 0 <= k < MAXFILE ==> (Ref(d, di, k) != 0 <==> k < nb))
    && (Ref(d, di, MAXFILE) != 0 <==> nb > NDIRECT)
  }

  ghost predicate FileOk(d: Disk, di: Dinode) {
    di.size <= MAXBYTES && Extent(d, di, Blocks(di.size))
  }

  /** A file system at rest: blocks owned once and marked, files without holes or excess blocks,
      and the inode cache written through to disk. */
  ghost predicate AtRest(sb: Super, d: Disk, ino: seq<Dinode>, owner: map<nat, Slot>) {
    && Inv(sb, d, ino, owner)
    && (forall i :: 0 <= i < |ino| ==> FileOk(d, ino[i]))
    && (forall i :: 0 <= i < |ino| ==> DinodeAt(sb, d, i) == ino[i])
  }

  lemma {:induction false} AtRestBasics(sb: Super, d: Disk, ino: seq<Dinode>, owner: map<nat, Slot>)
    requires AtRest(sb, d, ino, owner)
    ensures sb.Valid() && |d| == sb.size && |ino| == sb.ninodes
    ensures forall i :: 0 <= i < |ino| ==> ino[i].size <= MAXBYTES
  {
    hide Extent, InUse, Ref, DinodeAt;
    forall i | 0 <= i < |ino| ensures ino[i].size <= MAXBYTES {
      assert FileOk(d, ino[i]);
    }
  }

  lemma {:induction false} AtRestInv(sb: Super, d: Disk, ino: seq<Dinode>, owner: map<nat, Slot>)
    requires AtRest(sb, d, ino, owner)
    ensures Inv(sb, d, ino, owner)
    ensures sb.Valid() && |d| == sb.size && |ino| == sb.ninodes
  {
  }

  /** `chunk` in place of the bytes of a block from position at on. */
  function Patch(blk: Data, at: nat, chunk: seq<Byte>): (r: Data)
    requires at + |chunk| <= BSIZE
    ensures forall j :: 0 <= j < BSIZE ==> r[j] == if at <= j < at + |chunk| then chunk[j - at] else blk[j]
  {
    blk[..at] + chunk + blk[at + |chunk|..]
  }

  /** Rewriting one data block of one file keeps all references and changes no byte elsewhere. */
  lemma {:induction false} PatchBlock(sb: Super, d: Disk, ino: seq<Dinode>, owner: map<nat, Slot>, i: nat, bn: nat,
                                      blk: Data)
    requires Inv(sb, d, ino, owner) && i < |ino| && bn < MAXFILE && Ref(d, ino[i], bn) != 0
    ensures Ref(d, ino[i], bn) < |d|
    ensures var e := d[Ref(d, ino[i], bn) := blk];
            && Inv(sb, e, ino, owner)
            && (forall m, l :: 0 <= m < |ino| && 0 <= l <= MAXFILE ==> Ref(e, ino[m], l) == Ref(d, ino[m], l))
  {
    hide GetWord, InUse;
    RefOwner(sb, d, ino, owner, i, bn);
    var b := Ref(d, ino[i], bn);
    var e := d[b := blk];
    forall m, l | 0 <= m < |ino| && 0 <= l <= MAXFILE ensures Ref(e, ino[m], l) == Ref(d, ino[m], l) {
      assert Claimed(d, ino, owner, m, MAXFILE);
    }
    SameRefs(sb, d, ino, e, ino, owner);
    BitmapFrame(sb, d, e, owner.Keys);
  }

  lemma {:induction false} PatchBytes(sb: Super, d: Disk, ino: seq<Dinode>, owner: map<nat, Slot>, i: nat, bn: nat,
                                      blk: Data, j: nat)
    requires Inv(sb, d, ino, owner) && i < |ino| && bn < MAXFILE && Ref(d, ino[i], bn) != 0
    requires j < MAXBYTES
    ensures Ref(d, ino[i], bn) < |d|
    ensures ByteAt(d[Ref(d, ino[i], bn) := blk], ino[i], j) == if j / BSIZE == bn then blk[j % BSIZE]
              else ByteAt(d, ino[i], j)
  {
    PatchBlock(sb, d, ino, owner, i, bn, blk);
    hide Ref, InUse;
    var k := j / BSIZE;
    assert k < MAXFILE;
    RefOwner(sb, d, ino, owner, i, bn);
    if k != bn && Ref(d, ino[i], k) != 0 {
      RefOwner(sb, d, ino, owner, i, k);
    }
  }
}
