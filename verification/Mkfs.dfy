/** mkfs.c: a disk image without files is a file system at rest. */
module Mkfs {
  import opened Params
  import opened Block
  import opened Bitmap
  import opened Inode
  import opened FileSpec

  /** Every sector zeroed, then the bits of the first n blocks set one by one. */
  function Marked(sb: Super, n: nat): (d: Disk)
    requires sb.Valid() && n <= sb.size
    ensures |d| == sb.size
  {
    if n == 0 then seq<Data>(sb.size, _ => Zeroes()) else Mark(sb, Marked(sb, n - 1), n - 1, true)
  }

  function Blank(sb: Super): Disk
    requires sb.Valid()
  {
    Marked(sb, sb.DataStart())
  }

  /** An inode that a zeroed sector holds. */
  function FreeInode(): Dinode {
    Dinode(0, 0, 0, 0, 0, seq<Word>(NDIRECT + 1, _ => 0))
  }

  function FreeInodes(sb: Super): (ino: seq<Dinode>)
    ensures |ino| == sb.ninodes && forall i :: 0 <= i < |ino| ==> ino[i] == FreeInode()
  {
    seq<Dinode>(sb.ninodes, _ => FreeInode())
  }

  lemma {:induction false} ZeroBit(k: nat)
    ensures !Bit(0, k)
  {
    if k > 0 { ZeroBit(k - 1); }
  }

  lemma {:induction false} MarkedAt(sb: Super, n: nat, x: nat)
    requires sb.Valid() && n <= sb.size && x < sb.size
    ensures InUse(sb, Marked(sb, n), x) <==> x < n
    ensures x < sb.bmapstart ==> Marked(sb, n)[x] == Zeroes()
  {
    hide Bit, Mark, Zeroes;
    if n == 0 {
      BitmapPlace(sb, x);
      ZeroBit(x % BPB % 8);
    } else {
      MarkedAt(sb, n - 1, x);
      MarkOne(sb, Marked(sb, n - 1), n - 1, true, x);
    }
  }

  lemma {:induction false} ZeroInode(slot: nat)
    requires slot < IPB
    ensures GetDinode(Zeroes(), slot) == FreeInode()
  {
    hide GetWord;
    var base := INODE_WORDS * slot;
    forall j | 0 <= j < WORDS ensures GetWord(Zeroes(), j) == 0 {
      ZeroWord(j);
    }
    assert GetWords(Zeroes(), base + 3, NDIRECT + 1) == FreeInode().addrs;
  }

  lemma {:induction false} FreeRefs(d: Disk, k: nat)
    requires k <= MAXFILE
    ensures Ref(d, FreeInode(), k) == 0
  {
  }

  /** For every layout of the disk, an image without files is at rest: no operation's requirement is empty. */
  lemma {:induction false} BlankAtRest(sb: Super)
    requires sb.Valid()
    ensures AtRest(sb, Blank(sb), FreeInodes(sb), map[])
  {
    hide InUse, Marked, GetDinode, Ref;
    var d, ino := Blank(sb), FreeInodes(sb);
    forall k | 0 <= k <= MAXFILE ensures Ref(d, FreeInode(), k) == 0 {
      FreeRefs(d, k);
    }
    forall b | 0 <= b < sb.size ensures InUse(sb, d, b) <==> b < sb.DataStart() {
      MarkedAt(sb, sb.DataStart(), b);
    }
    forall i | 0 <= i < |ino| ensures DinodeAt(sb, d, i) == ino[i] {
      MarkedAt(sb, sb.DataStart(), sb.IBlock(i));
      ZeroInode(i % IPB);
    }
  }
}
