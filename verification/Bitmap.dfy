/** The free-block bitmap: one bit per disk block, set while the block is in use. */
module Bitmap {
  import opened Params
  import opened Block

  const BPB := BSIZE * 8
  const IPB := 8

  /** The superblock fields that place the parts of the disk. */
  datatype Super = Super(size: nat, ninodes: nat, inodestart: nat, bmapstart: nat) {
    /** The first block after boot block, superblock, log, inodes and bitmap. */
    function DataStart(): nat {
      bmapstart + size / BPB + 1
    }

    predicate Valid() {
      && 2 <= inodestart
      && inodestart + ninodes / IPB + 1 <= bmapstart
      && DataStart() <= size < WORD_RANGE
    }

    function BBlock(b: nat): nat {
      b / BPB + bmapstart
    }

    function IBlock(inum: nat): nat {
      inum / IPB + inodestart
    }
  }

  type Disk = seq<Data>

  function Pow2(k: nat): nat {
    if k == 0 then 1 else 2 * Pow2(k - 1)
  }

  /** (v & 1 << k) != 0 */
  predicate Bit(v: nat, k: nat) {
    if k == 0 then v % 2 == 1 else Bit(v / 2, k - 1)
  }

  /** v | 1 << k when `on`, v & ~(1 << k) otherwise */
  function WithBit(v: nat, k: nat, on: bool): nat {
    if k == 0 then v - v % 2 + (if on then 1 else 0) else 2 * WithBit(v / 2, k - 1, on) + v % 2
  }

  /** Setting or clearing bit k changes that bit and no other. */
  lemma {:induction false} WithBitAt(v: nat, k: nat, on: bool, j: nat)
    ensures Bit(WithBit(v, k, on), j) <==> if j == k then on else Bit(v, j)
  {
    if k > 0 && j > 0 {
      WithBitAt(v / 2, k - 1, on, j - 1);
      assert WithBit(v, k, on) / 2 == WithBit(v / 2, k - 1, on);
    }
  }

  lemma {:induction false} WithBitRange(v: nat, k: nat, on: bool, m: nat)
    requires v < Pow2(m) && k < m
    ensures WithBit(v, k, on) < Pow2(m)
  {
    if k > 0 { WithBitRange(v / 2, k - 1, on, m - 1); }
  }

  function ByteWithBit(v: Byte, k: nat, on: bool): (r: Byte)
    requires k < 8
    ensures Bit(r, k) == on
    ensures forall j :: 0 <= j && j != k ==> Bit(r, j) == Bit(v, j)
  {
    assert Pow2(8) == 256;
    WithBitRange(v, k, on, 8);
    assert forall j :: 0 <= j ==> (Bit(WithBit(v, k, on), j) <==> if j == k then on else Bit(v, j)) by {
      forall j | 0 <= j ensures Bit(WithBit(v, k, on), j) <==> if j == k then on else Bit(v, j) {
        WithBitAt(v, k, on, j);
      }
    }
    WithBit(v, k, on)
  }

  /** Is block b marked in use? */
  predicate InUse(sb: Super, d: Disk, b: nat)
    requires sb.Valid() && |d| == sb.size && b < sb.size
  {
    var bi := b % BPB;
    Bit(d[sb.BBlock(b)][bi / 8], bi % 8)
  }

  /** The disk after the bit of block b is set or cleared. */
  function Mark(sb: Super, d: Disk, b: nat, on: bool): (r: Disk)
    requires sb.Valid() && |d| == sb.size && b < sb.size
    ensures |r| == |d|
  {
    var bb, bi := sb.BBlock(b), b % BPB;
    d[bb := d[bb][bi / 8 := ByteWithBit(d[bb][bi / 8], bi % 8, on)]]
  }

  /** A block number is determined by its bitmap block, byte and bit. */
  lemma {:induction false} BitPlace(b: nat, x: nat)
    ensures b == x <==> b / BPB == x / BPB && b % BPB / 8 == x % BPB / 8 && b % BPB % 8 == x % BPB % 8
  {
    var bi, xi := b % BPB, x % BPB;
    assert bi == bi / 8 * 8 + bi % 8 && xi == xi / 8 * 8 + xi % 8;
  }

  lemma {:induction false} BitmapPlace(sb: Super, b: nat)
    requires sb.Valid() && b < sb.size
    ensures sb.bmapstart <= sb.BBlock(b) < sb.DataStart()
  {
  }

  /** Marking a block changes its own bit, and touches nothing outside the bitmap. */
  lemma {:induction false} MarkOne(sb: Super, d: Disk, b: nat, on: bool, x: nat)
    requires sb.Valid() && |d| == sb.size && b < sb.size && x < sb.size
    ensures InUse(sb, Mark(sb, d, b, on), x) <==> if x == b then on else InUse(sb, d, x)
    ensures x != sb.BBlock(b) ==> Mark(sb, d, b, on)[x] == d[x]
    ensures sb.bmapstart <= sb.BBlock(b) < sb.DataStart()
  {
    hide Bit, ByteWithBit;
    BitmapPlace(sb, b);
    BitPlace(b, x);
    var bi, xi := b % BPB, x % BPB;
    if sb.BBlock(x) == sb.BBlock(b) && xi / 8 == bi / 8 {
      var v := d[sb.BBlock(b)][bi / 8];
      assert Mark(sb, d, b, on)[sb.BBlock(b)][bi / 8] == ByteWithBit(v, bi % 8, on);
    } else {
      assert Mark(sb, d, b, on)[sb.BBlock(x)][xi / 8] == d[sb.BBlock(x)][xi / 8];
    }
  }
}
