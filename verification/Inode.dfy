/** Inodes on disk and in memory, the blocks they refer to, and who owns each block. */
module Inode {
  import opened Params
  import opened Block
  import opened Bitmap

  const NDIRECT := 12
  const NINDIRECT := WORDS
  const MAXFILE := NDIRECT + NINDIRECT
  const INODE_WORDS := 16

  type Half = h: int | 0 <= h < 0x1_0000
  type Addrs = s: seq<Word> | |s| == NDIRECT + 1 witness seq(NDIRECT + 1, _ => 0)

  datatype Dinode = Dinode(typ: Half, major: Half, minor: Half, nlink: Half, size: Word, addrs: Addrs)

  // ------------------------------------------------------------ the on-disk form

  function DinodeWords(di: Dinode): (ws: seq<Word>)
    ensures |ws| == INODE_WORDS
  {
    var t: int, m: int, n: int, l: int := di.typ, di.major, di.minor, di.nlink;
    [t + 0x1_0000 * m, n + 0x1_0000 * l, di.size] + di.addrs
  }

  function PutWords(d: Data, base: nat, ws: seq<Word>, k: nat): Data
    requires k <= |ws| && base + |ws| <= WORDS
  {
    if k == 0 then d else PutWord(PutWords(d, base, ws, k - 1), base + k - 1, ws[k-1])
  }

  lemma {:induction false} PutWordsAt(d: Data, base: nat, ws: seq<Word>, k: nat, j: nat)
    requires k <= |ws| && base + |ws| <= WORDS && j < WORDS
    ensures GetWord(PutWords(d, base, ws, k), j) == if base <= j < base + k then ws[j - base] else GetWord(d, j)
  {
    if k > 0 {
      hide GetWord, PutWord;
      PutGet(PutWords(d, base, ws, k - 1), base + k - 1, ws[k-1], j);
      PutWordsAt(d, base, ws, k - 1, j);
    }
  }

  function GetWords(d: Data, base: nat, n: nat): (ws: seq<Word>)
    requires base + n <= WORDS
    ensures |ws| == n && forall j :: 0 <= j < n ==> ws[j] == GetWord(d, base + j)
  {
    seq<Word>(n, j requires 0 <= j < n => GetWord(d, base + j))
  }

  function GetDinode(d: Data, slot: nat): Dinode
    requires slot < IPB
  {
    var base := INODE_WORDS * slot;
    var w0: int, w1: int := GetWord(d, base), GetWord(d, base + 1);
    Dinode(w0 % 0x1_0000, w0 / 0x1_0000, w1 % 0x1_0000, w1 / 0x1_0000, GetWord(d, base + 2),
           GetWords(d, base + 3, NDIRECT + 1))
  }

  function PutDinode(d: Data, slot: nat, di: Dinode): Data
    requires slot < IPB
  {
    PutWords(d, INODE_WORDS * slot, DinodeWords(di), INODE_WORDS)
  }

  lemma {:induction false} Halves(lo: Half, hi: Half)
    ensures var w: int := lo as int + 0x1_0000 * hi as int; w % 0x1_0000 == lo && w / 0x1_0000 == hi
  {
  }

  lemma {:induction false} WordsBack(d: Data, slot: nat, di: Dinode)
    requires slot < IPB
    requires forall j :: 0 <= j < INODE_WORDS ==> GetWord(d, INODE_WORDS * slot + j) == DinodeWords(di)[j]
    ensures GetDinode(d, slot) == di
  {
    hide GetWord;
    var base := INODE_WORDS * slot;
    assert base + 0 == base && GetWord(d, base + 0) == DinodeWords(di)[0];
    assert GetWord(d, base + 1) == DinodeWords(di)[1] && GetWord(d, base + 2) == DinodeWords(di)[2];
    var addrs := GetWords(d, base + 3, NDIRECT + 1);
    forall j | 0 <= j < NDIRECT + 1 ensures addrs[j] == di.addrs[j] {
      assert GetWord(d, base + (3 + j)) == DinodeWords(di)[3 + j];
    }
    assert addrs == di.addrs;
    Halves(di.typ, di.major);
    Halves(di.minor, di.nlink);
  }

  /** Writing an inode into its block and reading slot t back: the inode itself, or what was there. */
  lemma {:induction false} DinodeRoundTrip(d: Data, slot: nat, di: Dinode, t: nat)
    requires slot < IPB && t < IPB
    ensures GetDinode(PutDinode(d, slot, di), t) == if t == slot then di else GetDinode(d, t)
  {
    hide GetWord, PutWords, GetWords, DinodeWords;
    var ws := DinodeWords(di);
    var e := PutDinode(d, slot, di);
    var base := INODE_WORDS * t;
    forall j | base <= j < base + INODE_WORDS
      ensures GetWord(e, j) == if t == slot then ws[j - base] else GetWord(d, j)
    {
      PutWordsAt(d, INODE_WORDS * slot, ws, INODE_WORDS, j);
    }
    if t == slot {
      WordsBack(e, t, di);
    } else {
      assert GetWords(e, base + 3, NDIRECT + 1) == GetWords(d, base + 3, NDIRECT + 1);
    }
  }

  function DinodeAt(sb: Super, d: Disk, inum: nat): Dinode
    requires sb.Valid() && |d| == sb.size && inum < sb.ninodes
  {
    GetDinode(d[sb.IBlock(inum)], inum % IPB)
  }

  // ------------------------------------------------------------ block references

  /** Reference k of an inode: data block k for k < MAXFILE, the indirect block for k == MAXFILE;
      0 when there is none. */
  function Ref(d: Disk, di: Dinode, k: nat): Word
    requires k <= MAXFILE
  {
    if k < NDIRECT then di.addrs[k]
    else if k == MAXFILE then di.addrs[NDIRECT]
    else if di.addrs[NDIRECT] == 0 || di.addrs[NDIRECT] >= |d| then 0
    else GetWord(d[di.addrs[NDIRECT]], k - NDIRECT)
  }

  datatype Slot = Slot(inum: nat, k: nat)

  /** The block that reference k of file i names, if any, has that reference as its owner. */
  ghost predicate Claimed(d: Disk, ino: seq<Dinode>, owner: map<nat, Slot>, i: nat, k: nat)
    requires i < |ino| && k <= MAXFILE
  {
    var b := Ref(d, ino[i], k);
    b != 0 ==> b in owner && owner[b] == Slot(i, k)
  }

  ghost predicate OwnedBy(sb: Super, d: Disk, ino: seq<Dinode>, owner: map<nat, Slot>, b: nat)
    requires sb.Valid() && b in owner
  {
    && sb.DataStart() <= b < sb.size && owner[b].inum < |ino| && owner[b].k <= MAXFILE
    && Ref(d, ino[owner[b].inum], owner[b].k) == b
  }

  /** `owner` names, for every referenced block, the one reference to it: no block is shared, within
      a file or between files, and every reference is to a data block. */
  ghost predicate Owned(sb: Super, d: Disk, ino: seq<Dinode>, owner: map<nat, Slot>) {
    && sb.Valid() && |d| == sb.size && |ino| == sb.ninodes
    && (forall i, k :: 0 <= i < |ino| && 0 <= k <= MAXFILE ==> Claimed(d, ino, owner, i, k))
    && (forall b :: b in owner ==> OwnedBy(sb, d, ino, owner, b))
  }

  /** Exactly the metadata blocks and `used` are marked in the bitmap. */
  ghost predicate BitmapIs(sb: Super, d: Disk, used: set<nat>) {
    && sb.Valid() && |d| == sb.size
    && forall b :: 0 <= b < sb.size ==> (InUse(sb, d, b) <==> b < sb.DataStart() || b in used)
  }

  /** What every file system operation keeps: a block is in use iff it is metadata or owned. */
  ghost predicate Inv(sb: Super, d: Disk, ino: seq<Dinode>, owner: map<nat, Slot>) {
    Owned(sb, d, ino, owner) && BitmapIs(sb, d, owner.Keys)
  }

  lemma {:induction false} RefOwner(sb: Super, d: Disk, ino: seq<Dinode>, owner: map<nat, Slot>, i: nat, k: nat)
    requires Inv(sb, d, ino, owner) && i < |ino| && k <= MAXFILE && Ref(d, ino[i], k) != 0
    ensures Ref(d, ino[i], k) in owner && owner[Ref(d, ino[i], k)] == Slot(i, k)
    ensures sb.DataStart() <= Ref(d, ino[i], k) < sb.size
  {
    hide Ref, InUse;
    assert Claimed(d, ino, owner, i, k);
    assert OwnedBy(sb, d, ino, owner, Ref(d, ino[i], k));
  }

  lemma {:induction false} OwnerRef(sb: Super, d: Disk, ino: seq<Dinode>, owner: map<nat, Slot>, b: nat)
    requires Inv(sb, d, ino, owner) && b in owner
    ensures owner[b].inum < |ino| && owner[b].k <= MAXFILE && Ref(d, ino[owner[b].inum], owner[b].k) == b
  {
    hide Ref, InUse;
    assert OwnedBy(sb, d, ino, owner, b);
  }

  /** Ownership is a matter of references alone. */
  lemma {:induction false} SameRefs(sb: Super, d: Disk, ino: seq<Dinode>, e: Disk, ino': seq<Dinode>,
                                    owner: map<nat, Slot>)
    requires Owned(sb, d, ino, owner) && |e| == |d| && |ino'| == |ino|
    requires forall m, l :: 0 <= m < |ino| && 0 <= l <= MAXFILE ==> Ref(e, ino'[m], l) == Ref(d, ino[m], l)
    ensures Owned(sb, e, ino', owner)
  {
    hide Ref;
    forall b | b in owner ensures OwnedBy(sb, e, ino', owner, b) {
      assert OwnedBy(sb, d, ino, owner, b);
    }
    forall m, l | 0 <= m < |ino| && 0 <= l <= MAXFILE ensures Claimed(e, ino', owner, m, l) {
      assert Claimed(d, ino, owner, m, l);
    }
  }

  /** Ownership depends only on the in-memory inodes and the contents of owned blocks. */
  lemma {:induction false} OwnedFrame(sb: Super, d: Disk, e: Disk, ino: seq<Dinode>, owner: map<nat, Slot>)
    requires Owned(sb, d, ino, owner) && |e| == |d|
    requires forall b :: b in owner ==> e[b] == d[b]
    ensures Owned(sb, e, ino, owner)
    ensures forall i, k :: 0 <= i < |ino| && 0 <= k <= MAXFILE ==> Ref(e, ino[i], k) == Ref(d, ino[i], k)
  {
    hide GetWord;
    forall i, k | 0 <= i < |ino| && 0 <= k <= MAXFILE ensures Ref(e, ino[i], k) == Ref(d, ino[i], k) {
      assert Claimed(d, ino, owner, i, MAXFILE);
    }
    SameRefs(sb, d, ino, e, ino, owner);
  }

  /** `e` is `d` after block r, free before, was marked in use and zeroed. */
  ghost predicate Allocated(sb: Super, d: Disk, e: Disk, r: nat) {
    && sb.Valid() && |d| == |e| == sb.size
    && sb.DataStart() <= r < sb.size
    && !InUse(sb, d, r)
    && e[r] == Zeroes()
    && (forall b :: 0 <= b < sb.size ==> (InUse(sb, e, b) <==> b == r || InUse(sb, d, b)))
    && (forall b :: 0 <= b < sb.size && b != r && b != sb.BBlock(r) ==> e[b] == d[b])
  }

  /** A freshly allocated block has no owner, and allocating it disturbs no reference. */
  lemma {:induction false} FreshBlock(sb: Super, d: Disk, e: Disk, r: nat, ino: seq<Dinode>, owner: map<nat, Slot>)
    requires Inv(sb, d, ino, owner) && Allocated(sb, d, e, r)
    ensures r !in owner && r != 0
    ensures Owned(sb, e, ino, owner) && BitmapIs(sb, e, owner.Keys + {r})
    ensures forall b :: b in owner ==> e[b] == d[b]
    ensures forall i, k :: 0 <= i < |ino| && 0 <= k <= MAXFILE ==> Ref(e, ino[i], k) == Ref(d, ino[i], k)
  {
    hide Ref, InUse;
    assert sb.BBlock(r) < sb.DataStart();
    forall b | b in owner ensures e[b] == d[b] {
      assert OwnedBy(sb, d, ino, owner, b);
    }
    OwnedFrame(sb, d, e, ino, owner);
  }

  lemma {:induction false} OwnedSizes(sb: Super, d: Disk, ino: seq<Dinode>, owner: map<nat, Slot>)
    requires Owned(sb, d, ino, owner)
    ensures sb.Valid() && |d| == sb.size && |ino| == sb.ninodes
  {
  }

  lemma {:induction false} OwnedRef(sb: Super, d: Disk, ino: seq<Dinode>, owner: map<nat, Slot>, i: nat, k: nat)
    requires Owned(sb, d, ino, owner) && i < |ino| && k <= MAXFILE
    ensures Ref(d, ino[i], k) != 0 ==> Ref(d, ino[i], k) in owner && owner[Ref(d, ino[i], k)] == Slot(i, k)
  {
    hide Ref;
    assert Claimed(d, ino, owner, i, k);
  }

  lemma {:induction false} OwnedBlock(sb: Super, d: Disk, ino: seq<Dinode>, owner: map<nat, Slot>, b: nat)
    requires Owned(sb, d, ino, owner) && b in owner
    ensures sb.Valid() && OwnedBy(sb, d, ino, owner, b)
  {
    hide Ref;
  }

  lemma {:induction false} OwnedFrom(sb: Super, d: Disk, ino: seq<Dinode>, owner: map<nat, Slot>)
    requires sb.Valid() && |d| == sb.size && |ino| == sb.ninodes
    requires forall i, k :: 0 <= i < |ino| && 0 <= k <= MAXFILE ==> Claimed(d, ino, owner, i, k)
    requires forall b :: b in owner ==> OwnedBy(sb, d, ino, owner, b)
    ensures Owned(sb, d, ino, owner)
  {
  }

  /** Owning one block more, through a reference that was empty. */
  lemma {:induction false} OwnedAdd(sb: Super, d: Disk, ino: seq<Dinode>, e: Disk, ino': seq<Dinode>,
                                    owner: map<nat, Slot>, i: nat, k: nat, r: nat)
    requires Owned(sb, d, ino, owner) && |e| == |d| && |ino'| == |ino|
    requires i < |ino| && k <= MAXFILE && Ref(d, ino[i], k) == 0
    requires sb.DataStart() <= r < sb.size && r !in owner
    requires forall m, l :: 0 <= m < |ino| && 0 <= l <= MAXFILE ==>
               Ref(e, ino'[m], l) == if m == i && l == k then r else Ref(d, ino[m], l)
    ensures Owned(sb, e, ino', owner[r := Slot(i, k)])
  {
    hide Ref, Owned;
    var owner' := owner[r := Slot(i, k)];
    OwnedSizes(sb, d, ino, owner);
    forall m: nat, l: nat | m < |ino| && l <= MAXFILE ensures Claimed(e, ino', owner', m, l) {
      OwnedRef(sb, d, ino, owner, m, l);
    }
    forall b | b in owner' ensures OwnedBy(sb, e, ino', owner', b) {
      if b != r {
        OwnedBlock(sb, d, ino, owner, b);
      }
    }
    OwnedFrom(sb, e, ino', owner');
  }

  /** The in-memory inode table with address j of inode i replaced. */
  function SetAddr(ino: seq<Dinode>, i: nat, j: nat, r: Word): seq<Dinode>
    requires i < |ino| && j <= NDIRECT
  {
    ino[i := ino[i].(addrs := ino[i].addrs[j := r])]
  }

  /** Hanging a fresh block on an empty direct reference, or as the indirect block. */
  lemma {:induction false} AttachAddr(sb: Super, d: Disk, e: Disk, r: Word, ino: seq<Dinode>, owner: map<nat, Slot>,
                                      i: nat, j: nat)
    requires Inv(sb, d, ino, owner) && Allocated(sb, d, e, r)
    requires i < |ino| && j <= NDIRECT && ino[i].addrs[j] == 0
    ensures var k := if j == NDIRECT then MAXFILE else j;
            var ino' := SetAddr(ino, i, j, r);
            && Inv(sb, e, ino', owner[r := Slot(i, k)])
            && (forall l :: 0 <= l <= MAXFILE ==> Ref(e, ino'[i], l) == if l == k then r else Ref(d, ino[i], l))
  {
    hide GetWord, InUse;
    FreshBlock(sb, d, e, r, ino, owner);
    var k := if j == NDIRECT then MAXFILE else j;
    var ino' := SetAddr(ino, i, j, r);
    forall l | 0 <= l <= MAXFILE ensures Ref(e, ino'[i], l) == if l == k then r else Ref(e, ino[i], l) {
      if j == NDIRECT && NDIRECT <= l < MAXFILE { ZeroWord(l - NDIRECT); }
    }
    OwnedAdd(sb, e, ino, e, ino', owner, i, k, r);
    assert owner[r := Slot(i, k)].Keys == owner.Keys + {r};
  }

  /** Rewriting an owned block changes references of its owner only. */
  lemma {:induction false} OtherRefs(sb: Super, d: Disk, e: Disk, x: nat, ino: seq<Dinode>, owner: map<nat, Slot>,
                                     i: nat)
    requires Owned(sb, d, ino, owner) && |e| == |d| && i < |ino|
    requires x in owner && owner[x].inum == i
    requires forall b :: 0 <= b < |d| && b != x ==> e[b] == d[b]
    ensures forall m, l :: 0 <= m < |ino| && m != i && 0 <= l <= MAXFILE ==> Ref(e, ino[m], l) == Ref(d, ino[m], l)
  {
    hide GetWord;
    forall m, l | 0 <= m < |ino| && m != i && 0 <= l <= MAXFILE ensures Ref(e, ino[m], l) == Ref(d, ino[m], l) {
      assert Claimed(d, ino, owner, m, MAXFILE);
    }
  }

  /** The bitmap does not depend on data blocks. */
  lemma {:induction false} BitmapFrame(sb: Super, d: Disk, e: Disk, used: set<nat>)
    requires BitmapIs(sb, d, used) && |e| == |d|
    requires forall b :: sb.bmapstart <= b < sb.DataStart() ==> e[b] == d[b]
    ensures BitmapIs(sb, e, used)
  {
    hide Bit;
    forall b | 0 <= b < sb.size ensures InUse(sb, e, b) <==> InUse(sb, d, b) {
      assert b / BPB <= sb.size / BPB;
    }
  }

  /** Hanging a fresh block on an empty entry of the indirect block. */
  lemma {:induction false} AttachEntry(sb: Super, d: Disk, e: Disk, r: Word, ino: seq<Dinode>, owner: map<nat, Slot>,
                                       i: nat, k: nat)
    requires Inv(sb, d, ino, owner) && Allocated(sb, d, e, r)
    requires i < |ino| && NDIRECT <= k < MAXFILE && Ref(d, ino[i], k) == 0
    requires ino[i].addrs[NDIRECT] != 0
    ensures var x := ino[i].addrs[NDIRECT];
            && x < |e|
            && var f := e[x := PutWord(e[x], k - NDIRECT, r)];
               && Inv(sb, f, ino, owner[r := Slot(i, k)])
               && (forall l :: 0 <= l <= MAXFILE ==> Ref(f, ino[i], l) == if l == k then r else Ref(d, ino[i], l))
  {
    hide GetWord, PutWord, InUse;
    FreshBlock(sb, d, e, r, ino, owner);
    RefOwner(sb, d, ino, owner, i, MAXFILE);
    var x := Ref(d, ino[i], MAXFILE);
    var f := e[x := PutWord(e[x], k - NDIRECT, r)];
    forall l | 0 <= l <= MAXFILE ensures Ref(f, ino[i], l) == if l == k then r else Ref(e, ino[i], l) {
      if NDIRECT <= l < MAXFILE { PutGet(e[x], k - NDIRECT, r, l - NDIRECT); }
    }
    OtherRefs(sb, e, f, x, ino, owner, i);
    OwnedAdd(sb, e, ino, f, ino, owner, i, k, r);
    assert owner[r := Slot(i, k)].Keys == owner.Keys + {r};
    BitmapFrame(sb, e, f, owner.Keys + {r});
  }
}
