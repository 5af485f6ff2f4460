/** Disk blocks as the kernel lays them out: 512 bytes, read either as bytes or,
    after a C cast, as 128 little-endian 32-bit words. */
module Block {
  import opened Params

  const BSIZE := 512
  const WORDS := 128

  type Data = s: seq<Byte> | |s| == BSIZE witness seq(BSIZE, _ => 0)

  function Zeroes(): (z: Data)
    ensures forall i :: 0 <= i < BSIZE ==> z[i] == 0
  {
    seq(BSIZE, _ => 0)
  }

  /** The word `((uint*)data)[i]`. */
  function GetWord(d: Data, i: nat): Word
    requires i < WORDS
  {
    var b0: int, b1: int, b2: int, b3: int := d[4*i], d[4*i+1], d[4*i+2], d[4*i+3];
    b0 + 0x100 * b1 + 0x1_0000 * b2 + 0x100_0000 * b3
  }

  /** The block after `((uint*)data)[i] = w`. */
  function PutWord(d: Data, i: nat, w: Word): Data
    requires i < WORDS
  {
    d[4*i := w % 0x100][4*i+1 := w / 0x100 % 0x100][4*i+2 := w / 0x1_0000 % 0x100][4*i+3 := w / 0x100_0000]
  }

  lemma {:induction false} LittleEndian(w: Word)
    ensures w == w % 0x100 + 0x100 * (w / 0x100 % 0x100) + 0x1_0000 * (w / 0x1_0000 % 0x100)
              + 0x100_0000 * (w / 0x100_0000)
  {
    assert w / 0x1_0000 == w / 0x100 / 0x100;
    assert w / 0x100_0000 == w / 0x1_0000 / 0x100;
  }

  lemma {:induction false} PutSame(d: Data, i: nat, w: Word)
    requires i < WORDS
    ensures GetWord(PutWord(d, i, w), i) == w
  {
    var e := PutWord(d, i, w);
    assert e[4*i] == w % 0x100 && e[4*i+1] == w / 0x100 % 0x100 && e[4*i+2] == w / 0x1_0000 % 0x100
           && e[4*i+3] == w / 0x100_0000;
    hide PutWord;
    LittleEndian(w);
  }

  /** Storing a word changes that word and no other. */
  lemma {:induction false} PutGet(d: Data, i: nat, w: Word, j: nat)
    requires i < WORDS && j < WORDS
    ensures GetWord(PutWord(d, i, w), j) == if i == j then w else GetWord(d, j)
  {
    if i == j {
      PutSame(d, i, w);
    }
  }

  /** A zeroed block reads as zero words. */
  lemma ZeroWord(i: nat)
    requires i < WORDS
    ensures GetWord(Zeroes(), i) == 0
  {}
}
