/** The machine's words and the kernel's tuning constants (types.h, param.h). */
module Params {
  const WORD_RANGE := 0x1_0000_0000

  type Byte = b: int | 0 <= b < 256
  type Word = w: int | 0 <= w < WORD_RANGE

  const MAXOPBLOCKS := 10
  const LOGSIZE := MAXOPBLOCKS * 3
  const NBUF := MAXOPBLOCKS * 3
  const NPROC := 64
  const ROOTDEV := 1

  function Min(a: int, b: int): int {
    if a < b then a else b
  }

  function Max(a: int, b: int): int {
    if a < b then b else a
  }
}
