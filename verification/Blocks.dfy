/** Disk blocks as byte arrays, and the 32-bit little-endian words stored in them. */
module Blocks {
  import opened Params

  const BSIZE := 512
  const WORDS := 128

  type Block = b: seq<Byte> | |b| == BSIZE witness seq(BSIZE, _ => 0)

  function ZeroBlock(): Block {
    seq(BSIZE, _ => 0)
  }

  /** The i-th uint of the block, as the kernel reads it through a uint pointer. */
  function GetWord(b: Block, i: nat): (w: nat)
    requires i < WORDS
    ensures w < UINT_LIMIT
  {
    var b0: int, b1: int, b2: int, b3: int := b[4 * i], b[4 * i + 1], b[4 * i + 2], b[4 * i + 3];
    b0 + 0x100 * b1 + 0x1_0000 * b2 + 0x100_0000 * b3
  }

  function PutWord(b: Block, i: nat, w: nat): (r: Block)
    requires i < WORDS && w < UINT_LIMIT
  {
    b[4 * i := w % 0x100][4 * i + 1 := w / 0x100 % 0x100]
    [4 * i + 2 := w / 0x1_0000 % 0x100][4 * i + 3 := w / 0x100_0000]
  }

  /** Storing a word is read back exactly. */
  lemma GetPutSame(b: Block, i: nat, w: nat)
    requires i < WORDS && w < UINT_LIMIT
    ensures GetWord(PutWord(b, i, w), i) == w
  {
    var b0, b1, b2, b3 := w % 0x100, w / 0x100 % 0x100, w / 0x1_0000 % 0x100, w / 0x100_0000;
    assert w == b0 + 0x100 * b1 + 0x1_0000 * b2 + 0x100_0000 * b3;
    var r := PutWord(b, i, w);
    assert r[4 * i] == b0 && r[4 * i + 1] == b1;
    assert r[4 * i + 2] == b2 && r[4 * i + 3] == b3;
  }

  /** Storing a word disturbs no other word. */
  lemma GetPutOther(b: Block, i: nat, w: nat, j: nat)
    requires i < WORDS && w < UINT_LIMIT && j < WORDS && j != i
    ensures GetWord(PutWord(b, i, w), j) == GetWord(b, j)
  {
    var r := PutWord(b, i, w);
    assert r[4 * j] == b[4 * j] && r[4 * j + 1] == b[4 * j + 1];
    assert r[4 * j + 2] == b[4 * j + 2] && r[4 * j + 3] == b[4 * j + 3];
  }

  lemma ZeroWord(i: nat)
    requires i < WORDS
    ensures GetWord(ZeroBlock(), i) == 0
  {
  }
}
