/** Disk blocks: 1024 bytes, also readable as 256 little-endian 32-bit words. */
module Blocks {
  const BSIZE := 1024
  const WORDS := 256
  const TWO32 := 0x1_0000_0000

  type Byte = x: int | 0 <= x < 256
  type Bytes = s: seq<Byte> | |s| == BSIZE witness seq(BSIZE, _ => 0)
  datatype Block = Block(data: Bytes)

  function ZeroBlock(): (b: Block)
    ensures forall i :: 0 <= i < BSIZE ==> b.data[i] == 0
  {
    Block(seq(BSIZE, _ => 0))
  }

  function GetWord(b: Block, i: nat): (w: nat)
    requires i < WORDS
    ensures w < TWO32
  {
    var b0: int, b1: int, b2: int, b3: int := b.data[4 * i], b.data[4 * i + 1], b.data[4 * i + 2], b.data[4 * i + 3];
    b0 + 256 * b1 + 65536 * b2 + 16777216 * b3
  }

  function PutWord(b: Block, i: nat, w: nat): (r: Block)
    requires i < WORDS && w < TWO32
  {
    Block(b.data[4 * i := w % 256][4 * i + 1 := w / 256 % 256][4 * i + 2 := w / 65536 % 256][4 * i + 3 := w / 16777216])
  }

  /** A word store changes that word and no other. */
  lemma GetPut(b: Block, i: nat, w: nat, k: nat)
    requires i < WORDS && w < TWO32 && k < WORDS
    ensures GetWord(PutWord(b, i, w), k) == if k == i then w else GetWord(b, k)
  {
    if k == i {
      Digits(w);
    } else {
      assert 4 * k + 3 < 4 * i || 4 * i + 3 < 4 * k;
    }
  }

  /** A number from its base-256 digits. */
  lemma Digits(w: nat)
    ensures w == w % 256 + 256 * (w / 256 % 256) + 65536 * (w / 65536 % 256) + 16777216 * (w / 16777216)
  {
    Quotient(w, 256);
    Quotient(w, 65536);
  }

  lemma Quotient(w: nat, m: nat)
    requires m == 256 || m == 65536
    ensures w / m / 256 == w / (m * 256)
  {
  }

  lemma ZeroWord(k: nat)
    requires k < WORDS
    ensures GetWord(ZeroBlock(), k) == 0
  {
  }
}
