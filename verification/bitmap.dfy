/** The free bitmap of kernel/fs.c: one bit per disk block, eight to a byte, BPB to a block. */
module Bitmap {
  import opened Blocks

  const BPB := 8192  // BSIZE * 8

  // Single-bit masks on natural numbers.

  /** x & (1 << i) */
  predicate Test(x: nat, i: nat)
    decreases i
  {
    if i == 0 then x % 2 == 1 else Test(x / 2, i - 1)
  }

  /** x | (1 << i) */
  function Or(x: nat, i: nat): nat
    decreases i
  {
    if i == 0 then x - x % 2 + 1 else 2 * Or(x / 2, i - 1) + x % 2
  }

  /** x & ~(1 << i) */
  function AndNot(x: nat, i: nat): nat
    decreases i
  {
    if i == 0 then x - x % 2 else 2 * AndNot(x / 2, i - 1) + x % 2
  }

  function Pow2(n: nat): nat { if n == 0 then 1 else 2 * Pow2(n - 1) }

  lemma {:induction false} OrBound(x: nat, i: nat, n: nat)
    requires x < Pow2(n) && i < n
    ensures Or(x, i) < Pow2(n)
    decreases i
  {
    var half := Pow2(n - 1);
    assert Pow2(n) == 2 * half;
    if i > 0 {
      assert x / 2 < half;
      OrBound(x / 2, i - 1, n - 1);
    }
  }

  lemma {:induction false} AndNotBound(x: nat, i: nat)
    ensures AndNot(x, i) <= x
    decreases i
  {
    if i > 0 { AndNotBound(x / 2, i - 1); }
  }

  lemma {:induction false} TestOr(x: nat, i: nat, j: nat)
    ensures Test(Or(x, i), j) <==> i == j || Test(x, j)
    decreases i
  {
    if i > 0 && j > 0 { TestOr(x / 2, i - 1, j - 1); }
  }

  lemma {:induction false} TestAndNot(x: nat, i: nat, j: nat)
    ensures Test(AndNot(x, i), j) <==> i != j && Test(x, j)
    decreases i
  {
    if i > 0 && j > 0 { TestAndNot(x / 2, i - 1, j - 1); }
  }

  function ByteOr(x: Byte, i: nat): (r: Byte)
    requires i < 8
  {
    assert Pow2(8) == 256 by { assert Pow2(2) == 4; assert Pow2(4) == 16; assert Pow2(6) == 64; }
    OrBound(x, i, 8);
    Or(x, i)
  }

  function ByteAndNot(x: Byte, i: nat): (r: Byte)
  {
    AndNotBound(x, i);
    AndNot(x, i)
  }

  // The bitmap.

  predicate Covers(bm: seq<Block>, b: nat) { b < |bm| * BPB }

  /** Is block `b` marked in use? */
  predicate Bit(bm: seq<Block>, b: nat)
    requires Covers(bm, b)
  {
    Test(bm[b / BPB].data[b % BPB / 8], b % BPB % 8)
  }

  function SetBit(bm: seq<Block>, b: nat): (r: seq<Block>)
    requires Covers(bm, b)
    ensures |r| == |bm|
  {
    var m, i := bm[b / BPB].data, b % BPB / 8;
    bm[b / BPB := Block(m[i := ByteOr(m[i], b % BPB % 8)])]
  }

  function ClearBit(bm: seq<Block>, b: nat): (r: seq<Block>)
    requires Covers(bm, b)
    ensures |r| == |bm|
  {
    var m, i := bm[b / BPB].data, b % BPB / 8;
    bm[b / BPB := Block(m[i := ByteAndNot(m[i], b % BPB % 8)])]
  }

  /** Block, byte and bit position determine the block number. */
  lemma Position(b: nat, c: nat)
    ensures b == c <==> b / BPB == c / BPB && b % BPB / 8 == c % BPB / 8 && b % BPB % 8 == c % BPB % 8
  {
    assert b % BPB == 8 * (b % BPB / 8) + b % BPB % 8 && c % BPB == 8 * (c % BPB / 8) + c % BPB % 8;
  }

  lemma BitSet(bm: seq<Block>, b: nat, c: nat)
    requires Covers(bm, b) && Covers(bm, c)
    ensures Bit(SetBit(bm, b), c) <==> b == c || Bit(bm, c)
  {
    Position(b, c);
    TestOr(bm[b / BPB].data[b % BPB / 8], b % BPB % 8, c % BPB % 8);
  }

  lemma BitClear(bm: seq<Block>, b: nat, c: nat)
    requires Covers(bm, b) && Covers(bm, c)
    ensures Bit(ClearBit(bm, b), c) <==> b != c && Bit(bm, c)
  {
    Position(b, c);
    TestAndNot(bm[b / BPB].data[b % BPB / 8], b % BPB % 8, c % BPB % 8);
  }

  /** The two loops of balloc: the first free block below `size`, or `size` when there is none. */
  method FindFree(bm: seq<Block>, size: nat) returns (r: nat)
    requires size <= |bm| * BPB
    ensures r <= size && (r < size ==> !Bit(bm, r))
    ensures forall c :: 0 <= c < r ==> Bit(bm, c)
  {
    var b := 0;
    while b < size
      invariant b % BPB == 0
      invariant forall c :: 0 <= c < b && c < size ==> Bit(bm, c)
    {
      var bi := 0;
      while bi < BPB && b + bi < size
        invariant bi <= BPB
        invariant forall c :: 0 <= c < b + bi && c < size ==> Bit(bm, c)
      {
        assert (b + bi) / BPB == b / BPB && (b + bi) % BPB == bi;
        if !Test(bm[b / BPB].data[bi / 8], bi % 8) {
          return b + bi;
        }
        bi := bi + 1;
      }
      b := b + BPB;
    }
    return size;
  }
}
