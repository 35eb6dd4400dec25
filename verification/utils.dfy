/** do_rand and the byte-order helpers of kernel/utils.c. */
module Utils {
  import opened Blocks

  const M := 0x7fffffff      // 2^31 - 1
  const INVERSE := 1407677000   // of 7^5, modulo M

  lemma Inverse(x: int, q: int)
    requires 16807 * x == q * M
    ensures x == (INVERSE * q - 11017 * x) * M
  {
    assert x == (16807 * INVERSE - 11017 * M) * x;
    assert INVERSE * (16807 * x) == INVERSE * (q * M);
  }

  lemma NotBetween(x: int, d: int)
    requires x == d * M
    ensures x <= 0 || x >= M
  {
  }

  /** 7^5 is invertible modulo M, so the generator never gets stuck at 0. */
  lemma NeverZero(x: nat)
    requires 1 <= x < M
    ensures 16807 * x % M != 0
  {
    if 16807 * x % M == 0 {
      var q := 16807 * x / M;
      Inverse(x, q);
      NotBetween(x, INVERSE * q - 11017 * x);
    }
  }

  /** do_rand on a 32-bit context: one step of the Park-Miller generator x' = 7^5 x mod (2^31 - 1), with
      every intermediate value in 32 signed bits; the result is at most 0x7ffffffd. */
  method DoRand(ctx: nat) returns (r: int)
    requires ctx < TWO32
    ensures r == 16807 * (ctx % 0x7ffffffe + 1) % M - 1
    ensures 0 <= r <= 0x7ffffffd
  {
    var x: int := ctx % 0x7ffffffe + 1;
    ghost var x0 := x;
    var hi := x / 127773;
    var lo := x % 127773;
    assert 16807 * lo < TWO32 / 2 && 2836 * hi < TWO32 / 2;
    x := 16807 * lo - 2836 * hi;
    Schrage(x0, hi, lo);
    NeverZero(x0);
    if x < 0 { x := x + M; }
    x := x - 1;
    r := x;
  }

  /** The product modulo M without a large product, because M == 127773 * 7^5 + 2836. */
  lemma Schrage(x: nat, hi: nat, lo: nat)
    requires 1 <= x < M && x == 127773 * hi + lo && lo < 127773
    ensures var y := 16807 * lo - 2836 * hi; -M < y < M && 16807 * x % M == if y < 0 then y + M else y
  {
    var y := 16807 * lo - 2836 * hi;
    assert 16807 * x == hi * M + y;
    assert hi <= 16807;
    if y < 0 {
      Residue(16807 * x, hi - 1, y + M);
    } else {
      Residue(16807 * x, hi, y);
    }
  }

  lemma Residue(a: int, q: int, y: int)
    requires a == q * M + y && 0 <= y < M
    ensures a % M == y
  {
  }

  function Toggle16(v: bv16): bv16 { ((0xff & v) << 8) | ((0xff00 & v) >> 8) }

  function Toggle32(v: bv32): bv32
  {
    ((v & 0xff) << 24) | ((v & 0xff00) << 8) | ((v & 0xff0000) >> 8) | ((v & 0xff000000) >> 24)
  }

  /** Swapping the byte order twice gives the number back. */
  lemma ToggleTwice(v: bv16, w: bv32)
    ensures Toggle16(Toggle16(v)) == v && Toggle32(Toggle32(w)) == w
  {
  }
}
