/** checksum of kernel/ip.c: the Internet checksum of RFC 1071. */
module Checksum {
  import opened Blocks

  const TWO16 := 0x10000

  function Word(lo: nat, hi: nat): nat { lo + 256 * hi }

  /** The sum of the 16-bit words of `b`, low byte first, an odd last byte counting alone. */
  function Words(b: seq<Byte>): nat
  {
    if b == [] then 0 else if |b| == 1 then b[0] else Word(b[0], b[1]) + Words(b[2..])
  }

  lemma {:induction false} WordsBound(b: seq<Byte>)
    ensures Words(b) <= (|b| + 1) / 2 * 65535
    decreases |b|
  {
    if |b| > 1 { WordsBound(b[2..]); }
  }

  /** One's complement arithmetic: the value modulo 65535, with 65535 itself for a multiple that is not 0. */
  function Folded(sum: nat): nat { if sum == 0 then 0 else if sum % 65535 == 0 then 65535 else sum % 65535 }

  lemma FoldOnce(sum: nat)
    requires sum >= TWO16
    ensures var s := sum / TWO16 + sum % TWO16; 0 < s < sum && Folded(s) == Folded(sum)
  {
    var s := sum / TWO16 + sum % TWO16;
    assert sum == s + 65535 * (sum / TWO16);
    Multiple(s, sum / TWO16);
  }

  lemma Multiple(s: nat, k: nat)
    ensures (s + 65535 * k) % 65535 == s % 65535
  {
  }

  /** checksum for a length that fits 16 bits and an initial value of at most six 16-bit words: the
      accumulator stays in 32 bits, folding ends, and the result is the complement of the folded sum. */
  method Checksum(b: seq<Byte>, init: nat) returns (r: nat)
    requires |b| < TWO16 && init <= 6 * 65535
    ensures r == 65535 - Folded(init + Words(b))
  {
    var nleft, sum, w := |b|, init, 0;
    assert b[0..] == b;
    WordsBound(b);
    while nleft > 1
      invariant 0 <= w <= |b| && nleft == |b| - w && sum + Words(b[w..]) == init + Words(b) < TWO32
    {
      assert b[w..][2..] == b[w + 2..];
      sum := sum + Word(b[w], b[w + 1]);
      assert sum < TWO32;
      w, nleft := w + 2, nleft - 2;
    }
    if nleft > 0 { sum := sum + b[w]; }
    while sum / TWO16 != 0
      invariant 0 <= sum < TWO32 && Folded(sum) == Folded(init + Words(b))
      decreases sum
    {
      FoldOnce(sum);
      sum := sum / TWO16 + sum % TWO16;
    }
    r := 65535 - sum;
  }

  /** A 16-bit field at even offset `k`. */
  function Store(b: seq<Byte>, k: nat, v: nat): seq<Byte>
    requires k + 1 < |b| && v < TWO16
  {
    b[k := v % 256][k + 1 := v / 256]
  }

  lemma {:induction false} StoreAdds(b: seq<Byte>, k: nat, v: nat)
    requires k + 1 < |b| && k % 2 == 0 && b[k] == 0 && b[k + 1] == 0 && v < TWO16
    ensures Words(Store(b, k, v)) == Words(b) + v
    decreases k
  {
    if k == 0 {
      assert Store(b, k, v)[2..] == b[2..];
    } else {
      StoreAdds(b[2..], k - 2, v);
      assert Store(b, k, v)[2..] == Store(b[2..], k - 2, v);
    }
  }

  /** A receiver that sums the segment with its checksum stored gets 0. */
  lemma Verifies(b: seq<Byte>, k: nat, init: nat)
    requires k + 1 < |b| && k % 2 == 0 && b[k] == 0 && b[k + 1] == 0
    ensures Folded(init + Words(b)) <= 65535
    ensures var r := 65535 - Folded(init + Words(b)); 65535 - Folded(init + Words(Store(b, k, r))) == 0
  {
    var sum := init + Words(b);
    var r := 65535 - Folded(sum);
    StoreAdds(b, k, r);
    Complement(sum);
  }

  lemma Complement(sum: nat)
    ensures Folded(sum) <= 65535 && Folded(sum + (65535 - Folded(sum))) == 65535
  {
    var t := sum + (65535 - Folded(sum));
    if sum > 0 {
      var q := sum / 65535;
      assert sum == 65535 * q + sum % 65535;
      if sum % 65535 == 0 { Multiple(0, q); } else { Multiple(0, q + 1); }
    }
  }
}
