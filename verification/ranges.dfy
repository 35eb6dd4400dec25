/** Runs of consecutive numbers as sets: block numbers, memory units. */
module Ranges {
  /** The `n` numbers from `lo` on. */
  ghost function Span(lo: nat, n: nat): set<nat>
  {
    if n == 0 then {} else Span(lo, n - 1) + {lo + n - 1}
  }

  lemma {:induction false} SpanHas(lo: nat, n: nat, x: nat)
    ensures x in Span(lo, n) <==> lo <= x < lo + n
  {
    if n > 0 { SpanHas(lo, n - 1, x); }
  }

  lemma {:induction false} SpanCard(lo: nat, n: nat)
    ensures |Span(lo, n)| <= n
  {
    if n > 0 { SpanCard(lo, n - 1); }
  }
}
