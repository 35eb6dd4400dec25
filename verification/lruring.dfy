/** The circular doubly linked list of kernel/bio.c: the next and prev links of
    every position, and what inserting and removing do to the cycle they form. */
module LruRing {
  datatype Chain = Chain(next: seq<nat>, prev: seq<nat>, order: seq<nat>)

  /** next and prev thread exactly the positions of `order`, once each, into one cycle. */
  ghost predicate Cyclic(c: Chain)
  {
    && |c.order| > 0 && |c.next| == |c.prev|
    && (forall i {:trigger c.order[i]} :: 0 <= i < |c.order| ==> c.order[i] < |c.next|)
    && (forall i, j :: 0 <= i < j < |c.order| ==> c.order[i] != c.order[j])
    && (forall i {:trigger c.next[c.order[i]]} :: 0 <= i < |c.order| - 1 ==> c.next[c.order[i]] == c.order[i + 1])
    && (forall i {:trigger c.prev[c.order[i]]} :: 1 <= i < |c.order| ==> c.prev[c.order[i]] == c.order[i - 1])
    && c.next[c.order[|c.order| - 1]] == c.order[0]
    && c.prev[c.order[0]] == c.order[|c.order| - 1]
  }

  type Cycle = c: Chain | Cyclic(c) ghost witness Chain([0], [0], [0])

  /** The links after inserting `b` behind the head. */
  ghost function Pushed(c: Cycle, b: nat): Chain
    requires b < |c.next|
  {
    var h, first := c.order[0], c.next[c.order[0]];
    assert c.order == [h] + c.order[1..];
    assert |c.order| > 1 ==> first == c.order[1];
    Chain(c.next[b := first][h := b], c.prev[b := h][first := b], [h, b] + c.order[1..])
  }

  lemma PushKeeps(c: Cycle, b: nat)
    requires b < |c.next| && b !in c.order
    ensures Cyclic(Pushed(c, b))
  {
  }

  /** The links after removing the buffer at position `k` of the order. */
  ghost function Unlinked(c: Cycle, k: nat): Chain
    requires 1 <= k < |c.order|
  {
    var b := c.order[k];
    var n, p := c.next[b], c.prev[b];
    assert n == if k + 1 < |c.order| then c.order[k + 1] else c.order[0];
    Chain(c.next[p := n], c.prev[n := p], c.order[..k] + c.order[k + 1..])
  }

  /** Position `i` of the shortened order is position `i` or `i + 1` of the old one. */
  lemma UnlinkedAt(c: Cycle, k: nat, i: nat)
    requires 1 <= k < |c.order| && i < |c.order| - 1
    ensures Unlinked(c, k).order[i] == c.order[if i < k then i else i + 1]
    ensures Unlinked(c, k).order[i] < |c.next| && Unlinked(c, k).order[i] != c.order[k]
  {
  }

  lemma UnlinkedNext(c: Cycle, k: nat, i: nat)
    requires 1 <= k < |c.order| && i < |c.order| - 1
    ensures Unlinked(c, k).order[i] < |c.next|
    ensures Unlinked(c, k).next[Unlinked(c, k).order[i]] == Unlinked(c, k).order[if i < |c.order| - 2 then i + 1 else 0]
  {
    var j := if i < k then i else i + 1;
    UnlinkedAt(c, k, i);
    assert c.prev[c.order[k]] == c.order[k - 1];
    assert c.next[c.order[j]] == c.order[if j < |c.order| - 1 then j + 1 else 0];
  }

  lemma UnlinkedPrev(c: Cycle, k: nat, i: nat)
    requires 1 <= k < |c.order| && i < |c.order| - 1
    ensures Unlinked(c, k).order[i] < |c.prev|
    ensures Unlinked(c, k).prev[Unlinked(c, k).order[i]] == Unlinked(c, k).order[if i > 0 then i - 1 else |c.order| - 2]
  {
    var j := if i < k then i else i + 1;
    UnlinkedAt(c, k, i);
    assert c.prev[c.order[k]] == c.order[k - 1];
    assert c.prev[c.order[j]] == c.order[if j > 0 then j - 1 else |c.order| - 1];
  }

  lemma UnlinkKeeps(c: Cycle, k: nat)
    requires 1 <= k < |c.order|
    ensures Cyclic(Unlinked(c, k)) && c.order[k] !in Unlinked(c, k).order
  {
    var d, n := Unlinked(c, k), |c.order| - 1;
    forall i | 0 <= i < n ensures d.order[i] < |d.next| && d.order[i] != c.order[k] { UnlinkedAt(c, k, i); }
    forall i, j | 0 <= i < j < n ensures d.order[i] != d.order[j] { UnlinkedAt(c, k, i); UnlinkedAt(c, k, j); }
    forall i | 0 <= i < n ensures d.next[d.order[i]] == d.order[if i < n - 1 then i + 1 else 0] { UnlinkedNext(c, k, i); }
    forall i | 0 <= i < n ensures d.prev[d.order[i]] == d.order[if i > 0 then i - 1 else n - 1] { UnlinkedPrev(c, k, i); }
  }
}
