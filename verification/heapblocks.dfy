/** The heap of user/umalloc.c as a value. Addresses and sizes count header units of 8 bytes; unit 0
    is the header `base`, the heap lies above it. */
module HeapBlocks {
  import opened Ranges

  ghost predicate Ascending(r: seq<nat>) { forall i, j :: 0 <= i < j < |r| ==> r[i] < r[j] }

  ghost function Insert(r: seq<nat>, i: nat, x: nat): seq<nat>
    requires i <= |r|
  {
    r[..i] + [x] + r[i..]
  }

  ghost function Remove(r: seq<nat>, i: nat): seq<nat>
    requires i < |r|
  {
    r[..i] + r[i + 1..]
  }

  lemma InsertIs(r: seq<nat>, i: nat, x: nat)
    requires i <= |r|
    ensures forall y :: y in Insert(r, i, x) <==> y == x || y in r
    ensures Ascending(r) && (i > 0 ==> r[i - 1] < x) && (i < |r| ==> x < r[i]) ==> Ascending(Insert(r, i, x))
  {
    forall y ensures y in Insert(r, i, x) <==> y == x || y in r { assert r == r[..i] + r[i..]; }
  }

  lemma RemoveIs(r: seq<nat>, i: nat)
    requires i < |r| && Ascending(r)
    ensures Ascending(Remove(r, i)) && forall y :: y in Remove(r, i) <==> y in r && y != r[i]
  {
    forall y ensures y in Remove(r, i) <==> y in r && y != r[i] {
      assert r == r[..i] + [r[i]] + r[i + 1..];
    }
  }

  datatype Heap = Heap(size: seq<nat>, ring: seq<nat>, live: set<nat>, units: set<nat>) {

    ghost predicate Block(h: nat) { h in live || (h in ring && h != 0) }

    ghost predicate Within(h: nat)
    {
      1 <= h < |size| && size[h] >= 1 && h + size[h] <= |size|
    }

    ghost predicate Shape()
    {
      && |size| > 0 && size[0] == 0 && |ring| > 0 && ring[0] == 0 && Ascending(ring)
      && (forall h :: h in live ==> h !in ring)
      && (forall h :: Block(h) ==> Within(h))
    }

    /** Blocks do not overlap. */
    ghost predicate Disjoint()
      requires Shape()
    {
      forall g: nat, h: nat {:trigger Block(g), Block(h)} :: Block(g) && Block(h) && g < h ==> g + size[g] <= h
    }

    ghost predicate Covers(h: nat, u: nat)
      requires Shape() && Block(h)
    {
      h <= u < h + size[h]
    }

    /** `units` are exactly the units in blocks. */
    ghost predicate Tiles()
      requires Shape()
    {
      forall u: nat :: u in units <==> exists h :: Block(h) && Covers(h, u)
    }

    ghost predicate Tiled() { Shape() && Disjoint() && Tiles() }

    /** No free block touches the next one. */
    ghost predicate Coalesced()
      requires Shape()
    {
      forall g: nat :: Block(g) && g in ring ==> g + size[g] !in ring
    }

    ghost predicate Ok() { Tiled() && Coalesced() }
  }

  type OkHeap = h: Heap | h.Ok() ghost witness Heap([0], [0], {}, {})

  // free in steps: the block goes into the ring, then touching neighbours are merged.

  ghost function Unlive(h: Heap, b: nat, i: nat): Heap
    requires i < |h.ring|
  {
    h.(live := h.live - {b}, ring := Insert(h.ring, i + 1, b))
  }

  /** Block `b` belongs right after ring position `i`. */
  ghost predicate Follows(h: Heap, b: nat, i: nat)
  {
    i < |h.ring| && h.ring[i] < b && (i + 1 < |h.ring| ==> b < h.ring[i + 1])
  }

  lemma UnliveTiled(h: Heap, b: nat, i: nat)
    requires h.Tiled() && b in h.live && Follows(h, b, i)
    ensures Unlive(h, b, i).Tiled() && forall x :: h.Block(x) <==> Unlive(h, b, i).Block(x)
  {
    var t := Unlive(h, b, i);
    InsertIs(h.ring, i + 1, b);
    assert forall x :: h.Block(x) <==> t.Block(x);
    forall u: nat ensures u in t.units <==> exists x :: t.Block(x) && t.Covers(x, u) {
      if x :| h.Block(x) && h.Covers(x, u) { assert t.Block(x) && t.Covers(x, u); }
      if x :| t.Block(x) && t.Covers(x, u) { assert h.Block(x) && h.Covers(x, u); }
    }
  }

  /** The blocks at ring positions `j` and j+1 touch. */
  ghost predicate Touch(h: Heap, j: nat)
  {
    && 0 < j && j + 1 < |h.ring| && h.ring[j] < |h.size| && h.ring[j + 1] < |h.size|
    && h.ring[j] + h.size[h.ring[j]] == h.ring[j + 1]
  }

  /** If they do, the first swallows the second. */
  ghost function Settle(h: Heap, j: nat): Heap
  {
    if Touch(h, j) then
      var p, q := h.ring[j], h.ring[j + 1];
      h.(size := h.size[p := h.size[p] + h.size[q]], ring := Remove(h.ring, j + 1))
    else h
  }

  lemma SettleTiled(h: Heap, j: nat)
    requires h.Tiled()
    ensures Settle(h, j).Tiled() && forall x: nat :: Settle(h, j).Block(x) <==> h.Block(x) && !(Touch(h, j) && x == h.ring[j + 1])
  {
    if Touch(h, j) {
      var p, q := h.ring[j], h.ring[j + 1];
      assert h.Block(p) && h.Block(q);
      var t := Settle(h, j);
      RemoveIs(h.ring, j + 1);
      assert forall x: nat :: t.Block(x) <==> h.Block(x) && x != q;
      assert t.ring[0] == h.ring[0];
      assert h.Within(p) && h.Within(q);
      assert t.Shape();
      MergeTiles(h, t, p, q);
    }
  }

  /** No free block touches the next, `x` and `y` perhaps excepted. */
  ghost predicate Loose(h: Heap, x: nat, y: nat)
  {
    h.Shape() && forall g: nat :: h.Block(g) && g in h.ring && g != x && g != y ==> g + h.size[g] !in h.ring
  }

  lemma SettleLoose(h: Heap, j: nat, x: nat)
    requires h.Tiled() && 0 < j < |h.ring| && Loose(h, x, h.ring[j]) && (j + 1 < |h.ring| ==> h.ring[j + 1] != x)
    ensures Loose(Settle(h, j), x, x)
  {
    var p, t := h.ring[j], Settle(h, j);
    SettleTiled(h, j);
    if Touch(h, j) { RemoveIs(h.ring, j + 1); }
    assert h.Block(p);
    forall g: nat | t.Block(g) && g in t.ring && g != x ensures g + t.size[g] !in t.ring {
      assert h.Block(g);
      if g == p {
        if Touch(h, j) { assert h.Block(h.ring[j + 1]); } else { EndApart(h, j); }
      }
    }
  }

  lemma EndApart(h: Heap, j: nat)
    requires h.Tiled() && 0 < j < |h.ring| && !Touch(h, j)
    ensures h.Block(h.ring[j]) && h.ring[j] + h.size[h.ring[j]] !in h.ring
  {
    var p := h.ring[j];
    assert h.Block(p);
    forall m | 0 <= m < |h.ring| ensures h.ring[m] != p + h.size[p] {
      if m <= j {
        assert h.ring[m] <= p;
      } else if m > j + 1 {
        assert h.Block(h.ring[j + 1]) && h.ring[j + 1] < h.ring[m];
      } else {
        assert h.Block(h.ring[m]);
      }
    }
  }

  lemma MergeTiles(h: Heap, t: Heap, p: nat, q: nat)
    requires h.Tiled() && t.Shape() && h.Block(p) && h.Block(q) && p + h.size[p] == q && t.units == h.units
    requires t.size == h.size[p := h.size[p] + h.size[q]] && forall x :: t.Block(x) <==> h.Block(x) && x != q
    ensures t.Tiled()
  {
    forall u: nat ensures u in t.units <==> exists x :: t.Block(x) && t.Covers(x, u) {
      if x :| h.Block(x) && h.Covers(x, u) {
        var y := if x == q then p else x;
        assert t.Block(y) && t.Covers(y, u);
      }
      if x :| t.Block(x) && t.Covers(x, u) {
        var y := if x == p && u >= q then q else x;
        assert h.Block(y) && h.Covers(y, u);
      }
    }
  }

  /** free of block `b`, whose predecessor in the ring is at position `i`. */
  ghost function Freed(h: Heap, b: nat, i: nat): Heap
    requires i < |h.ring|
  {
    Settle(Settle(Unlive(h, b, i), i + 1), i)
  }

  lemma SettleFrame(h: Heap, j: nat)
    requires h.Tiled()
    ensures var t := Settle(h, j);
      && t.live == h.live && t.units == h.units && |t.size| == |h.size|
      && (forall x :: x in h.live && x < |h.size| ==> t.size[x] == h.size[x])
      && (forall m :: 0 <= m <= j && m < |h.ring| ==> m < |t.ring| && t.ring[m] == h.ring[m])
  {
    assert forall x :: x in h.live ==> h.Block(x) && h.Within(x);
  }

  lemma UnliveLoose(h: OkHeap, b: nat, i: nat)
    requires b in h.live && Follows(h, b, i)
    ensures Unlive(h, b, i).Shape() && Loose(Unlive(h, b, i), h.ring[i], b)
  {
    UnliveTiled(h, b, i);
    var t := Unlive(h, b, i);
    InsertIs(h.ring, i + 1, b);
    forall g: nat | t.Block(g) && g in t.ring && g != h.ring[i] && g != b ensures g + t.size[g] !in t.ring {
      assert h.Block(g) && g + h.size[g] !in h.ring;
      if g + h.size[g] == b { Between(h, b, i, g); }
    }
  }

  /** Only the predecessor can end where the block begins. */
  lemma Between(h: OkHeap, b: nat, i: nat, g: nat)
    requires b in h.live && Follows(h, b, i) && h.Block(g) && g in h.ring && g + h.size[g] == b
    ensures g == h.ring[i]
  {
    var m :| 0 <= m < |h.ring| && h.ring[m] == g;
    if m < i { assert h.Block(h.ring[i]) && h.Block(b); }
  }

  /** free keeps the ring in order, blocks apart and free blocks coalesced; it takes away exactly the
      freed allocation and loses no unit. */
  lemma FreedOk(h: OkHeap, b: nat, i: nat)
    requires b in h.live && Follows(h, b, i)
    ensures var t := Freed(h, b, i);
      && t.Ok() && t.live == h.live - {b} && t.units == h.units && |t.size| == |h.size|
      && (forall x :: x in h.live && x != b && x < |h.size| ==> t.size[x] == h.size[x]) && i < |t.ring| && t.ring[i] == h.ring[i]
  {
    var h1 := Unlive(h, b, i);
    UnliveTiled(h, b, i);
    UnliveLoose(h, b, i);
    InsertIs(h.ring, i + 1, b);
    var h2 := Settle(h1, i + 1);
    SettleTiled(h1, i + 1);
    SettleFrame(h1, i + 1);
    SettleLoose(h1, i + 1, h.ring[i]);
    SettleTiled(h2, i);
    SettleFrame(h2, i);
    if i > 0 { SettleLoose(h2, i, 0); }
  }

  // malloc: the tail of a free block, or all of it, becomes an allocation.

  /** The header of `n` units taken from the block at ring position `j`. */
  ghost function TakenAt(h: Heap, j: nat, n: nat): nat
    requires j < |h.ring| && h.ring[j] < |h.size| && n <= h.size[h.ring[j]]
  {
    h.ring[j] + h.size[h.ring[j]] - n
  }

  ghost function Taken(h: Heap, j: nat, n: nat): Heap
    requires j < |h.ring| && h.ring[j] < |h.size| && n <= h.size[h.ring[j]] && TakenAt(h, j, n) < |h.size|
  {
    var p, x := h.ring[j], TakenAt(h, j, n);
    if h.size[p] == n then h.(live := h.live + {p}, ring := Remove(h.ring, j))
    else h.(live := h.live + {x}, size := h.size[p := h.size[p] - n][x := n])
  }

  ghost predicate CanTake(h: Heap, j: nat, n: nat)
  {
    0 < j < |h.ring| && h.ring[j] < |h.size| && 0 < n <= h.size[h.ring[j]] && TakenAt(h, j, n) < |h.size|
  }

  lemma Inside(h: OkHeap, p: nat, x: nat)
    requires h.Block(p) && p < x < p + h.size[p]
    ensures !h.Block(x)
  {
  }

  lemma TakenBlocks(h: OkHeap, j: nat, n: nat)
    requires CanTake(h, j, n)
    ensures h.Block(h.ring[j])
    ensures var t, x := Taken(h, j, n), TakenAt(h, j, n); forall y: nat :: t.Block(y) <==> h.Block(y) || y == x
    ensures TakenAt(h, j, n) !in h.live && (h.size[h.ring[j]] > n ==> !h.Block(TakenAt(h, j, n)))
  {
    var p, x := h.ring[j], TakenAt(h, j, n);
    assert h.Block(p);
    if h.size[p] == n { RemoveIs(h.ring, j); }
    if x != p { Inside(h, p, x); }
  }

  lemma TakenTiled(h: OkHeap, j: nat, n: nat)
    requires CanTake(h, j, n)
    ensures Taken(h, j, n).Tiled()
  {
    var p, x, t := h.ring[j], TakenAt(h, j, n), Taken(h, j, n);
    TakenBlocks(h, j, n);
    assert h.Within(p);
    if h.size[p] == n { RemoveIs(h.ring, j); }
    assert t.Shape();
    forall u: nat ensures u in t.units <==> exists y :: t.Block(y) && t.Covers(y, u) {
      if y :| h.Block(y) && h.Covers(y, u) {
        var z := if y == p && u >= x then x else y;
        assert t.Block(z) && t.Covers(z, u);
      }
      if y :| t.Block(y) && t.Covers(y, u) {
        var z := if y == x then p else y;
        assert h.Block(z) && h.Covers(z, u);
      }
    }
  }

  /** malloc keeps the ring in order, blocks apart and free blocks coalesced; it adds exactly one
      allocation of `n` units and loses no unit. */
  lemma TakenOk(h: OkHeap, j: nat, n: nat)
    requires CanTake(h, j, n)
    ensures var t, x := Taken(h, j, n), TakenAt(h, j, n);
      && t.Ok() && x !in h.live && t.live == h.live + {x} && t.units == h.units && |t.size| == |h.size| && t.size[x] == n
      && (forall y :: y in h.live && y < |h.size| ==> t.size[y] == h.size[y])
  {
    var p, x, t := h.ring[j], TakenAt(h, j, n), Taken(h, j, n);
    TakenBlocks(h, j, n);
    TakenTiled(h, j, n);
    if h.size[p] == n { RemoveIs(h.ring, j); }
    forall g: nat | t.Block(g) && g in t.ring ensures g + t.size[g] !in t.ring {
      assert h.Block(g);
      assert x in h.ring ==> h.Block(x);
    }
  }

  // sbrk: `n` units at address `a`, at or above the end of everything so far.

  ghost predicate Extends(h: Heap, size: seq<nat>, a: nat, n: nat)
  {
    n > 0 && |h.size| <= a && |size| == a + n && size[a] == n && forall u :: 0 <= u < |h.size| ==> size[u] == h.size[u]
  }

  ghost function Grown(h: Heap, size: seq<nat>, a: nat, n: nat): Heap
  {
    h.(size := size, live := h.live + {a}, units := h.units + Span(a, n))
  }

  lemma GrownOk(h: OkHeap, size: seq<nat>, a: nat, n: nat)
    requires Extends(h, size, a, n)
    ensures Grown(h, size, a, n).Ok() && a !in h.live
  {
    var t := Grown(h, size, a, n);
    assert !h.Block(a) by { assert h.Block(a) ==> h.Within(a); }
    assert forall y: nat :: t.Block(y) <==> h.Block(y) || y == a;
    assert t.Shape();
    forall u: nat ensures u in t.units <==> exists y :: t.Block(y) && t.Covers(y, u) {
      SpanHas(a, n, u);
      if y :| h.Block(y) && h.Covers(y, u) { assert t.Block(y) && t.Covers(y, u); }
      if u in Span(a, n) { assert t.Block(a) && t.Covers(a, u); }
      if y :| t.Block(y) && t.Covers(y, u) { if y != a { assert h.Block(y) && h.Covers(y, u); } }
    }
    forall g: nat | t.Block(g) && g in t.ring ensures g + t.size[g] !in t.ring { assert h.Block(g); }
  }

  // The ring in memory.

  ghost function After(r: seq<nat>, i: nat): nat
    requires i < |r|
  {
    if i + 1 < |r| then r[i + 1] else r[0]
  }

  ghost predicate LinkAt(next: seq<nat>, r: seq<nat>, i: nat)
    requires i < |r|
  {
    r[i] < |next| && next[r[i]] == After(r, i)
  }

  ghost predicate Linked(next: seq<nat>, r: seq<nat>)
  {
    forall i: nat :: i < |r| ==> LinkAt(next, r, i)
  }

  lemma LinkIn(next: seq<nat>, r: seq<nat>, i: nat, x: nat)
    requires Linked(next, r) && Ascending(r) && i < |r| && x < |next| && x !in r
    ensures LinkAt(next, r, i) && Linked(next[x := After(r, i)][r[i] := x], Insert(r, i + 1, x))
  {
    assert LinkAt(next, r, i);
    var t := Insert(r, i + 1, x);
    var nx := next[x := After(r, i)][r[i] := x];
    forall k: nat | k < |t| ensures LinkAt(nx, t, k) {
      if k > i + 1 { assert t[k] == r[k - 1] && LinkAt(next, r, k - 1); }
      if k < i { assert LinkAt(next, r, k); }
    }
  }

  lemma LinkOut(next: seq<nat>, r: seq<nat>, i: nat)
    requires Linked(next, r) && Ascending(r) && i + 1 < |r|
    ensures LinkAt(next, r, i) && LinkAt(next, r, i + 1) && Linked(next[r[i] := next[r[i + 1]]], Remove(r, i + 1))
  {
    var t := Remove(r, i + 1);
    assert LinkAt(next, r, i) && LinkAt(next, r, i + 1);
    var nx := next[r[i] := next[r[i + 1]]];
    forall k: nat | k < |t| ensures LinkAt(nx, t, k) {
      if k > i { assert t[k] == r[k + 1] && LinkAt(next, r, k + 1); }
      if k < i { assert LinkAt(next, r, k); }
    }
  }
}
