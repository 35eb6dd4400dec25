/** malloc, free and morecore of user/umalloc.c, over the header fields of memory. */
module Umalloc {
  import opened Blocks
  import opened Options
  import opened Ranges
  import opened HeapBlocks

  const UNIT := 8           // sizeof(Header)

  /** The place of block `b` in the ring. */
  lemma Place(r: seq<nat>, b: nat) returns (i: nat)
    requires |r| > 0 && Ascending(r) && r[0] < b && b !in r
    ensures i < |r| && r[i] < b && (i + 1 < |r| ==> b < r[i + 1])
  {
    i := 0;
    while i + 1 < |r| && r[i + 1] < b
      invariant i < |r| && r[i] < b
    {
      i := i + 1;
    }
    if i + 1 < |r| { assert r[i + 1] in r; }
  }

  /** free's loop stops at the place of `b` and nowhere else. */
  lemma StopsThere(r: seq<nat>, b: nat, i: nat, j: nat)
    requires Ascending(r) && i < |r| && j < |r| && r[0] == 0 < b && r[i] < b && (i + 1 < |r| ==> b < r[i + 1])
    ensures var p, q := r[j], After(r, j); (p < b < q || (p >= q && (b > p || b < q))) <==> i == j
  {
    if j < i { assert j + 1 == i || r[j + 1] < r[i]; }
    if i < j { assert i + 1 == j || r[i + 1] < r[j]; }
  }

  /** The successor fields after free put `b` between `p` and `q`, merging as told. */
  function FreeNext(next: seq<nat>, p: nat, b: nat, q: nat, right: bool, left: bool): seq<nat>
    requires p < |next| && b < |next| && q < |next|
  {
    var mine := if right then next[q] else q;
    next[b := mine][p := if left then mine else b]
  }

  function FreeSize(size: seq<nat>, p: nat, b: nat, q: nat, right: bool, left: bool): seq<nat>
    requires p < |size| && b < |size| && q < |size|
  {
    var s1 := if right then size[b := size[b] + size[q]] else size;
    if left then s1[p := s1[p] + s1[b]] else s1
  }

  ghost function FreeRing(r: seq<nat>, b: nat, i: nat, right: bool, left: bool): seq<nat>
    requires i < |r| && (right ==> i + 1 < |r|)
  {
    var r1 := Insert(r, i + 1, b);
    var r2 := if right then Remove(r1, i + 2) else r1;
    if left then Remove(r2, i + 1) else r2
  }

  lemma FreeRingAt(r: seq<nat>, b: nat, i: nat, right: bool)
    requires Ascending(r) && i < |r| && (right ==> i + 1 < |r|) && r[i] < b && (i + 1 < |r| ==> b < r[i + 1])
    ensures var t := FreeRing(r, b, i, right, false); Ascending(t) && i + 1 < |t| && t[i] == r[i] && t[i + 1] == b
  {
    InsertIs(r, i + 1, b);
    if right { RemoveIs(Insert(r, i + 1, b), i + 2); }
  }

  lemma FreeLinks(next: seq<nat>, r: seq<nat>, b: nat, i: nat, right: bool, left: bool)
    requires Linked(next, r) && Ascending(r) && i < |r| && (right ==> i + 1 < |r|) && b < |next| && r[i] < b && (i + 1 < |r| ==> b < r[i + 1])
    ensures After(r, i) < |next| && Linked(FreeNext(next, r[i], b, After(r, i), right, left), FreeRing(r, b, i, right, left))
  {
    InsertLinks(next, r, b, i);
    if right { RightLinks(next, r, b, i); }
    if left { LeftLinks(next, r, b, i, right); }
  }

  lemma LeftLinks(next: seq<nat>, r: seq<nat>, b: nat, i: nat, right: bool)
    requires Ascending(r) && i < |r| && (right ==> i + 1 < |r|) && r[i] < b && (i + 1 < |r| ==> b < r[i + 1])
    requires r[i] < |next| && b < |next| && After(r, i) < |next|
    requires Linked(FreeNext(next, r[i], b, After(r, i), right, false), FreeRing(r, b, i, right, false))
    ensures Linked(FreeNext(next, r[i], b, After(r, i), right, true), FreeRing(r, b, i, right, true))
  {
    var r2, n2 := FreeRing(r, b, i, right, false), FreeNext(next, r[i], b, After(r, i), right, false);
    FreeRingAt(r, b, i, right);
    LinkOut(n2, r2, i);
    assert n2[r[i] := n2[b]] == FreeNext(next, r[i], b, After(r, i), right, true);
  }

  lemma InsertLinks(next: seq<nat>, r: seq<nat>, b: nat, i: nat)
    requires Linked(next, r) && Ascending(r) && i < |r| && b < |next| && r[i] < b && (i + 1 < |r| ==> b < r[i + 1])
    ensures After(r, i) < |next| && Linked(FreeNext(next, r[i], b, After(r, i), false, false), Insert(r, i + 1, b))
  {
    var k: nat := if i + 1 < |r| then i + 1 else 0;
    assert LinkAt(next, r, i) && LinkAt(next, r, k) && After(r, i) == r[k];
    NotIn(r, b, i);
    LinkIn(next, r, i, b);
  }

  lemma RightLinks(next: seq<nat>, r: seq<nat>, b: nat, i: nat)
    requires Linked(next, r) && Ascending(r) && i + 1 < |r| && b < |next| && r[i] < b < r[i + 1]
    ensures r[i] < |next| && r[i + 1] < |next|
    ensures Linked(FreeNext(next, r[i], b, r[i + 1], true, false), Remove(Insert(r, i + 1, b), i + 2))
  {
    assert LinkAt(next, r, i) && LinkAt(next, r, i + 1);
    var r1, n1, q := Insert(r, i + 1, b), FreeNext(next, r[i], b, r[i + 1], false, false), r[i + 1];
    InsertLinks(next, r, b, i);
    InsertIs(r, i + 1, b);
    assert r1[i + 1] == b && r1[i + 2] == q;
    LinkOut(n1, r1, i + 1);
    assert n1[b := n1[q]] == FreeNext(next, r[i], b, q, true, false);
  }

  lemma NotIn(r: seq<nat>, b: nat, i: nat)
    requires Ascending(r) && i < |r| && r[i] < b && (i + 1 < |r| ==> b < r[i + 1])
    ensures b !in r
  {
    forall j | 0 <= j < |r| ensures r[j] != b {
      if j < i { assert r[j] < r[i]; }
      if j > i + 1 { assert r[i + 1] < r[j]; }
    }
  }

  lemma TouchRight(h: OkHeap, b: nat, i: nat)
    requires b in h.live && Follows(h, b, i)
    ensures b < |h.size| && (Touch(Unlive(h, b, i), i + 1) <==> b + h.size[b] == After(h.ring, i))
    ensures Touch(Unlive(h, b, i), i + 1) ==> Unlive(h, b, i).ring[i + 2] == After(h.ring, i)
  {
    assert h.Block(b) && h.Within(b);
    var t := Unlive(h, b, i);
    assert t.ring[i + 1] == b;
    if i + 1 < |h.ring| { assert t.ring[i + 2] == h.ring[i + 1] && h.Block(h.ring[i + 1]); }
  }

  lemma TouchLeft(h: OkHeap, b: nat, i: nat)
    requires b in h.live && Follows(h, b, i)
    ensures var h2 := Settle(Unlive(h, b, i), i + 1);
      h.ring[i] < |h.size| && |h2.ring| > i + 1 && h2.ring[i + 1] == b && h2.ring[i] == h.ring[i]
      && (Touch(h2, i) <==> h.ring[i] + h.size[h.ring[i]] == b)
  {
    UnliveTiled(h, b, i);
    SettleFrame(Unlive(h, b, i), i + 1);
    assert h.Block(b) && h.Within(b);
    if i > 0 { assert h.Block(h.ring[i]) && h.Within(h.ring[i]); }
  }

  lemma FreedRing(h: OkHeap, b: nat, i: nat)
    requires b in h.live && Follows(h, b, i)
    ensures b < |h.size| && h.ring[i] < |h.size|
    ensures var right, left := b + h.size[b] == After(h.ring, i), h.ring[i] + h.size[h.ring[i]] == b;
      && (right ==> i + 1 < |h.ring|) && Freed(h, b, i).ring == FreeRing(h.ring, b, i, right, left)
  {
    TouchRight(h, b, i);
    TouchLeft(h, b, i);
  }

  /** The size fields after free. */
  lemma FreedSize(h: OkHeap, b: nat, i: nat)
    requires b in h.live && Follows(h, b, i)
    ensures b < |h.size| && h.ring[i] < |h.size| && After(h.ring, i) < |h.size|
    ensures var p, q := h.ring[i], After(h.ring, i);
      Freed(h, b, i).size == FreeSize(h.size, p, b, q, b + h.size[b] == q, p + h.size[p] == b)
  {
    TouchRight(h, b, i);
    TouchLeft(h, b, i);
    assert h.Block(b) && h.Within(b);
    if i + 1 < |h.ring| { assert h.Block(h.ring[i + 1]) && h.Within(h.ring[i + 1]); }
  }

  /** The merged block holds at least what was freed. */
  lemma FreedFits(h: OkHeap, b: nat, i: nat) returns (f: nat)
    requires b in h.live && Follows(h, b, i)
    ensures b < |h.size| && 0 < f < |Freed(h, b, i).ring| && Freed(h, b, i).ring[f] < |Freed(h, b, i).size|
    ensures Freed(h, b, i).size[Freed(h, b, i).ring[f]] >= h.size[b]
  {
    FreedRing(h, b, i);
    FreedSize(h, b, i);
    FreedOk(h, b, i);
    var t := Freed(h, b, i);
    var right, left := b + h.size[b] == After(h.ring, i), h.ring[i] + h.size[h.ring[i]] == b;
    FreeRingAt(h.ring, b, i, right);
    f := if left then i else i + 1;
    assert t.ring[f] == if left then h.ring[i] else b;
  }

  // malloc's walk around the ring: the `s`-th block after position `j0`.

  function Pos(j0: nat, s: nat, n: nat): nat
    requires j0 < n && s < n
  {
    if j0 + 1 + s < n then j0 + 1 + s else j0 + 1 + s - n
  }

  /** BadBreak: sbrk was called with an argument that is not positive, so that what malloc takes for new memory
      was not obtained. */
  datatype Result = Null | Ptr(ap: nat) | BadBreak(arg: int)

  /** nunits of malloc, in 32-bit arithmetic. */
  function Units(nbytes: nat): nat { (nbytes + UNIT - 1) % TWO32 / UNIT + 1 }

  /** What morecore asks sbrk for, in units. */
  function Chunk(nu: nat): nat { if nu < 4096 then 4096 else nu }

  /** The int that sbrk gets for `nu` units: a 32-bit product, read as signed. */
  function BreakArg(nu: nat): int
  {
    var bytes := Chunk(nu) * UNIT % TWO32;
    if bytes < TWO32 / 2 then bytes else bytes - TWO32
  }

  /** The header fields in memory, and the heap they stand for. */
  datatype Mem = Mem(next: seq<nat>, size: seq<nat>, freep: nat, ready: bool, h: OkHeap)

  ghost predicate Agree(m: Mem)
  {
    && m.size == m.h.size && |m.next| == |m.size| && Linked(m.next, m.h.ring) && m.freep in m.h.ring
    && (!m.ready ==> m.h.ring == [0] && m.h.live == {})
  }

  type OkMem = m: Mem | Agree(m) ghost witness Mem([0], [0], 0, false, Heap([0], [0], {}, {}))

  class Allocator {
    var next: seq<nat>   // s.ptr of the header at each unit
    var size: seq<nat>   // s.size
    var freep: nat
    var ready: bool      // freep is not null; before that, the ring is `base` alone
    ghost var m: OkMem

    ghost predicate Valid()
      reads this
    {
      m == Mem(next, size, freep, ready, m.h)
    }

    constructor ()
      ensures Valid() && !ready && m.h.live == {} && m.h.units == {}
    {
      next, size, freep, ready := [0], [0], 0, false;
      m := Mem([0], [0], 0, false, Heap([0], [0], {}, {}));
    }

    /** free's search: the free block before `b`. It ends, wherever freep is. */
    method Search(b: nat) returns (p: nat, ghost i: nat)
      requires Valid() && b in m.h.live
      ensures Follows(m.h, b, i) && p == m.h.ring[i]
    {
      ghost var r := m.h.ring;
      assert m.h.Block(b) && m.h.Within(b);
      i := Place(r, b);
      p := freep;
      ghost var j: nat := Index(r, p);
      assert LinkAt(next, r, j);
      StopsThere(r, b, i, j);
      while !(b > p && b < next[p]) && !(p >= next[p] && (b > p || b < next[p]))
        invariant j < |r| && p == r[j] && LinkAt(next, r, j)
        invariant p < b < next[p] || (p >= next[p] && (b > p || b < next[p])) <==> i == j
        decreases if j <= i then i - j else |r| - j + i
      {
        p := next[p];
        j := if j + 1 < |r| then j + 1 else 0;
        StopsThere(r, b, i, j);
      }
    }

    /** free's stores. */
    method Relink(p: nat, b: nat, q: nat, right: bool, left: bool)
      requires p < |next| && b < |next| && q < |next| == |size|
      modifies this`next, this`size
      ensures next == FreeNext(old(next), p, b, q, right, left) && size == FreeSize(old(size), p, b, q, right, left)
    {
      if right {
        size := size[b := size[b] + size[q]];
        next := next[b := next[q]];
      } else {
        next := next[b := q];
      }
      if left {
        size := size[p := size[p] + size[b]];
        next := next[p := next[b]];
      } else {
        next := next[p := b];
      }
    }

    /** free: the allocation is gone, its units are free and coalesced, everything else stays. */
    method Free(ap: nat)
      requires Valid() && ap >= 1 && ap - 1 in m.h.live
      modifies this
      ensures Valid() && ready && FreedFrom(old(m).h, m.h, ap - 1)
    {
      var b := ap - 1;
      var p, i := Search(b);
      ghost var t := FreeAll(m, b, i, p);
      var q := next[p];
      Relink(p, b, q, b + size[b] == q, p + size[p] == b);
      freep := p;
      m := t;
    }

    /** morecore: `core` is what sbrk answers, in units, at or above everything obtained before. */
    method Morecore(nu: nat, core: Option<nat>) returns (p: Option<nat>)
      requires Valid() && ready && (core.Some? ==> core.value >= |size|)
      modifies this
      ensures Valid() && ready && (p.None? <==> core.None?)
      ensures p.None? ==> m == old(m)
      ensures p.Some? ==> p.value == freep && CoreFrom(old(m).h, m.h, core.value, Chunk(nu))
    {
      p := None;
      if core.Some? {
        Extend(core.value, Chunk(nu));
        p := Some(freep);
      }
    }

    method Extend(a: nat, n: nat)
      requires Valid() && ready && a >= |size| && n > 0
      modifies this
      ensures Valid() && ready && CoreFrom(old(m).h, m.h, a, n)
    {
      Obtain(a, n);
      ghost var h1 := m.h;
      Free(a + 1);
      MoreCore(old(m).h, h1, m.h, a, n);
    }

    /** The new block, with its size set. */
    method Obtain(a: nat, n: nat)
      requires Valid() && ready && a >= |size| && n > 0
      modifies this
      ensures Valid() && ready && ObtainedFrom(old(m).h, m.h, a, n)
    {
      var fill := seq(a - |size|, _ => 0);
      size := size + fill + [n] + seq(n - 1, _ => 0);
      next := next + fill + [0] + seq(n - 1, _ => 0);
      ObtainOk(m, next, size, a, n);
      m := Mem(next, size, freep, ready, Grown(m.h, size, a, n));
    }

    /** malloc's stores: `n` units from the end of block `p`, which follows `prevp`. */
    method Carve(p: nat, prevp: nat, n: nat) returns (x: nat)
      requires p < |size| == |next| && prevp < |next| && n <= size[p] && p + size[p] - n < |size|
      modifies this`next, this`size
      ensures x == p + old(size)[p] - n && |next| == old(|next|)
      ensures next == if old(size)[p] == n then old(next)[prevp := old(next)[p]] else old(next)
      ensures size == if old(size)[p] == n then old(size) else old(size)[p := old(size)[p] - n][x := n]
    {
      if size[p] == n {
        x := p;
        next := next[prevp := next[p]];
      } else {
        size := size[p := size[p] - n];
        x := p + size[p];
        size := size[x := n];
      }
    }

    /** malloc once the block at ring position `j` is found large enough. */
    method Take(p: nat, prevp: nat, n: nat, ghost j: nat) returns (x: nat)
      requires Valid() && ready && n > 0 && Fits(m.h, j, n) && p == m.h.ring[j] && prevp == m.h.ring[j - 1]
      modifies this
      ensures Valid() && ready && TakenFrom(old(m).h, m.h, x, n)
    {
      ghost var t := TakeOk(m, j, n, p, prevp);
      x := Carve(p, prevp, n);
      freep := prevp;
      m := t;
    }

    /** malloc's loop, from freep once around the ring: the first block of at least `n` units, and the
        one before it; or none is that large. */
    method Scan(n: nat) returns (found: bool, p: nat, prevp: nat, ghost j: nat)
      requires Valid() && n > 0
      ensures found ==> Fits(m.h, j, n) && p == m.h.ring[j] && prevp == m.h.ring[j - 1]
      ensures !found ==> NoFit(m.h, n)
    {
      ghost var h := m.h;
      prevp := freep;
      ghost var j0: nat := Index(h.ring, freep);
      WalkStarts(h, next, freep, j0, n);
      p := next[prevp];
      ghost var s: nat := 0;
      while size[p] < n && p != freep
        invariant p < |next| && Walking(h, freep, j0, s, p, prevp, n)
        decreases |h.ring| - s
      {
        WalkNext(h, next, freep, j0, s, p, prevp, n);
        prevp, p := p, next[p];
        s := s + 1;
      }
      found := size[p] >= n;
      j := WalkEnds(h, freep, j0, s, p, prevp, n);
    }

    /** malloc when a free block is large enough. */
    method TakeFirst(n: nat) returns (r: Result)
      requires Valid() && ready && n > 0
      modifies this
      ensures Valid() && ready && (r.Ptr? <==> !NoFit(old(m).h, n)) && (r.Ptr? || (r == Null && m == old(m)))
      ensures r.Ptr? ==> r.ap >= 1 && TakenFrom(old(m).h, m.h, r.ap - 1, n)
    {
      r := Null;
      var ok, p, prevp;
      ghost var j;
      ok, p, prevp, j := Scan(n);
      if ok {
        var x := Take(p, prevp, n, j);
        r := Ptr(x + 1);
      }
    }

    /** malloc: `core` is sbrk's answer should it be asked. A pointer to a new allocation of
        Units(nbytes) units, apart from all others; sbrk is asked at most once, and only when no free
        block was large enough, and with a positive argument unless the outcome is BadBreak, which leaves the heap
        as it was up to that call. `from` is the heap the block was taken from. */
    method Malloc(nbytes: nat, core: Option<nat>) returns (r: Result, ghost from: OkHeap)
      requires Valid() && nbytes < TWO32 && (core.Some? ==> core.value >= |size|)
      modifies this
      ensures Valid() && ready
      ensures r.BadBreak? <==> NoFit(old(m).h, Units(nbytes)) && BreakArg(Units(nbytes)) <= 0
      ensures r.BadBreak? ==> r.arg == BreakArg(Units(nbytes)) && m.h == old(m).h
      ensures r.Null? <==> NoFit(old(m).h, Units(nbytes)) && BreakArg(Units(nbytes)) > 0 && core.None?
      ensures r.Null? ==> m.h == old(m).h
      ensures r.Ptr? ==> r.ap >= 1 && TakenFrom(from, m.h, r.ap - 1, Units(nbytes))
      ensures r.Ptr? && !NoFit(old(m).h, Units(nbytes)) ==> from == old(m).h
      ensures r.Ptr? && NoFit(old(m).h, Units(nbytes)) ==> core.Some? && CoreFrom(old(m).h, from, core.value, Chunk(Units(nbytes)))
    {
      if !ready { Prime(); }
      r, from := Allocate(Units(nbytes), core);
    }

    /** malloc once there is a free list: the walk, and at its end morecore and the walk again. */
    method Allocate(n: nat, core: Option<nat>) returns (r: Result, ghost from: OkHeap)
      requires Valid() && ready && n > 0 && (core.Some? ==> core.value >= |size|)
      modifies this
      ensures Valid() && ready
      ensures r.BadBreak? <==> NoFit(old(m).h, n) && BreakArg(n) <= 0
      ensures r.BadBreak? ==> r.arg == BreakArg(n) && m.h == old(m).h
      ensures r.Null? <==> NoFit(old(m).h, n) && BreakArg(n) > 0 && core.None?
      ensures r.Null? ==> m.h == old(m).h
      ensures r.Ptr? ==> r.ap >= 1 && TakenFrom(from, m.h, r.ap - 1, n)
      ensures r.Ptr? && !NoFit(old(m).h, n) ==> from == old(m).h
      ensures r.Ptr? && NoFit(old(m).h, n) ==> core.Some? && CoreFrom(old(m).h, from, core.value, Chunk(n))
    {
      from := m.h;
      r := TakeFirst(n);
      if r.Null? { r, from := NoneFits(n, core); }
    }

    /** When no block fits: sbrk, unless its 32-bit argument would not grow the process. */
    method NoneFits(n: nat, core: Option<nat>) returns (r: Result, ghost from: OkHeap)
      requires Valid() && ready && n > 0 && (core.Some? ==> core.value >= |size|)
      modifies this
      ensures Valid() && ready
      ensures r.BadBreak? <==> BreakArg(n) <= 0
      ensures r.BadBreak? ==> r.arg == BreakArg(n) && m.h == old(m).h
      ensures r.Null? <==> BreakArg(n) > 0 && core.None?
      ensures r.Null? ==> m.h == old(m).h
      ensures r.Ptr? ==> core.Some? && r.ap >= 1 && TakenFrom(from, m.h, r.ap - 1, n) && CoreFrom(old(m).h, from, core.value, Chunk(n))
    {
      from := m.h;
      if BreakArg(n) <= 0 {
        r := BadBreak(BreakArg(n));
      } else {
        r, from := Retry(n, core);
      }
    }

    /** The first call of malloc makes the ring of `base` alone. */
    method Prime()
      requires Valid() && !ready
      modifies this
      ensures Valid() && ready && m.h == old(m).h && |size| == |old(size)|
    {
      assert LinkAt(m.next, m.h.ring, 0);
      next, size, freep, ready := next[0 := 0], size[0 := 0], 0, true;
      m := m.(ready := true);
    }

    /** malloc from the call of morecore on: with the new block, the second walk finds one. */
    method Retry(n: nat, core: Option<nat>) returns (r: Result, ghost from: OkHeap)
      requires Valid() && ready && n > 0 && (core.Some? ==> core.value >= |size|)
      modifies this
      ensures Valid() && ready && (core.None? ==> r == Null && m == old(m) && from == m.h)
      ensures core.Some? ==> r.Ptr? && r.ap >= 1 && TakenFrom(from, m.h, r.ap - 1, n)
      ensures core.Some? ==> CoreFrom(old(m).h, from, core.value, Chunk(n))
    {
      r := Null;
      var q := Morecore(n, core);
      from := m.h;
      if q.Some? {
        CoreFits(old(m).h, m.h, core.value, n);
        r := TakeFirst(n);
      }
    }
  }

  // The stores of each operation give headers that agree with the heap again.

  lemma FreeAll(m: OkMem, b: nat, i: nat, p: nat) returns (t: OkMem)
    requires b in m.h.live && Follows(m.h, b, i) && p == m.h.ring[i]
    ensures b < |m.size| && p < |m.size| && m.next[p] < |m.size| && t.ready && m.ready && t.freep == p && FreedFrom(m.h, t.h, b)
    ensures t.next == FreeNext(m.next, p, b, m.next[p], b + m.size[b] == m.next[p], p + m.size[p] == b)
    ensures t.size == FreeSize(m.size, p, b, m.next[p], b + m.size[b] == m.next[p], p + m.size[p] == b)
  {
    var h := m.h;
    FreedOk(h, b, i);
    FreedRing(h, b, i);
    FreedSize(h, b, i);
    var f := FreedFits(h, b, i);
    assert Fits(Freed(h, b, i), f, h.size[b]);
    var right, left := b + h.size[b] == After(h.ring, i), h.ring[i] + h.size[h.ring[i]] == b;
    FreeLinks(m.next, h.ring, b, i, right, left);
    assert LinkAt(m.next, h.ring, i);
    t := Mem(FreeNext(m.next, p, b, m.next[p], right, left), Freed(h, b, i).size, p, true, Freed(h, b, i));
  }

  lemma ObtainOk(m: OkMem, next: seq<nat>, size: seq<nat>, a: nat, n: nat)
    requires Extends(m.h, size, a, n) && |next| == |size| && forall u :: 0 <= u < |m.next| ==> next[u] == m.next[u]
    ensures Grown(m.h, size, a, n).Ok() && ObtainedFrom(m.h, Grown(m.h, size, a, n), a, n)
    ensures m.ready ==> Agree(Mem(next, size, m.freep, m.ready, Grown(m.h, size, a, n)))
  {
    GrownOk(m.h, size, a, n);
    StillLinked(m.next, next, m.h.ring);
  }

  lemma TakeOk(m: OkMem, j: nat, n: nat, p: nat, prevp: nat) returns (t: OkMem)
    requires n > 0 && Fits(m.h, j, n) && m.ready && p == m.h.ring[j] && prevp == m.h.ring[j - 1]
    ensures p < |m.size| && prevp < |m.next| && t.freep == prevp && t.ready && n <= m.size[p] && p + m.size[p] - n < |m.size|
    ensures t.next == if m.size[p] == n then m.next[prevp := m.next[p]] else m.next
    ensures t.size == if m.size[p] == n then m.size else m.size[p := m.size[p] - n][p + m.size[p] - n := n]
    ensures TakenFrom(m.h, t.h, p + m.size[p] - n, n)
  {
    var h := m.h;
    assert h.Block(p) && h.Within(p);
    TakenOk(h, j, n);
    LinkOut(m.next, h.ring, j - 1);
    if h.size[p] == n { assert Taken(h, j, n).ring[j - 1] == h.ring[j - 1]; }
    t := Mem(if m.size[p] == n then m.next[prevp := m.next[p]] else m.next, Taken(h, j, n).size, prevp, true, Taken(h, j, n));
  }

  /** The walk around the ring `r` that began at position `j0` is at its s-th block. */
  ghost predicate WalkAt(r: seq<nat>, freep: nat, j0: nat, s: nat, p: nat, prevp: nat)
  {
    && j0 < |r| && s < |r| && r[j0] == freep && p == r[Pos(j0, s, |r|)]
    && prevp == if s == 0 then freep else r[Pos(j0, s - 1, |r|)]
  }

  ghost predicate Small(h: Heap, j0: nat, x: nat, n: nat)
  {
    j0 < |h.ring| && x < |h.ring| && var p := h.ring[Pos(j0, x, |h.ring|)]; p < |h.size| && h.size[p] < n
  }

  ghost function Index(r: seq<nat>, x: nat): nat
    requires x in r
    ensures Index(r, x) < |r| && r[Index(r, x)] == x
  {
    var j: nat :| j < |r| && r[j] == x; j
  }

  /** Up to there no block was large enough. */
  ghost predicate Walking(h: Heap, freep: nat, j0: nat, s: nat, p: nat, prevp: nat, n: nat)
  {
    WalkAt(h.ring, freep, j0, s, p, prevp) && forall x: nat :: x < s ==> Small(h, j0, x, n)
  }

  ghost predicate NoFit(h: Heap, n: nat) { forall f: nat :: !Fits(h, f, n) }

  lemma CoreFits(h: OkHeap, t: OkHeap, a: nat, n: nat)
    requires CoreFrom(h, t, a, Chunk(n))
    ensures !NoFit(t, n)
  {
    var f :| Fits(t, f, Chunk(n));
    assert Fits(t, f, n);
  }

  lemma WalkStarts(h: OkHeap, next: seq<nat>, freep: nat, j0: nat, n: nat)
    requires Linked(next, h.ring) && j0 < |h.ring| && h.ring[j0] == freep
    ensures freep < |next| && Walking(h, freep, j0, 0, next[freep], freep, n) && next[freep] < |next|
  {
    var r := h.ring;
    var k: nat := if j0 + 1 < |r| then j0 + 1 else 0;
    assert LinkAt(next, r, j0) && LinkAt(next, r, k) && Pos(j0, 0, |r|) == k;
  }

  lemma WalkNext(h: OkHeap, next: seq<nat>, freep: nat, j0: nat, s: nat, p: nat, prevp: nat, n: nat)
    requires Linked(next, h.ring) && |next| == |h.size| && Walking(h, freep, j0, s, p, prevp, n) && p != freep && p < |next| && h.size[p] < n
    ensures Walking(h, freep, j0, s + 1, next[p], p, n) && next[p] < |next|
  {
    var r, k := h.ring, Pos(j0, s, |h.ring|);
    var l: nat := if k + 1 < |r| then k + 1 else 0;
    assert s + 1 < |r| && Pos(j0, s + 1, |r|) == l;
    assert LinkAt(next, r, k) && LinkAt(next, r, l);
    assert Small(h, j0, s, n);
  }

  lemma WalkEnds(h: OkHeap, freep: nat, j0: nat, s: nat, p: nat, prevp: nat, n: nat) returns (j: nat)
    requires Walking(h, freep, j0, s, p, prevp, n) && p < |h.size| && n > 0 && (h.size[p] >= n || p == freep)
    ensures if h.size[p] >= n then Fits(h, j, n) && p == h.ring[j] && prevp == h.ring[j - 1] else NoFit(h, n)
  {
    j := Pos(j0, s, |h.ring|);
    if h.size[p] < n {
      assert j == j0 && s == |h.ring| - 1;
      forall f: nat ensures !Fits(h, f, n) {
        if f < |h.ring| && f != j0 {
          var x := if f > j0 then f - j0 - 1 else f - j0 - 1 + |h.ring|;
          assert Pos(j0, x, |h.ring|) == f && Small(h, j0, x, n);
        }
      }
    }
  }

  ghost predicate KeptSizes(h: OkHeap, t: OkHeap)
  {
    |h.size| <= |t.size| && forall x :: x in h.live && x < |h.size| ==> t.size[x] == h.size[x]
  }

  ghost predicate ObtainedFrom(h: OkHeap, t: OkHeap, a: nat, n: nat)
  {
    && a !in h.live && a < |t.size| && t.size[a] == n && KeptSizes(h, t) && t.live == h.live + {a} && t.units == h.units + Span(a, n)
  }

  /** From `h` to `t` the `n` units at `a` joined the free blocks, one of which is now that large. */
  ghost predicate CoreFrom(h: OkHeap, t: OkHeap, a: nat, n: nat)
  {
    t.live == h.live && t.units == h.units + Span(a, n) && KeptSizes(h, t) && exists f :: Fits(t, f, n)
  }

  lemma MoreCore(h: OkHeap, h1: OkHeap, t: OkHeap, a: nat, n: nat)
    requires ObtainedFrom(h, h1, a, n) && FreedFrom(h1, t, a)
    ensures CoreFrom(h, t, a, n)
  {
  }

  /** From `h` to `t` exactly one allocation was added: `n` units at `x`. */
  ghost predicate TakenFrom(h: OkHeap, t: OkHeap, x: nat, n: nat)
  {
    && x !in h.live && t.live == h.live + {x} && t.units == h.units && x < |t.size| && t.size[x] == n && KeptSizes(h, t)
  }

  lemma StillLinked(next: seq<nat>, more: seq<nat>, r: seq<nat>)
    requires Linked(next, r) && |next| <= |more| && forall u :: 0 <= u < |next| ==> more[u] == next[u]
    ensures Linked(more, r)
  {
    forall i: nat | i < |r| ensures LinkAt(more, r, i) { assert LinkAt(next, r, i); }
  }

  /** From `h` to `t` allocation `b` was freed: the others, and the units, are the same, and some free
      block is at least as large as it was. */
  ghost predicate FreedFrom(h: OkHeap, t: OkHeap, b: nat)
  {
    && t.live == h.live - {b} && t.units == h.units && |t.size| == |h.size| && b < |h.size|
    && (forall x :: x in t.live && x < |t.size| ==> t.size[x] == h.size[x])
    && exists f :: Fits(t, f, h.size[b])
  }

  ghost predicate Fits(h: Heap, f: nat, n: nat) { 0 < f < |h.ring| && h.ring[f] < |h.size| && h.size[h.ring[f]] >= n }

  /** Every unit obtained from sbrk, and no other, is in a block, free or allocated, and in only one. */
  lemma EachUnitOnce(h: OkHeap, u: nat)
    ensures u in h.units <==> exists b: nat :: h.Block(b) && b <= u < b + h.size[b]
    ensures forall b: nat, c: nat :: h.Block(b) && h.Block(c) && b <= u < b + h.size[b] && c <= u < c + h.size[c] ==> b == c
  {
    if b: nat :| h.Block(b) && b <= u < b + h.size[b] { assert h.Covers(b, u); }
    if u in h.units {
      var b: nat :| h.Block(b) && h.Covers(b, u);
    }
  }

  /** The bytes behind the header suffice exactly when nbytes + 7 does not wrap. */
  lemma Enough(nbytes: nat)
    requires nbytes < TWO32
    ensures (Units(nbytes) - 1) * UNIT >= nbytes <==> nbytes <= TWO32 - UNIT
    ensures (Units(TWO32 - 1) - 1) * UNIT == 0
  {
  }

  /** sbrk's argument is positive, so that the break grows, exactly for these requests; for eight requests it is 0,
      and sbrk succeeds without moving the break; for the others it is negative. */
  lemma BreakGrows(nbytes: nat)
    requires nbytes < TWO32
    ensures BreakArg(Units(nbytes)) > 0 <==> nbytes <= TWO32 / 2 - 2 * UNIT || nbytes > TWO32 - UNIT
    ensures BreakArg(Units(nbytes)) == 0 <==> TWO32 - 2 * UNIT < nbytes <= TWO32 - UNIT
    ensures BreakArg(Units(nbytes)) < 0 <==> TWO32 / 2 - 2 * UNIT < nbytes <= TWO32 - 2 * UNIT
    ensures BreakArg(Units(nbytes)) > 0 ==> BreakArg(Units(nbytes)) == Chunk(Units(nbytes)) * UNIT
  {
    var nu := Units(nbytes);
    if nbytes + UNIT - 1 < TWO32 {
      assert nu == (nbytes + UNIT - 1) / UNIT + 1;
    } else {
      assert nu == 1;
    }
  }
}
