/** kernel/kalloc.c and the user half of kernel/vm.c, in place. Addresses of whole pages are page
    numbers; virtual addresses and sizes are 32-bit numbers. */
module Vm {
  import opened Options
  import opened Blocks
  import opened PageMem

  const PHYSTOP := 0x88000       // page number of the end of RAM
  const KERNBASE := 0x80000      // page number of its start
  const MAXVA := 0xFFFFFFFF
  const PTE_RWXU := 30

  /** PGROUNDUP(sz) / PGSIZE. */
  function Pages(sz: nat): nat { (sz + PGSIZE - 1) / PGSIZE }

  // No process can have more pages than there are.

  ghost function Held0(m: OkMm, r: nat, n: nat): set<nat>
    requires m.IsRoot(r) && n <= USER
  {
    if n == 0 then {} else Held0(m, r, n - 1) + {m.Look(r, n - 1).ppn}
  }

  lemma {:induction false} HeldIs(m: OkMm, r: nat, n: nat, p: nat)
    requires m.IsRoot(r) && n <= USER && p in Held0(m, r, n)
    ensures exists v: nat :: v < n && m.Look(r, v).ppn == p
  {
    if p != m.Look(r, n - 1).ppn { HeldIs(m, r, n - 1, p); }
  }

  lemma {:induction false} HeldCard(m: OkMm, r: nat, n: nat)
    requires m.IsRoot(r) && n <= USER && forall v: nat :: v < n ==> m.Look(r, v).Valid()
    ensures |Held0(m, r, n)| == n && forall p :: p in Held0(m, r, n) ==> m.first <= p < |m.owner|
  {
    if n > 0 {
      HeldCard(m, r, n - 1);
      LeafOwned(m, r, n - 1);
      HeldNew(m, r, n - 1);
    }
  }

  lemma HeldNew(m: OkMm, r: nat, n: nat)
    requires m.IsRoot(r) && n < USER && forall v: nat :: v <= n ==> m.Look(r, v).Valid()
    ensures m.Look(r, n).ppn !in Held0(m, r, n)
  {
    var p := m.Look(r, n).ppn;
    if p in Held0(m, r, n) {
      HeldIs(m, r, n, p);
      var v: nat :| v < n && m.Look(r, v).ppn == p;
      OneLeaf(m, r, v, r, n);
    }
  }

  lemma {:induction false} AtMost(s: set<nat>, lo: nat, hi: nat)
    requires lo <= hi && forall p :: p in s ==> lo <= p < hi
    ensures |s| <= hi - lo
    decreases hi - lo
  {
    if lo == hi {
      assert s == {};
    } else {
      AtMost(s - {lo}, lo + 1, hi);
    }
  }

  /** A process whose first `n` pages are present has no more of them than RAM has. */
  lemma Fits(m: OkMm, r: nat, n: nat)
    requires m.IsRoot(r) && n <= USER && m.first <= |m.owner| && forall v: nat :: v < n ==> See(m, r, v) != Absent
    ensures n <= |m.owner| - m.first
  {
    forall v: nat | v < n ensures m.Look(r, v).Valid() { assert See(m, r, v) != Absent; }
    HeldCard(m, r, n);
    AtMost(Held0(m, r, n), m.first, |m.owner|);
  }

  /** Exactly the first `n` pages below the trapframe are present. */
  ghost predicate Sized(m: OkMm, r: nat, n: nat)
  {
    m.IsRoot(r) && n <= USER && forall v: nat :: v < USER ==> (See(m, r, v) != Absent <==> v < n)
  }

  /** From `m` to `n` pages only left the free list, to become tables of root `r`. */
  ghost predicate OwnersTaken(m: OkMm, n: OkMm, r: nat)
  {
    && |n.owner| == |m.owner|
    && forall p :: 0 <= p < |m.owner| ==> n.owner[p] == m.owner[p] || (m.owner[p] == Free && n.owner[p].In? && n.owner[p].t == r)
  }

  ghost predicate TablesTaken(m: OkMm, n: OkMm, r: nat)
  {
    && OwnersTaken(m, n, r)
    && forall p :: 0 <= p < |m.owner| && m.owner[p] == Held ==> n.frames[p] == m.frames[p]
  }

  /** From `m` to `n` the held page `p` went to root `r`, and pages left the free list for its tables. */
  ghost predicate Mapped(m: OkMm, n: OkMm, r: nat, p: nat)
  {
    && |n.owner| == |m.owner|
    && forall q :: 0 <= q < |m.owner| && q != p ==> n.owner[q] == m.owner[q] || (m.owner[q] == Free && n.owner[q].In? && n.owner[q].t == r)
  }

  /** Page `p` is a leaf of root `r`, at a virtual page in lo..hi. */
  ghost predicate LeafIn(m: OkMm, r: nat, p: nat, lo: nat, hi: nat)
  {
    && p < |m.owner| && m.owner[p].In? && m.owner[p].t < |m.owner|
    && var top := m.owner[m.owner[p].t]; top.In? && top.t == r && lo <= top.k * NPTE + m.owner[p].k < hi
  }

  /** From `m` to `n` exactly the leaves of root `r` in lo..hi became free. */
  ghost predicate Freed(m: OkMm, n: OkMm, r: nat, lo: nat, hi: nat)
  {
    && |n.owner| == |m.owner|
    && forall p: nat :: p < |m.owner| ==> n.owner[p] == if LeafIn(m, r, p, lo, hi) then Free else m.owner[p]
  }

  /** Every process sees what it saw, except that pages lo..hi of root `r` are gone. */
  ghost predicate Cut(m: OkMm, n: OkMm, r: nat, lo: nat, hi: nat)
  {
    forall q: nat, v: nat :: v < VPAGES ==> See(n, q, v) == if q == r && lo <= v < hi then Absent else See(m, q, v)
  }

  lemma LeafSeen(m: OkMm, r: nat, p: nat, lo: nat, hi: nat)
    requires LeafIn(m, r, p, lo, hi) && m.IsRoot(r)
    ensures var v := m.owner[m.owner[p].t].k * NPTE + m.owner[p].k;
      v < USER && See(m, r, v) != Absent && m.Look(r, v).ppn == p
  {
    assert m.UpAt(p);
    assert m.UpAt(m.owner[p].t);
  }

  lemma LeafAt(m: OkMm, r: nat, v: nat, p: nat)
    requires m.IsRoot(r) && v < USER && See(m, r, v) != Absent && p < |m.owner|
    ensures LeafIn(m, r, p, v, v + 1) <==> p == m.Look(r, v).ppn
  {
    LeafOwned(m, r, v);
    if LeafIn(m, r, p, v, v + 1) { LeafSeen(m, r, p, v, v + 1); }
  }

  lemma FreedOne(m: OkMm, n: OkMm, r: nat, v: nat)
    requires m.IsRoot(r) && v < USER && See(m, r, v) != Absent
    requires m.Look(r, v).ppn < |m.owner| && n.owner == m.owner[m.Look(r, v).ppn := Free]
    ensures Freed(m, n, r, v, v + 1)
  {
    var w := v + 1;
    forall p: nat | p < |m.owner| ensures LeafIn(m, r, p, v, w) <==> p == m.Look(r, v).ppn { LeafAt(m, r, v, p); }
  }

  lemma FreedMore(m: OkMm, n: OkMm, o: OkMm, r: nat, lo: nat, mid: nat, hi: nat)
    requires Freed(m, n, r, lo, mid) && Freed(n, o, r, mid, hi) && lo <= mid <= hi && m.IsRoot(r)
    ensures Freed(m, o, r, lo, hi)
  {
    forall p: nat | p < |m.owner| ensures LeafIn(n, r, p, mid, hi) <==> LeafIn(m, r, p, mid, hi) { FreedLeaf(m, n, r, lo, mid, p, mid, hi); }
  }

  /** Freeing leaves does not move the others. */
  lemma FreedLeaf(m: OkMm, n: OkMm, r: nat, lo: nat, mid: nat, p: nat, x: nat, y: nat)
    requires Freed(m, n, r, lo, mid) && m.IsRoot(r) && p < |m.owner| && mid <= x
    ensures LeafIn(n, r, p, x, y) <==> LeafIn(m, r, p, x, y)
  {
    if LeafIn(m, r, p, x, y) {
      var t := m.owner[p].t;
      assert m.UpAt(p) && m.UpAt(t);
      assert m.owner[m.owner[t].t].Root?;
    }
  }

  function ZeroPage(): seq<Byte> { seq(PGSIZE, _ => 0) }

  /** Every process sees what it saw, except that pages lo..hi of root `r` are new and zero. */
  ghost predicate Grown(m: OkMm, n: OkMm, r: nat, lo: nat, hi: nat)
  {
    forall q: nat, v: nat :: v < VPAGES ==>
      See(n, q, v) == if q == r && lo <= v < hi then Page(PTE_RWXU + PTE_V, ZeroPage()) else See(m, q, v)
  }

  /** From `m` to `n` pages only left the free list, to become tables of root `r` or its leaves in lo..hi. */
  ghost predicate Taken(m: OkMm, n: OkMm, r: nat, lo: nat, hi: nat)
  {
    && |n.owner| == |m.owner|
    && forall p: nat :: p < |m.owner| ==>
         n.owner[p] == m.owner[p] || (m.owner[p] == Free && n.owner[p].In? && (n.owner[p].t == r || LeafIn(n, r, p, lo, hi)))
  }

  lemma GrownMore(m: OkMm, n: OkMm, o: OkMm, r: nat, lo: nat, v: nat)
    requires Grown(m, n, r, lo, v) && Grown(n, o, r, v, v + 1) && lo <= v
    ensures Grown(m, o, r, lo, v + 1)
  {
  }

  lemma GrownSized(m: OkMm, n: OkMm, r: nat, lo: nat, v: nat)
    requires Sized(m, r, lo) && Grown(m, n, r, lo, v) && n.IsRoot(r) && lo <= v <= USER
    ensures Sized(n, r, v)
  {
  }

  lemma TakenMore(m: OkMm, n: OkMm, o: OkMm, r: nat, lo: nat, mid: nat, hi: nat)
    requires Taken(m, n, r, lo, mid) && Taken(n, o, r, mid, hi) && lo <= mid <= hi
    ensures Taken(m, o, r, lo, hi)
  {
    forall p: nat | p < |m.owner| && LeafIn(n, r, p, lo, mid) ensures LeafIn(o, r, p, lo, mid) {
      assert n.owner[p].t < |n.owner|;
    }
  }

  /** A page that was taken as a leaf in lo..hi was free, if the process had nothing there. */
  lemma TakenWasFree(m: OkMm, n: OkMm, r: nat, lo: nat, hi: nat, p: nat)
    requires Sized(m, r, lo) && Taken(m, n, r, lo, hi) && LeafIn(n, r, p, lo, hi)
    ensures m.owner[p] == Free
  {
    if m.owner[p] != Free {
      assert m.owner[p] == n.owner[p] && m.UpAt(p);
      assert m.LevelAt(m.owner[p].t);
      LeafSeen(m, r, p, lo, hi);
    }
  }

  /** Every process sees what it saw, pages lo..hi of root `r` apart. */
  ghost predicate Except(m: OkMm, n: OkMm, r: nat, lo: nat, hi: nat)
  {
    forall q: nat, v: nat :: v < VPAGES && !(q == r && lo <= v < hi) ==> See(n, q, v) == See(m, q, v)
  }

  /** Growth undone: what was seen is seen again, and only tables stay taken. */
  lemma RolledBack(m: OkMm, n: OkMm, o: OkMm, r: nat, lo: nat, v: nat)
    requires Sized(m, r, lo) && lo <= v <= USER && Except(m, n, r, lo, v) && Taken(m, n, r, lo, v)
    requires Cut(n, o, r, lo, v) && Freed(n, o, r, lo, v)
    ensures Same(m, o) && Taken(m, o, r, 0, 0)
  {
    forall p: nat | p < |m.owner| && LeafIn(n, r, p, lo, v) ensures m.owner[p] == Free { TakenWasFree(m, n, r, lo, v, p); }
  }

  /** From `m` to `n` exactly the tables under the first `i` entries of root `r` became free. */
  ghost predicate TablesFreed(m: OkMm, n: OkMm, r: nat, i: nat)
  {
    && |n.owner| == |m.owner|
    && forall p: nat :: p < |m.owner| ==> n.owner[p] == if m.owner[p].In? && m.owner[p].t == r && m.owner[p].k < i then Free else m.owner[p]
  }

  ghost predicate NothingMapped(m: OkMm, r: nat)
  {
    m.IsRoot(r) && forall v: nat :: v < VPAGES ==> See(m, r, v) == Absent
  }

  lemma ChildEmpty(m: OkMm, r: nat, i: nat)
    requires NothingMapped(m, r) && i < NPTE && m.P(r, i).Valid()
    ensures EmptyTable(m, m.P(r, i).ppn) && m.owner[m.P(r, i).ppn] == In(r, i)
  {
    var c := m.P(r, i).ppn;
    assert m.LevelAt(r) && m.Owns(r, i) && m.DownAt(r, i);
    forall k: nat | k < NPTE ensures !m.P(c, k).Valid() {
      var v := i * NPTE + k;
      assert v / NPTE == i && v % NPTE == k && See(m, r, v) == Absent;
    }
  }

  /** Page `p` is root `r`, one of its tables, or one of its pages. */
  ghost predicate Mine(m: OkMm, r: nat, p: nat)
  {
    p == r || LeafIn(m, r, p, 0, VPAGES) || (p < |m.owner| && m.owner[p].In? && m.owner[p].t == r)
  }

  /** From `m` to `n` the address space of root `r` is gone: exactly its pages became free, and every
      other process sees what it saw. */
  ghost predicate Gone(m: OkMm, n: OkMm, r: nat)
  {
    && |n.owner| == |m.owner|
    && (forall p: nat :: p < |m.owner| ==> n.owner[p] == if Mine(m, r, p) then Free else m.owner[p])
    && (forall q: nat, v: nat :: v < VPAGES ==> See(n, q, v) == if q == r then Absent else See(m, q, v))
  }

  /** A new root `r` whose process sees only the trampoline and the trapframe. */
  ghost predicate NewSpace(m: OkMm, n: OkMm, r: nat, trampoline: nat, trapframe: nat)
  {
    forall q: nat, v: nat :: v < VPAGES ==>
      See(n, q, v) == if q != r then See(m, q, v) else if v == USER + 1 then Alias(Pte(trampoline, 11))
                      else if v == USER then Alias(Pte(trapframe, 7)) else Absent
  }

  lemma TakenTwice(m: OkMm, n: OkMm, o: OkMm, r: nat)
    requires OwnersTaken(m, n, r) && OwnersTaken(n, o, r)
    ensures OwnersTaken(m, o, r)
  {
  }

  /** An address space that could not be completed leaves nothing behind. */
  lemma Undone(m0: OkMm, m1: OkMm, m2: OkMm, o: OkMm, r: nat)
    requires r < |m0.owner| && m0.owner[r] == Free && m1.owner == m0.owner[r := Root] && OwnersTaken(m1, m2, r) && Gone(m2, o, r)
    requires forall q: nat, v: nat :: v < VPAGES && q != r ==> See(m2, q, v) == See(m0, q, v)
    ensures Same(m0, o) && o.owner == m0.owner
  {
    forall p: nat | p < |m0.owner| ensures o.owner[p] == m0.owner[p] { UndonePage(m0, m1, m2, r, p); }
  }

  lemma UndonePage(m0: OkMm, m1: OkMm, m2: OkMm, r: nat, p: nat)
    requires r < |m0.owner| && m0.owner[r] == Free && m1.owner == m0.owner[r := Root] && OwnersTaken(m1, m2, r) && p < |m0.owner|
    ensures if Mine(m2, r, p) then m0.owner[p] == Free else m2.owner[p] == m0.owner[p]
  {
    if m0.owner[p].In? {
      var t := m0.owner[p].t;
      assert m0.UpAt(p);
      assert m0.LevelAt(t);
      assert m0.UpAt(t);
    }
  }

  /** Every process sees what it saw, except that root `r` has copies of the first `k` pages of root `src`. */
  ghost predicate Copied(m: OkMm, n: OkMm, src: nat, r: nat, k: nat)
  {
    forall q: nat, v: nat :: v < VPAGES ==> See(n, q, v) == if q == r && v < k then See(m, src, v) else See(m, q, v)
  }

  lemma CopiedMore(m: OkMm, n: OkMm, o: OkMm, src: nat, r: nat, k: nat)
    requires Copied(m, n, src, r, k) && src != r && k < VPAGES && SameBut(n, o, r, k, See(n, src, k))
    ensures Copied(m, o, src, r, k + 1)
  {
  }

  lemma CutMore(m: OkMm, n: OkMm, o: OkMm, r: nat, lo: nat, mid: nat, hi: nat)
    requires Cut(m, n, r, lo, mid) && Cut(n, o, r, mid, hi) && lo <= mid <= hi
    ensures Cut(m, o, r, lo, hi)
  {
  }

  /** perm | PTE_V. */
  function SetV(perm: nat): nat { if perm % 2 == 1 then perm else perm + 1 }

  /** Taking a page off the free list leaves tables and their entries alone. */
  lemma AllocKept(m: OkMm, r: nat)
    requires |m.free| > 0 && m.IsRoot(r)
    ensures Alloc(m).Ok() && m.free[0] < |m.owner| && Alloc(m).owner[m.free[0]] == Held && m.owner[m.free[0]] == Free
    ensures Alloc(m).IsRoot(r) && forall k: nat :: k < NPTE ==> Alloc(m).P(r, k) == m.P(r, k)
  {
    AllocOk(m);
    assert m.free[0] in m.free;
    assert m.LevelAt(r);
  }

  /** Memory before kinit: the pages after the kernel are nobody's yet, as if held. */
  ghost function Booted(first: nat, ram: seq<Frame>): Mm
  {
    Mm(first, ram, [], seq(|ram|, q => if q < first then Kernel else Held))
  }

  lemma BootOk(first: nat, ram: seq<Frame>)
    requires forall p :: 0 <= p < |ram| ==> ram[p].Data? && |ram[p].bytes| == PGSIZE
    ensures Booted(first, ram).Ok()
  {
  }

  class Machine {
    const first: nat       // page number of the end of the kernel
    var frames: seq<Frame>
    var free: seq<nat>
    ghost var mm: OkMm

    ghost predicate Valid()
      reads this
    {
      mm.frames == frames && mm.free == free && mm.first == first && KERNBASE <= first <= |frames| == PHYSTOP
    }

    /** kinit, with `end` the first address after the kernel: freerange gives every whole page from there to the
        end of RAM to the free list, each once and the highest first; kfree's panic cannot happen. There is no
        process yet. */
    constructor (end: nat, ram: seq<Frame>)
      requires KERNBASE * PGSIZE <= end <= PHYSTOP * PGSIZE
      requires |ram| == PHYSTOP && forall p :: 0 <= p < |ram| ==> ram[p].Data? && |ram[p].bytes| == PGSIZE
      ensures Valid() && end <= first * PGSIZE < end + PGSIZE
      ensures |free| == PHYSTOP - first && forall i :: 0 <= i < |free| ==> free[i] == PHYSTOP - 1 - i
      ensures forall p :: 0 <= p < PHYSTOP ==> mm.owner[p] == if p < first then Kernel else Free
    {
      first := Pages(end);
      frames, free := ram, [];
      BootOk(Pages(end), ram);
      mm := Booted(Pages(end), ram);
      new;
      var p := first;
      while p < PHYSTOP
        invariant first <= p <= PHYSTOP && Valid() && |free| == p - first && |mm.owner| == PHYSTOP
        invariant forall i :: 0 <= i < |free| ==> free[i] == p - 1 - i
        invariant forall q :: 0 <= q < PHYSTOP ==> mm.owner[q] == if q < first then Kernel else if q < p then Free else Held
      {
        Kfree(p);
        p := p + 1;
      }
    }

    /** kalloc. */
    method Kalloc() returns (p: Option<nat>)
      requires Valid()
      modifies this
      ensures Valid()
      ensures if |old(mm).free| == 0 then p == None && mm == old(mm)
        else p == Some(old(mm).free[0]) && p.value < |frames| && mm == Alloc(old(mm)) && Same(old(mm), mm)
    {
      p := None;
      if |free| > 0 {
        p := Some(free[0]);
        assert free[0] in free;
        AllocOk(mm);
        forall r: nat, v: nat | v < VPAGES ensures See(Alloc(mm), r, v) == See(mm, r, v) { AllocSee(mm, r, v); }
        frames := frames[free[0] := Junk(5)];
        free := free[1..];
        mm := Alloc(mm);
      }
    }

    /** kfree of a page somebody holds: its panic cannot happen. */
    method Kfree(p: nat)
      requires Valid() && p < |frames| && mm.owner[p] == Held
      modifies this
      ensures Valid() && first <= p < PHYSTOP && mm == Release(old(mm), p) && Same(old(mm), mm)
    {
      ReleaseOk(mm, p);
      forall r: nat, v: nat | v < VPAGES ensures See(Release(mm, p), r, v) == See(mm, r, v) { ReleaseSee(mm, p, r, v); }
      frames := frames[p := Junk(1)];
      free := [p] + free;
      mm := Release(mm, p);
    }

    /** A fresh, empty leaf table under entry `i` of root `r`. */
    method NewTable(r: nat, i: nat) returns (t: Option<nat>)
      requires Valid() && mm.IsRoot(r) && i < NPTE && !mm.P(r, i).Valid()
      modifies this
      ensures Valid() && Same(old(mm), mm) && TablesTaken(old(mm), mm, r)
      ensures t.None? ==> mm == old(mm) && free == []
      ensures |free| >= |old(free)| - 1
      ensures t.Some? ==> mm.IsRoot(r) && LeafTable(mm, t.value) && mm.owner[t.value] == In(r, i)
      ensures t.Some? ==> mm.P(r, i) == Pte(t.value, PTE_V) && forall k: nat :: k < NPTE ==> mm.P(t.value, k) == NONE
    {
      ghost var m0 := mm;
      t := Kalloc();
      if t.Some? {
        var c := t.value;
        AllocKept(m0, r);
        AttachOk(mm, r, i, c);
        forall q: nat, v: nat | v < VPAGES ensures See(Attach(mm, r, i, c), q, v) == See(mm, q, v) { AttachSee(mm, r, i, c, q, v); }
        frames := frames[c := Table(Zeros(NPTE))];
        frames := frames[r := Table(frames[r].ptes[i := Pte(c, PTE_V)])];
        mm := Attach(mm, r, i, c);
      }
    }

    /** walk: the leaf table for `va`, created if `alloc` says so; what processes see stays the same. */
    method Walk(r: nat, va: nat, alloc: bool) returns (t: Option<nat>)
      requires Valid() && mm.IsRoot(r) && va < MAXVA
      modifies this
      ensures Valid() && Same(old(mm), mm) && TablesTaken(old(mm), mm, r) && mm.IsRoot(r) && (!alloc ==> mm == old(mm))
      ensures t.Some? ==> LeafTable(mm, t.value) && mm.owner[t.value] == In(r, va / PGSIZE / NPTE)
      ensures t.Some? ==> mm.Look(r, va / PGSIZE) == mm.P(t.value, va / PGSIZE % NPTE)
      ensures t.None? ==> mm == old(mm) && mm.Look(r, va / PGSIZE) == NONE && (alloc ==> free == [])
      ensures |free| >= |old(free)| - 1
    {
      assert mm.LevelAt(r);
      var i := va / 0x400000 % NPTE;
      assert i == va / PGSIZE / NPTE;
      var e := frames[r].ptes[i];
      assert e == mm.P(r, i) && mm.Owns(r, i) && mm.DownAt(r, i);
      if e.Valid() {
        t := Some(e.ppn);
      } else if !alloc {
        t := None;
      } else {
        t := NewTable(r, i);
      }
    }

    /** The store into the entry. */
    method SetEntry(r: nat, v: nat, t: nat, p: nat, perm: nat)
      requires Valid() && mm.IsRoot(r) && v < VPAGES && See(mm, r, v) == Absent && perm / 2 % 8 != 0 && p < |frames|
      requires LeafTable(mm, t) && mm.owner[t] == In(r, v / NPTE) && mm.Look(r, v) == mm.P(t, v % NPTE)
      requires v < USER ==> mm.owner[p] == Held
      modifies this
      ensures Valid() && mm == Map(old(mm), t, v % NPTE, Pte(p, SetV(perm)))
      ensures v >= USER ==> SameBut(old(mm), mm, r, v, Alias(Pte(p, SetV(perm))))
      ensures v < USER ==> old(mm).IsData(p) && SameBut(old(mm), mm, r, v, Page(SetV(perm), old(mm).frames[p].bytes))
    {
      var e, k := Pte(p, SetV(perm)), v % NPTE;
      MapOk(mm, t, k, e);
      forall q: nat, u: nat | u < VPAGES
        ensures if q == r && u == v
          then if v >= USER then See(Map(mm, t, k, e), q, u) == Alias(e)
            else mm.IsData(p) && See(Map(mm, t, k, e), q, u) == Page(e.flags, mm.frames[p].bytes)
          else See(Map(mm, t, k, e), q, u) == See(mm, q, u)
      {
        MapSee(mm, t, k, e, q, u);
      }
      frames := frames[t := Table(frames[t].ptes[k := e])];
      mm := Map(mm, t, k, e);
    }

    /** mappages for one page: virtual page `v` of root `r` shows page `p`, or nothing changes but a
        table. The page was not mapped, so the "remap" panic cannot happen. */
    method Mappages(r: nat, v: nat, p: nat, perm: nat) returns (ok: bool)
      requires Valid() && mm.IsRoot(r) && v < VPAGES && See(mm, r, v) == Absent && perm / 2 % 8 != 0
      requires p < |frames| && if v < USER then mm.owner[p] == Held else !mm.owner[p].Free?
      modifies this
      ensures Valid() && mm.IsRoot(r)
      ensures !ok ==> Same(old(mm), mm) && TablesTaken(old(mm), mm, r)
      ensures |free| >= |old(free)| - 1 && (!ok ==> old(free) == [])
      ensures ok && v >= USER ==> SameBut(old(mm), mm, r, v, Alias(Pte(p, SetV(perm)))) && TablesTaken(old(mm), mm, r)
      ensures ok && v < USER ==> old(mm).IsData(p) && SameBut(old(mm), mm, r, v, Page(SetV(perm), old(mm).frames[p].bytes))
      ensures ok && v < USER ==> Mapped(old(mm), mm, r, p) && LeafIn(mm, r, p, v, v + 1)
    {
      if v < USER { NotTable(mm, p); }
      var t := Walk(r, v * PGSIZE, true);
      ok := t.Some?;
      if ok { SetEntry(r, v, t.value, p, perm); }
    }

    /** One round of uvmunmap: the page is gone from the process, and free again if `doFree` says so.
        None of uvmunmap's panics can happen. */
    method UnmapOne(r: nat, v: nat, doFree: bool)
      requires Valid() && mm.IsRoot(r) && v < VPAGES && See(mm, r, v) != Absent && (doFree <==> v < USER)
      modifies this
      ensures Valid() && mm.IsRoot(r) && Cut(old(mm), mm, r, v, v + 1)
      ensures if doFree then Freed(old(mm), mm, r, v, v + 1) else mm.owner == old(mm).owner && free == old(free)
    {
      var t := Walk(r, v * PGSIZE, false);
      assert mm.LevelAt(t.value);
      var e := frames[t.value].ptes[v % NPTE];
      assert e == mm.Look(r, v) && e.Valid() && e.Leaf();
      if doFree { LeafOwned(mm, r, v); }
      ClearEntry(r, v, t.value);
      if doFree {
        Kfree(e.ppn);
        FreedOne(old(mm), mm, r, v);
      }
    }

    /** uvmunmap of pages lo..hi, all present. */
    method Uvmunmap(r: nat, lo: nat, hi: nat, doFree: bool)
      requires Valid() && mm.IsRoot(r) && lo <= hi <= VPAGES && if doFree then hi <= USER else USER <= lo
      requires forall v: nat :: lo <= v < hi ==> See(mm, r, v) != Absent
      modifies this
      ensures Valid() && mm.IsRoot(r) && Cut(old(mm), mm, r, lo, hi)
      ensures if doFree then Freed(old(mm), mm, r, lo, hi) else mm.owner == old(mm).owner && free == old(free)
    {
      var v := lo;
      while v < hi
        invariant lo <= v <= hi && Valid() && mm.IsRoot(r) && Cut(old(mm), mm, r, lo, v)
        invariant if doFree then Freed(old(mm), mm, r, lo, v) else mm.owner == old(mm).owner && free == old(free)
      {
        ghost var m := mm;
        UnmapOne(r, v, doFree);
        CutMore(old(mm), m, mm, r, lo, v, v + 1);
        if doFree { FreedMore(old(mm), m, mm, r, lo, v, v + 1); }
        v := v + 1;
      }
    }

    method ClearEntry(r: nat, v: nat, t: nat)
      requires Valid() && mm.IsRoot(r) && v < VPAGES && See(mm, r, v) != Absent
      requires LeafTable(mm, t) && mm.owner[t] == In(r, v / NPTE) && mm.Look(r, v) == mm.P(t, v % NPTE)
      modifies this
      ensures Valid() && mm == Unmap(old(mm), t, v % NPTE) && Cut(old(mm), mm, r, v, v + 1)
    {
      var k := v % NPTE;
      UnmapOk(mm, t, k);
      forall q: nat, u: nat | u < VPAGES
        ensures See(Unmap(mm, t, k), q, u) == if q == r && u == v then Absent else See(mm, q, u)
      {
        UnmapSee(mm, t, k, q, u);
      }
      frames := frames[t := Table(frames[t].ptes[k := NONE])];
      mm := Unmap(mm, t, k);
    }

    /** A new page with the given contents at `v`, or nothing but perhaps a table: the kalloc, fill,
        mappages sequence of uvmalloc and uvmcopy, with its kfree when mappages fails. */
    method MapFresh(r: nat, v: nat, bytes: seq<Byte>, perm: nat) returns (ok: bool)
      requires Valid() && mm.IsRoot(r) && v < USER && See(mm, r, v) == Absent && |bytes| == PGSIZE && perm / 2 % 8 != 0
      modifies this
      ensures Valid() && mm.IsRoot(r)
      ensures ok ==> SameBut(old(mm), mm, r, v, Page(SetV(perm), bytes)) && Taken(old(mm), mm, r, v, v + 1)
      ensures if ok then |free| >= |old(free)| - 2 else |old(free)| <= 1
      ensures !ok ==> Same(old(mm), mm) && Taken(old(mm), mm, r, v, v)
    {
      ghost var m0 := mm;
      var p := Kalloc();
      ok := p.Some?;
      if ok {
        AllocKept(m0, r);
        Store(p.value, bytes);
        ok := Mappages(r, v, p.value, perm);
        if !ok { Kfree(p.value); }
      }
    }

    /** One round of uvmalloc: a zeroed page at `v`. */
    method GrowOne(r: nat, v: nat) returns (ok: bool)
      requires Valid() && mm.IsRoot(r) && v < USER && See(mm, r, v) == Absent
      modifies this
      ensures Valid() && mm.IsRoot(r)
      ensures ok ==> Grown(old(mm), mm, r, v, v + 1) && Taken(old(mm), mm, r, v, v + 1)
      ensures if ok then |free| >= |old(free)| - 2 else |old(free)| <= 1
      ensures !ok ==> Same(old(mm), mm) && Taken(old(mm), mm, r, v, v)
    {
      ok := MapFresh(r, v, ZeroPage(), PTE_RWXU);
    }

    /** A held page is filled: nobody sees it. */
    method Store(p: nat, bytes: seq<Byte>)
      requires Valid() && p < |frames| && mm.owner[p] == Held && |bytes| == PGSIZE
      modifies this
      ensures Valid() && mm.frames == old(mm).frames[p := Data(bytes)] && mm.owner == old(mm).owner && free == old(free)
      ensures Same(old(mm), mm)
    {
      NotTable(mm, p);
      PokeOk(mm, p, bytes);
      forall r: nat, v: nat | v < VPAGES ensures See(Poke(mm, p, bytes), r, v) == See(mm, r, v) {
        PokeSee(mm, p, bytes, r, v);
        if mm.IsRoot(r) && v < USER && mm.Look(r, v).Valid() { LeafOwned(mm, r, v); }
      }
      frames := frames[p := Data(bytes)];
      mm := Poke(mm, p, bytes);
    }

    /** uvmdealloc of a process whose first Pages(oldsz) pages are present. */
    method Uvmdealloc(r: nat, oldsz: nat, newsz: nat) returns (sz: nat)
      requires Valid() && mm.IsRoot(r) && Pages(oldsz) <= USER
      requires forall v: nat :: Pages(newsz) <= v < Pages(oldsz) ==> See(mm, r, v) != Absent
      modifies this
      ensures Valid() && mm.IsRoot(r) && sz == if newsz >= oldsz then oldsz else newsz
      ensures Cut(old(mm), mm, r, Pages(newsz), Pages(oldsz)) && Freed(old(mm), mm, r, Pages(newsz), Pages(oldsz))
    {
      if newsz >= oldsz { return oldsz; }
      if Pages(newsz) < Pages(oldsz) { Uvmunmap(r, Pages(newsz), Pages(oldsz), true); }
      return newsz;
    }

    /** One more page after those of lo..v, or everything since `m0` undone. */
    method GrowRound(r: nat, lo: nat, v: nat, ghost m0: OkMm) returns (ok: bool)
      requires Valid() && Sized(m0, r, lo) && mm.IsRoot(r) && lo <= v <= USER && Grown(m0, mm, r, lo, v) && Taken(m0, mm, r, lo, v)
      modifies this
      ensures Valid() && mm.IsRoot(r) && v < USER
      ensures ok ==> Grown(m0, mm, r, lo, v + 1) && Taken(m0, mm, r, lo, v + 1)
      ensures !ok ==> Same(m0, mm) && Taken(m0, mm, r, 0, 0)
      ensures if ok then |free| >= |old(free)| - 2 else |old(free)| <= 1
    {
      GrownSized(m0, mm, r, lo, v);
      Fits(mm, r, v);
      ghost var m := mm;
      ok := GrowOne(r, v);
      if ok {
        GrownMore(m0, m, mm, r, lo, v);
        TakenMore(m0, m, mm, r, lo, v, v + 1);
      } else {
        TakenMore(m0, m, mm, r, lo, v, v);
        ghost var n := mm;
        var _ := Uvmdealloc(r, v * PGSIZE, lo * PGSIZE);
        RolledBack(m0, n, mm, r, lo, v);
      }
    }

    /** uvmalloc: zeroed pages up to the new size; or 0, and every process sees what it saw, with no
        page lost but those that became tables. Growth stops below the trapframe, because RAM does. */
    method Uvmalloc(r: nat, oldsz: nat, newsz: nat) returns (sz: nat)
      requires Valid() && Sized(mm, r, Pages(oldsz)) && oldsz < TWO32 && newsz < TWO32
      modifies this
      ensures Valid() && mm.IsRoot(r)
      ensures newsz < oldsz ==> sz == oldsz && mm == old(mm)
      ensures oldsz <= newsz && sz == newsz ==>
        Grown(old(mm), mm, r, Pages(oldsz), Pages(newsz)) && Sized(mm, r, Pages(newsz)) && Taken(old(mm), mm, r, Pages(oldsz), Pages(newsz))
      ensures oldsz <= newsz && sz != newsz ==> sz == 0 && Same(old(mm), mm) && Taken(old(mm), mm, r, 0, 0)
      ensures oldsz <= newsz && sz != newsz ==> |old(free)| < 2 * (Pages(newsz) - Pages(oldsz))
    {
      if newsz < oldsz { return oldsz; }
      Fits(mm, r, Pages(oldsz));
      var lo := Pages(oldsz);
      var v, ok := lo, true;
      while ok && v * PGSIZE < newsz
        invariant lo <= v <= USER && (v > lo ==> v <= Pages(newsz)) && Valid() && mm.IsRoot(r) 
        invariant ok ==> Grown(old(mm), mm, r, lo, v) && Taken(old(mm), mm, r, lo, v)
        invariant !ok ==> Same(old(mm), mm) && Taken(old(mm), mm, r, 0, 0)
        invariant if ok then |free| + 2 * (v - lo) >= |old(free)| else |old(free)| < 2 * (Pages(newsz) - lo)
        decreases ok, newsz - v * PGSIZE
      {
        ok := GrowRound(r, lo, v, old(mm));
        if ok { v := v + 1; }
      }
      return if ok then newsz else 0;
    }

    /** freewalk of a leaf table: it has no valid entry, so it is just freed, and its entry cleared. */
    method FreeChild(r: nat, i: nat)
      requires Valid() && NothingMapped(mm, r) && i < NPTE && mm.P(r, i).Valid()
      modifies this
      ensures Valid() && NothingMapped(mm, r) && Same(old(mm), mm)
      ensures mm.P(r, i) == NONE && forall j: nat :: j < NPTE && j != i ==> mm.P(r, j) == old(mm).P(r, j)
      ensures var c := old(mm).P(r, i).ppn; c < |old(mm).owner| && mm.owner == old(mm).owner[c := Free] && old(mm).owner[c] == In(r, i)
    {
      ChildEmpty(mm, r, i);
      assert mm.LevelAt(r);
      var c := frames[r].ptes[i].ppn;
      assert c == mm.P(r, i).ppn;
      var k := 0;
      while k < NPTE
        invariant Valid() && mm == old(mm)
      {
        var e := frames[c].ptes[k];
        assert e == mm.P(c, k) && !e.Valid();
        k := k + 1;
      }
      DetachOk(mm, r, i);
      forall q: nat, v: nat | v < VPAGES ensures See(Detach(mm, r, i), q, v) == See(mm, q, v) { DetachSee(mm, r, i, q, v); }
      frames := frames[c := Junk(1)];
      free := [c] + free;
      frames := frames[r := Table(frames[r].ptes[i := NONE])];
      mm := Detach(mm, r, i);
    }

    /** freewalk of a root with nothing mapped: its "leaf" panic cannot happen, every table goes back
        to the free list. */
    method Freewalk(r: nat)
      requires Valid() && NothingMapped(mm, r)
      modifies this
      ensures Valid() && Same(old(mm), mm) && |mm.owner| == |old(mm).owner|
      ensures forall p: nat :: p < |mm.owner| ==>
        mm.owner[p] == if p == r || (old(mm).owner[p].In? && old(mm).owner[p].t == r) then Free else old(mm).owner[p]
    {
      var i := 0;
      while i < NPTE
        invariant i <= NPTE && Valid() && NothingMapped(mm, r) && Same(old(mm), mm)
        invariant TablesFreed(old(mm), mm, r, i) && forall j: nat :: j < i ==> !mm.P(r, j).Valid()
      {
        FreeEntry(r, i, old(mm));
        i := i + 1;
      }
      assert mm.LevelAt(r);
      DropRootOk(mm, r);
      forall q: nat, v: nat | v < VPAGES ensures See(DropRoot(mm, r), q, v) == See(mm, q, v) { DropRootSee(mm, r, q, v); }
      forall p: nat | p < |mm.owner| && old(mm).owner[p].In? && old(mm).owner[p].t == r ensures old(mm).owner[p].k < NPTE {
        assert old(mm).UpAt(p);
      }
      frames := frames[r := Junk(1)];
      free := [r] + free;
      mm := DropRoot(mm, r);
    }

    method FreeEntry(r: nat, i: nat, ghost m0: OkMm)
      requires Valid() && NothingMapped(mm, r) && i < NPTE && TablesFreed(m0, mm, r, i)
      modifies this
      ensures Valid() && NothingMapped(mm, r) && Same(old(mm), mm) && TablesFreed(m0, mm, r, i + 1)
      ensures !mm.P(r, i).Valid() && forall j: nat :: j < NPTE && j != i ==> mm.P(r, j) == old(mm).P(r, j)
    {
      assert mm.LevelAt(r) && !NONE.Valid();
      var e := frames[r].ptes[i];
      assert e == mm.P(r, i);
      if e.Valid() {
        FreeChild(r, i);
        EntryFreed(m0, old(mm), mm, r, i, e.ppn);
      } else {
        NoEntry(m0, mm, r, i);
      }
    }

    /** uvmfree, with only the first Pages(sz) pages left mapped. */
    method Uvmfree(r: nat, sz: nat)
      requires Valid() && Sized(mm, r, Pages(sz)) && See(mm, r, USER) == Absent && See(mm, r, USER + 1) == Absent
      modifies this
      ensures Valid() && Gone(old(mm), mm, r)
    {
      ghost var m := mm;
      if sz > 0 { Uvmunmap(r, 0, Pages(sz), true); }
      ghost var n := mm;
      Emptied(m, n, r, Pages(sz));
      Freewalk(r);
      AllGone(m, n, mm, r, Pages(sz));
    }

    /** proc_freepagetable: every table and every user page goes back to the free list. */
    method ProcFreepagetable(r: nat, sz: nat)
      requires Valid() && Sized(mm, r, Pages(sz)) && See(mm, r, USER) != Absent && See(mm, r, USER + 1) != Absent
      modifies this
      ensures Valid() && Gone(old(mm), mm, r)
    {
      Uvmunmap(r, USER + 1, USER + 2, false);
      Uvmunmap(r, USER, USER + 1, false);
      ghost var m := mm;
      Uvmfree(r, sz);
      GoneSame(old(mm), m, mm, r);
    }

    /** uvmcreate and proc_pagetable: an address space with nothing but the trampoline and the
        trapframe, or no address space and nothing lost. */
    method ProcPagetable(trampoline: nat, trapframe: nat) returns (r: Option<nat>)
      requires Valid() && trampoline < first && trapframe < |frames| && mm.owner[trapframe] == Held
      modifies this
      ensures Valid()
      ensures r.None? ==> Same(old(mm), mm) && mm.owner == old(mm).owner && |old(free)| <= 2
      ensures r.Some? ==> Sized(mm, r.value, 0) && !old(mm).IsRoot(r.value)
      ensures r.Some? ==> NewSpace(old(mm), mm, r.value, trampoline, trapframe)
    {
      ghost var m0 := mm;
      r := Uvmcreate();
      if r.Some? {
        ghost var m1 := mm;
        var ok := Mappages(r.value, USER + 1, trampoline, 10);
        ghost var m2 := mm;
        if !ok {
          Uvmfree(r.value, 0);
          Undone(m0, m1, m2, mm, r.value);
          r := None;
        } else {
          ok := Mappages(r.value, USER, trapframe, 6);
          if !ok {
            Uvmunmap(r.value, USER + 1, USER + 2, false);
            TakenTwice(m1, m2, mm, r.value);
            m2 := mm;
            Uvmfree(r.value, 0);
            Undone(m0, m1, m2, mm, r.value);
            r := None;
          }
        }
      }
    }

    method Uvmcreate() returns (r: Option<nat>)
      requires Valid()
      modifies this
      ensures Valid() && Same(old(mm), mm) && (r.None? ==> mm == old(mm))
      ensures if r.Some? then |free| == |old(free)| - 1 else old(free) == []
      ensures r.Some? ==> r.value < |old(mm).owner| && old(mm).owner[r.value] == Free && mm.owner == old(mm).owner[r.value := Root]
      ensures r.Some? ==> NothingMapped(mm, r.value) && forall p :: 0 <= p < |frames| && p != r.value ==> frames[p] == old(frames)[p]
    {
      ghost var m0 := mm;
      r := Kalloc();
      if r.Some? {
        assert m0.free[0] in m0.free;
        NewRootOk(mm, r.value);
        forall q: nat, v: nat | v < VPAGES ensures See(NewRoot(mm, r.value), q, v) == See(mm, q, v) { NewRootSee(mm, r.value, q, v); }
        frames := frames[r.value := Table(Zeros(NPTE))];
        mm := NewRoot(mm, r.value);
      }
    }

    /** One round of uvmcopy: page `v` of `src` copied for root `r`, or nothing but perhaps a table. */
    method CopyOne(src: nat, r: nat, v: nat) returns (ok: bool)
      requires Valid() && mm.IsRoot(src) && mm.IsRoot(r) && v < USER && See(mm, src, v) != Absent && See(mm, r, v) == Absent
      modifies this
      ensures Valid() && mm.IsRoot(r) && mm.IsRoot(src)
      ensures ok ==> SameBut(old(mm), mm, r, v, See(old(mm), src, v)) && Taken(old(mm), mm, r, v, v + 1)
      ensures if ok then |free| >= |old(free)| - 2 else |old(free)| <= 1
      ensures !ok ==> Same(old(mm), mm) && Taken(old(mm), mm, r, v, v)
    {
      LeafOwned(mm, src, v);
      var t := Walk(src, v * PGSIZE, false);
      assert mm.LevelAt(t.value);
      var e := frames[t.value].ptes[v % NPTE];
      assert e == mm.Look(src, v) && e.Valid() && e.Leaf();
      ok := MapFresh(r, v, frames[e.ppn].bytes, e.flags);
    }

    /** uvmcopy into an empty address space: the child sees what the parent sees below the size, in
        pages of its own; or -1, and every process sees what it saw. */
    method Uvmcopy(src: nat, r: nat, sz: nat) returns (ok: bool)
      requires Valid() && Sized(mm, src, Pages(sz)) && Sized(mm, r, 0) && src != r
      modifies this
      ensures Valid() && mm.IsRoot(r) && mm.IsRoot(src)
      ensures ok ==> Copied(old(mm), mm, src, r, Pages(sz)) && Taken(old(mm), mm, r, 0, Pages(sz))
      ensures !ok ==> Same(old(mm), mm) && Taken(old(mm), mm, r, 0, 0)
      ensures !ok ==> |old(free)| < 2 * Pages(sz)
    {
      var v := 0;
      ok := true;
      while ok && v * PGSIZE < sz
        invariant 0 <= v <= Pages(sz) && Valid() && mm.IsRoot(r) && mm.IsRoot(src)
        invariant ok ==> Copied(old(mm), mm, src, r, v) && Taken(old(mm), mm, r, 0, v)
        invariant !ok ==> Same(old(mm), mm) && Taken(old(mm), mm, r, 0, 0)
        invariant if ok then |free| + 2 * v >= |old(free)| else |old(free)| < 2 * Pages(sz)
        decreases ok, sz - v * PGSIZE
      {
        ghost var m := mm;
        ok := CopyOne(src, r, v);
        if ok {
          CopiedMore(old(mm), m, mm, src, r, v);
          TakenMore(old(mm), m, mm, r, 0, v, v + 1);
          v := v + 1;
        } else {
          TakenMore(old(mm), m, mm, r, 0, v, v);
          ghost var n := mm;
          Uvmunmap(r, 0, v, true);
          RolledBack(old(mm), n, mm, r, 0, v);
        }
      }
    }
  }

  lemma Emptied(m: OkMm, n: OkMm, r: nat, k: nat)
    requires Sized(m, r, k) && See(m, r, USER) == Absent && See(m, r, USER + 1) == Absent && n.IsRoot(r) && Cut(m, n, r, 0, k)
    ensures NothingMapped(n, r)
  {
  }

  lemma AllGone(m: OkMm, n: OkMm, o: OkMm, r: nat, k: nat)
    requires Sized(m, r, k) && See(m, r, USER) == Absent && See(m, r, USER + 1) == Absent
    requires Cut(m, n, r, 0, k) && Freed(m, n, r, 0, k) && NothingMapped(n, r) && Same(n, o) && |o.owner| == |n.owner|
    requires forall p: nat :: p < |n.owner| ==>
      o.owner[p] == if p == r || (n.owner[p].In? && n.owner[p].t == r) then Free else n.owner[p]
    ensures Gone(m, o, r)
  {
    forall p: nat | p < |m.owner| && LeafIn(m, r, p, 0, VPAGES) ensures LeafIn(m, r, p, 0, k) { LeafSeen(m, r, p, 0, VPAGES); }
    forall p: nat | p < |m.owner| && LeafIn(m, r, p, 0, k) ensures m.owner[p].t != r {
      assert m.UpAt(p) && m.UpAt(m.owner[p].t);
    }
  }

  lemma GoneSame(m0: OkMm, m: OkMm, n: OkMm, r: nat)
    requires m.owner == m0.owner && Gone(m, n, r)
    requires forall q: nat, v: nat :: v < VPAGES && q != r ==> See(m, q, v) == See(m0, q, v)
    ensures Gone(m0, n, r)
  {
    forall p: nat ensures Mine(m, r, p) <==> Mine(m0, r, p) { }
  }

  lemma EntryFreed(m0: OkMm, m: OkMm, n: OkMm, r: nat, i: nat, c: nat)
    requires TablesFreed(m0, m, r, i) && c < |m.owner| && m.owner[c] == In(r, i) && n.owner == m.owner[c := Free] && i < NPTE && m.IsRoot(r)
    ensures TablesFreed(m0, n, r, i + 1)
  {
    forall p: nat | p < |m0.owner| && m0.owner[p].In? && m0.owner[p].t == r && m0.owner[p].k == i ensures p == c {
      assert m.UpAt(p) && m.UpAt(c);
    }
  }

  lemma NoEntry(m0: OkMm, m: OkMm, r: nat, i: nat)
    requires TablesFreed(m0, m, r, i) && i < NPTE && m.IsRoot(r) && !m.P(r, i).Valid()
    ensures TablesFreed(m0, m, r, i + 1)
  {
    forall p: nat | p < |m.owner| && m.owner[p].In? && m.owner[p].t == r ensures m.owner[p].k != i {
      assert m.UpAt(p);
    }
  }
}
