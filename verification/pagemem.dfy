/** Physical pages and Sv32 page tables (kernel/kalloc.c, kernel/vm.c) as one value: what each page
    holds and who holds it. Pages are named by their physical page number. */
module PageMem {
  import opened Blocks

  const PGSIZE := 4096
  const NPTE := 1024
  const PTE_V := 1

  /** A page-table entry: PTE2PA(entry) / PGSIZE and PTE_FLAGS(entry). */
  datatype Pte = Pte(ppn: nat, flags: nat) {
    predicate Valid() { flags % 2 == 1 }
    predicate Leaf() { flags / 2 % 8 != 0 }      // R, W or X
    predicate User() { flags / 16 % 2 == 1 }
  }

  const NONE := Pte(0, 0)

  /** The entry as the 32-bit word the hardware reads: PA2PTE(pa) | flags. */
  function Encode(e: Pte): nat { e.ppn * 1024 + e.flags }

  function Decode(w: nat): Pte { Pte(w / 1024, w % 1024) }

  lemma EncodeDecode(e: Pte)
    requires e.flags < 1024
    ensures Decode(Encode(e)) == e && (e.ppn < 0x400000 ==> Encode(e) < TWO32)
  {
  }

  datatype Frame = Table(ptes: seq<Pte>) | Data(bytes: seq<Byte>)

  /** Who holds a page: the kernel image, the free list, the code that allocated it, a process as its
      root table, or entry `k` of table `t`. */
  datatype Where = Kernel | Free | Held | Root | In(t: nat, k: nat)

  function Zeros(n: nat): seq<Pte> { seq(n, _ => NONE) }

  datatype Mm = Mm(first: nat, frames: seq<Frame>, free: seq<nat>, owner: seq<Where>) {

    ghost predicate Shape()
    {
      && |owner| == |frames|
      && forall t :: 0 <= t < |frames| ==> if frames[t].Table? then |frames[t].ptes| == NPTE else |frames[t].bytes| == PGSIZE
    }

    predicate IsTable(t: nat) { t < |frames| && frames[t].Table? }

    predicate IsData(t: nat) { t < |frames| && frames[t].Data? }

    ghost function P(t: nat, k: nat): Pte
      requires Shape() && IsTable(t) && k < NPTE
    {
      frames[t].ptes[k]
    }

    ghost predicate IsRoot(t: nat) { t < |owner| && owner[t].Root? }

    /** The last two pages of every address space are the trampoline and the trapframe, which the
        table maps without owning them. */
    ghost predicate Owns(t: nat, k: nat) { t < |owner| && !(owner[t].In? && owner[t].k == 1023 && k >= 1022) }

    ghost predicate Down()
      requires Shape()
    {
      forall t: nat, k: nat :: DownAt(t, k)
    }

    /** A valid entry owns the page it points at. */
    ghost predicate DownAt(t: nat, k: nat)
      requires Shape()
    {
      IsTable(t) && k < NPTE && P(t, k).Valid() && Owns(t, k) ==> P(t, k).ppn < |owner| && owner[P(t, k).ppn] == In(t, k)
    }

    ghost predicate HeldIn(p: nat)
      requires Shape() && p < |owner| && owner[p].In?
    {
      var t, k := owner[p].t, owner[p].k;
      IsTable(t) && k < NPTE && P(t, k).Valid() && P(t, k).ppn == p && Owns(t, k)
    }

    ghost predicate Up()
      requires Shape()
    {
      forall p: nat :: UpAt(p)
    }

    ghost predicate UpAt(p: nat)
      requires Shape()
    {
      p < |owner| && owner[p].In? ==> HeldIn(p)
    }

    /** A table is a root, whose entries point at tables, or held by a root, and its entries are leaves. */
    ghost predicate Level(t: nat)
      requires Shape() && IsTable(t)
    {
      && (owner[t].Root? || (owner[t].In? && IsRoot(owner[t].t)))
      && (forall k: nat :: k < NPTE && P(t, k).Valid() ==>
            if owner[t].Root? then P(t, k).flags == PTE_V && IsTable(P(t, k).ppn)
            else P(t, k).Leaf() && (Owns(t, k) ==> IsData(P(t, k).ppn)))
    }

    ghost predicate Levels()
      requires Shape()
    {
      (forall t: nat :: LevelAt(t)) && (forall r: nat :: IsRoot(r) ==> IsTable(r))
    }

    ghost predicate LevelAt(t: nat)
      requires Shape()
    {
      IsTable(t) ==> Level(t)
    }

    /** The free list has no page twice; the allocator manages the pages from `first` on. */
    ghost predicate FreeOk()
    {
      && (forall i, j :: 0 <= i < j < |free| ==> free[i] != free[j])
      && (forall p :: p in free ==> p < |owner|)
      && (forall p :: 0 <= p < |owner| ==> (owner[p] == Free <==> p in free) && (owner[p] == Kernel <==> p < first))
    }

    ghost predicate Ok() { Shape() && Down() && Up() && Levels() && FreeOk() }

    /** The leaf entry of virtual page `v` in the table with root `r`. */
    ghost function Look(r: nat, v: nat): Pte
      requires Ok() && IsRoot(r) && v < NPTE * NPTE
    {
      assert LevelAt(r);
      var e := P(r, v / NPTE);
      if e.Valid() then P(e.ppn, v % NPTE) else NONE
    }
  }

  type OkMm = m: Mm | m.Ok() ghost witness Mm(0, [], [], [])

  // kalloc and kfree.

  function Junk(b: Byte): Frame { Data(seq(PGSIZE, _ => b)) }

  ghost function Alloc(m: OkMm): Mm
    requires |m.free| > 0
  {
    var p := m.free[0];
    assert p in m.free;
    m.(frames := m.frames[p := Junk(5)], free := m.free[1..], owner := m.owner[p := Held])
  }

  lemma AllocOk(m: OkMm)
    requires |m.free| > 0
    ensures Alloc(m).Ok()
  {
    var p, n := m.free[0], Alloc(m);
    assert m.owner[p] == Free by { assert p in m.free; }
    NotTable(m, p);
    Untouched(m, n, p);
    assert m.free == [p] + n.free;
    forall q | q in n.free ensures q < |n.owner| && q != p { assert q in m.free; }
  }

  /** Pages that are free or merely held hold no table. */
  lemma NotTable(m: OkMm, p: nat)
    requires p < |m.owner| && (m.owner[p] == Free || m.owner[p] == Held)
    ensures !m.IsTable(p)
  {
    assert m.LevelAt(p);
  }

  /** Nothing but page `p`, which no table and no entry involves, differs. */
  ghost predicate OnlyPage(m: OkMm, n: Mm, p: nat)
  {
    && p < |m.owner| && n.Shape() && |n.frames| == |m.frames| && n.IsData(p) && m.IsData(p)
    && !m.owner[p].In? && !m.owner[p].Root? && !n.owner[p].In? && !n.owner[p].Root?
    && (forall q :: 0 <= q < |m.owner| && q != p ==> n.owner[q] == m.owner[q] && n.frames[q] == m.frames[q])
  }

  lemma Untouched(m: OkMm, n: Mm, p: nat)
    requires OnlyPage(m, n, p)
    ensures n.Down() && n.Up() && n.Levels()
  {
    forall t: nat, k: nat ensures n.DownAt(t, k) { assert m.DownAt(t, k); }
    forall t: nat | n.IsTable(t) ensures n.Level(t) {
      assert m.LevelAt(t);
      forall k: nat | k < NPTE ensures n.P(t, k) == m.P(t, k) { }
    }
    forall t: nat ensures n.LevelAt(t) { }
    forall r: nat | n.IsRoot(r) ensures n.IsTable(r) { assert m.IsRoot(r); }
    forall q: nat ensures n.UpAt(q) { assert m.UpAt(q); }
  }

  ghost function Release(m: OkMm, p: nat): Mm
    requires p < |m.owner|
  {
    m.(frames := m.frames[p := Junk(1)], free := [p] + m.free, owner := m.owner[p := Free])
  }

  lemma ReleaseOk(m: OkMm, p: nat)
    requires p < |m.owner| && m.owner[p] == Held
    ensures Release(m, p).Ok()
  {
    NotTable(m, p);
    Untouched(m, Release(m, p), p);
  }

  // Building and taking down tables. Each step changes one entry, one page, or both.

  /** A held page becomes an empty root table (uvmcreate). */
  ghost function NewRoot(m: OkMm, p: nat): Mm
    requires p < |m.owner|
  {
    m.(frames := m.frames[p := Table(Zeros(NPTE))], owner := m.owner[p := Root])
  }

  /** A held page becomes an empty table under entry `i` of root `r` (walk with alloc). */
  ghost function Attach(m: OkMm, r: nat, i: nat, c: nat): Mm
    requires m.IsTable(r) && i < NPTE && c < |m.owner|
  {
    var top := Table(m.frames[r].ptes[i := Pte(c, PTE_V)]);
    m.(frames := m.frames[c := Table(Zeros(NPTE))][r := top], owner := m.owner[c := In(r, i)])
  }

  /** Entry `k` of leaf table `t` is set (mappages). */
  ghost function Map(m: OkMm, t: nat, k: nat, e: Pte): Mm
    requires m.IsTable(t) && k < NPTE && e.ppn < |m.owner|
  {
    m.(frames := m.frames[t := Table(m.frames[t].ptes[k := e])],
       owner := if m.Owns(t, k) then m.owner[e.ppn := In(t, k)] else m.owner)
  }

  /** Entry `k` of leaf table `t` is cleared, and the page it owned is held again (uvmunmap). */
  ghost function Unmap(m: OkMm, t: nat, k: nat): Mm
    requires m.IsTable(t) && k < NPTE
  {
    m.(frames := m.frames[t := Table(m.frames[t].ptes[k := NONE])],
       owner := if m.Owns(t, k) && m.P(t, k).ppn < |m.owner| then m.owner[m.P(t, k).ppn := Held] else m.owner)
  }

  ghost predicate LeafTable(m: OkMm, t: nat) { m.IsTable(t) && m.owner[t].In? }

  lemma NewRootOk(m: OkMm, p: nat)
    requires p < |m.owner| && m.owner[p] == Held
    ensures NewRoot(m, p).Ok()
  {
    var n := NewRoot(m, p);
    NotTable(m, p);
    forall t: nat, k: nat ensures n.DownAt(t, k) { assert m.DownAt(t, k); }
    forall t: nat | n.IsTable(t) ensures n.Level(t) {
      if t != p {
        assert m.LevelAt(t);
        forall k: nat | k < NPTE && n.P(t, k).Valid() ensures n.P(t, k) == m.P(t, k) && (n.P(t, k).ppn != p || !m.Owns(t, k)) { assert m.DownAt(t, k); }
      }
    }
    forall t: nat ensures n.LevelAt(t) { }
    forall r: nat | n.IsRoot(r) ensures n.IsTable(r) { assert r != p ==> m.IsRoot(r); }
    forall q: nat ensures n.UpAt(q) { assert m.UpAt(q); }
  }

  lemma AttachOk(m: OkMm, r: nat, i: nat, c: nat)
    requires m.IsRoot(r) && i < NPTE && !m.P(r, i).Valid() && c < |m.owner| && m.owner[c] == Held
    ensures Attach(m, r, i, c).Ok()
  {
    var n := Attach(m, r, i, c);
    NotTable(m, c);
    assert m.LevelAt(r);
    forall t: nat, k: nat ensures n.DownAt(t, k) { assert m.DownAt(t, k); }
    forall t: nat ensures n.LevelAt(t) { if n.IsTable(t) { AttachLevel(m, r, i, c, t); } }
    forall q: nat | n.IsRoot(q) ensures n.IsTable(q) { assert m.IsRoot(q); }
    forall q: nat ensures n.UpAt(q) { assert m.UpAt(q); }
  }

  lemma AttachLevel(m: OkMm, r: nat, i: nat, c: nat, t: nat)
    requires m.IsRoot(r) && i < NPTE && !m.P(r, i).Valid() && c < |m.owner| && m.owner[c] == Held && c != r
    requires Attach(m, r, i, c).Shape() && Attach(m, r, i, c).IsTable(t)
    ensures Attach(m, r, i, c).Level(t)
  {
    var n := Attach(m, r, i, c);
    if t != c {
      assert m.LevelAt(t);
      forall k: nat | k < NPTE && n.P(t, k).Valid() && !(t == r && k == i)
        ensures n.P(t, k) == m.P(t, k) && (n.P(t, k).ppn != c || !m.Owns(t, k)) { assert m.DownAt(t, k); }
    }
  }

  lemma MapOk(m: OkMm, t: nat, k: nat, e: Pte)
    requires LeafTable(m, t) && k < NPTE && !m.P(t, k).Valid() && e.Valid() && e.Leaf() && e.ppn < |m.owner|
    requires m.Owns(t, k) ==> m.owner[e.ppn] == Held
    ensures Map(m, t, k, e).Ok()
  {
    var n := Map(m, t, k, e);
    if m.Owns(t, k) { NotTable(m, e.ppn); }
    assert m.LevelAt(t);
    forall u: nat, j: nat ensures n.DownAt(u, j) { assert m.DownAt(u, j); }
    forall u: nat | n.IsTable(u) ensures n.Level(u) {
      assert m.LevelAt(u);
      forall j: nat | j < NPTE && !(u == t && j == k) ensures n.P(u, j) == m.P(u, j) { }
    }
    forall u: nat ensures n.LevelAt(u) { }
    forall q: nat | n.IsRoot(q) ensures n.IsTable(q) { assert m.IsRoot(q); }
    forall q: nat ensures n.UpAt(q) { assert m.UpAt(q); }
  }

  lemma UnmapOk(m: OkMm, t: nat, k: nat)
    requires LeafTable(m, t) && k < NPTE && m.P(t, k).Valid()
    ensures Unmap(m, t, k).Ok()
  {
    var n, e := Unmap(m, t, k), m.P(t, k);
    assert m.LevelAt(t) && m.DownAt(t, k);
    assert !NONE.Valid();
    forall u: nat, j: nat ensures n.DownAt(u, j) { assert m.DownAt(u, j); }
    forall u: nat | n.IsTable(u) ensures n.Level(u) {
      assert m.LevelAt(u);
      forall j: nat | j < NPTE && n.P(u, j).Valid() ensures n.P(u, j) == m.P(u, j) { }
    }
    forall u: nat ensures n.LevelAt(u) { }
    forall q: nat | n.IsRoot(q) ensures n.IsTable(q) { assert m.IsRoot(q); }
    forall q: nat ensures n.UpAt(q) { assert m.UpAt(q); }
  }

  // What a process sees: the contents and flags of each of its pages below the trapframe, and where
  // the two pages from the trapframe on are mapped.

  const USER := 0xFFFFE  // page number of TRAPFRAME
  const VPAGES := 0x100000

  datatype View = Absent | Page(flags: nat, bytes: seq<Byte>) | Alias(e: Pte)

  /** A valid leaf entry below the trapframe: its table is held by the root, its page by the table. */
  lemma LeafOwned(m: OkMm, r: nat, v: nat)
    requires m.IsRoot(r) && v < USER && m.Look(r, v).Valid()
    ensures var t := m.P(r, v / NPTE).ppn;
      && m.P(r, v / NPTE).Valid() && LeafTable(m, t) && m.owner[t] == In(r, v / NPTE) && m.Owns(t, v % NPTE)
      && m.IsData(m.Look(r, v).ppn) && m.owner[m.Look(r, v).ppn] == In(t, v % NPTE)
  {
    var e := m.P(r, v / NPTE);
    assert m.LevelAt(r) && m.Owns(r, v / NPTE) && m.DownAt(r, v / NPTE);
    assert m.LevelAt(e.ppn) && m.DownAt(e.ppn, v % NPTE);
  }

  ghost function See(m: OkMm, r: nat, v: nat): View
    requires v < VPAGES
  {
    if !m.IsRoot(r) || !m.Look(r, v).Valid() then Absent
    else if v >= USER then Alias(m.Look(r, v))
    else
      LeafOwned(m, r, v);
      Page(m.Look(r, v).flags, m.frames[m.Look(r, v).ppn].bytes)
  }

  lemma UntouchedSee(m: OkMm, n: OkMm, p: nat, r: nat, v: nat)
    requires OnlyPage(m, n, p) && v < VPAGES
    ensures See(n, r, v) == See(m, r, v)
  {
    if m.IsRoot(r) {
      assert m.LevelAt(r) && m.DownAt(r, v / NPTE) && m.P(r, v / NPTE) == n.P(r, v / NPTE);
      if v < USER && m.Look(r, v).Valid() { LeafOwned(m, r, v); }
    }
  }

  lemma AllocSee(m: OkMm, r: nat, v: nat)
    requires |m.free| > 0 && v < VPAGES
    ensures Alloc(m).Ok() && See(Alloc(m), r, v) == See(m, r, v)
  {
    AllocOk(m);
    assert m.free[0] in m.free;
    NotTable(m, m.free[0]);
    UntouchedSee(m, Alloc(m), m.free[0], r, v);
  }

  lemma ReleaseSee(m: OkMm, p: nat, r: nat, v: nat)
    requires p < |m.owner| && m.owner[p] == Held && v < VPAGES
    ensures Release(m, p).Ok() && See(Release(m, p), r, v) == See(m, r, v)
  {
    ReleaseOk(m, p);
    NotTable(m, p);
    UntouchedSee(m, Release(m, p), p, r, v);
  }

  lemma NewRootSee(m: OkMm, p: nat, r: nat, v: nat)
    requires p < |m.owner| && m.owner[p] == Held && v < VPAGES
    ensures NewRoot(m, p).Ok() && See(NewRoot(m, p), r, v) == See(m, r, v)
  {
    NewRootOk(m, p);
    var n := NewRoot(m, p);
    if m.IsRoot(r) {
      assert m.LevelAt(r) && m.DownAt(r, v / NPTE) && m.P(r, v / NPTE) == n.P(r, v / NPTE);
      if v < USER && m.Look(r, v).Valid() { LeafOwned(m, r, v); }
    } else if r == p {
      assert n.P(p, v / NPTE) == NONE;
    }
  }

  lemma AttachSee(m: OkMm, r0: nat, i: nat, c: nat, r: nat, v: nat)
    requires m.IsRoot(r0) && i < NPTE && !m.P(r0, i).Valid() && c < |m.owner| && m.owner[c] == Held && v < VPAGES
    ensures Attach(m, r0, i, c).Ok() && See(Attach(m, r0, i, c), r, v) == See(m, r, v)
  {
    AttachOk(m, r0, i, c);
    var n := Attach(m, r0, i, c);
    if m.IsRoot(r) {
      assert m.LevelAt(r) && m.DownAt(r, v / NPTE);
      if r == r0 && v / NPTE == i {
        assert n.P(c, v % NPTE) == NONE;
      } else {
        assert m.P(r, v / NPTE) == n.P(r, v / NPTE);
        if v < USER && m.Look(r, v).Valid() { LeafOwned(m, r, v); }
      }
    }
  }

  lemma MapSee(m: OkMm, t: nat, k: nat, e: Pte, r: nat, v: nat)
    requires LeafTable(m, t) && k < NPTE && !m.P(t, k).Valid() && e.Valid() && e.Leaf() && e.ppn < |m.owner|
    requires m.Owns(t, k) ==> m.owner[e.ppn] == Held
    requires v < VPAGES
    ensures Map(m, t, k, e).Ok()
    ensures if m.owner[t] == In(r, v / NPTE) && v % NPTE == k
      then if v >= USER then See(Map(m, t, k, e), r, v) == Alias(e)
        else m.IsData(e.ppn) && See(Map(m, t, k, e), r, v) == Page(e.flags, m.frames[e.ppn].bytes)
      else See(Map(m, t, k, e), r, v) == See(m, r, v)
  {
    MapOk(m, t, k, e);
    var n := Map(m, t, k, e);
    assert m.LevelAt(t);
    if m.Owns(t, k) { NotTable(m, e.ppn); }
    if m.IsRoot(r) {
      assert m.LevelAt(r) && m.DownAt(r, v / NPTE) && m.P(r, v / NPTE) == n.P(r, v / NPTE) && m.UpAt(t) && m.Owns(r, v / NPTE);
      if v < USER && m.Look(r, v).Valid() { LeafOwned(m, r, v); }
    }
  }

  lemma UnmapSee(m: OkMm, t: nat, k: nat, r: nat, v: nat)
    requires LeafTable(m, t) && k < NPTE && m.P(t, k).Valid() && v < VPAGES
    ensures Unmap(m, t, k).Ok()
    ensures See(Unmap(m, t, k), r, v) == if m.owner[t] == In(r, v / NPTE) && v % NPTE == k then Absent else See(m, r, v)
  {
    UnmapOk(m, t, k);
    var n := Unmap(m, t, k);
    assert m.LevelAt(t) && m.UpAt(t);
    if m.IsRoot(r) {
      assert m.LevelAt(r) && m.DownAt(r, v / NPTE) && m.P(r, v / NPTE) == n.P(r, v / NPTE) && m.Owns(r, v / NPTE);
      if v < USER && m.Look(r, v).Valid() { LeafOwned(m, r, v); }
    }
  }

  /** Every process sees what it saw. */
  ghost predicate Same(m: OkMm, n: OkMm)
  {
    forall r: nat, v: nat :: v < VPAGES ==> See(n, r, v) == See(m, r, v)
  }

  /** Every process sees what it saw, except that virtual page `u` of root `q` is now `w`. */
  ghost predicate SameBut(m: OkMm, n: OkMm, q: nat, u: nat, w: View)
  {
    forall r: nat, v: nat :: v < VPAGES ==> See(n, r, v) == if r == q && v == u then w else See(m, r, v)
  }

  /** A leaf table without valid entries is freed and its entry in the root cleared. */
  ghost function Detach(m: OkMm, r: nat, i: nat): Mm
    requires m.IsTable(r) && i < NPTE && m.P(r, i).ppn < |m.owner|
  {
    var c := m.P(r, i).ppn;
    m.(frames := m.frames[c := Junk(1)][r := Table(m.frames[r].ptes[i := NONE])], free := [c] + m.free, owner := m.owner[c := Free])
  }

  ghost predicate EmptyTable(m: OkMm, t: nat) { m.IsTable(t) && forall k: nat :: k < NPTE ==> !m.P(t, k).Valid() }

  lemma DetachOk(m: OkMm, r: nat, i: nat)
    requires m.IsRoot(r) && i < NPTE && m.P(r, i).Valid() && EmptyTable(m, m.P(r, i).ppn)
    ensures m.Owns(r, i) && Detach(m, r, i).Ok()
  {
    var n, c := Detach(m, r, i), m.P(r, i).ppn;
    assert m.LevelAt(r) && m.Owns(r, i) && m.DownAt(r, i) && !NONE.Valid();
    forall t: nat, k: nat ensures n.DownAt(t, k) { assert m.DownAt(t, k); }
    forall t: nat | n.IsTable(t) ensures n.Level(t) {
      assert m.LevelAt(t);
      forall k: nat | k < NPTE && n.P(t, k).Valid() ensures n.P(t, k) == m.P(t, k) && (n.P(t, k).ppn != c || !m.Owns(t, k)) { assert m.DownAt(t, k); }
    }
    forall t: nat ensures n.LevelAt(t) { }
    forall q: nat | n.IsRoot(q) ensures n.IsTable(q) { assert m.IsRoot(q); }
    forall q: nat ensures n.UpAt(q) { assert m.UpAt(q); }
  }

  lemma DetachSee(m: OkMm, r0: nat, i: nat, r: nat, v: nat)
    requires m.IsRoot(r0) && i < NPTE && m.P(r0, i).Valid() && EmptyTable(m, m.P(r0, i).ppn) && v < VPAGES
    ensures m.Owns(r0, i) && Detach(m, r0, i).Ok() && See(Detach(m, r0, i), r, v) == See(m, r, v)
  {
    DetachOk(m, r0, i);
    var n := Detach(m, r0, i);
    if m.IsRoot(r) {
      assert m.LevelAt(r) && m.LevelAt(r0) && m.Owns(r, v / NPTE) && m.DownAt(r, v / NPTE) && m.DownAt(r0, i);
      if r != r0 || v / NPTE != i { assert m.P(r, v / NPTE) == n.P(r, v / NPTE); }
      if v < USER && m.Look(r, v).Valid() { LeafOwned(m, r, v); }
    }
  }

  /** An empty root table is freed. */
  ghost function DropRoot(m: OkMm, r: nat): Mm
    requires r < |m.owner|
  {
    m.(frames := m.frames[r := Junk(1)], free := [r] + m.free, owner := m.owner[r := Free])
  }

  lemma DropRootOk(m: OkMm, r: nat)
    requires m.IsRoot(r) && EmptyTable(m, r)
    ensures DropRoot(m, r).Ok()
  {
    var n := DropRoot(m, r);
    forall t: nat, k: nat ensures n.DownAt(t, k) { assert m.DownAt(t, k); }
    forall t: nat | n.IsTable(t) ensures n.Level(t) {
      assert m.LevelAt(t);
      assert m.UpAt(t);
      forall k: nat | k < NPTE && n.P(t, k).Valid() ensures n.P(t, k) == m.P(t, k) && (n.P(t, k).ppn != r || !m.Owns(t, k)) { assert m.DownAt(t, k); }
    }
    forall t: nat ensures n.LevelAt(t) { }
    forall q: nat | n.IsRoot(q) ensures n.IsTable(q) { assert m.IsRoot(q); }
    forall q: nat ensures n.UpAt(q) { assert m.UpAt(q); }
  }

  lemma DropRootSee(m: OkMm, r0: nat, r: nat, v: nat)
    requires m.IsRoot(r0) && EmptyTable(m, r0) && v < VPAGES
    ensures DropRoot(m, r0).Ok() && See(DropRoot(m, r0), r, v) == See(m, r, v)
  {
    DropRootOk(m, r0);
    var n := DropRoot(m, r0);
    if m.IsRoot(r) {
      assert m.LevelAt(r) && m.DownAt(r, v / NPTE);
      if r != r0 {
        assert m.P(r, v / NPTE) == n.P(r, v / NPTE);
        if v < USER && m.Look(r, v).Valid() { LeafOwned(m, r, v); }
      }
    }
  }

  /** The bytes of a data page are replaced. */
  ghost function Poke(m: OkMm, p: nat, bytes: seq<Byte>): Mm
    requires p < |m.frames|
  {
    m.(frames := m.frames[p := Data(bytes)])
  }

  lemma PokeOk(m: OkMm, p: nat, bytes: seq<Byte>)
    requires m.IsData(p) && |bytes| == PGSIZE
    ensures Poke(m, p, bytes).Ok()
  {
    var n := Poke(m, p, bytes);
    forall t: nat, k: nat ensures n.DownAt(t, k) { assert m.DownAt(t, k); }
    forall t: nat | n.IsTable(t) ensures n.Level(t) {
      assert m.LevelAt(t);
      forall k: nat | k < NPTE ensures n.P(t, k) == m.P(t, k) { }
    }
    forall t: nat ensures n.LevelAt(t) { }
    forall q: nat | n.IsRoot(q) ensures n.IsTable(q) { assert m.IsRoot(q); }
    forall q: nat ensures n.UpAt(q) { assert m.UpAt(q); }
  }

  /** A page is seen through at most one virtual page of one process. */
  lemma PokeSee(m: OkMm, p: nat, bytes: seq<Byte>, r: nat, v: nat)
    requires m.IsData(p) && |bytes| == PGSIZE && v < VPAGES
    ensures Poke(m, p, bytes).Ok()
    ensures See(Poke(m, p, bytes), r, v) ==
      if m.IsRoot(r) && v < USER && m.Look(r, v).Valid() && m.Look(r, v).ppn == p then Page(m.Look(r, v).flags, bytes) else See(m, r, v)
  {
    PokeOk(m, p, bytes);
    var n := Poke(m, p, bytes);
    if m.IsRoot(r) {
      assert m.LevelAt(r) && m.DownAt(r, v / NPTE) && m.P(r, v / NPTE) == n.P(r, v / NPTE);
      if v < USER && m.Look(r, v).Valid() { LeafOwned(m, r, v); }
    }
  }

  /** Two virtual pages that map the same page are the same. */
  lemma OneLeaf(m: OkMm, r: nat, v: nat, q: nat, u: nat)
    requires m.IsRoot(r) && m.IsRoot(q) && v < USER && u < USER && m.Look(r, v).Valid() && m.Look(q, u).Valid()
    requires m.Look(r, v).ppn == m.Look(q, u).ppn
    ensures r == q && v == u
  {
    LeafOwned(m, r, v);
    LeafOwned(m, q, u);
  }
}
