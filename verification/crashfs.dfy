/** A transaction of kernel/fs.c carried through kernel/bio.c and kernel/log.c: the blocks that an operation changed
    go to the cache, are logged and committed, and a crash at any disk write leaves a disk from which recovery makes
    the file system of before the transaction or of after it. */
module CrashFs {
  import opened Options
  import opened Blocks
  import opened BufCache
  import opened Crash
  import opened FsState
  import opened InodeTable
  import opened FileSystem
  import GC = GroupCommit
  import L = Log

  /** Where mkfs puts things: the log, the inode blocks, the bitmap, and from `meta` on the data. */
  datatype Geometry = Geometry(lay: L.Place, istart: nat, nib: nat, bstart: nat, nbm: nat, meta: nat, ninodes: nat)

  ghost predicate Ordered(g: Geometry)
  {
    g.lay.start + g.lay.size <= g.istart && g.istart + g.nib <= g.bstart && g.bstart + g.nbm <= g.meta <= g.lay.disk && g.ninodes <= g.nib * IPB
  }

  ghost predicate Shaped(g: Geometry, m: Medium) { |m.bitmap| == g.nbm && |m.inodes| == g.ninodes && |m.data| == g.lay.disk }

  // What a block of the disk has to hold.

  predicate SameInode(d: Dinode, n: Inode) { d.typ == n.typ && d.nlink == n.nlink && d.size == n.size && d.addrs == n.addrs }

  ghost predicate RecordIs(blk: Block, inodes: seq<Inode>, k: nat, j: nat)
  {
    j < IPB && IPB * k + j < |inodes| ==> SameInode(Get(blk, j), inodes[IPB * k + j])
  }

  /** Inode block `k` of the table. */
  ghost predicate Records(blk: Block, inodes: seq<Inode>, k: nat) { forall j: nat :: RecordIs(blk, inodes, k, j) }

  /** Block `b` of a disk with contents `m`. */
  ghost predicate Right(g: Geometry, m: Medium, b: nat, blk: Block)
    requires Shaped(g, m)
  {
    && (g.bstart <= b < g.bstart + g.nbm ==> blk == m.bitmap[b - g.bstart])
    && (g.istart <= b < g.istart + g.nib ==> Records(blk, m.inodes, b - g.istart))
    && (g.meta <= b < g.lay.disk ==> blk == m.data[b])
  }

  ghost predicate HoldsAt(g: Geometry, img: Image, m: Medium, b: nat)
    requires Shaped(g, m)
  {
    b < |img| ==> Right(g, m, b, img[b])
  }

  /** The image, apart from superblock and log, is the bitmap, the inodes and the data of `m`. */
  ghost predicate Holds(g: Geometry, img: Image, m: Medium)
  {
    |img| == g.lay.disk && Shaped(g, m) && forall b: nat :: HoldsAt(g, img, m, b)
  }

  /** Home blocks are all that matters. */
  lemma HomesMatter(g: Geometry, img: Image, r: Image, m: Medium)
    requires Ordered(g) && Holds(g, img, m) && |r| == |img| && forall b: nat :: g.lay.Home(b) ==> r[b] == img[b]
    ensures Holds(g, r, m)
  {
    forall b: nat ensures HoldsAt(g, r, m, b) {
      assert HoldsAt(g, img, m, b);
      if b < |img| && g.lay.Home(b) { assert r[b] == img[b]; }
    }
  }

  // Crashes.

  /** However many boots crash from image `r` on, the one that completes leaves the file system `m` on the disk. */
  ghost predicate RecoversTo(g: Geometry, r: Image, m: Medium)
  {
    forall boots :: g.lay.CrashedBoots(boots) && boots[0] == r ==>
      g.lay.LogOk(boots[|boots| - 1]) && Holds(g, g.lay.Recover(boots[|boots| - 1]), m)
  }

  /** What the file system sees and what is on the disk differ in `homes` only. */
  ghost predicate Clean(g: Geometry, s: L.Store, homes: seq<nat>)
  {
    |s.image| == |s.files| == g.lay.disk && forall b: nat :: g.lay.Home(b) && b !in homes ==> s.files[b] == s.image[b]
  }

  lemma SurvivorHolds(g: Geometry, s: L.Store, homes: seq<nat>, r: Image, committed: bool, a: Medium, b: Medium)
    requires Ordered(g) && Clean(g, s, homes) && g.lay.HomesOk(homes) && Holds(g, s.image, a) && Holds(g, s.files, b)
    requires g.lay.Survives(s.image, homes, L.Datas(s, homes), r, committed)
    ensures RecoversTo(g, r, if committed then b else a)
  {
    forall boots | g.lay.CrashedBoots(boots) && boots[0] == r
      ensures g.lay.LogOk(boots[|boots| - 1]) && Holds(g, g.lay.Recover(boots[|boots| - 1]), if committed then b else a)
    {
      var done := g.lay.Recover(boots[|boots| - 1]);
      if committed { PostHolds(g, s, homes, done, b); } else { HomesMatter(g, s.image, done, a); }
    }
  }

  lemma PostHolds(g: Geometry, s: L.Store, homes: seq<nat>, r: Image, m: Medium)
    requires Ordered(g) && Clean(g, s, homes) && g.lay.HomesOk(homes) && Holds(g, s.files, m)
    requires g.lay.Post(s.image, homes, L.Datas(s, homes), r)
    ensures Holds(g, r, m)
  {
    forall b: nat | g.lay.Home(b) ensures r[b] == s.files[b] {
      if b in homes {
        var i :| 0 <= i < |homes| && homes[i] == b;
        assert r[homes[i]] == L.Datas(s, homes)[i];
      }
    }
    HomesMatter(g, s.files, r, m);
  }

  /** The end of the transaction: whichever image the disk goes through, recovery from it gives the file system of
      before, or from the header write on the one of after. */
  method Commit(log: L.Log, ghost g: Geometry, ghost a: Medium, ghost b: Medium) returns (ok: bool)
    requires log.Valid() && log.committing && log.S().locked == {} && log.lay == g.lay && Ordered(g)
    requires Holds(g, log.S().image, a) && Holds(g, log.S().files, b)
    modifies log`lh, log`committing, log`gc, log.cache, log.cache.disk
    ensures forall n :: old(|log.cache.disk.history|) <= n < |log.cache.disk.history| ==>
      RecoversTo(g, log.cache.disk.history[n], if n - old(|log.cache.disk.history|) >= |old(log.lh)| then b else a)
    ensures ok ==> log.Valid() && log.S().pinned == {} && Holds(g, log.S().files, b)
    ensures !ok ==> L.Exhausted(log.cache.view)
  {
    ghost var s, homes, h := log.S(), log.lh, log.cache.disk.history;
    AllClean(g, log.cache.view, homes);
    ghost var w;
    ok, w := log.EndTransaction();
    forall n | |h| <= n < |log.cache.disk.history|
      ensures RecoversTo(g, log.cache.disk.history[n], if n - |h| >= |homes| then b else a)
    {
      SurvivorHolds(g, s, homes, log.cache.disk.history[n], n - |h| >= |homes|, a, b);
    }
    if ok { HomesMatter(g, s.files, log.S().files, b); }
  }

  lemma AllClean(g: Geometry, v: OkView, homes: seq<nat>)
    requires |v.image| == g.lay.disk && L.Abs(v).pinned == GC.Elems(homes) && L.Abs(v).locked == {}
    ensures Clean(g, L.Abs(v), homes)
  {
    forall b: nat | g.lay.Home(b) && b !in homes ensures L.Abs(v).files[b] == L.Abs(v).image[b] { L.AbsClean(v, b); }
  }

  // The blocks that the operation changed, as it leaves them.

  /** The inodes fit struct dinode. */
  ghost predicate Fit(inodes: seq<Inode>) { forall i: nat :: FitAt(inodes, i) }

  ghost predicate FitAt(inodes: seq<Inode>, i: nat)
  {
    i < |inodes| ==>
      && inodes[i].typ < 32768 && inodes[i].nlink < 32768 && inodes[i].size < TWO32
      && |inodes[i].addrs| == NADDRS && forall k :: 0 <= k < NADDRS ==> inodes[i].addrs[k] < TWO32
  }

  function RecordOf(d: Dinode, n: Inode): Dinode { Dinode(n.typ, d.major, d.minor, n.nlink, n.size, n.addrs) }

  lemma RecordFits(blk: Block, j: nat, inodes: seq<Inode>, i: nat)
    requires j < IPB && i < |inodes| && Fit(inodes)
    ensures InRange(RecordOf(Get(blk, j), inodes[i]))
  {
    assert FitAt(inodes, i);
    Halves(WordAt(blk, j, 0));
    Halves(WordAt(blk, j, 1));
  }

  lemma Halves(w: nat)
    requires w < TWO32
    ensures InodeTable.Short(Signed(w % 65536)) && InodeTable.Short(Signed(w / 65536))
  {
  }

  /** Inode block `k` with record `j` stored; what struct inode does not hold stays. */
  function StoreOne(blk: Block, inodes: seq<Inode>, k: nat, j: nat): Block
    requires j < IPB && Fit(inodes)
  {
    if IPB * k + j < |inodes| then
      RecordFits(blk, j, inodes, IPB * k + j);
      InodeTable.Put(blk, j, RecordOf(Get(blk, j), inodes[IPB * k + j]), RECORD)
    else blk
  }

  lemma StoreOneIs(blk: Block, inodes: seq<Inode>, k: nat, j: nat, x: nat)
    requires j < IPB && x < IPB && Fit(inodes) && (x == j || RecordIs(blk, inodes, k, x))
    ensures RecordIs(StoreOne(blk, inodes, k, j), inodes, k, x)
  {
    var i := IPB * k + j;
    if i < |inodes| {
      var d := RecordOf(Get(blk, j), inodes[i]);
      RecordFits(blk, j, inodes, i);
      GetPutRecord(blk, j, d, x);
      ReadBack(InodeTable.Put(blk, j, d, RECORD), inodes, k, x, if x == j then d else Get(blk, x));
    }
  }

  lemma ReadBack(blk: Block, inodes: seq<Inode>, k: nat, x: nat, d: Dinode)
    requires x < IPB && Get(blk, x) == d && (IPB * k + x < |inodes| ==> SameInode(d, inodes[IPB * k + x]))
    ensures RecordIs(blk, inodes, k, x)
  {
  }

  /** The block with its first `n` records stored. */
  function Stored(blk: Block, inodes: seq<Inode>, k: nat, n: nat): Block
    requires n <= IPB && Fit(inodes)
  {
    if n == 0 then blk else StoreOne(Stored(blk, inodes, k, n - 1), inodes, k, n - 1)
  }

  lemma {:induction false} StoredIs(blk: Block, inodes: seq<Inode>, k: nat, n: nat, j: nat)
    requires j < n <= IPB && Fit(inodes)
    ensures RecordIs(Stored(blk, inodes, k, n), inodes, k, j)
  {
    var c, i := Stored(blk, inodes, k, n - 1), n - 1;
    if j < i { StoredIs(blk, inodes, k, i, j); }
    StoreOneIs(c, inodes, k, i, j);
    assert Stored(blk, inodes, k, n) == StoreOne(c, inodes, k, i);
  }

  /** What the operation makes of block `b`, which held `blk`. */
  function NewBlock(g: Geometry, m: Medium, b: nat, blk: Block): Block
    requires Shaped(g, m) && Fit(m.inodes)
  {
    if g.bstart <= b < g.bstart + g.nbm then m.bitmap[b - g.bstart]
    else if g.istart <= b < g.istart + g.nib then Stored(blk, m.inodes, b - g.istart, IPB)
    else if g.meta <= b < g.lay.disk then m.data[b] else blk
  }

  lemma NewIsRight(g: Geometry, m: Medium, b: nat, blk: Block)
    requires Ordered(g) && Shaped(g, m) && Fit(m.inodes)
    ensures Right(g, m, b, NewBlock(g, m, b, blk))
  {
    if g.istart <= b < g.istart + g.nib {
      var k, n := b - g.istart, NewBlock(g, m, b, blk);
      forall j: nat ensures RecordIs(n, m.inodes, k, j) { if j < IPB { StoredIs(blk, m.inodes, k, IPB, j); } }
    }
  }

  /** The first `n` of `blocks` are as in `m`, and the others as in `f`. */
  ghost predicate Half(g: Geometry, f: Image, cur: Image, m: Medium, blocks: seq<nat>, n: nat)
  {
    |cur| == |f| == g.lay.disk && Shaped(g, m) && n <= |blocks| && forall b: nat :: HalfAt(g, f, cur, m, blocks, n, b)
  }

  ghost predicate HalfAt(g: Geometry, f: Image, cur: Image, m: Medium, blocks: seq<nat>, n: nat, b: nat)
    requires |cur| == |f| && Shaped(g, m) && n <= |blocks|
  {
    b < |f| ==> if b in blocks[..n] then Right(g, m, b, cur[b]) else cur[b] == f[b]
  }

  lemma HalfMore(g: Geometry, f: Image, cur: Image, m: Medium, blocks: seq<nat>, n: nat)
    requires Ordered(g) && Fit(m.inodes) && Half(g, f, cur, m, blocks, n) && n < |blocks| && blocks[n] < |f|
    ensures Half(g, f, cur[blocks[n] := NewBlock(g, m, blocks[n], cur[blocks[n]])], m, blocks, n + 1)
  {
    var next, k := cur[blocks[n] := NewBlock(g, m, blocks[n], cur[blocks[n]])], n + 1;
    assert blocks[..k] == blocks[..n] + [blocks[n]];
    NewIsRight(g, m, blocks[n], cur[blocks[n]]);
    forall b: nat ensures HalfAt(g, f, next, m, blocks, k, b) { assert HalfAt(g, f, cur, m, blocks, n, b); }
  }

  /** When every block that changed was logged, the disk with the logged blocks replaced holds the new file system. */
  lemma AllLogged(g: Geometry, f: Image, cur: Image, a: Medium, m: Medium, blocks: seq<nat>)
    requires Ordered(g) && Holds(g, f, a) && Logs(a, m, GC.Elems(blocks), g.istart, g.bstart) && Half(g, f, cur, m, blocks, |blocks|)
    ensures Holds(g, cur, m)
  {
    assert blocks[..|blocks|] == blocks;
    forall b: nat ensures HoldsAt(g, cur, m, b) {
      assert HalfAt(g, f, cur, m, blocks, |blocks|, b) && HoldsAt(g, f, a, b);
      if b < |cur| && b !in blocks { Unlogged(g, f[b], a, m, GC.Elems(blocks), b); }
    }
  }

  lemma Unlogged(g: Geometry, blk: Block, a: Medium, m: Medium, log: set<nat>, b: nat)
    requires Ordered(g) && Shaped(g, a) && Shaped(g, m) && Logs(a, m, log, g.istart, g.bstart) && b !in log && b < g.lay.disk
    requires Right(g, a, b, blk)
    ensures Right(g, m, b, blk)
  {
    assert DataLogged(a, m, log, b);
    if g.bstart <= b < g.bstart + g.nbm {
      assert MapLogged(a, m, log, g.bstart, b - g.bstart);
    } else if g.istart <= b < g.istart + g.nib {
      var k := b - g.istart;
      forall j: nat ensures RecordIs(blk, m.inodes, k, j) {
        assert RecordIs(blk, a.inodes, k, j) && InodeLogged(a, m, log, g.istart, IPB * k + j);
        if j < IPB { assert (IPB * k + j) / IPB == k; }
      }
    }
  }

  /** One block of the operation: read, changed, logged and released. None of this writes to the disk. */
  method Write(log: L.Log, g: Geometry, m: Medium, bn: nat, ghost op: nat) returns (ok: bool)
    requires log.Valid() && log.S().locked == {} && log.lay == g.lay && Shaped(g, m) && Fit(m.inodes) && g.lay.Home(bn)
    requires GC.Enabled(log.gc, GC.Write(op, bn), MAXOPBLOCKS) && !GC.TooBig(log.gc, g.lay.size)
    modifies log`lh, log`gc, log.cache
    ensures ok ==> log.Valid() && log.gc == GC.Apply(old(log.gc), GC.Write(op, bn))
    ensures ok ==> var s := old(log.S()); log.S() == s.(files := s.files[bn := NewBlock(g, m, bn, s.files[bn])], pinned := s.pinned + {bn})
    ensures !ok ==> L.Exhausted(log.cache.view)
  {
    ghost var v := log.cache.view;
    L.PinnedAt(v, bn);
    var r := log.cache.Bread(ROOTDEV, bn);
    ok := r.Some?;
    if ok {
      var d := NewBlock(g, m, bn, log.cache.buf[r.value].data);
      log.Modify(r.value, d, op, v, bn);
    }
  }

  // The whole transaction.

  /** The operation has logged only some of `blocks`, and so has blocks of its reservation left for the others. */
  ghost predicate Spends(gc: GC.State, op: nat, blocks: seq<nat>)
  {
    gc.active == {op} && !gc.committing && GC.Elems(gc.logged) <= GC.Elems(blocks) && forall p :: p in gc.spent ==> p.0 == op && p.1 in blocks
  }

  lemma {:induction false} PairsOf(op: nat, s: set<(nat, nat)>, b: set<nat>)
    requires forall p :: p in s ==> p.0 == op && p.1 in b
    ensures |s| <= |b|
    decreases |s|
  {
    if s != {} {
      var p :| p in s;
      PairsOf(op, s - {p}, b - {p.1});
    }
  }

  lemma MayWrite(gc: GC.Kept, op: nat, blocks: seq<nat>, n: nat, size: nat)
    requires Spends(gc, op, blocks) && n < |blocks| && |GC.Elems(blocks)| <= MAXOPBLOCKS && MAXOPBLOCKS + 1 < size
    ensures GC.Enabled(gc, GC.Write(op, blocks[n]), MAXOPBLOCKS) && !GC.TooBig(gc, size)
    ensures Spends(GC.Apply(gc, GC.Write(op, blocks[n])), op, blocks)
  {
    PairsOf(op, GC.Of(gc.spent + {(op, blocks[n])}, op), GC.Elems(blocks));
    assert GC.Inv(gc, MAXOPBLOCKS);
    Fewer(GC.Elems(gc.logged), GC.Elems(blocks));
  }

  lemma {:induction false} Fewer(a: set<nat>, b: set<nat>)
    requires a <= b
    ensures |a| <= |b|
  {
    if a != {} {
      var x :| x in a;
      Fewer(a - {x}, b - {x});
    }
  }

  /** Where the operation stands: since the file system saw `s`, the first `n` of its blocks are changed. */
  ghost predicate Along(log: L.Log, g: Geometry, m: Medium, blocks: seq<nat>, n: nat, op: nat, s: L.Store)
    reads log, log.cache, log.cache.disk
  {
    && log.Valid() && log.lay == g.lay && Spends(log.gc, op, blocks) && log.S().locked == {} && log.S().image == s.image
    && Half(g, s.files, log.S().files, m, blocks, n)
  }

  method WriteNext(log: L.Log, g: Geometry, m: Medium, blocks: seq<nat>, n: nat, ghost op: nat, ghost s: L.Store) returns (ok: bool)
    requires Along(log, g, m, blocks, n, op, s) && n < |blocks| && Ordered(g) && Fit(m.inodes) && g.lay.Home(blocks[n])
    requires |GC.Elems(blocks)| <= MAXOPBLOCKS && MAXOPBLOCKS + 1 < g.lay.size
    modifies log`lh, log`gc, log.cache
    ensures if ok then Along(log, g, m, blocks, n + 1, op, s) else L.Exhausted(log.cache.view)
  {
    MayWrite(log.gc, op, blocks, n, g.lay.size);
    HalfMore(g, s.files, log.S().files, m, blocks, n);
    ok := Write(log, g, m, blocks[n], op);
  }

  /** The blocks of the operation one after the other. */
  method WriteAll(log: L.Log, g: Geometry, m: Medium, blocks: seq<nat>, ghost op: nat, ghost s: L.Store) returns (ok: bool)
    requires Along(log, g, m, blocks, 0, op, s) && Ordered(g) && Fit(m.inodes) && forall b :: b in blocks ==> g.lay.Home(b)
    requires |GC.Elems(blocks)| <= MAXOPBLOCKS && MAXOPBLOCKS + 1 < g.lay.size
    modifies log`lh, log`gc, log.cache
    ensures if ok then Along(log, g, m, blocks, |blocks|, op, s) else L.Exhausted(log.cache.view)
  {
    var n := 0;
    ok := true;
    while ok && n < |blocks|
      invariant n <= |blocks| && if ok then Along(log, g, m, blocks, n, op, s) else L.Exhausted(log.cache.view)
      decreases ok, |blocks| - n
    {
      ok := WriteNext(log, g, m, blocks, n, op, s);
      if ok { n := n + 1; }
    }
  }

  /** No operation is running, so nothing is logged or pinned, and the disk has what the file system sees. */
  lemma AtRest(log: L.Log, g: Geometry)
    requires log.Valid() && log.outstanding == 0 && !log.committing && log.S().locked == {} && log.lay == g.lay
    ensures log.gc.active == {} && log.gc.logged == [] && log.gc.spent == {} && log.S().files == log.S().image
  {
    assert GC.Inv(log.gc, MAXOPBLOCKS);
    assert log.S().pinned == {};
    L.AllClean(log.cache.view);
  }

  /** A crash before the first write of the transaction. */
  lemma QuietRecovers(g: Geometry, img: Image, m: Medium)
    requires Ordered(g) && Holds(g, img, m) && HeadCount(img[g.lay.start]) == 0
    ensures RecoversTo(g, img, m)
  {
    forall boots | g.lay.CrashedBoots(boots) && boots[0] == img
      ensures g.lay.LogOk(boots[|boots| - 1]) && Holds(g, g.lay.Recover(boots[|boots| - 1]), m)
    {
      g.lay.Uncommitted(img, [], 0);
      assert g.lay.WriteLog(img, [], 0) == img;
      g.lay.AnyNumberOfCrashes(boots);
      HomesMatter(g, img, g.lay.Recover(img), m);
    }
  }

  /** One operation alone, from begin_op to the commit in end_op: it takes the file system from `a` to `m`, logging
      `blocks`. A crash before the commit's write number `c` brings back `a`, and from that write on `m`. */
  method Transact(log: L.Log, g: Geometry, m: Medium, blocks: seq<nat>, ghost op: nat, ghost a: Medium) returns (ok: bool, ghost c: nat)
    requires log.Valid() && log.outstanding == 0 && !log.committing && log.S().locked == {} && log.lay == g.lay
    requires Ordered(g) && MAXOPBLOCKS + 1 < g.lay.size && Shaped(g, m) && Fit(m.inodes) && forall b :: b in blocks ==> g.lay.Home(b)
    requires |GC.Elems(blocks)| <= MAXOPBLOCKS && Holds(g, log.S().files, a) && Logs(a, m, GC.Elems(blocks), g.istart, g.bstart)
    modifies log, log.cache, log.cache.disk
    ensures RecoversTo(g, old(log.cache.disk.image), a)
    ensures forall n :: old(|log.cache.disk.history|) <= n < |log.cache.disk.history| ==>
      RecoversTo(g, log.cache.disk.history[n], if n - old(|log.cache.disk.history|) >= c then m else a)
    ensures ok ==> log.Valid() && log.S().pinned == {} && Holds(g, log.S().files, m)
    ensures !ok ==> L.Exhausted(log.cache.view)
  {
    ghost var s := log.S();
    AtRest(log, g);
    QuietRecovers(g, s.image, a);
    c := 0;
    ok := Operate(log, g, m, blocks, op, a, s);
    if ok {
      c := |log.lh|;
      ok := Commit(log, g, a, m);
    }
  }

  /** The part up to end_op's decision to commit. */
  method Operate(log: L.Log, g: Geometry, m: Medium, blocks: seq<nat>, ghost op: nat, ghost a: Medium, ghost s: L.Store) returns (ok: bool)
    requires log.Valid() && log.S() == s && log.gc.active == {} && log.gc.logged == [] && log.gc.spent == {} && !log.gc.committing
    requires log.lay == g.lay && s.locked == {} && Holds(g, s.files, a)
    requires Ordered(g) && MAXOPBLOCKS + 1 < g.lay.size && Shaped(g, m) && Fit(m.inodes) && forall b :: b in blocks ==> g.lay.Home(b)
    requires |GC.Elems(blocks)| <= MAXOPBLOCKS && Logs(a, m, GC.Elems(blocks), g.istart, g.bstart)
    modifies log, log.cache
    ensures ok ==> log.Valid() && log.committing && log.S().locked == {} && log.S().image == s.image && Holds(g, log.S().files, m)
    ensures !ok ==> L.Exhausted(log.cache.view)
  {
    var _ := log.BeginOp(op);
    HalfNone(g, s.files, m, blocks);
    ok := WriteAll(log, g, m, blocks, op, s);
    if ok {
      AllLogged(g, s.files, log.S().files, a, m, blocks);
      var _ := log.EndOp(op);
    }
  }

  lemma HalfNone(g: Geometry, f: Image, m: Medium, blocks: seq<nat>)
    requires |f| == g.lay.disk && Shaped(g, m)
    ensures Half(g, f, f, m, blocks, 0)
  {
    forall b: nat ensures HalfAt(g, f, f, m, blocks, 0, b) { }
  }

  ghost function MediumOf(s: OkFs): Medium { Medium(s.bitmap, s.inodes, s.data) }

  /** What an operation on the volume changed since it held `s0`, committed: the consistent file system of before or
      of after the operation comes back, whichever write the crash prevents and however many boots crash. */
  method CommitVolume(vol: Volume, ip: Mem, log: L.Log, g: Geometry, blocks: seq<nat>, ghost op: nat, ghost s0: OkFs) returns (ok: bool, ghost c: nat)
    requires vol.Valid(ip) && vol.Covered() && vol.dinodes == vol.st.inodes && vol.base == MediumOf(s0)
    requires vol.inodestart == g.istart && vol.bmapstart == g.bstart && GC.Elems(blocks) == vol.logged && |vol.logged| <= MAXOPBLOCKS
    requires log.Valid() && log.outstanding == 0 && !log.committing && log.S().locked == {} && log.lay == g.lay
    requires Ordered(g) && MAXOPBLOCKS + 1 < g.lay.size && Fit(vol.dinodes) && forall b :: b in blocks ==> g.lay.Home(b)
    requires Holds(g, log.S().files, MediumOf(s0))
    modifies log, log.cache, log.cache.disk
    ensures RecoversTo(g, old(log.cache.disk.image), MediumOf(s0))
    ensures forall n :: old(|log.cache.disk.history|) <= n < |log.cache.disk.history| ==>
      RecoversTo(g, log.cache.disk.history[n], MediumOf(if n - old(|log.cache.disk.history|) >= c then vol.st else s0))
    ensures ok ==> log.Valid() && Holds(g, log.S().files, MediumOf(vol.st))
    ensures !ok ==> L.Exhausted(log.cache.view)
  {
    ok, c := Transact(log, g, Medium(vol.bitmap, vol.dinodes, vol.data), blocks, op, vol.base);
  }
}
