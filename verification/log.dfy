/** kernel/log.c over the buffer cache: the in-memory log header, group commit and recovery. */
module Log {
  import opened Options
  import opened Blocks
  import opened BufCache
  import opened Crash
  import GC = GroupCommit

  /** What the log needs to know of the cache: the disk, what the file system sees in every block,
      and which blocks have a pinned and a locked buffer. */
  datatype Store = Store(image: Image, files: Image, pinned: set<nat>, locked: set<nat>)

  ghost function Abs(v: OkView): Store
  {
    Store(v.image, seq(|v.image|, b requires 0 <= b < |v.image| => v.Logical(b)),
          set i | 0 <= i < NBUF && v.pins[i] > 0 :: v.buf[i].blockno,
          set i | 0 <= i < NBUF && v.buf[i].locked :: v.buf[i].blockno)
  }

  /** No buffer is pinned twice. */
  ghost predicate OnePin(v: OkView)
  {
    forall i :: 0 <= i < |v.pins| ==> v.pins[i] <= 1
  }

  /** One round of write_log or install_trans took `v` to `w`: block `src` was copied to block `dst`
      and written there, pinned buffers stayed in place, and no lock is left behind. */
  ghost predicate Copied(v: OkView, w: OkView, src: nat, dst: nat)
    requires src < |v.image| && dst < |v.image|
  {
    && w.image == v.image[dst := v.Logical(src)]
    && (forall k: nat :: k < |v.image| ==> w.Logical(k) == v.Logical(if k == dst then src else k))
    && (forall i: nat :: KeptAt(v, w, i) && LockAt(v, w, i))
  }

  /** A buffer in use keeps its block. */
  ghost predicate KeptAt(v: OkView, w: OkView, i: nat)
  {
    i < NBUF && v.buf[i].refcnt > 0 ==>
      w.buf[i].dev == v.buf[i].dev && w.buf[i].blockno == v.buf[i].blockno && (v.buf[i].valid ==> w.buf[i].valid)
  }

  ghost predicate LockAt(v: OkView, w: OkView, i: nat) { i < NBUF ==> w.buf[i].locked == v.buf[i].locked }

  /** Two bread calls took `v` to `x`: buffers `a` and `b` are locked and hold blocks `abn` and `bbn`. */
  ghost predicate BothRead(v: OkView, x: OkView, a: nat, b: nat, abn: nat, bbn: nat)
    requires abn < |v.image| && bbn < |v.image|
  {
    && a < NBUF && b < NBUF && a != b
    && x.buf[a].locked && x.buf[a].valid && x.buf[a].blockno == abn && x.buf[a].data == v.Logical(abn)
    && x.buf[b].locked && x.buf[b].valid && x.buf[b].blockno == bbn && x.buf[b].data == v.Logical(bbn)
    && x.image == v.image && x.pins == v.pins && v.Agrees(x)
    && Stays(v, abn, a) && Stays(v, bbn, b)
    && (forall i: nat :: KeptAt(v, x, i) && SameBut(v, x, a, b, i))
    && !v.buf[a].locked && !v.buf[b].locked
  }

  /** The buffer of a block that is in use is buffer `a`. */
  ghost predicate Stays(v: OkView, bn: nat, a: nat)
  {
    assert v.AtOk(bn);
    bn in v.at && v.buf[v.at[bn]].refcnt > 0 ==> v.at[bn] == a
  }

  /** How often the buffer of block `bn` is pinned. */
  ghost function PinsOf(v: OkView, bn: nat): nat
  {
    assert v.AtOk(bn);
    if bn in v.at then v.pins[v.at[bn]] else 0
  }

  ghost predicate SameBut(v: OkView, x: OkView, a: nat, b: nat, i: nat) { i < NBUF && i != a && i != b ==> x.buf[i] == v.buf[i] }

  lemma ReadsTwice(v: OkView, w: OkView, x: OkView, a: nat, b: nat, abn: nat, bbn: nat)
    requires a < NBUF && b < NBUF && abn < |v.image| && bbn < |v.image| && abn != bbn
    requires Reads(v, w, a, abn) && Reads(w, x, b, bbn) && v.Agrees(w) && w.Agrees(x)
    requires v.Free(abn) && v.Free(bbn)
    ensures BothRead(v, x, a, b, abn, bbn)
  {
    assert v.AtOk(abn) && v.AtOk(bbn) && w.AtOk(abn) && w.AtOk(bbn);
    assert BufOk(a, w.buf[a], w.users[a], w.pins[a], w.at, w.image) && BufOk(b, x.buf[b], x.users[b], x.pins[b], x.at, x.image);
    forall i: nat ensures KeptAt(v, x, i) && SameBut(v, x, a, b, i) {
      if i < NBUF { assert BufOk(i, v.buf[i], v.users[i], v.pins[i], v.at, v.image); }
    }
  }

  /** Every buffer is referenced: bget panics for want of a buffer. */
  ghost predicate Exhausted(v: OkView) { forall i :: 0 <= i < NBUF ==> v.buf[i].refcnt > 0 }

  method ReadPair(c: Cache, abn: nat, bbn: nat) returns (ok: bool, a: nat, b: nat)
    requires c.Valid() && abn < |c.disk.image| && bbn < |c.disk.image| && abn != bbn
    requires c.view.Free(abn) && c.view.Free(bbn)
    modifies c
    ensures c.Valid() && c.view.pins == old(c.view.pins)
    ensures ok ==> BothRead(old(c.view), c.view, a, b, abn, bbn)
    ensures !ok ==> Exhausted(c.view)
  {
    ghost var v := c.view;
    a, b := 0, 0;
    var r := c.Bread(ROOTDEV, abn);
    if r.None? { return false, a, b; }
    ghost var w := c.view;
    a := r.value;
    r := c.Bread(ROOTDEV, bbn);
    if r.None? { return false, a, b; }
    b := r.value;
    ReadsTwice(v, w, c.view, a, b, abn, bbn);
    ok := true;
  }

  /** Buffer `b` may be released. */
  ghost predicate Ready(y: OkView, b: nat)
  {
    b < NBUF && y.buf[b].locked && y.buf[b].valid && (y.pins[b] > 0 || y.buf[b].data == y.image[y.buf[b].blockno])
  }

  ghost predicate SameSlots(x: OkView, y: OkView)
  {
    forall i: nat :: SameSlot(x, y, i) && LockAt(x, y, i)
  }

  ghost predicate SameSlot(x: OkView, y: OkView, i: nat)
  {
    i < NBUF ==> y.buf[i].dev == x.buf[i].dev && y.buf[i].blockno == x.buf[i].blockno && y.buf[i].valid == x.buf[i].valid
  }

  /** Buffer s's contents were stored in buffer d and written to d's block. */
  ghost predicate CopiedOut(x: OkView, y: OkView, s: nat, d: nat)
    requires s < NBUF && d < NBUF && x.buf[d].valid
  {
    && SameSlots(x, y)
    && y.image == x.image[x.buf[d].blockno := x.buf[s].data]
    && (forall k: nat :: k < |x.image| ==>
          y.Logical(k) == if k == x.buf[d].blockno then x.buf[s].data else x.Logical(k))
  }

  method CopyOut(c: Cache, s: nat, d: nat, unpin: bool)
    requires c.Valid() && s < NBUF && d < NBUF && s != d && c.buf[d].locked && c.buf[d].valid
    requires Ready(c.view, s) && (unpin ==> c.view.pins[d] > 0)
    modifies c, c.disk
    ensures c.Valid() && CopiedOut(old(c.view), c.view, s, d) && Ready(c.view, s) && Ready(c.view, d)
    ensures c.view.pins == if unpin then old(c.view.pins[d := c.view.pins[d] - 1]) else old(c.view.pins)
    ensures c.disk.history == old(c.disk.history) + [c.disk.image]
  {
    c.view.FillOk(d, c.buf[s].data);
    c.Store(d, c.buf[s].data);
    c.view.FlushOk(d);
    c.Bwrite(d);
    if unpin {
      c.Bunpin(d);
    }
    forall i: nat ensures SameSlot(old(c.view), c.view, i) && LockAt(old(c.view), c.view, i) { }
  }

  /** Releasing buffers `a` and `b` took `y` to `z`. */
  ghost predicate Released(y: OkView, z: OkView, a: nat, b: nat)
  {
    && a < NBUF && b < NBUF && z.image == y.image && z.pins == y.pins && y.Agrees(z)
    && !z.buf[a].locked && !z.buf[b].locked
    && (forall i: nat :: SameSlot(y, z, i) && SameBut(y, z, a, b, i))
  }

  method ReleaseTwo(c: Cache, a: nat, b: nat)
    requires c.Valid() && Ready(c.view, a) && Ready(c.view, b) && a != b
    modifies c
    ensures c.Valid() && Released(old(c.view), c.view, a, b)
  {
    ghost var y := c.view;
    var _ := c.Brelse(a);
    var _ := c.Brelse(b);
    DropBoth(y, a, b);
  }

  lemma DropBoth(y: OkView, a: nat, b: nat)
    requires Ready(y, a) && Ready(y, b) && a != b
    ensures y.Drop(a).Ok() && y.Drop(a).Drop(b).Ok() && Released(y, y.Drop(a).Drop(b), a, b)
  {
    y.DropOk(a);
    y.Drop(a).DropOk(b);
    var z := y.Drop(a).Drop(b);
    forall i: nat ensures SameSlot(y, z, i) && SameBut(y, z, a, b, i) { }
  }

  lemma RoundCopied(v: OkView, x: OkView, y: OkView, z: OkView, s: nat, d: nat, src: nat, dst: nat)
    requires src < |v.image| && dst < |v.image|
    requires BothRead(v, x, s, d, src, dst) && CopiedOut(x, y, s, d) && Released(y, z, s, d)
    ensures Copied(v, z, src, dst)
  {
    forall i: nat ensures KeptAt(v, z, i) && LockAt(v, z, i) { RoundSlot(v, x, y, z, s, d, src, dst, i); }
    forall k: nat | k < |v.image| ensures z.Logical(k) == v.Logical(if k == dst then src else k) {
      assert x.Logical(k) == v.Logical(k);
    }
  }

  lemma RoundSlot(v: OkView, x: OkView, y: OkView, z: OkView, s: nat, d: nat, src: nat, dst: nat, i: nat)
    requires src < |v.image| && dst < |v.image|
    requires BothRead(v, x, s, d, src, dst) && SameSlots(x, y) && Released(y, z, s, d)
    ensures KeptAt(v, z, i) && LockAt(v, z, i)
  {
    assert KeptAt(v, x, i) && SameBut(v, x, s, d, i) && SameSlot(x, y, i) && LockAt(x, y, i) && SameSlot(y, z, i) && SameBut(y, z, s, d, i);
  }

  /** A block with a pinned or locked buffer is cached in that buffer. */
  lemma PinnedAt(v: OkView, bn: nat)
    ensures bn in Abs(v).pinned <==> PinsOf(v, bn) > 0
    ensures bn in Abs(v).locked <==> !v.Free(bn)
  {
    assert v.AtOk(bn);
  }

  lemma AbsClean(v: OkView, bn: nat)
    requires bn < |v.image| && bn !in Abs(v).pinned && bn !in Abs(v).locked
    ensures Abs(v).files[bn] == Abs(v).image[bn]
  {
    PinnedAt(v, bn);
    assert v.AtOk(bn);
  }

  lemma AllClean(v: OkView)
    requires Abs(v).pinned == {} && Abs(v).locked == {}
    ensures Abs(v).files == Abs(v).image
  {
    forall b: nat | b < |v.image| ensures Abs(v).files[b] == v.image[b] { AbsClean(v, b); }
  }

  lemma AbsPinned(v: OkView, b: nat)
    requires b < NBUF && v.buf[b].locked && OnePin(v) && v.buf[b].blockno !in Abs(v).pinned
    ensures v.Pin(b).Ok() && OnePin(v.Pin(b))
    ensures Abs(v.Pin(b)) == Abs(v).(pinned := Abs(v).pinned + {v.buf[b].blockno})
  {
    v.PinOk(b);
    PinnedAt(v, v.buf[b].blockno);
  }

  lemma LockedIn(v: OkView, i: nat)
    requires i < NBUF && v.buf[i].locked
    ensures v.buf[i].blockno in Abs(v).locked && v.buf[i].blockno in v.at && v.at[v.buf[i].blockno] == i
  {
    assert BufOk(i, v.buf[i], v.users[i], v.pins[i], v.at, v.image);
  }

  /** brelse of a pinned buffer. */
  lemma Dropped(y: OkView, b: nat, bn: nat)
    requires b < NBUF && y.buf[b].locked && y.buf[b].blockno == bn && y.pins[b] > 0 && OnePin(y) && Abs(y).locked == {bn}
    ensures y.Drop(b).Ok() && OnePin(y.Drop(b)) && Abs(y.Drop(b)) == Abs(y).(locked := {})
  {
    y.DropOk(b);
    var z := y.Drop(b);
    LockedIn(y, b);
    forall i: nat | i < NBUF ensures !z.buf[i].locked { if y.buf[i].locked { LockedIn(y, i); } }
    assert Abs(z).files == Abs(y).files;
    forall k ensures k in Abs(z).pinned <==> k in Abs(y).pinned { }
  }

  /** After log_write the buffer is pinned, and nothing else about it changed. */
  lemma LoggedBuf(v: OkView, y: OkView, b: nat, bn: nat)
    requires b < NBUF && v.buf[b].locked && v.buf[b].blockno == bn && y == if bn in Abs(v).pinned then v else v.Pin(b)
    ensures y.buf[b].locked && y.buf[b].blockno == bn && y.pins[b] > 0
  {
    LockedIn(v, b);
    PinnedAt(v, bn);
  }

  /** brelse after the log_write of a buffer that was locked in `v`. */
  method ReleaseLogged(c: Cache, b: nat, ghost bn: nat, ghost v: OkView)
    requires c.Valid() && b < NBUF && v.buf[b].locked && v.buf[b].blockno == bn && c.view == (if bn in Abs(v).pinned then v else v.Pin(b))
    requires OnePin(v) && Abs(v).locked == {bn}
    modifies c
    ensures c.Valid() && OnePin(c.view) && Abs(c.view) == Abs(v).(pinned := Abs(v).pinned + {bn}, locked := {})
  {
    if bn !in Abs(v).pinned { AbsPinned(v, b); }
    LoggedBuf(v, c.view, b, bn);
    Dropped(c.view, b, bn);
    var _ := c.Brelse(b);
  }

  /** The locked buffer of block `bn` has new contents. */
  lemma Changed(v: OkView, x: OkView, b: nat, bn: nat, d: Block)
    requires bn < |v.image| && b < NBUF && Reads(v, x, b, bn) && v.Agrees(x) && OnePin(v) && Abs(v).locked == {}
    ensures x.buf[b].locked && x.buf[b].valid && x.Fill(b, d).Ok() && OnePin(x.Fill(b, d))
    ensures Abs(x.Fill(b, d)) == Store(v.image, Abs(v).files[bn := d], Abs(v).pinned, {bn})
  {
    var y := x.Fill(b, d);
    x.FillOk(b, d);
    ChangedFiles(v, x, b, bn, d);
    ChangedSets(v, y, b, bn);
  }

  lemma ChangedFiles(v: OkView, x: OkView, b: nat, bn: nat, d: Block)
    requires bn < |v.image| && b < NBUF && Reads(v, x, b, bn) && v.Agrees(x)
    ensures x.Fill(b, d).Ok() && Abs(x.Fill(b, d)).files == Abs(v).files[bn := d]
  {
    x.FillOk(b, d);
    var y := x.Fill(b, d);
    forall k: nat | k < |v.image| ensures Abs(y).files[k] == Abs(v).files[bn := d][k] { assert x.Logical(k) == v.Logical(k); }
  }

  lemma ChangedSets(v: OkView, y: OkView, b: nat, bn: nat)
    requires b < NBUF && Abs(v).locked == {} && y.pins == v.pins && y.buf[b].locked && y.buf[b].blockno == bn
    requires (bn in v.at ==> v.at[bn] == b) && (bn !in v.at ==> v.buf[b].refcnt == 0)
    requires forall i :: 0 <= i < NBUF && i != b ==> y.buf[i] == v.buf[i]
    ensures Abs(y).pinned == Abs(v).pinned && Abs(y).locked == {bn}
  {
    forall i: nat | i < NBUF ensures !v.buf[i].locked { if v.buf[i].locked { LockedIn(v, i); } }
    assert BufOk(b, v.buf[b], v.users[b], v.pins[b], v.at, v.image) && v.AtOk(bn);
    assert v.pins[b] > 0 ==> v.buf[b].blockno == bn;
    forall k ensures k in Abs(y).pinned <==> k in Abs(v).pinned { }
  }

  lemma AbsCopied(v: OkView, w: OkView, src: nat, dst: nat)
    requires src < |v.image| && dst < |v.image| && Copied(v, w, src, dst) && w.pins == v.pins
    ensures var a := Abs(v);
      Abs(w) == a.(image := a.image[dst := a.files[src]], files := a.files[dst := a.files[src]])
  {
    SameSets(v, w, src, dst);
  }

  /** Pinned and locked buffers are in use, and so keep their blocks. */
  lemma SameSets(v: OkView, w: OkView, src: nat, dst: nat)
    requires src < |v.image| && dst < |v.image| && Copied(v, w, src, dst)
    ensures w.pins == v.pins ==> Abs(w).pinned == Abs(v).pinned
    ensures Abs(w).locked == Abs(v).locked
    ensures forall i :: 0 <= i < NBUF && v.pins[i] > 0 ==> w.buf[i].blockno == v.buf[i].blockno
  {
    forall i: nat | i < NBUF && (v.pins[i] > 0 || v.buf[i].locked || w.buf[i].locked) ensures w.buf[i].blockno == v.buf[i].blockno {
      assert KeptAt(v, w, i) && LockAt(v, w, i) && BufOk(i, v.buf[i], v.users[i], v.pins[i], v.at, v.image);
    }
    forall i: nat | i < NBUF ensures w.buf[i].locked == v.buf[i].locked { assert LockAt(v, w, i); }
  }

  lemma AbsUnpinned(v: OkView, w: OkView, src: nat, dst: nat)
    requires src < |v.image| && dst < |v.image| && Copied(v, w, src, dst)
    requires v.AtOk(dst) && PinsOf(v, dst) == 1 && w.pins == v.pins[v.at[dst] := 0]
    ensures var a := Abs(v);
      Abs(w) == Store(a.image[dst := a.files[src]], a.files[dst := a.files[src]], a.pinned - {dst}, a.locked)
  {
    SameSets(v, w, src, dst);
    assert forall i :: 0 <= i < NBUF && v.pins[i] > 0 && i != v.at[dst] ==> v.buf[i].blockno != dst;
  }

  lemma RoundAbs(v: OkView, x: OkView, y: OkView, z: OkView, s: nat, d: nat, src: nat, dst: nat)
    requires src < |v.image| && dst < |v.image| && z.pins == v.pins
    requires BothRead(v, x, s, d, src, dst) && CopiedOut(x, y, s, d) && Released(y, z, s, d)
    ensures var a := Abs(v);
      Abs(z) == a.(image := a.image[dst := a.files[src]], files := a.files[dst := a.files[src]])
  {
    RoundCopied(v, x, y, z, s, d, src, dst);
    AbsCopied(v, z, src, dst);
  }

  /** One round of write_log: the home block's contents go to the log block, in cache and on disk. */
  method WriteLogRound(c: Cache, logbn: nat, home: nat) returns (ok: bool)
    requires c.Valid() && OnePin(c.view) && logbn < |c.disk.image| && home < |c.disk.image| && logbn != home
    requires logbn !in Abs(c.view).locked && home !in Abs(c.view).locked && home in Abs(c.view).pinned
    modifies c, c.disk
    ensures c.Valid() && OnePin(c.view)
    ensures ok ==> c.disk.history == old(c.disk.history) + [c.disk.image]
    ensures ok ==> var a := old(Abs(c.view));
      Abs(c.view) == a.(image := a.image[logbn := a.files[home]], files := a.files[logbn := a.files[home]])
    ensures !ok ==> c.disk.history == old(c.disk.history) && c.disk.image == old(c.disk.image) && Exhausted(c.view)
  {
    ghost var v := c.view;
    PinnedAt(v, logbn);
    PinnedAt(v, home);
    var to, from;
    ok, to, from := ReadPair(c, logbn, home);
    if ok {
      ghost var x := c.view;
      forall i: nat ensures KeptAt(v, x, i) && SameBut(v, x, from, to, i) { assert KeptAt(v, x, i) && SameBut(v, x, to, from, i); }
      CopyPair(c, from, to, home, logbn, v);
    }
  }

  /** The copy of that round, both blocks having been read since `v`. */
  method CopyPair(c: Cache, s: nat, d: nat, ghost src: nat, ghost dst: nat, ghost v: OkView)
    requires c.Valid() && src < |v.image| && dst < |v.image| && BothRead(v, c.view, s, d, src, dst)
    modifies c, c.disk
    ensures c.Valid() && c.view.pins == v.pins && c.disk.history == old(c.disk.history) + [c.disk.image]
    ensures var a := Abs(v); Abs(c.view) == a.(image := a.image[dst := a.files[src]], files := a.files[dst := a.files[src]])
  {
    ghost var x := c.view;
    assert v.AtOk(src);
    CopyOut(c, s, d, false);
    ghost var y := c.view;
    ReleaseTwo(c, s, d);
    RoundAbs(v, x, y, c.view, s, d, src, dst);
  }

  lemma InstallReady(v: OkView, x: OkView, l: nat, d: nat, logbn: nat, home: nat)
    requires logbn < |v.image| && home < |v.image| && BothRead(v, x, l, d, logbn, home)
    requires v.Free(logbn) && PinsOf(v, logbn) == 0
    ensures v.Logical(logbn) == v.image[logbn] && Ready(x, l)
    ensures PinsOf(v, home) > 0 ==> v.at[home] == d && x.pins[d] > 0
  {
    assert v.AtOk(logbn) && v.AtOk(home);
  }

  lemma InstallResult(v: OkView, z: OkView, logbn: nat, home: nat, recovering: bool)
    requires logbn < |v.image| && home < |v.image| && OnePin(v) && Copied(v, z, logbn, home) && v.Logical(logbn) == v.image[logbn]
    requires recovering ==> z.pins == v.pins
    requires !recovering ==> v.AtOk(home) && PinsOf(v, home) == 1 && z.pins == v.pins[v.at[home] := 0]
    ensures OnePin(z)
    ensures var a := Abs(v);
      Abs(z) == Store(a.image[home := a.image[logbn]], a.files[home := a.image[logbn]],
                      if recovering then a.pinned else a.pinned - {home}, a.locked)
  {
    if recovering { AbsCopied(v, z, logbn, home); } else { AbsUnpinned(v, z, logbn, home); }
  }

  /** One round of install_trans: the log block goes to its home, in cache and on disk; a commit
      also unpins the home block. */
  method InstallRound(c: Cache, logbn: nat, home: nat, recovering: bool) returns (ok: bool)
    requires c.Valid() && OnePin(c.view) && logbn < |c.disk.image| && home < |c.disk.image| && logbn != home
    requires logbn !in Abs(c.view).locked && logbn !in Abs(c.view).pinned && home !in Abs(c.view).locked
    requires recovering || home in Abs(c.view).pinned
    modifies c, c.disk
    ensures c.Valid() && OnePin(c.view)
    ensures ok ==> c.disk.history == old(c.disk.history) + [c.disk.image]
    ensures ok ==> var a := old(Abs(c.view));
      Abs(c.view) == Store(a.image[home := a.image[logbn]], a.files[home := a.image[logbn]],
                          if recovering then a.pinned else a.pinned - {home}, a.locked)
    ensures !ok ==> c.disk.history == old(c.disk.history) && c.disk.image == old(c.disk.image) && Exhausted(c.view)
  {
    ghost var v := c.view;
    PinnedAt(v, logbn);
    PinnedAt(v, home);
    var lbuf, dbuf;
    ok, lbuf, dbuf := ReadPair(c, logbn, home);
    if ok {
      InstallReady(v, c.view, lbuf, dbuf, logbn, home);
      InstallPair(c, lbuf, dbuf, recovering, v, logbn, home);
    }
  }

  /** The rest of the round, once both buffers are read. */
  method InstallPair(c: Cache, lbuf: nat, dbuf: nat, recovering: bool, ghost v: OkView, ghost logbn: nat, ghost home: nat)
    requires c.Valid() && OnePin(v) && logbn < |v.image| && home < |v.image| && BothRead(v, c.view, lbuf, dbuf, logbn, home)
    requires Ready(c.view, lbuf) && v.Logical(logbn) == v.image[logbn]
    requires recovering || (home in v.at && v.at[home] == dbuf && v.pins[dbuf] == 1)
    modifies c, c.disk
    ensures c.Valid() && OnePin(c.view) && c.disk.history == old(c.disk.history) + [c.disk.image]
    ensures var a := Abs(v);
      Abs(c.view) == Store(a.image[home := a.image[logbn]], a.files[home := a.image[logbn]],
                          if recovering then a.pinned else a.pinned - {home}, a.locked)
  {
    ghost var x := c.view;
    CopyOut(c, lbuf, dbuf, !recovering);
    ghost var y := c.view;
    ReleaseTwo(c, lbuf, dbuf);
    RoundCopied(v, x, y, c.view, lbuf, dbuf, logbn, home);
    InstallResult(v, c.view, logbn, home, recovering);
  }

  lemma Rewritten(v: OkView, x: OkView, b: nat, bn: nat, d: Block)
    requires bn < |v.image| && b < NBUF && Reads(v, x, b, bn) && v.Agrees(x) && v.Free(bn)
    ensures x.Fill(b, d).Ok() && x.Fill(b, d).Flush(b).Ok() && x.Fill(b, d).Flush(b).Drop(b).Ok()
    ensures var a := Abs(v);
      Abs(x.Fill(b, d).Flush(b).Drop(b)) == a.(image := a.image[bn := d], files := a.files[bn := d])
  {
    assert v.AtOk(bn);
    x.FillOk(b, d);
    x.Fill(b, d).FlushOk(b);
    x.Fill(b, d).Flush(b).DropOk(b);
  }

  lemma ReadAndDropped(v: OkView, x: OkView, b: nat, bn: nat)
    requires bn < |v.image| && b < NBUF && Reads(v, x, b, bn) && v.Agrees(x) && v.Free(bn)
    ensures x.buf[b].valid ==> x.pins[b] > 0 || x.buf[b].data == x.image[x.buf[b].blockno]
    ensures x.Drop(b).Ok() && Abs(x.Drop(b)) == Abs(v) && x.Drop(b).pins == v.pins
  {
    assert v.AtOk(bn);
    x.DropOk(b);
  }

  /** The lock holder of block `bn` replaces its contents, writes it out and releases it. */
  method Rewrite(c: Cache, b: nat, d: Block, ghost v: OkView, ghost bn: nat)
    requires c.Valid() && bn < |v.image| && b < NBUF && Reads(v, c.view, b, bn) && v.Agrees(c.view) && v.Free(bn)
    modifies c, c.disk
    ensures c.Valid() && c.view.pins == v.pins && c.disk.history == old(c.disk.history) + [c.disk.image]
    ensures var a := Abs(v); Abs(c.view) == a.(image := a.image[bn := d], files := a.files[bn := d])
  {
    Rewritten(v, c.view, b, bn, d);
    c.Store(b, d);
    c.Bwrite(b);
    var _ := c.Brelse(b);
  }

  /** What the file system sees in the blocks to be committed. */
  ghost function Datas(s: Store, homes: seq<nat>): seq<Block>
    requires forall i :: 0 <= i < |homes| ==> homes[i] < |s.files|
  {
    seq(|homes|, i requires 0 <= i < |homes| => s.files[homes[i]])
  }

  /** log_write's store: the block is in the header, once. */
  lemma Entered(lh: seq<nat>, i: nat, bn: nat)
    requires i <= |lh| && bn !in lh[..i] && (i < |lh| ==> lh[i] == bn)
    ensures (if i == |lh| then lh + [bn] else lh[i := bn]) == if bn in lh then lh else lh + [bn]
    ensures GC.Elems(if bn in lh then lh else lh + [bn]) == GC.Elems(lh) + {bn}
  {
    if i == |lh| { assert lh[..i] == lh; } else { assert lh[i := bn] == lh; }
  }

  lemma StillTracks(lay: Place, lh: seq<nat>, gc: GC.Kept, op: nat, bn: nat, outstanding: nat, committing: bool)
    requires Tracks(lay, lh, gc, outstanding, committing) && |lh| < LOGSIZE && |lh| < lay.size - 1 && lay.Home(bn)
    requires GC.Enabled(gc, GC.Write(op, bn), MAXOPBLOCKS)
    ensures GC.Reserved(GC.Apply(gc, GC.Write(op, bn)))
    ensures Tracks(lay, if bn in lh then lh else lh + [bn], GC.Apply(gc, GC.Write(op, bn)), outstanding, committing)
  {
    GC.WriteKeeps(gc, op, bn, MAXOPBLOCKS);
  }

  type Place = l: Layout | l.Ok() witness Layout(0, 1, 1)

  /** The header in memory agrees with what the operations did. */
  ghost predicate Tracks(lay: Place, lh: seq<nat>, gc: GC.Kept, outstanding: nat, committing: bool)
  {
    lay.HomesOk(lh) && gc.logged == lh && |gc.active| == outstanding && gc.committing == committing
  }

  class Log {
    const cache: Cache
    const lay: Place          // log.start and log.size
    var lh: seq<nat>          // lh.block[..lh.n]
    var outstanding: nat
    var committing: bool
    ghost var gc: GC.Kept

    constructor (c: Cache, l: Place)
      ensures cache == c && lay == l && lh == [] && outstanding == 0 && !committing && gc == GC.Init
    {
      cache, lay, lh, outstanding, committing, gc := c, l, [], 0, false, GC.Init;
    }

    ghost predicate CacheOk()
      reads cache, cache.disk
    {
      cache.Valid() && OnePin(cache.view) && |cache.disk.image| == lay.disk
    }

    ghost function S(): Store
      reads cache
    {
      Abs(cache.view)
    }

    /** write_head. */
    method WriteHead() returns (ok: bool)
      requires CacheOk() && lay.HomesOk(lh) && lay.start !in S().locked
      modifies cache, cache.disk
      ensures CacheOk()
      ensures ok ==> var h := PutHead(old(S()).files[lay.start], lh, |lh|);
        S() == old(S()).(image := old(S()).image[lay.start := h], files := old(S()).files[lay.start := h])
      ensures cache.disk.history == if ok then old(cache.disk.history) + [cache.disk.image] else old(cache.disk.history)
      ensures !ok ==> Exhausted(cache.view)
    {
      ghost var v := cache.view;
      PinnedAt(v, lay.start);
      var r := cache.Bread(ROOTDEV, lay.start);
      ok := r.Some?;
      if ok {
        var hb := EncodeHead(cache.buf[r.value].data, lh);
        Rewrite(cache, r.value, hb, v, lay.start);
      }
    }

    /** No buffer of the log area is locked or pinned. */
    ghost predicate LogIdle()
      reads cache
    {
      forall b :: lay.start <= b < lay.start + lay.size ==> b !in S().locked && b !in S().pinned
    }

    /** The store `s` once `k` log blocks are written. */
    ghost function Logged(s: Store, datas: seq<Block>, k: nat): Store
      requires |s.image| == |s.files| == lay.disk && |datas| < lay.size && k <= |datas|
    {
      s.(image := lay.WriteLog(s.image, datas, k), files := lay.WriteLog(s.files, datas, k))
    }

    /** The logged blocks hold `datas`, and no buffer write_log needs is locked. */
    ghost predicate Loggable(s: Store, homes: seq<nat>, datas: seq<Block>)
    {
      |s.image| == |s.files| == lay.disk && |homes| == |datas| < lay.size && forall i: nat :: LoggableAt(s, homes, datas, i)
    }

    ghost predicate LoggableAt(s: Store, homes: seq<nat>, datas: seq<Block>, i: nat)
      requires |s.files| == lay.disk && |homes| == |datas|
    {
      i < |homes| ==>
        && lay.Home(homes[i]) && homes[i] in s.pinned && homes[i] !in s.locked && s.files[homes[i]] == datas[i]
        && lay.start + i + 1 !in s.locked
    }

    /** Since `s` and `h`, `tail` log blocks were written. */
    ghost predicate Written(s: Store, datas: seq<Block>, h: seq<Image>, tail: nat, ok: bool)
      reads cache, cache.disk
      requires |s.image| == |s.files| == lay.disk && |datas| < lay.size && tail <= |datas|
    {
      && CacheOk() && (if ok then S() == Logged(s, datas, tail) else Exhausted(cache.view))
      && cache.disk.history == h + lay.LogImages(s.image, datas, tail)
    }

    method WriteLogOnce(tail: nat, ghost s: Store, ghost datas: seq<Block>, ghost h: seq<Image>) returns (ok: bool)
      requires Loggable(s, lh, datas) && tail < |lh| && Written(s, datas, h, tail, true)
      modifies cache, cache.disk
      ensures Written(s, datas, h, if ok then tail + 1 else tail, ok)
    {
      assert LoggableAt(s, lh, datas, tail);
      lay.WriteLogAt(s.files, datas, tail, lh[tail]);
      lay.LogImagesMore(h, cache.disk.history, s.image, datas, tail);
      ok := WriteLogRound(cache, lay.start + tail + 1, lh[tail]);
    }

    lemma NothingLogged(s: Store, datas: seq<Block>, h: seq<Image>)
      requires |s.image| == |s.files| == lay.disk && |datas| < lay.size
      ensures Logged(s, datas, 0) == s && h + lay.LogImages(s.image, datas, 0) == h
    {
    }

    /** write_log: `w` log blocks were written; all of them unless the cache ran out of buffers. */
    method WriteLog(ghost datas: seq<Block>) returns (ok: bool, ghost w: nat)
      requires CacheOk() && lay.HomesOk(lh) && Loggable(S(), lh, datas)
      modifies cache, cache.disk
      ensures CacheOk() && w <= |lh|
      ensures ok ==> w == |lh| && S() == Logged(old(S()), datas, |lh|)
      ensures cache.disk.history == old(cache.disk.history) + lay.LogImages(old(S()).image, datas, w)
      ensures !ok ==> Exhausted(cache.view)
    {
      ghost var s, h := S(), cache.disk.history;
      var tail := 0;
      ok := true;
      NothingLogged(s, datas, h);
      while ok && tail < |lh|
        invariant tail <= |lh| && Written(s, datas, h, tail, ok)
        decreases ok, |lh| - tail
      {
        ok := WriteLogOnce(tail, s, datas, h);
        if ok { tail := tail + 1; }
      }
      w := tail;
    }

    /** The store `s` once `k` logged blocks are installed. */
    ghost function Installed(s: Store, homes: seq<nat>, k: nat, recovering: bool): Store
      requires |s.image| == |s.files| == lay.disk && lay.HomesOk(homes) && k <= |homes|
    {
      Store(lay.Install(s.image, homes, k), lay.InstallInto(s.files, s.image, homes, k),
            if recovering then s.pinned else s.pinned - GC.Elems(homes[..k]), s.locked)
    }

    method InstallOnce(tail: nat, recovering: bool, ghost s: Store, ghost h: seq<Image>) returns (ok: bool)
      requires CacheOk() && |s.image| == |s.files| == lay.disk && lay.HomesOk(lh) && tail < |lh|
      requires S() == Installed(s, lh, tail, recovering)
      requires cache.disk.history == h + lay.InstallImages(s.image, lh, tail)
      requires lay.start + tail + 1 !in s.pinned + s.locked && lh[tail] !in s.locked
      requires recovering || (lh[tail] in s.pinned && lh[tail] !in lh[..tail])
      modifies cache, cache.disk
      ensures CacheOk()
      ensures ok ==> S() == Installed(s, lh, tail + 1, recovering)
      ensures cache.disk.history == h + lay.InstallImages(s.image, lh, if ok then tail + 1 else tail)
      ensures !ok ==> Exhausted(cache.view)
    {
      lay.InstallFrame(s.image, lh, tail, lay.start + tail + 1);
      lay.InstallImagesMore(h, cache.disk.history, s.image, lh, tail);
      assert lh[..tail + 1] == lh[..tail] + [lh[tail]];
      ok := InstallRound(cache, lay.start + tail + 1, lh[tail], recovering);
    }

    /** install_trans: `w` home blocks were written; all of them unless the cache ran out of buffers. */
    method InstallTrans(recovering: bool) returns (ok: bool, ghost w: nat)
      requires CacheOk() && LogIdle() && lay.HomesOk(lh)
      requires forall i :: 0 <= i < |lh| ==> lh[i] !in S().locked
      requires !recovering ==> forall i :: 0 <= i < |lh| ==> lh[i] in S().pinned && lh[i] !in lh[..i]
      modifies cache, cache.disk
      ensures CacheOk() && w <= |lh|
      ensures ok ==> w == |lh| && S() == Installed(old(S()), lh, |lh|, recovering)
      ensures cache.disk.history == old(cache.disk.history) + lay.InstallImages(old(S()).image, lh, w)
      ensures !ok ==> Exhausted(cache.view)
    {
      ghost var s, h := S(), cache.disk.history;
      assert s.pinned - GC.Elems(lh[..0]) == s.pinned;
      var tail := 0;
      ok := true;
      while ok && tail < |lh|
        invariant tail <= |lh| && CacheOk()
        invariant ok ==> S() == Installed(s, lh, tail, recovering)
        invariant !ok ==> Exhausted(cache.view)
        invariant cache.disk.history == h + lay.InstallImages(s.image, lh, tail)
        decreases ok, |lh| - tail
      {
        ok := InstallOnce(tail, recovering, s, h);
        if ok { tail := tail + 1; }
      }
      w := tail;
    }

    /** The first half of commit: the transaction is in the log and its header on disk. */
    method LogAndHead(ghost datas: seq<Block>) returns (ok: bool, ghost w: nat)
      requires CacheOk() && LogIdle() && lay.HomesOk(lh) && Loggable(S(), lh, datas)
      modifies cache, cache.disk
      ensures CacheOk() && w <= |lh| + 1
      ensures ok ==> w == |lh| + 1 && S() == old(S()).(image := lay.Committed(old(S()).image, lh, datas),
                                                       files := lay.Committed(old(S()).files, lh, datas))
      ensures cache.disk.history == old(cache.disk.history) + lay.CommitImages(old(S()).image, lh, datas, w)
      ensures !ok ==> Exhausted(cache.view)
    {
      ghost var s, h := S(), cache.disk.history;
      AbsClean(cache.view, lay.start);
      ok, w := WriteLog(datas);
      if ok {
        lay.CommitImagesHead(h, cache.disk.history, s.image, lh, datas);
        lay.WriteLogAt(s.image, datas, |lh|, lay.start);
        lay.WriteLogAt(s.files, datas, |lh|, lay.start);
        ok := WriteHead();
        if ok { w := w + 1; }
      }
    }

    /** install_trans, then an empty header: the second half of commit and all of recovery after
        the header is read. */
    method InstallAndClear(recovering: bool, ghost homes: seq<nat>) returns (ok: bool, ghost w: nat)
      requires CacheOk() && LogIdle() && lay.HomesOk(lh) && homes == lh
      requires forall i :: 0 <= i < |lh| ==> lh[i] !in S().locked
      requires !recovering ==> forall i :: 0 <= i < |lh| ==> lh[i] in S().pinned && lh[i] !in lh[..i]
      modifies this`lh, cache, cache.disk
      ensures CacheOk() && w <= |homes| + 1
      ensures cache.disk.history == old(cache.disk.history) + lay.ClearImages(old(S()).image, homes, w)
      ensures !ok ==> Exhausted(cache.view)
      ensures ok ==> lh == [] && w == |homes| + 1
      ensures ok ==> var t := Installed(old(S()), homes, |homes|, recovering);
        S() == t.(image := lay.Clear(t.image), files := lay.Clear(t.files))
    {
      ghost var s := S();
      AbsClean(cache.view, lay.start);
      ok, w := InstallTrans(recovering);
      if ok {
        HeadKept(s, homes);
        lh := [];
        ok := WriteHead();
        if ok { w := w + 1; }
      }
    }

    lemma HeadKept(s: Store, homes: seq<nat>)
      requires |s.image| == |s.files| == lay.disk && lay.HomesOk(homes) && s.files[lay.start] == s.image[lay.start]
      ensures lay.InstallInto(s.files, s.image, homes, |homes|)[lay.start] == lay.Install(s.image, homes, |homes|)[lay.start]
    {
      lay.InstallFrame(s.image, homes, |homes|, lay.start);
      lay.InstallIntoFrame(s.files, s.image, homes, |homes|, lay.start);
    }

    /** commit from the first header write on; `s` and `h` are from before it. */
    method CommitInstall(ghost homes: seq<nat>, ghost datas: seq<Block>, ghost s: Store, ghost h: seq<Image>) returns (ok: bool, ghost w: nat)
      requires CacheOk() && LogIdle() && homes == lh && lay.HomesOk(homes) && |s.image| == |s.files| == lay.disk
      requires |datas| == |homes| && forall i :: 0 <= i < |homes| ==> datas[i] == s.files[homes[i]]
      requires forall i :: 0 <= i < |homes| ==> homes[i] in s.pinned && homes[i] !in s.locked && homes[i] !in homes[..i]
      requires S() == s.(image := lay.Committed(s.image, homes, datas), files := lay.Committed(s.files, homes, datas))
      requires cache.disk.history == h + lay.CommitImages(s.image, homes, datas, |homes| + 1)
      modifies this`lh, cache, cache.disk
      ensures CacheOk() && w <= 2 * |homes| + 2 && cache.disk.history == h + lay.CommitImages(s.image, homes, datas, w)
      ensures !ok ==> Exhausted(cache.view)
      ensures ok ==> lh == [] && w == 2 * |homes| + 2 && HeadCount(S().image[lay.start]) == 0
      ensures ok ==> S().pinned == s.pinned - GC.Elems(homes) && S().locked == s.locked
      ensures ok ==> forall b: nat :: lay.Home(b) ==> S().files[b] == s.files[b]
    {
      ghost var h1 := cache.disk.history;
      CommitResult(s, homes, datas);
      ok, w := InstallAndClear(false, homes);
      lay.CommitImagesJoin(h, h1, cache.disk.history, s.image, homes, datas, w);
      w := |homes| + 1 + w;
    }

    /** commit: the disk goes through the images of the transaction's trace, in order, and what the
        file system sees in the home blocks does not change. */
    method Commit(ghost homes: seq<nat>, ghost datas: seq<Block>) returns (ok: bool, ghost w: nat)
      requires CacheOk() && LogIdle() && homes == lh && lay.HomesOk(homes)
      requires |datas| == |homes| && forall i :: 0 <= i < |homes| ==> datas[i] == S().files[homes[i]]
      requires forall i :: 0 <= i < |homes| ==> homes[i] in S().pinned && homes[i] !in S().locked && homes[i] !in homes[..i]
      modifies this`lh, cache, cache.disk
      ensures CacheOk() && w <= 2 * |homes| + 2
      ensures cache.disk.history == old(cache.disk.history) + lay.CommitImages(old(S()).image, homes, datas, w)
      ensures !ok ==> Exhausted(cache.view)
      ensures ok ==> lh == [] && w == if homes == [] then 0 else 2 * |homes| + 2
      ensures ok ==> S().pinned == old(S()).pinned - GC.Elems(homes) && S().locked == old(S()).locked
      ensures ok && homes == [] ==> S() == old(S())
      ensures ok && homes != [] ==> HeadCount(S().image[lay.start]) == 0
      ensures ok ==> forall b: nat :: lay.Home(b) ==> S().files[b] == old(S()).files[b]
    {
      ghost var s, h := S(), cache.disk.history;
      if |lh| > 0 {
        forall i: nat ensures LoggableAt(s, lh, datas, i) { }
        ok, w := LogAndHead(datas);
        if ok { ok, w := CommitInstall(homes, datas, s, h); }
      } else {
        ok, w := true, 0;
      }
    }

    lemma CommitResult(s: Store, homes: seq<nat>, datas: seq<Block>)
      requires |s.image| == |s.files| == lay.disk && lay.HomesOk(homes) && |datas| == |homes|
      requires forall i :: 0 <= i < |homes| ==> datas[i] == s.files[homes[i]]
      ensures var t := s.(image := lay.Committed(s.image, homes, datas), files := lay.Committed(s.files, homes, datas));
        var u := Installed(t, homes, |homes|, false);
        && (forall b: nat :: lay.Home(b) ==> lay.Clear(u.files)[b] == s.files[b])
        && HeadCount(lay.Clear(u.image)[lay.start]) == 0
        && u.pinned == s.pinned - GC.Elems(homes) && u.locked == s.locked
    {
      var c, f := lay.Committed(s.image, homes, datas), lay.Committed(s.files, homes, datas);
      CommittedData(s.image, homes, datas);
      CommittedData(s.files, homes, datas);
      lay.InstallIntoSame(f, c, homes, |homes|);
      lay.ClearIdempotent(lay.Install(c, homes, |homes|));
      assert homes[..|homes|] == homes;
    }

    lemma CommittedData(img: Image, homes: seq<nat>, datas: seq<Block>)
      requires |img| == lay.disk && lay.HomesOk(homes) && |datas| == |homes|
      ensures forall i :: 0 <= i < |homes| ==> lay.Committed(img, homes, datas)[lay.start + i + 1] == datas[i]
      ensures forall b: nat :: lay.Home(b) ==> lay.Committed(img, homes, datas)[b] == img[b]
    {
      forall b: nat | b < lay.disk
        ensures lay.start < b <= lay.start + |homes| ==> lay.Committed(img, homes, datas)[b] == datas[b - lay.start - 1]
        ensures lay.Home(b) ==> lay.Committed(img, homes, datas)[b] == img[b]
      {
        lay.WriteLogAt(img, datas, |datas|, b);
      }
    }

    // Group commit.

    ghost predicate HeaderOk()
      reads this
    {
      Tracks(lay, lh, gc, outstanding, committing)
    }

    /** Between the steps of operations: the logged blocks are exactly the pinned ones, and the
        header on disk is empty. */
    ghost predicate Valid()
      reads this, cache, cache.disk
    {
      HeaderOk() && CacheOk() && S().pinned == GC.Elems(lh) && HeadCount(S().image[lay.start]) == 0
    }

    /** One turn of the loop in begin_op: the operation starts, or has to sleep. */
    method BeginOp(ghost op: nat) returns (started: bool)
      requires Valid() && op !in gc.active
      modifies this`outstanding, this`gc
      ensures Valid() && started == GC.Enabled(old(gc), GC.Begin(op), MAXOPBLOCKS)
      ensures gc == if started then GC.Apply(old(gc), GC.Begin(op)) else old(gc)
    {
      started := !committing && |lh| + (outstanding + 1) * MAXOPBLOCKS <= LOGSIZE;
      if started {
        GC.BeginKeeps(gc, op, MAXOPBLOCKS);
        outstanding := outstanding + 1;
        gc := GC.Apply(gc, GC.Begin(op));
      }
    }

    /** The search in log_write: the position of `bn` in the log, or the end of the log. */
    method FindLogged(bn: nat) returns (i: nat)
      ensures i <= |lh| && bn !in lh[..i] && (i < |lh| ==> lh[i] == bn)
    {
      i := 0;
      while i < |lh| && lh[i] != bn
        invariant i <= |lh| && bn !in lh[..i]
      {
        i := i + 1;
      }
    }

    method Enter(i: nat, bn: nat, ghost op: nat)
      requires HeaderOk() && |lh| < LOGSIZE && |lh| < lay.size - 1 && lay.Home(bn)
      requires i <= |lh| && bn !in lh[..i] && (i < |lh| ==> lh[i] == bn)
      requires GC.Enabled(gc, GC.Write(op, bn), MAXOPBLOCKS)
      modifies this`lh, this`gc
      ensures HeaderOk() && gc == GC.Apply(old(gc), GC.Write(op, bn)) && GC.Elems(lh) == old(GC.Elems(lh)) + {bn}
    {
      StillTracks(lay, lh, gc, op, bn, outstanding, committing);
      Entered(lh, i, bn);
      gc := GC.Apply(gc, GC.Write(op, bn));
      lh := if i == |lh| then lh + [bn] else lh[i := bn];
    }

    method PinFor(b: nat)
      requires CacheOk() && b < NBUF && cache.buf[b].locked && cache.buf[b].blockno !in S().pinned
      modifies cache
      ensures CacheOk() && S() == old(S()).(pinned := old(S()).pinned + {old(cache.buf[b].blockno)})
      ensures cache.view == old(cache.view).Pin(b)
    {
      AbsPinned(cache.view, b);
      cache.Bpin(b);
    }

    /** The header matches the cache: the logged blocks are exactly the pinned ones. */
    ghost predicate Matched()
      reads this, cache, cache.disk
    {
      HeaderOk() && CacheOk() && S().pinned == GC.Elems(lh)
    }

    method LogBuf(b: nat, ghost bn: nat, ghost op: nat) returns (ok: bool)
      requires Matched() && b < NBUF && cache.buf[b].locked && cache.buf[b].blockno == bn && lay.Home(bn)
      requires GC.Enabled(gc, GC.Write(op, bn), MAXOPBLOCKS)
      modifies this`lh, this`gc, cache
      ensures ok == !GC.TooBig(old(gc), lay.size)
      ensures ok ==> Matched() && gc == GC.Apply(old(gc), GC.Write(op, bn))
      ensures ok ==> cache.view == if bn in old(S()).pinned then old(cache.view) else old(cache.view).Pin(b)
    {
      ok := !(|lh| >= LOGSIZE || |lh| >= lay.size - 1);
      if ok {
        var i := FindLogged(cache.buf[b].blockno);
        var n := cache.buf[b].blockno;
        if i == |lh| { PinFor(b); }
        Enter(i, n, op);
      }
    }

    /** log_write by operation `op` on the locked buffer `b`; false is the "too big a transaction" panic. */
    method LogWrite(b: nat, ghost op: nat) returns (ok: bool)
      requires Valid() && b < NBUF && cache.buf[b].locked && lay.Home(cache.buf[b].blockno)
      requires GC.Enabled(gc, GC.Write(op, cache.buf[b].blockno), MAXOPBLOCKS)
      modifies this`lh, this`gc, cache
      ensures ok == !GC.TooBig(old(gc), lay.size)
      ensures ok ==> Valid() && gc == GC.Apply(old(gc), GC.Write(op, old(cache.buf[b].blockno)))
      ensures ok ==> S() == old(S()).(pinned := old(S()).pinned + {old(cache.buf[b].blockno)})
    {
      ghost var v, bn := cache.view, cache.buf[b].blockno;
      if bn !in S().pinned { AbsPinned(v, b); }
      ok := LogBuf(b, bn, op);
    }

    /** log_write and brelse: how every change of a block ends. */
    method LogRelease(b: nat, ghost bn: nat, ghost op: nat)
      requires Matched() && b < NBUF && cache.buf[b].locked && cache.buf[b].blockno == bn && S().locked == {bn} && lay.Home(bn)
      requires GC.Enabled(gc, GC.Write(op, bn), MAXOPBLOCKS) && !GC.TooBig(gc, lay.size)
      modifies this`lh, this`gc, cache
      ensures Matched() && gc == GC.Apply(old(gc), GC.Write(op, bn))
      ensures S() == old(S()).(pinned := old(S()).pinned + {bn}, locked := {})
    {
      ghost var v := cache.view;
      var _ := LogBuf(b, bn, op);
      ReleaseLogged(cache, b, bn, v);
    }

    /** The contents of block `bn`, whose buffer was read since `v`, become `d`, and it is logged and released. */
    method Modify(b: nat, d: Block, ghost op: nat, ghost v: OkView, ghost bn: nat)
      requires CacheOk() && HeaderOk() && OnePin(v) && bn < |v.image| && b < NBUF && Reads(v, cache.view, b, bn) && v.Agrees(cache.view)
      requires Abs(v).locked == {} && Abs(v).pinned == GC.Elems(lh) && HeadCount(v.image[lay.start]) == 0 && lay.Home(bn)
      requires GC.Enabled(gc, GC.Write(op, bn), MAXOPBLOCKS) && !GC.TooBig(gc, lay.size)
      modifies this`lh, this`gc, cache
      ensures Valid() && gc == GC.Apply(old(gc), GC.Write(op, bn))
      ensures S() == Abs(v).(files := Abs(v).files[bn := d], pinned := Abs(v).pinned + {bn})
    {
      Changed(v, cache.view, b, bn, d);
      cache.Store(b, d);
      LogRelease(b, bn, op);
    }

    lemma LastOp(op: nat)
      requires HeaderOk() && op in gc.active
      ensures !committing && outstanding > 0 && |gc.active - {op}| == outstanding - 1
      ensures gc.active == {op} <==> outstanding == 1
    {
      assert GC.Inv(gc, MAXOPBLOCKS);
      assert gc.active == (gc.active - {op}) + {op};
    }

    /** end_op up to the release of log.lock; the panic on a commit in progress cannot happen. */
    method EndOp(ghost op: nat) returns (doCommit: bool)
      requires Valid() && op in gc.active
      modifies this`outstanding, this`committing, this`gc
      ensures Valid() && gc == GC.Apply(old(gc), GC.End(op)) && doCommit == committing
    {
      GC.EndKeeps(gc, op, MAXOPBLOCKS);
      LastOp(op);
      outstanding := outstanding - 1;
      doCommit := outstanding == 0;
      if doCommit {
        committing := true;
      }
      gc := GC.Apply(gc, GC.End(op));
    }

    /** Nobody holds a buffer that commit needs. */
    ghost predicate Quiet()
      reads this, cache
    {
      S().locked !! GC.Elems(lh) && forall b :: lay.start <= b < lay.start + lay.size ==> b !in S().locked
    }

    lemma Idle()
      requires Valid() && Quiet()
      ensures LogIdle()
      ensures forall i :: 0 <= i < |lh| ==> lh[i] in S().pinned && lh[i] !in S().locked && lh[i] !in lh[..i]
    {
      assert GC.Inv(gc, MAXOPBLOCKS);
      forall b | lay.start <= b < lay.start + lay.size ensures b !in S().pinned { assert !lay.Home(b); }
      forall i | 0 <= i < |lh| ensures lh[i] !in lh[..i] {
        forall j | 0 <= j < i ensures lh[j] != lh[i] { GC.Distinct(lh, j, i); }
      }
    }

    lemma AllSurvive(s: Store, homes: seq<nat>, w: nat, h: seq<Image>, h': seq<Image>)
      requires |s.image| == |s.files| == lay.disk && HeadCount(s.image[lay.start]) == 0 && lay.HomesOk(homes) && w <= 2 * |homes| + 2
      requires forall i :: 0 <= i < |homes| ==> homes[i] !in homes[..i]
      requires h' == h + lay.CommitImages(s.image, homes, Datas(s, homes), w)
      ensures forall n :: |h| <= n < |h'| ==> lay.Survives(s.image, homes, Datas(s, homes), h'[n], n - |h| >= |homes|)
    {
      forall i, j | 0 <= i < j < |homes| ensures homes[i] != homes[j] { assert homes[i] in homes[..j]; }
      forall n | |h| <= n < |h'| ensures lay.Survives(s.image, homes, Datas(s, homes), h'[n], n - |h| >= |homes|) {
        lay.TraceSurvives(s.image, homes, Datas(s, homes), w, n - |h|);
      }
    }

    lemma AllSettle(img: Image, w: nat, h: seq<Image>, h': seq<Image>)
      requires lay.LogOk(img) && w <= |lay.Homes(img)| + 1 && h' == h + lay.RecoverImages(img, w)
      ensures forall n :: |h| <= n < |h'| ==> lay.Settles(h'[n], lay.Recover(img))
    {
      forall n | |h| <= n < |h'| ensures lay.Settles(h'[n], lay.Recover(img)) { lay.RecoverySettles(img, w, n - |h|); }
    }

    /** The rest of end_op for the last operation: commit, and let operations start again. The transaction is
        everything the operations logged. Crash atomicity: whichever image the disk goes through is the one a
        crash leaves, and however many boots then crash, the boot that completes finds the home blocks of before
        or of after the transaction as a whole, the latter exactly from the header write on. `w` writes happened,
        all of them unless the cache ran out of buffers. */
    method EndTransaction() returns (ok: bool, ghost w: nat)
      requires Valid() && Quiet() && committing
      modifies this`lh, this`committing, this`gc, cache, cache.disk
      ensures w <= 2 * |old(lh)| + 2
      ensures cache.disk.history
           == old(cache.disk.history) + lay.CommitImages(old(S()).image, old(lh), Datas(old(S()), old(lh)), w)
      ensures !ok ==> Exhausted(cache.view)
      ensures forall n :: old(|cache.disk.history|) <= n < |cache.disk.history| ==>
        lay.Survives(old(S()).image, old(lh), Datas(old(S()), old(lh)), cache.disk.history[n],
                     n - old(|cache.disk.history|) >= |old(lh)|)
      ensures ok ==> Valid() && gc == GC.Apply(old(gc), GC.Commit) && S().pinned == {}
      ensures ok ==> w == if old(lh) == [] then 0 else 2 * |old(lh)| + 2
      ensures ok ==> forall b: nat :: lay.Home(b) ==> S().files[b] == old(S()).files[b]
    {
      Idle();
      ghost var s, homes, h := S(), lh, cache.disk.history;
      ok, w := Commit(lh, Datas(S(), lh));
      AllSurvive(s, homes, w, h, cache.disk.history);
      if ok {
        GC.CommitKeeps(gc, MAXOPBLOCKS);
        committing := false;
        gc := GC.Apply(gc, GC.Commit);
      }
    }

    // Recovery.

    /** read_head: the in-memory header is the one on disk. */
    method ReadHead() returns (ok: bool)
      requires CacheOk() && lay.LogOk(S().image) && S().locked == {} && S().pinned == {}
      modifies this`lh, cache
      ensures CacheOk() && (ok ==> S() == old(S()) && lh == lay.Homes(S().image))
      ensures !ok ==> Exhausted(cache.view)
    {
      ghost var v := cache.view;
      PinnedAt(v, lay.start);
      AbsClean(v, lay.start);
      var r := cache.Bread(ROOTDEV, lay.start);
      ok := r.Some?;
      if ok {
        lh := DecodeHead(cache.buf[r.value].data);
        ReadAndDropped(v, cache.view, r.value, lay.start);
        var _ := cache.Brelse(r.value);
      }
    }

    /** recover_from_log, at boot: the disk goes through the recovery images in order, and a crash at any of them,
        with any number of crashed boots after it, settles to the same image; when it completes, that image is on
        the disk and the file system sees exactly the disk. */
    method RecoverFromLog() returns (ok: bool, ghost w: nat)
      requires CacheOk() && lay.LogOk(S().image) && S().locked == {} && S().pinned == {}
      requires outstanding == 0 && !committing && gc == GC.Init
      modifies this`lh, cache, cache.disk
      ensures w <= |lay.Homes(old(S()).image)| + 1
      ensures cache.disk.history == old(cache.disk.history) + lay.RecoverImages(old(S()).image, w)
      ensures forall n :: old(|cache.disk.history|) <= n < |cache.disk.history| ==>
        lay.Settles(cache.disk.history[n], lay.Recover(old(S()).image))
      ensures !ok ==> Exhausted(cache.view)
      ensures ok ==> Valid() && S().image == S().files == lay.Recover(old(S()).image)
    {
      ghost var s, homes := S(), lay.Homes(S().image);
      w := 0;
      ok := ReadHead();
      if ok {
        ok, w := Replay(homes);
        AllSettle(s.image, w, old(cache.disk.history), cache.disk.history);
      }
    }

    /** install_trans of the homes just read, and an empty header. */
    method Replay(ghost homes: seq<nat>) returns (ok: bool, ghost w: nat)
      requires CacheOk() && lay.LogOk(S().image) && homes == lh == lay.Homes(S().image) && S().locked == {} && S().pinned == {}
      modifies this`lh, cache, cache.disk
      ensures CacheOk() && w <= |homes| + 1 && cache.disk.history == old(cache.disk.history) + lay.RecoverImages(old(S()).image, w)
      ensures !ok ==> Exhausted(cache.view)
      ensures ok ==> lh == [] && S() == Store(lay.Recover(old(S()).image), lay.Recover(old(S()).image), {}, {})
      ensures HeadCount(lay.Recover(old(S()).image)[lay.start]) == 0
    {
      ghost var s := S();
      AllClean(cache.view);
      lay.RecoverIs(s.image);
      ok, w := InstallAndClear(true, homes);
    }
  }

  /** The copy loop of write_head, on the header buffer's contents. */
  method EncodeHead(h: Block, homes: seq<nat>) returns (hb: Block)
    requires |homes| <= LOGSIZE && forall i :: 0 <= i < |homes| ==> homes[i] < TWO32
    ensures hb == PutHead(h, homes, |homes|)
  {
    hb := PutWord(h, 0, |homes|);
    for i := 0 to |homes|
      invariant hb == PutHead(h, homes, i)
    {
      hb := PutWord(hb, i + 1, homes[i]);
    }
  }

  /** The copy loop of read_head. */
  method DecodeHead(h: Block) returns (homes: seq<nat>)
    requires HeadCount(h) <= LOGSIZE
    ensures |homes| == HeadCount(h) && forall i :: 0 <= i < |homes| ==> homes[i] == HeadBlock(h, i)
  {
    homes := [];
    for i := 0 to GetWord(h, 0)
      invariant |homes| == i && forall j :: 0 <= j < i ==> homes[j] == HeadBlock(h, j)
    {
      homes := homes + [GetWord(h, i + 1)];
    }
  }
}
