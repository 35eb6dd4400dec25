/** The buffer cache of kernel/bio.c: NBUF buffers on a doubly linked ring kept
    in most-recently-used order, in front of a disk of single-block writes. */
module BufCache {
  import opened Options
  import opened Blocks
  import opened LruRing

  const NBUF := 30
  const ROOTDEV := 1

  /** The disk behind virtio_disk_rw. A write replaces one block atomically;
      `history` lists every image the disk has held since boot, oldest first,
      so a crash between any two writes leaves one of its entries. */
  class Disk {
    var image: seq<Block>
    ghost var history: seq<seq<Block>>

    constructor (img: seq<Block>)
      ensures image == img && history == [img]
    {
      image := img;
      history := [img];
    }

    method Write(bn: nat, data: Block)
      requires bn < |image|
      modifies this
      ensures image == old(image)[bn := data]
      ensures history == old(history) + [image]
    {
      image := image[bn := data];
      history := history + [image];
    }
  }

  /** struct buf, without its ring links. */
  datatype Buf = Buf(valid: bool, dev: nat, blockno: nat, locked: bool, refcnt: nat, data: Block)

  ghost predicate BufOk(i: nat, b: Buf, users: nat, pins: nat, at: map<nat, nat>, image: seq<Block>)
  {
    && b.refcnt == users + pins
    && (b.locked ==> users > 0)
    && (b.dev != ROOTDEV ==> !b.valid && b.refcnt == 0)
    && (b.dev == ROOTDEV ==> b.blockno < |image| && b.blockno in at && at[b.blockno] == i)
    && (b.valid ==> b.locked || pins > 0 || b.data == image[b.blockno])
  }

  /** The cache contents together with the bookkeeping the C code leaves implicit:
      how many references of each buffer come from bget and from bpin, and which
      buffer is assigned to each cached block. */
  datatype View = View(buf: seq<Buf>, users: seq<nat>, pins: seq<nat>, at: map<nat, nat>, image: seq<Block>) {

    /** Reference counts add up, each cached block has exactly one buffer, and a
        buffer differs from the disk only while it is locked or pinned. */
    ghost predicate Ok()
    {
      && |buf| == |users| == |pins| == NBUF
      && (forall i :: 0 <= i < NBUF ==> BufOk(i, buf[i], users[i], pins[i], at, image))
      && (forall bn: nat :: AtOk(bn))
    }

    /** The buffer assigned to a block holds that block. */
    ghost predicate AtOk(bn: nat)
      requires |buf| == NBUF
    {
      bn in at ==> at[bn] < NBUF && buf[at[bn]].dev == ROOTDEV && buf[at[bn]].blockno == bn
    }

    /** What the file system sees in block `bn`. */
    ghost function Logical(bn: nat): Block
      requires Ok() && bn < |image|
    {
      assert AtOk(bn);
      if bn in at && buf[at[bn]].valid then buf[at[bn]].data else image[bn]
    }

    ghost predicate Free(bn: nat)
      requires Ok()
    {
      assert AtOk(bn);
      bn in at ==> !buf[at[bn]].locked
    }

    /** bget's first half on a cached block: a reference, not yet the lock. */
    ghost function Ref(i: nat): View
      requires Ok() && i < NBUF
    {
      this.(buf := buf[i := buf[i].(refcnt := buf[i].refcnt + 1)], users := users[i := users[i] + 1])
    }

    /** bget's first half on a block that is not cached, into buffer `i`. */
    ghost function Assign(i: nat, bn: nat): View
      requires Ok() && i < NBUF
    {
      this.(buf := buf[i := buf[i].(valid := false, dev := ROOTDEV, blockno := bn, refcnt := 1)],
            users := users[i := 1],
            at := (map k | k in at && at[k] != i :: at[k])[bn := i])
    }

    /** acquiresleep. */
    ghost function Lock(i: nat): View
      requires Ok() && i < NBUF
    {
      this.(buf := buf[i := buf[i].(locked := true)])
    }

    /** releasesleep. */
    ghost function Unlock(i: nat): View
      requires Ok() && i < NBUF
    {
      this.(buf := buf[i := buf[i].(locked := false)])
    }

    /** brelse's second half. */
    ghost function Unref(i: nat): View
      requires Ok() && i < NBUF && users[i] > 0
    {
      this.(buf := buf[i := buf[i].(refcnt := buf[i].refcnt - 1)], users := users[i := users[i] - 1])
    }

    /** bget on a cached block nobody has locked. */
    ghost function Take(i: nat): View
      requires Ok() && i < NBUF
    {
      this.(buf := buf[i := buf[i].(refcnt := buf[i].refcnt + 1, locked := true)], users := users[i := users[i] + 1])
    }

    /** bget on a block that is not cached, into buffer `i`, with its lock. */
    ghost function Recycle(i: nat, bn: nat): View
      requires Ok() && i < NBUF
    {
      this.(buf := buf[i := buf[i].(valid := false, dev := ROOTDEV, blockno := bn, locked := true, refcnt := 1)],
            users := users[i := 1],
            at := (map k | k in at && at[k] != i :: at[k])[bn := i])
    }

    /** bread, once the disk has delivered the block. */
    ghost function Load(i: nat): View
      requires Ok() && i < NBUF && buf[i].dev == ROOTDEV
    {
      this.(buf := buf[i := buf[i].(valid := true, data := image[buf[i].blockno])])
    }

    /** The lock holder replaces the buffer's contents. */
    ghost function Fill(i: nat, d: Block): View
      requires Ok() && i < NBUF
    {
      this.(buf := buf[i := buf[i].(data := d)])
    }

    /** bwrite. */
    ghost function Flush(i: nat): View
      requires Ok() && i < NBUF && buf[i].dev == ROOTDEV
    {
      this.(image := image[buf[i].blockno := buf[i].data])
    }

    /** brelse. */
    ghost function Drop(i: nat): View
      requires Ok() && i < NBUF && users[i] > 0
    {
      this.(buf := buf[i := buf[i].(refcnt := buf[i].refcnt - 1, locked := false)], users := users[i := users[i] - 1])
    }

    ghost function Pin(i: nat): View
      requires Ok() && i < NBUF
    {
      this.(buf := buf[i := buf[i].(refcnt := buf[i].refcnt + 1)], pins := pins[i := pins[i] + 1])
    }

    ghost function Unpin(i: nat): View
      requires Ok() && i < NBUF && pins[i] > 0
    {
      this.(buf := buf[i := buf[i].(refcnt := buf[i].refcnt - 1)], pins := pins[i := pins[i] - 1])
    }

    /** Same file-system contents. */
    ghost predicate Agrees(v: View)
      requires Ok() && v.Ok()
    {
      |v.image| == |image| && forall k: nat :: k < |image| ==> v.Logical(k) == Logical(k)
    }

    lemma RefOk(i: nat)
      requires Ok() && i < NBUF && buf[i].dev == ROOTDEV
      ensures Ref(i).Ok() && Agrees(Ref(i))
    {
      var v := Ref(i);
      forall k: nat ensures v.AtOk(k) { assert AtOk(k); }
      forall k: nat | k < |image| ensures v.Logical(k) == Logical(k) { assert AtOk(k); }
    }

    /** An unreferenced buffer can be given to another block: it is unlocked, and the disk has its contents. */
    lemma AssignOk(i: nat, bn: nat)
      requires Ok() && i < NBUF && buf[i].refcnt == 0 && bn < |image| && bn !in at
      ensures Assign(i, bn).Ok() && Agrees(Assign(i, bn)) && !buf[i].locked
    {
      var v := Assign(i, bn);
      forall k: nat ensures v.AtOk(k) { assert AtOk(k); }
      forall k: nat | k < |image| ensures v.Logical(k) == Logical(k) { assert AtOk(k); }
    }

    lemma LockOk(i: nat)
      requires Ok() && i < NBUF && users[i] > 0
      ensures Lock(i).Ok() && Agrees(Lock(i))
    {
      var v := Lock(i);
      forall k: nat ensures v.AtOk(k) { assert AtOk(k); }
      forall k: nat | k < |image| ensures v.Logical(k) == Logical(k) { assert AtOk(k); }
    }

    /** An unlocked buffer must be clean or pinned, or its contents could be lost. */
    lemma UnlockOk(i: nat)
      requires Ok() && i < NBUF
      requires buf[i].valid ==> pins[i] > 0 || buf[i].data == image[buf[i].blockno]
      ensures Unlock(i).Ok() && Agrees(Unlock(i))
    {
      var v := Unlock(i);
      forall k: nat ensures v.AtOk(k) { assert AtOk(k); }
      forall k: nat | k < |image| ensures v.Logical(k) == Logical(k) { assert AtOk(k); }
    }

    /** The lock holder's reference stays. */
    lemma UnrefOk(i: nat)
      requires Ok() && i < NBUF && users[i] > if buf[i].locked then 1 else 0
      ensures Unref(i).Ok() && Agrees(Unref(i))
    {
      var v := Unref(i);
      forall k: nat ensures v.AtOk(k) { assert AtOk(k); }
      forall k: nat | k < |image| ensures v.Logical(k) == Logical(k) { assert AtOk(k); }
    }

    /** bget without anybody in between. */
    lemma TakeOk(i: nat)
      requires Ok() && i < NBUF && buf[i].dev == ROOTDEV
      ensures Ref(i).Ok() && Take(i) == Ref(i).Lock(i) && Take(i).Ok() && Agrees(Take(i))
    {
      RefOk(i);
      Ref(i).LockOk(i);
      assert Take(i).buf == Ref(i).Lock(i).buf;
    }

    lemma RecycleOk(i: nat, bn: nat)
      requires Ok() && i < NBUF && buf[i].refcnt == 0 && bn < |image| && bn !in at
      ensures Assign(i, bn).Ok() && Recycle(i, bn) == Assign(i, bn).Lock(i) && Recycle(i, bn).Ok() && Agrees(Recycle(i, bn))
    {
      AssignOk(i, bn);
      Assign(i, bn).LockOk(i);
      assert Recycle(i, bn).buf == Assign(i, bn).Lock(i).buf;
    }

    lemma LoadOk(i: nat)
      requires Ok() && i < NBUF && buf[i].dev == ROOTDEV && !buf[i].valid
      ensures Load(i).Ok() && Agrees(Load(i))
    {
      var v := Load(i);
      forall k: nat ensures v.AtOk(k) { assert AtOk(k); }
      forall k: nat | k < |image| ensures v.Logical(k) == Logical(k) { assert AtOk(k); }
    }

    /** Storing into a locked buffer changes what the file system sees in that block only. */
    lemma FillOk(i: nat, d: Block)
      requires Ok() && i < NBUF && buf[i].locked && buf[i].valid
      ensures Fill(i, d).Ok()
      ensures forall k: nat :: k < |image| ==>
        Fill(i, d).Logical(k) == if k == buf[i].blockno then d else Logical(k)
    {
      var v := Fill(i, d);
      forall k: nat ensures v.AtOk(k) { assert AtOk(k); }
      forall k: nat | k < |image| ensures v.Logical(k) == if k == buf[i].blockno then d else Logical(k) { assert AtOk(k); }
    }

    lemma FlushOk(i: nat)
      requires Ok() && i < NBUF && buf[i].valid
      ensures Flush(i).Ok() && Agrees(Flush(i))
    {
      var v := Flush(i);
      forall k: nat ensures v.AtOk(k) { assert AtOk(k); }
      forall k: nat | k < |image| ensures v.Logical(k) == Logical(k) { assert AtOk(k); }
    }

    /** brelse without anybody in between. */
    lemma DropOk(i: nat)
      requires Ok() && i < NBUF && users[i] > 0
      requires buf[i].valid ==> pins[i] > 0 || buf[i].data == image[buf[i].blockno]
      ensures Unlock(i).Ok() && Drop(i) == Unlock(i).Unref(i) && Drop(i).Ok() && Agrees(Drop(i))
    {
      UnlockOk(i);
      Unlock(i).UnrefOk(i);
      assert Drop(i).buf == Unlock(i).Unref(i).buf;
    }

    lemma PinOk(i: nat)
      requires Ok() && i < NBUF && buf[i].locked
      ensures Pin(i).Ok() && Agrees(Pin(i))
    {
      var v := Pin(i);
      forall k: nat ensures v.AtOk(k) { assert AtOk(k); }
      forall k: nat | k < |image| ensures v.Logical(k) == Logical(k) { assert AtOk(k); }
    }

    lemma UnpinOk(i: nat)
      requires Ok() && i < NBUF && pins[i] > 0
      requires buf[i].valid ==> buf[i].data == image[buf[i].blockno]
      ensures Unpin(i).Ok() && Agrees(Unpin(i))
    {
      var v := Unpin(i);
      forall k: nat ensures v.AtOk(k) { assert AtOk(k); }
      forall k: nat | k < |image| ensures v.Logical(k) == Logical(k) { assert AtOk(k); }
    }
  }

  type OkView = v: View | v.Ok() ghost witness
    View(seq(NBUF, _ => Buf(false, 0, 0, false, 0, ZeroBlock())), seq(NBUF, _ => 0), seq(NBUF, _ => 0), map[], [])

  /** The cache after binit. */
  ghost function Boot(image: seq<Block>): OkView
  {
    View(seq(NBUF, _ => Buf(false, 0, 0, false, 0, ZeroBlock())), seq(NBUF, _ => 0), seq(NBUF, _ => 0), map[], image)
  }

  /** bread took `v` to `w`, returning buffer `b` for block `bn`: it is locked and holds the
      block's contents, it was not in use by another block, and no other buffer changed. */
  ghost predicate Reads(v: OkView, w: OkView, b: nat, bn: nat)
    requires bn < |v.image| && b < NBUF
  {
    && w.image == v.image && w.pins == v.pins
    && w.buf[b] == Buf(true, ROOTDEV, bn, true, v.buf[b].refcnt + 1, v.Logical(bn))
    && w.users == v.users[b := v.users[b] + 1]
    && (bn in v.at ==> v.at[bn] == b)
    && (bn !in v.at ==> v.buf[b].refcnt == 0)
    && (forall i :: 0 <= i < NBUF && i != b ==> w.buf[i] == v.buf[i])
  }

  lemma HitReads(v: OkView, b: nat)
    requires b < NBUF && v.buf[b].dev == ROOTDEV && v.buf[b].valid
    ensures v.Take(b).Ok() && Reads(v, v.Take(b), b, v.buf[b].blockno) && v.Agrees(v.Take(b))
  {
    v.TakeOk(b);
  }

  lemma HitLoads(v: OkView, b: nat)
    requires b < NBUF && v.buf[b].dev == ROOTDEV && !v.buf[b].valid
    ensures v.Take(b).Ok() && v.Take(b).Load(b).Ok()
    ensures Reads(v, v.Take(b).Load(b), b, v.buf[b].blockno) && v.Agrees(v.Take(b).Load(b))
  {
    v.TakeOk(b);
    v.Take(b).LoadOk(b);
  }

  lemma MissLoads(v: OkView, b: nat, bn: nat)
    requires b < NBUF && v.buf[b].refcnt == 0 && bn < |v.image| && bn !in v.at
    ensures v.Recycle(b, bn).Ok() && v.Recycle(b, bn).Load(b).Ok()
    ensures Reads(v, v.Recycle(b, bn).Load(b), b, bn) && v.Agrees(v.Recycle(b, bn).Load(b))
  {
    v.RecycleOk(b, bn);
    v.Recycle(b, bn).LoadOk(b);
  }

  lemma FrontKeepsAll(r: seq<nat>, k: nat, s: seq<nat>)
    requires 1 <= k < |r| && s == [r[0], r[k]] + r[1..k] + r[k + 1..]
    ensures forall x :: x in r ==> x in s
  {
    forall j | 0 <= j < |r| ensures r[j] in s {
      assert j == 0 || r[j] == if j < k then s[j + 1] else if j == k then s[1] else s[j];
    }
  }

  /** One cycle through the list head, position NBUF, and all NBUF buffers. */
  ghost predicate Full(c: Cycle)
  {
    && |c.order| == |c.next| == NBUF + 1 && c.order[0] == NBUF
    && (forall b :: 0 <= b < NBUF ==> b in c.order)
  }

  ghost function Upto(n: nat): seq<nat> { seq(n, i => i) }

  type FullCycle = c: Cycle | Full(c) ghost witness FullWitness()

  ghost function FullWitness(): (c: Chain)
    ensures Cyclic(c) && Full(c)
  {
    var order := [NBUF] + Upto(NBUF);
    var c := Chain(seq(NBUF + 1, i => if i == NBUF then 0 else i + 1), seq(NBUF + 1, i => if i == 0 then NBUF else i - 1), order);
    assert forall b :: 0 <= b < NBUF ==> b in order by {
      forall b | 0 <= b < NBUF ensures b in order { assert Upto(NBUF)[b] == b; }
    }
    c
  }

  class Cache {
    const disk: Disk
    var buf: seq<Buf>
    var next: seq<nat>
    var prev: seq<nat>
    ghost var cycle: FullCycle  // order: head, then the buffers from most to least recently used
    ghost var view: OkView

    ghost predicate Valid()
      reads this, disk
    {
      next == cycle.next && prev == cycle.prev && buf == view.buf && disk.image == view.image
    }

    /** binit. */
    constructor (d: Disk)
      ensures Valid() && disk == d
      ensures view == Boot(d.image)
    {
      disk := d;
      var ns, ps := seq(NBUF + 1, _ => NBUF), seq(NBUF + 1, _ => NBUF);
      ghost var c: Cycle := Chain(ns, ps, [NBUF]);
      for n := 0 to NBUF
        invariant c.next == ns && c.prev == ps && |ns| == NBUF + 1 && |c.order| == n + 1 && c.order[0] == NBUF
        invariant forall i {:trigger c.order[i]} :: 1 <= i <= n ==> c.order[i] < n
        invariant forall b :: 0 <= b < n ==> b in c.order
      {
        PushKeeps(c, n);
        ghost var before := c.order;
        c := Pushed(c, n);
        ns, ps := ns[n := ns[NBUF]], ps[n := NBUF];
        ps := ps[ns[NBUF] := n];
        ns := ns[NBUF := n];
        assert forall b :: b in before ==> b in c.order;
        assert n == c.order[1];
      }
      next, prev, cycle := ns, ps, c;
      buf := seq(NBUF, _ => Buf(false, 0, 0, false, 0, ZeroBlock()));
      view := Boot(d.image);
    }

    /** The buffer at ring position `i`, counting from the most recently used. */
    ghost function Nth(i: nat): (b: nat)
      requires Valid() && 1 <= i <= NBUF
      reads this, disk
      ensures b < NBUF
    {
      cycle.order[i]
    }

    /** The first loop of bget: the buffer assigned to the block, if there is one. */
    method FindCached(dev: nat, bn: nat) returns (r: Option<nat>)
      requires Valid() && dev == ROOTDEV
      ensures r == if bn in view.at then Some(view.at[bn]) else None
      ensures r.Some? ==> r.value < NBUF && buf[r.value].dev == ROOTDEV && buf[r.value].blockno == bn
    {
      ghost var i, p := 1, 1;
      assert view.AtOk(bn);
      if bn in view.at {
        assert view.at[bn] in cycle.order;
        p :| 0 <= p <= NBUF && cycle.order[p] == view.at[bn];
      }
      var b := next[NBUF];
      while b != NBUF
        invariant 1 <= i <= NBUF + 1
        invariant b == if i <= NBUF then Nth(i) else NBUF
        invariant bn in view.at ==> i <= p
        decreases NBUF + 1 - i
      {
        if buf[b].dev == dev && buf[b].blockno == bn {
          return Some(b);
        }
        b := next[b];
        i := i + 1;
      }
      return None;
    }

    /** Ring position `k` holds the least recently used buffer nobody references. */
    ghost predicate LeastRecent(k: nat)
      requires Valid()
      reads this, disk
    {
      1 <= k <= NBUF && buf[Nth(k)].refcnt == 0 && forall j :: k < j <= NBUF ==> buf[Nth(j)].refcnt > 0
    }

    /** The second loop of bget. */
    method FindUnused() returns (r: Option<nat>, ghost k: nat)
      requires Valid()
      ensures r.Some? ==> LeastRecent(k) && Nth(k) == r.value
      ensures r.None? ==> forall b :: 0 <= b < NBUF ==> buf[b].refcnt > 0
    {
      var b := prev[NBUF];
      k := NBUF;
      while b != NBUF
        invariant 0 <= k <= NBUF
        invariant b == if k == 0 then NBUF else Nth(k)
        invariant forall j :: k < j <= NBUF ==> buf[Nth(j)].refcnt > 0
        decreases k
      {
        if buf[b].refcnt == 0 {
          return Some(b), k;
        }
        b := prev[b];
        k := k - 1;
      }
      forall b | 0 <= b < NBUF ensures buf[b].refcnt > 0 {
        assert b in cycle.order;
        var j :| 0 <= j <= NBUF && cycle.order[j] == b;
        assert b == Nth(j);
      }
      return None, k;
    }

    /** bget up to the release of bcache.lock, whoever holds the buffer's lock: a reference to the buffer of
        block `bn`. A block that is not cached takes over the least recently used buffer nobody references;
        None, where the kernel panics, is the outcome exactly when there is no such buffer. */
    method Reference(dev: nat, bn: nat) returns (r: Option<nat>, ghost k: nat)
      requires Valid() && dev == ROOTDEV && bn < |disk.image|
      modifies this
      ensures Valid()
      ensures r.None? <==> bn !in old(view).at && forall i :: 0 <= i < NBUF ==> old(buf)[i].refcnt > 0
      ensures r.None? ==> view == old(view)
      ensures r.Some? ==> r.value < NBUF
      ensures r.Some? && bn in old(view).at ==> r.value == old(view).at[bn] && view == old(view).Ref(r.value)
      ensures r.Some? && bn !in old(view).at ==>
        old(LeastRecent(k)) && r.value == old(Nth(k)) && view == old(view).Assign(r.value, bn)
    {
      k := 0;
      r := FindCached(dev, bn);
      if r.Some? {
        var b := r.value;
        view.RefOk(b);
        buf := buf[b := buf[b].(refcnt := buf[b].refcnt + 1)];
        view := view.Ref(b);
        return;
      }
      r, k := FindUnused();
      if r.Some? {
        var b := r.value;
        view.AssignOk(b, bn);
        buf := buf[b := buf[b].(valid := false, dev := dev, blockno := bn, refcnt := 1)];
        view := view.Assign(b, bn);
      }
    }

    /** acquiresleep of a buffer's lock, once it is free. */
    method Acquire(b: nat)
      requires Valid() && b < NBUF && view.users[b] > 0 && !buf[b].locked
      modifies this`buf, this`view
      ensures Valid() && view == old(view).Lock(b) && old(view).Agrees(view)
    {
      view.LockOk(b);
      buf := buf[b := buf[b].(locked := true)];
      view := view.Lock(b);
    }

    /** bget with nobody in between: the buffer of block `bn`, referenced and locked. */
    method Bget(dev: nat, bn: nat) returns (r: Option<nat>, ghost k: nat)
      requires Valid() && dev == ROOTDEV && bn < |disk.image|
      requires view.Free(bn)
      modifies this
      ensures Valid()
      ensures r.None? <==> bn !in old(view).at && forall i :: 0 <= i < NBUF ==> old(buf)[i].refcnt > 0
      ensures r.None? ==> view == old(view)
      ensures r.Some? ==> r.value < NBUF
      ensures r.Some? && bn in old(view).at ==> r.value == old(view).at[bn] && view == old(view).Take(r.value)
      ensures r.Some? && bn !in old(view).at ==>
        old(LeastRecent(k)) && r.value == old(Nth(k)) && view == old(view).Recycle(r.value, bn)
    {
      ghost var v := view;
      assert v.AtOk(bn);
      r, k := Reference(dev, bn);
      if r.Some? {
        if bn in v.at { v.TakeOk(r.value); } else { v.RecycleOk(r.value, bn); }
        Acquire(r.value);
      }
    }

    /** bread: the result holds what the file system sees in the block. */
    method Bread(dev: nat, bn: nat) returns (r: Option<nat>)
      requires Valid() && dev == ROOTDEV && bn < |disk.image|
      requires view.Free(bn)
      modifies this
      ensures Valid() && old(view).Agrees(view)
      ensures r.None? <==> bn !in old(view).at && forall i :: 0 <= i < NBUF ==> old(buf)[i].refcnt > 0
      ensures r.None? ==> view == old(view)
      ensures r.Some? ==> r.value < NBUF && Reads(old(view), view, r.value, bn)
    {
      ghost var k, v := 0, view;
      assert v.AtOk(bn);
      r, k := Bget(dev, bn);
      if r.Some? {
        if buf[r.value].valid {
          HitReads(v, r.value);
        } else {
          if bn in v.at { HitLoads(v, r.value); } else { MissLoads(v, r.value, bn); }
          buf := buf[r.value := buf[r.value].(valid := true, data := disk.image[bn])];
          view := view.Load(r.value);
        }
      }
    }

    /** The lock holder stores into b->data. */
    method Store(b: nat, d: Block)
      requires Valid() && b < NBUF && buf[b].locked && buf[b].valid
      modifies this
      ensures Valid() && view == old(view).Fill(b, d)
    {
      view.FillOk(b, d);
      buf := buf[b := buf[b].(data := d)];
      view := view.Fill(b, d);
    }

    /** bwrite: one atomic disk write of the buffer. */
    method Bwrite(b: nat)
      requires Valid() && b < NBUF && buf[b].locked && buf[b].valid
      modifies this`view, disk
      ensures Valid() && view == old(view).Flush(b)
      ensures disk.history == old(disk.history) + [disk.image]
    {
      view.FlushOk(b);
      disk.Write(buf[b].blockno, buf[b].data);
      view := view.Flush(b);
    }

    /** releasesleep of a buffer's lock, by its holder. */
    method Release(b: nat)
      requires Valid() && b < NBUF && buf[b].locked
      requires buf[b].valid ==> view.pins[b] > 0 || buf[b].data == disk.image[buf[b].blockno]
      modifies this`buf, this`view
      ensures Valid() && view == old(view).Unlock(b) && old(view).Agrees(view)
    {
      view.UnlockOk(b);
      buf := buf[b := buf[b].(locked := false)];
      view := view.Unlock(b);
    }

    /** brelse after releasesleep, by a process that has given up the lock, whoever has it now: the reference
        goes; the last one moves the buffer to the most-recently-used end and leaves the rest of the order alone. */
    method Unreference(b: nat) returns (ghost k: nat)
      requires Valid() && b < NBUF && view.users[b] > if buf[b].locked then 1 else 0
      modifies this
      ensures Valid() && view == old(view).Unref(b) && old(view).Agrees(view)
      ensures 1 <= k <= NBUF && old(Nth(k)) == b
      ensures var was := old(cycle.order);
        cycle.order == if buf[b].refcnt == 0 then [NBUF, b] + was[1..k] + was[k + 1..] else was
    {
      assert b in cycle.order;
      k :| 0 <= k <= NBUF && cycle.order[k] == b;
      view.UnrefOk(b);
      buf := buf[b := buf[b].(refcnt := buf[b].refcnt - 1)];
      view := view.Unref(b);
      if buf[b].refcnt == 0 {
        MoveToFront(b, k);
      }
    }

    /** brelse with nobody in between. */
    method Brelse(b: nat) returns (ghost k: nat)
      requires Valid() && b < NBUF && buf[b].locked
      requires buf[b].valid ==> view.pins[b] > 0 || buf[b].data == disk.image[buf[b].blockno]
      modifies this
      ensures Valid() && view == old(view).Drop(b) && old(view).Agrees(view)
      ensures 1 <= k <= NBUF && old(Nth(k)) == b
      ensures var was := old(cycle.order);
        cycle.order == if buf[b].refcnt == 0 then [NBUF, b] + was[1..k] + was[k + 1..] else was
    {
      view.DropOk(b);
      Release(b);
      k := Unreference(b);
    }

    /** Unlink `b` and insert it behind the head. */
    method MoveToFront(b: nat, ghost k: nat)
      requires next == cycle.next && prev == cycle.prev && 1 <= k <= NBUF && cycle.order[k] == b
      modifies this`next, this`prev, this`cycle
      ensures next == cycle.next && prev == cycle.prev
      ensures cycle.order == [NBUF, b] + old(cycle).order[1..k] + old(cycle).order[k + 1..]
    {
      ghost var was := cycle.order;
      UnlinkKeeps(cycle, k);
      ghost var c: Cycle := Unlinked(cycle, k);
      PushKeeps(c, b);
      prev := prev[next[b] := prev[b]];
      next := next[prev[b] := next[b]];
      next := next[b := next[NBUF]];
      prev := prev[b := NBUF];
      prev := prev[next[NBUF] := b];
      next := next[NBUF := b];
      ghost var d: Cycle := Pushed(c, b);
      assert d.order == [NBUF, b] + was[1..k] + was[k + 1..];
      FrontKeepsAll(was, k, d.order);
      cycle := d;
    }

    method Bpin(b: nat)
      requires Valid() && b < NBUF && buf[b].locked
      modifies this
      ensures Valid() && view == old(view).Pin(b) && old(view).Agrees(view)
    {
      view.PinOk(b);
      buf := buf[b := buf[b].(refcnt := buf[b].refcnt + 1)];
      view := view.Pin(b);
    }

    method Bunpin(b: nat)
      requires Valid() && b < NBUF && view.pins[b] > 0
      requires buf[b].valid ==> buf[b].data == disk.image[buf[b].blockno]
      modifies this
      ensures Valid() && view == old(view).Unpin(b) && old(view).Agrees(view)
    {
      view.UnpinOk(b);
      buf := buf[b := buf[b].(refcnt := buf[b].refcnt - 1)];
      view := view.Unpin(b);
    }
  }
}
