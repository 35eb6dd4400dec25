/** Runs of the buffer cache of kernel/bio.c: any number of uses of it at once, each from bget's reference over
    acquiresleep, bread's disk read, stores, bwrite and bpin to releasesleep and the end of brelse, interleaved in
    every possible way from boot on. */
module CacheRuns {
  import opened Options
  import opened Blocks
  import opened BufCache

  /** One use of block `bn` in buffer `b`: referenced and waiting for the lock, holding it, or past releasesleep
      and still referenced. */
  datatype Use = Waiting(b: nat, bn: nat) | Holding(b: nat, bn: nat) | Leaving(b: nat, bn: nat)

  datatype Sys = Sys(v: View, uses: map<nat, Use>) {
    ghost function On(b: nat): set<nat> { set u | u in uses && uses[u].b == b }

    /** Each use has its buffer, still assigned to its block. */
    ghost predicate UseAt(u: nat)
      requires v.Ok() && u in uses
    {
      var b := uses[u].b;
      b < NBUF && v.buf[b].dev == ROOTDEV && v.buf[b].blockno == uses[u].bn && (uses[u].Holding? ==> v.buf[b].locked)
    }

    /** The references of bget are those of the uses, and the lock is one use's. */
    ghost predicate BufAt(b: nat)
      requires v.Ok() && b < NBUF
    {
      && v.users[b] == |On(b)|
      && (v.buf[b].locked ==> exists u :: u in uses && uses[u] == Holding(b, v.buf[b].blockno))
    }

    ghost predicate OneHolder()
    {
      forall u, w :: u in uses && w in uses && uses[u].Holding? && w != u && uses[w].Holding? ==> uses[u].b != uses[w].b
    }

    ghost predicate Ok()
    {
      v.Ok() && (forall u :: u in uses ==> UseAt(u)) && (forall b: nat :: b < NBUF ==> BufAt(b)) && OneHolder()
    }
  }

  type OkSys = s: Sys | s.Ok() ghost witness
    Sys(View(seq(NBUF, _ => Buf(false, 0, 0, false, 0, ZeroBlock())), seq(NBUF, _ => 0), seq(NBUF, _ => 0), map[], []), map[])

  datatype Step =
    | Get(u: nat, b: nat, bn: nat)       // bget up to the release of bcache.lock, in buffer b
    | Acquire(u: nat)                    // acquiresleep
    | Load(u: nat)                       // bread's disk read
    | Store(u: nat, bn: nat, d: Block)   // the lock holder changes its block
    | Flush(u: nat)                      // bwrite
    | Pin(u: nat)                        // bpin
    | Release(u: nat)                    // releasesleep
    | Put(u: nat)                        // the rest of brelse
    | Unpin(b: nat)                      // bunpin

  ghost predicate Clean(v: OkView, b: nat)
    requires b < NBUF
  {
    v.buf[b].valid ==> v.buf[b].data == v.image[v.buf[b].blockno]
  }

  /** When each step is possible, and what callers make sure of: they store only under the lock, release a buffer
      only clean or pinned, and unpin it only clean. */
  ghost predicate Enabled(s: OkSys, a: Step)
  {
    match a
    case Get(u, b, bn) =>
      u !in s.uses && bn < |s.v.image| && b < NBUF && if bn in s.v.at then b == s.v.at[bn] else s.v.buf[b].refcnt == 0
    case Acquire(u) => u in s.uses && s.uses[u].Waiting? && s.uses[u].b < NBUF && !s.v.buf[s.uses[u].b].locked
    case Load(u) => u in s.uses && s.uses[u].Holding? && s.uses[u].b < NBUF && !s.v.buf[s.uses[u].b].valid
    case Store(u, bn, d) => u in s.uses && s.uses[u].Holding? && s.uses[u].b < NBUF && s.v.buf[s.uses[u].b].valid && s.uses[u].bn == bn
    case Flush(u) => u in s.uses && s.uses[u].Holding? && s.uses[u].b < NBUF && s.v.buf[s.uses[u].b].valid
    case Pin(u) => u in s.uses && s.uses[u].Holding?
    case Release(u) =>
      u in s.uses && s.uses[u].Holding? && s.uses[u].b < NBUF && (Clean(s.v, s.uses[u].b) || s.v.pins[s.uses[u].b] > 0)
    case Put(u) => u in s.uses && s.uses[u].Leaving?
    case Unpin(b) => b < NBUF && s.v.pins[b] > 0 && Clean(s.v, b)
  }

  ghost function Next(s: OkSys, a: Step): Sys
    requires Enabled(s, a)
  {
    assert !a.Get? && !a.Unpin? ==> s.UseAt(a.u);
    match a
    case Get(u, b, bn) => Sys(if bn in s.v.at then s.v.Ref(b) else s.v.Assign(b, bn), s.uses[u := Waiting(b, bn)])
    case Acquire(u) => Sys(s.v.Lock(s.uses[u].b), s.uses[u := Holding(s.uses[u].b, s.uses[u].bn)])
    case Load(u) => s.(v := s.v.Load(s.uses[u].b))
    case Store(u, bn, d) => s.(v := s.v.Fill(s.uses[u].b, d))
    case Flush(u) => s.(v := s.v.Flush(s.uses[u].b))
    case Pin(u) => s.(v := s.v.Pin(s.uses[u].b))
    case Release(u) => Sys(s.v.Unlock(s.uses[u].b), s.uses[u := Leaving(s.uses[u].b, s.uses[u].bn)])
    case Put(u) =>
      UserCounts(s, u);
      Sys(s.v.Unref(s.uses[u].b), s.uses - {u})
    case Unpin(b) => s.(v := s.v.Unpin(b))
  }

  /** A use that does not hold the lock has a reference besides the holder's. */
  lemma UserCounts(s: OkSys, u: nat)
    requires u in s.uses
    ensures s.uses[u].b < NBUF && s.v.users[s.uses[u].b] > 0
    ensures !s.uses[u].Holding? && s.v.buf[s.uses[u].b].locked ==> s.v.users[s.uses[u].b] > 1
  {
    assert s.UseAt(u);
    var b := s.uses[u].b;
    assert s.BufAt(b) && u in s.On(b);
    if !s.uses[u].Holding? && s.v.buf[b].locked {
      var w :| w in s.uses && s.uses[w] == Holding(b, s.v.buf[b].blockno);
      TwoIn(s.On(b), u, w);
    }
  }

  lemma TwoIn(x: set<nat>, u: nat, w: nat)
    requires u in x && w in x && u != w
    ensures |x| > 1
  {
    assert |x| == |x - {u}| + 1;
    assert w in x - {u};
  }

  // Each kind of step keeps the invariant.

  lemma GetOk(s: OkSys, u: nat, b: nat, bn: nat)
    requires Enabled(s, Get(u, b, bn))
    ensures Next(s, Get(u, b, bn)).Ok() && s.v.Agrees(Next(s, Get(u, b, bn)).v)
  {
    assert BufOk(b, s.v.buf[b], s.v.users[b], s.v.pins[b], s.v.at, s.v.image) && s.v.AtOk(bn);
    if bn in s.v.at {
      s.v.RefOk(b);
      JoinOk(s, s.v.Ref(b), u, b, bn);
    } else {
      s.v.AssignOk(b, bn);
      JoinOk(s, s.v.Assign(b, bn), u, b, bn);
    }
  }

  /** One more reference, and no buffer with a reference changed hands. */
  lemma JoinOk(s: OkSys, v: OkView, u: nat, b: nat, bn: nat)
    requires u !in s.uses && b < NBUF && v.users == s.v.users[b := s.v.users[b] + 1]
    requires v.buf[b].dev == ROOTDEV && v.buf[b].blockno == bn
    requires forall c: nat :: c < NBUF ==> v.buf[c].locked == s.v.buf[c].locked
    requires forall c: nat :: c < NBUF && s.v.users[c] > 0 ==> v.buf[c].dev == s.v.buf[c].dev && v.buf[c].blockno == s.v.buf[c].blockno
    ensures Sys(v, s.uses[u := Waiting(b, bn)]).Ok()
  {
    var t := Sys(v, s.uses[u := Waiting(b, bn)]);
    forall w | w in t.uses ensures t.UseAt(w) {
      if w != u {
        UserCounts(s, w);
        assert s.UseAt(w);
      }
    }
    forall c: nat | c < NBUF ensures t.BufAt(c) { JoinAt(s, v, u, b, bn, c); }
  }

  lemma JoinAt(s: OkSys, v: OkView, u: nat, b: nat, bn: nat, c: nat)
    requires u !in s.uses && b < NBUF && v.users == s.v.users[b := s.v.users[b] + 1] && c < NBUF && v.buf[c].locked == s.v.buf[c].locked
    requires s.v.users[c] > 0 ==> v.buf[c].dev == s.v.buf[c].dev && v.buf[c].blockno == s.v.buf[c].blockno
    ensures Sys(v, s.uses[u := Waiting(b, bn)]).BufAt(c)
  {
    var t := Sys(v, s.uses[u := Waiting(b, bn)]);
    assert s.BufAt(c);
    OnMore(s, v, u, b, bn, c);
    if s.v.buf[c].locked {
      var w :| w in s.uses && s.uses[w] == Holding(c, s.v.buf[c].blockno);
      UserCounts(s, w);
      assert w in t.uses && t.uses[w] == s.uses[w];
    }
  }

  lemma OnMore(s: Sys, v: View, u: nat, b: nat, bn: nat, c: nat)
    requires u !in s.uses
    ensures |Sys(v, s.uses[u := Waiting(b, bn)]).On(c)| == |s.On(c)| + if c == b then 1 else 0
  {
    assert Sys(v, s.uses[u := Waiting(b, bn)]).On(c) == if c == b then s.On(c) + {u} else s.On(c);
  }

  lemma AcquireOk(s: OkSys, u: nat)
    requires Enabled(s, Acquire(u))
    ensures Next(s, Acquire(u)).Ok() && s.v.Agrees(Next(s, Acquire(u)).v)
  {
    var t, b := Next(s, Acquire(u)), s.uses[u].b;
    UserCounts(s, u);
    s.v.LockOk(b);
    forall w | w in t.uses ensures t.UseAt(w) { assert s.UseAt(w); }
    forall c: nat | c < NBUF ensures t.BufAt(c) {
      assert s.BufAt(c) && t.On(c) == s.On(c);
      if c == b {
        assert s.UseAt(u) && t.uses[u] == Holding(b, t.v.buf[b].blockno);
      } else if s.v.buf[c].locked {
        var w :| w in s.uses && s.uses[w] == Holding(c, s.v.buf[c].blockno);
        assert w in t.uses && t.uses[w] == s.uses[w];
      }
    }
    forall w | w in s.uses && s.uses[w].Holding? ensures s.uses[w].b != b { assert s.UseAt(w); }
  }

  /** A step of a lock holder on its buffer, or an unpin. */
  lemma InPlaceOk(s: OkSys, v: OkView)
    requires v.users == s.v.users
    requires forall b: nat :: b < NBUF ==>
      v.buf[b].dev == s.v.buf[b].dev && v.buf[b].blockno == s.v.buf[b].blockno && v.buf[b].locked == s.v.buf[b].locked
    ensures s.(v := v).Ok()
  {
    var t := s.(v := v);
    forall w | w in t.uses ensures t.UseAt(w) { assert s.UseAt(w); }
    forall c: nat | c < NBUF ensures t.BufAt(c) { assert s.BufAt(c) && t.On(c) == s.On(c); }
  }

  lemma ReleaseOk(s: OkSys, u: nat)
    requires Enabled(s, Release(u))
    ensures Next(s, Release(u)).Ok() && s.v.Agrees(Next(s, Release(u)).v)
  {
    var t, b := Next(s, Release(u)), s.uses[u].b;
    assert s.UseAt(u);
    s.v.UnlockOk(b);
    forall w | w in t.uses ensures t.UseAt(w) { assert s.UseAt(w); }
    forall c: nat | c < NBUF ensures t.BufAt(c) {
      assert s.BufAt(c) && t.On(c) == s.On(c);
      if t.v.buf[c].locked {
        var w :| w in s.uses && s.uses[w] == Holding(c, s.v.buf[c].blockno);
        assert w in t.uses && t.uses[w] == s.uses[w];
      }
    }
  }

  lemma PutOk(s: OkSys, u: nat)
    requires Enabled(s, Put(u))
    ensures Next(s, Put(u)).Ok() && s.v.Agrees(Next(s, Put(u)).v)
  {
    var t, b := Next(s, Put(u)), s.uses[u].b;
    UserCounts(s, u);
    s.v.UnrefOk(b);
    forall w | w in t.uses ensures t.UseAt(w) { assert s.UseAt(w); }
    forall c: nat | c < NBUF ensures t.BufAt(c) {
      assert s.BufAt(c);
      if c == b { assert u in s.On(b) && t.On(b) == s.On(b) - {u}; } else { assert t.On(c) == s.On(c); }
      if s.v.buf[c].locked {
        var w :| w in s.uses && s.uses[w] == Holding(c, s.v.buf[c].blockno);
        assert w in t.uses && t.uses[w] == s.uses[w];
      }
    }
  }

  lemma StoreOk(s: OkSys, u: nat, bn: nat, d: Block)
    requires Enabled(s, Store(u, bn, d))
    ensures Next(s, Store(u, bn, d)).Ok() && |Next(s, Store(u, bn, d)).v.image| == |s.v.image|
    ensures forall k: nat :: k < |s.v.image| ==> Next(s, Store(u, bn, d)).v.Logical(k) == if k == bn then d else s.v.Logical(k)
  {
    assert s.UseAt(u);
    s.v.FillOk(s.uses[u].b, d);
    InPlaceOk(s, s.v.Fill(s.uses[u].b, d));
  }

  lemma HolderOk(s: OkSys, a: Step)
    requires Enabled(s, a) && (a.Load? || a.Flush? || a.Pin? || a.Unpin?)
    ensures Next(s, a).Ok() && s.v.Agrees(Next(s, a).v)
  {
    if a.Unpin? {
      s.v.UnpinOk(a.b);
      InPlaceOk(s, s.v.Unpin(a.b));
    } else {
      assert s.UseAt(a.u);
      var b := s.uses[a.u].b;
      match a
      case Load(_) =>
        s.v.LoadOk(b);
        InPlaceOk(s, s.v.Load(b));
      case Flush(_) =>
        s.v.FlushOk(b);
        InPlaceOk(s, s.v.Flush(b));
      case Pin(_) =>
        s.v.PinOk(b);
        InPlaceOk(s, s.v.Pin(b));
    }
  }

  /** Every step keeps the cache sound, and only a store changes what the file system sees, in its own block. */
  lemma NextOk(s: OkSys, a: Step)
    requires Enabled(s, a)
    ensures Next(s, a).Ok() && |Next(s, a).v.image| == |s.v.image|
    ensures forall k: nat :: k < |s.v.image| ==>
      Next(s, a).v.Logical(k) == if a.Store? && a.bn == k then a.d else s.v.Logical(k)
  {
    match a
    case Get(u, b, bn) => GetOk(s, u, b, bn);
    case Acquire(u) => AcquireOk(s, u);
    case Release(u) => ReleaseOk(s, u);
    case Put(u) => PutOk(s, u);
    case Store(u, bn, d) => StoreOk(s, u, bn, d);
    case _ => HolderOk(s, a);
  }

  /** The state that `run` reaches from `s`, if each of its steps is possible. */
  ghost function After(s: OkSys, run: seq<Step>): Option<OkSys>
    decreases |run|
  {
    if run == [] then Some(s)
    else if Enabled(s, run[0]) then NextOk(s, run[0]); After(Next(s, run[0]), run[1..])
    else None
  }

  /** After binit, with nobody using the cache. */
  ghost function Start(image: seq<Block>): OkSys
  {
    var s := Sys(Boot(image), map[]);
    assert forall b: nat :: s.On(b) == {};
    s
  }

  /** What block `bn` holds after `run` if it held `d` before: the last thing stored in it. */
  function LastStored(d: Block, run: seq<Step>, bn: nat): Block
    decreases |run|
  {
    if run == [] then d else LastStored(if run[0].Store? && run[0].bn == bn then run[0].d else d, run[1..], bn)
  }

  lemma {:induction false} LogicalIsLast(s: OkSys, run: seq<Step>, bn: nat)
    requires bn < |s.v.image| && After(s, run).Some?
    ensures |After(s, run).value.v.image| == |s.v.image|
    ensures After(s, run).value.v.Logical(bn) == LastStored(s.v.Logical(bn), run, bn)
    decreases |run|
  {
    if run != [] {
      NextOk(s, run[0]);
      LogicalIsLast(Next(s, run[0]), run[1..], bn);
    }
  }

  /** The cache is a logical disk: in every run from boot each block reads as what was last stored in it. */
  lemma ReadsLastStored(image: seq<Block>, run: seq<Step>, bn: nat)
    requires bn < |image| && After(Start(image), run).Some?
    ensures |After(Start(image), run).value.v.image| == |image|
    ensures After(Start(image), run).value.v.Logical(bn) == LastStored(image[bn], run, bn)
  {
    LogicalIsLast(Start(image), run, bn);
  }

  /** What bread returns: whatever happened between its reference and its lock, the buffer is its block's, and
      once loaded, by this use or another, it holds what was last stored in the block. */
  lemma BreadReadsLast(image: seq<Block>, run: seq<Step>, u: nat)
    requires After(Start(image), run).Some? && u in After(Start(image), run).value.uses
    ensures var s := After(Start(image), run).value; var b, bn := s.uses[u].b, s.uses[u].bn;
      && b < NBUF && bn < |s.v.image| == |image| && s.v.buf[b].blockno == bn
      && (s.v.buf[b].valid ==> s.v.buf[b].data == LastStored(image[bn], run, bn))
  {
    var s := After(Start(image), run).value;
    LengthKept(Start(image), run);
    assert s.UseAt(u);
    var b := s.uses[u].b;
    assert BufOk(b, s.v.buf[b], s.v.users[b], s.v.pins[b], s.v.at, s.v.image);
    ReadsLastStored(image, run, s.uses[u].bn);
  }

  lemma {:induction false} LengthKept(s: OkSys, run: seq<Step>)
    requires After(s, run).Some?
    ensures |After(s, run).value.v.image| == |s.v.image|
    decreases |run|
  {
    if run != [] {
      NextOk(s, run[0]);
      LengthKept(Next(s, run[0]), run[1..]);
    }
  }

  /** Nobody has block `bn` locked or pinned. */
  ghost predicate Idle(v: OkView, bn: nat)
  {
    assert v.AtOk(bn);
    bn in v.at ==> !v.buf[v.at[bn]].locked && v.pins[v.at[bn]] == 0
  }

  /** Nothing stored is lost: while nobody has block `bn` locked or pinned, referenced or not, the disk itself has
      what was last stored. */
  lemma DiskHasLast(image: seq<Block>, run: seq<Step>, bn: nat)
    requires bn < |image| && After(Start(image), run).Some?
    requires Idle(After(Start(image), run).value.v, bn)
    ensures |After(Start(image), run).value.v.image| == |image|
    ensures After(Start(image), run).value.v.image[bn] == LastStored(image[bn], run, bn)
  {
    ReadsLastStored(image, run, bn);
    var v := After(Start(image), run).value.v;
    assert v.AtOk(bn);
    if bn in v.at { assert BufOk(v.at[bn], v.buf[v.at[bn]], v.users[v.at[bn]], v.pins[v.at[bn]], v.at, v.image); }
  }

  /** No step takes a buffer away from a use of it, waiting or holding, or from a pinned block. */
  lemma NeverRecycled(s: OkSys, a: Step, b: nat)
    requires Enabled(s, a) && b < NBUF && (s.v.pins[b] > 0 || exists u :: u in s.uses && s.uses[u].b == b)
    ensures Next(s, a).v.buf[b].dev == ROOTDEV == s.v.buf[b].dev && Next(s, a).v.buf[b].blockno == s.v.buf[b].blockno
  {
    assert BufOk(b, s.v.buf[b], s.v.users[b], s.v.pins[b], s.v.at, s.v.image);
    if s.v.pins[b] == 0 {
      var u :| u in s.uses && s.uses[u].b == b;
      UserCounts(s, u);
    }
  }

  /** From its bget to the end of its brelse, through any run, a use has one buffer, assigned to one block. */
  lemma {:induction false} UseKeepsBlock(s: OkSys, run: seq<Step>, u: nat)
    requires u in s.uses && After(s, run).Some? && Put(u) !in run
    ensures var t := After(s, run).value;
      && u in t.uses && t.uses[u].b == s.uses[u].b < NBUF && t.uses[u].bn == s.uses[u].bn
      && t.v.buf[t.uses[u].b].blockno == t.uses[u].bn
    decreases |run|
  {
    if run == [] {
      assert s.UseAt(u);
    } else {
      NextOk(s, run[0]);
      assert run[0] != Put(u);
      UseKeepsBlock(Next(s, run[0]), run[1..], u);
    }
  }

  /** In every run at most one use holds a block, and it is the one buffer's lock holder. */
  lemma OneHolder(image: seq<Block>, run: seq<Step>, u: nat, w: nat)
    requires After(Start(image), run).Some?
    ensures var s := After(Start(image), run).value;
      u in s.uses && w in s.uses && s.uses[u].Holding? && s.uses[w].Holding? && s.uses[u].bn == s.uses[w].bn ==> u == w
  {
    var s := After(Start(image), run).value;
    if u in s.uses && w in s.uses {
      assert s.UseAt(u) && s.UseAt(w);
      OneBuffer(image, run, s.uses[u].b, s.uses[w].b);
    }
  }

  /** At most one buffer is assigned to a block, in every run. */
  lemma OneBuffer(image: seq<Block>, run: seq<Step>, b: nat, c: nat)
    requires After(Start(image), run).Some? && b < NBUF && c < NBUF
    ensures var v := After(Start(image), run).value.v;
      v.buf[b].dev == ROOTDEV && v.buf[c].dev == ROOTDEV && v.buf[b].blockno == v.buf[c].blockno ==> b == c
  {
    var v := After(Start(image), run).value.v;
    assert BufOk(b, v.buf[b], v.users[b], v.pins[b], v.at, v.image);
    assert BufOk(c, v.buf[c], v.users[c], v.pins[c], v.at, v.image);
  }
}
