/** mkfs/mkfs.c: the image it builds with ialloc, iappend and its bump allocator satisfies the invariant
    that the kernel's file system keeps. */
module Mkfs {
  import opened Options
  import opened Blocks
  import opened Bitmap
  import opened FsState
  import opened FileSystem

  const FSSIZE := 1000
  const NINODES := 200
  const NLOG := 30
  const NINODEBLOCKS := 13   // NINODES / IPB + 1
  const NBITMAP := 1         // FSSIZE / (BSIZE * 8) + 1
  const NMETA := 2 + NLOG + NINODEBLOCKS + NBITMAP   // boot block, superblock, log, inode blocks, bitmap

  /** The bitmap of balloc(n): the first `n` bits set. */
  ghost function FirstBits(n: nat): (bm: seq<Block>)
    requires n <= BPB
    ensures |bm| == 1
  {
    if n == 0 then [ZeroBlock()] else SetBit(FirstBits(n - 1), n - 1)
  }

  lemma {:induction false} FirstBitsAt(n: nat, b: nat)
    requires n <= BPB && b < BPB
    ensures Bit(FirstBits(n), b) <==> b < n
  {
    if n == 0 {
      NoBit(b);
    } else {
      FirstBitsAt(n - 1, b);
      assert FirstBits(n) == SetBit(FirstBits(n - 1), n - 1);
      BitSet(FirstBits(n - 1), n - 1, b);
    }
  }

  lemma NoBit(b: nat)
    requires b < BPB
    ensures !Bit([ZeroBlock()], b)
  {
    NoBits(b % BPB % 8);
  }

  lemma {:induction false} NoBits(i: nat)
    ensures !Test(0, i)
  {
    if i > 0 { NoBits(i - 1); }
  }

  /** balloc: the bitmap block written at the end; None is its assertion. */
  method Balloc(used: nat) returns (bm: Option<seq<Block>>)
    ensures bm.Some? <==> used < BPB
    ensures bm.Some? ==> bm.value == FirstBits(used)
  {
    bm := None;
    if used < BPB {
      var b := [ZeroBlock()];
      var i := 0;
      while i < used
        invariant 0 <= i <= used && b == FirstBits(i)
      {
        b := SetBit(b, i);
        i := i + 1;
      }
      bm := Some(b);
    }
  }

  ghost function Blank(): Fs
  {
    Fs(NMETA, FirstBits(NMETA), seq(NINODES, _ => Inode(0, 0, 0, ZeroAddrs())), seq(FSSIZE, _ => ZeroBlock()), map[])
  }

  lemma BlankOk()
    ensures Blank().Ok()
  {
    EmptyOk(Blank(), NMETA);
  }

  /** Nothing is held, and the first `n` blocks are marked. */
  lemma EmptyOk(st: Fs, n: nat)
    requires st.Shape() && st.meta == n <= BPB && |st.data| <= BPB && st.bitmap == FirstBits(n) && st.owner == map[]
    requires forall i :: 0 <= i < |st.inodes| ==> st.inodes[i] == Inode(0, 0, 0, ZeroAddrs())
    ensures st.Ok()
  {
    forall b: nat ensures st.Marked(b) { if b < |st.data| { FirstBitsAt(n, b); } }
    forall i: nat, s: nat ensures st.Owns(i, s) { }
    forall i: nat ensures st.Mapped(i) { }
  }

  /** Beyond `n` bytes inode `i` has only the zeros that fill its last block. */
  ghost predicate Tail(m: Snapshot, i: nat, n: nat)
  {
    forall p: nat :: TailAt(m, i, n, p)
  }

  ghost predicate TailAt(m: Snapshot, i: nat, n: nat, p: nat) { p >= n ==> m(i, p) == -1 || (m(i, p) == 0 && p / BSIZE * BSIZE < n) }

  // The exact effect of each step on the bytes, mapped or not.

  lemma GiveBytes(st: OkFs, i: nat, s: nat, b: nat, f: nat, p: nat)
    requires i < |st.inodes| && s <= NDIRECT && st.At(i, s) == 0 && IsFree(st, b) && st.inodes[i].typ != 0 && f < |st.inodes|
    ensures Give(st, i, s, b).Ok()
    ensures Snap(Give(st, i, s, b))(f, p) ==
      if f == i && p < MAXFILE * BSIZE && FileSlot(p / BSIZE) == s then 0 else Snap(st)(f, p)
  {
    GiveOk(st, i, s, b);
    GiveSlots(st, i, s, b);
    var t := Give(st, i, s, b);
    BytesAt(st, f, p);
    BytesAt(t, f, p);
    if st.Has(f, p) {
      GiveByte(st, i, s, b, f, p);
    } else if p < MAXFILE * BSIZE {
      assert MoreAt(st, t, i, s, b, f, FileSlot(p / BSIZE));
    }
  }

  lemma GiveEntryBytes(st: OkFs, i: nat, j: nat, b: nat, f: nat, p: nat)
    requires i < |st.inodes| && j < NINDIRECT && st.inodes[i].addrs[NDIRECT] != 0
    requires st.At(i, NDIRECT + 1 + j) == 0 && IsFree(st, b) && st.inodes[i].typ != 0 && f < |st.inodes|
    ensures GiveEntry(st, i, j, b).Ok()
    ensures Snap(GiveEntry(st, i, j, b))(f, p) ==
      if f == i && p < MAXFILE * BSIZE && FileSlot(p / BSIZE) == NDIRECT + 1 + j then 0 else Snap(st)(f, p)
  {
    GiveEntryOk(st, i, j, b);
    var t := GiveEntry(st, i, j, b);
    BytesAt(st, f, p);
    BytesAt(t, f, p);
    if st.Has(f, p) {
      GiveEntryByte(st, i, j, b, f, p);
    } else if p < MAXFILE * BSIZE {
      EntrySlot(st, i, j, b, f, FileSlot(p / BSIZE));
      EntryZero(st, i, j, b);
    }
  }

  /** The new block of the entry is all zeros. */
  lemma EntryZero(st: OkFs, i: nat, j: nat, b: nat)
    requires i < |st.inodes| && j < NINDIRECT && st.inodes[i].addrs[NDIRECT] != 0 && IsFree(st, b)
    ensures GiveEntry(st, i, j, b).data[b] == ZeroBlock()
  {
    Unheld(st, b, i, NDIRECT);
  }

  lemma PutBytes(st: OkFs, i: nat, off: nat, src: seq<Byte>, f: nat, p: nat)
    requires i < |st.inodes| && st.Has(i, off) && off % BSIZE + |src| <= BSIZE && f < |st.inodes|
    ensures Put(st, i, off, src).Ok()
    ensures Snap(Put(st, i, off, src))(f, p) == if f == i && off <= p < off + |src| then src[p - off] else Snap(st)(f, p)
  {
    PutOk(st, i, off, src);
    var t := Put(st, i, off, src);
    BytesAt(st, f, p);
    BytesAt(t, f, p);
    if st.Has(f, p) {
      PutRaw(st, i, off, src, f, p);
    } else {
      if p < MAXFILE * BSIZE { PutSlots(st, i, off, src, f, FileSlot(p / BSIZE)); }
      if f == i && off <= p < off + |src| { SameBlock(off, p, |src|); }
    }
  }

  /** From `m` to `n` nothing changed but that block `bn` of inode `i` may have appeared, full of zeros. */
  ghost predicate OneBlockMore(m: Snapshot, n: Snapshot, i: nat, bn: nat)
  {
    forall f: nat, p: nat :: OneMoreAt(m, n, i, bn, f, p)
  }

  ghost predicate OneMoreAt(m: Snapshot, n: Snapshot, i: nat, bn: nat, f: nat, p: nat)
  {
    n(f, p) == m(f, p) || (m(f, p) == -1 && n(f, p) == 0 && f == i && p / BSIZE == bn)
  }

  // How many blocks each step takes from the allocator.

  /** Blocks that a file of `n` bytes takes: its data blocks and, if there are more than NDIRECT, the indirect block. */
  function BlocksFor(n: nat): nat
  {
    var d := (n + BSIZE - 1) / BSIZE;
    if d > NDIRECT then d + 1 else d
  }

  /** Inode `i` holds exactly the blocks that `n` bytes take. */
  ghost predicate Exact(st: OkFs, i: nat, n: nat)
    requires i < |st.inodes|
  {
    (forall bn: nat :: ExactAt(st, i, n, bn)) && (st.At(i, NDIRECT) != 0 <==> n > NDIRECT * BSIZE)
  }

  ghost predicate ExactAt(st: OkFs, i: nat, n: nat, bn: nat)
    requires i < |st.inodes|
  {
    bn < MAXFILE ==> (st.At(i, FileSlot(bn)) != 0 <==> bn * BSIZE < n)
  }

  /** From `st` to `t` inode `i` got blocks in those of the slots `ss` that had none, and that is all. */
  ghost predicate Allotted(st: OkFs, t: OkFs, i: nat, ss: set<nat>)
  {
    |t.inodes| == |st.inodes| && forall f: nat, r: nat :: AllottedAt(st, t, i, ss, f, r)
  }

  ghost predicate AllottedAt(st: OkFs, t: OkFs, i: nat, ss: set<nat>, f: nat, r: nat)
    requires |t.inodes| == |st.inodes|
  {
    f < |st.inodes| && r < SLOTS ==> (t.At(f, r) != 0 <==> st.At(f, r) != 0 || (f == i && r in ss))
  }

  /** The slots that iappend fills for file block `fbn`. */
  ghost function SlotsFor(fbn: nat): set<nat> { if fbn < NDIRECT then {fbn} else {NDIRECT, fbn + 1} }

  ghost function Lacks(st: OkFs, i: nat, s: nat): nat
    requires i < |st.inodes| && s < SLOTS
  {
    if st.At(i, s) == 0 then 1 else 0
  }

  /** How many of them are empty. */
  ghost function Want(st: OkFs, i: nat, fbn: nat): nat
    requires i < |st.inodes| && fbn < MAXFILE
  {
    if fbn < NDIRECT then Lacks(st, i, fbn) else Lacks(st, i, NDIRECT) + Lacks(st, i, fbn + 1)
  }

  lemma AllottedTwice(s0: OkFs, s1: OkFs, s2: OkFs, i: nat, a: set<nat>, b: set<nat>)
    requires Allotted(s0, s1, i, a) && Allotted(s1, s2, i, b)
    ensures Allotted(s0, s2, i, a + b)
  {
    forall f: nat, r: nat ensures AllottedAt(s0, s2, i, a + b, f, r) { assert AllottedAt(s0, s1, i, a, f, r) && AllottedAt(s1, s2, i, b, f, r); }
  }

  lemma GiveAllots(st: OkFs, i: nat, s: nat, b: nat)
    requires i < |st.inodes| && s <= NDIRECT && st.At(i, s) == 0 && IsFree(st, b) && st.inodes[i].typ != 0
    ensures Give(st, i, s, b).Ok() && Allotted(st, Give(st, i, s, b), i, {s})
  {
    GiveOk(st, i, s, b);
    GiveSlots(st, i, s, b);
    FreeUnheld(st, b);
    forall f: nat, r: nat ensures AllottedAt(st, Give(st, i, s, b), i, {s}, f, r) { assert MoreAt(st, Give(st, i, s, b), i, s, b, f, r); }
  }

  lemma GiveEntryAllots(st: OkFs, i: nat, j: nat, b: nat)
    requires i < |st.inodes| && j < NINDIRECT && st.inodes[i].addrs[NDIRECT] != 0 && st.inodes[i].typ != 0
    requires st.At(i, NDIRECT + 1 + j) == 0 && IsFree(st, b)
    ensures GiveEntry(st, i, j, b).Ok() && Allotted(st, GiveEntry(st, i, j, b), i, {NDIRECT + 1 + j})
  {
    GiveEntryOk(st, i, j, b);
    GiveEntrySlots(st, i, j, b);
    FreeUnheld(st, b);
    var t, s := GiveEntry(st, i, j, b), NDIRECT + 1 + j;
    forall f: nat, r: nat ensures AllottedAt(st, t, i, {s}, f, r) { assert MoreAt(st, t, i, s, b, f, r); }
  }

  lemma PutAllots(st: OkFs, i: nat, off: nat, src: seq<Byte>)
    requires i < |st.inodes| && st.Has(i, off) && off % BSIZE + |src| <= BSIZE
    ensures Put(st, i, off, src).Ok() && Allotted(st, Put(st, i, off, src), i, {})
  {
    PutOk(st, i, off, src);
    forall f: nat, r: nat ensures AllottedAt(st, Put(st, i, off, src), i, {}, f, r) {
      if f < |st.inodes| && r < SLOTS { PutSlots(st, i, off, src, f, r); }
    }
  }

  /** `k` bytes more, within one block: the blocks wanted are those by which BlocksFor grows. */
  lemma ExactOn(s0: OkFs, st: OkFs, i: nat, off: nat, k: nat)
    requires i < |s0.inodes| && Exact(s0, i, off) && 0 < k && off % BSIZE + k <= BSIZE && off / BSIZE < MAXFILE
    ensures Want(s0, i, off / BSIZE) == BlocksFor(off + k) - BlocksFor(off)
    ensures Allotted(s0, st, i, SlotsFor(off / BSIZE)) ==> Exact(st, i, off + k)
  {
    var fbn := off / BSIZE;
    Growth(off, k);
    assert ExactAt(s0, i, off, fbn);
    if Allotted(s0, st, i, SlotsFor(fbn)) {
      var n := off + k;
      forall bn: nat ensures ExactAt(st, i, n, bn) {
        assert ExactAt(s0, i, off, bn) && AllottedAt(s0, st, i, SlotsFor(fbn), i, FileSlot(bn));
        Before(bn, off, k);
      }
      assert AllottedAt(s0, st, i, SlotsFor(fbn), i, NDIRECT);
    }
  }

  lemma Before(bn: nat, off: nat, k: nat)
    requires 0 < k && off % BSIZE + k <= BSIZE
    ensures bn * BSIZE < off + k <==> bn * BSIZE < off || bn == off / BSIZE
  {
  }

  lemma Growth(off: nat, k: nat)
    requires 0 < k && off % BSIZE + k <= BSIZE
    ensures BlocksFor(off + k) - BlocksFor(off) == (if off % BSIZE == 0 then 1 else 0) + (if off == NDIRECT * BSIZE then 1 else 0)
    ensures off / BSIZE * BSIZE < off <==> off % BSIZE != 0
    ensures off / BSIZE >= NDIRECT <==> off >= NDIRECT * BSIZE
    ensures off + k > NDIRECT * BSIZE <==> off >= NDIRECT * BSIZE
  {
    Ceiling(off, off / BSIZE, off % BSIZE);
    if off % BSIZE + k < BSIZE { Ceiling(off + k, off / BSIZE, off % BSIZE + k); } else { Ceiling(off + k, off / BSIZE + 1, 0); }
  }

  lemma Ceiling(n: nat, q: nat, r: nat)
    requires n == q * BSIZE + r && r < BSIZE
    ensures (n + BSIZE - 1) / BSIZE == if r == 0 then q else q + 1
  {
  }

  lemma BlocksUp(m: nat, n: nat)
    requires m <= n
    ensures BlocksFor(m) <= BlocksFor(n)
  {
    assert (m + BSIZE - 1) / BSIZE <= (n + BSIZE - 1) / BSIZE;
  }

  // The steps of iappend on the image, of which the blocks up to `f` are taken.

  /** The first `f` blocks are marked, and those after them untouched. */
  ghost predicate Base(s: OkFs, f: nat)
  {
    f <= |s.data| == FSSIZE && forall b: nat :: BaseAt(s, f, b)
  }

  ghost predicate BaseAt(s: OkFs, f: nat, b: nat)
    requires f <= FSSIZE
  {
    s.meta == NMETA <= f && s.bitmap == FirstBits(f) && (f <= b < |s.data| ==> s.data[b] == ZeroBlock())
  }

  lemma BaseFree(s: OkFs, f: nat)
    requires Base(s, f) && f < FSSIZE
    ensures IsFree(s, f) && s.bitmap == FirstBits(f) && SetBit(s.bitmap, f) == FirstBits(f + 1)
  {
    assert BaseAt(s, f, f);
    FirstBitsAt(f, f);
  }

  lemma BaseHeld(s: OkFs, f: nat, i: nat, r: nat)
    requires Base(s, f) && i < |s.inodes| && r < SLOTS && s.At(i, r) != 0
    ensures s.At(i, r) < f
  {
    assert BaseAt(s, f, f);
    HolderIs(s, i, r, s.At(i, r));
    FirstBitsAt(f, s.At(i, r));
  }

  lemma EntryWord(s: OkFs, f: nat, i: nat, j: nat)
    requires Base(s, f) && i < |s.inodes| && j < NINDIRECT && s.At(i, NDIRECT) != 0
    ensures s.inodes[i].addrs[NDIRECT] == s.At(i, NDIRECT) < |s.data| && GetWord(s.data[s.At(i, NDIRECT)], j) == s.At(i, NDIRECT + 1 + j)
  {
    BaseHeld(s, f, i, NDIRECT);
  }

  ghost predicate Ready(s: OkFs, i: nat, f: nat) { Base(s, f) && i < |s.inodes| && s.inodes[i].typ != 0 }

  /** From `s` to `t` slot `r` of inode `i` got a block from the allocator if it had none, which then stands at `g`. */
  ghost predicate Took(s: OkFs, f: nat, t: OkFs, g: nat, i: nat, r: nat)
  {
    && i < |s.inodes| && r < SLOTS && Ready(t, i, g) && g == f + Lacks(s, i, r) && t.At(i, r) != 0
    && SameHeads(s, t) && Allotted(s, t, i, {r}) && Reads(s, t, i, r)
  }

  /** A data block more reads as zeros; an indirect block changes no file. */
  ghost predicate Reads(s: OkFs, t: OkFs, i: nat, r: nat)
  {
    if r == NDIRECT then SameSnap(s, t) else OneBlockMore(Snap(s), Snap(t), i, if r < NDIRECT then r else r - 1)
  }

  lemma TookNothing(s: OkFs, i: nat, r: nat, f: nat)
    requires Ready(s, i, f) && r < SLOTS && s.At(i, r) != 0
    ensures Took(s, f, s, f, i, r)
  {
    forall f: nat ensures SameHead(s, s, f) { }
    forall f: nat, q: nat ensures AllottedAt(s, s, i, {r}, f, q) { }
    if r == NDIRECT {
      forall f: nat, p: nat ensures SameByte(s, s, f, p) { }
    } else {
      var bn := if r < NDIRECT then r else r - 1;
      forall f: nat, p: nat ensures OneMoreAt(Snap(s), Snap(s), i, bn, f, p) { }
    }
  }

  lemma GiveReady(s: OkFs, i: nat, k: nat, f: nat)
    requires Ready(s, i, f) && k <= NDIRECT && f < FSSIZE && s.At(i, k) == 0
    ensures IsFree(s, f) && Give(s, i, k, f).Ok() && Ready(Give(s, i, k, f), i, f + 1) && SameHeads(s, Give(s, i, k, f)) && Give(s, i, k, f).At(i, k) == f
  {
    BaseFree(s, f);
    GiveOk(s, i, k, f);
    var t, n := Give(s, i, k, f), f + 1;
    forall b: nat ensures BaseAt(t, n, b) { assert BaseAt(s, f, b); }
  }

  lemma TookAddr(s: OkFs, i: nat, k: nat, f: nat)
    requires Ready(s, i, f) && k <= NDIRECT && f < FSSIZE && s.At(i, k) == 0
    ensures Give(s, i, k, f).Ok() && Took(s, f, Give(s, i, k, f), f + 1, i, k) && Give(s, i, k, f).At(i, k) == f
    ensures Give(s, i, k, f).data == s.data && Give(s, i, k, f).inodes == s.inodes[i := s.inodes[i].(addrs := s.inodes[i].addrs[k := f])]
  {
    assert BaseAt(s, f, f);
    GiveReady(s, i, k, f);
    GiveAllots(s, i, k, f);
    GiveEffect(s, i, k, f);
  }

  lemma GiveEntryReady(s: OkFs, i: nat, j: nat, f: nat)
    requires Ready(s, i, f) && j < NINDIRECT && f < FSSIZE && s.At(i, NDIRECT) != 0 && s.At(i, NDIRECT + 1 + j) == 0
    ensures IsFree(s, f) && s.inodes[i].addrs[NDIRECT] == s.At(i, NDIRECT) < FSSIZE && GiveEntry(s, i, j, f).Ok()
    ensures var t := GiveEntry(s, i, j, f); Ready(t, i, f + 1) && SameHeads(s, t) && t.At(i, NDIRECT + 1 + j) == f
  {
    BaseFree(s, f);
    BaseHeld(s, f, i, NDIRECT);
    assert s.At(i, NDIRECT) == s.inodes[i].addrs[NDIRECT];
    GiveEntryOk(s, i, j, f);
    var t, n := GiveEntry(s, i, j, f), f + 1;
    forall b: nat ensures BaseAt(t, n, b) { assert BaseAt(s, f, b); }
  }

  lemma TookEntry(s: OkFs, i: nat, j: nat, f: nat)
    requires Ready(s, i, f) && j < NINDIRECT && f < FSSIZE && s.At(i, NDIRECT) != 0 && s.At(i, NDIRECT + 1 + j) == 0
    ensures s.inodes[i].addrs[NDIRECT] == s.At(i, NDIRECT) < FSSIZE && GiveEntry(s, i, j, f).Ok() && GiveEntry(s, i, j, f).inodes == s.inodes
    ensures Took(s, f, GiveEntry(s, i, j, f), f + 1, i, NDIRECT + 1 + j) && GiveEntry(s, i, j, f).At(i, NDIRECT + 1 + j) == f
    ensures GiveEntry(s, i, j, f).data == s.data[s.At(i, NDIRECT) := PutWord(s.data[s.At(i, NDIRECT)], j, f)]
  {
    GiveEntryReady(s, i, j, f);
    GiveEntryAllots(s, i, j, f);
    GiveEntryEffect(s, i, j, f);
    assert BaseAt(s, f, f);
  }

  /** From `s` to `t` inode `i` got the block for file block `fbn`, and if need be the indirect block. */
  ghost predicate Placed(s: OkFs, f: nat, t: OkFs, g: nat, i: nat, fbn: nat)
  {
    && i < |s.inodes| && fbn < MAXFILE && Ready(t, i, g) && g == f + Want(s, i, fbn) && t.At(i, FileSlot(fbn)) != 0
    && SameHeads(s, t) && Allotted(s, t, i, SlotsFor(fbn)) && OneBlockMore(Snap(s), Snap(t), i, fbn)
  }

  lemma NearPlaced(s: OkFs, f: nat, t: OkFs, g: nat, i: nat, fbn: nat)
    requires Took(s, f, t, g, i, fbn) && fbn < NDIRECT
    ensures Placed(s, f, t, g, i, fbn)
  {
  }

  lemma FarPlaced(s: OkFs, f: nat, u: OkFs, g: nat, t: OkFs, h: nat, i: nat, fbn: nat)
    requires Took(s, f, u, g, i, NDIRECT) && Took(u, g, t, h, i, fbn + 1) && NDIRECT <= fbn < MAXFILE
    ensures Placed(s, f, t, h, i, fbn)
  {
    assert AllottedAt(s, u, i, {NDIRECT}, i, fbn + 1);
    SameThenMore(s, u, t, i, fbn);
    AllottedTwice(s, u, t, i, {NDIRECT}, {fbn + 1});
    assert {NDIRECT} + {fbn + 1} == SlotsFor(fbn);
  }

  /** One round of iappend's loop, from `s` to `t`: the bytes lo..hi of `p` went to off + lo. */
  ghost predicate Once(s: OkFs, f: nat, t: OkFs, g: nat, i: nat, off: nat, p: seq<Byte>, lo: nat, hi: nat)
  {
    && i < |s.inodes| && lo < hi <= |p| && off + hi <= MAXFILE * BSIZE && Ready(t, i, g) && g == f + BlocksFor(off + hi) - BlocksFor(off + lo)
    && SameHeads(s, t) && Exact(t, i, off + hi) && OthersKept(s, t, i) && Appended(Snap(s), Snap(t), i, off, p, lo, hi)
  }

  lemma OnceDoes(s: OkFs, f: nat, u: OkFs, g: nat, i: nat, off: nat, p: seq<Byte>, lo: nat, hi: nat)
    requires Placed(s, f, u, g, i, (off + lo) / BSIZE) && lo < hi <= |p| && (off + lo) % BSIZE + hi - lo <= BSIZE && Exact(s, i, off + lo)
    ensures u.Has(i, off + lo) && Put(u, i, off + lo, p[lo..hi]).Ok() && Once(s, f, Put(u, i, off + lo, p[lo..hi]), g, i, off, p, lo, hi)
  {
    assert u.Has(i, off + lo);
    PutDoes(u, i, off + lo, p[lo..hi], g);
    OnceFrom(s, u, Put(u, i, off + lo, p[lo..hi]), i, off, p, lo, hi);
    ExactOn(s, s, i, off + lo, hi - lo);
  }

  lemma PutDoes(s: OkFs, i: nat, off: nat, src: seq<Byte>, f: nat)
    requires Ready(s, i, f) && s.Has(i, off) && off % BSIZE + |src| <= BSIZE
    ensures Put(s, i, off, src).Ok() && Ready(Put(s, i, off, src), i, f) && SameHeads(s, Put(s, i, off, src))
    ensures Allotted(s, Put(s, i, off, src), i, {}) && Stored(Snap(s), Snap(Put(s, i, off, src)), i, off, src)
  {
    PutAllots(s, i, off, src);
    PutStores(s, i, off, src);
    PutReady(s, i, off, src, f);
  }

  lemma OnceFrom(s: OkFs, u: OkFs, t: OkFs, i: nat, off: nat, p: seq<Byte>, lo: nat, hi: nat)
    requires i < |s.inodes| && lo < hi <= |p| && (off + lo) % BSIZE + hi - lo <= BSIZE && Exact(s, i, off + lo) && (off + lo) / BSIZE < MAXFILE
    requires SameHeads(s, u) && Allotted(s, u, i, SlotsFor((off + lo) / BSIZE)) && OneBlockMore(Snap(s), Snap(u), i, (off + lo) / BSIZE)
    requires SameHeads(u, t) && Allotted(u, t, i, {}) && Stored(Snap(u), Snap(t), i, off + lo, p[lo..hi])
    ensures SameHeads(s, t) && Exact(t, i, off + hi) && OthersKept(s, t, i) && Appended(Snap(s), Snap(t), i, off, p, lo, hi)
  {
    SameHeadsMore(s, u, t);
    AllottedTwice(s, u, t, i, SlotsFor((off + lo) / BSIZE), {});
    Wanted(s, t, i, off + lo, hi - lo);
    AppendedOnce(Snap(s), Snap(u), Snap(t), i, off, p, lo, hi);
  }

  lemma PutReady(s: OkFs, i: nat, off: nat, src: seq<Byte>, f: nat)
    requires Ready(s, i, f) && s.Has(i, off) && off % BSIZE + |src| <= BSIZE
    ensures Put(s, i, off, src).Ok() && Ready(Put(s, i, off, src), i, f)
  {
    PutOk(s, i, off, src);
    BaseHeld(s, f, i, FileSlot(off / BSIZE));
    var t := Put(s, i, off, src);
    forall b: nat ensures BaseAt(t, f, b) { assert BaseAt(s, f, b); }
  }

  /** Where iappend's loop stands: since `s0`, of which `f0` blocks were taken, the first `done` bytes of `p` went in
      after the `off` bytes that inode `i` had. */
  ghost predicate Going(s0: OkFs, f0: nat, st: OkFs, f: nat, i: nat, off: nat, p: seq<Byte>, done: nat)
  {
    && Ready(st, i, f) && i < |s0.inodes| && done <= |p| && f == f0 + BlocksFor(off + done) - BlocksFor(off)
    && Growing(s0, st, i, off, p, done) && Exact(st, i, off + done) && OthersKept(s0, st, i)
  }

  lemma GoOn(s0: OkFs, f0: nat, st: OkFs, f: nat, t: OkFs, g: nat, i: nat, off: nat, p: seq<Byte>, done: nat, n: nat)
    requires Going(s0, f0, st, f, i, off, p, done)
    requires Once(st, f, t, g, i, off, p, done, n)
    ensures Going(s0, f0, t, g, i, off, p, n)
  {
    GrowOn(s0, st, t, i, off, p, done, n);
    OthersKeptTwice(s0, st, t, i);
  }

  /** The image is whole: the first `f` blocks are taken and are those that the files hold, the inodes from `n` on are
      free, and beyond its end every file has only the zeros that fill its last block. */
  ghost predicate WholeOf(st: OkFs, f: nat, n: nat)
  {
    |st.inodes| == NINODES && 0 < n <= NINODES && f == NMETA + Held(View(st)) <= FSSIZE && forall i: nat :: WholeAt(st, f, n, i)
  }

  ghost predicate WholeAt(st: OkFs, f: nat, n: nat, i: nat)
  {
    && Base(st, f) && Tails(st) && Lean(st)
    && (n <= i < |st.inodes| ==> st.inodes[i].typ == 0)
  }

  lemma BlankWhole()
    ensures Blank().Ok() && WholeOf(Blank(), NMETA, 1) && View(Blank()) == NoNodes()
  {
    BlankOk();
    NoFiles(Blank());
    HeldNothing(NINODES);
    forall b: nat ensures BaseAt(Blank(), NMETA, b) { }
    forall i: nat ensures WholeAt(Blank(), NMETA, 1, i) { }
  }

  lemma FreshWhole(st: OkFs, f: nat, n: nat, typ: nat)
    requires WholeOf(st, f, n) && n < NINODES && typ != 0
    ensures Fresh(st, n, typ, 1).Ok() && WholeOf(Fresh(st, n, typ, 1), f, n + 1) && View(Fresh(st, n, typ, 1)) == View(st)[n := Node(typ, 1, [])]
  {
    assert WholeAt(st, f, n, n) && st.Mapped(n);
    FreshTails(st, n, typ);
    FreshLean(st, n, typ);
    HeldUpdate(View(st), n, Node(typ, 1, []));
    var t, m := Fresh(st, n, typ, 1), n + 1;
    AppendBase(st, t, f);
    forall i: nat ensures WholeAt(t, f, m, i) { assert WholeAt(st, f, n, i); }
  }

  /** What iappend leaves once the inode is written back. */
  lemma AppendWhole(s0: OkFs, f0: nat, st: OkFs, f: nat, i: nat, p: seq<Byte>, n: nat) returns (t: OkFs)
    requires WholeOf(s0, f0, n) && i < n && s0.inodes[i].typ != 0 && Going(s0, f0, st, f, i, s0.inodes[i].size, p, |p|)
    ensures t.inodes == st.inodes[i := st.inodes[i].(size := s0.inodes[i].size + |p|)] && t.data == st.data
    ensures WholeOf(t, f, n) && View(t) == More(View(s0), i, p)
  {
    assert WholeAt(s0, f0, n, i);
    t := Lengthened(s0, st, i, p);
    HeldMore(View(s0), i, p);
    AppendBase(st, t, f);
    forall k: nat ensures WholeAt(t, f, n, k) { assert WholeAt(s0, f0, n, k) && SameHead(s0, st, k); }
  }

  lemma AppendBase(st: OkFs, t: OkFs, f: nat)
    requires Base(st, f) && t.meta == st.meta && t.data == st.data && t.bitmap == st.bitmap
    ensures Base(t, f)
  {
    forall b: nat ensures BaseAt(t, f, b) { assert BaseAt(st, f, b); }
  }

  class Image {
    var freeblock: nat
    var freeinode: nat
    var dinodes: seq<Inode>
    var data: seq<Block>
    ghost var st: OkFs    // the image with din written back and the bitmap of balloc(freeblock)

    ghost predicate Valid(ip: Mem)
      reads this, ip
    {
      ip.inum < |dinodes| && st.inodes == dinodes[ip.inum := ip.ino] && st.data == data && Ready(st, ip.inum, freeblock)
    }

    /** A block from the bump allocator; None when the image is full. */
    method Grab() returns (b: Option<nat>)
      modifies this`freeblock
      ensures b.None? <==> old(freeblock) >= |data|
      ensures if b.None? then freeblock == old(freeblock) else b.value == old(freeblock) && freeblock == b.value + 1
    {
      b := None;
      if freeblock < |data| {
        b := Some(freeblock);
        freeblock := freeblock + 1;
      }
    }

    /** Address `k` of the inode, from the allocator if it was 0. */
    method MapAddr(ip: Mem, k: nat) returns (x: Option<nat>)
      requires Valid(ip) && k <= NDIRECT
      modifies this`freeblock, this`st, ip
      ensures x.None? <==> old(freeblock) + Lacks(old(st), ip.inum, k) > FSSIZE
      ensures x.Some? ==> Valid(ip) && Took(old(st), old(freeblock), st, freeblock, ip.inum, k) && x.value == st.At(ip.inum, k)
    {
      assert st.inodes[ip.inum] == ip.ino;
      var addr := ip.ino.addrs[k];
      assert addr == st.At(ip.inum, k);
      x := Some(addr);
      if addr == 0 {
        ghost var f := freeblock;
        x := Grab();
        if x.Some? {
          TookAddr(st, ip.inum, k, f);
          ip.ino := ip.ino.(addrs := ip.ino.addrs[k := x.value]);
          st := Give(st, ip.inum, k, f);
        }
      } else {
        TookNothing(st, ip.inum, k, freeblock);
      }
    }

    /** Entry `j` of the indirect block, from the allocator if it was 0. */
    method MapEntry(ip: Mem, j: nat) returns (x: Option<nat>)
      requires Valid(ip) && j < NINDIRECT && st.At(ip.inum, NDIRECT) != 0
      modifies this`freeblock, this`st, this`data
      ensures x.None? <==> old(freeblock) + Lacks(old(st), ip.inum, NDIRECT + 1 + j) > FSSIZE
      ensures x.Some? ==> Valid(ip) && Took(old(st), old(freeblock), st, freeblock, ip.inum, NDIRECT + 1 + j)
      ensures x.Some? ==> x.value == st.At(ip.inum, NDIRECT + 1 + j)
    {
      assert st.inodes[ip.inum] == ip.ino;
      EntryWord(st, freeblock, ip.inum, j);
      var ind := ip.ino.addrs[NDIRECT];
      var addr := GetWord(data[ind], j);
      x := Some(addr);
      if addr == 0 {
        ghost var f := freeblock;
        x := Grab();
        if x.Some? {
          TookEntry(st, ip.inum, j, f);
          data := data[ind := PutWord(data[ind], j, x.value)];
          st := GiveEntry(st, ip.inum, j, f);
        }
      } else {
        TookNothing(st, ip.inum, NDIRECT + 1 + j, freeblock);
      }
    }

    /** iappend's choice of the block for file block `fbn`; None is its assertion, or a full image. */
    method MapBlock(ip: Mem, fbn: nat) returns (x: Option<nat>)
      requires Valid(ip)
      modifies this`freeblock, this`st, this`data, ip
      ensures x.None? <==> fbn >= MAXFILE || old(freeblock) + Want(old(st), ip.inum, fbn) > FSSIZE
      ensures x.Some? ==> Valid(ip) && Placed(old(st), old(freeblock), st, freeblock, ip.inum, fbn) && x.value == st.At(ip.inum, FileSlot(fbn))
    {
      if fbn >= MAXFILE {
        x := None;
      } else if fbn < NDIRECT {
        x := MapAddr(ip, fbn);
      } else {
        x := MapFar(ip, fbn);
      }
    }

    method MapFar(ip: Mem, fbn: nat) returns (x: Option<nat>)
      requires Valid(ip) && NDIRECT <= fbn < MAXFILE
      modifies this`freeblock, this`st, this`data, ip
      ensures x.None? <==> old(freeblock) + Want(old(st), ip.inum, fbn) > FSSIZE
      ensures x.Some? ==> Valid(ip) && Placed(old(st), old(freeblock), st, freeblock, ip.inum, fbn) && x.value == st.At(ip.inum, fbn + 1)
    {
      x := MapAddr(ip, NDIRECT);
      if x.Some? {
        ghost var u, g := st, freeblock;
        assert AllottedAt(old(st), u, ip.inum, {NDIRECT}, ip.inum, fbn + 1);
        x := MapEntry(ip, fbn - NDIRECT);
        if x.Some? { FarPlaced(old(st), old(freeblock), u, g, st, freeblock, ip.inum, fbn); }
      }
    }

    /** iappend's copy into one block. */
    method CopyIn(ip: Mem, at: nat, x: nat, piece: seq<Byte>)
      requires Valid(ip) && at / BSIZE < MAXFILE && st.At(ip.inum, FileSlot(at / BSIZE)) == x != 0 && at % BSIZE + |piece| <= BSIZE
      modifies this`data, this`st
      ensures Valid(ip) && old(st).Has(ip.inum, at) && st == Put(old(st), ip.inum, at, piece)
    {
      BaseHeld(st, freeblock, ip.inum, FileSlot(at / BSIZE));
      PutReady(st, ip.inum, at, piece, freeblock);
      data := data[x := Splice(data[x], at % BSIZE, piece)];
      st := Put(st, ip.inum, at, piece);
    }

    /** One round of iappend's loop. */
    method AppendOnce(ip: Mem, off: nat, p: seq<Byte>, lo: nat, hi: nat) returns (ok: bool)
      requires Valid(ip) && lo < hi <= |p| && (off + lo) % BSIZE + hi - lo <= BSIZE && Exact(st, ip.inum, off + lo)
      modifies this`freeblock, this`st, this`data, ip
      ensures ok <==> (off + lo) / BSIZE < MAXFILE && old(freeblock) + Want(old(st), ip.inum, (off + lo) / BSIZE) <= FSSIZE
      ensures ok ==> Valid(ip) && Once(old(st), old(freeblock), st, freeblock, ip.inum, off, p, lo, hi)
    {
      var fbn := (off + lo) / BSIZE;
      var x := MapBlock(ip, fbn);
      ok := x.Some?;
      if ok {
        OnceDoes(old(st), old(freeblock), st, freeblock, ip.inum, off, p, lo, hi);
        CopyIn(ip, off + lo, x.value, p[lo..hi]);
      }
    }

    /** The next piece of iappend's loop. */
    method AppendRound(ip: Mem, off: nat, p: seq<Byte>, done: nat, ghost s0: OkFs, ghost f0: nat) returns (n1: Option<nat>)
      requires Valid(ip) && Going(s0, f0, st, freeblock, ip.inum, off, p, done) && done < |p|
      modifies this`freeblock, this`st, this`data, ip
      ensures n1.Some? ==> done < n1.value && Valid(ip) && Going(s0, f0, st, freeblock, ip.inum, off, p, n1.value)
      ensures n1.None? ==> !Room(f0, off, |p|)
    {
      n1 := None;
      var n := done + Step(off, |p|, done);
      ghost var s, f := st, freeblock;
      RoundRoom(s0, f0, s, f, ip.inum, off, p, done, n);
      var ok := AppendOnce(ip, off, p, done, n);
      if ok {
        GoOn(s0, f0, s, f, st, freeblock, ip.inum, off, p, done, n);
        n1 := Some(n);
      }
    }

    /** iappend's loop: all of `p` goes in after the `off` bytes the file has, exactly if there is room. */
    method AppendAll(ip: Mem, off: nat, p: seq<Byte>) returns (ok: bool)
      requires Valid(ip) && off <= MAXFILE * BSIZE && Exact(st, ip.inum, off)
      modifies this`freeblock, this`st, this`data, ip
      ensures ok <==> Room(old(freeblock), off, |p|)
      ensures ok ==> Valid(ip) && Going(old(st), old(freeblock), st, freeblock, ip.inum, off, p, |p|)
    {
      var done := 0;
      ok := true;
      GrowNone(st, ip.inum, off, p);
      while ok && done < |p|
        invariant 0 <= done <= |p|
        invariant if ok then Valid(ip) && Going(old(st), old(freeblock), st, freeblock, ip.inum, off, p, done) else !Room(old(freeblock), off, |p|)
        decreases ok, |p| - done
      {
        var n1 := AppendRound(ip, off, p, done, old(st), old(freeblock));
        ok := n1.Some?;
        if ok { done := n1.value; }
      }
    }

    ghost predicate Whole()
      reads this
    {
      st.inodes == dinodes && st.data == data && WholeOf(st, freeblock, freeinode)
    }

    /** The image before any inode. */
    constructor ()
      ensures Whole() && View(st) == NoNodes() && freeinode == 1 && freeblock == NMETA
    {
      BlankWhole();
      freeblock, freeinode := NMETA, 1;
      dinodes, data := seq(NINODES, _ => Inode(0, 0, 0, ZeroAddrs())), seq(FSSIZE, _ => ZeroBlock());
      st := Blank();
    }

    /** ialloc: the next inode, linked once and empty; None when there is no further inode. */
    method Ialloc(typ: nat) returns (r: Option<nat>)
      requires Whole() && typ != 0
      modifies this`dinodes, this`freeinode, this`st
      ensures Whole()
      ensures r.None? <==> old(freeinode) == NINODES
      ensures r.None? ==> st == old(st) && freeinode == old(freeinode)
      ensures r.Some? ==> r.value == old(freeinode) && freeinode == r.value + 1
      ensures r.Some? ==> View(st) == View(old(st))[r.value := Node(typ, 1, [])]
    {
      r := None;
      if freeinode < NINODES {
        FreshWhole(st, freeblock, freeinode, typ);
        r := Some(freeinode);
        dinodes := dinodes[freeinode := Inode(typ, 1, 0, ZeroAddrs())];
        st := Fresh(st, freeinode, typ, 1);
        freeinode := freeinode + 1;
      }
    }

    /** iappend: the file is longer by `p` and no other file changed, exactly if it is not too long then and the image
        has the blocks. */
    method Iappend(inum: nat, p: seq<Byte>) returns (ok: bool)
      requires Whole() && inum < freeinode && dinodes[inum].typ != 0
      modifies this`dinodes, this`freeblock, this`data, this`st
      ensures ok <==> Fitting(View(old(st)), inum, p)
      ensures ok ==> Whole() && View(st) == More(View(old(st)), inum, p)
    {
      var ip := new Mem(inum, dinodes[inum]);
      var off := ip.ino.size;
      FittingIs(st, freeblock, freeinode, inum, p);
      ok := AppendAll(ip, off, p);
      if ok { WriteBack(ip, p, old(st), old(freeblock)); }
    }

    /** iappend's end: the inode, longer now, goes back to the image. */
    method WriteBack(ip: Mem, p: seq<Byte>, ghost s0: OkFs, ghost f0: nat)
      requires Valid(ip) && WholeOf(s0, f0, freeinode) && ip.inum < freeinode && s0.inodes[ip.inum].typ != 0
      requires Going(s0, f0, st, freeblock, ip.inum, s0.inodes[ip.inum].size, p, |p|)
      modifies this`dinodes, this`st
      ensures Whole() && View(st) == More(View(s0), ip.inum, p)
    {
      ghost var t := AppendWhole(s0, f0, st, freeblock, ip.inum, p, freeinode);
      assert SameHead(s0, st, ip.inum);
      var ino := ip.ino.(size := ip.ino.size + |p|);
      assert t.inodes == dinodes[ip.inum := ino];
      dinodes := dinodes[ip.inum := ino];
      st := t;
    }

    /** File `inum` has got the first `done` bytes of `data` since the image held `v`. */
    ghost predicate CopiedTo(inum: nat, data: seq<Byte>, done: nat, v: seq<Node>)
      reads this
    {
      Whole() && inum < freeinode && inum < |v| && v[inum].typ != 0 && done <= |data| && View(st) == More(v, inum, data[..done])
    }

    method CopyRound(inum: nat, data: seq<Byte>, done: nat, ghost v: seq<Node>) returns (n: Option<nat>)
      requires CopiedTo(inum, data, done, v) && done < |data| && v[inum].content == []
      modifies this`dinodes, this`freeblock, this`data, this`st
      ensures n.Some? ==> CopiedTo(inum, data, n.value, v) && done < n.value
      ensures n.None? ==> !Fitting(v, inum, data)
    {
      n := None;
      var cc := if |data| - done < BSIZE then |data| - done else BSIZE;
      CopyNext(v, inum, data, done, done + cc);
      Types(st, More(v, inum, data[..done]), inum);
      var ok := Iappend(inum, data[done..done + cc]);
      if ok { n := Some(done + cc); }
    }

    /** main's read loop: file `inum` gets `data`, a buffer at a time. */
    method CopyFile(inum: nat, data: seq<Byte>) returns (ok: bool)
      requires Whole() && inum < freeinode && dinodes[inum].typ != 0 && View(st)[inum].content == []
      modifies this`dinodes, this`freeblock, this`data, this`st
      ensures ok <==> Fitting(View(old(st)), inum, data)
      ensures ok ==> Whole() && View(st) == More(View(old(st)), inum, data)
    {
      var done := 0;
      ok := true;
      ghost var v := View(st);
      MoreNone(v, inum, data);
      while ok && done < |data|
        invariant if ok then CopiedTo(inum, data, done, v) else !Fitting(v, inum, data)
        decreases ok, |data| - done
      {
        var n := CopyRound(inum, data, done, v);
        ok := n.Some?;
        if ok { done := n.value; }
      }
      if ok {
        assert data[..done] == data;
        CopiedFits(st, freeblock, freeinode, v, inum, data);
      }
    }

    /** main's loop body: the inode, its entry in the root directory, its contents. */
    method AddFile(f: Input, ghost files: seq<Input>) returns (ok: bool)
      requires Whole() && View(st) == Built(files) && freeinode == 2 + |files|
      modifies this
      ensures ok <==> 2 + |files| < NINODES && |f.data| <= MAXFILE * BSIZE && NMETA + Held(Built(files + [f])) <= FSSIZE
      ensures ok ==> Whole() && View(st) == Built(files + [f]) && freeinode == 2 + |files| + 1
    {
      ok := false;
      var inum := Ialloc(T_FILE);
      if inum.Some? {
        FitsNext(files, f);
        OneMoreFile(files, f);
        ok := FillFile(inum.value, f, files);
      }
    }

    method FillFile(inum: nat, f: Input, ghost files: seq<Input>) returns (ok: bool)
      requires Whole() && inum == 2 + |files| < NINODES && View(st) == Added(files) && freeinode == 3 + |files|
      modifies this`dinodes, this`freeblock, this`data, this`st
      ensures ok <==> Fitting(Added(files), ROOTINO, Entry(inum, f.name)) && Fitting(Listed(files, f), inum, f.data)
      ensures ok ==> Whole() && View(st) == More(Listed(files, f), inum, f.data)
    {
      Types(st, Added(files), ROOTINO);
      ok := Iappend(ROOTINO, Entry(inum, f.name));
      if ok {
        Types(st, Listed(files, f), inum);
        ok := CopyFile(inum, f.data);
      }
    }

    /** The root directory with its two entries for itself. */
    method MakeRoot() returns (ok: bool)
      requires Whole() && View(st) == NoNodes() && freeinode == 1
      modifies this
      ensures ok && Whole() && View(st) == Built([]) && freeinode == 2
    {
      RootOnly();
      var root := Ialloc(T_DIR);
      ghost var v := View(st);
      RootFits(v);
      Types(st, v, ROOTINO);
      ok := Iappend(ROOTINO, Entry(ROOTINO, DOT));
      if ok {
        Types(st, More(v, ROOTINO, Entry(ROOTINO, DOT)), ROOTINO);
        ok := Iappend(ROOTINO, Entry(ROOTINO, DOT + DOT));
      }
    }

    /** The first `k` files are in. */
    ghost predicate Holds(files: seq<Input>, k: nat)
      reads this
    {
      k <= |files| && Whole() && View(st) == Built(files[..k]) && freeinode == 2 + k && !Refused(files[..k])
    }

    method AddOne(files: seq<Input>, k: nat) returns (ok: bool)
      requires Holds(files, k) && k < |files|
      modifies this
      ensures if ok then Holds(files, k + 1) else !Buildable(files)
    {
      AddNext(files, k);
      ok := AddFile(files[k], files[..k]);
    }

    /** main's loop over the files. */
    method AddAll(files: seq<Input>) returns (ok: bool)
      requires Whole() && View(st) == Built([]) && freeinode == 2
      modifies this
      ensures ok <==> Buildable(files)
      ensures ok ==> Whole() && View(st) == Built(files) && freeinode == 2 + |files|
    {
      var k := 0;
      ok := true;
      assert files[..0] == [];
      while ok && k < |files|
        invariant 0 <= k <= |files|
        invariant if ok then Holds(files, k) else !Buildable(files)
        decreases ok, |files| - k
      {
        ok := AddOne(files, k);
        k := k + 1;
      }
      if ok {
        assert files[..k] == files;
        NeededIs(files);
      }
    }

    /** The end of main: the root's size, then the bitmap. */
    method Finish(files: seq<Input>) returns (bitmap: seq<Block>)
      requires Whole() && View(st) == Built(files) && freeinode == 2 + |files|
      modifies this`dinodes, this`st
      ensures Sound(bitmap, dinodes, data) <==> |files| % 64 != 62
      ensures |files| % 64 != 62 ==>
        && st == Fs(NMETA, bitmap, dinodes, data, st.owner)
        && View(st) == More(Built(files), ROOTINO, Zeros(BSIZE - |RootDir(files)| % BSIZE))
    {
      RootEnd(files);
      assert View(st)[ROOTINO] == NodeOf(files, ROOTINO);
      FixRoot();
      var bm := Balloc(freeblock);
      bitmap := bm.value;
    }

    /** main's fix of the root's size: up to the end of its last block, or a whole block further when it
        ends on a block boundary. The image is sound afterwards in the first case only. */
    method FixRoot()
      requires Whole() && freeinode > ROOTINO && dinodes[ROOTINO].typ != 0 && |View(st)[ROOTINO].content| / BSIZE < MAXFILE
      modifies this`dinodes, this`st
      ensures Sound(FirstBits(freeblock), dinodes, data) <==> |View(old(st))[ROOTINO].content| % BSIZE != 0
      ensures Sound(FirstBits(freeblock), dinodes, data) ==>
        && st == Fs(NMETA, FirstBits(freeblock), dinodes, data, st.owner)
        && View(st) == More(View(old(st)), ROOTINO, Zeros(BSIZE - |View(old(st))[ROOTINO].content| % BSIZE))
    {
      assert WholeAt(st, freeblock, freeinode, ROOTINO) && BaseAt(st, freeblock, 0);
      var size := dinodes[ROOTINO].size;
      var off := (size / BSIZE + 1) * BSIZE;
      FixedRoot(st, off, dinodes[ROOTINO := dinodes[ROOTINO].(size := off)]);
      dinodes := dinodes[ROOTINO := dinodes[ROOTINO].(size := off)];
      if size % BSIZE != 0 { st := Resize(st, ROOTINO, off); }
    }
  }

  // What the image holds.

  /** A file named on the command line. */
  datatype Input = Input(name: seq<Byte>, data: seq<Byte>)

  function Zeros(n: nat): seq<Byte> { seq(n, _ => 0) }

  const T_DIR := 1
  const T_FILE := 2
  const ROOTINO := 1
  const DIRSIZ := 14
  const ENTRY := 16

  /** A directory entry: a little-endian short and the name, cut or padded to DIRSIZ bytes. */
  function Entry(inum: nat, name: seq<Byte>): (e: seq<Byte>)
    ensures |e| == ENTRY
  {
    [inum % 256, inum / 256 % 256] + seq(DIRSIZ, i requires 0 <= i < DIRSIZ => if i < |name| then name[i] else 0)
  }

  const DOT: seq<Byte> := [46]

  /** The root directory: itself twice and then every file, in order. */
  function RootDir(files: seq<Input>): seq<Byte>
  {
    if files == [] then Entry(ROOTINO, DOT) + Entry(ROOTINO, DOT + DOT)
    else RootDir(files[..|files| - 1]) + Entry(1 + |files|, files[|files| - 1].name)
  }

  lemma {:induction false} RootLength(files: seq<Input>)
    ensures |RootDir(files)| == ENTRY * (2 + |files|)
  {
    if files != [] { RootLength(files[..|files| - 1]); }
  }

  function NodeOf(files: seq<Input>, i: nat): Node
  {
    if i == ROOTINO then Node(T_DIR, 1, RootDir(files))
    else if 2 <= i < 2 + |files| then Node(T_FILE, 1, files[i - 2].data) else Node(0, 0, [])
  }

  /** The inodes of an image with these files. */
  function Built(files: seq<Input>): (v: seq<Node>)
    ensures |v| == NINODES && forall i :: 0 <= i < NINODES ==> v[i] == NodeOf(files, i)
  {
    seq(NINODES, i requires 0 <= i < NINODES => NodeOf(files, i))
  }

  /** More files than inodes, or a file too long. */
  ghost predicate Refused(files: seq<Input>)
  {
    2 + |files| > NINODES || exists k: nat :: TooLong(files, k)
  }

  ghost predicate TooLong(files: seq<Input>, k: nat) { k < |files| && |files[k].data| > MAXFILE * BSIZE }

  /** The blocks that the files hold. */
  function Held(v: seq<Node>): nat
  {
    if v == [] then 0 else Held(v[..|v| - 1]) + BlocksFor(|v[|v| - 1].content|)
  }

  lemma {:induction false} HeldUpdate(v: seq<Node>, i: nat, x: Node)
    requires i < |v|
    ensures Held(v[i := x]) == Held(v) - BlocksFor(|v[i].content|) + BlocksFor(|x.content|)
  {
    var w, n := v[i := x], |v| - 1;
    if i < n {
      HeldUpdate(v[..n], i, x);
      assert w[..n] == v[..n][i := x];
    } else {
      assert w[..n] == v[..n];
    }
  }

  lemma HeldMore(v: seq<Node>, i: nat, p: seq<Byte>)
    requires i < |v|
    ensures Held(More(v, i, p)) == Held(v) - BlocksFor(|v[i].content|) + BlocksFor(|v[i].content| + |p|) >= Held(v)
  {
    HeldUpdate(v, i, v[i].(content := v[i].content + p));
    BlocksUp(|v[i].content|, |v[i].content| + |p|);
  }

  lemma {:induction false} HeldNothing(n: nat)
    ensures Held(seq(n, _ => Node(0, 0, []))) == 0
  {
    if n > 0 {
      assert seq(n, _ => Node(0, 0, []))[..n - 1] == seq(n - 1, _ => Node(0, 0, []));
      HeldNothing(n - 1);
    }
  }

  /** File `i` of the image can grow by `p`. */
  ghost predicate Fitting(v: seq<Node>, i: nat, p: seq<Byte>)
    requires i < |v|
  {
    |v[i].content| + |p| <= MAXFILE * BSIZE && NMETA + Held(More(v, i, p)) <= FSSIZE
  }

  lemma FittingPart(v: seq<Node>, i: nat, p: seq<Byte>, n: nat)
    requires i < |v| && n <= |p|
    ensures Fitting(v, i, p) ==> Fitting(v, i, p[..n])
  {
    HeldMore(v, i, p);
    HeldMore(v, i, p[..n]);
    BlocksUp(|v[i].content| + n, |v[i].content| + |p|);
  }

  /** The next piece fits exactly if the file up to its end does. */
  lemma CopyNext(v: seq<Node>, i: nat, p: seq<Byte>, m: nat, n: nat)
    requires i < |v| && m <= n <= |p|
    ensures More(More(v, i, p[..m]), i, p[m..n]) == More(v, i, p[..n])
    ensures Fitting(v, i, p) ==> Fitting(More(v, i, p[..m]), i, p[m..n])
  {
    MoreMore(v, i, p, m, n);
    FittingPart(v, i, p, n);
  }

  /** iappend's loop has room for `n` bytes at `off`, with `f` blocks taken. */
  predicate Room(f: nat, off: nat, n: nat) { off + n <= MAXFILE * BSIZE && f + BlocksFor(off + n) - BlocksFor(off) <= FSSIZE }

  /** A round has room exactly if the file so far fits, and if it has not then the whole has not. */
  lemma RoundRoom(s0: OkFs, f0: nat, st: OkFs, f: nat, i: nat, off: nat, p: seq<Byte>, done: nat, n: nat)
    requires Going(s0, f0, st, f, i, off, p, done) && done < |p| && n == done + Step(off, |p|, done)
    ensures done < n <= |p| && (off + done) % BSIZE + n - done <= BSIZE
    ensures (off + done) / BSIZE >= MAXFILE || f + Want(st, i, (off + done) / BSIZE) > FSSIZE ==> !Room(f0, off, |p|)
  {
    BlocksUp(off + n, off + |p|);
    if (off + done) / BSIZE < MAXFILE { ExactOn(st, st, i, off + done, n - done); }
  }

  lemma FittingIs(st: OkFs, f: nat, n: nat, i: nat, p: seq<Byte>)
    requires WholeOf(st, f, n) && i < n
    ensures Base(st, f) && st.inodes[i].size <= MAXFILE * BSIZE && Exact(st, i, st.inodes[i].size) && (Room(f, st.inodes[i].size, |p|) <==> Fitting(View(st), i, p))
  {
    assert WholeAt(st, f, n, i);
    SizeBound(st, i);
    HeldMore(View(st), i, p);
  }

  lemma Types(st: OkFs, v: seq<Node>, i: nat)
    requires View(st) == v && i < |v|
    ensures |st.inodes| == |v| && st.inodes[i].typ == v[i].typ
  {
    assert View(st)[i].typ == st.inodes[i].typ;
  }

  lemma CopiedFits(st: OkFs, f: nat, n: nat, v: seq<Node>, i: nat, p: seq<Byte>)
    requires WholeOf(st, f, n) && i < |v| && View(st) == More(v, i, p)
    ensures Fitting(v, i, p)
  {
    assert WholeAt(st, f, n, i);
    SizeBound(st, i);
  }

  lemma FreshLean(st: OkFs, i: nat, typ: nat)
    requires i < |st.inodes| && st.inodes[i].typ == 0 && Lean(st)
    ensures Fresh(st, i, typ, 1).Ok() && Lean(Fresh(st, i, typ, 1))
  {
    FreshOk(st, i, typ, 1);
    var t := Fresh(st, i, typ, 1);
    assert st.Mapped(i);
    assert st.inodes[i].addrs == ZeroAddrs();
    forall f, r | 0 <= f < |st.inodes| && 0 <= r < SLOTS ensures t.At(f, r) == st.At(f, r) { }
    forall f: nat | f < |t.inodes| ensures Exact(t, f, t.inodes[f].size) {
      assert Exact(st, f, st.inodes[f].size);
      forall bn: nat ensures ExactAt(t, f, t.inodes[f].size, bn) { assert ExactAt(st, f, st.inodes[f].size, bn); }
    }
  }

  /** Every inode holds exactly the blocks that its size takes. */
  ghost predicate Lean(st: OkFs) { forall i: nat :: i < |st.inodes| ==> Exact(st, i, st.inodes[i].size) }

  lemma SizeBound(st: OkFs, i: nat)
    requires i < |st.inodes|
    ensures |View(st)[i].content| == st.inodes[i].size <= MAXFILE * BSIZE
  {
    assert st.Mapped(i);
  }

  lemma RootFits(v: seq<Node>)
    requires |v| == NINODES && v == NoNodes()[ROOTINO := Node(T_DIR, 1, [])]
    ensures Fitting(v, ROOTINO, Entry(ROOTINO, DOT))
    ensures Fitting(More(v, ROOTINO, Entry(ROOTINO, DOT)), ROOTINO, Entry(ROOTINO, DOT + DOT))
  {
    HeldNothing(NINODES);
    HeldUpdate(NoNodes(), ROOTINO, Node(T_DIR, 1, []));
    HeldMore(v, ROOTINO, Entry(ROOTINO, DOT));
    HeldMore(More(v, ROOTINO, Entry(ROOTINO, DOT)), ROOTINO, Entry(ROOTINO, DOT + DOT));
  }

  function DataBlocks(files: seq<Input>): nat
  {
    if files == [] then 0 else DataBlocks(files[..|files| - 1]) + BlocksFor(|files[|files| - 1].data|)
  }

  /** The blocks that these files and the root directory take. */
  function Needed(files: seq<Input>): nat { DataBlocks(files) + BlocksFor(ENTRY * (2 + |files|)) }

  lemma {:induction false} NeededIs(files: seq<Input>)
    requires 2 + |files| <= NINODES
    ensures Held(Built(files)) == Needed(files)
  {
    if files == [] {
      HeldRoot();
    } else {
      var before, f := files[..|files| - 1], files[|files| - 1];
      NeededIs(before);
      assert before + [f] == files;
      HeldNext(before, f);
    }
  }

  lemma HeldRoot()
    ensures Held(Built([])) == BlocksFor(2 * ENTRY)
  {
    var v, e := NoNodes()[ROOTINO := Node(T_DIR, 1, [])], Entry(ROOTINO, DOT);
    RootOnly();
    HeldNothing(NINODES);
    HeldUpdate(NoNodes(), ROOTINO, Node(T_DIR, 1, []));
    HeldMore(v, ROOTINO, e);
    HeldMore(More(v, ROOTINO, e), ROOTINO, Entry(ROOTINO, DOT + DOT));
  }

  /** What one more file takes: its blocks, and now and then a block of the root directory. */
  lemma HeldNext(files: seq<Input>, f: Input)
    requires 2 + |files| < NINODES
    ensures Held(Listed(files, f)) == Held(Built(files)) + BlocksFor(ENTRY * (3 + |files|)) - BlocksFor(ENTRY * (2 + |files|))
    ensures Held(Built(files + [f])) == Held(Listed(files, f)) + BlocksFor(|f.data|)
  {
    var k := 2 + |files|;
    OneMoreFile(files, f);
    RootLength(files);
    HeldUpdate(Built(files), k, Node(T_FILE, 1, []));
    HeldMore(Added(files), ROOTINO, Entry(k, f.name));
    HeldMore(Listed(files, f), k, f.data);
  }

  lemma FitsNext(files: seq<Input>, f: Input)
    requires 2 + |files| < NINODES
    ensures Fitting(Added(files), ROOTINO, Entry(2 + |files|, f.name)) && Fitting(Listed(files, f), 2 + |files|, f.data) <==>
      |f.data| <= MAXFILE * BSIZE && NMETA + Held(Built(files + [f])) <= FSSIZE
  {
    HeldNext(files, f);
    OneMoreFile(files, f);
    RootLength(files);
  }

  /** With the new inode, and then with its entry in the root directory. */
  function Added(files: seq<Input>): (v: seq<Node>)
    requires 2 + |files| < NINODES
    ensures |v| == NINODES && v[ROOTINO] == Node(T_DIR, 1, RootDir(files)) && v[2 + |files|] == Node(T_FILE, 1, [])
  {
    Built(files)[2 + |files| := Node(T_FILE, 1, [])]
  }

  function Listed(files: seq<Input>, f: Input): (v: seq<Node>)
    requires 2 + |files| < NINODES
    ensures |v| == NINODES && v[2 + |files|] == Node(T_FILE, 1, [])
  {
    More(Added(files), ROOTINO, Entry(2 + |files|, f.name))
  }

  lemma {:induction false} NeededUp(files: seq<Input>, k: nat)
    requires k <= |files|
    ensures Needed(files[..k]) <= Needed(files)
  {
    BlocksUp(ENTRY * (2 + k), ENTRY * (2 + |files|));
    DataUp(files, k);
  }

  lemma {:induction false} DataUp(files: seq<Input>, k: nat)
    requires k <= |files|
    ensures DataBlocks(files[..k]) <= DataBlocks(files)
    decreases |files|
  {
    if k < |files| {
      DataUp(files[..|files| - 1], k);
      assert files[..|files| - 1][..k] == files[..k];
    } else {
      assert files[..k] == files;
    }
  }

  /** What mkfs can build: there are inodes and blocks for the files, and no file is too long. */
  ghost predicate Buildable(files: seq<Input>) { !Refused(files) && Needed(files) <= FSSIZE - NMETA }

  /** When the next file cannot be added, all of them cannot. */
  lemma AddNext(files: seq<Input>, k: nat)
    requires k < |files| && !Refused(files[..k])
    ensures files[..k] + [files[k]] == files[..k + 1]
    ensures Refused(files[..k + 1]) <==> !(2 + k < NINODES && |files[k].data| <= MAXFILE * BSIZE)
    ensures Refused(files[..k + 1]) || NMETA + Held(Built(files[..k + 1])) > FSSIZE ==> !Buildable(files)
  {
    RefusedNext(files, k);
    if 2 + k < NINODES {
      NeededIs(files[..k + 1]);
      NeededUp(files, k + 1);
    }
  }

  lemma RefusedNext(files: seq<Input>, k: nat)
    requires k < |files| && !Refused(files[..k])
    ensures Refused(files[..k + 1]) <==> !(2 + k < NINODES && |files[k].data| <= MAXFILE * BSIZE)
    ensures Refused(files[..k + 1]) ==> Refused(files)
  {
    var g := files[..k + 1];
    forall j: nat ensures TooLong(g, j) ==> j == k && TooLong(files, k) { assert !TooLong(files[..k], j); }
    if TooLong(files, k) { assert TooLong(g, k); }
    if exists j: nat :: TooLong(g, j) {
      var j: nat :| TooLong(g, j);
      assert TooLong(files, k);
    }
  }

  lemma OneMoreFile(files: seq<Input>, f: Input)
    requires 2 + |files| < NINODES
    ensures Built(files + [f]) == More(Listed(files, f), 2 + |files|, f.data)
  {
    var g, k := files + [f], 2 + |files|;
    assert g[..|g| - 1] == files;
    var v := More(Listed(files, f), k, f.data);
    assert [] + f.data == f.data;
    assert RootDir(g) == RootDir(files) + Entry(k, f.name);
    forall i: nat | i < NINODES ensures Built(g)[i] == v[i] {
      if i != ROOTINO && i != k { assert v[i] == Built(files)[i]; }
    }
  }

  /** The image is one that the kernel's file system keeps sound, for some choice of whose each block is. */
  ghost predicate Sound(bitmap: seq<Block>, inodes: seq<Inode>, data: seq<Block>)
  {
    exists owner :: Fs(NMETA, bitmap, inodes, data, owner).Ok()
  }

  /** What the last step of mkfs makes of the image `st`, the inodes becoming `inodes`. */
  lemma FixedRoot(st: OkFs, off: nat, inodes: seq<Inode>)
    requires ROOTINO < |st.inodes| && st.inodes[ROOTINO].typ != 0 && Tail(Snap(st), ROOTINO, st.inodes[ROOTINO].size)
    requires st.inodes[ROOTINO].size / BSIZE < MAXFILE && st.meta == NMETA && off == (st.inodes[ROOTINO].size / BSIZE + 1) * BSIZE
    requires inodes == st.inodes[ROOTINO := st.inodes[ROOTINO].(size := off)]
    ensures var c := |View(st)[ROOTINO].content|; c == st.inodes[ROOTINO].size && (Sound(st.bitmap, inodes, st.data) <==> c % BSIZE != 0)
    ensures Sound(st.bitmap, inodes, st.data) ==> Resize(st, ROOTINO, off).Ok() && Resize(st, ROOTINO, off) == Fs(NMETA, st.bitmap, inodes, st.data, st.owner)
    ensures Sound(st.bitmap, inodes, st.data) ==>
      View(Resize(st, ROOTINO, off)) == More(View(st), ROOTINO, Zeros(BSIZE - |View(st)[ROOTINO].content| % BSIZE))
  {
    RoundUp(st, ROOTINO);
  }

  /** Rounding a size up past its last block: sound, and zeros are added, unless that block is full. */
  lemma RoundUp(st: OkFs, i: nat)
    requires i < |st.inodes| && st.inodes[i].typ != 0 && Tail(Snap(st), i, st.inodes[i].size) && st.inodes[i].size / BSIZE < MAXFILE
    requires st.meta == NMETA
    ensures var n := st.inodes[i].size; var t := Resize(st, i, (n / BSIZE + 1) * BSIZE);
      && (n % BSIZE == 0 ==> !Sound(st.bitmap, t.inodes, st.data))
      && (n % BSIZE != 0 ==> t.Ok() && Sound(st.bitmap, t.inodes, st.data) && View(t) == More(View(st), i, Zeros(BSIZE - n % BSIZE)))
  {
    var n := st.inodes[i].size;
    if n % BSIZE == 0 {
      PastTheEnd(st, i);
    } else {
      FillBlock(st, i);
      var t := Resize(st, i, (n / BSIZE + 1) * BSIZE);
      assert t == Fs(NMETA, st.bitmap, t.inodes, st.data, st.owner);
    }
  }

  lemma Unmapped(t: Fs, i: nat, bn: nat)
    requires t.Shape() && i < |t.inodes| && bn < MAXFILE && bn * BSIZE < t.inodes[i].size && t.At(i, FileSlot(bn)) == 0
    ensures !t.Ok()
  {
    assert !t.Filled(i, bn) && !t.Mapped(i);
  }

  lemma PastTheEnd(st: OkFs, i: nat)
    requires i < |st.inodes| && Tail(Snap(st), i, st.inodes[i].size) && st.inodes[i].size % BSIZE == 0 && st.inodes[i].size / BSIZE < MAXFILE
    ensures !Sound(st.bitmap, Resize(st, i, (st.inodes[i].size / BSIZE + 1) * BSIZE).inodes, st.data)
  {
    var n := st.inodes[i].size;
    BytesAt(st, i, n);
    assert TailAt(Snap(st), i, n, n);
    var ino := Resize(st, i, (n / BSIZE + 1) * BSIZE).inodes;
    forall owner ensures !Fs(NMETA, st.bitmap, ino, st.data, owner).Ok() {
      var t := Fs(NMETA, st.bitmap, ino, st.data, owner);
      if t.Shape() { Unmapped(t, i, n / BSIZE); }
    }
  }

  lemma FillBlock(st: OkFs, i: nat)
    requires i < |st.inodes| && st.inodes[i].typ != 0 && Tail(Snap(st), i, st.inodes[i].size)
    requires st.inodes[i].size % BSIZE != 0 && st.inodes[i].size / BSIZE < MAXFILE
    ensures var n := st.inodes[i].size; var t := Resize(st, i, (n / BSIZE + 1) * BSIZE);
      t.Ok() && View(t) == More(View(st), i, Zeros(BSIZE - n % BSIZE))
  {
    var t := Rounded(st, i);
    Filled(st, t, i);
  }

  lemma Rounded(st: OkFs, i: nat) returns (t: OkFs)
    requires i < |st.inodes| && st.inodes[i].typ != 0 && st.inodes[i].size % BSIZE != 0 && st.inodes[i].size / BSIZE < MAXFILE
    ensures t == Resize(st, i, (st.inodes[i].size / BSIZE + 1) * BSIZE) && forall f: nat, p: nat :: Snap(t)(f, p) == Snap(st)(f, p)
  {
    var n := st.inodes[i].size;
    var m := (n / BSIZE + 1) * BSIZE;
    forall p: nat | p < m ensures st.Has(i, p) {
      st.SizeHas(i, if p < n then p else n - 1);
      if n <= p { LastBlock(n, p); }
    }
    ResizeOk(st, i, m);
    t := Resize(st, i, m);
  }

  lemma LastBlock(n: nat, p: nat)
    requires n % BSIZE != 0 && n <= p < (n / BSIZE + 1) * BSIZE
    ensures p / BSIZE == (n - 1) / BSIZE
  {
  }

  lemma Filled(st: OkFs, t: OkFs, i: nat)
    requires i < |st.inodes| && t == Resize(st, i, (st.inodes[i].size / BSIZE + 1) * BSIZE) && Tail(Snap(st), i, st.inodes[i].size)
    requires forall f: nat, p: nat :: Snap(t)(f, p) == Snap(st)(f, p)
    ensures View(t) == More(View(st), i, Zeros(BSIZE - st.inodes[i].size % BSIZE))
  {
    var n, m := st.inodes[i].size, t.inodes[i].size;
    forall p: nat | p < m ensures t.Content(i)[p] == if p < n then st.Content(i)[p] else 0 {
      t.SizeHas(i, p);
      BytesAt(t, i, p);
      BytesAt(st, i, p);
      assert TailAt(Snap(st), i, n, p);
      if p < n { st.SizeHas(i, p); }
    }
    assert t.Content(i) == st.Content(i) + Zeros(BSIZE - n % BSIZE);
    forall f: nat | f < |st.inodes| && f != i ensures View(t)[f] == View(st)[f] { SameContent(st, t, f); }
  }

  lemma MoreNone(v: seq<Node>, i: nat, p: seq<Byte>)
    requires i < |v|
    ensures More(v, i, p[..0]) == v
  {
    assert v[i].content + p[..0] == v[i].content;
  }

  lemma MoreMore(v: seq<Node>, i: nat, p: seq<Byte>, m: nat, n: nat)
    requires i < |v| && m <= n <= |p|
    ensures More(More(v, i, p[..m]), i, p[m..n]) == More(v, i, p[..n])
  {
    assert v[i].content + p[..m] + p[m..n] == v[i].content + p[..n];
  }

  datatype Node = Node(typ: nat, nlink: nat, content: seq<Byte>)

  ghost function View(st: OkFs): seq<Node>
  {
    seq(|st.inodes|, i requires 0 <= i < |st.inodes| => Node(st.inodes[i].typ, st.inodes[i].nlink, st.Content(i)))
  }

  function More(v: seq<Node>, i: nat, p: seq<Byte>): seq<Node>
    requires i < |v|
  {
    v[i := v[i].(content := v[i].content + p)]
  }

  ghost predicate Tails(st: OkFs) { forall i: nat :: i < |st.inodes| ==> Tail(Snap(st), i, st.inodes[i].size) }

  function NoNodes(): seq<Node> { seq(NINODES, _ => Node(0, 0, [])) }

  lemma RootOnly()
    ensures More(More(NoNodes()[ROOTINO := Node(T_DIR, 1, [])], ROOTINO, Entry(ROOTINO, DOT)), ROOTINO, Entry(ROOTINO, DOT + DOT)) == Built([])
  {
    var v := More(More(NoNodes()[ROOTINO := Node(T_DIR, 1, [])], ROOTINO, Entry(ROOTINO, DOT)), ROOTINO, Entry(ROOTINO, DOT + DOT));
    assert [] + Entry(ROOTINO, DOT) == Entry(ROOTINO, DOT);
    assert v[ROOTINO] == NodeOf([], ROOTINO);
    forall i: nat | i < NINODES ensures v[i] == NodeOf([], i) { }
  }

  /** No inode is in use and the files hold nothing. */
  lemma NoFiles(st: OkFs)
    requires |st.inodes| == NINODES && forall i :: 0 <= i < NINODES ==> st.inodes[i] == Inode(0, 0, 0, ZeroAddrs())
    ensures Tails(st) && View(st) == NoNodes() && Lean(st)
  {
    forall i: nat | i < NINODES ensures Tail(Snap(st), i, 0) && Exact(st, i, 0) {
      forall p: nat ensures TailAt(Snap(st), i, 0, p) { BytesAt(st, i, p); }
      forall bn: nat ensures ExactAt(st, i, 0, bn) { }
    }
    forall i: nat | i < NINODES ensures View(st)[i] == NoNodes()[i] { }
  }

  lemma FreshTails(st: OkFs, i: nat, typ: nat)
    requires i < |st.inodes| && st.inodes[i].typ == 0 && Tails(st)
    ensures Fresh(st, i, typ, 1).Ok() && Tails(Fresh(st, i, typ, 1)) && View(Fresh(st, i, typ, 1)) == View(st)[i := Node(typ, 1, [])]
  {
    FreshOk(st, i, typ, 1);
    var t := Fresh(st, i, typ, 1);
    assert st.Mapped(i);
    assert st.inodes[i].addrs == ZeroAddrs();
    SameSlots(st, t);
    forall f: nat | f < |t.inodes| ensures View(t)[f] == View(st)[i := Node(typ, 1, [])][f] && Tail(Snap(t), f, t.inodes[f].size) {
      assert Tail(Snap(st), f, st.inodes[f].size);
      forall p: nat ensures TailAt(Snap(t), f, t.inodes[f].size, p) { assert TailAt(Snap(st), f, st.inodes[f].size, p); }
      SameContent(st, t, f);
    }
  }

  lemma Lengthened(s0: OkFs, st: OkFs, i: nat, p: seq<Byte>) returns (t: OkFs)
    requires i < |s0.inodes| && s0.inodes[i].typ != 0 && Tails(s0) && Growing(s0, st, i, s0.inodes[i].size, p, |p|)
    requires Lean(s0) && OthersKept(s0, st, i) && Exact(st, i, s0.inodes[i].size + |p|)
    ensures t.inodes == st.inodes[i := st.inodes[i].(size := s0.inodes[i].size + |p|)] && t.data == st.data && t.meta == st.meta
    ensures t.bitmap == st.bitmap && Tails(t) && View(t) == More(View(s0), i, p) && Lean(t)
  {
    t := Resized(s0, st, i, p);
    LongerView(s0, st, t, i, p);
    LongerTails(s0, st, t, i, p);
    StillLean(s0, st, t, i, s0.inodes[i].size + |p|);
  }

  lemma Resized(s0: OkFs, st: OkFs, i: nat, p: seq<Byte>) returns (t: OkFs)
    requires i < |s0.inodes| && s0.inodes[i].typ != 0 && Growing(s0, st, i, s0.inodes[i].size, p, |p|)
    ensures t == Resize(st, i, s0.inodes[i].size + |p|) && t.Content(i) == Overwrite(s0.Content(i), s0.inodes[i].size, p)
    ensures forall f :: 0 <= f < |s0.inodes| && f != i ==> t.Content(f) == s0.Content(f)
  {
    assert s0.Mapped(i) && SameHead(s0, st, i);
    AppendedIsWritten(Snap(s0), Snap(st), i, s0.inodes[i].size, p);
    WrittenContent(s0, st, i, s0.inodes[i].size, p);
    t := Resize(st, i, s0.inodes[i].size + |p|);
  }

  lemma LongerView(s0: OkFs, st: OkFs, t: OkFs, i: nat, p: seq<Byte>)
    requires i < |s0.inodes| && SameHeads(s0, st) && t == Resize(st, i, s0.inodes[i].size + |p|)
    requires t.Content(i) == Overwrite(s0.Content(i), s0.inodes[i].size, p)
    requires forall f :: 0 <= f < |s0.inodes| && f != i ==> t.Content(f) == s0.Content(f)
    ensures View(t) == More(View(s0), i, p)
  {
    assert s0.Content(i)[..s0.inodes[i].size] == s0.Content(i);
    forall f: nat | f < |t.inodes| ensures View(t)[f] == More(View(s0), i, p)[f] { assert SameHead(s0, st, f); }
  }

  lemma LongerTails(s0: OkFs, st: OkFs, t: OkFs, i: nat, p: seq<Byte>)
    requires i < |s0.inodes| && Tails(s0) && Growing(s0, st, i, s0.inodes[i].size, p, |p|) && t == Resize(st, i, s0.inodes[i].size + |p|)
    ensures Tails(t)
  {
    SameSlots(st, t);
    forall f: nat | f < |t.inodes| ensures Tail(Snap(t), f, t.inodes[f].size) {
      assert SameHead(s0, st, f) && Tail(Snap(s0), f, s0.inodes[f].size);
      TailKept(Snap(s0), Snap(st), Snap(t), i, s0.inodes[i].size, p, f, s0.inodes[f].size);
    }
  }

  /** Two states with the same addresses and blocks have the same bytes. */
  lemma SameSlots(s: OkFs, t: OkFs)
    requires |t.inodes| == |s.inodes| && t.data == s.data
    requires forall f: nat :: f < |s.inodes| ==> t.inodes[f].addrs == s.inodes[f].addrs
    ensures forall f: nat, p: nat :: Snap(t)(f, p) == Snap(s)(f, p)
  {
    forall f, r | 0 <= f < |s.inodes| && 0 <= r < SLOTS ensures t.At(f, r) == s.At(f, r) { }
    forall f: nat, p: nat ensures Snap(t)(f, p) == Snap(s)(f, p) {
      if f < |s.inodes| {
        BytesAt(s, f, p);
        BytesAt(t, f, p);
      }
    }
  }

  lemma SameContent(s: OkFs, t: OkFs, f: nat)
    requires f < |s.inodes| && |t.inodes| == |s.inodes| && t.inodes[f].size == s.inodes[f].size
    requires forall p: nat :: Snap(t)(f, p) == Snap(s)(f, p)
    ensures t.Content(f) == s.Content(f)
  {
    forall p: nat | p < s.inodes[f].size ensures t.Content(f)[p] == s.Content(f)[p] {
      s.SizeHas(f, p);
      t.SizeHas(f, p);
      BytesAt(s, f, p);
      BytesAt(t, f, p);
      assert Snap(t)(f, p) == Snap(s)(f, p);
    }
  }

  lemma AppendedIsWritten(m: Snapshot, n: Snapshot, i: nat, off: nat, w: seq<Byte>)
    requires Appended(m, n, i, off, w, 0, |w|)
    ensures Written(m, n, i, off, w)
  {
    forall f: nat, p: nat | m(f, p) >= 0 && !(f == i && off <= p < off + |w|) ensures n(f, p) == m(f, p) {
      assert AppendedAt(m, n, i, off, w, 0, |w|, f, p);
    }
    forall p: nat | off <= p < off + |w| ensures n(i, p) == w[p - off] { assert AppendedAt(m, n, i, off, w, 0, |w|, i, p); }
  }

  lemma StillLean(s0: OkFs, st: OkFs, t: OkFs, i: nat, n: nat)
    requires i < |s0.inodes| && Lean(s0) && OthersKept(s0, st, i) && Exact(st, i, n) && SameHeads(s0, st) && t == Resize(st, i, n)
    ensures Lean(t)
  {
    forall f, r | 0 <= f < |st.inodes| && 0 <= r < SLOTS ensures t.At(f, r) == st.At(f, r) { }
    forall f: nat | f < |t.inodes| ensures Exact(t, f, t.inodes[f].size) {
      assert SameHead(s0, st, f);
      assert f != i ==> Exact(s0, f, s0.inodes[f].size) && t.inodes[f].size == s0.inodes[f].size;
      forall bn: nat ensures ExactAt(t, f, t.inodes[f].size, bn) {
        if f != i { assert ExactAt(s0, f, s0.inodes[f].size, bn) && AllottedAt(s0, st, i, {}, f, FileSlot(bn)); } else { assert ExactAt(st, i, n, bn); }
      }
      if f != i { assert AllottedAt(s0, st, i, {}, f, NDIRECT); }
    }
  }

  lemma TailKept(m: Snapshot, n: Snapshot, t: Snapshot, i: nat, off: nat, w: seq<Byte>, f: nat, size: nat)
    requires Appended(m, n, i, off, w, 0, |w|) && Tail(m, f, size) && (f == i ==> size == off) && forall p: nat :: t(f, p) == n(f, p)
    ensures Tail(t, f, if f == i then off + |w| else size)
  {
    var k := if f == i then off + |w| else size;
    forall p: nat ensures TailAt(t, f, k, p) { assert t(f, p) == n(f, p) && AppendedAt(m, n, i, off, w, 0, |w|, f, p) && TailAt(m, f, size, p); }
  }

  /** From `m` to `n` exactly the bytes of `w` were stored at `off` of inode `i`. */
  ghost predicate Stored(m: Snapshot, n: Snapshot, i: nat, off: nat, w: seq<Byte>)
  {
    forall f: nat, p: nat :: StoredAt(m, n, i, off, w, f, p)
  }

  ghost predicate StoredAt(m: Snapshot, n: Snapshot, i: nat, off: nat, w: seq<Byte>, f: nat, p: nat)
  {
    n(f, p) == if f == i && off <= p < off + |w| then w[p - off] else m(f, p)
  }

  /** From `m` to `n` the bytes lo..hi of `w` were stored from off + lo of inode `i` on; what else appeared is zeros up
      to the end of the last block. */
  ghost predicate Appended(m: Snapshot, n: Snapshot, i: nat, off: nat, w: seq<Byte>, lo: nat, hi: nat)
    requires lo <= hi <= |w|
  {
    forall f: nat, p: nat :: AppendedAt(m, n, i, off, w, lo, hi, f, p)
  }

  ghost predicate AppendedAt(m: Snapshot, n: Snapshot, i: nat, off: nat, w: seq<Byte>, lo: nat, hi: nat, f: nat, p: nat)
    requires lo <= hi <= |w|
  {
    if f == i && off + lo <= p < off + hi then n(f, p) == w[p - off]
    else n(f, p) == m(f, p) || (m(f, p) == -1 && n(f, p) == 0 && f == i && (off + lo) / BSIZE * BSIZE <= p / BSIZE * BSIZE < off + hi)
  }

  /** The state after iappend's loop has put the first `n` bytes of `w` at `off`. */
  ghost predicate Growing(s0: OkFs, st: OkFs, i: nat, off: nat, w: seq<Byte>, n: nat)
    requires n <= |w|
  {
    SameHeads(s0, st) && Appended(Snap(s0), Snap(st), i, off, w, 0, n) && (n > 0 ==> off + n <= MAXFILE * BSIZE)
  }

  lemma GrowNone(st: OkFs, i: nat, off: nat, p: seq<Byte>)
    ensures Growing(st, st, i, off, p, 0)
  {
    forall f: nat ensures SameHead(st, st, f) { }
    forall f: nat, q: nat ensures AppendedAt(Snap(st), Snap(st), i, off, p, 0, 0, f, q) { }
  }

  lemma GrowOn(s0: OkFs, s1: OkFs, s2: OkFs, i: nat, off: nat, p: seq<Byte>, done: nat, n: nat)
    requires done < n <= |p| && Growing(s0, s1, i, off, p, done)
    requires SameHeads(s1, s2) && Appended(Snap(s1), Snap(s2), i, off, p, done, n) && off + n <= MAXFILE * BSIZE
    ensures Growing(s0, s2, i, off, p, n)
  {
    SameHeadsMore(s0, s1, s2);
    AppendedMore(Snap(s0), Snap(s1), Snap(s2), i, off, p, done, n);
  }

  lemma AppendedOnce(m0: Snapshot, m1: Snapshot, m2: Snapshot, i: nat, off: nat, p: seq<Byte>, lo: nat, hi: nat)
    requires lo < hi <= |p| && OneBlockMore(m0, m1, i, (off + lo) / BSIZE) && Stored(m1, m2, i, off + lo, p[lo..hi]) && (off + lo) % BSIZE + hi - lo <= BSIZE
    ensures Appended(m0, m2, i, off, p, lo, hi)
  {
    forall f: nat, q: nat ensures AppendedAt(m0, m2, i, off, p, lo, hi, f, q) {
      assert OneMoreAt(m0, m1, i, (off + lo) / BSIZE, f, q) && StoredAt(m1, m2, i, off + lo, p[lo..hi], f, q);
    }
  }

  lemma AppendedMore(m0: Snapshot, m1: Snapshot, m2: Snapshot, i: nat, off: nat, w: seq<Byte>, mid: nat, hi: nat)
    requires mid <= hi <= |w| && Appended(m0, m1, i, off, w, 0, mid) && Appended(m1, m2, i, off, w, mid, hi)
    ensures Appended(m0, m2, i, off, w, 0, hi)
  {
    forall f: nat, p: nat ensures AppendedAt(m0, m2, i, off, w, 0, hi, f, p) {
      assert AppendedAt(m0, m1, i, off, w, 0, mid, f, p) && AppendedAt(m1, m2, i, off, w, mid, hi, f, p);
      assert off / BSIZE * BSIZE <= (off + mid) / BSIZE * BSIZE;
    }
  }

  /** No other inode got or lost a block. */
  ghost predicate OthersKept(s0: OkFs, st: OkFs, i: nat)
  {
    |st.inodes| == |s0.inodes| && forall f: nat, r: nat :: f != i ==> AllottedAt(s0, st, i, {}, f, r)
  }

  lemma OthersKeptTwice(s0: OkFs, s1: OkFs, s2: OkFs, i: nat)
    requires OthersKept(s0, s1, i) && OthersKept(s1, s2, i)
    ensures OthersKept(s0, s2, i)
  {
    forall f: nat, r: nat | f != i ensures AllottedAt(s0, s2, i, {}, f, r) { assert AllottedAt(s0, s1, i, {}, f, r) && AllottedAt(s1, s2, i, {}, f, r); }
  }

  lemma Wanted(s0: OkFs, st: OkFs, i: nat, at: nat, k: nat)
    requires i < |s0.inodes| && Exact(s0, i, at) && 0 < k && at % BSIZE + k <= BSIZE && at / BSIZE < MAXFILE
    requires Allotted(s0, st, i, SlotsFor(at / BSIZE) + {})
    ensures Exact(st, i, at + k) && OthersKept(s0, st, i)
  {
    assert SlotsFor(at / BSIZE) + {} == SlotsFor(at / BSIZE);
    ExactOn(s0, st, i, at, k);
    forall f: nat, r: nat | f != i ensures AllottedAt(s0, st, i, {}, f, r) { assert AllottedAt(s0, st, i, SlotsFor(at / BSIZE), f, r); }
  }

  lemma PutStores(st: OkFs, i: nat, off: nat, piece: seq<Byte>)
    requires i < |st.inodes| && st.Has(i, off) && off % BSIZE + |piece| <= BSIZE
    ensures Put(st, i, off, piece).Ok() && SameHeads(st, Put(st, i, off, piece)) && Stored(Snap(st), Snap(Put(st, i, off, piece)), i, off, piece)
  {
    PutWritten(st, i, off, piece);
    forall f: nat, p: nat ensures StoredAt(Snap(st), Snap(Put(st, i, off, piece)), i, off, piece, f, p) {
      if f < |st.inodes| { PutBytes(st, i, off, piece, f, p); }
    }
  }

  ghost predicate SameSnap(s: OkFs, t: OkFs) { forall f: nat, p: nat :: SameByte(s, t, f, p) }

  ghost predicate SameByte(s: OkFs, t: OkFs, f: nat, p: nat) { Snap(t)(f, p) == Snap(s)(f, p) }

  lemma GiveEffect(st: OkFs, i: nat, s: nat, b: nat)
    requires i < |st.inodes| && s <= NDIRECT && st.At(i, s) == 0 && IsFree(st, b) && st.inodes[i].typ != 0
    ensures Give(st, i, s, b).Ok()
    ensures if s < NDIRECT then OneBlockMore(Snap(st), Snap(Give(st, i, s, b)), i, s) else SameSnap(st, Give(st, i, s, b))
  {
    GiveOk(st, i, s, b);
    var t := Give(st, i, s, b);
    if s < NDIRECT {
      forall f: nat, p: nat ensures OneMoreAt(Snap(st), Snap(t), i, s, f, p) { GiveMore(st, i, s, b, f, p); }
    } else {
      forall f: nat, p: nat ensures SameByte(st, t, f, p) { GiveMore(st, i, s, b, f, p); }
    }
  }

  lemma GiveMore(st: OkFs, i: nat, s: nat, b: nat, f: nat, p: nat)
    requires i < |st.inodes| && s <= NDIRECT && st.At(i, s) == 0 && IsFree(st, b) && st.inodes[i].typ != 0
    ensures Give(st, i, s, b).Ok()
    ensures if s < NDIRECT then OneMoreAt(Snap(st), Snap(Give(st, i, s, b)), i, s, f, p) else SameByte(st, Give(st, i, s, b), f, p)
  {
    GiveOk(st, i, s, b);
    if f < |st.inodes| {
      GiveBytes(st, i, s, b, f, p);
      if f == i && p < MAXFILE * BSIZE && FileSlot(p / BSIZE) == s { BytesAt(st, i, p); }
    }
  }

  lemma SameThenMore(s0: OkFs, s1: OkFs, s2: OkFs, i: nat, bn: nat)
    requires SameHeads(s0, s1) && SameSnap(s0, s1) && SameHeads(s1, s2) && OneBlockMore(Snap(s1), Snap(s2), i, bn)
    ensures SameHeads(s0, s2) && OneBlockMore(Snap(s0), Snap(s2), i, bn)
  {
    SameHeadsMore(s0, s1, s2);
    forall f: nat, p: nat ensures OneMoreAt(Snap(s0), Snap(s2), i, bn, f, p) {
      assert SameByte(s0, s1, f, p) && OneMoreAt(Snap(s1), Snap(s2), i, bn, f, p);
    }
  }

  lemma GiveEntryEffect(st: OkFs, i: nat, j: nat, b: nat)
    requires i < |st.inodes| && j < NINDIRECT && st.inodes[i].addrs[NDIRECT] != 0
    requires st.At(i, NDIRECT + 1 + j) == 0 && IsFree(st, b) && st.inodes[i].typ != 0
    ensures GiveEntry(st, i, j, b).Ok() && OneBlockMore(Snap(st), Snap(GiveEntry(st, i, j, b)), i, NDIRECT + j)
  {
    GiveEntryOk(st, i, j, b);
    var m, n := Snap(st), Snap(GiveEntry(st, i, j, b));
    var bn := NDIRECT + j;
    forall f: nat, p: nat ensures OneMoreAt(m, n, i, bn, f, p) {
      if f < |st.inodes| { GiveEntryMore(st, i, j, b, f, p); }
    }
  }

  lemma GiveEntryMore(st: OkFs, i: nat, j: nat, b: nat, f: nat, p: nat)
    requires i < |st.inodes| && j < NINDIRECT && st.inodes[i].addrs[NDIRECT] != 0 && f < |st.inodes|
    requires st.At(i, NDIRECT + 1 + j) == 0 && IsFree(st, b) && st.inodes[i].typ != 0
    ensures GiveEntry(st, i, j, b).Ok()
    ensures OneMoreAt(Snap(st), Snap(GiveEntry(st, i, j, b)), i, NDIRECT + j, f, p)
  {
    GiveEntryBytes(st, i, j, b, f, p);
    if f == i && p < MAXFILE * BSIZE && FileSlot(p / BSIZE) == NDIRECT + 1 + j { BytesAt(st, i, p); }
  }

  /** mkfs: the image of these files, exactly if there are inodes and blocks for them and no file is too long. It
      holds what was asked for, and it is sound unless the entries fill the root directory's last block: 62 files,
      126 or 190. */
  method Build(files: seq<Input>) returns (ok: bool, img: Image, bitmap: seq<Block>)
    ensures fresh(img)
    ensures ok <==> Buildable(files)
    ensures ok ==> (Sound(bitmap, img.dinodes, img.data) <==> |files| % 64 != 62)
    ensures ok && |files| % 64 != 62 ==>
      && img.st == Fs(NMETA, bitmap, img.dinodes, img.data, img.st.owner)
      && View(img.st) == More(Built(files), ROOTINO, Zeros(BSIZE - |RootDir(files)| % BSIZE))
  {
    img := new Image();
    bitmap := [];
    ok := img.MakeRoot();
    if ok { ok := img.AddAll(files); }
    if ok { bitmap := img.Finish(files); }
  }

  /** 62 empty files: mkfs succeeds, and leaves an image that is not sound. */
  method SixtyTwoFiles() returns (img: Image, bitmap: seq<Block>)
    ensures fresh(img) && !Sound(bitmap, img.dinodes, img.data)
  {
    var n := 62;
    var files := seq(n, i requires 0 <= i < n => Input([33 + i % 64], []));
    FewEmpty(files);
    var ok;
    ok, img, bitmap := Build(files);
  }

  lemma FewEmpty(files: seq<Input>)
    requires |files| == 62 && forall k :: 0 <= k < |files| ==> files[k].data == []
    ensures Buildable(files) && |files| % 64 == 62
  {
    EmptyNeed(files, |files|);
    assert files[..|files|] == files;
    forall k: nat ensures !TooLong(files, k) { }
  }

  lemma {:induction false} EmptyNeed(files: seq<Input>, n: nat)
    requires n <= |files| && forall k :: 0 <= k < |files| ==> files[k].data == []
    ensures DataBlocks(files[..n]) == 0
  {
    if n > 0 {
      assert files[..n][..n - 1] == files[..n - 1];
      EmptyNeed(files, n - 1);
    }
  }

  lemma RootEnd(files: seq<Input>)
    ensures |RootDir(files)| % BSIZE != 0 <==> |files| % 64 != 62
    ensures 2 + |files| <= NINODES ==> |RootDir(files)| / BSIZE < MAXFILE
  {
    RootLength(files);
    Sixteen(2 + |files|);
    SixtyTwo(|files|);
    if 2 + |files| <= NINODES { assert |RootDir(files)| <= 3200; }
  }

  lemma SixtyTwo(n: nat)
    ensures (2 + n) % 64 == 0 <==> n % 64 == 62
  {
  }

  lemma Sixteen(n: nat)
    ensures ENTRY * n % BSIZE == 0 <==> n % 64 == 0
  {
    var q, r := n / 64, n % 64;
    Blockful(ENTRY * n, q, ENTRY * r);
  }

  lemma Blockful(n: nat, q: nat, r: nat)
    requires n == q * BSIZE + r && r < BSIZE
    ensures n % BSIZE == r
  {
  }
}
