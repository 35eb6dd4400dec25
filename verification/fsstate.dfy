/** The on-disk structures of kernel/fs.c as one value: bitmap, inodes and data
    blocks, and who owns each allocated block. */
module FsState {
  import opened Blocks
  import opened Bitmap

  const NDIRECT := 12
  const NINDIRECT := 256
  const MAXFILE := 268

  datatype Inode = Inode(typ: nat, nlink: nat, size: nat, addrs: seq<nat>)

  // The block numbers an inode holds are numbered as slots: its direct addresses, the address of
  // its indirect block (slot NDIRECT), then the entries of the indirect block.
  const SLOTS := 269  // NDIRECT + 1 + NINDIRECT

  /** The slot of the file's block number `bn`. */
  function FileSlot(bn: nat): nat { if bn < NDIRECT then bn else bn + 1 }

  /** The block number in slot `s`; 0 means none. */
  function Addr(ino: Inode, data: seq<Block>, s: nat): nat
    requires |ino.addrs| == NDIRECT + 1 && s < SLOTS && ino.addrs[NDIRECT] < |data|
  {
    if s <= NDIRECT then ino.addrs[s]
    else if ino.addrs[NDIRECT] == 0 then 0
    else GetWord(data[ino.addrs[NDIRECT]], s - NDIRECT - 1)
  }

  datatype Slot = Slot(inum: nat, s: nat)

  datatype Fs = Fs(meta: nat, bitmap: seq<Block>, inodes: seq<Inode>, data: seq<Block>, owner: map<nat, Slot>) {

    ghost predicate Shape()
    {
      && 0 < meta <= |data| <= |bitmap| * BPB && |data| < TWO32
      && forall i :: 0 <= i < |inodes| ==> |inodes[i].addrs| == NDIRECT + 1 && inodes[i].addrs[NDIRECT] < |data|
    }

    /** The block number in slot `s` of inode `i`. */
    ghost function At(i: nat, s: nat): nat
      requires Shape() && i < |inodes| && s < SLOTS
    {
      Addr(inodes[i], data, s)
    }

    /** The block number that a slot holds is held in that slot only. */
    ghost predicate Owns(i: nat, s: nat)
      requires Shape()
    {
      i < |inodes| && s < SLOTS && At(i, s) != 0 ==> At(i, s) in owner && owner[At(i, s)] == Slot(i, s)
    }

    /** The owner of a block holds it. */
    ghost predicate Held(b: nat)
      requires Shape()
    {
      b in owner ==> meta <= b < |data| && owner[b].inum < |inodes| && owner[b].s < SLOTS && At(owner[b].inum, owner[b].s) == b
    }

    /** A bitmap bit is set exactly when the block is metadata or held by an inode. */
    ghost predicate Marked(b: nat)
      requires Shape()
    {
      b < |data| ==> (Bit(bitmap, b) <==> b < meta || b in owner)
    }

    /** Every block below the file's size is mapped, and a free inode holds nothing. */
    ghost predicate Mapped(i: nat)
      requires Shape()
    {
      i < |inodes| ==>
        && inodes[i].size <= MAXFILE * BSIZE && (forall bn: nat :: Filled(i, bn))
        && (inodes[i].typ == 0 ==> inodes[i].size == 0 && forall s :: 0 <= s <= NDIRECT ==> inodes[i].addrs[s] == 0)
    }

    ghost predicate Filled(i: nat, bn: nat)
      requires Shape() && i < |inodes|
    {
      bn < MAXFILE && bn * BSIZE < inodes[i].size ==> At(i, FileSlot(bn)) != 0
    }

    ghost predicate Ok()
    {
      && Shape() && (forall i: nat, s: nat :: Owns(i, s)) && (forall b: nat :: Held(b)) && (forall b: nat :: Marked(b))
      && (forall i: nat :: Mapped(i))
    }

    /** Byte `p` of inode i's blocks is in a mapped block. */
    ghost predicate Has(i: nat, p: nat)
      requires Shape() && i < |inodes|
    {
      p < MAXFILE * BSIZE && At(i, FileSlot(p / BSIZE)) != 0
    }

    /** Byte `p` of inode i's blocks, whether or not the file's size reaches that far. */
    ghost function Raw(i: nat, p: nat): Byte
      requires Ok() && i < |inodes| && Has(i, p)
    {
      var b := At(i, FileSlot(p / BSIZE));
      assert Owns(i, FileSlot(p / BSIZE)) && Held(b);
      data[b].data[p % BSIZE]
    }

    lemma SizeHas(i: nat, p: nat)
      requires Ok() && i < |inodes| && p < inodes[i].size
      ensures Has(i, p)
    {
      assert Mapped(i) && Filled(i, p / BSIZE);
    }

    /** The contents of file `i`. */
    ghost function Content(i: nat): (c: seq<Byte>)
      requires Ok() && i < |inodes|
      ensures |c| == inodes[i].size
    {
      seq(inodes[i].size, p requires 0 <= p < inodes[i].size => SizeHas(i, p); Raw(i, p))
    }
  }

  ghost function Smallest(): (st: Fs)
    ensures st.Ok()
  {
    var st := Fs(1, [Block(seq(BSIZE, _ => 255))], [], [ZeroBlock()], map[]);
    assert st.Marked(0);
    st
  }

  type OkFs = st: Fs | st.Ok() ghost witness Smallest()

  // Allocation: balloc sets the bit and zeroes the block; bmap stores the number in a slot.

  /** Fresh block `b` goes into direct or indirect-block slot `s` of inode `i`. */
  ghost function Give(st: OkFs, i: nat, s: nat, b: nat): Fs
    requires i < |st.inodes| && s <= NDIRECT && b < |st.data|
  {
    var ino := st.inodes[i];
    st.(bitmap := SetBit(st.bitmap, b), data := st.data[b := ZeroBlock()],
        inodes := st.inodes[i := ino.(addrs := ino.addrs[s := b])], owner := st.owner[b := Slot(i, s)])
  }

  /** Fresh block `b` goes into entry `j` of inode i's indirect block. */
  ghost function GiveEntry(st: OkFs, i: nat, j: nat, b: nat): Fs
    requires i < |st.inodes| && j < NINDIRECT && b < |st.data|
  {
    var ind := st.inodes[i].addrs[NDIRECT];
    var d := st.data[b := ZeroBlock()];
    st.(bitmap := SetBit(st.bitmap, b), data := d[ind := PutWord(d[ind], j, b)],
        owner := st.owner[b := Slot(i, NDIRECT + 1 + j)])
  }

  ghost predicate IsFree(st: OkFs, b: nat) { st.meta <= b < |st.data| && !Bit(st.bitmap, b) }

  /** Slot by slot, `t` holds what `st` holds, except that slot `s` of inode `i` now holds `b`. */
  ghost predicate OneMore(st: OkFs, t: Fs, i: nat, s: nat, b: nat)
  {
    && t.Shape() && |t.inodes| == |st.inodes| && |t.data| == |st.data| && i < |st.inodes| && s < SLOTS
    && t.meta == st.meta && t.owner == st.owner[b := Slot(i, s)]
    && (forall f: nat, r: nat :: MoreAt(st, t, i, s, b, f, r)) && (forall f: nat :: SameHead(st, t, f))
  }

  ghost predicate MoreAt(st: OkFs, t: Fs, i: nat, s: nat, b: nat, f: nat, r: nat)
    requires t.Shape() && |t.inodes| == |st.inodes|
  {
    f < |st.inodes| && r < SLOTS ==> t.At(f, r) == if f == i && r == s then b else st.At(f, r)
  }

  /** Inode `f` is the same, apart from its block numbers. */
  ghost predicate SameHead(st: Fs, t: Fs, f: nat)
    requires |t.inodes| == |st.inodes|
  {
    f < |st.inodes| ==> t.inodes[f] == st.inodes[f].(addrs := t.inodes[f].addrs)
  }

  lemma FreeUnheld(st: OkFs, b: nat)
    requires IsFree(st, b)
    ensures b !in st.owner && b != 0
  {
    assert st.Marked(b);
  }

  /** No slot holds a free block. */
  lemma Unheld(st: OkFs, b: nat, f: nat, r: nat)
    requires IsFree(st, b) && f < |st.inodes| && r < SLOTS
    ensures st.At(f, r) != b
  {
    FreeUnheld(st, b);
    assert st.Owns(f, r);
  }

  lemma GiveSlots(st: OkFs, i: nat, s: nat, b: nat)
    requires i < |st.inodes| && s <= NDIRECT && st.At(i, s) == 0 && IsFree(st, b)
    ensures OneMore(st, Give(st, i, s, b), i, s, b)
  {
    FreeUnheld(st, b);
    var t := Give(st, i, s, b);
    forall f: nat, r: nat ensures MoreAt(st, t, i, s, b, f, r) {
      if f < |st.inodes| && r < SLOTS {
        Unheld(st, b, f, NDIRECT);
        if r > NDIRECT && f == i && s == NDIRECT { ZeroWord(r - NDIRECT - 1); }
      }
    }
    forall f: nat ensures SameHead(st, t, f) { }
  }

  lemma GiveEntrySlots(st: OkFs, i: nat, j: nat, b: nat)
    requires i < |st.inodes| && j < NINDIRECT && st.inodes[i].addrs[NDIRECT] != 0
    requires st.At(i, NDIRECT + 1 + j) == 0 && IsFree(st, b)
    ensures OneMore(st, GiveEntry(st, i, j, b), i, NDIRECT + 1 + j, b)
  {
    FreeUnheld(st, b);
    var t, s := GiveEntry(st, i, j, b), NDIRECT + 1 + j;
    forall f: nat, r: nat ensures MoreAt(st, t, i, s, b, f, r) {
      if f < |st.inodes| && r < SLOTS { EntrySlot(st, i, j, b, f, r); }
    }
    forall f: nat ensures SameHead(st, t, f) { }
  }

  lemma EntrySlot(st: OkFs, i: nat, j: nat, b: nat, f: nat, r: nat)
    requires i < |st.inodes| && j < NINDIRECT && st.inodes[i].addrs[NDIRECT] != 0
    requires st.At(i, NDIRECT + 1 + j) == 0 && IsFree(st, b) && f < |st.inodes| && r < SLOTS
    ensures var t := GiveEntry(st, i, j, b); t.Shape() && t.At(f, r) == if f == i && r == NDIRECT + 1 + j then b else st.At(f, r)
  {
    FreeUnheld(st, b);
    var ind := st.inodes[i].addrs[NDIRECT];
    Unheld(st, b, f, NDIRECT);
    Unheld(st, b, i, NDIRECT);
    if f != i {
      OtherIndirect(st, i, f);
    } else if r > NDIRECT {
      GetPut(st.data[ind], j, b, r - NDIRECT - 1);
    }
  }

  /** Two inodes do not share an indirect block. */
  lemma OtherIndirect(st: OkFs, i: nat, f: nat)
    requires i < |st.inodes| && f < |st.inodes| && f != i && st.inodes[i].addrs[NDIRECT] != 0
    ensures st.inodes[f].addrs[NDIRECT] != st.inodes[i].addrs[NDIRECT]
  {
    assert st.At(i, NDIRECT) == st.inodes[i].addrs[NDIRECT] && st.At(f, NDIRECT) == st.inodes[f].addrs[NDIRECT];
    Apart(st, i, NDIRECT, f, NDIRECT);
  }

  lemma OneMoreOwned(st: OkFs, t: Fs, i: nat, s: nat, b: nat)
    requires OneMore(st, t, i, s, b) && IsFree(st, b) && st.At(i, s) == 0
    ensures (forall f: nat, r: nat :: t.Owns(f, r)) && forall c: nat :: t.Held(c)
  {
    FreeUnheld(st, b);
    forall f: nat, r: nat ensures t.Owns(f, r) {
      assert MoreAt(st, t, i, s, b, f, r) && st.Owns(f, r);
      if f < |st.inodes| && r < SLOTS { Unheld(st, b, f, r); }
    }
    forall c: nat ensures t.Held(c) {
      assert st.Held(c);
      if c in st.owner { assert MoreAt(st, t, i, s, b, st.owner[c].inum, st.owner[c].s); }
      assert MoreAt(st, t, i, s, b, i, s);
    }
  }

  lemma OneMoreMapped(st: OkFs, t: Fs, i: nat, s: nat, b: nat, f: nat)
    requires OneMore(st, t, i, s, b) && b != 0 && st.inodes[i].typ != 0
    ensures t.Mapped(f)
  {
    if f < |st.inodes| {
      assert st.Mapped(f) && SameHead(st, t, f);
      forall bn: nat ensures t.Filled(f, bn) { assert st.Filled(f, bn) && MoreAt(st, t, i, s, b, f, FileSlot(bn)); }
      if t.inodes[f].typ == 0 {
        forall r | 0 <= r <= NDIRECT ensures t.inodes[f].addrs[r] == 0 {
          assert MoreAt(st, t, i, s, b, f, r) && t.At(f, r) == t.inodes[f].addrs[r] && st.At(f, r) == st.inodes[f].addrs[r];
        }
      }
    }
  }

  lemma OneMoreOk(st: OkFs, t: Fs, i: nat, s: nat, b: nat)
    requires OneMore(st, t, i, s, b) && IsFree(st, b) && st.At(i, s) == 0 && st.inodes[i].typ != 0
    requires t.bitmap == SetBit(st.bitmap, b)
    ensures t.Ok()
  {
    FreeUnheld(st, b);
    OneMoreOwned(st, t, i, s, b);
    forall c: nat ensures t.Marked(c) {
      assert st.Marked(c);
      if c < |t.data| { BitSet(st.bitmap, b, c); }
    }
    forall f: nat ensures t.Mapped(f) { OneMoreMapped(st, t, i, s, b, f); }
  }

  /** The byte at each position of each inode's blocks; -1 where no block is mapped. */
  type Snapshot = (nat, nat) -> int

  ghost function Snap(st: OkFs): Snapshot
  {
    (f: nat, p: nat) => if f < |st.inodes| && st.Has(f, p) then st.Raw(f, p) else -1
  }

  lemma BytesAt(st: OkFs, f: nat, p: nat)
    requires f < |st.inodes|
    ensures st.Has(f, p) ==> Snap(st)(f, p) == st.Raw(f, p)
    ensures !st.Has(f, p) ==> Snap(st)(f, p) == -1
  {
  }

  /** Same inodes, apart from their block numbers. */
  ghost predicate SameHeads(st: OkFs, t: OkFs)
  {
    |t.inodes| == |st.inodes| && |t.data| == |st.data| && t.meta == st.meta && forall f: nat :: SameHead(st, t, f)
  }

  lemma SameHeadsMore(s0: OkFs, s1: OkFs, s2: OkFs)
    requires SameHeads(s0, s1) && SameHeads(s1, s2)
    ensures SameHeads(s0, s2)
  {
    forall f: nat ensures SameHead(s0, s2, f) { assert SameHead(s0, s1, f) && SameHead(s1, s2, f); }
  }

  ghost predicate Keeps(a: Snapshot, b: Snapshot)
  {
    forall f: nat, p: nat :: KeepsAt(a, b, f, p)
  }

  ghost predicate KeepsAt(a: Snapshot, b: Snapshot, f: nat, p: nat) { a(f, p) >= 0 ==> b(f, p) == a(f, p) }

  /** From `st` to `t` blocks were only added: every byte an inode had it still has. */
  ghost predicate Grows(st: OkFs, t: OkFs)
  {
    SameHeads(st, t) && Keeps(Snap(st), Snap(t))
  }

  lemma GrowsTransitive(st: OkFs, t: OkFs, u: OkFs)
    requires Grows(st, t) && Grows(t, u)
    ensures Grows(st, u)
  {
    SameHeadsMore(st, t, u);
    KeepsTransitive(Snap(st), Snap(t), Snap(u));
  }

  lemma GrowsNothing(st: OkFs)
    ensures Grows(st, st)
  {
    forall f: nat ensures SameHead(st, st, f) { }
    forall f: nat, p: nat ensures KeepsAt(Snap(st), Snap(st), f, p) { }
  }

  lemma KeepsTransitive(a: Snapshot, b: Snapshot, c: Snapshot)
    requires Keeps(a, b) && Keeps(b, c)
    ensures Keeps(a, c)
  {
    forall f: nat, p: nat ensures KeepsAt(a, c, f, p) { assert KeepsAt(a, b, f, p) && KeepsAt(b, c, f, p); }
  }

  lemma ContentByte(st: OkFs, f: nat, p: nat)
    requires f < |st.inodes| && p < st.inodes[f].size
    ensures Snap(st)(f, p) == st.Content(f)[p] >= 0
  {
    st.SizeHas(f, p);
    BytesAt(st, f, p);
  }

  /** File contents are the bytes below the size. */
  lemma ContentKept(st: OkFs, t: OkFs, f: nat)
    requires f < |st.inodes| == |t.inodes| && t.inodes[f].size == st.inodes[f].size
    requires forall p: nat :: KeepsAt(Snap(st), Snap(t), f, p)
    ensures t.Content(f) == st.Content(f)
  {
    forall p: nat | p < st.inodes[f].size ensures t.Content(f)[p] == st.Content(f)[p] {
      assert KeepsAt(Snap(st), Snap(t), f, p);
      ContentByte(st, f, p);
      ContentByte(t, f, p);
    }
  }

  /** Two slots of different number hold different blocks. */
  lemma Apart(st: OkFs, f: nat, r: nat, g: nat, s: nat)
    requires f < |st.inodes| && g < |st.inodes| && r < SLOTS && s < SLOTS && st.At(f, r) != 0
    requires (f, r) != (g, s)
    ensures st.At(f, r) != st.At(g, s) && st.meta <= st.At(f, r) < |st.data|
  {
    assert st.Owns(f, r) && st.Owns(g, s) && st.Held(st.At(f, r));
  }

  lemma GiveOk(st: OkFs, i: nat, s: nat, b: nat)
    requires i < |st.inodes| && s <= NDIRECT && st.At(i, s) == 0 && IsFree(st, b) && st.inodes[i].typ != 0
    ensures Give(st, i, s, b).Ok() && Grows(st, Give(st, i, s, b)) && Give(st, i, s, b).At(i, s) == b
  {
    GiveSlots(st, i, s, b);
    var t := Give(st, i, s, b);
    OneMoreOk(st, t, i, s, b);
    assert MoreAt(st, t, i, s, b, i, s);
    forall f: nat, p: nat ensures KeepsAt(Snap(st), Snap(t), f, p) {
      if f < |st.inodes| && st.Has(f, p) { GiveByte(st, i, s, b, f, p); }
    }
  }

  lemma GiveByte(st: OkFs, i: nat, s: nat, b: nat, f: nat, p: nat)
    requires i < |st.inodes| && s <= NDIRECT && st.At(i, s) == 0 && IsFree(st, b) && Give(st, i, s, b).Ok()
    requires f < |st.inodes| && st.Has(f, p)
    ensures Snap(Give(st, i, s, b))(f, p) == st.Raw(f, p)
  {
    Unheld(st, b, f, FileSlot(p / BSIZE));
    GiveSlots(st, i, s, b);
    HolderIs(st, f, FileSlot(p / BSIZE), 0);
    assert MoreAt(st, Give(st, i, s, b), i, s, b, f, FileSlot(p / BSIZE));
    BytesAt(Give(st, i, s, b), f, p);
  }

  lemma GiveEntryOk(st: OkFs, i: nat, j: nat, b: nat)
    requires i < |st.inodes| && j < NINDIRECT && st.inodes[i].addrs[NDIRECT] != 0
    requires st.At(i, NDIRECT + 1 + j) == 0 && IsFree(st, b) && st.inodes[i].typ != 0
    ensures GiveEntry(st, i, j, b).Ok() && Grows(st, GiveEntry(st, i, j, b))
    ensures GiveEntry(st, i, j, b).At(i, NDIRECT + 1 + j) == b
  {
    GiveEntrySlots(st, i, j, b);
    var t := GiveEntry(st, i, j, b);
    OneMoreOk(st, t, i, NDIRECT + 1 + j, b);
    assert MoreAt(st, t, i, NDIRECT + 1 + j, b, i, NDIRECT + 1 + j);
    forall f: nat, p: nat ensures KeepsAt(Snap(st), Snap(t), f, p) {
      if f < |st.inodes| && st.Has(f, p) { GiveEntryByte(st, i, j, b, f, p); }
    }
  }

  lemma GiveEntryByte(st: OkFs, i: nat, j: nat, b: nat, f: nat, p: nat)
    requires i < |st.inodes| && j < NINDIRECT && st.inodes[i].addrs[NDIRECT] != 0
    requires st.At(i, NDIRECT + 1 + j) == 0 && IsFree(st, b) && GiveEntry(st, i, j, b).Ok()
    requires f < |st.inodes| && st.Has(f, p)
    ensures Snap(GiveEntry(st, i, j, b))(f, p) == st.Raw(f, p)
  {
    Unheld(st, b, f, FileSlot(p / BSIZE));
    EntrySlot(st, i, j, b, f, FileSlot(p / BSIZE));
    Apart(st, f, FileSlot(p / BSIZE), i, NDIRECT);
    assert st.At(i, NDIRECT) == st.inodes[i].addrs[NDIRECT];
    BytesAt(GiveEntry(st, i, j, b), f, p);
  }

  // Writing: one copy into one block, and the size.

  function Splice(d: Block, at: nat, src: seq<Byte>): Block
    requires at + |src| <= BSIZE
  {
    Block(d.data[..at] + src + d.data[at + |src|..])
  }

  /** Inode i's block for byte `off` takes `src` from that byte on. */
  ghost function Put(st: OkFs, i: nat, off: nat, src: seq<Byte>): Fs
    requires i < |st.inodes| && st.Has(i, off) && off % BSIZE + |src| <= BSIZE
  {
    var a := st.At(i, FileSlot(off / BSIZE));
    HolderIs(st, i, FileSlot(off / BSIZE), a);
    st.(data := st.data[a := Splice(st.data[a], off % BSIZE, src)])
  }

  /** Storing into a file's block changes no slot of any inode. */
  lemma PutSlots(st: OkFs, i: nat, off: nat, src: seq<Byte>, f: nat, r: nat)
    requires i < |st.inodes| && st.Has(i, off) && off % BSIZE + |src| <= BSIZE && f < |st.inodes| && r < SLOTS
    ensures Put(st, i, off, src).Shape() && Put(st, i, off, src).At(f, r) == st.At(f, r)
  {
    Apart(st, i, FileSlot(off / BSIZE), f, NDIRECT);
    assert st.At(f, NDIRECT) == st.inodes[f].addrs[NDIRECT];
  }

  lemma PutOk(st: OkFs, i: nat, off: nat, src: seq<Byte>)
    requires i < |st.inodes| && st.Has(i, off) && off % BSIZE + |src| <= BSIZE
    ensures Put(st, i, off, src).Ok()
  {
    var t := Put(st, i, off, src);
    HolderIs(st, i, FileSlot(off / BSIZE), 0);
    PutSlots(st, i, off, src, i, 0);
    forall f: nat, r: nat ensures SameSlot(st, t, f, r) { if f < |st.inodes| && r < SLOTS { PutSlots(st, i, off, src, f, r); } }
    SameSlotsOk(st, t);
    forall f: nat ensures t.Mapped(f) { KeptMapped(st, t, f); }
  }

  /** Slot `r` of inode `f` holds the same in both. */
  ghost predicate SameSlot(st: OkFs, t: Fs, f: nat, r: nat)
    requires t.Shape() && |t.inodes| == |st.inodes|
  {
    f < |st.inodes| && r < SLOTS ==> t.At(f, r) == st.At(f, r)
  }

  /** Ownership and marks depend on the slots alone. */
  lemma SameSlotsOk(st: OkFs, t: Fs)
    requires t.Shape() && |t.inodes| == |st.inodes| && |t.data| == |st.data| && t.meta == st.meta && t.bitmap == st.bitmap && t.owner == st.owner
    requires forall f: nat, r: nat :: SameSlot(st, t, f, r)
    ensures (forall f: nat, r: nat :: t.Owns(f, r)) && (forall b: nat :: t.Held(b)) && forall b: nat :: t.Marked(b)
  {
    forall f: nat, r: nat ensures t.Owns(f, r) { assert st.Owns(f, r) && SameSlot(st, t, f, r); }
    forall b: nat ensures t.Held(b) {
      assert st.Held(b);
      if b in st.owner { assert SameSlot(st, t, st.owner[b].inum, st.owner[b].s); }
    }
    forall b: nat ensures t.Marked(b) { assert st.Marked(b); }
  }

  lemma KeptMapped(st: OkFs, t: Fs, f: nat)
    requires t.Shape() && |t.inodes| == |st.inodes| && (f < |st.inodes| ==> t.inodes[f] == st.inodes[f])
    requires forall g: nat, r: nat :: SameSlot(st, t, g, r)
    ensures t.Mapped(f)
  {
    assert st.Mapped(f);
    if f < |st.inodes| {
      forall bn: nat ensures t.Filled(f, bn) { assert st.Filled(f, bn) && SameSlot(st, t, f, FileSlot(bn)); }
    }
  }

  /** Only the bytes written change, and only in inode `i`. */
  lemma PutRaw(st: OkFs, i: nat, off: nat, src: seq<Byte>, f: nat, p: nat)
    requires i < |st.inodes| && st.Has(i, off) && off % BSIZE + |src| <= BSIZE && f < |st.inodes| && st.Has(f, p)
    ensures Put(st, i, off, src).Ok() && Put(st, i, off, src).Has(f, p)
    ensures Put(st, i, off, src).Raw(f, p) == if f == i && off <= p < off + |src| then src[p - off] else st.Raw(f, p)
  {
    PutOk(st, i, off, src);
    PutSlots(st, i, off, src, f, FileSlot(p / BSIZE));
    HolderIs(st, i, FileSlot(off / BSIZE), 0);
    HolderIs(st, f, FileSlot(p / BSIZE), 0);
    var r, s := FileSlot(p / BSIZE), FileSlot(off / BSIZE);
    if f != i || r != s {
      Apart(st, f, r, i, s);
    } else {
      assert p / BSIZE == off / BSIZE;
    }
  }

  ghost function Resize(st: OkFs, i: nat, size: nat): Fs
    requires i < |st.inodes|
  {
    st.(inodes := st.inodes[i := st.inodes[i].(size := size)])
  }

  lemma ResizeOk(st: OkFs, i: nat, size: nat)
    requires i < |st.inodes| && st.inodes[i].typ != 0 && size <= MAXFILE * BSIZE
    requires forall p: nat :: p < size ==> st.Has(i, p)
    ensures Resize(st, i, size).Ok() && forall f: nat, p: nat :: Snap(Resize(st, i, size))(f, p) == Snap(st)(f, p)
  {
    var t := Resize(st, i, size);
    assert t.Shape();
    forall f: nat, r: nat ensures SameSlot(st, t, f, r) { }
    SameSlotsOk(st, t);
    forall f: nat ensures t.Mapped(f) {
      if f == i { ResizeMapped(st, i, size); } else { KeptMapped(st, t, f); }
    }
    forall f: nat, p: nat ensures Snap(t)(f, p) == Snap(st)(f, p) {
      if p < MAXFILE * BSIZE { assert SameSlot(st, t, f, FileSlot(p / BSIZE)); }
    }
  }

  lemma ResizeMapped(st: OkFs, i: nat, size: nat)
    requires i < |st.inodes| && st.inodes[i].typ != 0 && size <= MAXFILE * BSIZE
    requires forall p: nat :: p < size ==> st.Has(i, p)
    ensures Resize(st, i, size).Shape() && Resize(st, i, size).Mapped(i)
  {
    var t := Resize(st, i, size);
    forall bn: nat ensures t.Filled(i, bn) {
      if bn < MAXFILE && bn * BSIZE < size { assert st.Has(i, bn * BSIZE); }
    }
  }

  /** Inode `i` was written with `w` from byte `off` on: those bytes read as `w`, and every other
      byte is as in `m0`. */
  ghost predicate Written(m0: Snapshot, m: Snapshot, i: nat, off: nat, w: seq<Byte>)
  {
    forall f: nat, p: nat :: WrittenAt(m0, m, i, off, w, f, p)
  }

  ghost predicate WrittenAt(m0: Snapshot, m: Snapshot, i: nat, off: nat, w: seq<Byte>, f: nat, p: nat)
  {
    if f == i && off <= p < off + |w| then m(f, p) == w[p - off] else m0(f, p) >= 0 ==> m(f, p) == m0(f, p)
  }

  lemma WrittenMore(m0: Snapshot, m: Snapshot, m': Snapshot, i: nat, off: nat, w: seq<Byte>, v: seq<Byte>)
    requires Written(m0, m, i, off, w) && Written(m, m', i, off + |w|, v)
    ensures Written(m0, m', i, off, w + v)
  {
    forall f: nat, p: nat ensures WrittenAt(m0, m', i, off, w + v, f, p) {
      assert WrittenAt(m0, m, i, off, w, f, p) && WrittenAt(m, m', i, off + |w|, v, f, p);
    }
  }

  /** One copy into one block. */
  lemma PutWritten(st: OkFs, i: nat, off: nat, src: seq<Byte>)
    requires i < |st.inodes| && st.Has(i, off) && off % BSIZE + |src| <= BSIZE
    ensures Put(st, i, off, src).Ok() && SameHeads(st, Put(st, i, off, src))
    ensures Written(Snap(st), Snap(Put(st, i, off, src)), i, off, src)
  {
    PutOk(st, i, off, src);
    var t := Put(st, i, off, src);
    HolderIs(st, i, FileSlot(off / BSIZE), 0);
    forall f: nat ensures SameHead(st, t, f) { }
    forall f: nat, p: nat ensures WrittenAt(Snap(st), Snap(t), i, off, src, f, p) {
      if f == i && off <= p < off + |src| { SameBlock(off, p, |src|); }
      if f < |st.inodes| && st.Has(f, p) { PutRaw(st, i, off, src, f, p); }
    }
  }

  /** From `s0` to `st`, `w` was written into inode `i` at `off`, sizes not yet updated. */
  ghost predicate Wrote(s0: OkFs, st: OkFs, i: nat, off: nat, w: seq<Byte>)
  {
    SameHeads(s0, st) && Written(Snap(s0), Snap(st), i, off, w)
  }

  lemma WroteInto(s0: OkFs, s1: OkFs, s2: OkFs, i: nat, at: nat, chunk: seq<Byte>)
    requires Grows(s0, s1) && Wrote(s1, s2, i, at, chunk)
    ensures Wrote(s0, s2, i, at, chunk)
  {
    SameHeadsMore(s0, s1, s2);
    KeepsWritten(Snap(s0), Snap(s1), Snap(s2), i, at, chunk);
  }

  lemma KeepsWritten(m0: Snapshot, m1: Snapshot, m2: Snapshot, i: nat, off: nat, w: seq<Byte>)
    requires Keeps(m0, m1) && Written(m1, m2, i, off, w)
    ensures Written(m0, m2, i, off, w)
  {
    forall f: nat, p: nat ensures WrittenAt(m0, m2, i, off, w, f, p) { assert KeepsAt(m0, m1, f, p) && WrittenAt(m1, m2, i, off, w, f, p); }
  }

  lemma WroteMore(s0: OkFs, s1: OkFs, s2: OkFs, i: nat, off: nat, w: seq<Byte>, v: seq<Byte>)
    requires Wrote(s0, s1, i, off, w) && Wrote(s1, s2, i, off + |w|, v)
    ensures Wrote(s0, s2, i, off, w + v)
  {
    SameHeadsMore(s0, s1, s2);
    WrittenMore(Snap(s0), Snap(s1), Snap(s2), i, off, w, v);
  }

  lemma NothingWrote(st: OkFs, i: nat, off: nat)
    ensures Wrote(st, st, i, off, [])
  {
    forall f: nat, p: nat ensures WrittenAt(Snap(st), Snap(st), i, off, [], f, p) { }
    forall f: nat ensures SameHead(st, st, f) { }
  }

  /** A write in progress: `w` went into inode `i` at `off`, taking `s0` to `st`. */
  datatype Progress = Progress(s0: OkFs, st: OkFs, i: nat, off: nat, w: seq<Byte>)

  type Writing = g: Progress | Wrote(g.s0, g.st, g.i, g.off, g.w) ghost witness
    (NothingWrote(Smallest(), 0, 0); Progress(Smallest(), Smallest(), 0, 0, []))

  ghost function StartWriting(st: OkFs, i: nat, off: nat): Writing { NothingWrote(st, i, off); Progress(st, st, i, off, []) }

  ghost function WriteOn(g: Writing, s2: OkFs, v: seq<Byte>): Writing
    requires Wrote(g.st, s2, g.i, g.off + |g.w|, v)
  {
    WroteMore(g.s0, g.st, s2, g.i, g.off, g.w, v);
    Progress(g.s0, s2, g.i, g.off, g.w + v)
  }

  /** Blocks were added, but nothing was written. */
  ghost function GrowOn(g: Writing, s2: OkFs): Writing
    requires Grows(g.st, s2)
  {
    GrowsWrote(g.s0, g.st, s2, g.i, g.off, g.w);
    Progress(g.s0, s2, g.i, g.off, g.w)
  }

  lemma GrowsWrote(s0: OkFs, s1: OkFs, s2: OkFs, i: nat, off: nat, w: seq<Byte>)
    requires Wrote(s0, s1, i, off, w) && Grows(s1, s2)
    ensures Wrote(s0, s2, i, off, w)
  {
    SameHeadsMore(s0, s1, s2);
    forall f: nat, p: nat ensures WrittenAt(Snap(s0), Snap(s2), i, off, w, f, p) {
      assert WrittenAt(Snap(s0), Snap(s1), i, off, w, f, p) && KeepsAt(Snap(s1), Snap(s2), f, p);
    }
  }

  lemma SameBlock(off: nat, p: nat, n: nat)
    requires off <= p < off + n && off % BSIZE + n <= BSIZE
    ensures p / BSIZE == off / BSIZE
  {
  }

  function Overwrite(c: seq<Byte>, off: nat, w: seq<Byte>): seq<Byte>
    requires off <= |c|
  {
    c[..off] + w + if off + |w| < |c| then c[off + |w|..] else []
  }

  function Max(a: nat, b: nat): nat { if a < b then b else a }

  /** With the size raised to cover the bytes written, the file is the old one overwritten at `off`,
      and no other file changed. */
  lemma WrittenContent(s0: OkFs, st: OkFs, i: nat, off: nat, w: seq<Byte>)
    requires SameHeads(s0, st) && Written(Snap(s0), Snap(st), i, off, w)
    requires i < |s0.inodes| && off <= s0.inodes[i].size && st.inodes[i].typ != 0 && off + |w| <= MAXFILE * BSIZE
    ensures var n := Max(s0.inodes[i].size, off + |w|);
      && Resize(st, i, n).Ok() && Resize(st, i, n).Content(i) == Overwrite(s0.Content(i), off, w)
      && forall f :: 0 <= f < |s0.inodes| && f != i ==> Resize(st, i, n).Content(f) == s0.Content(f)
  {
    var n := Max(s0.inodes[i].size, off + |w|);
    assert s0.Mapped(i);
    assert SameHead(s0, st, i);
    forall p: nat | p < n ensures st.Has(i, p) {
      WrittenByte(s0, Snap(st), i, off, w, p);
      BytesAt(st, i, p);
    }
    ResizeOk(st, i, n);
    var t := Resize(st, i, n);
    forall p: nat | p < n ensures t.Content(i)[p] == Overwrite(s0.Content(i), off, w)[p] {
      WrittenByte(s0, Snap(st), i, off, w, p);
      ContentByte(t, i, p);
    }
    assert t.Content(i) == Overwrite(s0.Content(i), off, w);
    forall f: nat | f < |s0.inodes| && f != i ensures t.Content(f) == s0.Content(f) { OtherContent(s0, st, t, i, off, w, f); }
  }

  lemma OtherContent(s0: OkFs, st: OkFs, t: OkFs, i: nat, off: nat, w: seq<Byte>, f: nat)
    requires SameHeads(s0, st) && Written(Snap(s0), Snap(st), i, off, w) && f < |s0.inodes| && f != i && i < |s0.inodes|
    requires |t.inodes| == |st.inodes| && t.inodes[f] == st.inodes[f] && forall g: nat, p: nat :: Snap(t)(g, p) == Snap(st)(g, p)
    ensures t.Content(f) == s0.Content(f)
  {
    assert SameHead(s0, st, f);
    forall p: nat ensures KeepsAt(Snap(s0), Snap(t), f, p) { assert WrittenAt(Snap(s0), Snap(st), i, off, w, f, p); }
    ContentKept(s0, t, f);
  }

  lemma WrittenByte(s0: OkFs, m: Snapshot, i: nat, off: nat, w: seq<Byte>, p: nat)
    requires Written(Snap(s0), m, i, off, w) && i < |s0.inodes| && off <= s0.inodes[i].size
    requires p < Max(s0.inodes[i].size, off + |w|)
    ensures m(i, p) == Overwrite(s0.Content(i), off, w)[p]
  {
    assert WrittenAt(Snap(s0), m, i, off, w, i, p);
    if !(off <= p < off + |w|) { ContentByte(s0, i, p); }
  }

  // Freeing.

  /** Block `b` is held in one of slots lo..hi of inode `i`. */
  ghost predicate Within(st: OkFs, b: nat, i: nat, lo: nat, hi: nat)
  {
    b in st.owner && st.owner[b].inum == i && lo <= st.owner[b].s < hi
  }

  ghost predicate OnlyInode(st: OkFs, t: Fs, i: nat)
    requires i < |st.inodes|
  {
    && t.Shape() && |t.inodes| == |st.inodes| && t.meta == st.meta && t.data == st.data
    && t.inodes == st.inodes[i := st.inodes[i].(addrs := t.inodes[i].addrs)]
  }

  ghost predicate OwnersLess(st: OkFs, t: Fs, i: nat, lo: nat, hi: nat) { forall b: nat :: OwnerLess(st, t, i, lo, hi, b) }

  ghost predicate OwnerLess(st: OkFs, t: Fs, i: nat, lo: nat, hi: nat, b: nat)
  {
    if Within(st, b, i, lo, hi) then b !in t.owner
    else (b in t.owner <==> b in st.owner) && (b in st.owner ==> t.owner[b] == st.owner[b])
  }

  ghost predicate SlotsLess(st: OkFs, t: Fs, i: nat, lo: nat, hi: nat)
    requires t.Shape() && |t.inodes| == |st.inodes|
  {
    forall f: nat, r: nat :: SlotLess(st, t, i, lo, hi, f, r)
  }

  ghost predicate SlotLess(st: OkFs, t: Fs, i: nat, lo: nat, hi: nat, f: nat, r: nat)
    requires t.Shape() && |t.inodes| == |st.inodes|
  {
    f < |st.inodes| && r < SLOTS ==> t.At(f, r) == if f == i && lo <= r < hi then 0 else st.At(f, r)
  }

  ghost predicate BitsLess(st: OkFs, t: Fs, i: nat, lo: nat, hi: nat)
    requires t.Shape() && |t.data| == |st.data|
  {
    forall b: nat :: BitLess(st, t, i, lo, hi, b)
  }

  ghost predicate BitLess(st: OkFs, t: Fs, i: nat, lo: nat, hi: nat, b: nat)
    requires t.Shape() && |t.data| == |st.data|
  {
    b < |st.data| ==> (Bit(t.bitmap, b) <==> Bit(st.bitmap, b) && !Within(st, b, i, lo, hi))
  }

  /** Slots lo..hi of inode `i` are emptied and their blocks freed; every other slot keeps its block. */
  ghost predicate Emptied(st: OkFs, t: Fs, i: nat, lo: nat, hi: nat)
    requires i < |st.inodes|
  {
    && OnlyInode(st, t, i) && OwnersLess(st, t, i, lo, hi)
    && SlotsLess(st, t, i, lo, hi) && BitsLess(st, t, i, lo, hi)
  }

  lemma EmptiedOk(st: OkFs, t: Fs, i: nat, lo: nat, hi: nat)
    requires i < |st.inodes| && st.inodes[i].size == 0 && Emptied(st, t, i, lo, hi)
    ensures t.Ok()
  {
    forall f: nat, r: nat ensures t.Owns(f, r) { EmptiedOwns(st, t, i, lo, hi, f, r); }
    forall b: nat ensures t.Held(b) {
      assert st.Held(b) && OwnerLess(st, t, i, lo, hi, b);
      if b in st.owner { assert SlotLess(st, t, i, lo, hi, st.owner[b].inum, st.owner[b].s); }
    }
    forall b: nat ensures t.Marked(b) { assert st.Marked(b) && st.Held(b) && OwnerLess(st, t, i, lo, hi, b) && BitLess(st, t, i, lo, hi, b); }
    forall f: nat ensures t.Mapped(f) { EmptiedMapped(st, t, i, lo, hi, f); }
  }

  lemma EmptiedOwns(st: OkFs, t: Fs, i: nat, lo: nat, hi: nat, f: nat, r: nat)
    requires i < |st.inodes| && Emptied(st, t, i, lo, hi)
    ensures t.Owns(f, r)
  {
    assert st.Owns(f, r) && SlotLess(st, t, i, lo, hi, f, r);
    if f < |st.inodes| && r < SLOTS { assert OwnerLess(st, t, i, lo, hi, st.At(f, r)); }
  }

  lemma EmptiedMapped(st: OkFs, t: Fs, i: nat, lo: nat, hi: nat, f: nat)
    requires i < |st.inodes| && st.inodes[i].size == 0 && Emptied(st, t, i, lo, hi)
    ensures t.Mapped(f)
  {
    assert st.Mapped(f);
    if f < |st.inodes| {
      forall bn: nat ensures t.Filled(f, bn) { assert st.Filled(f, bn) && SlotLess(st, t, i, lo, hi, f, FileSlot(bn)); }
      if f == i {
        forall r | 0 <= r <= NDIRECT && st.inodes[i].addrs[r] == 0 ensures t.inodes[i].addrs[r] == 0 {
          assert SlotLess(st, t, i, lo, hi, i, r) && t.At(i, r) == t.inodes[i].addrs[r] && st.At(i, r) == st.inodes[i].addrs[r];
        }
      }
    }
  }

  lemma EmptiedNone(st: OkFs, i: nat, lo: nat, hi: nat)
    requires i < |st.inodes| && hi <= SLOTS && forall r :: lo <= r < hi ==> st.At(i, r) == 0
    ensures Emptied(st, st, i, lo, hi)
  {
    forall b: nat ensures !Within(st, b, i, lo, hi) && OwnerLess(st, st, i, lo, hi, b) && BitLess(st, st, i, lo, hi, b) {
      assert st.Held(b) && st.Owns(i, 0);
    }
    forall f: nat, r: nat ensures SlotLess(st, st, i, lo, hi, f, r) { }
  }

  lemma EmptiedJoin(st: OkFs, t: OkFs, u: OkFs, i: nat, lo: nat, mid: nat, hi: nat)
    requires i < |st.inodes| && lo <= mid <= hi && Emptied(st, t, i, lo, mid) && Emptied(t, u, i, mid, hi)
    ensures Emptied(st, u, i, lo, hi)
  {
    forall b: nat ensures OwnerLess(st, u, i, lo, hi, b) && BitLess(st, u, i, lo, hi, b) {
      assert OwnerLess(st, t, i, lo, mid, b) && OwnerLess(t, u, i, mid, hi, b) && BitLess(st, t, i, lo, mid, b) && BitLess(t, u, i, mid, hi, b);
    }
    forall f: nat, r: nat ensures SlotLess(st, u, i, lo, hi, f, r) { assert SlotLess(st, t, i, lo, mid, f, r) && SlotLess(t, u, i, mid, hi, f, r); }
  }

  /** Emptying every slot of an inode whose size is set to 0 frees exactly its blocks and touches
      no other file. */
  lemma Truncated(s0: OkFs, st: OkFs, i: nat)
    requires i < |s0.inodes| && Resize(s0, i, 0).Ok() && Emptied(Resize(s0, i, 0), st, i, 0, SLOTS)
    ensures |st.inodes| == |s0.inodes| && |st.data| == |s0.data|
    ensures forall b: nat :: b < |s0.data| ==> (Bit(st.bitmap, b) <==> Bit(s0.bitmap, b) && !Within(s0, b, i, 0, SLOTS))
    ensures forall f :: 0 <= f < |s0.inodes| && f != i ==> st.Content(f) == s0.Content(f)
    ensures forall s :: 0 <= s < SLOTS ==> st.At(i, s) == 0
  {
    var t := Resize(s0, i, 0);
    forall b: nat | b < |s0.data| ensures Bit(st.bitmap, b) <==> Bit(s0.bitmap, b) && !Within(s0, b, i, 0, SLOTS) { assert BitLess(t, st, i, 0, SLOTS, b); }
    forall s: nat | s < SLOTS ensures st.At(i, s) == 0 { assert SlotLess(t, st, i, 0, SLOTS, i, s); }
    forall f: nat | f < |s0.inodes| && f != i ensures st.Content(f) == s0.Content(f) { UntouchedContent(s0, st, i, f); }
  }

  lemma UntouchedContent(s0: OkFs, st: OkFs, i: nat, f: nat)
    requires i < |s0.inodes| && Resize(s0, i, 0).Ok() && Emptied(Resize(s0, i, 0), st, i, 0, SLOTS) && f < |s0.inodes| && f != i
    ensures st.Content(f) == s0.Content(f)
  {
    forall p: nat | p < s0.inodes[f].size ensures st.Content(f)[p] == s0.Content(f)[p] {
      s0.SizeHas(f, p);
      assert SlotLess(Resize(s0, i, 0), st, i, 0, SLOTS, f, FileSlot(p / BSIZE));
    }
  }

  lemma ShrinkOk(st: OkFs, i: nat)
    requires i < |st.inodes|
    ensures Resize(st, i, 0).Ok()
  {
    var t := Resize(st, i, 0);
    assert t.Shape();
    forall f: nat, r: nat ensures SameSlot(st, t, f, r) { }
    SameSlotsOk(st, t);
    forall f: nat ensures t.Mapped(f) {
      assert st.Mapped(f);
      if f == i { forall bn: nat ensures t.Filled(i, bn) { } } else { KeptMapped(st, t, f); }
    }
  }

  /** bfree of direct block `s`, and the slot cleared. */
  ghost function DropDirect(st: OkFs, i: nat, s: nat): Fs
    requires i < |st.inodes| && s < NDIRECT && st.At(i, s) != 0
  {
    var ino, b := st.inodes[i], st.At(i, s);
    HolderIs(st, i, s, b);
    st.(bitmap := ClearBit(st.bitmap, b), inodes := st.inodes[i := ino.(addrs := ino.addrs[s := 0])],
        owner := map c | c in st.owner && !Within(st, c, i, s, s + 1) :: st.owner[c])
  }

  lemma DropDirectOk(st: OkFs, i: nat, s: nat)
    requires i < |st.inodes| && s < NDIRECT && st.At(i, s) != 0 && st.inodes[i].size == 0
    ensures st.At(i, s) < |st.data| && Bit(st.bitmap, st.At(i, s)) && Emptied(st, DropDirect(st, i, s), i, s, s + 1) && DropDirect(st, i, s).Ok()
  {
    var t, b, hi := DropDirect(st, i, s), st.At(i, s), s + 1;
    HolderIs(st, i, s, b);
    assert t.Shape();
    forall c: nat ensures OwnerLess(st, t, i, s, hi, c) && BitLess(st, t, i, s, hi, c) {
      if c < |st.data| { BitClear(st.bitmap, b, c); }
      HolderIs(st, i, s, c);
    }
    forall f: nat, r: nat ensures SlotLess(st, t, i, s, hi, f, r) { }
    EmptiedOk(st, t, i, s, hi);
  }

  /** The bitmap after the first `j` entries of inode i's indirect block were freed. */
  ghost function ClearEntries(st: OkFs, i: nat, j: nat): (r: seq<Block>)
    requires i < |st.inodes| && j <= NINDIRECT
    ensures |r| == |st.bitmap|
  {
    if j == 0 then st.bitmap
    else
      var b := st.At(i, NDIRECT + j);
      if b == 0 then ClearEntries(st, i, j - 1)
      else
        HolderIs(st, i, NDIRECT + j, b);
        ClearBit(ClearEntries(st, i, j - 1), b)
  }

  lemma {:induction false} EntriesCleared(st: OkFs, i: nat, j: nat, c: nat)
    requires i < |st.inodes| && j <= NINDIRECT && c < |st.data|
    ensures Bit(ClearEntries(st, i, j), c) <==> Bit(st.bitmap, c) && !Within(st, c, i, NDIRECT + 1, NDIRECT + 1 + j)
  {
    if j > 0 {
      EntriesCleared(st, i, j - 1, c);
      var b := st.At(i, NDIRECT + j);
      HolderIs(st, i, NDIRECT + j, c);
      if b != 0 { BitClear(ClearEntries(st, i, j - 1), b, c); }
    }
  }

  lemma HolderIs(st: OkFs, i: nat, s: nat, c: nat)
    requires i < |st.inodes| && s < SLOTS
    ensures c in st.owner && st.owner[c] == Slot(i, s) <==> st.At(i, s) == c != 0
    ensures st.At(i, s) != 0 ==> st.meta <= st.At(i, s) < |st.data| && Bit(st.bitmap, st.At(i, s))
  {
    assert st.Owns(i, s) && st.Held(st.At(i, s)) && st.Marked(st.At(i, s)) && st.Held(c);
  }

  /** The indirect block, all its entries and its slot are gone. */
  ghost function DropIndirect(st: OkFs, i: nat): Fs
    requires i < |st.inodes| && st.At(i, NDIRECT) != 0
  {
    var ino, b := st.inodes[i], st.At(i, NDIRECT);
    HolderIs(st, i, NDIRECT, b);
    st.(bitmap := ClearBit(ClearEntries(st, i, NINDIRECT), b), inodes := st.inodes[i := ino.(addrs := ino.addrs[NDIRECT := 0])],
        owner := map c | c in st.owner && !Within(st, c, i, NDIRECT, SLOTS) :: st.owner[c])
  }

  lemma DropIndirectBits(st: OkFs, i: nat, c: nat)
    requires i < |st.inodes| && st.At(i, NDIRECT) != 0 && c < |st.data|
    ensures Bit(DropIndirect(st, i).bitmap, c) <==> Bit(st.bitmap, c) && !Within(st, c, i, NDIRECT, SLOTS)
  {
    var b := st.At(i, NDIRECT);
    HolderIs(st, i, NDIRECT, c);
    EntriesCleared(st, i, NINDIRECT, c);
    BitClear(ClearEntries(st, i, NINDIRECT), b, c);
  }

  lemma DropIndirectShape(st: OkFs, i: nat)
    requires i < |st.inodes| && st.At(i, NDIRECT) != 0
    ensures OnlyInode(st, DropIndirect(st, i), i) && OwnersLess(st, DropIndirect(st, i), i, NDIRECT, SLOTS)
  {
    forall c: nat ensures OwnerLess(st, DropIndirect(st, i), i, NDIRECT, SLOTS, c) { }
  }

  lemma DropIndirectSlots(st: OkFs, i: nat)
    requires i < |st.inodes| && st.At(i, NDIRECT) != 0 && OnlyInode(st, DropIndirect(st, i), i)
    ensures SlotsLess(st, DropIndirect(st, i), i, NDIRECT, SLOTS)
  {
    var t := DropIndirect(st, i);
    forall f: nat, r: nat ensures SlotLess(st, t, i, NDIRECT, SLOTS, f, r) { }
  }

  lemma DropIndirectOk(st: OkFs, i: nat)
    requires i < |st.inodes| && st.At(i, NDIRECT) != 0 && st.inodes[i].size == 0
    ensures Bit(ClearEntries(st, i, NINDIRECT), st.At(i, NDIRECT))
    ensures Emptied(st, DropIndirect(st, i), i, NDIRECT, SLOTS) && DropIndirect(st, i).Ok()
  {
    var t, b := DropIndirect(st, i), st.At(i, NDIRECT);
    HolderIs(st, i, NDIRECT, b);
    EntriesCleared(st, i, NINDIRECT, b);
    DropIndirectShape(st, i);
    DropIndirectSlots(st, i);
    forall c: nat ensures BitLess(st, t, i, NDIRECT, SLOTS, c) { if c < |st.data| { DropIndirectBits(st, i, c); } }
    EmptiedOk(st, t, i, NDIRECT, SLOTS);
  }
}
