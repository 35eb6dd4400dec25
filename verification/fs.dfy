/** The block and inode layers of kernel/fs.c, in place: balloc, bfree, bmap, itrunc, readi,
    writei, ialloc, iupdate and the freeing half of iput. */
module FileSystem {
  import opened Options
  import opened Ranges
  import InodeTable
  import opened Blocks
  import opened Bitmap
  import opened FsState

  /** struct inode: an in-memory copy of the inode numbered `inum`. */
  class Mem {
    const inum: nat
    var ino: Inode

    constructor (i: nat, d: Inode)
      ensures inum == i && ino == d
    {
      inum, ino := i, d;
    }
  }

  /** The indirect block of an inode, if it has one. */
  ghost function Indirect(ino: Inode): set<nat>
    requires |ino.addrs| == NDIRECT + 1
  {
    if ino.addrs[NDIRECT] == 0 then {} else {ino.addrs[NDIRECT]}
  }

  ghost predicate KeepsIndirect(a: Inode, b: Inode)
  {
    |a.addrs| == |b.addrs| == NDIRECT + 1 && Indirect(a) <= Indirect(b)
  }

  /** What is on the disk, apart from superblock and log. */
  datatype Medium = Medium(bitmap: seq<Block>, inodes: seq<Inode>, data: seq<Block>)

  /** From `a` to `b` only blocks in `log` changed, with the inode blocks from `istart` on and the bitmap from `bstart`
      on. */
  ghost predicate Logs(a: Medium, b: Medium, log: set<nat>, istart: nat, bstart: nat)
  {
    && |b.bitmap| == |a.bitmap| && |b.inodes| == |a.inodes| && |b.data| == |a.data|
    && (forall k: nat :: MapLogged(a, b, log, bstart, k)) && (forall k: nat :: InodeLogged(a, b, log, istart, k))
    && (forall k: nat :: DataLogged(a, b, log, k))
  }

  ghost predicate MapLogged(a: Medium, b: Medium, log: set<nat>, bstart: nat, k: nat)
    requires |b.bitmap| == |a.bitmap|
  {
    k < |a.bitmap| && b.bitmap[k] != a.bitmap[k] ==> k + bstart in log
  }

  ghost predicate InodeLogged(a: Medium, b: Medium, log: set<nat>, istart: nat, k: nat)
    requires |b.inodes| == |a.inodes|
  {
    k < |a.inodes| && b.inodes[k] != a.inodes[k] ==> k / InodeTable.IPB + istart in log
  }

  ghost predicate DataLogged(a: Medium, b: Medium, log: set<nat>, k: nat)
    requires |b.data| == |a.data|
  {
    k < |a.data| && b.data[k] != a.data[k] ==> k in log
  }

  lemma LogsNothing(a: Medium, log: set<nat>, istart: nat, bstart: nat)
    ensures Logs(a, a, log, istart, bstart)
  {
    forall k: nat ensures MapLogged(a, a, log, bstart, k) && InodeLogged(a, a, log, istart, k) && DataLogged(a, a, log, k) { }
  }

  /** One more change, of blocks in `more`. */
  lemma LogsMore(a: Medium, b: Medium, c: Medium, log: set<nat>, more: set<nat>, istart: nat, bstart: nat)
    requires Logs(a, b, log, istart, bstart) && log <= more && |c.bitmap| == |b.bitmap| && |c.inodes| == |b.inodes| && |c.data| == |b.data|
    requires forall k: nat :: k < |b.bitmap| && c.bitmap[k] != b.bitmap[k] ==> k + bstart in more
    requires forall k: nat :: k < |b.inodes| && c.inodes[k] != b.inodes[k] ==> k / InodeTable.IPB + istart in more
    requires forall k: nat :: k < |b.data| && c.data[k] != b.data[k] ==> k in more
    ensures Logs(a, c, more, istart, bstart)
  {
    forall k: nat ensures MapLogged(a, c, more, bstart, k) && InodeLogged(a, c, more, istart, k) && DataLogged(a, c, more, k) {
      assert MapLogged(a, b, log, bstart, k) && InodeLogged(a, b, log, istart, k) && DataLogged(a, b, log, k);
    }
  }

  // When balloc panics.

  ghost predicate NoFree(st: OkFs) { forall b :: 0 <= b < |st.data| ==> Bit(st.bitmap, b) }

  /** There is at most one free block. */
  ghost predicate AtMostOne(st: OkFs) { forall b, c :: 0 <= b < |st.data| && 0 <= c < |st.data| && !Bit(st.bitmap, b) && !Bit(st.bitmap, c) ==> b == c }

  /** bmap of the unmapped file block `bn` finds too few free blocks. */
  ghost predicate Short(st: OkFs, i: nat, bn: nat)
    requires i < |st.inodes| && bn < MAXFILE
  {
    st.At(i, FileSlot(bn)) == 0 && (NoFree(st) || (bn >= NDIRECT && st.At(i, NDIRECT) == 0 && AtMostOne(st)))
  }

  /** From `st` to `t` block `b`, which was free, was taken. */
  ghost predicate Taken(st: OkFs, t: OkFs, b: nat) { IsFree(st, b) && |t.data| == |st.data| && t.bitmap == SetBit(st.bitmap, b) }

  lemma OneFree(st: OkFs, t: OkFs, b: nat)
    requires Taken(st, t, b)
    ensures NoFree(t) <==> AtMostOne(st)
  {
    forall c: nat | c < |st.data| ensures Bit(t.bitmap, c) <==> b == c || Bit(st.bitmap, c) { BitSet(st.bitmap, b, c); }
  }

  /** Without an indirect block there is no entry. */
  lemma EntryLacks(st: OkFs, i: nat, j: nat)
    requires i < |st.inodes| && j < NINDIRECT && st.At(i, NDIRECT) == 0
    ensures st.At(i, NDIRECT + 1 + j) == 0
  {
  }

  ghost predicate KeepsSlot(st: OkFs, t: OkFs, i: nat, k: nat, s: nat)
    requires |t.inodes| == |st.inodes| && i < |st.inodes|
  {
    s < SLOTS && s != k ==> t.At(i, s) == st.At(i, s)
  }

  lemma GiveKeeps(st: OkFs, i: nat, k: nat, b: nat)
    requires i < |st.inodes| && k <= NDIRECT && st.At(i, k) == 0 && IsFree(st, b) && st.inodes[i].typ != 0
    ensures Give(st, i, k, b).Ok() && forall s: nat :: KeepsSlot(st, Give(st, i, k, b), i, k, s)
  {
    GiveOk(st, i, k, b);
    GiveSlots(st, i, k, b);
    forall s: nat ensures KeepsSlot(st, Give(st, i, k, b), i, k, s) { assert MoreAt(st, Give(st, i, k, b), i, k, b, i, s); }
  }

  class Volume {
    const meta: nat        // first data block
    const inodestart: nat
    const bmapstart: nat
    const nbitmap: nat     // number of bitmap blocks
    var bitmap: seq<Block>
    var dinodes: seq<Inode>
    var data: seq<Block>
    ghost var st: OkFs           // the volume with the in-memory inode written back
    ghost var base: Medium       // the volume when the transaction began
    ghost var logged: set<nat>   // blocks passed to log_write since

    /** The volume, with `ip` standing for its inode, is the consistent state `st`. */
    ghost predicate Valid(ip: Mem)
      reads this, ip
    {
      && ip.inum < |dinodes| && meta == st.meta && |bitmap| == nbitmap
      && bitmap == st.bitmap && data == st.data && st.inodes == dinodes[ip.inum := ip.ino]
    }

    ghost function Now(): Medium reads this { Medium(bitmap, dinodes, data) }

    /** Every block that the transaction has changed was passed to log_write. */
    ghost predicate Covered() reads this { Logs(base, Now(), logged, inodestart, bmapstart) }

    function IBlock(inum: nat): nat { inum / InodeTable.IPB + inodestart }

    function BBlock(b: nat): nat { b / BPB + bmapstart }

    /** No block is free: balloc panics. */
    ghost predicate Full()
      reads this
    {
      |data| <= |bitmap| * BPB && forall b :: 0 <= b < |data| ==> Bit(bitmap, b)
    }

    /** The blocks of the free bitmap. */
    ghost function BitmapBlocks(): set<nat>
    {
      Span(bmapstart, nbitmap)
    }

    constructor (m: nat, istart: nat, bstart: nat, ghost s: OkFs, bm: seq<Block>, ds: seq<Inode>, d: seq<Block>)
      requires s.meta == m && s.bitmap == bm && s.inodes == ds && s.data == d
      ensures st == s && meta == m && inodestart == istart && bmapstart == bstart && nbitmap == |bm|
      ensures bitmap == bm && dinodes == ds && data == d && logged == {} && base == Now() && Covered()
    {
      LogsNothing(Medium(bm, ds, d), {}, istart, bstart);
      meta, inodestart, bmapstart, nbitmap := m, istart, bstart, |bm|;
      bitmap, dinodes, data, st, logged, base := bm, ds, d, s, {}, Medium(bm, ds, d);
    }

    /** balloc: the first free block, now marked and zeroed; None where the kernel panics for want
        of a free block. */
    method Balloc() returns (r: Option<nat>)
      requires Covered() && bitmap == st.bitmap && data == st.data && |bitmap| == nbitmap
      modifies this`bitmap, this`data, this`logged
      ensures |bitmap| == nbitmap
      ensures r.None? ==> bitmap == old(bitmap) && data == old(data) && logged == old(logged)
      ensures r.None? <==> NoFree(st)
      ensures r.None? ==> Full()
      ensures r.Some? ==> IsFree(st, r.value) && forall b :: 0 <= b < r.value ==> Bit(st.bitmap, b)
      ensures r.Some? ==> bitmap == SetBit(st.bitmap, r.value) && data == st.data[r.value := ZeroBlock()]
      ensures r.Some? ==> logged == old(logged) + {BBlock(r.value), r.value} && BBlock(r.value) in BitmapBlocks()
      ensures Covered()
    {
      var b := FindFree(bitmap, |data|);
      if b == |data| { return None; }
      assert st.Marked(b) && !Bit(st.bitmap, b);
      SpanHas(bmapstart, nbitmap, BBlock(b));
      Mark(b);
      return Some(b);
    }

    /** balloc's stores: the bit, and bzero. */
    method Mark(b: nat)
      requires Covered() && b < |data| <= |bitmap| * BPB
      modifies this`bitmap, this`data, this`logged
      ensures bitmap == SetBit(old(bitmap), b) && data == old(data)[b := ZeroBlock()] && logged == old(logged) + {BBlock(b), b}
      ensures Covered()
    {
      ghost var a := Now();
      bitmap := SetBit(bitmap, b);
      data := data[b := ZeroBlock()];
      LogsMore(base, a, Now(), logged, logged + {BBlock(b), b}, inodestart, bmapstart);
      logged := logged + {BBlock(b), b};
    }

    /** bfree; false is the "freeing free block" panic. */
    method Bfree(b: nat) returns (ok: bool)
      requires Covered() && Covers(bitmap, b)
      modifies this`bitmap, this`logged
      ensures ok == Bit(old(bitmap), b)
      ensures bitmap == if ok then ClearBit(old(bitmap), b) else old(bitmap)
      ensures logged == if ok then old(logged) + {BBlock(b)} else old(logged)
      ensures Covered()
    {
      ok := Bit(bitmap, b);
      if ok {
        ghost var a := Now();
        bitmap := ClearBit(bitmap, b);
        LogsMore(base, a, Now(), logged, logged + {BBlock(b)}, inodestart, bmapstart);
        logged := logged + {BBlock(b)};
      }
    }

    /** Inode address `k`, with a block allocated for it if it had none. */
    method MapAddr(ip: Mem, k: nat) returns (r: Option<nat>)
      requires Covered() && Valid(ip) && ip.ino.typ != 0 && k <= NDIRECT
      modifies this`bitmap, this`data, this`logged, this`st, ip
      ensures Valid(ip) && Grows(old(st), st) && ip.ino == old(ip.ino).(addrs := ip.ino.addrs)
      ensures |ip.ino.addrs| == NDIRECT + 1
      ensures r.None? <==> old(st).At(ip.inum, k) == 0 && NoFree(old(st))
      ensures r.None? ==> st == old(st) && Full()
      ensures r.Some? ==> st.At(ip.inum, k) == ip.ino.addrs[k] == r.value != 0
      ensures r.Some? ==> logged <= old(logged) + {r.value} + BitmapBlocks()
      ensures old(st).At(ip.inum, k) != 0 ==> r.Some? && st == old(st) && logged == old(logged)
      ensures old(st).At(ip.inum, k) == 0 && r.Some? ==> Taken(old(st), st, r.value)
      ensures forall s: nat :: KeepsSlot(old(st), st, ip.inum, k, s)
      ensures Covered()
    {
      assert st.inodes[ip.inum] == ip.ino;
      var addr := ip.ino.addrs[k];
      assert addr == st.At(ip.inum, k);
      r := Some(addr);
      GrowsNothing(st);
      if addr == 0 {
        r := Balloc();
        if r.Some? {
          GiveOk(st, ip.inum, k, r.value);
          GiveKeeps(st, ip.inum, k, r.value);
          ip.ino := ip.ino.(addrs := ip.ino.addrs[k := r.value]);
          st := Give(st, ip.inum, k, r.value);
        }
      }
    }

    /** A new block for entry `j` of the indirect block. */
    method NewEntry(ip: Mem, j: nat, ind: nat) returns (r: Option<nat>)
      requires Covered() && Valid(ip) && ip.ino.typ != 0 && j < NINDIRECT && ind == st.inodes[ip.inum].addrs[NDIRECT] != 0
      requires st.At(ip.inum, NDIRECT + 1 + j) == 0
      modifies this`bitmap, this`data, this`logged, this`st
      ensures r.None? <==> NoFree(old(st))
      ensures r.None? ==> Valid(ip) && st == old(st) && Full()
      ensures r.Some? ==> IsFree(old(st), r.value) && st == GiveEntry(old(st), ip.inum, j, r.value)
      ensures r.Some? ==> bitmap == st.bitmap && data == st.data && logged <= old(logged) + {r.value, ind} + BitmapBlocks() && |bitmap| == nbitmap
      ensures Covered()
    {
      r := Balloc();
      if r.Some? {
        ghost var a := Now();
        data := data[ind := PutWord(data[ind], j, r.value)];
        LogsMore(base, a, Now(), logged, logged + {ind}, inodestart, bmapstart);
        logged := logged + {ind};
        GiveEntryOk(st, ip.inum, j, r.value);
        st := GiveEntry(st, ip.inum, j, r.value);
      }
    }

    /** Entry `j` of the indirect block, with a block allocated for it if it had none. */
    method MapEntry(ip: Mem, j: nat) returns (r: Option<nat>)
      requires Covered() && Valid(ip) && ip.ino.typ != 0 && j < NINDIRECT && st.At(ip.inum, NDIRECT) != 0
      modifies this`bitmap, this`data, this`logged, this`st
      ensures Valid(ip) && Grows(old(st), st)
      ensures r.None? <==> old(st).At(ip.inum, NDIRECT + 1 + j) == 0 && NoFree(old(st))
      ensures r.None? ==> st == old(st) && Full()
      ensures r.Some? ==> st.At(ip.inum, NDIRECT + 1 + j) == r.value != 0 && |ip.ino.addrs| == NDIRECT + 1
      ensures r.Some? ==> logged <= old(logged) + {r.value, ip.ino.addrs[NDIRECT]} + BitmapBlocks()
      ensures old(st).At(ip.inum, NDIRECT + 1 + j) != 0 ==> r.Some? && st == old(st) && logged == old(logged)
      ensures Covered()
    {
      assert st.inodes[ip.inum] == ip.ino;
      var ind := ip.ino.addrs[NDIRECT];
      assert ind == st.At(ip.inum, NDIRECT);
      var addr := GetWord(data[ind], j);
      assert addr == st.At(ip.inum, NDIRECT + 1 + j);
      r := Some(addr);
      GrowsNothing(st);
      if addr == 0 {
        ghost var s0 := st;
        r := NewEntry(ip, j, ind);
        if r.Some? { GiveEntryOk(s0, ip.inum, j, r.value); }
      }
    }

    /** The indirect half of bmap: the indirect block, allocated if need be, then its entry. */
    method MapIndirect(ip: Mem, j: nat) returns (r: Option<nat>)
      requires Covered() && Valid(ip) && ip.ino.typ != 0 && j < NINDIRECT
      modifies this`bitmap, this`data, this`logged, this`st, ip
      ensures Valid(ip) && Grows(old(st), st) && ip.ino == old(ip.ino).(addrs := ip.ino.addrs)
      ensures r.None? <==> Short(old(st), ip.inum, NDIRECT + j)
      ensures r.None? ==> Full()
      ensures r.Some? ==> st.At(ip.inum, NDIRECT + 1 + j) == r.value != 0 && KeepsIndirect(old(ip.ino), ip.ino)
      ensures r.Some? ==> logged <= old(logged) + {r.value} + Indirect(ip.ino) + BitmapBlocks()
      ensures old(st).At(ip.inum, NDIRECT + 1 + j) != 0 ==> r.Some? && st == old(st) && ip.ino == old(ip.ino) && logged == old(logged)
      ensures Covered()
    {
      assert st.inodes[ip.inum] == ip.ino;
      r := MapAddr(ip, NDIRECT);
      ghost var s1 := st;
      assert KeepsSlot(old(st), s1, ip.inum, NDIRECT, NDIRECT + 1 + j);
      if r.Some? {
        if old(st).At(ip.inum, NDIRECT) == 0 { OneFree(old(st), s1, r.value); }
        r := MapEntry(ip, j);
        GrowsTransitive(old(st), s1, st);
      } else {
        EntryLacks(old(st), ip.inum, j);
      }
    }

    /** bmap: the disk block of the file's block `bn`; nothing changes if it was mapped. None where
        the kernel panics, out of range or out of blocks. */
    method Bmap(ip: Mem, bn: nat) returns (r: Option<nat>)
      requires Covered() && Valid(ip) && ip.ino.typ != 0
      modifies this`bitmap, this`data, this`logged, this`st, ip
      ensures Valid(ip) && Grows(old(st), st) && ip.ino == old(ip.ino).(addrs := ip.ino.addrs)
      ensures r.None? <==> bn >= MAXFILE || Short(old(st), ip.inum, bn)
      ensures r.None? ==> bn >= MAXFILE || Full()
      ensures r.Some? ==> st.At(ip.inum, FileSlot(bn)) == r.value != 0 && KeepsIndirect(old(ip.ino), ip.ino)
      ensures r.Some? ==> logged <= old(logged) + {r.value} + Indirect(ip.ino) + BitmapBlocks()
      ensures bn < MAXFILE && old(st).At(ip.inum, FileSlot(bn)) != 0 ==>
        r.Some? && st == old(st) && ip.ino == old(ip.ino) && logged == old(logged)
      ensures Covered()
    {
      if bn < NDIRECT {
        assert st.inodes[ip.inum] == ip.ino;
        r := MapAddr(ip, bn);
        assert KeepsSlot(old(st), st, ip.inum, bn, NDIRECT) && st.At(ip.inum, NDIRECT) == ip.ino.addrs[NDIRECT];
      } else if bn - NDIRECT < NINDIRECT {
        r := MapIndirect(ip, bn - NDIRECT);
      } else {
        GrowsNothing(st);
        r := None;
      }
    }

    /** iupdate. */
    method Iupdate(ip: Mem)
      requires Covered() && Valid(ip)
      modifies this`dinodes, this`logged
      ensures Valid(ip) && dinodes == st.inodes && logged == old(logged) + {IBlock(ip.inum)}
      ensures Covered()
    {
      ghost var a := Now();
      dinodes := dinodes[ip.inum := ip.ino];
      LogsMore(base, a, Now(), logged, logged + {IBlock(ip.inum)}, inodestart, bmapstart);
      logged := logged + {IBlock(ip.inum)};
    }

    /** One round of readi's loop: `m` bytes of the file, all in one block. */
    method ReadOnce(ip: Mem, at: nat, m: nat) returns (out: seq<Byte>)
      requires Covered() && Valid(ip) && ip.ino.typ != 0 && at + m <= ip.ino.size && 0 < m <= BSIZE - at % BSIZE
      modifies this`bitmap, this`data, this`logged, this`st, ip
      ensures Valid(ip) && st == old(st) && ip.ino == old(ip.ino) && logged == old(logged)
      ensures at + m <= |st.Content(ip.inum)| && out == st.Content(ip.inum)[at..at + m]
      ensures Covered()
    {
      assert st.inodes[ip.inum] == ip.ino;
      ReadBlock(st, ip.inum, at, m);
      MappedAt(st, ip.inum, at);
      var b := Bmap(ip, at / BSIZE);
      out := data[b.value].data[at % BSIZE..at % BSIZE + m];
    }

    /** The next piece of readi's loop, of which `out` is what it has so far. */
    method ReadRound(ip: Mem, off: nat, tot: nat, m: nat, out: seq<Byte>) returns (more: seq<Byte>)
      requires Covered() && Valid(ip) && ip.ino.typ != 0 && off + tot + m <= |st.Content(ip.inum)| && 0 < m <= BSIZE - (off + tot) % BSIZE
      requires out == st.Content(ip.inum)[off..off + tot]
      modifies this`bitmap, this`data, this`logged, this`st, ip
      ensures Valid(ip) && st == old(st) && ip.ino == old(ip.ino) && logged == old(logged)
      ensures more == st.Content(ip.inum)[off..off + tot + m]
      ensures Covered()
    {
      Adjacent(st.Content(ip.inum), off, off + tot, off + tot + m);
      var bytes := ReadOnce(ip, off + tot, m);
      more := out + bytes;
    }

    /** readi's loop, for `len` bytes that the file has. */
    method ReadBlocks(ip: Mem, off: nat, len: nat, room: nat) returns (r: int, out: seq<Byte>)
      requires Covered() && Valid(ip) && ip.ino.typ != 0 && off + len <= |st.Content(ip.inum)|
      modifies this`bitmap, this`data, this`logged, this`st, ip
      ensures Valid(ip) && st == old(st) && ip.ino == old(ip.ino) && logged == old(logged)
      ensures if len <= room then r == len && out == st.Content(ip.inum)[off..off + len] else r == -1
      ensures Covered()
    {
      var tot, ok := 0, true;
      out := [];
      while ok && tot < len
        invariant tot <= len && Valid(ip) && st == old(st) && ip.ino == old(ip.ino) && logged == old(logged) && Covered()
        invariant if ok then tot <= room && out == st.Content(ip.inum)[off..off + tot] else len > room
        decreases ok, len - tot
      {
        var m := Step(off, len, tot);
        ok := tot + m <= room;
        var more := ReadRound(ip, off, tot, m, out);
        if ok { out, tot := more, tot + m; }
      }
      r := if ok then tot else -1;
    }

    /** readi for uint arguments, into a destination whose first `room` bytes are writable: the bytes
        of the file from `off` on, at most `n` of them; nothing on the volume changes. */
    method Readi(ip: Mem, off: nat, n: nat, room: nat) returns (r: int, out: seq<Byte>)
      requires Covered() && Valid(ip) && ip.ino.typ != 0 && off < TWO32 && n < TWO32
      modifies this`bitmap, this`data, this`logged, this`st, ip
      ensures Valid(ip) && st == old(st) && ip.ino == old(ip.ino) && logged == old(logged)
      ensures var c := st.Content(ip.inum);
        if off > |c| || off + n >= TWO32 then r == 0
        else var k := if off + n > |c| then |c| - off else n;
          if k <= room then r == k && out == c[off..off + k] else r == -1
      ensures Covered()
    {
      assert |st.Content(ip.inum)| == ip.ino.size;
      if off > ip.ino.size || (off + n) % TWO32 < off {
        r, out := 0, [];
      } else {
        r, out := ReadBlocks(ip, off, if off + n > ip.ino.size then ip.ino.size - off else n, room);
      }
    }

    /** The copy into the block and its log_write. */
    method CopyIn(ip: Mem, at: nat, b: nat, chunk: seq<Byte>)
      requires Covered() && Valid(ip) && at % BSIZE + |chunk| <= BSIZE
      requires at / BSIZE < MAXFILE && st.At(ip.inum, FileSlot(at / BSIZE)) == b != 0
      modifies this`data, this`logged, this`st
      ensures Valid(ip) && logged == old(logged) + {b} && Wrote(old(st), st, ip.inum, at, chunk)
      ensures Covered()
    {
      assert st.Has(ip.inum, at);
      PutWritten(st, ip.inum, at, chunk);
      HolderIs(st, ip.inum, FileSlot(at / BSIZE), b);
      ghost var a := Now();
      data := data[b := Splice(data[b], at % BSIZE, chunk)];
      LogsMore(base, a, Now(), logged, logged + {b}, inodestart, bmapstart);
      logged := logged + {b};
      st := Put(st, ip.inum, at, chunk);
    }

    /** One round of writei's loop: `chunk` goes into one block of the file; if the copy from the
        source fails (`ok` is false) only the allocation happens. */
    method WriteOnce(ip: Mem, at: nat, chunk: seq<Byte>, ok: bool) returns (r: Option<nat>)
      requires Covered() && Valid(ip) && ip.ino.typ != 0 && at % BSIZE + |chunk| <= BSIZE && (!ok ==> chunk == [])
      modifies this`bitmap, this`data, this`logged, this`st, ip
      ensures Valid(ip) && ip.ino == old(ip.ino).(addrs := ip.ino.addrs)
      ensures r.None? ==> Grows(old(st), st) && (at / BSIZE >= MAXFILE || Full())
      ensures r.Some? ==> KeepsIndirect(old(ip.ino), ip.ino) && Wrote(old(st), st, ip.inum, at, chunk)
      ensures r.Some? ==> logged <= old(logged) + {r.value} + Indirect(ip.ino) + BitmapBlocks()
      ensures Covered()
    {
      r := Bmap(ip, at / BSIZE);
      if r.Some? {
        ghost var s1 := st;
        if ok {
          CopyIn(ip, at, r.value, chunk);
        } else {
          NothingWrote(st, ip.inum, at);
        }
        WroteInto(old(st), s1, st, ip.inum, at, chunk);
      }
    }

    /** Since inode copy `ino0` and log content `log0`, the write `g` went into blocks `used`. */
    ghost predicate During(ip: Mem, g: Writing, ino0: Inode, log0: set<nat>, used: set<nat>)
      reads this, ip
    {
      && Valid(ip) && g.st == st && g.i == ip.inum && ip.ino == ino0.(addrs := ip.ino.addrs)
      && KeepsIndirect(ino0, ip.ino) && logged <= log0 + used + Indirect(ip.ino) + BitmapBlocks()
    }

    method WriteRound(ip: Mem, at: nat, src: seq<Byte>, tot: nat, m: nat, ok: bool,
                      ghost g: Writing, ghost ino0: Inode, ghost log0: set<nat>, ghost used: set<nat>)
      returns (b: Option<nat>, ghost g': Writing)
      requires Covered() && During(ip, g, ino0, log0, used) && ip.ino.typ != 0 && tot <= |src| && g.w == src[..tot]
      requires at == g.off + tot && at % BSIZE + m <= BSIZE && (ok ==> tot + m <= |src|)
      modifies this`bitmap, this`data, this`logged, this`st, ip
      ensures g'.s0 == g.s0 && g'.off == g.off && g'.w == src[..if b.Some? && ok then tot + m else tot]
      ensures b.None? ==> Valid(ip) && g'.st == st && g'.i == ip.inum && (at / BSIZE >= MAXFILE || Full())
      ensures b.Some? ==> During(ip, g', ino0, log0, used + {b.value})
      ensures Covered()
    {
      var chunk := if ok then src[tot..tot + m] else [];
      assert src[..tot] + chunk == src[..if ok then tot + m else tot];
      b, g' := WriteStep(ip, at, chunk, ok, g, ino0, log0, used);
    }

    method WriteStep(ip: Mem, at: nat, chunk: seq<Byte>, ok: bool,
                     ghost g: Writing, ghost ino0: Inode, ghost log0: set<nat>, ghost used: set<nat>)
      returns (b: Option<nat>, ghost g': Writing)
      requires Covered() && During(ip, g, ino0, log0, used) && ip.ino.typ != 0 && at == g.off + |g.w|
      requires at % BSIZE + |chunk| <= BSIZE && (!ok ==> chunk == [])
      modifies this`bitmap, this`data, this`logged, this`st, ip
      ensures g'.s0 == g.s0 && g'.off == g.off && g'.w == if b.Some? then g.w + chunk else g.w
      ensures b.None? ==> Valid(ip) && g'.st == st && g'.i == ip.inum && (at / BSIZE >= MAXFILE || Full())
      ensures b.Some? ==> During(ip, g', ino0, log0, used + {b.value})
      ensures Covered()
    {
      b := WriteOnce(ip, at, chunk, ok);
      if b.Some? { g' := WriteOn(g, st, chunk); } else { g' := GrowOn(g, st); }
    }

    /** writei's loop: the largest part of `src`, in whole blocks, that could be copied from the
        source. `src` is the readable prefix of the `n` bytes to write. */
    method WriteBlocks(ip: Mem, off: nat, n: nat, src: seq<Byte>)
      returns (r: Option<nat>, ghost g: Writing, ghost used: set<nat>)
      requires Covered() && Valid(ip) && ip.ino.typ != 0 && off + n <= MAXFILE * BSIZE && |src| <= n
      modifies this`bitmap, this`data, this`logged, this`st, ip
      ensures g.s0 == old(st) && g.off == off
      ensures r.None? ==> Full() && Valid(ip) && g.st == st && g.i == ip.inum && g.w <= src
      ensures r.Some? ==> Copied(off, n, |src|, r.value) && |used| <= Spanned(off, n)
      ensures r.Some? ==> During(ip, g, old(ip.ino), old(logged), used) && g.w == src[..r.value]
      ensures Covered()
    {
      var tot: nat, more, live := 0, 0 < n, true;
      g, used := StartWriting(st, ip.inum, off), {};
      assert st.inodes[ip.inum] == ip.ino && src[..0] == [];
      while more
        invariant Looping(ip, g, old(st), old(ip.ino), old(logged), used, off, n, src, tot, more, live)
        decreases more, n - tot
      {
        tot, more, live, g, used := BlockRound(ip, off, n, src, tot, g, old(st), old(ip.ino), old(logged), used);
      }
      r := if live then Some(tot) else None;
    }

    /** Where writei's loop stands after `tot` bytes; without `live`, it panicked. */
    ghost predicate Looping(ip: Mem, g: Writing, s0: OkFs, ino0: Inode, log0: set<nat>, used: set<nat>,
                            off: nat, n: nat, src: seq<Byte>, tot: nat, more: bool, live: bool)
      reads this, ip
    {
      && Covered() && g.s0 == s0 && g.off == off && tot <= |src| && g.w == src[..tot] && (more ==> live)
      && if live then During(ip, g, ino0, log0, used) && ip.ino.typ != 0 && Paced(off, n, |src|, |used|, tot, more)
         else Full() && Valid(ip) && g.st == st && g.i == ip.inum
    }

    method BlockRound(ip: Mem, off: nat, n: nat, src: seq<Byte>, tot: nat,
                      ghost g: Writing, ghost s0: OkFs, ghost ino0: Inode, ghost log0: set<nat>, ghost used: set<nat>)
      returns (tot': nat, more: bool, live: bool, ghost g': Writing, ghost used': set<nat>)
      requires Looping(ip, g, s0, ino0, log0, used, off, n, src, tot, true, true) && off + n <= MAXFILE * BSIZE && |src| <= n
      modifies this`bitmap, this`data, this`logged, this`st, ip
      ensures Looping(ip, g', s0, ino0, log0, used', off, n, src, tot', more, live) && (more ==> tot' > tot)
    {
      var m := Step(off, n, tot);
      PaceOn(off, n, |src|, |used|, tot);
      var ok := tot + m <= |src|;
      var b;
      b, g' := WriteRound(ip, off + tot, src, tot, m, ok, g, ino0, log0, used);
      live, tot', used' := b.Some?, tot, used;
      if live {
        Paces(off, n, |src|, |used|, |used + {b.value}|, tot);
        used' := used + {b.value};
        if ok { tot' := tot + m; }
      }
      more := live && ok && tot' < n;
    }

    /** writei's end: the size covers what was written, and the inode goes back to its block. */
    method FinishWrite(ip: Mem, end: nat, ghost g: Writing)
      requires Covered() && Valid(ip) && g.st == st && g.i == ip.inum < |g.s0.inodes| && ip.ino.typ != 0
      requires end == g.off + |g.w| <= MAXFILE * BSIZE && g.off <= ip.ino.size
      modifies this`dinodes, this`logged, this`st, ip
      ensures Valid(ip) && dinodes == old(dinodes)[ip.inum := ip.ino] && OneFileChanged(g.s0, st, ip.inum, g.off, g.w)
      ensures ip.ino == old(ip.ino).(size := ip.ino.size) && logged == old(logged) + {IBlock(ip.inum)}
      ensures Covered()
    {
      assert st.inodes[ip.inum] == ip.ino && SameHead(g.s0, st, ip.inum);
      Finished(g, Max(ip.ino.size, end));
      UpdateTwice(dinodes, ip.inum, ip.ino, ip.ino.(size := Max(ip.ino.size, end)));
      if end > ip.ino.size { ip.ino := ip.ino.(size := end); }
      st := Resize(st, ip.inum, ip.ino.size);
      Iupdate(ip);
    }

    /** writei for uint arguments: the file is overwritten at `off` by what could be copied of the
        source, no other file changes, and the blocks passed to log_write are bounded. None where
        the kernel panics for want of a free block, with part of the source in and the size not yet updated. */
    method Writei(ip: Mem, off: nat, n: nat, src: seq<Byte>) returns (r: Option<int>, ghost used: set<nat>)
      requires Covered() && Valid(ip) && ip.ino.typ != 0 && off < TWO32 && n < TWO32 && |src| <= n
      modifies this`bitmap, this`dinodes, this`data, this`logged, this`st, ip
      ensures r.None? ==> Full() && Valid(ip) && exists k :: 0 <= k <= |src| && Wrote(old(st), st, ip.inum, off, src[..k])
      ensures r == Some(-1) <==> old(off > ip.ino.size) || off + n > MAXFILE * BSIZE
      ensures r == Some(-1) ==> Valid(ip) && st == old(st) && ip.ino == old(ip.ino) && logged == old(logged) && dinodes == old(dinodes)
      ensures r.Some? && r.value != -1 ==> r.value >= 0 && Copied(off, n, |src|, r.value)
      ensures r.Some? && r.value != -1 ==> Valid(ip) && OneFileChanged(old(st), st, ip.inum, off, src[..r.value])
      ensures r.Some? && r.value != -1 ==> dinodes == old(dinodes)[ip.inum := ip.ino]
      ensures r.Some? && r.value != -1 ==> ip.ino == old(ip.ino).(addrs := ip.ino.addrs, size := ip.ino.size)
      ensures r.Some? && r.value != -1 ==> |ip.ino.addrs| == NDIRECT + 1 && |used| <= Spanned(off, n)
      ensures r.Some? && r.value != -1 ==>
        logged <= old(logged) + used + Indirect(ip.ino) + BitmapBlocks() + {IBlock(ip.inum)}
      ensures Covered()
    {
      used := {};
      if off > ip.ino.size || (off + n) % TWO32 < off || off + n > MAXFILE * BSIZE {
        r := Some(-1);
      } else {
        var tot;
        ghost var g;
        tot, g, used := WriteBlocks(ip, off, n, src);
        r := None;
        assert g.w == src[..|g.w|];
        if tot.Some? {
          FinishWrite(ip, off + tot.value, g);
          r := Some(tot.value);
        }
      }
    }

    /** While itrunc runs, the ghost state already has the size 0 that itrunc stores last. */
    ghost predicate Draining(ip: Mem)
      reads this, ip
    {
      && ip.inum < |dinodes| && meta == st.meta && |bitmap| == nbitmap
      && bitmap == st.bitmap && data == st.data && st.inodes == dinodes[ip.inum := ip.ino.(size := 0)]
    }

    /** bfree of a block in use: it does not panic, and it logs a bitmap block. */
    method Free(b: nat)
      requires Covered() && b < |data| <= |bitmap| * BPB && |bitmap| == nbitmap && Bit(bitmap, b)
      modifies this`bitmap, this`logged
      ensures bitmap == ClearBit(old(bitmap), b) && logged <= old(logged) + BitmapBlocks()
      ensures Covered()
    {
      SpanHas(bmapstart, nbitmap, BBlock(b));
      var ok := Bfree(b);
      assert ok;
    }

    method FreeDirect(ip: Mem, s: nat)
      requires Covered() && Draining(ip) && s < NDIRECT && |ip.ino.addrs| == NDIRECT + 1 && ip.ino.addrs[s] == st.At(ip.inum, s) != 0
      requires DropDirect(st, ip.inum, s).Ok() && st.At(ip.inum, s) < |st.data| && Bit(st.bitmap, st.At(ip.inum, s))
      modifies this`bitmap, this`logged, this`st, ip
      ensures Draining(ip) && ip.ino == old(ip.ino).(addrs := ip.ino.addrs)
      ensures st == DropDirect(old(st), ip.inum, s) && logged <= old(logged) + BitmapBlocks()
      ensures Covered()
    {
      HolderIs(st, ip.inum, s, 0);
      Free(ip.ino.addrs[s]);
      UpdateTwice(dinodes, ip.inum, ip.ino.(size := 0), ip.ino.(size := 0, addrs := ip.ino.addrs[s := 0]));
      ip.ino := ip.ino.(addrs := ip.ino.addrs[s := 0]);
      st := DropDirect(st, ip.inum, s);
    }

    /** One round of itrunc's first loop; the panic in bfree cannot happen. */
    method DropSlot(ip: Mem, s: nat)
      requires Covered() && Draining(ip) && s < NDIRECT
      modifies this`bitmap, this`logged, this`st, ip
      ensures Draining(ip) && ip.ino == old(ip.ino).(addrs := ip.ino.addrs)
      ensures Emptied(old(st), st, ip.inum, s, s + 1) && logged <= old(logged) + BitmapBlocks()
      ensures Covered()
    {
      assert st.inodes[ip.inum] == ip.ino.(size := 0);
      assert st.At(ip.inum, s) == ip.ino.addrs[s];
      if ip.ino.addrs[s] != 0 {
        DropDirectOk(st, ip.inum, s);
        FreeDirect(ip, s);
      } else {
        EmptiedNone(st, ip.inum, s, s + 1);
      }
    }

    method DropEntry(ip: Mem, ind: nat, j: nat)
      requires Covered() && ip.inum < |st.inodes| && data == st.data && ind == st.At(ip.inum, NDIRECT) != 0 && j < NINDIRECT
      requires bitmap == ClearEntries(st, ip.inum, j) && |bitmap| == nbitmap
      modifies this`bitmap, this`logged
      ensures bitmap == ClearEntries(st, ip.inum, j + 1) && logged <= old(logged) + BitmapBlocks()
      ensures Covered()
    {
      HolderIs(st, ip.inum, NDIRECT, 0);
      var b := GetWord(data[ind], j);
      assert b == st.At(ip.inum, NDIRECT + 1 + j);
      if b != 0 {
        HolderIs(st, ip.inum, NDIRECT + 1 + j, b);
        EntriesCleared(st, ip.inum, j, b);
        Free(b);
      }
    }

    /** itrunc's loop over the indirect block. */
    method DropEntries(ip: Mem, ind: nat)
      requires Covered() && Draining(ip) && ind == st.At(ip.inum, NDIRECT) != 0
      modifies this`bitmap, this`logged
      ensures bitmap == ClearEntries(st, ip.inum, NINDIRECT) && logged <= old(logged) + BitmapBlocks()
      ensures Covered()
    {
      var j := 0;
      while j < NINDIRECT
        invariant j <= NINDIRECT && bitmap == ClearEntries(st, ip.inum, j) && |bitmap| == nbitmap && logged <= old(logged) + BitmapBlocks() && Covered()
      {
        DropEntry(ip, ind, j);
        j := j + 1;
      }
    }

    method FreeIndirect(ip: Mem, ind: nat)
      requires Covered() && Draining(ip) && ind == st.At(ip.inum, NDIRECT) != 0 && |ip.ino.addrs| == NDIRECT + 1
      requires DropIndirect(st, ip.inum).Ok() && Bit(ClearEntries(st, ip.inum, NINDIRECT), ind)
      modifies this`bitmap, this`logged, this`st, ip
      ensures Draining(ip) && ip.ino == old(ip.ino).(addrs := ip.ino.addrs)
      ensures st == DropIndirect(old(st), ip.inum) && logged <= old(logged) + BitmapBlocks()
      ensures Covered()
    {
      HolderIs(st, ip.inum, NDIRECT, ind);
      DropEntries(ip, ind);
      Free(ind);
      UpdateTwice(dinodes, ip.inum, ip.ino.(size := 0), ip.ino.(size := 0, addrs := ip.ino.addrs[NDIRECT := 0]));
      ip.ino := ip.ino.(addrs := ip.ino.addrs[NDIRECT := 0]);
      st := DropIndirect(st, ip.inum);
    }

    method DropIndirectBlock(ip: Mem)
      requires Covered() && Draining(ip)
      modifies this`bitmap, this`logged, this`st, ip
      ensures Draining(ip) && ip.ino == old(ip.ino).(addrs := ip.ino.addrs)
      ensures Emptied(old(st), st, ip.inum, NDIRECT, SLOTS) && logged <= old(logged) + BitmapBlocks()
      ensures Covered()
    {
      assert st.inodes[ip.inum] == ip.ino.(size := 0);
      var ind := ip.ino.addrs[NDIRECT];
      assert ind == st.At(ip.inum, NDIRECT);
      if ind != 0 {
        DropIndirectOk(st, ip.inum);
        FreeIndirect(ip, ind);
      } else {
        EmptiedNone(st, ip.inum, NDIRECT, SLOTS);
      }
    }

    /** itrunc: exactly the inode's blocks are freed, and no bfree panics. */
    method Itrunc(ip: Mem)
      requires Covered() && Valid(ip)
      modifies this`bitmap, this`dinodes, this`logged, this`st, ip
      ensures Valid(ip) && dinodes == st.inodes && ip.ino == old(ip.ino).(size := 0, addrs := ip.ino.addrs)
      ensures |data| == old(|data|) && |st.inodes| == old(|st.inodes|)
      ensures forall b: nat :: b < |data| ==> (Bit(bitmap, b) <==> Bit(old(bitmap), b) && !Within(old(st), b, ip.inum, 0, SLOTS))
      ensures forall f :: 0 <= f < |st.inodes| && f != ip.inum ==> st.Content(f) == old(st).Content(f)
      ensures forall s :: 0 <= s < SLOTS ==> st.At(ip.inum, s) == 0
      ensures logged <= old(logged) + BitmapBlocks() + {IBlock(ip.inum)}
      ensures Covered()
    {
      ghost var i := ip.inum;
      ShrinkOk(st, i);
      st := Resize(st, i, 0);
      ghost var s0 := st;
      var s := 0;
      EmptiedNone(st, i, 0, 0);
      while s < NDIRECT
        invariant s <= NDIRECT && Draining(ip) && ip.ino == old(ip.ino).(addrs := ip.ino.addrs)
        invariant Emptied(s0, st, i, 0, s) && logged <= old(logged) + BitmapBlocks() && Covered()
      {
        ghost var s1 := st;
        DropSlot(ip, s);
        EmptiedJoin(s0, s1, st, i, 0, s, s + 1);
        s := s + 1;
      }
      ghost var st1 := st;
      DropIndirectBlock(ip);
      EmptiedJoin(s0, st1, st, i, 0, NDIRECT, SLOTS);
      Truncated(old(st), st, i);
      ip.ino := ip.ino.(size := 0);
      Iupdate(ip);
    }

    /** ialloc: the first free inode from 1 on, cleared and given its type; None is the "no inodes"
        panic. No in-memory inode is dirty here. */
    method Ialloc(typ: nat) returns (r: Option<nat>)
      requires Covered() && dinodes == st.inodes
      modifies this`dinodes, this`logged, this`st
      ensures dinodes == st.inodes && |dinodes| == old(|dinodes|)
      ensures r.None? ==> dinodes == old(dinodes) && forall j :: 1 <= j < |dinodes| ==> dinodes[j].typ != 0
      ensures r.Some? ==> 1 <= r.value < |dinodes| && old(dinodes)[r.value].typ == 0
      ensures r.Some? ==> forall j :: 1 <= j < r.value ==> old(dinodes)[j].typ != 0
      ensures r.Some? ==> st == Fresh(old(st), r.value, typ, 0) && logged == old(logged) + {IBlock(r.value)}
      ensures Covered()
    {
      var i := 1;
      while i < |dinodes| && dinodes[i].typ != 0
        invariant i >= 1 && forall j :: 1 <= j < i && j < |dinodes| ==> dinodes[j].typ != 0
      {
        i := i + 1;
      }
      if i >= |dinodes| { return None; }
      FreshOk(st, i, typ, 0);
      ghost var a := Now();
      dinodes := dinodes[i := Inode(typ, 0, 0, ZeroAddrs())];
      LogsMore(base, a, Now(), logged, logged + {IBlock(i)}, inodestart, bmapstart);
      st := Fresh(st, i, typ, 0);
      logged := logged + {IBlock(i)};
      return Some(i);
    }

    /** The half of iput that runs when the last reference to an inode without links goes: the inode
        is free, exactly its blocks were freed, and no other file changed. */
    method IputLast(ip: Mem)
      requires Covered() && Valid(ip) && ip.ino.nlink == 0
      modifies this`bitmap, this`dinodes, this`logged, this`st, ip
      ensures Valid(ip) && dinodes == st.inodes && dinodes[ip.inum].typ == 0
      ensures |data| == old(|data|) && |st.inodes| == old(|st.inodes|)
      ensures forall b: nat :: b < |data| ==> (Bit(bitmap, b) <==> Bit(old(bitmap), b) && !Within(old(st), b, ip.inum, 0, SLOTS))
      ensures forall f :: 0 <= f < |st.inodes| && f != ip.inum ==> st.Content(f) == old(st).Content(f)
      ensures logged <= old(logged) + BitmapBlocks() + {IBlock(ip.inum)}
      ensures Covered()
    {
      Itrunc(ip);
      UntypeOk(st, ip.inum);
      ip.ino := ip.ino.(typ := 0);
      st := Untype(st, ip.inum);
      Iupdate(ip);
    }

    /** One transaction of filewrite: begin_op, writei of one chunk, end_op. `w` bytes went in. */
    method WriteChunk(ip: Mem, off: nat, n: nat, src: seq<Byte>) returns (r: Option<int>, w: nat)
      requires Valid(ip) && ip.ino.typ != 0 && off < TWO32 && 0 < n <= MAXCHUNK && |src| <= n
      modifies this, ip
      ensures base == old(Now()) && Covered() && Valid(ip)
      ensures r.Some? ==> ip.ino.typ != 0 && w <= |src| && OneFileChanged(old(st), st, ip.inum, off, src[..w])
      ensures r.None? ==> Full()
      ensures r.Some? ==> (r.value == n <==> w == n) && |logged| <= 6 + nbitmap
      ensures r.Some? ==> (w == n <==> Fits(off, n, |src|, old(ip.ino.size)))
      ensures r.Some? && old(dinodes == st.inodes) ==> dinodes == st.inodes
    {
      LogsNothing(Now(), {}, inodestart, bmapstart);
      logged, base := {}, Now();
      ghost var used;
      r, used := Writei(ip, off, n, src);
      w := if r.Some? && r.value > 0 then r.value else 0;
      assert src[..0] == [];
      if r.Some? {
        if r.value == -1 {
          NothingChanged(st, ip.inum, off);
        } else {
          Budget(logged, used, Indirect(ip.ino), bmapstart, nbitmap, IBlock(ip.inum), off, n);
        }
      }
    }

    /** Since `s0`, exactly `w` was written to the file, at `off0`, and nothing to any other. */
    ghost predicate Since(s0: OkFs, ip: Mem, off0: nat, src: seq<Byte>, n: int)
      reads this, ip
    {
      0 <= n <= |src| && Valid(ip) && ip.ino.typ != 0 && OneFileChanged(s0, st, ip.inum, off0, src[..n])
    }

    /** One round of filewrite's loop, for the next `n1` bytes. */
    method NextChunk(ip: Mem, off0: nat, i: nat, n1: nat, src: seq<Byte>, ghost s0: OkFs)
      returns (r: Option<int>, k: nat)
      requires Since(s0, ip, off0, src, i) && off0 + i < TWO32 && 0 < n1 <= MAXCHUNK
      requires i > 0 ==> off0 <= |s0.Content(ip.inum)|
      modifies this, ip
      ensures r.Some? ==> Since(s0, ip, off0, src, i + k) && |logged| <= 6 + nbitmap
      ensures Valid(ip) && (r.None? ==> Full())
      ensures r.Some? ==> k <= n1 && (r.value == n1 <==> k == n1)
      ensures r.Some? ==> (k == n1 <==> Fits(off0, i + n1, |src|, |s0.Content(ip.inum)|))
    {
      ChangedSize(s0, st, ip.inum, off0, src, i);
      assert |st.Content(ip.inum)| == ip.ino.size;
      var chunk := if i + n1 <= |src| then src[i..i + n1] else src[i..];
      ghost var s1 := st;
      r, k := WriteChunk(ip, off0 + i, n1, chunk);
      if r.Some? { ChangedMore(s0, s1, st, ip.inum, off0, src, i, chunk, k); }
    }

    /** Where filewrite's loop stands: `done` bytes are in, so the file offset is off0 + done; `more` says it goes on. */
    ghost predicate UpTo(s0: OkFs, ip: Mem, off0: nat, n: int, src: seq<Byte>, i: nat, done: nat, more: bool)
      reads this, ip
    {
      Since(s0, ip, off0, src, done) && Counts(off0, n, |src|, |s0.Content(ip.inum)|, i, off0 + done, more)
    }

    method FilewriteRound(ip: Mem, off0: nat, n: int, src: seq<Byte>, i: nat, ghost s0: OkFs)
      returns (live: bool, i': nat, done: nat, more: bool)
      requires UpTo(s0, ip, off0, n, src, i, i, true) && |src| <= n
      modifies this, ip
      ensures live ==> UpTo(s0, ip, off0, n, src, i', done, more) && |logged| <= 6 + nbitmap
      ensures more ==> live && i' == done > i
      ensures Valid(ip) && (!live ==> Full())
      ensures live && (more || i' == n) ==> i' == i + if n - i > MAXCHUNK then MAXCHUNK else n - i
    {
      var n1 := if n - i > MAXCHUNK then MAXCHUNK else n - i;
      ghost var len := |s0.Content(ip.inum)|;
      var got, k := NextChunk(ip, off0, i, n1, src, s0);
      var full := got.Some? && got.value == n1;
      live, done, i', more := got.Some?, i + k, if full then i + n1 else i, full && i + n1 < n;
      if live { CountOn(off0, n, |src|, len, i, off0 + i, n1, k); }
    }

    /** filewrite of `n` bytes, `src` being the readable prefix of the source, with nobody else
        writing the file in between: the bytes written are a prefix of `src`, contiguous from the
        file offset on; each transaction stays within its budget; all goes in exactly when the
        source is readable, the offset is within the file and the end within the largest file. */
    method Filewrite(ip: Mem, off0: nat, n: int, src: seq<Byte>) returns (r: Option<int>, off: nat, ghost txns: seq<set<nat>>)
      requires Valid(ip) && ip.ino.typ != 0 && off0 < TWO32 && n < TWO32 / 2
      requires |src| <= if n < 0 then 0 else n
      modifies this, ip
      ensures r.Some? ==> off0 <= off && Since(old(st), ip, off0, src, off - off0)
      ensures Valid(ip) && (r.None? ==> Full())
      ensures r.Some? ==> r.value == if off - off0 == n then n else -1
      ensures r == Some(n) && n > 0 ==> |txns| == (n + MAXCHUNK - 1) / MAXCHUNK
      ensures r.Some? && n > 0 ==> (r.value == n <==> Fits(off0, n, |src|, |old(st.Content(ip.inum))|))
      ensures forall t :: 0 <= t < |txns| ==> |txns[t]| <= 6 + nbitmap
      ensures r.Some? && n > 0 ==> |txns| > 0 && txns[|txns| - 1] == logged
    {
      off, txns := off0, [];
      assert src[..0] == [];
      assert Since(st, ip, off0, src, 0);
      if n <= 0 { return Some(if n == 0 then 0 else -1), off, txns; }
      var live, i, done;
      live, i, done, txns := FilewriteLoop(ip, off0, n, src);
      off := off0 + done;
      r := if live then Some(if i == n then n else -1) else None;
    }

    /** The loop of filewrite. */
    method FilewriteLoop(ip: Mem, off0: nat, n: nat, src: seq<Byte>) returns (live: bool, i: nat, done: nat, ghost txns: seq<set<nat>>)
      requires UpTo(st, ip, off0, n, src, 0, 0, true) && |src| <= n
      modifies this, ip
      ensures if live then UpTo(old(st), ip, off0, n, src, i, done, false) && |txns| > 0 && txns[|txns| - 1] == logged else Valid(ip) && Full()
      ensures live && i == n ==> |txns| == (n + MAXCHUNK - 1) / MAXCHUNK
      ensures forall t :: 0 <= t < |txns| ==> |txns[t]| <= 6 + nbitmap
    {
      var more := true;
      live, i, done, txns := true, 0, 0, [];
      while more
        invariant forall t :: 0 <= t < |txns| ==> |txns[t]| <= 6 + nbitmap
        invariant if live then UpTo(old(st), ip, off0, n, src, i, done, more) else !more && Valid(ip) && Full()
        invariant live && (more || i == n) ==> if i == n then |txns| == (n + MAXCHUNK - 1) / MAXCHUNK else i == |txns| * MAXCHUNK
        invariant live && !more ==> |txns| > 0 && txns[|txns| - 1] == logged
        invariant more ==> i == done
        decreases more, n - i
      {
        live, i, done, more := FilewriteRound(ip, off0, n, src, i, old(st));
        if live { txns := txns + [logged]; }
      }
    }
  }

  /** The first `n` bytes of a request at `off` can all be written: `room` bytes of the source are
      readable and the file has `len` bytes. */
  predicate Fits(off: nat, n: nat, room: nat, len: nat) { n <= room && off <= len && off + n <= MAXFILE * BSIZE }

  /** filewrite's variables for a request of `n` bytes, with `room` and `len` as in Fits. */
  predicate Counts(off0: nat, n: int, room: nat, len: nat, i: nat, off: nat, more: bool)
  {
    && off0 <= off <= off0 + room
    && (more ==> i == off - off0 < n && off < TWO32 && (i > 0 ==> off0 <= len))
    && (!more ==> (i == n <==> off - off0 == n) && (n > 0 ==> (i == n <==> Fits(off0, n, room, len))))
  }

  lemma CountOn(off0: nat, n: int, room: nat, len: nat, i: nat, off: nat, n1: nat, k: nat)
    requires Counts(off0, n, room, len, i, off, true) && room <= n && n1 == (if n - i > MAXCHUNK then MAXCHUNK else n - i)
    requires k <= n1 && i + k <= room && (k == n1 <==> Fits(off0, i + n1, room, len))
    ensures Counts(off0, n, room, len, if k == n1 then i + n1 else i, off + k, k == n1 && i + n1 < n)
  {
  }

  /** From `s0` to `st`, file `i` was overwritten with `w` at `off` and no other file changed. */
  ghost predicate OneFileChanged(s0: OkFs, st: OkFs, i: nat, off: nat, w: seq<Byte>)
  {
    i < |st.inodes| == |s0.inodes| && st.Content(i) == Spliced(s0.Content(i), off, w) && forall f: nat :: f != i ==> FileKept(s0, st, f)
  }

  ghost predicate FileKept(s0: OkFs, st: OkFs, f: nat)
    requires |st.inodes| == |s0.inodes|
  {
    f < |st.inodes| ==> st.Content(f) == s0.Content(f)
  }

  /** The next chunk of the source, after its first `i` bytes. */
  lemma ChangedMore(s0: OkFs, s1: OkFs, s2: OkFs, inum: nat, off: nat, src: seq<Byte>, i: nat, chunk: seq<Byte>, k: nat)
    requires i <= |src| && i + |chunk| <= |src| && chunk == src[i..i + |chunk|] && k <= |chunk|
    requires OneFileChanged(s0, s1, inum, off, src[..i]) && OneFileChanged(s1, s2, inum, off + i, chunk[..k])
    requires i > 0 ==> off <= |s0.Content(inum)|
    ensures OneFileChanged(s0, s2, inum, off, src[..i + k])
  {
    SplicedMore(s0.Content(inum), off, src[..i], chunk[..k]);
    PrefixMore(src, i, chunk, k);
    forall f: nat | f != inum ensures FileKept(s0, s2, f) { assert FileKept(s0, s1, f) && FileKept(s1, s2, f); }
  }

  /** With its size updated, the file written is the old one overwritten. */
  lemma Finished(g: Writing, size: nat)
    requires g.i < |g.s0.inodes| && g.i < |g.st.inodes| && g.st.inodes[g.i].typ != 0 && g.off <= g.st.inodes[g.i].size
    requires g.off + |g.w| <= MAXFILE * BSIZE && size == Max(g.st.inodes[g.i].size, g.off + |g.w|)
    ensures Resize(g.st, g.i, size).Ok() && OneFileChanged(g.s0, Resize(g.st, g.i, size), g.i, g.off, g.w)
  {
    assert SameHead(g.s0, g.st, g.i);
    WrittenContent(g.s0, g.st, g.i, g.off, g.w);
    forall f: nat | f != g.i ensures FileKept(g.s0, Resize(g.st, g.i, size), f) { }
  }

  lemma ChangedSize(s0: OkFs, s1: OkFs, inum: nat, off: nat, src: seq<Byte>, i: nat)
    requires i <= |src| && OneFileChanged(s0, s1, inum, off, src[..i]) && (i > 0 ==> off <= |s0.Content(inum)|)
    ensures off + i <= |s1.Content(inum)| <==> off <= |s0.Content(inum)|
  {
  }

  lemma NothingChanged(st: OkFs, i: nat, off: nat)
    requires i < |st.inodes|
    ensures OneFileChanged(st, st, i, off, [])
  {
    assert off <= |st.Content(i)| ==> Overwrite(st.Content(i), off, []) == st.Content(i);
    forall f: nat | f != i ensures FileKept(st, st, f) { }
  }

  const MAXCHUNK := 3072  // ((MAXOPBLOCKS-1-1-2) / 2) * BSIZE

  function ZeroAddrs(): seq<nat> { [0, 0, 0, 0, 0, 0, 0, 0, 0, 0, 0, 0, 0] }

  ghost function Fresh(st: OkFs, i: nat, typ: nat, nlink: nat): Fs
    requires i < |st.inodes|
  {
    st.(inodes := st.inodes[i := Inode(typ, nlink, 0, ZeroAddrs())])
  }

  /** A free inode holds no blocks, so clearing it loses none. */
  lemma FreshOk(st: OkFs, i: nat, typ: nat, nlink: nat)
    requires i < |st.inodes| && st.inodes[i].typ == 0
    ensures Fresh(st, i, typ, nlink).Ok() && forall f: nat, r: nat :: SameSlot(st, Fresh(st, i, typ, nlink), f, r)
  {
    var t := Fresh(st, i, typ, nlink);
    assert st.Mapped(i) && t.Shape();
    assert st.inodes[i].addrs == ZeroAddrs();
    forall f: nat, r: nat ensures SameSlot(st, t, f, r) { }
    SameSlotsOk(st, t);
    forall f: nat ensures t.Mapped(f) {
      if f == i { forall bn: nat ensures t.Filled(i, bn) { } } else { KeptMapped(st, t, f); }
    }
  }

  ghost function Untype(st: OkFs, i: nat): Fs
    requires i < |st.inodes|
  {
    st.(inodes := st.inodes[i := st.inodes[i].(typ := 0)])
  }

  lemma UntypeOk(st: OkFs, i: nat)
    requires i < |st.inodes| && st.inodes[i].size == 0 && forall s :: 0 <= s < SLOTS ==> st.At(i, s) == 0
    ensures Untype(st, i).Ok() && forall f :: 0 <= f < |st.inodes| ==> Untype(st, i).Content(f) == st.Content(f)
  {
    var t := Untype(st, i);
    assert t.Shape();
    forall f: nat, r: nat ensures SameSlot(st, t, f, r) { }
    SameSlotsOk(st, t);
    forall f: nat ensures t.Mapped(f) {
      if f == i {
        forall bn: nat ensures t.Filled(i, bn) { }
        forall s | 0 <= s <= NDIRECT ensures t.inodes[i].addrs[s] == 0 { assert st.At(i, s) == st.inodes[i].addrs[s]; }
      } else {
        KeptMapped(st, t, f);
      }
    }
    forall f: nat | f < |st.inodes| ensures t.Content(f) == st.Content(f) {
      forall p: nat | p < st.inodes[f].size ensures t.Content(f)[p] == st.Content(f)[p] {
        st.SizeHas(f, p);
        assert SameSlot(st, t, f, FileSlot(p / BSIZE));
      }
    }
  }

  function Spliced(c: seq<Byte>, off: nat, w: seq<Byte>): seq<Byte>
  {
    if off <= |c| then Overwrite(c, off, w) else c
  }

  lemma SplicedMore(c: seq<Byte>, off: nat, w: seq<Byte>, v: seq<Byte>)
    requires off <= |c| || w == []
    ensures Spliced(Spliced(c, off, w), off + |w|, v) == Spliced(c, off, w + v)
  {
    if off <= |c| {
      var d := Overwrite(c, off, w);
      assert Overwrite(d, off + |w|, v) == Overwrite(c, off, w + v);
    }
  }

  /** A chunk of filewrite touches at most four data blocks, the indirect block, the inode's block
      and the bitmap. */
  lemma Budget(logged: set<nat>, used: set<nat>, ind: set<nat>, bmapstart: nat, nbitmap: nat, ib: nat, off: nat, n: nat)
    requires logged <= used + ind + Span(bmapstart, nbitmap) + {ib}
    requires |used| <= Spanned(off, n) && n <= MAXCHUNK && |ind| <= 1
    ensures |logged| <= 6 + nbitmap
  {
    var sp := Span(bmapstart, nbitmap);
    SpanCard(bmapstart, nbitmap);
    assert Spanned(off, n) <= 4;
    Card2(used, ind);
    Card2(used + ind, sp);
    Card2(used + ind + sp, {ib});
    Smaller(logged, used + ind + sp + {ib});
  }

  lemma Card2(a: set<nat>, b: set<nat>)
    ensures |a + b| <= |a| + |b|
  {
  }

  lemma {:induction false} Smaller(a: set<nat>, b: set<nat>)
    requires a <= b
    ensures |a| <= |b|
  {
    if a != {} {
      var x :| x in a;
      Smaller(a - {x}, b - {x});
    }
  }

  /** How many blocks the `n` bytes from `off` on lie in. */
  function Spanned(off: nat, n: nat): nat { if n == 0 then 0 else (off + n - 1) / BSIZE - off / BSIZE + 1 }

  /** The bytes up to `tot` of the `n` from `off` on end at a block boundary, or are all or none of them. */
  predicate Boundary(off: nat, n: nat, tot: nat) { tot <= n && (tot == 0 || tot == n || (off + tot) % BSIZE == 0) }

  function Step(off: nat, n: nat, tot: nat): nat
    requires tot <= n
  {
    var at := off + tot;
    if n - tot < BSIZE - at % BSIZE then n - tot else BSIZE - at % BSIZE
  }

  /** What writei copies of `n` bytes when `room` of them can be read: everything, or whole
      blocks up to the first that cannot be read. */
  predicate Copied(off: nat, n: nat, room: nat, tot: nat)
  {
    Boundary(off, n, tot) && tot <= room && (tot < n ==> tot + Step(off, n, tot) > room)
  }

  /** writei's loop after `tot` bytes, with `used` data blocks touched. */
  predicate Paced(off: nat, n: nat, room: nat, used: nat, tot: nat, more: bool)
  {
    if more then used <= Spanned(off, tot) && Boundary(off, n, tot) && tot < n
    else used <= Spanned(off, n) && Copied(off, n, room, tot)
  }

  lemma PaceOn(off: nat, n: nat, room: nat, used: nat, tot: nat)
    requires Paced(off, n, room, used, tot, true) && off + n <= MAXFILE * BSIZE
    ensures tot <= n && 0 < Step(off, n, tot) <= n - tot && (off + tot) % BSIZE + Step(off, n, tot) <= BSIZE && (off + tot) / BSIZE < MAXFILE
  {
    OneBlock(off, n, tot);
  }

  lemma Paces(off: nat, n: nat, room: nat, used: nat, more: nat, tot: nat)
    requires Paced(off, n, room, used, tot, true) && more <= used + 1 && tot <= room
    ensures tot <= n
    ensures var m := Step(off, n, tot);
      if tot + m <= room then Paced(off, n, room, more, tot + m, tot + m < n) else Paced(off, n, room, more, tot, false)
  {
    OneBlock(off, n, tot);
  }

  lemma OneBlock(off: nat, n: nat, tot: nat)
    requires Boundary(off, n, tot) && tot < n
    ensures Boundary(off, n, tot + Step(off, n, tot)) && Step(off, n, tot) > 0
    ensures Spanned(off, tot + Step(off, n, tot)) == Spanned(off, tot) + 1 <= Spanned(off, n)
  {
  }

  lemma UpdateTwice(s: seq<Inode>, i: nat, a: Inode, b: Inode)
    requires i < |s|
    ensures s[i := a][i := b] == s[i := b]
  {
  }


  lemma MappedAt(st: OkFs, i: nat, p: nat)
    requires i < |st.inodes| && p < st.inodes[i].size
    ensures p / BSIZE < MAXFILE && st.At(i, FileSlot(p / BSIZE)) != 0
  {
    assert st.Mapped(i) && st.Filled(i, p / BSIZE);
  }

  lemma PrefixMore(src: seq<Byte>, i: nat, chunk: seq<Byte>, k: nat)
    requires i + |chunk| <= |src| && chunk == src[i..i + |chunk|] && k <= |chunk|
    ensures src[..i] + chunk[..k] == src[..i + k]
  {
  }

  lemma Adjacent(c: seq<Byte>, i: nat, j: nat, k: nat)
    requires i <= j <= k <= |c|
    ensures c[i..j] + c[j..k] == c[i..k]
  {
  }

  /** Bytes of the file within one block, read from that block. */
  lemma ReadBlock(st: OkFs, i: nat, p: nat, m: nat)
    requires i < |st.inodes| && p + m <= st.inodes[i].size && m > 0 && p % BSIZE + m <= BSIZE
    ensures p / BSIZE < MAXFILE && 0 != st.At(i, FileSlot(p / BSIZE)) < |st.data|
    ensures st.data[st.At(i, FileSlot(p / BSIZE))].data[p % BSIZE..p % BSIZE + m] == st.Content(i)[p..p + m]
  {
    MappedAt(st, i, p);
    HolderIs(st, i, FileSlot(p / BSIZE), 0);
    forall q | p <= q < p + m ensures st.Content(i)[q] == st.data[st.At(i, FileSlot(p / BSIZE))].data[q % BSIZE] && q % BSIZE == p % BSIZE + (q - p) {
      SameBlock(p, q, m);
      st.SizeHas(i, q);
    }
  }
}
