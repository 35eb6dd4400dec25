/** The inode blocks of kernel/fs.c: struct dinode records, 64 bytes each, IPB to a block, as iupdate, ilock and
    ialloc read and write them. */
module InodeTable {
  import opened Blocks
  import opened Options

  const IPB := 16          // BSIZE / sizeof(struct dinode)
  const NADDRS := 13       // NDIRECT + 1
  const RECORD := 16       // words of a record

  /** struct dinode: four shorts, the size and the addresses. */
  datatype Dinode = Dinode(typ: int, major: int, minor: int, nlink: int, size: nat, addrs: seq<nat>)

  predicate Short(x: int) { -32768 <= x < 32768 }

  predicate InRange(d: Dinode)
  {
    && Short(d.typ) && Short(d.major) && Short(d.minor) && Short(d.nlink) && d.size < TWO32
    && |d.addrs| == NADDRS && forall i :: 0 <= i < NADDRS ==> d.addrs[i] < TWO32
  }

  const BLANK := Dinode(0, 0, 0, 0, 0, [0, 0, 0, 0, 0, 0, 0, 0, 0, 0, 0, 0, 0])

  // Two shorts in one little-endian word.

  function Pack(lo: int, hi: int): (w: nat)
    requires Short(lo) && Short(hi)
    ensures w < TWO32
  {
    (if lo < 0 then lo + 65536 else lo) + 65536 * if hi < 0 then hi + 65536 else hi
  }

  function Signed(u: nat): int { if u < 32768 then u else u - 65536 }

  lemma Unpack(lo: int, hi: int)
    requires Short(lo) && Short(hi)
    ensures Signed(Pack(lo, hi) % 65536) == lo && Signed(Pack(lo, hi) / 65536) == hi
  {
  }

  /** Word `w` of the record. */
  function WordOf(d: Dinode, w: nat): (x: nat)
    requires InRange(d) && w < RECORD
    ensures x < TWO32
  {
    if w == 0 then Pack(d.typ, d.major) else if w == 1 then Pack(d.minor, d.nlink) else if w == 2 then d.size else d.addrs[w - 3]
  }

  /** The block with the first `n` words of record `k` stored. */
  function Put(b: Block, k: nat, d: Dinode, n: nat): Block
    requires k < IPB && InRange(d) && n <= RECORD
  {
    if n == 0 then b else PutWord(Put(b, k, d, n - 1), RECORD * k + n - 1, WordOf(d, n - 1))
  }

  /** Word `w` of record `k` of a block. */
  function WordAt(b: Block, k: nat, w: nat): nat
    requires k < IPB && w < RECORD
  {
    GetWord(b, RECORD * k + w)
  }

  function AddrsAt(b: Block, k: nat): seq<nat>
    requires k < IPB
  {
    seq(NADDRS, i requires 0 <= i < NADDRS => WordAt(b, k, 3 + i))
  }

  /** Record `k` of a block. */
  function Get(b: Block, k: nat): Dinode
    requires k < IPB
  {
    var w0, w1 := WordAt(b, k, 0), WordAt(b, k, 1);
    Dinode(Signed(w0 % 65536), Signed(w0 / 65536), Signed(w1 % 65536), Signed(w1 / 65536), WordAt(b, k, 2), AddrsAt(b, k))
  }

  lemma {:induction false} PutWords(b: Block, k: nat, d: Dinode, n: nat, x: nat)
    requires k < IPB && InRange(d) && n <= RECORD && x < WORDS
    ensures GetWord(Put(b, k, d, n), x) == if RECORD * k <= x < RECORD * k + n then WordOf(d, x - RECORD * k) else GetWord(b, x)
  {
    if n > 0 {
      PutWords(b, k, d, n - 1, x);
      GetPut(Put(b, k, d, n - 1), RECORD * k + n - 1, WordOf(d, n - 1), x);
    }
  }

  /** A record stored is read back, and no other record of the block changes. */
  lemma GetPutRecord(b: Block, k: nat, d: Dinode, j: nat)
    requires k < IPB && InRange(d) && j < IPB
    ensures Get(Put(b, k, d, RECORD), j) == if j == k then d else Get(b, j)
  {
    var c := Put(b, k, d, RECORD);
    forall w: nat | w < RECORD ensures WordAt(c, j, w) == if j == k then WordOf(d, w) else WordAt(b, j, w) {
      PutWords(b, k, d, RECORD, RECORD * j + w);
    }
    if j == k {
      Unpack(d.typ, d.major);
      Unpack(d.minor, d.nlink);
      assert AddrsAt(c, j) == d.addrs;
    } else {
      assert AddrsAt(c, j) == AddrsAt(b, j);
    }
  }

  /** Inode `i` of a table of blocks. */
  function InodeAt(blocks: seq<Block>, i: nat): Dinode
    requires i < |blocks| * IPB
  {
    Get(blocks[i / IPB], i % IPB)
  }

  function TableOf(blocks: seq<Block>, n: nat): (t: seq<Dinode>)
    requires n <= |blocks| * IPB
    ensures |t| == n && forall i :: 0 <= i < n ==> t[i] == InodeAt(blocks, i)
  {
    if n == 0 then [] else TableOf(blocks, n - 1) + [InodeAt(blocks, n - 1)]
  }

  /** A record stored in the table changes that inode only. */
  lemma UpdateAt(blocks: seq<Block>, inum: nat, d: Dinode, i: nat)
    requires inum < |blocks| * IPB && i < |blocks| * IPB && InRange(d)
    ensures InodeAt(blocks[inum / IPB := Put(blocks[inum / IPB], inum % IPB, d, RECORD)], i) == if i == inum then d else InodeAt(blocks, i)
  {
    if i / IPB == inum / IPB {
      GetPutRecord(blocks[i / IPB], inum % IPB, d, i % IPB);
      assert i % IPB == inum % IPB ==> i == inum;
    }
  }

  lemma UpdateTable(blocks: seq<Block>, n: nat, inum: nat, d: Dinode)
    requires inum < n <= |blocks| * IPB && InRange(d)
    ensures TableOf(blocks[inum / IPB := Put(blocks[inum / IPB], inum % IPB, d, RECORD)], n) == TableOf(blocks, n)[inum := d]
  {
    var bs := blocks[inum / IPB := Put(blocks[inum / IPB], inum % IPB, d, RECORD)];
    forall i: nat | i < n ensures TableOf(bs, n)[i] == TableOf(blocks, n)[inum := d][i] { UpdateAt(blocks, inum, d, i); }
  }

  class Itable {
    const start: nat       // sb.inodestart
    const ninodes: nat
    var blocks: seq<Block>
    ghost var logged: set<nat>

    ghost predicate Valid() reads this { ninodes <= |blocks| * IPB }

    /** The inodes that the blocks hold. */
    ghost function Table(): (t: seq<Dinode>)
      requires Valid()
      reads this
      ensures |t| == ninodes
    {
      TableOf(blocks, ninodes)
    }

    constructor (s: nat, n: nat, bs: seq<Block>)
      requires n <= |bs| * IPB
      ensures Valid() && start == s && ninodes == n && blocks == bs && logged == {}
    {
      start, ninodes, blocks, logged := s, n, bs, {};
    }

    /** ilock's copy of the record into the in-memory inode. */
    method Load(inum: nat) returns (d: Dinode)
      requires Valid() && inum < ninodes
      ensures d == Table()[inum]
    {
      d := InodeAt(blocks, inum);
    }

    /** iupdate: exactly this inode's record changes, and its block is logged. */
    method Update(inum: nat, d: Dinode)
      requires Valid() && inum < ninodes && InRange(d)
      modifies this`blocks, this`logged
      ensures Valid() && Table() == old(Table())[inum := d] && logged == old(logged) + {inum / IPB + start}
    {
      UpdateTable(blocks, ninodes, inum, d);
      blocks := blocks[inum / IPB := Put(blocks[inum / IPB], inum % IPB, d, RECORD)];
      logged := logged + {inum / IPB + start};
    }

    /** ialloc: the first inode from 1 on whose type is 0 is blank but for the type; None is the panic. */
    method Alloc(typ: int) returns (r: Option<nat>)
      requires Valid() && Short(typ)
      modifies this`blocks, this`logged
      ensures Valid()
      ensures r.None? ==> blocks == old(blocks) && forall j :: 1 <= j < ninodes ==> Table()[j].typ != 0
      ensures r.Some? ==> 1 <= r.value < ninodes && old(Table())[r.value].typ == 0 && forall j :: 1 <= j < r.value ==> old(Table())[j].typ != 0
      ensures r.Some? ==> Table() == old(Table())[r.value := BLANK.(typ := typ)] && logged == old(logged) + {r.value / IPB + start}
    {
      var inum := 1;
      while inum < ninodes && InodeAt(blocks, inum).typ != 0
        invariant 1 <= inum && forall j :: 1 <= j < inum && j < ninodes ==> InodeAt(blocks, j).typ != 0
      {
        inum := inum + 1;
      }
      r := None;
      if inum < ninodes {
        Update(inum, BLANK.(typ := typ));
        r := Some(inum);
      }
    }
  }
}
