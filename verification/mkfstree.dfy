/** The name space of an image that mkfs/mkfs.c builds: its root directory, read entry by entry as the kernel does,
    and its inodes form a tree with the right link counts, if and only if the file names differ. */
module MkfsTree {
  import opened Blocks
  import Mkfs
  import opened Names

  const ENTRY := Mkfs.ENTRY

  /** A name field up to its first NUL, as namecmp reads it. */
  function CName(f: seq<Byte>): string
  {
    if f == [] || f[0] == 0 then "" else [f[0] as char] + CName(f[1..])
  }

  /** The directory entry in these 16 bytes. */
  function Decode(e: seq<Byte>): Ent
    requires |e| == ENTRY
  {
    var lo: int, hi: int := e[0], e[1];
    Ent(CName(e[2..]), lo + 256 * hi)
  }

  function SlotOf(c: seq<Byte>, j: nat): seq<Byte>
    requires ENTRY * (j + 1) <= |c|
  {
    c[ENTRY * j..ENTRY * j + ENTRY]
  }

  /** The entries of a directory with contents `c`. */
  function Ents(c: seq<Byte>): seq<Ent>
  {
    seq(|c| / ENTRY, j requires 0 <= j < |c| / ENTRY => Decode(SlotOf(c, j)))
  }

  function KindOf(typ: nat): Kind { if typ == 0 then Free else if typ == Mkfs.T_DIR then Dir else if typ == Mkfs.T_FILE then File else Device }

  function Inode(n: Mkfs.Node): Node
  {
    Node(KindOf(n.typ), n.nlink, if n.typ == Mkfs.T_DIR then Ents(n.content) else [])
  }

  /** The tree that the inodes of an image form. */
  function TreeOf(v: seq<Mkfs.Node>): Tree
  {
    Tree(seq(|v|, i requires 0 <= i < |v| => Inode(v[i])), seq(|v|, i => i), seq(|v|, _ => 0))
  }

  /** How a file's name reads in the directory: cut to DIRSIZ bytes. */
  function Shown(name: seq<Byte>): string { CName(Mkfs.Entry(0, name)[2..]) }

  /** Entry `j` of the root directory. */
  function Named(files: seq<Mkfs.Input>, j: nat): Ent
    requires j < 2 + |files|
  {
    if j == 0 then Ent(".", 1) else if j == 1 then Ent("..", 1) else Ent(Shown(files[j - 2].name), j)
  }

  predicate Differ(files: seq<Mkfs.Input>)
  {
    forall i, j :: 0 <= i < j < 2 + |files| ==> Named(files, i).name != Named(files, j).name
  }

  lemma DecodeEntry(inum: nat, name: seq<Byte>)
    requires inum < 65536
    ensures Decode(Mkfs.Entry(inum, name)) == Ent(Shown(name), inum)
  {
    assert Mkfs.Entry(inum, name)[2..] == Mkfs.Entry(0, name)[2..];
  }

  lemma Dots()
    ensures Shown(Mkfs.DOT) == "." && Shown(Mkfs.DOT + Mkfs.DOT) == ".."
  {
    var e, f := Mkfs.Entry(0, Mkfs.DOT)[2..], Mkfs.Entry(0, Mkfs.DOT + Mkfs.DOT)[2..];
    assert e[0] == 46 && e[1] == 0 && f[0] == 46 && f[1] == 46 && f[2] == 0;
    assert CName(e[1..]) == "" && CName(f[2..]) == "";
    assert f[1..][1..] == f[2..];
    assert CName(f[1..]) == [f[1..][0] as char] + CName(f[1..][1..]);
  }

  lemma SlotBefore(a: seq<Byte>, b: seq<Byte>, j: nat)
    requires ENTRY * (j + 1) <= |a|
    ensures SlotOf(a + b, j) == SlotOf(a, j)
  {
  }

  lemma SlotLast(a: seq<Byte>, e: seq<Byte>, j: nat)
    requires |a| == ENTRY * j && |e| == ENTRY
    ensures SlotOf(a + e, j) == e
  {
  }

  lemma {:induction false} RootSlot(files: seq<Mkfs.Input>, j: nat)
    requires j < 2 + |files| < 65536
    ensures ENTRY * (j + 1) <= |Mkfs.RootDir(files)| && Decode(SlotOf(Mkfs.RootDir(files), j)) == Named(files, j)
  {
    Mkfs.RootLength(files);
    if files == [] {
      Dots();
      DecodeEntry(1, Mkfs.DOT);
      DecodeEntry(1, Mkfs.DOT + Mkfs.DOT);
      if j == 0 {
        SlotBefore(Mkfs.Entry(1, Mkfs.DOT), Mkfs.Entry(1, Mkfs.DOT + Mkfs.DOT), 0);
      } else {
        SlotLast(Mkfs.Entry(1, Mkfs.DOT), Mkfs.Entry(1, Mkfs.DOT + Mkfs.DOT), 1);
      }
    } else {
      var before, e := files[..|files| - 1], Mkfs.Entry(1 + |files|, files[|files| - 1].name);
      Mkfs.RootLength(before);
      if j == 1 + |files| {
        SlotLast(Mkfs.RootDir(before), e, j);
        DecodeEntry(j, files[j - 2].name);
      } else {
        RootSlot(before, j);
        SlotBefore(Mkfs.RootDir(before), e, j);
      }
    }
  }

  /** The root directory as the kernel reads it: the two dots, the files, and free entries to the end of the block. */
  lemma RootEnts(files: seq<Mkfs.Input>, pad: nat, j: nat)
    requires 2 + |files| < 65536
    ensures var c := Mkfs.RootDir(files) + Mkfs.Zeros(pad);
      && 2 + |files| <= |Ents(c)| && (j < |Ents(c)| ==> Ents(c)[j] == if j < 2 + |files| then Named(files, j) else Ent("", 0))
  {
    Mkfs.RootLength(files);
    var c := Mkfs.RootDir(files) + Mkfs.Zeros(pad);
    if j < |Ents(c)| {
      if j < 2 + |files| {
        RootSlot(files, j);
        SlotBefore(Mkfs.RootDir(files), Mkfs.Zeros(pad), j);
      } else {
        var e := SlotOf(c, j);
        assert e[0] == 0 && e[1] == 0 && e[2] == 0;
      }
    }
  }

  /** What mkfs leaves, after the fix of the root's size or before it (`pad` 0). */
  function Image(files: seq<Mkfs.Input>, pad: nat): seq<Mkfs.Node>
  {
    Mkfs.More(Mkfs.Built(files), Mkfs.ROOTINO, Mkfs.Zeros(pad))
  }

  lemma ImageAt(files: seq<Mkfs.Input>, pad: nat, i: nat)
    requires i < Mkfs.NINODES
    ensures Image(files, pad)[i] ==
      if i == ROOT then Mkfs.Node(Mkfs.T_DIR, 1, Mkfs.RootDir(files) + Mkfs.Zeros(pad)) else Mkfs.NodeOf(files, i)
  {
    assert Mkfs.Built(files)[i] == Mkfs.NodeOf(files, i);
  }

  lemma NodeAt(v: seq<Mkfs.Node>, i: nat)
    requires i < |v|
    ensures TreeOf(v).nodes[i] == Inode(v[i])
  {
  }

  lemma ImageNode(files: seq<Mkfs.Input>, pad: nat, i: nat)
    requires i < Mkfs.NINODES && 2 + |files| <= Mkfs.NINODES
    ensures var n := TreeOf(Image(files, pad)).nodes[i];
      && n.kind == (if i == ROOT then Dir else if 2 <= i < 2 + |files| then File else Free)
      && n.nlink == (if 1 <= i < 2 + |files| then 1 else 0) && (i != ROOT ==> n.ents == [])
      && (i == ROOT ==> n.ents == Ents(Mkfs.RootDir(files) + Mkfs.Zeros(pad)))
  {
    ImageAt(files, pad, i);
    NodeAt(Image(files, pad), i);
  }

  /** The names in the tree: entry `k` of the root, nothing elsewhere. */
  lemma ImageNames(files: seq<Mkfs.Input>, pad: nat, d: nat, k: nat)
    requires 2 + |files| <= Mkfs.NINODES
    ensures var t := TreeOf(Image(files, pad));
      && (t.LiveDir(d) <==> d == ROOT)
      && t.Names(d, k) == (if d != ROOT || k >= 2 + |files| then 0 else if k < 2 then 1 else k)
  {
    ImageNode(files, pad, if d < Mkfs.NINODES then d else 0);
    RootEnts(files, pad, k);
  }

  lemma ImageLinks(files: seq<Mkfs.Input>, pad: nat, x: nat)
    requires 2 + |files| <= Mkfs.NINODES
    ensures TreeOf(Image(files, pad)).Links(x) == if 1 <= x < 2 + |files| then {(ROOT, x)} else {}
  {
    var t := TreeOf(Image(files, pad));
    RootEnts(files, pad, 0);
    ImageNode(files, pad, ROOT);
    forall d: nat, k: nat ensures (d, k) in t.Links(x) <==> 1 <= x < 2 + |files| && d == ROOT && k == x {
      ImageNames(files, pad, d, k);
    }
  }

  /** The image's directory and link counts satisfy the kernel's invariant exactly if the names differ, from each
      other and from the dots, in their first DIRSIZ bytes, and the directory fits a file. */
  lemma ImageTree(files: seq<Mkfs.Input>, pad: nat)
    requires 2 + |files| <= Mkfs.NINODES
    ensures TreeOf(Image(files, pad)).Ok() <==> Differ(files) && 2 + |files| + pad / ENTRY <= MAXENTS
  {
    var t := TreeOf(Image(files, pad));
    forall d: nat ensures t.LiveDir(d) <==> d == ROOT { ImageNames(files, pad, d, 0); }
    assert t.Shape();
    RootDirAt(files, pad);
    forall d: nat, k: nat ensures t.EntAt(d, k) {
      ImageNames(files, pad, d, k);
      if d == ROOT && 2 <= k < 2 + |files| { ImageNode(files, pad, k); } else { ImageNode(files, pad, ROOT); }
    }
    forall x: nat | 0 < x < |t.nodes| ensures t.CountAt(x) {
      ImageNode(files, pad, x);
      ImageLinks(files, pad, x);
    }
    ImageNode(files, pad, 0);
  }

  lemma RootDirAt(files: seq<Mkfs.Input>, pad: nat)
    requires 2 + |files| <= Mkfs.NINODES && TreeOf(Image(files, pad)).Shape() && TreeOf(Image(files, pad)).LiveDir(ROOT)
    ensures TreeOf(Image(files, pad)).DirAt(ROOT) <==> Differ(files) && 2 + |files| + pad / ENTRY <= MAXENTS
  {
    var t := TreeOf(Image(files, pad));
    var e := t.nodes[ROOT].ents;
    ImageNode(files, pad, ROOT);
    forall j: nat | j < |e| ensures e[j] == if j < 2 + |files| then Named(files, j) else Ent("", 0) { RootEnts(files, pad, j); }
    RootEnts(files, pad, 0);
    Mkfs.RootLength(files);
    assert |e| == 2 + |files| + pad / ENTRY;
    ImageNames(files, pad, ROOT, 1);
    if t.DirAt(ROOT) {
      forall i, j | 0 <= i < j < 2 + |files| ensures Named(files, i).name != Named(files, j).name {
        assert e[i].inum != 0 && e[j].inum != 0;
      }
    }
  }
}
