/** The directory tree that kernel/sysfile.c and kernel/fs.c keep, as a value: inodes with their link
    counts, and directories with their entries. */
module Names {

  const ROOT := 1
  const MAXLINKS := 32767   // the largest value of a short
  const MAXENTS := 17152    // entries of 16 bytes in the largest file, MAXFILE * BSIZE bytes

  datatype Kind = Free | Dir | File | Device

  /** A directory entry; inum 0 marks a free slot. */
  datatype Ent = Ent(name: string, inum: nat)

  datatype Node = Node(kind: Kind, nlink: int, ents: seq<Ent>)

  /** ++ and -- on a short. */
  function Inc(n: int): int { if n == MAXLINKS then -MAXLINKS - 1 else n + 1 }

  function Dec(n: int): int { if n == -MAXLINKS - 1 then MAXLINKS else n - 1 }

  /** No name occurs twice. */
  ghost predicate Distinct(e: seq<Ent>)
  {
    forall j, k :: 0 <= j < k < |e| && e[j].inum != 0 && e[k].inum != 0 ==> e[j].name != e[k].name
  }

  /** `slot[x]` is where directory `x` is named in its parent, `depth[x]` its distance from the root. */
  datatype Tree = Tree(nodes: seq<Node>, slot: seq<nat>, depth: seq<nat>) {

    /** A directory with links: removed ones may live on as somebody's cwd, but do not count. */
    predicate LiveDir(d: nat) { d < |nodes| && nodes[d].kind == Dir && nodes[d].nlink > 0 }

    ghost predicate Shape() { |slot| == |nodes| && |depth| == |nodes| && ROOT < |nodes| && LiveDir(ROOT) }

    /** The inode that entry `k` of directory `d` names; 0 if there is none. */
    function Names(d: nat, k: nat): nat { if LiveDir(d) && k < |nodes[d].ents| then nodes[d].ents[k].inum else 0 }

    function Up(d: nat): nat { Names(d, 1) }

    /** Directory `d` is no larger than a file can be and begins with "." and "..", no name occurs twice, and ".."
        is the parent. */
    ghost predicate DirAt(d: nat)
      requires Shape() && LiveDir(d)
    {
      var e := nodes[d].ents;
      && 2 <= |e| <= MAXENTS && e[0] == Ent(".", d) && e[1].name == ".." && LiveDir(Up(d))
      && Distinct(e)
      && (d == ROOT ==> Up(d) == ROOT)
      && (d != ROOT ==> slot[d] >= 2 && Names(Up(d), slot[d]) == d && depth[d] == depth[Up(d)] + 1)
    }

    /** What entry `k` of `d` names exists and has links; a directory is named by its parent, once. */
    ghost predicate EntAt(d: nat, k: nat)
      requires Shape()
    {
      var x := Names(d, k);
      x != 0 && k >= 1 ==>
        && x < |nodes| && nodes[x].kind != Free && nodes[x].nlink > 0
        && (k >= 2 && nodes[x].kind == Dir ==> x != ROOT && Up(x) == d && slot[x] == k)
    }

    /** The entries other than "." that name inode `x`, in directories that have links. */
    ghost function Links(x: nat): set<(nat, nat)>
    {
      set d: nat, k: nat | d < |nodes| && k < |nodes[d].ents| && k >= 1 && x != 0 && Names(d, k) == x :: (d, k)
    }

    ghost predicate CountAt(x: nat)
      requires x < |nodes|
    {
      && (nodes[x].kind != Free ==> nodes[x].nlink == |Links(x)| <= MAXLINKS) && (nodes[x].kind == Free ==> nodes[x].nlink == 0 && Links(x) == {})
    }

    ghost predicate Ok()
    {
      && Shape() && (forall d: nat {:trigger DirAt(d)} :: LiveDir(d) ==> DirAt(d)) && (forall d: nat, k: nat :: EntAt(d, k))
      && (forall x: nat :: 0 < x < |nodes| ==> CountAt(x)) && nodes[0].kind == Free
    }
  }

  /** What mkfs leaves before any file is added: the root, which is its own parent, and `more` free inodes. */
  function Initial(more: nat): Tree
  {
    Tree([Node(Free, 0, []), Node(Dir, 1, [Ent(".", 1), Ent("..", 1)])] + seq(more, _ => Node(Free, 0, [])),
         seq(more + 2, _ => 0), seq(more + 2, _ => 0))
  }

  lemma InitialOk(more: nat)
    ensures Initial(more).Ok()
  {
    var t := Initial(more);
    assert t.nodes[1].ents == [Ent(".", 1), Ent("..", 1)];
    assert forall d: nat :: t.LiveDir(d) <==> d == 1;
    forall d: nat | t.LiveDir(d) ensures t.DirAt(d) { }
    forall d: nat, k: nat ensures t.EntAt(d, k) { }
    forall x: nat | 0 < x < |t.nodes| ensures t.CountAt(x) {
      if x == 1 {
        assert t.Names(1, 1) == 1;
        assert t.Links(1) == {(1, 1)};
      } else {
        assert t.Links(x) == {};
      }
    }
  }

  type OkTree = t: Tree | t.Ok() ghost witness (InitialOk(0); Initial(0))

  // dirlink: entry `k` of directory `d`, free or just past the end, takes a name.

  ghost function SetEnt(t: Tree, d: nat, k: nat, e: Ent): Tree
    requires d < |t.nodes| && k <= |t.nodes[d].ents|
  {
    var n := t.nodes[d];
    t.(nodes := t.nodes[d := n.(ents := if k < |n.ents| then n.ents[k := e] else n.ents + [e])])
  }

  ghost function SetCount(t: Tree, x: nat, n: int): Tree
    requires x < |t.nodes|
  {
    t.(nodes := t.nodes[x := t.nodes[x].(nlink := n)])
  }

  /** Entry `k` of `d` is free for a new name. */
  ghost predicate FreeEnt(t: Tree, d: nat, k: nat)
  {
    t.LiveDir(d) && 2 <= k <= |t.nodes[d].ents| && k < MAXENTS && (k < |t.nodes[d].ents| ==> t.nodes[d].ents[k].inum == 0)
  }

  ghost predicate NoName(t: Tree, d: nat, name: string)
  {
    d < |t.nodes| && forall j :: 0 <= j < |t.nodes[d].ents| && t.nodes[d].ents[j].inum != 0 ==> t.nodes[d].ents[j].name != name
  }

  /** sys_link: `x`, which is no directory, gets one more name. */
  ghost function Linked(t: OkTree, d: nat, k: nat, name: string, x: nat): Tree
    requires FreeEnt(t, d, k) && x < |t.nodes| && x != d
  {
    SetCount(SetEnt(t, d, k, Ent(name, x)), x, Inc(t.nodes[x].nlink))
  }

  ghost predicate CanLink(t: OkTree, d: nat, k: nat, name: string, x: nat)
  {
    && FreeEnt(t, d, k) && NoName(t, d, name) && 0 < x < |t.nodes| && x != d
    && (t.nodes[x].kind == File || t.nodes[x].kind == Device) && t.nodes[x].nlink > 0
  }

  lemma LinkedNames(t: OkTree, d: nat, k: nat, name: string, x: nat, e: nat, j: nat)
    requires CanLink(t, d, k, name, x)
    ensures Linked(t, d, k, name, x).LiveDir(e) <==> t.LiveDir(e)
    ensures Linked(t, d, k, name, x).Names(e, j) == if e == d && j == k then x else t.Names(e, j)
  {
  }

  lemma LinkedLinks(t: OkTree, d: nat, k: nat, name: string, x: nat, y: nat)
    requires CanLink(t, d, k, name, x)
    ensures Linked(t, d, k, name, x).Links(y) == t.Links(y) + (if y == x then {(d, k)} else {}) && (d, k) !in t.Links(y)
  {
    var n := Linked(t, d, k, name, x);
    forall e: nat, j: nat ensures (e, j) in n.Links(y) <==> (e, j) in t.Links(y) || (y == x && e == d && j == k) {
      LinkedNames(t, d, k, name, x, e, j);
    }
    LinkedNames(t, d, k, name, x, d, k);
  }

  lemma LinkedDir(t: OkTree, d: nat, k: nat, name: string, x: nat, e: nat)
    requires CanLink(t, d, k, name, x) && Linked(t, d, k, name, x).LiveDir(e) && Linked(t, d, k, name, x).Shape()
    ensures Linked(t, d, k, name, x).DirAt(e)
  {
    LinkedNames(t, d, k, name, x, e, 1);
    assert t.DirAt(e);
    LinkedNames(t, d, k, name, x, t.Up(e), t.slot[e]);
  }

  /** A new name keeps the tree and its counts exactly while the count has room: at 32767 it becomes negative. */
  lemma LinkedOk(t: OkTree, d: nat, k: nat, name: string, x: nat)
    requires CanLink(t, d, k, name, x)
    ensures Linked(t, d, k, name, x).Ok() <==> t.nodes[x].nlink < MAXLINKS
    ensures t.nodes[x].nlink == MAXLINKS ==> Linked(t, d, k, name, x).nodes[x].nlink == -32768
  {
    var n := Linked(t, d, k, name, x);
    assert t.CountAt(x);
    if t.nodes[x].nlink < MAXLINKS {
      forall e: nat | n.LiveDir(e) ensures n.DirAt(e) { LinkedDir(t, d, k, name, x, e); }
      forall e: nat, j: nat ensures n.EntAt(e, j) { LinkedEnt(t, d, k, name, x, e, j); }
      forall y: nat | 0 < y < |n.nodes| ensures n.CountAt(y) { LinkedCount(t, d, k, name, x, y); }
    } else {
      assert !n.CountAt(x);
    }
  }

  lemma LinkedEnt(t: OkTree, d: nat, k: nat, name: string, x: nat, e: nat, j: nat)
    requires CanLink(t, d, k, name, x) && t.nodes[x].nlink < MAXLINKS
    ensures Linked(t, d, k, name, x).Shape() && Linked(t, d, k, name, x).EntAt(e, j)
  {
    assert t.EntAt(e, j);
    LinkedNames(t, d, k, name, x, e, j);
    LinkedNames(t, d, k, name, x, t.Names(e, j), 1);
  }

  lemma LinkedCount(t: OkTree, d: nat, k: nat, name: string, x: nat, y: nat)
    requires CanLink(t, d, k, name, x) && t.nodes[x].nlink < MAXLINKS && 0 < y < |t.nodes|
    ensures |Linked(t, d, k, name, x).nodes| == |t.nodes| && Linked(t, d, k, name, x).CountAt(y)
  {
    assert t.CountAt(y);
    LinkedLinks(t, d, k, name, x, y);
    OneMore(t.Links(y), (d, k));
    LinkedNode(t, d, k, name, x, y);
  }

  lemma LinkedNode(t: OkTree, d: nat, k: nat, name: string, x: nat, y: nat)
    requires CanLink(t, d, k, name, x) && y < |t.nodes|
    ensures |Linked(t, d, k, name, x).nodes| == |t.nodes| && Linked(t, d, k, name, x).nodes[y].kind == t.nodes[y].kind
    ensures Linked(t, d, k, name, x).nodes[y].nlink == if y == x then Inc(t.nodes[x].nlink) else t.nodes[y].nlink
  {
  }

  lemma OneMore(s: set<(nat, nat)>, e: (nat, nat))
    requires e !in s
    ensures |s + {e}| == |s| + 1 && s + {} == s
  {
  }

  // sys_unlink: entry `k` of directory `d` is cleared.

  ghost predicate EmptyDir(t: Tree, x: nat) { x < |t.nodes| && forall j :: 2 <= j < |t.nodes[x].ents| ==> t.nodes[x].ents[j].inum == 0 }

  ghost predicate CanUnlink(t: OkTree, d: nat, k: nat, x: nat)
  {
    && t.LiveDir(d) && 2 <= k < |t.nodes[d].ents| && x == t.Names(d, k) && 0 < x < |t.nodes| && x != d
    && (t.nodes[x].kind == Dir ==> EmptyDir(t, x))
  }

  ghost function Unlinked(t: OkTree, d: nat, k: nat, x: nat): Tree
    requires t.LiveDir(d) && k < |t.nodes[d].ents| && x < |t.nodes| && x != d && t.nodes[x].nlink > 0
  {
    var u := SetEnt(t, d, k, Ent("", 0));
    var v := if t.nodes[x].kind == Dir then SetCount(u, d, Dec(t.nodes[d].nlink)) else u;
    SetCount(v, x, Dec(t.nodes[x].nlink))
  }

  lemma NoChild(t: OkTree, x: nat, e: nat)
    requires t.LiveDir(x) && x != ROOT && EmptyDir(t, x) && t.LiveDir(e)
    ensures t.Up(e) != x
  {
    assert t.DirAt(e);
    assert e < |t.slot| && (e != ROOT ==> t.Names(t.Up(e), t.slot[e]) == e);
  }

  /** An empty directory is named once, by its parent, which has another link. */
  lemma EmptyDirLinks(t: OkTree, d: nat, k: nat, x: nat)
    requires CanUnlink(t, d, k, x) && t.nodes[x].kind == Dir
    ensures t.Links(x) == {(d, k)} && t.nodes[x].nlink == 1 && x != ROOT && t.Up(x) == d && t.nodes[d].nlink >= 2
  {
    assert t.EntAt(d, k) && t.CountAt(x) && t.DirAt(x);
    forall e: nat, j: nat | (e, j) in t.Links(x) ensures e == d && j == k {
      assert t.EntAt(e, j);
      if j == 1 { NoChild(t, x, e); }
    }
    assert (d, k) in t.Links(x);
    assert t.CountAt(d) && (x, 1) in t.Links(d);
    AnotherLink(t, d, x);
  }

  lemma AnotherLink(t: OkTree, d: nat, x: nat)
    requires t.LiveDir(d) && t.LiveDir(x) && x != ROOT && x != d && t.Up(x) == d && d > 0
    ensures t.nodes[d].nlink >= 2
  {
    assert t.DirAt(d) && t.DirAt(x) && t.CountAt(d) && (x, 1) in t.Links(d);
    var other := if d == ROOT then (ROOT, 1) else (t.Up(d), t.slot[d]);
    assert other in t.Links(d) && other != (x, 1);
    assert {other, (x, 1)} <= t.Links(d);
    Card(t.Links(d), {other, (x, 1)});
  }

  lemma {:induction false} Card(a: set<(nat, nat)>, b: set<(nat, nat)>)
    requires b <= a
    ensures |b| <= |a|
  {
    if b != {} {
      var x :| x in b;
      Card(a - {x}, b - {x});
    }
  }

  lemma UnlinkedNames(t: OkTree, d: nat, k: nat, x: nat, e: nat, j: nat)
    requires CanUnlink(t, d, k, x) && t.nodes[x].nlink > 0
    requires t.nodes[x].kind == Dir ==> t.nodes[x].nlink == 1 && t.nodes[d].nlink >= 2
    ensures var n := Unlinked(t, d, k, x);
      && (n.LiveDir(e) <==> t.LiveDir(e) && !(t.nodes[x].kind == Dir && e == x))
      && n.Names(e, j) == if (e == d && j == k) || (t.nodes[x].kind == Dir && e == x) then 0 else t.Names(e, j)
  {
  }

  lemma UnlinkedLinks(t: OkTree, d: nat, k: nat, x: nat, y: nat)
    requires CanUnlink(t, d, k, x) && t.nodes[x].nlink > 0
    requires t.nodes[x].kind == Dir ==> t.nodes[x].nlink == 1 && t.nodes[d].nlink >= 2 && t.Up(x) == d
    ensures Unlinked(t, d, k, x).Links(y) ==
      if y == x then t.Links(y) - {(d, k)} else if y == d && t.nodes[x].kind == Dir then t.Links(y) - {(x, 1)} else t.Links(y)
  {
    var n := Unlinked(t, d, k, x);
    forall e: nat, j: nat
      ensures (e, j) in n.Links(y) <==> (e, j) in t.Links(y) && !(y == x && e == d && j == k) && !(t.nodes[x].kind == Dir && y == d && e == x && j == 1)
    {
      UnlinkedNames(t, d, k, x, e, j);
      if e == x && t.nodes[x].kind == Dir && j >= 2 && j < |t.nodes[x].ents| { assert t.nodes[x].ents[j].inum == 0; }
    }
  }

  lemma UnlinkedOk(t: OkTree, d: nat, k: nat, x: nat)
    requires CanUnlink(t, d, k, x)
    ensures t.nodes[x].nlink > 0 && Unlinked(t, d, k, x).Ok()
  {
    assert t.EntAt(d, k) && t.CountAt(x);
    if t.nodes[x].kind == Dir { EmptyDirLinks(t, d, k, x); }
    var n := Unlinked(t, d, k, x);
    forall e: nat | n.LiveDir(e) ensures n.DirAt(e) { UnlinkedDir(t, d, k, x, e); }
    forall e: nat, j: nat ensures n.EntAt(e, j) { UnlinkedEnt(t, d, k, x, e, j); }
    forall y: nat | 0 < y < |n.nodes| ensures n.CountAt(y) { UnlinkedCount(t, d, k, x, y); }
  }

  lemma UnlinkedDir(t: OkTree, d: nat, k: nat, x: nat, e: nat)
    requires CanUnlink(t, d, k, x) && t.nodes[x].nlink > 0 && Unlinked(t, d, k, x).LiveDir(e) && Unlinked(t, d, k, x).Shape()
    requires t.nodes[x].kind == Dir ==> t.nodes[x].nlink == 1 && t.nodes[d].nlink >= 2 && t.Up(x) == d
    ensures Unlinked(t, d, k, x).DirAt(e)
  {
    UnlinkedNames(t, d, k, x, e, 1);
    assert t.DirAt(e) && t.EntAt(d, k);
    UnlinkedNames(t, d, k, x, t.Up(e), t.slot[e]);
    UnlinkedNames(t, d, k, x, t.Up(e), 1);
    if t.nodes[x].kind == Dir { NoChild(t, x, e); }
  }

  lemma UnlinkedEnt(t: OkTree, d: nat, k: nat, x: nat, e: nat, j: nat)
    requires CanUnlink(t, d, k, x) && t.nodes[x].nlink > 0 && Unlinked(t, d, k, x).Shape()
    requires t.nodes[x].kind == Dir ==> t.Links(x) == {(d, k)} && t.nodes[x].nlink == 1 && t.nodes[d].nlink >= 2
    ensures Unlinked(t, d, k, x).EntAt(e, j)
  {
    assert t.EntAt(e, j) && t.EntAt(d, k);
    UnlinkedNames(t, d, k, x, e, j);
    var y := t.Names(e, j);
    UnlinkedNames(t, d, k, x, y, 1);
    if y == x && y != 0 && j >= 1 {
      assert (e, j) in t.Links(x) && t.CountAt(x);
      if (e, j) != (d, k) {
        assert (d, k) in t.Links(x);
        Card(t.Links(x), {(e, j), (d, k)});
      }
    }
  }

  lemma UnlinkedNode(t: OkTree, d: nat, k: nat, x: nat, y: nat)
    requires CanUnlink(t, d, k, x) && t.nodes[x].nlink > 0 && y < |t.nodes| && (t.nodes[x].kind == Dir ==> t.nodes[d].nlink >= 2)
    ensures Unlinked(t, d, k, x).nodes[y].kind == t.nodes[y].kind
    ensures Unlinked(t, d, k, x).nodes[y].nlink ==
      t.nodes[y].nlink - (if y == x then 1 else 0) - (if y == d && t.nodes[x].kind == Dir then 1 else 0)
  {
  }

  lemma UnlinkedCount(t: OkTree, d: nat, k: nat, x: nat, y: nat)
    requires CanUnlink(t, d, k, x) && t.nodes[x].nlink > 0 && 0 < y < |t.nodes|
    requires t.nodes[x].kind == Dir ==> t.nodes[x].nlink == 1 && t.nodes[d].nlink >= 2 && t.Up(x) == d
    ensures Unlinked(t, d, k, x).CountAt(y)
  {
    assert t.CountAt(y) && t.EntAt(d, k);
    UnlinkedLinks(t, d, k, x, y);
    UnlinkedNode(t, d, k, x, y);
    if y == x { assert (d, k) in t.Links(y); }
    if y == d && t.nodes[x].kind == Dir { assert (x, 1) in t.Links(y); }
  }

  // create: a free inode becomes a file, a device or a directory, named in `d`.

  ghost predicate CanCreate(t: OkTree, d: nat, k: nat, name: string, c: nat, kind: Kind)
  {
    FreeEnt(t, d, k) && NoName(t, d, name) && 0 < c < |t.nodes| && t.nodes[c].kind == Free && kind != Free
  }

  // A directory is named by its own entry and by the ".." of each subdirectory, which takes an entry of it. So the
  // entries bound the count.

  /** The entry of `d` that stands for a link to it: a subdirectory's own, or 1 for the name of `d`. */
  ghost function Stands(t: OkTree, p: (nat, nat)): nat { if p.1 == 1 && p.0 != ROOT && p.0 < |t.slot| then t.slot[p.0] else 1 }

  lemma StandsFor(t: OkTree, d: nat, p: (nat, nat))
    requires t.LiveDir(d) && p in t.Links(d)
    ensures 1 <= Stands(t, p) < |t.nodes[d].ents|
    ensures Stands(t, p) > 1 ==> p == (t.Names(d, Stands(t, p)), 1)
    ensures Stands(t, p) == 1 ==> p == if d == ROOT then (ROOT, 1) else (t.Up(d), t.slot[d])
  {
    assert t.EntAt(p.0, p.1) && t.DirAt(d) && t.DirAt(p.0);
  }

  lemma {:induction false} FewLinks(t: OkTree, d: nat, s: set<(nat, nat)>, n: nat)
    requires t.LiveDir(d) && s <= t.Links(d) && n >= 1 && forall p :: p in s ==> Stands(t, p) < n
    ensures |s| <= n - 1
    decreases n
  {
    forall p | p in s ensures 1 <= Stands(t, p) { StandsFor(t, d, p); }
    if n > 1 {
      if p :| p in s && Stands(t, p) == n - 1 {
        StandsFor(t, d, p);
        forall q | q in s - {p} ensures Stands(t, q) < n - 1 { StandsFor(t, d, q); }
        FewLinks(t, d, s - {p}, n - 1);
      } else {
        FewLinks(t, d, s, n - 1);
      }
    } else {
      assert s == {};
    }
  }

  /** The link count of a directory is below the number of its entries, and so never at the limit of a short. */
  lemma DirCount(t: OkTree, d: nat)
    requires t.LiveDir(d)
    ensures t.nodes[d].nlink < |t.nodes[d].ents| <= MAXENTS
  {
    assert t.DirAt(d) && t.CountAt(d);
    forall p | p in t.Links(d) ensures Stands(t, p) < |t.nodes[d].ents| { StandsFor(t, d, p); }
    FewLinks(t, d, t.Links(d), |t.nodes[d].ents|);
  }

  /** The parent's count has room for the ".." of a new directory. */
  predicate Roomy(t: Tree, d: nat, kind: Kind) { d < |t.nodes| && (kind == Dir ==> t.nodes[d].nlink < MAXLINKS) }

  function NewNode(kind: Kind, c: nat, d: nat): Node
  {
    Node(kind, 1, if kind == Dir then [Ent(".", c), Ent("..", d)] else [])
  }

  ghost function Created(t: OkTree, d: nat, k: nat, name: string, c: nat, kind: Kind): Tree
    requires FreeEnt(t, d, k) && c < |t.nodes| && c != d
  {
    var u := SetEnt(t, d, k, Ent(name, c));
    var v := if kind == Dir then SetCount(u, d, Inc(t.nodes[d].nlink)) else u;
    v.(nodes := v.nodes[c := NewNode(kind, c, d)], slot := t.slot[c := k], depth := t.depth[c := t.depth[d] + 1])
  }

  lemma CreatedNames(t: OkTree, d: nat, k: nat, name: string, c: nat, kind: Kind, e: nat, j: nat)
    requires CanCreate(t, d, k, name, c, kind) && Roomy(t, d, kind)
    ensures c != d && !t.LiveDir(c)
    ensures var n := Created(t, d, k, name, c, kind);
      && (n.LiveDir(e) <==> t.LiveDir(e) || (e == c && kind == Dir))
      && n.Names(e, j) == if e == d && j == k then c else if e == c && kind == Dir then (if j == 0 then c else if j == 1 then d else 0) else t.Names(e, j)
  {
  }

  lemma CreatedLinks(t: OkTree, d: nat, k: nat, name: string, c: nat, kind: Kind, y: nat)
    requires CanCreate(t, d, k, name, c, kind) && Roomy(t, d, kind) && y > 0
    ensures c != d && Created(t, d, k, name, c, kind).Links(y) ==
      t.Links(y) + (if y == c then {(d, k)} else {}) + (if kind == Dir && y == d then {(c, 1)} else {})
    ensures (d, k) !in t.Links(y) && (c, 1) !in t.Links(y)
  {
    CreatedNames(t, d, k, name, c, kind, d, k);
    var n := Created(t, d, k, name, c, kind);
    forall e: nat, j: nat
      ensures (e, j) in n.Links(y) <==> (e, j) in t.Links(y) || (y == c && e == d && j == k) || (kind == Dir && y == d && e == c && j == 1)
    {
      CreatedNames(t, d, k, name, c, kind, e, j);
      LinksHas(n, y, e, j);
      LinksHas(t, y, e, j);
    }
    LinksHas(t, y, d, k);
    LinksHas(t, y, c, 1);
  }

  lemma LinksHas(t: Tree, x: nat, d: nat, k: nat)
    requires x > 0
    ensures (d, k) in t.Links(x) <==> k >= 1 && t.Names(d, k) == x
  {
  }

  lemma CreatedDir(t: OkTree, d: nat, k: nat, name: string, c: nat, kind: Kind, e: nat)
    requires CanCreate(t, d, k, name, c, kind) && Roomy(t, d, kind) && Created(t, d, k, name, c, kind).LiveDir(e) && Created(t, d, k, name, c, kind).Shape()
    ensures Created(t, d, k, name, c, kind).DirAt(e)
  {
    CreatedNames(t, d, k, name, c, kind, e, 1);
    CreatedNames(t, d, k, name, c, kind, d, k);
    if e != c { OldDir(t, d, k, name, c, kind, e); }
  }

  lemma OldDir(t: OkTree, d: nat, k: nat, name: string, c: nat, kind: Kind, e: nat)
    requires CanCreate(t, d, k, name, c, kind) && Roomy(t, d, kind) && Created(t, d, k, name, c, kind).LiveDir(e) && Created(t, d, k, name, c, kind).Shape()
    requires t.LiveDir(e) && e != c
    ensures Created(t, d, k, name, c, kind).DirAt(e)
  {
    assert t.DirAt(e);
    CreatedNames(t, d, k, name, c, kind, e, 1);
    CreatedNames(t, d, k, name, c, kind, t.Up(e), t.slot[e]);
    CreatedNames(t, d, k, name, c, kind, t.Up(e), 1);
    CreatedEnts(t, d, k, name, c, kind, e);
  }

  lemma CreatedEnts(t: OkTree, d: nat, k: nat, name: string, c: nat, kind: Kind, e: nat)
    requires CanCreate(t, d, k, name, c, kind) && t.LiveDir(e) && e != c && Distinct(t.nodes[e].ents)
    ensures c != d && |Created(t, d, k, name, c, kind).nodes| == |t.nodes| && Distinct(Created(t, d, k, name, c, kind).nodes[e].ents)
  {
  }

  lemma CreatedEnt(t: OkTree, d: nat, k: nat, name: string, c: nat, kind: Kind, e: nat, j: nat)
    requires CanCreate(t, d, k, name, c, kind) && Roomy(t, d, kind) && Created(t, d, k, name, c, kind).Shape()
    ensures Created(t, d, k, name, c, kind).EntAt(e, j)
  {
    assert t.EntAt(e, j);
    CreatedNames(t, d, k, name, c, kind, e, j);
    CreatedNames(t, d, k, name, c, kind, Created(t, d, k, name, c, kind).Names(e, j), 1);
  }

  lemma CreatedCount(t: OkTree, d: nat, k: nat, name: string, c: nat, kind: Kind, y: nat)
    requires CanCreate(t, d, k, name, c, kind) && Roomy(t, d, kind) && 0 < y < |t.nodes|
    ensures Created(t, d, k, name, c, kind).CountAt(y)
  {
    assert t.CountAt(y);
    CreatedLinks(t, d, k, name, c, kind, y);
    OneMore(t.Links(y), (d, k));
    OneMore(t.Links(y), (c, 1));
    CreatedNode(t, d, k, name, c, kind, y);
  }

  lemma CreatedNode(t: OkTree, d: nat, k: nat, name: string, c: nat, kind: Kind, y: nat)
    requires CanCreate(t, d, k, name, c, kind) && Roomy(t, d, kind) && 0 < y < |t.nodes|
    ensures c != d && |Created(t, d, k, name, c, kind).nodes| == |t.nodes|
    ensures var n := Created(t, d, k, name, c, kind).nodes[y];
      if y == c then n.kind != Free && n.nlink == 1 && t.nodes[y].kind == Free
      else n.kind == t.nodes[y].kind && n.nlink == t.nodes[y].nlink + if kind == Dir && y == d then 1 else 0
  {
  }

  /** A new inode keeps the tree and its counts. */
  lemma CreatedOk(t: OkTree, d: nat, k: nat, name: string, c: nat, kind: Kind)
    requires CanCreate(t, d, k, name, c, kind)
    ensures c != d && Created(t, d, k, name, c, kind).Ok()
  {
    var n := Created(t, d, k, name, c, kind);
    DirCount(t, d);
    forall e: nat | n.LiveDir(e) ensures n.DirAt(e) { CreatedDir(t, d, k, name, c, kind, e); }
    forall e: nat, j: nat ensures n.EntAt(e, j) { CreatedEnt(t, d, k, name, c, kind, e, j); }
    forall y: nat | 0 < y < |n.nodes| ensures n.CountAt(y) { CreatedCount(t, d, k, name, c, kind, y); }
  }

  // iput of an inode without links: its slot is free again.

  ghost function Reclaimed(t: OkTree, x: nat): Tree
    requires x < |t.nodes|
  {
    t.(nodes := t.nodes[x := Node(Free, 0, [])])
  }

  lemma ReclaimedOk(t: OkTree, x: nat)
    requires 0 < x < |t.nodes| && t.nodes[x].nlink == 0
    ensures Reclaimed(t, x).Ok()
  {
    var n := Reclaimed(t, x);
    forall e: nat | n.LiveDir(e) ensures n.DirAt(e) {
      assert t.DirAt(e);
      ReclaimedNames(t, x, e, 1);
      ReclaimedNames(t, x, t.Up(e), t.slot[e]);
    }
    forall e: nat, j: nat ensures n.EntAt(e, j) {
      assert t.EntAt(e, j);
      ReclaimedNames(t, x, e, j);
      ReclaimedNames(t, x, t.Names(e, j), 1);
    }
    forall y: nat | 0 < y < |n.nodes| ensures n.CountAt(y) { ReclaimedCount(t, x, y); }
  }

  lemma ReclaimedNames(t: OkTree, x: nat, e: nat, j: nat)
    requires 0 < x < |t.nodes| && t.nodes[x].nlink == 0
    ensures Reclaimed(t, x).Names(e, j) == t.Names(e, j) && (Reclaimed(t, x).LiveDir(e) <==> t.LiveDir(e))
  {
  }

  lemma ReclaimedCount(t: OkTree, x: nat, y: nat)
    requires 0 < x < |t.nodes| && t.nodes[x].nlink == 0 && 0 < y < |t.nodes|
    ensures Reclaimed(t, x).CountAt(y)
  {
    var n := Reclaimed(t, x);
    assert t.CountAt(y) && t.CountAt(x);
    forall e: nat, j: nat ensures (e, j) in n.Links(y) <==> (e, j) in t.Links(y) { ReclaimedNames(t, x, e, j); }
    assert n.Links(y) == t.Links(y);
  }

  // What the invariant says.

  /** From every directory with links, following ".." leads to the root, in as many steps as its depth. */
  lemma {:induction false} UpToRoot(t: OkTree, d: nat)
    requires t.LiveDir(d)
    ensures t.depth[d] >= t.depth[ROOT] && Climb(t, d, t.depth[d] - t.depth[ROOT]) == ROOT
    decreases t.depth[d]
  {
    assert t.DirAt(d);
    if d != ROOT { UpToRoot(t, t.Up(d)); }
  }

  ghost function Climb(t: Tree, d: nat, n: nat): nat
    decreases n
  {
    if n == 0 then d else Climb(t, t.Up(d), n - 1)
  }
}
