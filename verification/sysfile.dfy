/** create, sys_link and sys_unlink (kernel/sysfile.c) with dirlookup, dirlink (kernel/fs.c) and
    isdirempty, in place, on inodes found by path lookup. The directories operated in have links: a
    removed directory that is still somebody's cwd is not one of them. */
module SysFile {
  import opened Options
  import opened Names

  /** dirlookup's loop: the first entry in use with that name. */
  method Dirlookup(e: seq<Ent>, name: string) returns (k: Option<nat>)
    ensures k.None? ==> forall j :: 0 <= j < |e| && e[j].inum != 0 ==> e[j].name != name
    ensures k.Some? ==> k.value < |e| && e[k.value].name == name && e[k.value].inum != 0
    ensures k.Some? ==> forall j :: 0 <= j < k.value && e[j].inum != 0 ==> e[j].name != name
  {
    var i := 0;
    while i < |e| && (e[i].inum == 0 || e[i].name != name)
      invariant 0 <= i <= |e| && forall j :: 0 <= j < i && e[j].inum != 0 ==> e[j].name != name
    {
      i := i + 1;
    }
    k := if i < |e| then Some(i) else None;
  }

  /** dirlink's search: the first free entry, or the place past the end. */
  method FreeSlot(e: seq<Ent>) returns (k: nat)
    ensures k <= |e| && (k < |e| ==> e[k].inum == 0) && forall j :: 0 <= j < k ==> e[j].inum != 0
  {
    k := 0;
    while k < |e| && e[k].inum != 0
      invariant k <= |e| && forall j :: 0 <= j < k ==> e[j].inum != 0
    {
      k := k + 1;
    }
  }

  /** isdirempty: no entry in use after "." and "..". */
  method Isdirempty(e: seq<Ent>) returns (r: bool)
    ensures r <==> forall j :: 2 <= j < |e| ==> e[j].inum == 0
  {
    var i := 2;
    while i < |e| && e[i].inum == 0
      invariant 2 <= i && forall j :: 2 <= j < i && j < |e| ==> e[j].inum == 0
    {
      i := i + 1;
    }
    r := i >= |e|;
  }

  function PutEnt(e: seq<Ent>, k: nat, x: Ent): seq<Ent>
    requires k <= |e|
  {
    if k < |e| then e[k := x] else e + [x]
  }

  /** The outcome of a call: -1 or 0, the inode that got or lost a name, or a panic. */
  datatype Outcome = Refused | Done(x: nat) | Panics

  /** The outcome of dirlink: the name is there already, the entry taken, or the panic in a directory as large as a
      file can be. */
  datatype Linking = Exists | At(k: nat) | NoRoom

  /** A directory without a free entry, that cannot grow. */
  ghost predicate NoSlot(e: seq<Ent>) { |e| >= MAXENTS && forall j :: 0 <= j < MAXENTS ==> e[j].inum != 0 }

  ghost predicate HasName(e: seq<Ent>, name: string) { exists j :: 0 <= j < |e| && e[j].inum != 0 && e[j].name == name }

  ghost predicate PanicsHere(nodes: seq<Node>, d: nat, name: string, j: nat)
  {
    && d < |nodes| && j < |nodes[d].ents| && nodes[d].ents[j].name == name && 0 < nodes[d].ents[j].inum < |nodes|
    && (forall i :: 0 <= i < j && nodes[d].ents[i].inum != 0 ==> nodes[d].ents[i].name != name)
    && nodes[nodes[d].ents[j].inum].nlink < 1
  }

  /** The first entry with that name, other than "." and "..", names an inode whose count is below 1. */
  ghost predicate PanicsAt(nodes: seq<Node>, d: nat, name: string)
  {
    name != "." && name != ".." && exists j :: PanicsHere(nodes, d, name, j)
  }

  ghost predicate NoInode(nodes: seq<Node>) { forall i :: 1 <= i < |nodes| ==> nodes[i].kind != Free }

  /** Entry `e` has this name; create gives its inode if a file was asked for and it is a file or a device. */
  predicate Found(nodes: seq<Node>, e: Ent, name: string, kind: Kind, r: Outcome)
  {
    && e.name == name && 0 < e.inum < |nodes|
    && r == if kind == File && (nodes[e.inum].kind == File || nodes[e.inum].kind == Device) then Done(e.inum) else Refused
  }

  class FileTree {
    var nodes: seq<Node>
    ghost var t: Tree

    /** The inodes form a tree in which every link count is the number of names. */
    ghost predicate Valid()
      reads this
    {
      nodes == t.nodes && t.Ok()
    }

    /** The file system before any file, with `more` free inodes. */
    constructor (more: nat)
      ensures Valid() && t == Initial(more)
    {
      InitialOk(more);
      nodes := [Node(Free, 0, []), Node(Dir, 1, [Ent(".", 1), Ent("..", 1)])] + seq(more, _ => Node(Free, 0, []));
      t := Initial(more);
    }

    /** dirlink of inode `x`, whose count already includes the new name. */
    method Dirlink(d: nat, name: string, x: nat) returns (r: Linking)
      requires d < |nodes|
      modifies this`nodes
      ensures r.Exists? <==> HasName(old(nodes)[d].ents, name)
      ensures r.NoRoom? <==> !HasName(old(nodes)[d].ents, name) && NoSlot(old(nodes)[d].ents)
      ensures !r.At? ==> nodes == old(nodes)
      ensures r.At? ==> r.k < MAXENTS && r.k <= |old(nodes)[d].ents| && (r.k < |old(nodes)[d].ents| ==> old(nodes)[d].ents[r.k].inum == 0)
      ensures r.At? ==> forall j :: 0 <= j < r.k ==> old(nodes)[d].ents[j].inum != 0
      ensures r.At? ==> nodes == old(nodes)[d := old(nodes)[d].(ents := PutEnt(old(nodes)[d].ents, r.k, Ent(name, x)))]
    {
      var here := Dirlookup(nodes[d].ents, name);
      if here.Some? {
        r := Exists;
      } else {
        var f := FreeSlot(nodes[d].ents);
        if f >= MAXENTS {
          r := NoRoom;
        } else {
          nodes := nodes[d := nodes[d].(ents := PutEnt(nodes[d].ents, f, Ent(name, x)))];
          r := At(f);
        }
      }
    }

    /** sys_link of inode `x` as `name` in directory `d`. The tree changes only on success, and then the counts are
        right afterwards exactly if the count, a short, had room. */
    method Link(x: nat, d: nat, name: string) returns (r: Outcome)
      requires Valid() && t.LiveDir(d) && 0 < x < |nodes| && nodes[x].kind != Free && nodes[x].nlink > 0
      modifies this
      ensures (!r.Done? ==> t == old(t)) && (!r.Panics? ==> nodes == t.nodes)
      ensures r.Refused? <==> old(nodes)[x].kind == Dir || !NoName(old(t), d, name)
      ensures r.Panics? <==> old(nodes)[x].kind != Dir && NoName(old(t), d, name) && NoSlot(old(nodes)[d].ents)
      ensures r.Done? ==> exists k :: CanLink(old(t), d, k, name, x) && t == Linked(old(t), d, k, name, x)
      ensures r.Done? ==> (Valid() <==> old(nodes)[x].nlink < MAXLINKS)
    {
      r := Refused;
      if nodes[x].kind != Dir {
        SlotAfterDots(t, d);
        nodes := nodes[x := nodes[x].(nlink := Inc(nodes[x].nlink))];
        var l := Dirlink(d, name, x);
        if l.NoRoom? {
          r := Panics;
        } else if l.Exists? {
          nodes := nodes[x := nodes[x].(nlink := Dec(nodes[x].nlink))];
        } else {
          LinkedOk(t, d, l.k, name, x);
          t := Linked(t, d, l.k, name, x);
          r := Done(x);
        }
      }
    }

    /** sys_unlink of `name` in directory `d`, whatever the counts are: it panics exactly if the count of the inode
        named is below 1. In a sound tree that cannot happen; there -1 comes with nothing changed and for the
        reasons listed, and otherwise exactly that name is gone. */
    method Unlink(d: nat, name: string) returns (r: Outcome)
      requires nodes == t.nodes && d < |nodes| && forall j :: 0 <= j < |nodes[d].ents| ==> nodes[d].ents[j].inum < |nodes|
      modifies this
      ensures nodes == t.nodes && (!r.Done? ==> t == old(t))
      ensures r.Panics? <==> PanicsAt(old(nodes), d, name)
      ensures old(t.Ok() && t.LiveDir(d)) ==> t.Ok() && !r.Panics?
      ensures old(t.Ok() && t.LiveDir(d)) && r.Refused? ==> name == "." || name == ".." || NoName(t, d, name) || NamesFullDir(t, d, name)
      ensures old(t.Ok() && t.LiveDir(d)) && r.Done? ==>
        && r.x < |old(t).nodes| && old(t).nodes[r.x].nlink > 0
        && exists k: nat :: CanUnlink(old(t), d, k, r.x) && old(t).nodes[d].ents[k].name == name && t == Unlinked(old(t), d, k, r.x)
    {
      r := Refused;
      if name != "." && name != ".." {
        var k := Dirlookup(nodes[d].ents, name);
        if k.Some? {
          var x := nodes[d].ents[k.value].inum;
          if t.Ok() && t.LiveDir(d) { Named(t, d, k.value, name, x); }
          if nodes[x].nlink < 1 {
            r := Panics;
            assert PanicsHere(nodes, d, name, k.value);
          } else {
            var empty := Isdirempty(nodes[x].ents);
            if nodes[x].kind != Dir || empty {
              Clear(d, k.value, x);
              r := Done(x);
            }
          }
        }
      }
    }

    /** sys_unlink's stores. */
    method Clear(d: nat, k: nat, x: nat)
      requires nodes == t.nodes && d < |nodes| && k < |nodes[d].ents| && x < |nodes|
      requires t.Ok() && t.LiveDir(d) ==> CanUnlink(t, d, k, x)
      modifies this
      ensures nodes == t.nodes
      ensures old(t.Ok() && t.LiveDir(d)) ==> t.Ok() && old(t).nodes[x].nlink > 0 && t == Unlinked(old(t), d, k, x)
    {
      if t.Ok() && t.LiveDir(d) { UnlinkedOk(t, d, k, x); }
      var isDir := nodes[x].kind == Dir;
      nodes := nodes[d := nodes[d].(ents := nodes[d].ents[k := Ent("", 0)])];
      if isDir { nodes := nodes[d := nodes[d].(nlink := Dec(nodes[d].nlink))]; }
      nodes := nodes[x := nodes[x].(nlink := Dec(nodes[x].nlink))];
      t := if t.Ok() && t.LiveDir(d) then Unlinked(t, d, k, x) else t.(nodes := nodes);
    }

    /** iput of the last reference to an inode: without links it is freed, and nothing that can be reached
        changes. */
    method Iput(x: nat)
      requires Valid() && 0 < x < |nodes|
      modifies this
      ensures Valid() && t == if old(nodes)[x].nlink == 0 then Reclaimed(old(t), x) else old(t)
    {
      if nodes[x].nlink == 0 {
        ReclaimedOk(t, x);
        nodes := nodes[x := Node(Free, 0, [])];
        t := Reclaimed(t, x);
      }
    }

    /** ialloc: the first free inode. */
    method Ialloc() returns (c: Option<nat>)
      requires Valid()
      ensures c.None? <==> NoInode(nodes)
      ensures c.Some? ==> 1 <= c.value < |nodes| && nodes[c.value].kind == Free
    {
      var i := 1;
      while i < |nodes| && nodes[i].kind != Free
        invariant i >= 1 && forall j :: 1 <= j < i && j < |nodes| ==> nodes[j].kind != Free
      {
        i := i + 1;
      }
      c := if i < |nodes| then Some(i) else None;
    }

    /** create of `name` in directory `d`: an existing file or device if a file was asked for, or a new inode, with
        every count right; the panics are those for want of an inode and of room in the directory. Only a new inode
        changes the tree. */
    method Create(d: nat, name: string, kind: Kind) returns (r: Outcome)
      requires Valid() && t.LiveDir(d) && kind != Free
      modifies this
      ensures (!r.Panics? ==> Valid()) && (!r.Done? || !NoName(old(t), d, name) ==> t == old(t))
      ensures r.Panics? <==> NoName(old(t), d, name) && (NoInode(old(nodes)) || NoSlot(old(nodes)[d].ents))
      ensures r.Done? && NoName(old(t), d, name) ==>
        exists k :: CanCreate(old(t), d, k, name, r.x, kind) && t == Created(old(t), d, k, name, r.x, kind)
      ensures !NoName(old(t), d, name) ==> exists j :: 0 <= j < |nodes[d].ents| && Found(nodes, nodes[d].ents[j], name, kind, r)
    {
      var here := Dirlookup(nodes[d].ents, name);
      if here.Some? {
        var x := nodes[d].ents[here.value].inum;
        NamedExists(t, d, here.value);
        r := if kind == File && (nodes[x].kind == File || nodes[x].kind == Device) then Done(x) else Refused;
        assert Found(nodes, nodes[d].ents[here.value], name, kind, r);
      } else {
        var c := Ialloc();
        r := Panics;
        if c.Some? {
          var room := Fill(d, name, c.value, kind);
          if room { r := Done(c.value); }
        }
      }
    }

    /** create's stores. */
    method Fill(d: nat, name: string, c: nat, kind: Kind) returns (room: bool)
      requires Valid() && t.LiveDir(d) && kind != Free && NoName(t, d, name) && 1 <= c < |nodes| && nodes[c].kind == Free
      modifies this
      ensures room <==> !NoSlot(old(nodes)[d].ents)
      ensures if room then Valid() && exists k :: CanCreate(old(t), d, k, name, c, kind) && t == Created(old(t), d, k, name, c, kind) else t == old(t)
    {
      SlotAfterDots(t, d);
      nodes := nodes[c := NewNode(kind, c, d)];
      if kind == Dir { nodes := nodes[d := nodes[d].(nlink := Inc(nodes[d].nlink))]; }
      var l := Dirlink(d, name, c);
      room := !l.NoRoom?;
      if room {
        CreatedOk(t, d, l.k, name, c, kind);
        t := Created(t, d, l.k, name, c, kind);
      }
    }
  }

  /** "." and ".." are in use, so a free entry comes after them. */
  lemma SlotAfterDots(t: OkTree, d: nat)
    requires t.LiveDir(d)
    ensures |t.nodes[d].ents| >= 2 && t.nodes[d].ents[0].inum != 0 && t.nodes[d].ents[1].inum != 0
  {
    assert t.DirAt(d) && t.LiveDir(t.Up(d));
  }

  lemma NamedExists(t: OkTree, d: nat, k: nat)
    requires t.LiveDir(d) && k < |t.nodes[d].ents| && t.nodes[d].ents[k].inum != 0
    ensures t.nodes[d].ents[k].inum < |t.nodes|
  {
    assert t.DirAt(d) && t.EntAt(d, k);
  }

  /** What an entry other than the first two names. */
  lemma Named(t: OkTree, d: nat, k: nat, name: string, x: nat)
    requires t.LiveDir(d) && k < |t.nodes[d].ents| && t.nodes[d].ents[k] == Ent(name, x) && x != 0 && name != "." && name != ".."
    ensures k >= 2 && x < |t.nodes| && t.nodes[x].nlink > 0 && x != d && t.Names(d, k) == x && (t.nodes[x].kind == Dir ==> t.LiveDir(x))
  {
    assert t.DirAt(d) && t.EntAt(d, k);
  }

  /** The name is that of a directory with entries. */
  ghost predicate NamesFullDir(t: Tree, d: nat, name: string)
  {
    t.LiveDir(d) && exists k :: 0 <= k < |t.nodes[d].ents| && t.nodes[d].ents[k].name == name && t.LiveDir(t.nodes[d].ents[k].inum)
                                && !EmptyDir(t, t.nodes[d].ents[k].inum)
  }
}
