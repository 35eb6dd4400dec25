/** skipelem and namex (kernel/fs.c): path names against their list of elements. */
module Paths {
  import opened Options
  import opened Names
  import SysFile

  const DIRSIZ := 14

  /** Characters up to the first slash. */
  function WordLen(p: string): (n: nat)
    ensures n <= |p|
  {
    if p == "" || p[0] == '/' then 0 else 1 + WordLen(p[1..])
  }

  function Cut(w: string): string { if |w| >= DIRSIZ then w[..DIRSIZ] else w }

  /** The elements of a path: what is between slashes, cut to DIRSIZ characters. */
  function Elements(p: string): seq<string>
    decreases |p|
  {
    if p == "" then [] else if p[0] == '/' then Elements(p[1..]) else [Cut(p[..WordLen(p)])] + Elements(p[WordLen(p)..])
  }

  lemma {:induction false} WordEnds(p: string, n: nat)
    requires n <= |p| && (forall i :: 0 <= i < n ==> p[i] != '/') && (n < |p| ==> p[n] == '/')
    ensures WordLen(p) == n
    decreases n
  {
    if n > 0 { WordEnds(p[1..], n - 1); }
  }

  lemma {:induction false} Slashes(p: string, n: nat)
    requires n <= |p| && forall i :: 0 <= i < n ==> p[i] == '/'
    ensures Elements(p) == Elements(p[n..])
    decreases n
  {
    if n > 0 {
      Slashes(p[1..], n - 1);
      assert p[1..][n - 1..] == p[n..];
    } else {
      assert p[0..] == p;
    }
  }

  /** skipelem's first and last loop. */
  method SkipSlashes(path: string, at: nat) returns (i: nat)
    requires at <= |path|
    ensures at <= i <= |path| && (i < |path| ==> path[i] != '/') && Elements(path[at..]) == Elements(path[i..])
  {
    i := at;
    while i < |path| && path[i] == '/'
      invariant at <= i <= |path| && forall j :: at <= j < i ==> path[j] == '/'
    {
      i := i + 1;
    }
    Slashes(path[at..], i - at);
    assert path[at..][i - at..] == path[i..];
  }

  /** skipelem's middle loop: to the end of the element. */
  method TakeWord(path: string, s: nat) returns (i: nat)
    requires s < |path| && path[s] != '/'
    ensures s < i <= |path| && Elements(path[s..]) == [Cut(path[s..i])] + Elements(path[i..])
  {
    i := s;
    while i < |path| && path[i] != '/'
      invariant s <= i <= |path| && forall j :: s <= j < i ==> path[j] != '/'
    {
      i := i + 1;
    }
    WordEnds(path[s..], i - s);
    assert path[s..][i - s..] == path[i..] && path[s..][..i - s] == path[s..i];
  }

  /** skipelem from position `at`: the next element, and where the path goes on, which is not at a slash;
      None if there is no element left. */
  method Skipelem(path: string, at: nat) returns (r: Option<(string, nat)>)
    requires at <= |path|
    ensures r.None? <==> Elements(path[at..]) == []
    ensures r.Some? ==> at < r.value.1 <= |path| && (r.value.1 < |path| ==> path[r.value.1] != '/')
    ensures r.Some? ==> Elements(path[at..]) == [r.value.0] + Elements(path[r.value.1..])
  {
    var s := SkipSlashes(path, at);
    if s == |path| {
      r := None;
    } else {
      var e := TakeWord(path, s);
      var i := SkipSlashes(path, e);
      r := Some((Cut(path[s..e]), i));
    }
  }

  /** The inode that the first entry with this name names. */
  function Lookup(e: seq<Ent>, name: string): Option<nat>
  {
    if e == [] then None else if e[0].inum != 0 && e[0].name == name then Some(e[0].inum) else Lookup(e[1..], name)
  }

  /** Following the elements one by one. */
  function Walk(nodes: seq<Node>, start: nat, names: seq<string>): Option<nat>
    decreases |names|
  {
    if names == [] then Some(start)
    else if start >= |nodes| || nodes[start].kind != Dir then None
    else
      var next := Lookup(nodes[start].ents, names[0]);
      if next.None? then None else Walk(nodes, next.value, names[1..])
  }

  /** The inode exists and has links. */
  predicate InUse(nodes: seq<Node>, x: nat) { x < |nodes| && nodes[x].kind != Free && nodes[x].nlink > 0 }

  lemma {:induction false} LookupAt(e: seq<Ent>, name: string) returns (k: nat)
    requires Lookup(e, name).Some?
    ensures k < |e| && Lookup(e, name).value == e[k].inum != 0
  {
    if e[0].inum != 0 && e[0].name == name {
      k := 0;
    } else {
      k := LookupAt(e[1..], name);
      k := k + 1;
    }
  }

  /** In a sound tree a walk that starts at an inode with links meets no free one, so ilock does not panic. */
  lemma {:induction false} WalkInUse(t: OkTree, start: nat, names: seq<string>)
    requires InUse(t.nodes, start) && Walk(t.nodes, start, names).Some?
    ensures InUse(t.nodes, Walk(t.nodes, start, names).value)
    decreases |names|
  {
    if names != [] {
      var e := t.nodes[start].ents;
      var k := LookupAt(e, names[0]);
      assert t.DirAt(start) && t.EntAt(start, k) && t.Names(start, k) == e[k].inum;
      WalkInUse(t, e[k].inum, names[1..]);
    }
  }

  /** What dirlookup finds is what Lookup gives. */
  lemma {:induction false} LookupIs(e: seq<Ent>, name: string, k: Option<nat>)
    requires k.None? ==> forall j :: 0 <= j < |e| && e[j].inum != 0 ==> e[j].name != name
    requires k.Some? ==> k.value < |e| && e[k.value].name == name && e[k.value].inum != 0
    requires k.Some? ==> forall j :: 0 <= j < k.value && e[j].inum != 0 ==> e[j].name != name
    ensures Lookup(e, name) == if k.None? then None else Some(e[k.value].inum)
  {
    if e != [] && k != Some(0) { LookupIs(e[1..], name, if k.None? then None else Some(k.value - 1)); }
  }

  /** namex: the inode at the end of the walk, or with `parent` the directory before the last element and
      that element. */
  method Namex(nodes: seq<Node>, cwd: nat, path: string, parent: bool) returns (r: Option<nat>, name: string)
    ensures Answer(nodes, if path != "" && path[0] == '/' then ROOT else cwd, Elements(path), parent, r, name)
  {
    var ip: nat, at: nat, more := if path != "" && path[0] == '/' then ROOT else cwd, 0, true;
    ghost var es, start := Elements(path), ip;
    name, r := "", None;
    assert path[0..] == path && es == Elements(path[at..]);
    ghost var rest := es;
    while more
      invariant more ==> r == None && at <= |path| && rest == Elements(path[at..]) && Along(nodes, start, es, parent, ip, rest)
      invariant !more ==> Answer(nodes, start, es, parent, r, name)
      decreases more, |path| - at
    {
      var e := Skipelem(path, at);
      if e.None? {
        r, more := if parent then None else Some(ip), false;
      } else {
        name := e.value.0;
        AtEnd(path, e.value.1);
        ghost var left := Elements(path[e.value.1..]);
        Onward(nodes, start, es, parent, ip, name, left);
        if ip >= |nodes| || nodes[ip].kind != Dir {
          more := false;
        } else if parent && e.value.1 == |path| {
          r, more := Some(ip), false;
        } else {
          var k := SysFile.Dirlookup(nodes[ip].ents, name);
          LookupIs(nodes[ip].ents, name, k);
          more := k.Some?;
          if more { ip, at, rest := nodes[ip].ents[k.value].inum, e.value.1, left; }
        }
      }
    }
  }

  lemma AtEnd(path: string, i: nat)
    requires i <= |path| && (i < |path| ==> path[i] != '/')
    ensures Elements(path[i..]) == [] <==> i == |path|
  {
  }

  /** What namex returns for a path with elements `es`. */
  ghost predicate Answer(nodes: seq<Node>, start: nat, es: seq<string>, parent: bool, r: Option<nat>, name: string)
  {
    if !parent then r == Walk(nodes, start, es)
    else if es == [] then r == None
    else
      var d := Walk(nodes, start, es[..|es| - 1]);
      if d.Some? && d.value < |nodes| && nodes[d.value].kind == Dir then r == d && name == es[|es| - 1] else r == None
  }

  /** Having come to `ip` with `rest` to go. */
  ghost predicate Along(nodes: seq<Node>, start: nat, es: seq<string>, parent: bool, ip: nat, rest: seq<string>)
  {
    && Walk(nodes, start, es) == Walk(nodes, ip, rest) && (es == [] ==> rest == []) && (parent && rest == [] ==> es == [])
    && (rest != [] ==> Walk(nodes, start, es[..|es| - 1]) == Walk(nodes, ip, rest[..|rest| - 1]) && rest[|rest| - 1] == es[|es| - 1])
  }

  /** One element further: where the walk can go on it does, and where it cannot the answer is None. */
  lemma Onward(nodes: seq<Node>, start: nat, es: seq<string>, parent: bool, ip: nat, name: string, left: seq<string>)
    requires Along(nodes, start, es, parent, ip, [name] + left)
    ensures ip >= |nodes| || nodes[ip].kind != Dir ==> Answer(nodes, start, es, parent, None, name)
    ensures ip < |nodes| && nodes[ip].kind == Dir && parent && left == [] ==> Answer(nodes, start, es, parent, Some(ip), name)
    ensures ip < |nodes| && nodes[ip].kind == Dir && !(parent && left == []) ==>
      var next := Lookup(nodes[ip].ents, name);
      if next.None? then Answer(nodes, start, es, parent, None, name) else Along(nodes, start, es, parent, next.value, left)
  {
    var rest := [name] + left;
    assert rest[0] == name && rest[1..] == left;
    var init := rest[..|rest| - 1];
    if left == [] {
      assert init == [];
    } else {
      assert init[0] == name && init[1..] == left[..|left| - 1];
    }
  }
}
