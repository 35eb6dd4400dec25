/** What happens at the largest link count of kernel/sysfile.c: a tree with a file of 32767 names, which two
    directories of legal size hold, and one sys_link more. */
module LinkLimit {
  import opened Names
  import opened SysFile

  const FIRST := 16384       // names in the root; the others are in directory 3

  function Letter(i: nat): char
    requires i < 32
  {
    ('A' as int + i) as char
  }

  /** Name number `i`, three characters. */
  function Name(i: nat): string
    requires i <= MAXLINKS
  {
    [Letter(i / 1024), Letter(i / 32 % 32), Letter(i % 32)]
  }

  lemma NamesDiffer(i: nat, j: nat)
    requires i <= MAXLINKS && j <= MAXLINKS && Name(i) == Name(j)
    ensures i == j
  {
    assert Letter(i / 1024) == Name(i)[0] && Letter(i / 32 % 32) == Name(i)[1] && Letter(i % 32) == Name(i)[2];
    assert Letter(j / 1024) == Name(j)[0] && Letter(j / 32 % 32) == Name(j)[1] && Letter(j % 32) == Name(j)[2];
    Digits(i);
    Digits(j);
  }

  lemma Digits(i: nat)
    ensures i == 1024 * (i / 1024) + 32 * (i / 32 % 32) + i % 32
  {
    assert i / 32 / 32 == i / 1024;
  }

  /** The entries of a directory once names lo..hi are in it, after the `first` ones. */
  ghost predicate Holds(e: seq<Ent>, first: nat, lo: nat, hi: nat)
    requires lo <= hi <= MAXLINKS
  {
    && |e| == first + hi - lo
    && (forall j :: 0 <= j < first ==> |e[j].name| < 3)
    && (forall j :: first <= j < |e| ==> e[j] == Ent(Name(lo + j - first), 2))
  }

  function Least(a: nat, b: nat): nat { if a < b then a else b }

  /** A tree in which file 2 has `n` names. */
  ghost predicate Many(t: OkTree, n: nat)
  {
    && 1 <= n <= MAXLINKS && |t.nodes| == 4 && t.LiveDir(ROOT) && t.LiveDir(3) && t.nodes[2].kind == File && t.nodes[2].nlink == n
    && Holds(t.nodes[ROOT].ents, 3, 0, Least(n, FIRST)) && Holds(t.nodes[3].ents, 2, Least(n, FIRST), n)
  }

  lemma FreshName(e: seq<Ent>, first: nat, lo: nat, hi: nat, i: nat)
    requires lo <= hi <= i <= MAXLINKS && Holds(e, first, lo, hi)
    ensures forall j :: 0 <= j < |e| ==> e[j].name != Name(i)
  {
    forall j | 0 <= j < |e| ensures e[j].name != Name(i) {
      if j >= first && e[j].name == Name(i) { NamesDiffer(lo + j - first, i); }
    }
  }

  /** A directory made in the root. */
  lemma OneDir() returns (t: OkTree)
    ensures |t.nodes| == 4 && t.nodes[2].kind == Free && t.nodes[3] == Node(Dir, 1, [Ent(".", 3), Ent("..", 1)])
    ensures t.nodes[ROOT] == Node(Dir, 2, [Ent(".", 1), Ent("..", 1), Ent("d", 3)])
  {
    InitialOk(2);
    var t0 := Initial(2);
    assert t0.nodes[ROOT].ents == [Ent(".", 1), Ent("..", 1)];
    CreatedOk(t0, ROOT, 2, "d", 3, Dir);
    t := Created(t0, ROOT, 2, "d", 3, Dir);
    assert t.nodes[ROOT].ents == [Ent(".", 1), Ent("..", 1), Ent("d", 3)];
  }

  /** The tree with one name: a directory made in the root, then the file. */
  lemma OneName() returns (t: OkTree)
    ensures Many(t, 1)
  {
    var u := OneDir();
    assert |Name(0)| == 3;
    CreatedOk(u, ROOT, 3, Name(0), 2, File);
    t := Created(u, ROOT, 3, Name(0), 2, File);
  }

  /** Where name number `n` goes. */
  lemma NextName(t: OkTree, n: nat) returns (d: nat, k: nat)
    requires Many(t, n)
    ensures CanLink(t, d, k, Name(n), 2) && d == (if n < FIRST then ROOT else 3) && k == |t.nodes[d].ents|
  {
    d := if n < FIRST then ROOT else 3;
    k := |t.nodes[d].ents|;
    if n < FIRST { FreshName(t.nodes[d].ents, 3, 0, n, n); } else { FreshName(t.nodes[d].ents, 2, FIRST, n, n); }
  }

  lemma OneNameMore(t: OkTree, n: nat) returns (u: OkTree)
    requires Many(t, n) && n < MAXLINKS
    ensures Many(u, n + 1)
  {
    var d, k := NextName(t, n);
    LinkedOk(t, d, k, Name(n), 2);
    u := Linked(t, d, k, Name(n), 2);
    assert u.nodes[d].ents == t.nodes[d].ents + [Ent(Name(n), 2)];
  }

  lemma {:induction false} ManyNames(n: nat) returns (t: OkTree)
    requires 1 <= n <= MAXLINKS
    ensures Many(t, n)
  {
    if n == 1 {
      t := OneName();
    } else {
      var u := ManyNames(n - 1);
      t := OneNameMore(u, n - 1);
    }
  }

  /** There is a sound tree, with directories of legal size, in which one more sys_link succeeds, leaves the count
      at -32768, and makes the sys_unlink of the new name panic. */
  lemma OneLinkTooMany() returns (t: OkTree, d: nat, k: nat, name: string)
    ensures |t.nodes| == 4 && forall x: nat :: t.LiveDir(x) ==> |t.nodes[x].ents| < MAXENTS
    ensures t.nodes[2].nlink == MAXLINKS && CanLink(t, d, k, name, 2) && |name| == 3
    ensures var u := Linked(t, d, k, name, 2); !u.Ok() && u.nodes[2].nlink == -32768 && PanicsAt(u.nodes, d, name)
  {
    t := ManyNames(MAXLINKS);
    d, k, name := LinkAgain(t, MAXLINKS);
    SmallDirs(t, MAXLINKS);
  }

  lemma LinkAgain(t: OkTree, n: nat) returns (d: nat, k: nat, name: string)
    requires Many(t, n) && n == MAXLINKS
    ensures t.nodes[2].nlink == n && CanLink(t, d, k, name, 2) && |name| == 3
    ensures var u := Linked(t, d, k, name, 2); !u.Ok() && u.nodes[2].nlink == -32768 && PanicsAt(u.nodes, d, name)
  {
    name := Name(n);
    d, k := NextName(t, n);
    LinkedOk(t, d, k, name, 2);
    assert PanicsHere(Linked(t, d, k, name, 2).nodes, d, name, k);
    assert t.CountAt(2);
  }

  lemma SmallDirs(t: OkTree, n: nat)
    requires Many(t, n) && n <= MAXLINKS
    ensures forall x: nat :: t.LiveDir(x) ==> |t.nodes[x].ents| < MAXENTS
  {
    forall x: nat | t.LiveDir(x) ensures |t.nodes[x].ents| < MAXENTS { assert x == ROOT || x == 3; }
  }

  /** Unlinking a name that sys_link just made panics exactly if the count was at its limit. */
  lemma LinkThenUnlinkPanics(t: OkTree, d: nat, k: nat, name: string, x: nat)
    requires CanLink(t, d, k, name, x) && name != "." && name != ".." && (forall j :: 0 <= j < k ==> t.nodes[d].ents[j].inum != 0)
    ensures PanicsAt(Linked(t, d, k, name, x).nodes, d, name) <==> t.nodes[x].nlink == MAXLINKS
  {
    var u := Linked(t, d, k, name, x);
    LinkedOk(t, d, k, name, x);
    assert t.CountAt(x);
    if t.nodes[x].nlink == MAXLINKS { assert PanicsHere(u.nodes, d, name, k); }
  }
}
