/** copyin, copyout and copyinstr (kernel/vm.c) against one-byte accesses through the process's
    page table, and growproc (kernel/proc.c). */
module UserCopy {
  import opened Options
  import opened Blocks
  import opened PageMem
  import opened Vm

  // User memory as the processor sees it: a byte, or a fault, at each address.

  type Memory = nat -> Option<Byte>

  datatype Fetched = Fetched(bytes: seq<Byte>, ok: bool)

  /** `len` loads from `va` on, up to the first that faults. */
  ghost function Fetch(f: Memory, va: nat, len: nat): Fetched
    decreases len
  {
    if len == 0 then Fetched([], true)
    else if f(va).None? then Fetched([], false)
    else var g := Fetch(f, va + 1, len - 1); Fetched([f(va).value] + g.bytes, g.ok)
  }

  /** Loads from `va` on up to and with the first NUL, at most `max` of them. */
  ghost function FetchStr(f: Memory, va: nat, max: nat): Fetched
    decreases max
  {
    if max == 0 || f(va).None? then Fetched([], false)
    else if f(va).value == 0 then Fetched([0], true)
    else var g := FetchStr(f, va + 1, max - 1); Fetched([f(va).value] + g.bytes, g.ok)
  }

  lemma {:induction false} FetchMore(f: Memory, va: nat, a: nat, b: nat)
    requires Fetch(f, va, a).ok
    ensures |Fetch(f, va, a).bytes| == a
    ensures Fetch(f, va, a + b) == Fetched(Fetch(f, va, a).bytes + Fetch(f, va + a, b).bytes, Fetch(f, va + a, b).ok)
    decreases a
  {
    if a > 0 { FetchMore(f, va + 1, a - 1, b); }
  }

  /** Byte `i` of `bytes` is at its place in memory. */
  ghost predicate Holds(f: Memory, va: nat, bytes: seq<Byte>, i: nat)
    requires i < |bytes|
  {
    f(va + i) == Some(bytes[i])
  }

  /** Loads that all succeed with the given bytes. */
  lemma {:induction false} FetchIs(f: Memory, va: nat, bytes: seq<Byte>)
    requires forall i :: 0 <= i < |bytes| ==> Holds(f, va, bytes, i)
    ensures Fetch(f, va, |bytes|) == Fetched(bytes, true)
    decreases |bytes|
  {
    if |bytes| > 0 {
      var at, rest := va + 1, bytes[1..];
      forall i | 0 <= i < |rest| ensures Holds(f, at, rest, i) { assert Holds(f, va, bytes, i + 1) && va + (i + 1) == at + i; }
      FetchIs(f, at, rest);
      assert Holds(f, va, bytes, 0);
      assert bytes == [bytes[0]] + rest;
    }
  }

  /** A string that has not ended after `a` bytes goes on. */
  lemma {:induction false} FetchStrMore(f: Memory, va: nat, bytes: seq<Byte>, b: nat)
    requires forall i :: 0 <= i < |bytes| ==> f(va + i) == Some(bytes[i]) && bytes[i] != 0
    ensures var g := FetchStr(f, va + |bytes|, b); FetchStr(f, va, |bytes| + b) == Fetched(bytes + g.bytes, g.ok)
    decreases |bytes|
  {
    if |bytes| > 0 {
      var rest := bytes[1..];
      forall i | 0 <= i < |rest| ensures f(va + 1 + i) == Some(rest[i]) && rest[i] != 0 { assert f(va + (i + 1)) == Some(bytes[i + 1]); }
      FetchStrMore(f, va + 1, rest, b);
      assert f(va + 0) == Some(bytes[0]);
      assert va + 1 + |rest| == va + |bytes|;
      StrHead(f, va, bytes[0], |rest| + b);
      Regroup([bytes[0]], rest, FetchStr(f, va + |bytes|, b).bytes);
      assert bytes == [bytes[0]] + rest;
    } else {
      assert bytes + FetchStr(f, va, b).bytes == FetchStr(f, va, b).bytes;
    }
  }

  lemma StrHead(f: Memory, va: nat, x: Byte, n: nat)
    requires f(va) == Some(x) && x != 0
    ensures var g := FetchStr(f, va + 1, n); FetchStr(f, va, n + 1) == Fetched([x] + g.bytes, g.ok)
  {
  }

  /** The byte at offset `o` of a page, if user mode may touch the page. */
  ghost function Load(w: View, o: nat): Option<Byte>
    requires o < PGSIZE
  {
    if w.Page? && w.flags / 16 % 2 == 1 && |w.bytes| == PGSIZE then Some(w.bytes[o]) else None
  }

  /** The memory of the process with root `r`; addresses wrap at 2^32. */
  ghost function User(m: OkMm, r: nat): Memory
  {
    (va: nat) => Load(See(m, r, va % TWO32 / PGSIZE), va % PGSIZE)
  }

  lemma UserAt(m: OkMm, r: nat, a: nat)
    requires a < TWO32
    ensures User(m, r)(a) == Load(See(m, r, a / PGSIZE), a % PGSIZE)
  {
  }

  /** User mode may touch virtual page `v`. */
  ghost predicate Touchable(m: OkMm, r: nat, v: nat)
  {
    v < VPAGES && See(m, r, v).Page? && See(m, r, v).flags / 16 % 2 == 1
  }

  /** The trampoline and the trapframe are not for user mode. */
  ghost predicate KernelTop(m: OkMm, r: nat)
  {
    forall v: nat :: USER <= v < VPAGES && See(m, r, v).Alias? ==> !See(m, r, v).e.User()
  }

  lemma TopNotUser(m: OkMm, r: nat, v: nat)
    requires KernelTop(m, r) && m.IsRoot(r) && v < VPAGES
    ensures m.Look(r, v).Valid() && m.Look(r, v).User() ==> v < USER
  {
    assert See(m, r, v) == See(m, r, v);
  }

  /** walkaddr of a page: its number, or 0 if user mode may not touch it. */
  method Walkaddr(k: Machine, r: nat, v: nat) returns (p: nat)
    requires k.Valid() && k.mm.IsRoot(r) && KernelTop(k.mm, r) && v < VPAGES
    modifies k
    ensures k.Valid() && k.mm == old(k.mm)
    ensures p != 0 ==> v < USER && k.mm.IsData(p) && k.mm.Look(r, v).Valid() && k.mm.Look(r, v).ppn == p
    ensures p != 0 <==> Touchable(k.mm, r, v)
  {
    p := 0;
    var t := k.Walk(r, v * PGSIZE, false);
    if t.Some? {
      var e := k.frames[t.value].ptes[v % NPTE];
      TopNotUser(k.mm, r, v);
      if e.Valid() && e.User() {
        p := e.ppn;
        LeafOwned(k.mm, r, v);
      }
    }
  }

  /** A page's worth of user memory, or of faults. */
  lemma PageLoads(m: OkMm, r: nat, va: nat, i: nat)
    requires va < TWO32 && va % PGSIZE + i < PGSIZE
    ensures va + i < TWO32 && (va + i) / PGSIZE == va / PGSIZE && (va + i) % PGSIZE == va % PGSIZE + i
    ensures User(m, r)(va + i).Some? <==> Touchable(m, r, va / PGSIZE)
    ensures User(m, r)(va + i).Some? ==> |See(m, r, va / PGSIZE).bytes| == PGSIZE
    ensures User(m, r)(va + i).Some? ==> User(m, r)(va + i).value == See(m, r, va / PGSIZE).bytes[va % PGSIZE + i]
  {
    WithinPage(va, i);
    UserAt(m, r, va + i);
    if See(m, r, va / PGSIZE).Page? { PageFull(m, r, va / PGSIZE); }
  }

  lemma WithinPage(va: nat, i: nat)
    requires va < TWO32 && va % PGSIZE + i < PGSIZE
    ensures va + i < TWO32 && (va + i) / PGSIZE == va / PGSIZE && (va + i) % PGSIZE == va % PGSIZE + i
  {
    InPage(va + i, va / PGSIZE, va % PGSIZE + i);
  }

  lemma PageFull(m: OkMm, r: nat, v: nat)
    requires v < VPAGES && See(m, r, v).Page?
    ensures |See(m, r, v).bytes| == PGSIZE
  {
    LeafOwned(m, r, v);
  }

  // In the copy loops, `w` counts how often the address has wrapped.

  lemma Wraps(m: OkMm, r: nat, va: nat, w: nat, i: nat)
    requires va < TWO32 && va % PGSIZE + i < PGSIZE
    ensures User(m, r)(w * TWO32 + va + i) == User(m, r)(va + i)
  {
    PageLoads(m, r, va, i);
    WrapMod(w, va + i);
    assert w * TWO32 + va + i == w * TWO32 + (va + i);
  }

  lemma WrapMod(w: nat, x: nat)
    requires x < TWO32
    ensures (w * TWO32 + x) % TWO32 == x && (w * TWO32 + x) % PGSIZE == x % PGSIZE
  {
    WholeWraps(w * TWO32 + x, w, x);
    InPage(x, x / PGSIZE, x % PGSIZE);
    InPage(w * TWO32 + x, w * 0x100000 + x / PGSIZE, x % PGSIZE);
  }

  lemma WholeWraps(n: nat, q: nat, r: nat)
    requires n == q * TWO32 + r && r < TWO32
    ensures n % TWO32 == r
  {
    assert n == n / TWO32 * TWO32 + n % TWO32;
  }

  lemma InPage(n: nat, q: nat, r: nat)
    requires n == q * PGSIZE + r && r < PGSIZE
    ensures n % PGSIZE == r && n / PGSIZE == q
  {
    assert n == n / PGSIZE * PGSIZE + n % PGSIZE;
  }

  lemma ChunkByte(m: OkMm, r: nat, va: nat, w: nat, i: nat)
    requires va < TWO32 && va % PGSIZE + i < PGSIZE && Touchable(m, r, va / PGSIZE)
    ensures |See(m, r, va / PGSIZE).bytes| == PGSIZE && User(m, r)(w * TWO32 + va + i) == Some(See(m, r, va / PGSIZE).bytes[va % PGSIZE + i])
  {
    Wraps(m, r, va, w, i);
    PageLoads(m, r, va, i);
  }

  /** The loads of one page, from the page's bytes. */
  lemma ChunkIs(m: OkMm, r: nat, va: nat, w: nat, n: nat, bytes: seq<Byte>)
    requires va < TWO32 && va % PGSIZE + n <= PGSIZE && Touchable(m, r, va / PGSIZE) && See(m, r, va / PGSIZE).bytes == bytes
    ensures |bytes| == PGSIZE
    ensures Fetch(User(m, r), w * TWO32 + va, n) == Fetched(bytes[va % PGSIZE..va % PGSIZE + n], true)
  {
    LeafOwned(m, r, va / PGSIZE);
    var f, at, o := User(m, r), w * TWO32 + va, va % PGSIZE;
    var chunk := bytes[o..o + n];
    forall i | 0 <= i < |chunk| ensures Holds(f, at, chunk, i) {
      ChunkByte(m, r, va, w, i);
      assert chunk[i] == bytes[o + i];
    }
    FetchIs(f, at, chunk);
  }

  lemma ChunkFaults(m: OkMm, r: nat, va: nat, w: nat, n: nat)
    requires va < TWO32 && n > 0 && !Touchable(m, r, va / PGSIZE)
    ensures Fetch(User(m, r), w * TWO32 + va, n) == Fetched([], false)
  {
    Wraps(m, r, va, w, 0);
    PageLoads(m, r, va, 0);
  }

  /** The next piece of a copy: up to the end of the page, or of the request. */
  function Piece(va: nat, left: nat): nat { if PGSIZE - va % PGSIZE > left then left else PGSIZE - va % PGSIZE }

  /** PGROUNDDOWN(va) + PGSIZE, as a 32-bit number. */
  function NextPage(va: nat): nat
    requires va < TWO32
  {
    if va / PGSIZE + 1 == VPAGES then 0 else (va / PGSIZE + 1) * PGSIZE
  }

  ghost function NextWrap(va: nat, w: nat): nat { if va / PGSIZE + 1 == VPAGES then w + 1 else w }

  lemma NextIs(va: nat, w: nat, left: nat)
    requires va < TWO32
    ensures NextPage(va) < TWO32
    ensures Piece(va, left) < left ==> NextWrap(va, w) * TWO32 + NextPage(va) == w * TWO32 + va + Piece(va, left)
  {
  }

  /** One round of copyin's loop. */
  method CopyinOnce(k: Machine, r: nat, va: nat, left: nat, ghost w: nat) returns (bytes: seq<Byte>, ok: bool)
    requires k.Valid() && k.mm.IsRoot(r) && KernelTop(k.mm, r) && va < TWO32 && left > 0
    modifies k
    ensures k.Valid() && k.mm == old(k.mm)
    ensures ok ==> |bytes| == Piece(va, left) && Fetch(User(k.mm, r), w * TWO32 + va, |bytes|) == Fetched(bytes, true)
    ensures !ok ==> bytes == [] && Fetch(User(k.mm, r), w * TWO32 + va, left) == Fetched([], false)
  {
    var p := Walkaddr(k, r, va / PGSIZE);
    ok := p != 0;
    if ok {
      ChunkIs(k.mm, r, va, w, Piece(va, left), k.frames[p].bytes);
      bytes := k.frames[p].bytes[va % PGSIZE..va % PGSIZE + Piece(va, left)];
    } else {
      bytes := [];
      ChunkFaults(k.mm, r, va, w, left);
    }
  }

  /** Where copyin's loop stands: `got` is what it has, `va` where it goes on. */
  ghost predicate Reading(f: Memory, srcva: nat, len: nat, got: Fetched, va: nat, w: nat)
  {
    && va < TWO32 && |got.bytes| <= len
    && if got.ok then Fetch(f, srcva, |got.bytes|) == got && (|got.bytes| < len ==> w * TWO32 + va == srcva + |got.bytes|)
       else Fetch(f, srcva, len) == got
  }

  lemma ReadOn(f: Memory, srcva: nat, len: nat, got: Fetched, va: nat, w: nat, more: Fetched)
    requires Reading(f, srcva, len, got, va, w) && got.ok && |got.bytes| < len
    requires more.ok ==> |more.bytes| == Piece(va, len - |got.bytes|) && Fetch(f, w * TWO32 + va, |more.bytes|) == more
    requires !more.ok ==> more.bytes == [] && Fetch(f, w * TWO32 + va, len - |got.bytes|) == more
    ensures Reading(f, srcva, len, Fetched(got.bytes + more.bytes, more.ok), NextPage(va), NextWrap(va, w))
    ensures more.ok ==> |more.bytes| > 0
  {
    FetchMore(f, srcva, |got.bytes|, if more.ok then |more.bytes| else len - |got.bytes|);
    NextIs(va, w, len - |got.bytes|);
    assert got.bytes + [] == got.bytes;
  }

  /** copyin: exactly the bytes that one load after the other would give, up to the first fault. */
  method Copyin(k: Machine, r: nat, srcva: nat, len: nat) returns (dst: seq<Byte>, ok: bool)
    requires k.Valid() && k.mm.IsRoot(r) && KernelTop(k.mm, r) && srcva < TWO32 && len < TWO32
    modifies k
    ensures k.Valid() && k.mm == old(k.mm) && Fetched(dst, ok) == Fetch(User(old(k.mm), r), srcva, len)
  {
    ghost var f, w: nat := User(k.mm, r), 0;
    var va: nat := srcva;
    dst, ok := [], true;
    while ok && |dst| < len
      invariant k.Valid() && k.mm == old(k.mm) && Reading(f, srcva, len, Fetched(dst, ok), va, w)
      decreases ok, len - |dst|
    {
      var bytes, more := CopyinOnce(k, r, va, len - |dst|, w);
      ReadOn(f, srcva, len, Fetched(dst, true), va, w, Fetched(bytes, more));
      dst, ok := dst + bytes, more;
      w := NextWrap(va, w);
      va := NextPage(va);
    }
  }

  // copyinstr.

  /** copyinstr's inner loop: bytes up to and with the first NUL. */
  method UntilNul(b: seq<Byte>) returns (out: seq<Byte>, nul: bool)
    ensures if nul then exists i :: 0 <= i < |b| && b[i] == 0 && 0 !in b[..i] && out == b[..i] + [0]
      else out == b && 0 !in b
  {
    var i := 0;
    out, nul := [], false;
    while i < |b| && !nul
      invariant i <= |b| && 0 !in b[..i] && if nul then i < |b| && b[i] == 0 && out == b[..i] + [0] else out == b[..i]
      decreases |b| - i, !nul
    {
      if b[i] == 0 {
        out, nul := out + [0], true;
      } else {
        out := out + [b[i]];
        i := i + 1;
      }
    }
  }

  lemma {:induction false} FetchGives(f: Memory, va: nat, n: nat, i: nat)
    requires Fetch(f, va, n).ok && i < n
    ensures |Fetch(f, va, n).bytes| == n && f(va + i) == Some(Fetch(f, va, n).bytes[i])
    decreases n
  {
    FetchMore(f, va, n, 0);
    if i > 0 {
      FetchMore(f, va, 1, n - 1);
      FetchGives(f, va + 1, n - 1, i - 1);
    }
  }

  ghost predicate Scanning(f: Memory, srcva: nat, max: nat, got: seq<Byte>, done: bool, ok: bool, va: nat, w: nat)
  {
    && va < TWO32 && |got| <= max
    && if done then FetchStr(f, srcva, max) == Fetched(got, ok)
       else
         && !ok && (|got| < max ==> w * TWO32 + va == srcva + |got|)
         && var g := FetchStr(f, srcva + |got|, max - |got|); FetchStr(f, srcva, max) == Fetched(got + g.bytes, g.ok)
  }

  /** What one page adds to the string: `piece` holds the bytes of the page, `out` those taken. */
  lemma ScanOn(f: Memory, srcva: nat, max: nat, got: seq<Byte>, va: nat, w: nat, piece: Fetched, out: seq<Byte>, nul: bool)
    requires Scanning(f, srcva, max, got, false, false, va, w) && |got| < max
    requires !piece.ok ==> Fetch(f, w * TWO32 + va, max - |got|) == Fetched([], false) && out == [] && !nul
    requires piece.ok ==> |piece.bytes| == Piece(va, max - |got|) && Fetch(f, w * TWO32 + va, |piece.bytes|) == piece
    requires piece.ok && !nul ==> out == piece.bytes && 0 !in piece.bytes
    requires piece.ok && nul ==> exists i :: 0 <= i < |piece.bytes| && piece.bytes[i] == 0 && 0 !in piece.bytes[..i] && out == piece.bytes[..i] + [0]
    ensures Scanning(f, srcva, max, got + out, nul || !piece.ok, nul, NextPage(va), NextWrap(va, w))
    ensures piece.ok && !nul ==> |out| > 0
  {
    var left := max - |got|;
    NextIs(va, w, left);
    if !piece.ok {
      assert got + [] == got;
    } else if nul {
      var i :| 0 <= i < |piece.bytes| && piece.bytes[i] == 0 && 0 !in piece.bytes[..i] && out == piece.bytes[..i] + [0];
      NulAt(f, srcva + |got|, left, piece, i);
    } else {
      NoNul(f, srcva, max, got, piece);
    }
  }

  lemma NoNul(f: Memory, srcva: nat, max: nat, got: seq<Byte>, piece: Fetched)
    requires piece.ok && |got| + |piece.bytes| <= max && Fetch(f, srcva + |got|, |piece.bytes|) == piece && 0 !in piece.bytes
    requires var g := FetchStr(f, srcva + |got|, max - |got|); FetchStr(f, srcva, max) == Fetched(got + g.bytes, g.ok)
    ensures var n := |got + piece.bytes|; var g := FetchStr(f, srcva + n, max - n);
      FetchStr(f, srcva, max) == Fetched(got + piece.bytes + g.bytes, g.ok)
  {
    var n := |got + piece.bytes|;
    StrRun(f, srcva + |got|, piece, max - n);
    assert srcva + |got| + |piece.bytes| == srcva + n && |piece.bytes| + (max - n) == max - |got|;
    Regroup(got, piece.bytes, FetchStr(f, srcva + n, max - n).bytes);
  }

  lemma Regroup(a: seq<Byte>, b: seq<Byte>, c: seq<Byte>)
    ensures a + (b + c) == a + b + c
  {
  }

  lemma StrRun(f: Memory, at: nat, piece: Fetched, b: nat)
    requires piece.ok && Fetch(f, at, |piece.bytes|) == piece && 0 !in piece.bytes
    ensures var g := FetchStr(f, at + |piece.bytes|, b); FetchStr(f, at, |piece.bytes| + b) == Fetched(piece.bytes + g.bytes, g.ok)
  {
    assert piece.bytes[..|piece.bytes|] == piece.bytes;
    PieceBytes(f, at, piece, |piece.bytes|);
    FetchStrMore(f, at, piece.bytes, b);
  }

  lemma NulAt(f: Memory, at: nat, left: nat, piece: Fetched, i: nat)
    requires i < |piece.bytes| <= left && piece.ok && Fetch(f, at, |piece.bytes|) == piece && piece.bytes[i] == 0 && 0 !in piece.bytes[..i]
    ensures FetchStr(f, at, left) == Fetched(piece.bytes[..i] + [0], true)
  {
    PieceBytes(f, at, piece, i);
    FetchGives(f, at, |piece.bytes|, i);
    FetchStrMore(f, at, piece.bytes[..i], left - i);
    assert FetchStr(f, at + i, left - i) == Fetched([0], true);
  }

  lemma PieceBytes(f: Memory, at: nat, piece: Fetched, n: nat)
    requires n <= |piece.bytes| && piece.ok && Fetch(f, at, |piece.bytes|) == piece && 0 !in piece.bytes[..n]
    ensures forall i :: 0 <= i < n ==> f(at + i) == Some(piece.bytes[..n][i]) && piece.bytes[..n][i] != 0
  {
    forall i | 0 <= i < n ensures f(at + i) == Some(piece.bytes[..n][i]) && piece.bytes[..n][i] != 0 {
      FetchGives(f, at, |piece.bytes|, i);
      assert piece.bytes[..n][i] in piece.bytes[..n];
    }
  }

  /** copyinstr: exactly what one load after the other up to a NUL would give. */
  method Copyinstr(k: Machine, r: nat, srcva: nat, max: nat) returns (dst: seq<Byte>, ok: bool)
    requires k.Valid() && k.mm.IsRoot(r) && KernelTop(k.mm, r) && srcva < TWO32 && max < TWO32
    modifies k
    ensures k.Valid() && k.mm == old(k.mm) && Fetched(dst, ok) == FetchStr(User(old(k.mm), r), srcva, max)
  {
    ghost var f, w: nat := User(k.mm, r), 0;
    var va: nat, done := srcva, false;
    dst, ok := [], false;
    while !done && |dst| < max
      invariant k.Valid() && k.mm == old(k.mm) && Scanning(f, srcva, max, dst, done, ok, va, w)
      decreases !done, max - |dst|
    {
      var bytes, more := CopyinOnce(k, r, va, max - |dst|, w);
      var out, nul := UntilNul(bytes);
      ScanOn(f, srcva, max, dst, va, w, Fetched(bytes, more), out, nul);
      dst, ok, done := dst + out, nul, nul || !more;
      w := NextWrap(va, w);
      va := NextPage(va);
    }
    assert dst + [] == dst;
  }

  // copyout.

  /** Distance of address `a` above `base`, around 2^32. */
  function Above(a: nat, base: nat): int { if a >= base then a - base else a + TWO32 - base }

  /** From `f0` to `f` the first `done` bytes of `src` were stored at `dstva` on. */
  ghost predicate Stored(f0: Memory, f: Memory, dstva: nat, src: seq<Byte>, done: nat)
  {
    && done <= |src|
    && forall a: nat :: a < TWO32 ==> f(a) == if 0 <= Above(a, dstva) < done then Some(src[Above(a, dstva)]) else f0(a)
  }

  /** Nothing but bytes changed, and only in root `r`. */
  ghost predicate OnlyBytes(m: OkMm, n: OkMm, r: nat)
  {
    forall q: nat, v: nat :: v < VPAGES ==>
      See(n, q, v) == See(m, q, v) || (q == r && See(m, q, v).Page? && See(n, q, v).Page? && See(n, q, v).flags == See(m, q, v).flags)
  }

  function Patch(b: seq<Byte>, o: nat, piece: seq<Byte>): seq<Byte>
    requires o + |piece| <= |b|
  {
    b[..o] + piece + b[o + |piece|..]
  }

  /** From `m` to `n` the page of `va` took the bytes of `piece` at `va` on. */
  ghost predicate PagePatched(m: OkMm, n: OkMm, r: nat, va: nat, piece: seq<Byte>)
    requires va < TWO32 && va % PGSIZE + |piece| <= PGSIZE
  {
    var p := See(m, r, va / PGSIZE);
    p.Page? && |p.bytes| == PGSIZE && SameBut(m, n, r, va / PGSIZE, Page(p.flags, Patch(p.bytes, va % PGSIZE, piece)))
  }

  /** From `f` to `g` the bytes of `piece` were stored at `va` on. */
  ghost predicate Patched(f: Memory, g: Memory, va: nat, piece: seq<Byte>)
  {
    forall a: nat :: a < TWO32 ==> PatchedAt(f, g, va, piece, a)
  }

  ghost predicate PatchedAt(f: Memory, g: Memory, va: nat, piece: seq<Byte>, a: nat)
  {
    g(a) == if va <= a < va + |piece| then Some(piece[a - va]) else f(a)
  }

  /** One round of copyout's loop. */
  method CopyoutOnce(k: Machine, r: nat, va: nat, piece: seq<Byte>) returns (ok: bool)
    requires k.Valid() && k.mm.IsRoot(r) && KernelTop(k.mm, r) && va < TWO32 && va % PGSIZE + |piece| <= PGSIZE
    modifies k
    ensures k.Valid() && k.mm.IsRoot(r) && KernelTop(k.mm, r) && OnlyBytes(old(k.mm), k.mm, r) && k.mm.owner == old(k.mm).owner
    ensures ok <==> Touchable(old(k.mm), r, va / PGSIZE)
    ensures !ok ==> k.mm == old(k.mm)
    ensures ok ==> Patched(User(old(k.mm), r), User(k.mm, r), va, piece)
  {
    ghost var v := va / PGSIZE;
    var p := Walkaddr(k, r, va / PGSIZE);
    ok := p != 0;
    if ok {
      ghost var m := k.mm;
      LeafOwned(m, r, v);
      var bytes := Patch(k.frames[p].bytes, va % PGSIZE, piece);
      PokeOk(m, p, bytes);
      forall q: nat, u: nat | u < VPAGES
        ensures See(Poke(m, p, bytes), q, u) == if q == r && u == v then Page(See(m, r, v).flags, bytes) else See(m, q, u)
      {
        PokeSee(m, p, bytes, q, u);
        if m.IsRoot(q) && u < USER && m.Look(q, u).Valid() && m.Look(q, u).ppn == p { OneLeaf(m, r, v, q, u); }
      }
      PatchStores(m, Poke(m, p, bytes), r, va, piece);
      k.frames := k.frames[p := Data(bytes)];
      k.mm := Poke(m, p, bytes);
    }
  }

  /** A patched page is a run of stores. */
  lemma PatchStores(m: OkMm, n: OkMm, r: nat, va: nat, piece: seq<Byte>)
    requires va < TWO32 && va % PGSIZE + |piece| <= PGSIZE && Touchable(m, r, va / PGSIZE)
    requires PagePatched(m, n, r, va, piece)
    ensures Patched(User(m, r), User(n, r), va, piece)
  {
    forall a: nat | a < TWO32 ensures PatchedAt(User(m, r), User(n, r), va, piece, a) { PatchLoaded(m, n, r, va, piece, a); }
  }

  lemma PatchLoaded(m: OkMm, n: OkMm, r: nat, va: nat, piece: seq<Byte>, a: nat)
    requires va < TWO32 && va % PGSIZE + |piece| <= PGSIZE && Touchable(m, r, va / PGSIZE) && a < TWO32
    requires PagePatched(m, n, r, va, piece)
    ensures PatchedAt(User(m, r), User(n, r), va, piece, a)
  {
    UserAt(m, r, a);
    UserAt(n, r, a);
    PatchByte(m, n, r, va, piece, a);
  }

  lemma PatchByte(m: OkMm, n: OkMm, r: nat, va: nat, piece: seq<Byte>, a: nat)
    requires va < TWO32 && va % PGSIZE + |piece| <= PGSIZE && Touchable(m, r, va / PGSIZE) && a < TWO32
    requires PagePatched(m, n, r, va, piece)
    ensures Load(See(n, r, a / PGSIZE), a % PGSIZE) == if va <= a < va + |piece| then Some(piece[a - va]) else Load(See(m, r, a / PGSIZE), a % PGSIZE)
  {
    var p := See(m, r, va / PGSIZE);
    SamePage(va, |piece|, a);
    if a / PGSIZE == va / PGSIZE {
      assert See(n, r, a / PGSIZE) == Page(p.flags, Patch(p.bytes, va % PGSIZE, piece));
      PatchLoad(p, va % PGSIZE, piece, a % PGSIZE);
    } else {
      assert See(n, r, a / PGSIZE) == See(m, r, a / PGSIZE);
    }
  }

  lemma PatchLoad(p: View, o: nat, piece: seq<Byte>, x: nat)
    requires p.Page? && |p.bytes| == PGSIZE && o + |piece| <= PGSIZE && p.flags / 16 % 2 == 1 && x < PGSIZE
    ensures Load(Page(p.flags, Patch(p.bytes, o, piece)), x) == if o <= x < o + |piece| then Some(piece[x - o]) else Load(p, x)
  {
    PatchAt(p.bytes, o, piece, x);
  }

  lemma PatchAt(b: seq<Byte>, o: nat, piece: seq<Byte>, x: nat)
    requires o + |piece| <= |b| && x < |b|
    ensures |Patch(b, o, piece)| == |b| && Patch(b, o, piece)[x] == if o <= x < o + |piece| then piece[x - o] else b[x]
  {
  }

  lemma SamePage(va: nat, n: nat, a: nat)
    requires va % PGSIZE + n <= PGSIZE
    ensures va <= a < va + n <==> a / PGSIZE == va / PGSIZE && va % PGSIZE <= a % PGSIZE < va % PGSIZE + n
    ensures a / PGSIZE == va / PGSIZE ==> a - va == a % PGSIZE - va % PGSIZE
  {
  }

  lemma StoredMore(f0: Memory, f: Memory, g: Memory, dstva: nat, src: seq<Byte>, done: nat, va: nat, w: nat, n: nat)
    requires Stored(f0, f, dstva, src, done) && done + n <= |src| < TWO32 && dstva < TWO32 && va + n <= TWO32 && w * TWO32 + va == dstva + done
    requires Patched(f, g, va, src[done..done + n])
    ensures Stored(f0, g, dstva, src, done + n)
  {
    forall a: nat | a < TWO32 ensures g(a) == if 0 <= Above(a, dstva) < done + n then Some(src[Above(a, dstva)]) else f0(a) {
      assert w == 0 || w == 1;
      assert PatchedAt(f, g, va, src[done..done + n], a);
      assert va <= a < va + n <==> done <= Above(a, dstva) < done + n;
      assert va <= a < va + n ==> Above(a, dstva) == done + (a - va);
    }
  }

  /** Where copyout's loop stands, memory having gone from `f0` to `f`. */
  ghost predicate Storing(f0: Memory, f: Memory, dstva: nat, src: seq<Byte>, done: nat, ok: bool, va: nat, w: nat)
  {
    && va < TWO32 && Stored(f0, f, dstva, src, done)
    && if ok then Fetch(f0, dstva, done).ok && (done < |src| ==> w * TWO32 + va == dstva + done)
       else !Fetch(f0, dstva, |src|).ok && |Fetch(f0, dstva, |src|).bytes| == done
  }

  lemma StoreOn(f0: Memory, f: Memory, g: Memory, dstva: nat, src: seq<Byte>, done: nat, va: nat, w: nat, touched: bool, k: nat)
    requires Storing(f0, f, dstva, src, done, true, va, w) && done < |src| < TWO32 && dstva < TWO32 && k == Piece(va, |src| - done)
    requires touched ==> Patched(f, g, va, src[done..done + k]) && Fetch(f0, w * TWO32 + va, k).ok
    requires !touched ==> g == f && Fetch(f0, w * TWO32 + va, |src| - done) == Fetched([], false)
    ensures Storing(f0, g, dstva, src, if touched then done + k else done, touched, NextPage(va), NextWrap(va, w))
  {
    NextIs(va, w, |src| - done);
    if touched {
      StoredMore(f0, f, g, dstva, src, done, va, w, k);
      FetchMore(f0, dstva, done, k);
    } else {
      FetchMore(f0, dstva, done, |src| - done);
    }
  }

  lemma PieceLoads(m0: OkMm, r: nat, va: nat, w: nat, left: nat)
    requires va < TWO32 && left > 0
    ensures if Touchable(m0, r, va / PGSIZE) then Fetch(User(m0, r), w * TWO32 + va, Piece(va, left)).ok
      else Fetch(User(m0, r), w * TWO32 + va, left) == Fetched([], false)
  {
    if Touchable(m0, r, va / PGSIZE) {
      ChunkIs(m0, r, va, w, Piece(va, left), See(m0, r, va / PGSIZE).bytes);
    } else {
      ChunkFaults(m0, r, va, w, left);
    }
  }

  lemma StillTouchable(m: OkMm, n: OkMm, r: nat, v: nat)
    requires OnlyBytes(m, n, r) && v < VPAGES
    ensures Touchable(n, r, v) <==> Touchable(m, r, v)
  {
  }

  lemma OnlyBytesMore(m: OkMm, n: OkMm, o: OkMm, r: nat)
    requires OnlyBytes(m, n, r) && OnlyBytes(n, o, r)
    ensures OnlyBytes(m, o, r)
  {
  }

  /** The state of copyout's loop, from memory `m0` on. */
  ghost predicate Copying(m0: OkMm, m: OkMm, r: nat, dstva: nat, src: seq<Byte>, done: nat, ok: bool, va: nat, w: nat)
  {
    && m.IsRoot(r) && KernelTop(m, r) && OnlyBytes(m0, m, r) && m.owner == m0.owner
    && Storing(User(m0, r), User(m, r), dstva, src, done, ok, va, w)
  }

  lemma RoundStores(m0: OkMm, r: nat, f: Memory, g: Memory, dstva: nat, src: seq<Byte>, i: nat, va: nat, w: nat, k: nat)
    requires Storing(User(m0, r), f, dstva, src, i, true, va, w) && dstva < TWO32 && i < |src| < TWO32 && k == Piece(va, |src| - i)
    requires Touchable(m0, r, va / PGSIZE) && Patched(f, g, va, src[i..i + k])
    ensures Storing(User(m0, r), g, dstva, src, i + k, true, NextPage(va), NextWrap(va, w))
  {
    PieceLoads(m0, r, va, w, |src| - i);
    StoreOn(User(m0, r), f, g, dstva, src, i, va, w, true, k);
  }

  lemma RoundFaults(m0: OkMm, r: nat, f: Memory, dstva: nat, src: seq<Byte>, i: nat, va: nat, w: nat)
    requires Storing(User(m0, r), f, dstva, src, i, true, va, w) && dstva < TWO32 && i < |src| < TWO32
    requires !Touchable(m0, r, va / PGSIZE)
    ensures Storing(User(m0, r), f, dstva, src, i, false, NextPage(va), NextWrap(va, w))
  {
    PieceLoads(m0, r, va, w, |src| - i);
    StoreOn(User(m0, r), f, f, dstva, src, i, va, w, false, Piece(va, |src| - i));
  }

  /** One round, with its bookkeeping. */
  method CopyoutRound(k: Machine, r: nat, dstva: nat, src: seq<Byte>, i: nat, va: nat, ghost w: nat, ghost m0: OkMm) returns (ok: bool, done: nat)
    requires k.Valid() && Copying(m0, k.mm, r, dstva, src, i, true, va, w) && dstva < TWO32 && i < |src| < TWO32
    modifies k
    ensures k.Valid() && Copying(m0, k.mm, r, dstva, src, done, ok, NextPage(va), NextWrap(va, w)) && (if ok then done > i else done == i)
  {
    ghost var m := k.mm;
    var n := Piece(va, |src| - i);
    ok := CopyoutOnce(k, r, va, src[i..i + n]);
    OnlyBytesMore(m0, m, k.mm, r);
    StillTouchable(m0, m, r, va / PGSIZE);
    if ok {
      RoundStores(m0, r, User(m, r), User(k.mm, r), dstva, src, i, va, w, n);
    } else {
      RoundFaults(m0, r, User(m, r), dstva, src, i, va, w);
    }
    done := if ok then i + n else i;
  }

  /** copyout: exactly the stores that one byte after the other would make, up to the first fault; no
      other process sees a change. */
  method Copyout(k: Machine, r: nat, dstva: nat, src: seq<Byte>) returns (ok: bool, ghost done: nat)
    requires k.Valid() && k.mm.IsRoot(r) && KernelTop(k.mm, r) && dstva < TWO32 && |src| < TWO32
    modifies k
    ensures k.Valid() && OnlyBytes(old(k.mm), k.mm, r) && k.mm.owner == old(k.mm).owner
    ensures ok == Fetch(User(old(k.mm), r), dstva, |src|).ok && done == |Fetch(User(old(k.mm), r), dstva, |src|).bytes|
    ensures Stored(User(old(k.mm), r), User(k.mm, r), dstva, src, done)
  {
    ghost var f0, w: nat := User(k.mm, r), 0;
    var va: nat, i: nat := dstva, 0;
    ok := true;
    while ok && i < |src|
      invariant k.Valid() && Copying(old(k.mm), k.mm, r, dstva, src, i, ok, va, w)
      decreases ok, |src| - i
    {
      ok, i := CopyoutRound(k, r, dstva, src, i, va, w, old(k.mm));
      w := NextWrap(va, w);
      va := NextPage(va);
    }
    done := i;
    FetchMore(f0, dstva, if ok then i else 0, 0);
  }

  // growproc.

  /** sz + n in 32 bits. */
  lemma Resized(sz: nat, n: int)
    requires sz < 0x80000000 && -0x80000000 <= n < 0x80000000
    ensures (sz + n) % TWO32 == if 0 <= sz + n then sz + n else sz + n + TWO32
    ensures sz + n < 0 ==> sz < sz + n + TWO32
  {
  }

  /** A process: its root table and its size. Exactly the pages below the size are present. */
  class Proc {
    var pagetable: nat
    var sz: nat

    constructor (r: nat)
      ensures pagetable == r && sz == 0
    {
      pagetable, sz := r, 0;
    }

    ghost predicate Valid(k: Machine)
      reads this, k
    {
      k.Valid() && sz < TWO32 && Sized(k.mm, pagetable, Pages(sz))
    }

    /** growproc, for any 32-bit `n`: the process keeps exactly the pages below its size; what the
        others see does not change, and on failure what it sees does not either. */
    method Growproc(k: Machine, n: int) returns (r: int)
      requires Valid(k) && -0x80000000 <= n < 0x80000000
      modifies this, k
      ensures Valid(k) && pagetable == old(pagetable) && (r == 0 || r == -1)
      ensures r == -1 ==> n > 0 && sz == old(sz) && Same(old(k.mm), k.mm)
      ensures r == -1 ==> |old(k.free)| < 2 * (Pages(old(sz) + n) - Pages(old(sz)))
      ensures r == 0 && n > 0 ==> sz == old(sz) + n && Grown(old(k.mm), k.mm, pagetable, Pages(old(sz)), Pages(sz))
      ensures n == 0 ==> sz == old(sz) && k.mm == old(k.mm)
      ensures n < 0 ==> sz == if -n <= old(sz) then old(sz) + n else old(sz)
      ensures n < 0 ==> Cut(old(k.mm), k.mm, pagetable, Pages(sz), Pages(old(sz))) && Freed(old(k.mm), k.mm, pagetable, Pages(sz), Pages(old(sz)))
    {
      Vm.Fits(k.mm, pagetable, Pages(sz));
      Resized(sz, n);
      if n > 0 {
        var s := k.Uvmalloc(pagetable, sz, (sz + n) % TWO32);
        if s == 0 { return -1; }
        sz := s;
      } else if n < 0 {
        sz := k.Uvmdealloc(pagetable, sz, (sz + n) % TWO32);
      }
      return 0;
    }
  }
}
