/** sleep and wakeup (kernel/proc.c) for any condition: a value that only holders of the lock lk look at and change,
    any number of channels, each with the condition its sleepers wait for, and any number of processes whose steps
    interleave in any order. Taking a spinlock is one step, which waits until the lock is free. */
module SleepWakeup {
  import opened Options

  datatype Pc =
    | Out                                   // outside
    | Want                                  // acquire(lk)
    | In                                    // holds lk, and may look, change the value, sleep, wake or leave
    | LockSelf(c: nat) | DropLk(c: nat) | GoSleep(c: nat) | Asleep(c: nat)  // sleep(c, lk)
    | Woken(c: nat)                         // scheduled again: release(&p->lock), then acquire(lk)
    | Scan(c: nat, k: nat) | Poke(c: nat, k: nat)  // wakeup(c) at process k, before and after acquire(&p->lock)

  /** `asleep[i]` is "state SLEEPING"; `owed` are the channels whose condition the lock holder made true and has not
      yet called wakeup for. */
  datatype Sys<V> = Sys(pc: seq<Pc>, asleep: seq<bool>, plock: seq<Option<nat>>, lk: Option<nat>, v: V, owed: nat -> bool) {

    ghost predicate Shape() { |asleep| == |plock| == |pc| && (lk.Some? ==> lk.value < |pc|) }

    /** lk is held exactly by the process between its acquire and release. */
    ghost predicate LkAt(i: nat)
      requires Shape() && i < |pc|
    {
      lk == Some(i) <==> pc[i].In? || pc[i].LockSelf? || pc[i].DropLk? || pc[i].Scan? || pc[i].Poke?
    }

    /** p->lock is held by the process itself around sleep, or by a waker looking at it. */
    ghost predicate PlockAt(i: nat)
      requires Shape() && i < |pc|
    {
      && (plock[i] == Some(i) <==> pc[i].DropLk? || pc[i].GoSleep? || pc[i].Woken?)
      && (plock[i].Some? && plock[i].value != i ==>
            plock[i].value < |pc| && pc[plock[i].value].Poke? && pc[plock[i].value].k == i)
    }

    ghost predicate PokeAt(i: nat)
      requires Shape() && i < |pc|
    {
      && (pc[i].Poke? ==> pc[i].k < |pc| && pc[i].k != i && plock[pc[i].k] == Some(i))
      && (pc[i].Scan? ==> pc[i].k <= |pc|) && (asleep[i] ==> pc[i].Asleep?)
    }

    /** Asleep, or past the release of lk on the way there. */
    ghost predicate Committed(i: nat)
      requires Shape() && i < |pc|
    {
      pc[i].GoSleep? || (asleep[i] && pc[i].Asleep?)
    }

    /** A wakeup on process i's channel is owed, and one under way has not passed it. */
    ghost predicate WakeupComing(i: nat)
      requires Shape() && i < |pc| && Committed(i)
    {
      lk.Some? && owed(pc[i].c) && (var h := pc[lk.value]; (h.Scan? || h.Poke?) && h.c == pc[i].c ==> h.k <= i)
    }

    /** Nobody sleeps, or is about to, whose condition holds, unless its wakeup is coming. */
    ghost predicate SleepAt(ready: (nat, V) -> bool, i: nat)
      requires Shape() && i < |pc|
    {
      && (pc[i].LockSelf? || pc[i].DropLk? ==> !ready(pc[i].c, v) && forall c: nat :: !owed(c))
      && (Committed(i) && ready(pc[i].c, v) ==> WakeupComing(i))
    }

    ghost predicate Ok(ready: (nat, V) -> bool)
    {
      && Shape() && (lk.None? ==> forall c: nat :: !owed(c))
      && (forall i: nat :: i < |pc| ==> LkAt(i) && PlockAt(i) && PokeAt(i))
      && (forall i: nat :: i < |pc| ==> SleepAt(ready, i))
    }
  }

  /** A step inside sleep or wakeup, or a choice of the lock holder. */
  datatype Action<V> = Step(i: nat) | Enter(i: nat) | Change(i: nat, nv: V) | Sleep(i: nat, c: nat) | Wake(i: nat, c: nat) | Leave(i: nat) | Kill(i: nat)

  function Becoming<V>(ready: (nat, V) -> bool, owed: nat -> bool, v: V, nv: V): nat -> bool
  {
    (c: nat) => owed(c) || (!ready(c, v) && ready(c, nv))
  }

  function Without(owed: nat -> bool, d: nat): nat -> bool { (c: nat) => owed(c) && c != d }

  /** The step that process i takes inside sleep or wakeup, if it can. */
  ghost function StepOf<V>(s: Sys<V>, i: nat): Option<Sys<V>>
    requires s.Shape() && i < |s.pc|
  {
    match s.pc[i]
    case Want => if s.lk.None? then Some(s.(pc := s.pc[i := In], lk := Some(i))) else None
    case LockSelf(c) => if s.plock[i].None? then Some(s.(pc := s.pc[i := DropLk(c)], plock := s.plock[i := Some(i)])) else None
    case DropLk(c) => Some(s.(pc := s.pc[i := GoSleep(c)], lk := None))
    case GoSleep(c) => Some(s.(pc := s.pc[i := Asleep(c)], asleep := s.asleep[i := true], plock := s.plock[i := None]))
    case Asleep(c) =>
      if !s.asleep[i] && s.plock[i].None? then Some(s.(pc := s.pc[i := Woken(c)], plock := s.plock[i := Some(i)])) else None
    case Woken(c) => Some(s.(pc := s.pc[i := Want], plock := s.plock[i := None]))
    case Scan(c, k) =>
      if k >= |s.pc| then Some(s.(pc := s.pc[i := In], owed := Without(s.owed, c)))
      else if k == i then Some(s.(pc := s.pc[i := Scan(c, k + 1)]))
      else if s.plock[k].None? then Some(s.(pc := s.pc[i := Poke(c, k)], plock := s.plock[k := Some(i)]))
      else None
    case Poke(c, k) =>
      if k < |s.pc| then
        Some(s.(pc := s.pc[i := Scan(c, k + 1)], plock := s.plock[k := None],
                asleep := if s.pc[k] == Asleep(c) then s.asleep[k := false] else s.asleep))
      else None
    case _ => None
  }

  /** What the code around sleep and wakeup keeps to: it changes the value only with lk held, sleeps on a channel
      only after finding its condition false, and before it sleeps or leaves it has called wakeup for every condition
      it made true. */
  ghost function Next<V>(ready: (nat, V) -> bool, s: Sys<V>, a: Action<V>): Option<Sys<V>>
    requires s.Shape()
  {
    if a.i >= |s.pc| then None
    else
      match a
      case Step(i) => StepOf(s, i)
      case Enter(i) => if s.pc[i].Out? then Some(s.(pc := s.pc[i := Want])) else None
      case Change(i, nv) => if s.pc[i].In? then Some(s.(v := nv, owed := Becoming(ready, s.owed, s.v, nv))) else None
      case Sleep(i, c) =>
        if s.pc[i].In? && !ready(c, s.v) && (forall d: nat :: !s.owed(d)) then Some(s.(pc := s.pc[i := LockSelf(c)])) else None
      case Wake(i, c) => if s.pc[i].In? then Some(s.(pc := s.pc[i := Scan(c, 0)])) else None
      case Leave(i) => if s.pc[i].In? && forall d: nat :: !s.owed(d) then Some(s.(pc := s.pc[i := Out], lk := None)) else None
      case Kill(i) => if s.plock[i].None? then Some(s.(asleep := s.asleep[i := false])) else None
  }

  lemma NextLk<V>(ready: (nat, V) -> bool, s: Sys<V>, a: Action<V>, j: nat)
    requires s.Ok(ready) && Next(ready, s, a).Some? && j < |s.pc|
    ensures Next(ready, s, a).value.Shape() && Next(ready, s, a).value.LkAt(j)
  {
    assert s.LkAt(a.i) && s.LkAt(j);
  }

  lemma StepPlock<V>(ready: (nat, V) -> bool, s: Sys<V>, i: nat, j: nat)
    requires s.Ok(ready) && i < |s.pc| && j < |s.pc| && StepOf(s, i).Some? && StepOf(s, i).value.Shape()
    ensures |StepOf(s, i).value.pc| == |s.pc| && StepOf(s, i).value.PlockAt(j)
  {
    assert s.PlockAt(j) && s.PokeAt(j) && s.PlockAt(i) && s.PokeAt(i);
  }

  lemma NextPlock<V>(ready: (nat, V) -> bool, s: Sys<V>, a: Action<V>, j: nat)
    requires s.Ok(ready) && Next(ready, s, a).Some? && j < |s.pc| && Next(ready, s, a).value.Shape()
    ensures Next(ready, s, a).value.PlockAt(j)
  {
    if a.Step? { StepPlock(ready, s, a.i, j); } else { assert s.PlockAt(j) && s.PlockAt(a.i); }
  }

  lemma StepPoke<V>(ready: (nat, V) -> bool, s: Sys<V>, i: nat, j: nat)
    requires s.Ok(ready) && i < |s.pc| && j < |s.pc| && StepOf(s, i).Some? && StepOf(s, i).value.Shape()
    ensures |StepOf(s, i).value.pc| == |s.pc| && StepOf(s, i).value.PokeAt(j)
  {
    assert s.PokeAt(j) && s.PlockAt(i) && s.PokeAt(i);
    if s.pc[j].Poke? { assert s.PlockAt(s.pc[j].k); }
    if s.pc[i].Poke? { assert s.PlockAt(s.pc[i].k) && s.PokeAt(s.pc[i].k); }
  }

  lemma NextPoke<V>(ready: (nat, V) -> bool, s: Sys<V>, a: Action<V>, j: nat)
    requires s.Ok(ready) && Next(ready, s, a).Some? && j < |s.pc| && Next(ready, s, a).value.Shape()
    ensures Next(ready, s, a).value.PokeAt(j)
  {
    if a.Step? { StepPoke(ready, s, a.i, j); } else { assert s.PokeAt(j) && s.PokeAt(a.i); }
  }

  lemma NextSleeps<V>(ready: (nat, V) -> bool, s: Sys<V>, a: Action<V>, j: nat)
    requires s.Ok(ready) && Next(ready, s, a).Some? && j < |s.pc| && Next(ready, s, a).value.Shape()
    ensures Next(ready, s, a).value.SleepAt(ready, j)
  {
    var i := a.i;
    assert s.LkAt(i) && s.PlockAt(i) && s.PokeAt(i) && s.LkAt(j) && s.PlockAt(j) && s.PokeAt(j) && s.SleepAt(ready, i) && s.SleepAt(ready, j);
    if s.lk.Some? { assert s.LkAt(s.lk.value); }
  }

  /** Every step keeps the invariant. */
  lemma NextOk<V>(ready: (nat, V) -> bool, s: Sys<V>, a: Action<V>)
    requires s.Ok(ready) && Next(ready, s, a).Some?
    ensures Next(ready, s, a).value.Ok(ready)
  {
    var t := Next(ready, s, a).value;
    assert s.LkAt(a.i) && s.SleepAt(ready, a.i);
    assert |t.pc| == |s.pc|;
    NextLk(ready, s, a, a.i);
    forall j: nat | j < |t.pc| ensures t.LkAt(j) && t.PlockAt(j) && t.PokeAt(j) {
      NextLk(ready, s, a, j);
      NextPlock(ready, s, a, j);
      NextPoke(ready, s, a, j);
    }
    forall j: nat | j < |t.pc| ensures t.SleepAt(ready, j) { NextSleeps(ready, s, a, j); }
  }

  function Init<V>(n: nat, v: V): Sys<V> { Sys(seq(n, _ => Out), seq(n, _ => false), seq(n, _ => None), None, v, (c: nat) => false) }

  lemma InitOk<V>(ready: (nat, V) -> bool, n: nat, v: V)
    ensures Init(n, v).Ok(ready)
  {
    var s := Init(n, v);
    forall i: nat | i < |s.pc| ensures s.LkAt(i) && s.PlockAt(i) && s.PokeAt(i) && s.SleepAt(ready, i) { }
  }

  /** The state after a run; an action that cannot be taken changes nothing. */
  ghost function After<V>(ready: (nat, V) -> bool, n: nat, v: V, run: seq<Action<V>>): (s: Sys<V>)
    ensures s.Ok(ready)
  {
    InitOk(ready, n, v);
    if run == [] then Init(n, v)
    else
      var s := After(ready, n, v, run[..|run| - 1]);
      var t := Next(ready, s, run[|run| - 1]);
      if t.Some? then NextOk(ready, s, run[|run| - 1]); t.value else s
  }

  /** No lost wakeup: in every run, while nobody holds lk, the condition of every process that sleeps, or has
      released lk to sleep, is false. */
  lemma NoLostWakeup<V>(ready: (nat, V) -> bool, n: nat, v: V, run: seq<Action<V>>, i: nat)
    requires var s := After(ready, n, v, run); i < |s.pc| && s.lk.None? && s.Committed(i)
    ensures var s := After(ready, n, v, run); !ready(s.pc[i].c, s.v)
  {
    var s := After(ready, n, v, run);
    assert s.SleepAt(ready, i);
  }

  /** Once its condition was made true by a holder of lk, a process that had tested it before is found by the
      wakeup: while the holder scans, it is asleep or about to be, ahead of the scan, or no longer asleep. */
  lemma WakeupReachesAll<V>(ready: (nat, V) -> bool, n: nat, v: V, run: seq<Action<V>>, i: nat, h: nat)
    requires var s := After(ready, n, v, run);
      && i < |s.pc| && h < |s.pc| && s.lk == Some(h) && (s.pc[h].Scan? || s.pc[h].Poke?)
      && s.Committed(i) && s.pc[i].c == s.pc[h].c && ready(s.pc[i].c, s.v)
    ensures After(ready, n, v, run).pc[h].k <= i
  {
    var s := After(ready, n, v, run);
    assert s.SleepAt(ready, i);
  }
}
