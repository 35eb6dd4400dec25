/** acquiresleep, releasesleep and holdingsleep (kernel/sleeplock.c): the use of sleep and wakeup whose condition is
    "the sleep-lock is free", for any number of processes whose steps interleave in any order. */
module SleepLock {
  import opened Options
  import SW = SleepWakeup

  /** Where a process is in its use of the lock; `m` below says where it is in sleep and wakeup. */
  datatype Role =
    | Idle
    | Acquiring           // acquiresleep, up to the store to locked
    | Got                 // locked and pid stored; release(&lk->lk)
    | Holding             // acquiresleep returned
    | Releasing           // releasesleep, up to the store to locked
    | Cleared | Waking    // before and in wakeup(lk)
    | Done                // release(&lk->lk)

  const CHAN := 0         // the channel: the sleep-lock's address

  /** The condition of the sleepers; the value is locked together with pid. */
  function Free(): (nat, Option<nat>) -> bool { (c: nat, v: Option<nat>) => c == CHAN && v.None? }

  predicate Owns(r: Role) { r.Got? || r.Holding? || r.Releasing? }

  datatype Sys = Sys(m: SW.Sys<Option<nat>>, role: seq<Role>) {

    ghost predicate RoleAt(i: nat)
      requires |m.pc| == |role| && i < |role|
    {
      && (role[i].Idle? || role[i].Holding? ==> m.pc[i].Out?)
      && (role[i].Got? || role[i].Cleared? || role[i].Done? ==> m.pc[i].In?)
      && (role[i].Waking? ==> (m.pc[i].Scan? || m.pc[i].Poke?) && m.pc[i].c == CHAN)
      && (role[i].Releasing? ==> m.pc[i].Want? || m.pc[i].In?)
      && (role[i].Acquiring? ==> !m.pc[i].Out? && !m.pc[i].Scan? && !m.pc[i].Poke? && (m.pc[i].Want? || m.pc[i].In? || m.pc[i].c == CHAN))
      && (Owns(role[i]) <==> m.v == Some(i))
    }

    /** A wakeup is owed only by the releaser, on the lock's channel. */
    ghost predicate Owing()
      requires |m.pc| == |role|
    {
      forall c: nat :: m.owed(c) ==>
        c == CHAN && m.lk.Some? && m.lk.value < |role| && (role[m.lk.value].Cleared? || role[m.lk.value].Waking?)
    }

    ghost predicate Ok()
    {
      m.Ok(Free()) && |m.pc| == |role| && (m.v.Some? ==> m.v.value < |role|) && Owing() && forall i: nat :: i < |role| ==> RoleAt(i)
    }
  }

  type OkSys = s: Sys | s.Ok() ghost witness (SW.InitOk(Free(), 0, None); Sys(SW.Init(0, None), []))

  ghost function Take(s: Sys, a: SW.Action<Option<nat>>, r: Role): Option<Sys>
    requires s.m.Shape() && a.i < |s.role|
  {
    var t := SW.Next(Free(), s.m, a);
    if t.Some? then Some(Sys(t.value, s.role[a.i := r])) else None
  }

  /** The next step of process i in its endless use of the lock, if it can take it. */
  ghost function Next(s: OkSys, i: nat): Option<Sys>
    requires i < |s.role|
  {
    match s.role[i]
    case Idle => Take(s, SW.Enter(i), Acquiring)
    case Acquiring =>
      if s.m.pc[i].In? then (if s.m.v.Some? then Take(s, SW.Sleep(i, CHAN), Acquiring) else Take(s, SW.Change(i, Some(i)), Got))
      else Take(s, SW.Step(i), Acquiring)
    case Got => Take(s, SW.Leave(i), Holding)
    case Holding => Take(s, SW.Enter(i), Releasing)
    case Releasing => if s.m.pc[i].In? then Take(s, SW.Change(i, None), Cleared) else Take(s, SW.Step(i), Releasing)
    case Cleared => Take(s, SW.Wake(i, CHAN), Waking)
    case Waking => Take(s, SW.Step(i), if s.m.pc[i].Scan? && s.m.pc[i].k >= |s.m.pc| then Done else Waking)
    case Done => Take(s, SW.Leave(i), Idle)
  }

  /** kill wakes a process wherever it sleeps. */
  ghost function Kill(s: OkSys, i: nat): Option<Sys>
    requires i < |s.role|
  {
    Take(s, SW.Kill(i), s.role[i])
  }

  /** The code keeps to the rules of sleep and wakeup: no step is held up by them, only by a lock that is taken. */
  lemma KeepsRules(s: OkSys, i: nat)
    requires i < |s.role| && Next(s, i).None?
    ensures s.m.pc[i].Want? || s.m.pc[i].LockSelf? || s.m.pc[i].Asleep? || s.m.pc[i].Scan?
    ensures s.m.pc[i].Want? ==> s.m.lk.Some?
    ensures s.m.pc[i].LockSelf? ==> s.m.plock[i].Some?
    ensures s.m.pc[i].Asleep? ==> s.m.asleep[i] || s.m.plock[i].Some?
    ensures s.m.pc[i].Scan? ==> s.m.pc[i].k < |s.role| && s.m.plock[s.m.pc[i].k].Some?
  {
    assert s.RoleAt(i) && s.m.LkAt(i) && s.m.PokeAt(i);
  }

  lemma NextOk(s: OkSys, i: nat)
    requires i < |s.role| && Next(s, i).Some?
    ensures Next(s, i).value.Ok()
  {
    var t := Next(s, i).value;
    assert s.RoleAt(i) && s.m.LkAt(i);
    MonitorOk(s, i);
    forall j: nat | j < |t.role| ensures t.RoleAt(j) { NextRole(s, i, j); }
    assert t.Owing() by { NextOwing(s, i); }
  }

  /** Each of the steps is one of sleep and wakeup, or of a lock holder that keeps to their rules. */
  lemma MonitorOk(s: OkSys, i: nat)
    requires i < |s.role| && Next(s, i).Some?
    ensures Next(s, i).value.m.Ok(Free()) && |Next(s, i).value.m.pc| == |s.role|
  {
    match s.role[i]
    case Idle => SW.NextOk(Free(), s.m, SW.Enter(i));
    case Acquiring =>
      if s.m.pc[i].In? {
        if s.m.v.Some? { SW.NextOk(Free(), s.m, SW.Sleep(i, CHAN)); } else { SW.NextOk(Free(), s.m, SW.Change(i, Some(i))); }
      } else {
        SW.NextOk(Free(), s.m, SW.Step(i));
      }
    case Got => SW.NextOk(Free(), s.m, SW.Leave(i));
    case Holding => SW.NextOk(Free(), s.m, SW.Enter(i));
    case Releasing => if s.m.pc[i].In? { SW.NextOk(Free(), s.m, SW.Change(i, None)); } else { SW.NextOk(Free(), s.m, SW.Step(i)); }
    case Cleared => SW.NextOk(Free(), s.m, SW.Wake(i, CHAN));
    case Waking => SW.NextOk(Free(), s.m, SW.Step(i));
    case Done => SW.NextOk(Free(), s.m, SW.Leave(i));
  }

  lemma NextRole(s: OkSys, i: nat, j: nat)
    requires i < |s.role| && Next(s, i).Some? && j < |s.role| && |Next(s, i).value.m.pc| == |s.role|
    ensures Next(s, i).value.RoleAt(j)
  {
    if i == j { OwnRole(s, i); } else { OtherRole(s, i, j); }
  }

  lemma OwnRole(s: OkSys, i: nat)
    requires i < |s.role| && Next(s, i).Some? && |Next(s, i).value.m.pc| == |s.role|
    ensures Next(s, i).value.RoleAt(i)
  {
    assert s.RoleAt(i);
  }

  lemma OtherRole(s: OkSys, i: nat, j: nat)
    requires i < |s.role| && Next(s, i).Some? && j < |s.role| && j != i && |Next(s, i).value.m.pc| == |s.role|
    ensures Next(s, i).value.RoleAt(j)
  {
    assert s.RoleAt(i) && s.RoleAt(j);
  }

  lemma NextOwing(s: OkSys, i: nat)
    requires i < |s.role| && Next(s, i).Some? && |Next(s, i).value.m.pc| == |s.role|
    ensures Next(s, i).value.Owing()
  {
    assert s.RoleAt(i) && s.m.LkAt(i);
  }

  lemma KillOk(s: OkSys, i: nat)
    requires i < |s.role| && Kill(s, i).Some?
    ensures Kill(s, i).value.Ok()
  {
    SW.NextOk(Free(), s.m, SW.Kill(i));
    var t := Kill(s, i).value;
    forall j: nat | j < |t.role| ensures t.RoleAt(j) { assert s.RoleAt(j); }
  }

  // Runs.

  datatype Action = Step(i: nat) | Killed(i: nat)

  datatype Run = Start(n: nat) | Then(before: Run, a: Action)

  ghost function Init(n: nat): Sys { Sys(SW.Init(n, None), seq(n, _ => Idle)) }

  lemma InitOk(n: nat)
    ensures Init(n).Ok()
  {
    SW.InitOk(Free(), n, None);
    forall i: nat | i < n ensures Init(n).RoleAt(i) { }
  }

  /** The state after a run of `n` processes; an action that cannot be taken changes nothing. */
  ghost function After(r: Run): OkSys
  {
    match r
    case Start(n) => InitOk(n); Init(n)
    case Then(before, a) =>
      var s := After(before);
      match a
      case Step(i) => if i < |s.role| && Next(s, i).Some? then (NextOk(s, i); Next(s, i).value) else s
      case Killed(i) => if i < |s.role| && Kill(s, i).Some? then (KillOk(s, i); Kill(s, i).value) else s
  }

  /** Mutual exclusion: in every run, two processes that have the sleep-lock are the same, and holdingsleep, locked
      with the caller's pid, is true of exactly that one. */
  lemma MutualExclusion(r: Run, i: nat, j: nat)
    requires i < |After(r).role| && j < |After(r).role| && Owns(After(r).role[i])
    ensures After(r).m.v == Some(i) && (Owns(After(r).role[j]) <==> i == j)
  {
    var s := After(r);
    assert s.RoleAt(i) && s.RoleAt(j);
  }

  /** No lost wakeup: in every run, while the sleep-lock is free and nobody is inside its spinlock, no process sleeps
      on it or is about to. */
  lemma NoLostWakeup(r: Run, i: nat)
    requires i < |After(r).role| && After(r).m.v.None? && After(r).m.lk.None?
    ensures !After(r).m.asleep[i] && !After(r).m.pc[i].GoSleep?
  {
    var s := After(r);
    assert s.m.SleepAt(Free(), i) && s.RoleAt(i) && s.m.PokeAt(i);
  }

  /** And a releaser that is on its way has not yet passed any process that sleeps. */
  lemma WakeupReachesAll(r: Run, i: nat)
    requires i < |After(r).role| && After(r).m.v.None? && After(r).m.asleep[i]
    ensures var s := After(r);
      && s.m.lk.Some? && s.m.lk.value < |s.role| && s.m.lk.value != i
      && var h := s.m.pc[s.m.lk.value];
         s.role[s.m.lk.value].Cleared? || (s.role[s.m.lk.value].Waking? && (h.Scan? || h.Poke?) && h.k <= i)
  {
    var s := After(r);
    assert s.m.SleepAt(Free(), i) && s.RoleAt(i) && s.m.PokeAt(i) && s.m.LkAt(i);
    assert s.RoleAt(s.m.lk.value);
  }
}
