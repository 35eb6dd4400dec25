/** fork, exit and wait (kernel/proc.c) for any number of processes whose steps interleave in any
    order. Taking wait_lock is a step that waits until the lock is free; what is done to another
    process under its p->lock is one step, which waits until that process does not hold the lock
    itself. `asleep[i]` is "state SLEEPING on i's own channel", as wait sleeps. */
module ExitWait {
  import opened Options

  datatype PState = Unused | Used | Live | Zombie   // Live: RUNNABLE, RUNNING or SLEEPING

  datatype Pc =
    | Off                                      // no process in this slot
    | Running                                  // outside fork, exit and wait
    | Parenting(c: nat) | Publishing(c: nat)   // fork: before np->parent = p; before state = RUNNABLE
    | XWant(st: int)                           // exit: acquire(&wait_lock)
    | XChild(k: nat, st: int)                  // reparent: at slot k
    | XInit(k: nat, j: nat, st: int)           // reparent's wakeup(initproc) for slot k: at slot j
    | XWake(j: nat, st: int)                   // wakeup(p->parent): at slot j
    | XDie(st: int)                            // acquire(&p->lock); ZOMBIE; release(&wait_lock)
    | Dying | Dead                             // before and after the scheduler drops p->lock
    | WWant                                    // wait: acquire(&wait_lock)
    | WScan(k: nat, kids: bool)                // at slot k
    | WSelf | WDrop | WGo | WAsleep | WWoken   // sleep(p, &wait_lock)

  predicate HasWl(c: Pc) { c.XChild? || c.XInit? || c.XWake? || c.XDie? || c.WScan? || c.WSelf? || c.WDrop? }

  /** The process holds its own p->lock. */
  predicate HasLock(c: Pc) { c.Dying? || c.WDrop? || c.WGo? || c.WWoken? }

  predicate Exits(c: Pc) { c.XWant? || c.XChild? || c.XInit? || c.XWake? || c.XDie? || c.Dying? || c.Dead? }

  predicate Makes(c: Pc) { c.Parenting? || c.Publishing? }

  /** The slots below which an exiting process has no children left. */
  function Orphaned(c: Pc, n: nat): nat
  {
    match c
    case XChild(k, _) => k
    case XInit(k, _, _) => k + 1
    case XWake(_, _) => n
    case XDie(_) => n
    case _ => 0
  }

  /** The slots below which a waiting process has seen no zombie child. */
  function Searched(c: Pc, n: nat): nat
  {
    match c
    case WScan(k, _) => k
    case WSelf => n
    case WDrop => n
    case _ => 0
  }

  /** A child reaped: its pid, who called wait, and the status it got. */
  datatype Reap = Reap(pid: nat, reaper: nat, status: int)

  datatype Sys = Sys(init: nat, state: seq<PState>, pc: seq<Pc>, parent: seq<Option<nat>>, maker: seq<nat>, pid: seq<nat>,
                     xstate: seq<int>, asleep: seq<bool>, wl: Option<nat>, nextpid: nat, exited: map<nat, int>, reaped: seq<Reap>) {

    ghost predicate Shape()
    {
      && |pc| == |state| && |parent| == |state| && |maker| == |state| && |pid| == |state| && |xstate| == |state|
      && |asleep| == |state| && init < |state| && (wl.Some? ==> wl.value < |state|)
    }

    /** wait_lock is held exactly by the process between its acquire and release. */
    ghost predicate WlAt(i: nat)
      requires Shape() && i < |state|
    {
      wl == Some(i) <==> HasWl(pc[i])
    }

    /** State and program counter go together; init never exits. */
    ghost predicate StateAt(i: nat)
      requires Shape() && i < |state|
    {
      && (state[i] == Unused || state[i] == Used <==> pc[i].Off?) && (state[i] == Zombie <==> pc[i].Dying? || pc[i].Dead?)
      && (asleep[i] ==> pc[i].WAsleep?) && (Exits(pc[i]) ==> i != init) && (i == init ==> state[i] == Live)
    }

    /** A slot in the making belongs to the process forking it. */
    ghost predicate MakerAt(i: nat)
      requires Shape() && i < |state|
    {
      && (state[i] == Used ==> maker[i] < |state| && Makes(pc[maker[i]]) && pc[maker[i]].c == i)
      && (Makes(pc[i]) ==> pc[i].c < |state| && state[pc[i].c] == Used && maker[pc[i].c] == i)
    }

    /** Every published process but init has a living parent; an unpublished one at most its maker. */
    ghost predicate ParentAt(i: nat)
      requires Shape() && i < |state|
    {
      && (parent[i].Some? ==> parent[i].value < |state| && parent[i].value != i && state[parent[i].value] == Live)
      && (state[i] == Live || state[i] == Zombie ==> parent[i].Some? || i == init)
      && (state[i] == Unused || i == init ==> parent[i].None?)
      && (state[i] == Used && parent[i].Some? ==> maker[i] < |state| && parent[i].value == maker[i] && pc[maker[i]].Publishing?)
      && (pc[i].Publishing? ==> pc[i].c < |state| && parent[pc[i].c] == Some(i))
    }

    /** Process `i` sleeps in wait, or can no longer be kept from it. */
    ghost predicate Committed(i: nat)
      requires Shape() && i < |state|
    {
      pc[i].WGo? || asleep[i]
    }

    /** Somebody inside reparent will still wake init. */
    ghost predicate InitWakeComing()
      requires Shape()
    {
      wl.Some? && pc[wl.value].XInit? && pc[wl.value].j <= init
    }

    /** `c` as a possible child of `i`. */
    ghost predicate KidAt(i: nat, c: nat)
      requires Shape() && i < |state| && c < |state|
    {
      parent[c] == Some(i) ==>
        && c >= Orphaned(pc[i], |state|)
        && (state[c] == Zombie ==> c >= Searched(pc[i], |state|))
        && (state[c] == Zombie && Committed(i) ==> i == init && InitWakeComing())
    }

    /** An exiting process that has passed its parent in wakeup left it awake. */
    ghost predicate WakeAt(i: nat)
      requires Shape() && i < |state|
    {
      parent[i].Some? && parent[i].value < |state| && (pc[i].XDie? || (pc[i].XWake? && parent[i].value < pc[i].j)) ==>
        !Committed(parent[i].value)
    }

    ghost predicate Ok()
    {
      && Shape() && (forall i: nat :: i < |state| ==> WlAt(i)) && (forall i: nat :: i < |state| ==> StateAt(i) && MakerAt(i) && ParentAt(i))
      && (forall i: nat, c: nat {:trigger KidAt(i, c)} :: i < |state| && c < |state| ==> KidAt(i, c))
      && (forall i: nat :: i < |state| ==> WakeAt(i))
    }
  }

  type OkSys = s: Sys | s.Ok() ghost witness Sys(0, [Live], [Running], [None], [0], [1], [0], [false], None, 2, map[], [])

  datatype Action =
    | Step(i: nat)                  // the next step of process i where it has no choice
    | Fork(i: nat, c: nat)          // allocproc took slot c
    | ForkFails(i: nat)             // uvmcopy failed: freeproc
    | Exit(i: nat, st: int) | Wait(i: nat)
    | GiveUp(i: nat)                // wait returns -1: killed, or its copyout failed
    | Kill(i: nat)                  // made runnable for another reason

  /** Process `i` can step: it is there, and its fork's slot is. */
  ghost predicate Can(s: Sys, i: nat) { s.Shape() && i < |s.state| && (Makes(s.pc[i]) ==> s.pc[i].c < |s.state|) }

  ghost function Move(s: Sys, i: nat, c: Pc): Sys
    requires i < |s.pc|
  {
    s.(pc := s.pc[i := c])
  }

  /** The state after an action; None if it cannot be taken now. */
  ghost function Next(s: Sys, a: Action): Option<Sys>
    requires Can(s, a.i)
  {
    var i, n := a.i, |s.state|;
    match a
    case Step(_) => StepOf(s, i)
    case Fork(_, c) =>
      if s.pc[i].Running? && c < n && s.state[c] == Unused then
        Some(Move(s, i, Parenting(c)).(state := s.state[c := Used], maker := s.maker[c := i], pid := s.pid[c := s.nextpid], nextpid := s.nextpid + 1))
      else None
    case ForkFails(_) => if s.pc[i].Parenting? then Some(Move(s, i, Running).(state := s.state[s.pc[i].c := Unused])) else None
    case Exit(_, st) => if s.pc[i].Running? && i != s.init then Some(Move(s, i, XWant(st))) else None
    case Wait(_) => if s.pc[i].Running? then Some(Move(s, i, WWant)) else None
    case GiveUp(_) => if s.pc[i].WSelf? || s.pc[i].WScan? then Some(Move(s, i, Running).(wl := None)) else None
    case Kill(_) => if !HasLock(s.pc[i]) then Some(s.(asleep := s.asleep[i := false])) else None
  }

  ghost function StepOf(s: Sys, i: nat): Option<Sys>
    requires Can(s, i)
  {
    var n := |s.state|;
    match s.pc[i]
    case Parenting(c) => if s.wl.None? then Some(Move(s, i, Publishing(c)).(parent := s.parent[c := Some(i)])) else None
    case Publishing(c) => Some(s.(pc := s.pc[i := Running][c := Running], state := s.state[c := Live]))
    case XWant(st) => if s.wl.None? then Some(Move(s, i, XChild(0, st)).(wl := Some(i))) else None
    case XChild(k, st) =>
      if k >= n then Some(Move(s, i, XWake(0, st)))
      else if s.parent[k] == Some(i) then Some(Move(s, i, XInit(k, 0, st)).(parent := s.parent[k := Some(s.init)]))
      else Some(Move(s, i, XChild(k + 1, st)))
    case XInit(k, j, st) =>
      if j >= n then Some(Move(s, i, XChild(k + 1, st)))
      else if HasLock(s.pc[j]) then None
      else Some(Move(s, i, XInit(k, j + 1, st)).(asleep := if j == s.init then s.asleep[j := false] else s.asleep))
    case XWake(j, st) =>
      if j >= n then Some(Move(s, i, XDie(st)))
      else if HasLock(s.pc[j]) then None
      else Some(Move(s, i, XWake(j + 1, st)).(asleep := if s.parent[i] == Some(j) then s.asleep[j := false] else s.asleep))
    case XDie(st) =>
      Some(Move(s, i, Dying).(wl := None, state := s.state[i := Zombie], xstate := s.xstate[i := st], exited := s.exited[s.pid[i] := st]))
    case Dying => Some(Move(s, i, Dead))
    case WWant => if s.wl.None? then Some(Move(s, i, WScan(0, false)).(wl := Some(i))) else None
    case WScan(k, kids) =>
      if k >= n then if kids then Some(Move(s, i, WSelf)) else Some(Move(s, i, Running).(wl := None))
      else if s.parent[k] != Some(i) then Some(Move(s, i, WScan(k + 1, kids)))
      else if HasLock(s.pc[k]) then None
      else if s.state[k] == Zombie then
        Some(s.(pc := s.pc[i := Running][k := Off], wl := None, state := s.state[k := Unused], parent := s.parent[k := None],
                reaped := s.reaped + [Reap(s.pid[k], i, s.xstate[k])]))
      else Some(Move(s, i, WScan(k + 1, true)))
    case WSelf => Some(Move(s, i, WDrop))
    case WDrop => Some(Move(s, i, WGo).(wl := None))
    case WGo => Some(Move(s, i, WAsleep).(asleep := s.asleep[i := true]))
    case WAsleep => if !s.asleep[i] then Some(Move(s, i, WWoken)) else None
    case WWoken => Some(Move(s, i, WWant))
    case _ => None
  }

  // Every action keeps the invariant.

  /** The unary parts, for process `j`. */
  ghost predicate At(s: Sys, j: nat)
    requires s.Shape() && j < |s.state|
  {
    s.WlAt(j) && s.StateAt(j) && s.MakerAt(j) && s.ParentAt(j) && s.WakeAt(j)
  }

  lemma Parts(s: OkSys, j: nat)
    requires j < |s.state|
    ensures At(s, j)
  {
  }

  lemma Whole(s: Sys)
    requires s.Shape() && forall j: nat :: j < |s.state| ==> At(s, j)
    requires forall i: nat, c: nat :: i < |s.state| && c < |s.state| ==> s.KidAt(i, c)
    ensures s.Ok()
  {
    forall j: nat | j < |s.state| ensures s.WlAt(j) && s.StateAt(j) && s.MakerAt(j) && s.ParentAt(j) && s.WakeAt(j) { assert At(s, j); }
  }

  lemma ForkAt(s: OkSys, i: nat, c: nat, j: nat)
    requires Can(s, i) && Next(s, Fork(i, c)).Some? && j < |s.state|
    ensures Next(s, Fork(i, c)).value.Shape() && |Next(s, Fork(i, c)).value.state| == |s.state| && At(Next(s, Fork(i, c)).value, j)
  {
    Parts(s, i);
    if c < |s.state| { Parts(s, c); }
    Parts(s, j);
  }

  lemma ForkKid(s: OkSys, i: nat, c: nat, x: nat, y: nat)
    requires Can(s, i) && Next(s, Fork(i, c)).Some? && x < |s.state| && y < |s.state|
    ensures Next(s, Fork(i, c)).value.Shape() && Next(s, Fork(i, c)).value.KidAt(x, y)
  {
    Parts(s, i);
    if c < |s.state| { Parts(s, c); }
    Parts(s, x);
    assert s.KidAt(x, y);
  }

  lemma ForkOk(s: OkSys, i: nat, c: nat)
    requires Can(s, i) && Next(s, Fork(i, c)).Some?
    ensures Next(s, Fork(i, c)).value.Ok()
  {
    var t := Next(s, Fork(i, c)).value;
    ForkAt(s, i, c, i);
    forall j: nat | j < |t.state| ensures At(t, j) { ForkAt(s, i, c, j); }
    forall x: nat, y: nat | x < |t.state| && y < |t.state| ensures t.KidAt(x, y) { ForkKid(s, i, c, x, y); }
    Whole(t);
  }

  lemma ForkFailsAt(s: OkSys, i: nat, j: nat)
    requires Can(s, i) && Next(s, ForkFails(i)).Some? && j < |s.state|
    ensures Next(s, ForkFails(i)).value.Shape() && |Next(s, ForkFails(i)).value.state| == |s.state| && At(Next(s, ForkFails(i)).value, j)
  {
    Parts(s, i);
    if Makes(s.pc[i]) { Parts(s, s.pc[i].c); }
    Parts(s, j);
  }

  lemma ForkFailsKid(s: OkSys, i: nat, x: nat, y: nat)
    requires Can(s, i) && Next(s, ForkFails(i)).Some? && x < |s.state| && y < |s.state|
    ensures Next(s, ForkFails(i)).value.Shape() && Next(s, ForkFails(i)).value.KidAt(x, y)
  {
    Parts(s, i);
    if Makes(s.pc[i]) { Parts(s, s.pc[i].c); }
    Parts(s, x);
    assert s.KidAt(x, y);
  }

  lemma ForkFailsOk(s: OkSys, i: nat)
    requires Can(s, i) && Next(s, ForkFails(i)).Some?
    ensures Next(s, ForkFails(i)).value.Ok()
  {
    var t := Next(s, ForkFails(i)).value;
    ForkFailsAt(s, i, i);
    forall j: nat | j < |t.state| ensures At(t, j) { ForkFailsAt(s, i, j); }
    forall x: nat, y: nat | x < |t.state| && y < |t.state| ensures t.KidAt(x, y) { ForkFailsKid(s, i, x, y); }
    Whole(t);
  }

  lemma ParentingOk(s: OkSys, i: nat)
    requires Can(s, i) && s.pc[i].Parenting? && StepOf(s, i).Some?
    ensures StepOf(s, i).value.Ok()
  {
    var t, c := StepOf(s, i).value, s.pc[i].c;
    Parts(s, i);
    Parts(s, c);
    forall j: nat | j < |t.state| ensures At(t, j) { Parts(s, j); }
    forall x: nat, y: nat | x < |t.state| && y < |t.state| ensures t.KidAt(x, y) { assert s.KidAt(x, y); }
    Whole(t);
  }

  lemma PublishingAt(s: OkSys, i: nat, j: nat)
    requires Can(s, i) && s.pc[i].Publishing? && StepOf(s, i).Some? && j < |s.state|
    ensures StepOf(s, i).value.Shape() && |StepOf(s, i).value.state| == |s.state| && At(StepOf(s, i).value, j)
  {
    Parts(s, i);
    Parts(s, s.pc[i].c);
    Parts(s, j);
  }

  lemma PublishingKid(s: OkSys, i: nat, x: nat, y: nat)
    requires Can(s, i) && s.pc[i].Publishing? && StepOf(s, i).Some? && x < |s.state| && y < |s.state|
    ensures StepOf(s, i).value.Shape() && StepOf(s, i).value.KidAt(x, y)
  {
    Parts(s, i);
    Parts(s, s.pc[i].c);
    Parts(s, x);
    assert s.KidAt(x, y);
  }

  lemma PublishingOk(s: OkSys, i: nat)
    requires Can(s, i) && s.pc[i].Publishing? && StepOf(s, i).Some?
    ensures StepOf(s, i).value.Ok()
  {
    var t := StepOf(s, i).value;
    PublishingAt(s, i, i);
    forall j: nat | j < |t.state| ensures At(t, j) { PublishingAt(s, i, j); }
    forall x: nat, y: nat | x < |t.state| && y < |t.state| ensures t.KidAt(x, y) { PublishingKid(s, i, x, y); }
    Whole(t);
  }

  lemma WantAt(s: OkSys, i: nat, j: nat)
    requires Can(s, i) && (s.pc[i].XWant? || s.pc[i].WWant?) && StepOf(s, i).Some? && j < |s.state|
    ensures StepOf(s, i).value.Shape() && |StepOf(s, i).value.state| == |s.state| && At(StepOf(s, i).value, j)
  {
    Parts(s, i);
    Parts(s, j);
  }

  lemma WantKid(s: OkSys, i: nat, x: nat, y: nat)
    requires Can(s, i) && (s.pc[i].XWant? || s.pc[i].WWant?) && StepOf(s, i).Some? && x < |s.state| && y < |s.state|
    ensures StepOf(s, i).value.Shape() && StepOf(s, i).value.KidAt(x, y)
  {
    Parts(s, i);
    Parts(s, x);
    assert s.KidAt(x, y);
  }

  lemma WantOk(s: OkSys, i: nat)
    requires Can(s, i) && (s.pc[i].XWant? || s.pc[i].WWant?) && StepOf(s, i).Some?
    ensures StepOf(s, i).value.Ok()
  {
    var t := StepOf(s, i).value;
    WantAt(s, i, i);
    forall j: nat | j < |t.state| ensures At(t, j) { WantAt(s, i, j); }
    forall x: nat, y: nat | x < |t.state| && y < |t.state| ensures t.KidAt(x, y) { WantKid(s, i, x, y); }
    Whole(t);
  }

  /** reparent is at a child of the process. */
  ghost predicate Adopts(s: Sys, i: nat)
    requires Can(s, i)
  {
    s.pc[i].XChild? && s.pc[i].k < |s.state| && s.parent[s.pc[i].k] == Some(i)
  }

  /** The child, zombie or not, goes to init, which is about to be woken. */
  lemma AdoptOk(s: OkSys, i: nat)
    requires Can(s, i) && Adopts(s, i) && StepOf(s, i).Some?
    ensures StepOf(s, i).value.Ok()
  {
    var t := StepOf(s, i).value;
    Parts(s, i);
    Parts(s, s.init);
    Parts(s, s.pc[i].k);
    forall j: nat | j < |t.state| ensures At(t, j) { Parts(s, j); }
    forall x: nat, y: nat | x < |t.state| && y < |t.state| ensures t.KidAt(x, y) { assert s.KidAt(x, y); }
    Whole(t);
  }

  lemma ChildAt(s: OkSys, i: nat, j: nat)
    requires Can(s, i) && s.pc[i].XChild? && !Adopts(s, i) && StepOf(s, i).Some? && j < |s.state|
    ensures StepOf(s, i).value.Shape() && |StepOf(s, i).value.state| == |s.state| && At(StepOf(s, i).value, j)
  {
    Parts(s, i);
    Parts(s, j);
  }

  lemma ChildKid(s: OkSys, i: nat, x: nat, y: nat)
    requires Can(s, i) && s.pc[i].XChild? && !Adopts(s, i) && StepOf(s, i).Some? && x < |s.state| && y < |s.state|
    ensures StepOf(s, i).value.Shape() && StepOf(s, i).value.KidAt(x, y)
  {
    Parts(s, i);
    Parts(s, x);
    assert s.KidAt(x, y);
  }

  lemma ChildOk(s: OkSys, i: nat)
    requires Can(s, i) && s.pc[i].XChild? && !Adopts(s, i) && StepOf(s, i).Some?
    ensures StepOf(s, i).value.Ok()
  {
    var t := StepOf(s, i).value;
    ChildAt(s, i, i);
    forall j: nat | j < |t.state| ensures At(t, j) { ChildAt(s, i, j); }
    forall x: nat, y: nat | x < |t.state| && y < |t.state| ensures t.KidAt(x, y) { ChildKid(s, i, x, y); }
    Whole(t);
  }

  lemma InitAt(s: OkSys, i: nat, j: nat)
    requires Can(s, i) && s.pc[i].XInit? && StepOf(s, i).Some? && j < |s.state|
    ensures StepOf(s, i).value.Shape() && |StepOf(s, i).value.state| == |s.state| && At(StepOf(s, i).value, j)
  {
    Parts(s, i);
    Parts(s, s.init);
    Parts(s, j);
  }

  lemma InitKid(s: OkSys, i: nat, x: nat, y: nat)
    requires Can(s, i) && s.pc[i].XInit? && StepOf(s, i).Some? && x < |s.state| && y < |s.state|
    ensures StepOf(s, i).value.Shape() && StepOf(s, i).value.KidAt(x, y)
  {
    Parts(s, i);
    Parts(s, s.init);
    Parts(s, x);
    assert s.KidAt(x, y);
  }

  lemma InitOk(s: OkSys, i: nat)
    requires Can(s, i) && s.pc[i].XInit? && StepOf(s, i).Some?
    ensures StepOf(s, i).value.Ok()
  {
    var t := StepOf(s, i).value;
    InitAt(s, i, i);
    forall j: nat | j < |t.state| ensures At(t, j) { InitAt(s, i, j); }
    forall x: nat, y: nat | x < |t.state| && y < |t.state| ensures t.KidAt(x, y) { InitKid(s, i, x, y); }
    Whole(t);
  }

  lemma WakeState(s: OkSys, i: nat, j: nat)
    requires Can(s, i) && s.pc[i].XWake? && StepOf(s, i).Some? && j < |s.state|
    ensures var t := StepOf(s, i).value; t.Shape() && |t.state| == |s.state| && t.WlAt(j) && t.StateAt(j) && t.MakerAt(j)
  {
    Parts(s, i);
    Parts(s, j);
  }

  lemma WakeParent(s: OkSys, i: nat, j: nat)
    requires Can(s, i) && s.pc[i].XWake? && StepOf(s, i).Some? && j < |s.state|
    ensures var t := StepOf(s, i).value; t.Shape() && |t.state| == |s.state| && t.ParentAt(j) && t.WakeAt(j)
  {
    Parts(s, i);
    Parts(s, j);
    if s.parent[i].Some? { Parts(s, s.parent[i].value); }
  }

  lemma WakeKid(s: OkSys, i: nat, x: nat, y: nat)
    requires Can(s, i) && s.pc[i].XWake? && StepOf(s, i).Some? && x < |s.state| && y < |s.state|
    ensures StepOf(s, i).value.Shape() && StepOf(s, i).value.KidAt(x, y)
  {
    Parts(s, i);
    if s.parent[i].Some? { Parts(s, s.parent[i].value); }
    Parts(s, x);
    assert s.KidAt(x, y);
  }

  lemma WakeOk(s: OkSys, i: nat)
    requires Can(s, i) && s.pc[i].XWake? && StepOf(s, i).Some?
    ensures StepOf(s, i).value.Ok()
  {
    var t := StepOf(s, i).value;
    WakeState(s, i, i);
    forall j: nat | j < |t.state| ensures At(t, j) {
      WakeState(s, i, j);
      WakeParent(s, i, j);
    }
    forall x: nat, y: nat | x < |t.state| && y < |t.state| ensures t.KidAt(x, y) { WakeKid(s, i, x, y); }
    Whole(t);
  }

  /** The process becomes a zombie while its parent is awake. */
  lemma DieOk(s: OkSys, i: nat)
    requires Can(s, i) && s.pc[i].XDie? && StepOf(s, i).Some?
    ensures StepOf(s, i).value.Ok()
  {
    var t := StepOf(s, i).value;
    Parts(s, i);
    forall j: nat | j < |t.state| ensures At(t, j) {
      Parts(s, j);
      assert s.KidAt(i, j);
    }
    forall x: nat, y: nat | x < |t.state| && y < |t.state| ensures t.KidAt(x, y) {
      Parts(s, x);
      assert s.KidAt(x, y);
    }
    Whole(t);
  }

  lemma DyingOk(s: OkSys, i: nat)
    requires Can(s, i) && s.pc[i].Dying? && StepOf(s, i).Some?
    ensures StepOf(s, i).value.Ok()
  {
    var t := StepOf(s, i).value;
    Parts(s, i);
    forall j: nat | j < |t.state| ensures At(t, j) { Parts(s, j); }
    forall x: nat, y: nat | x < |t.state| && y < |t.state| ensures t.KidAt(x, y) { assert s.KidAt(x, y); }
    Whole(t);
  }

  /** The scan goes on, ends, or finds no child: only the process's own place, and wait_lock, change. */
  lemma ScanMoveAt(s: OkSys, i: nat, c: Pc, wl: Option<nat>, j: nat)
    requires Can(s, i) && (s.pc[i].WScan? || s.pc[i].WSelf?) && j < |s.state|
    requires ((c.WScan? || c.WSelf?) && wl == s.wl) || (c.Running? && wl == None)
    ensures Move(s, i, c).(wl := wl).Shape() && At(Move(s, i, c).(wl := wl), j)
  {
    Parts(s, i);
    Parts(s, j);
  }

  lemma ScanOnAt(s: OkSys, i: nat, j: nat)
    requires Can(s, i) && s.pc[i].WScan? && !Reaps(s, i) && StepOf(s, i).Some? && j < |s.state|
    ensures StepOf(s, i).value.Shape() && At(StepOf(s, i).value, j)
  {
    var t := StepOf(s, i).value;
    assert t == Move(s, i, t.pc[i]).(wl := t.wl);
    ScanMoveAt(s, i, t.pc[i], t.wl, j);
  }

  lemma ScanKid(s: OkSys, i: nat, x: nat, y: nat)
    requires Can(s, i) && s.pc[i].WScan? && !Reaps(s, i) && StepOf(s, i).Some? && x < |s.state| && y < |s.state|
    ensures StepOf(s, i).value.Shape() && StepOf(s, i).value.KidAt(x, y)
  {
    Parts(s, i);
    Parts(s, x);
    assert s.KidAt(x, y);
  }

  lemma ScanOnOk(s: OkSys, i: nat)
    requires Can(s, i) && s.pc[i].WScan? && !Reaps(s, i) && StepOf(s, i).Some?
    ensures StepOf(s, i).value.Ok()
  {
    var t := StepOf(s, i).value;
    ScanOnAt(s, i, i);
    assert |t.state| == |s.state|;
    forall j: nat | j < |t.state| ensures At(t, j) { ScanOnAt(s, i, j); }
    forall x: nat, y: nat | x < |t.state| && y < |t.state| ensures t.KidAt(x, y) { ScanKid(s, i, x, y); }
    Whole(t);
  }

  /** wait has found a zombie child that it can reap. */
  ghost predicate Reaps(s: Sys, i: nat)
    requires Can(s, i)
  {
    s.pc[i].WScan? && s.pc[i].k < |s.state| && s.parent[s.pc[i].k] == Some(i) && s.state[s.pc[i].k] == Zombie
  }

  lemma ReapAt(s: OkSys, i: nat, j: nat)
    requires Can(s, i) && Reaps(s, i) && StepOf(s, i).Some? && j < |s.state|
    ensures StepOf(s, i).value.Shape() && |StepOf(s, i).value.state| == |s.state| && At(StepOf(s, i).value, j)
  {
    Parts(s, i);
    Parts(s, s.pc[i].k);
    Parts(s, j);
  }

  lemma ReapKid(s: OkSys, i: nat, x: nat, y: nat)
    requires Can(s, i) && Reaps(s, i) && StepOf(s, i).Some? && x < |s.state| && y < |s.state|
    ensures StepOf(s, i).value.Shape() && StepOf(s, i).value.KidAt(x, y)
  {
    Parts(s, i);
    Parts(s, s.pc[i].k);
    Parts(s, x);
    assert s.KidAt(x, y);
  }

  /** Its slot is unused again; no other process is affected. */
  lemma ReapOk(s: OkSys, i: nat)
    requires Can(s, i) && Reaps(s, i) && StepOf(s, i).Some?
    ensures StepOf(s, i).value.Ok()
  {
    var t := StepOf(s, i).value;
    ReapAt(s, i, i);
    forall j: nat | j < |t.state| ensures At(t, j) { ReapAt(s, i, j); }
    forall x: nat, y: nat | x < |t.state| && y < |t.state| ensures t.KidAt(x, y) { ReapKid(s, i, x, y); }
    Whole(t);
  }

  lemma SelfMoveAt(s: OkSys, i: nat, c: Pc, j: nat)
    requires Can(s, i) && j < |s.state| && ((s.pc[i].WSelf? && c.WDrop?) || (s.pc[i].WAsleep? && !s.asleep[i] && c.WWoken?) || (s.pc[i].WWoken? && c.WWant?))
    ensures Move(s, i, c).Shape() && At(Move(s, i, c), j)
  {
    Parts(s, i);
    Parts(s, j);
  }

  lemma SelfAt(s: OkSys, i: nat, j: nat)
    requires Can(s, i) && (s.pc[i].WSelf? || s.pc[i].WAsleep? || s.pc[i].WWoken?) && StepOf(s, i).Some? && j < |s.state|
    ensures StepOf(s, i).value.Shape() && At(StepOf(s, i).value, j)
  {
    SelfMoveAt(s, i, StepOf(s, i).value.pc[i], j);
  }

  lemma SelfKid(s: OkSys, i: nat, x: nat, y: nat)
    requires Can(s, i) && (s.pc[i].WSelf? || s.pc[i].WAsleep? || s.pc[i].WWoken?) && StepOf(s, i).Some? && x < |s.state| && y < |s.state|
    ensures StepOf(s, i).value.Shape() && StepOf(s, i).value.KidAt(x, y)
  {
    Parts(s, i);
    assert s.KidAt(x, y);
  }

  lemma SelfOk(s: OkSys, i: nat)
    requires Can(s, i) && (s.pc[i].WSelf? || s.pc[i].WAsleep? || s.pc[i].WWoken?) && StepOf(s, i).Some?
    ensures StepOf(s, i).value.Ok()
  {
    var t := StepOf(s, i).value;
    SelfAt(s, i, i);
    assert |t.state| == |s.state|;
    forall j: nat | j < |t.state| ensures At(t, j) { SelfAt(s, i, j); }
    forall x: nat, y: nat | x < |t.state| && y < |t.state| ensures t.KidAt(x, y) { SelfKid(s, i, x, y); }
    Whole(t);
  }

  /** wait: the process can only go to sleep without a zombie child. */
  lemma DropOk(s: OkSys, i: nat)
    requires Can(s, i) && s.pc[i].WDrop? && StepOf(s, i).Some?
    ensures StepOf(s, i).value.Ok()
  {
    var t := StepOf(s, i).value;
    Parts(s, i);
    forall j: nat | j < |t.state| ensures At(t, j) { Parts(s, j); }
    forall x: nat, y: nat | x < |t.state| && y < |t.state| ensures t.KidAt(x, y) { assert s.KidAt(x, y); }
    Whole(t);
  }

  lemma GoOk(s: OkSys, i: nat)
    requires Can(s, i) && s.pc[i].WGo? && StepOf(s, i).Some?
    ensures StepOf(s, i).value.Ok()
  {
    var t := StepOf(s, i).value;
    Parts(s, i);
    forall j: nat | j < |t.state| ensures At(t, j) { Parts(s, j); }
    forall x: nat, y: nat | x < |t.state| && y < |t.state| ensures t.KidAt(x, y) { assert s.KidAt(x, y); }
    Whole(t);
  }

  lemma NextOk(s: OkSys, a: Action)
    requires Can(s, a.i) && Next(s, a).Some?
    ensures Next(s, a).value.Ok()
  {
    var i := a.i;
    match a
    case Fork(_, c) => ForkOk(s, i, c);
    case ForkFails(_) => ForkFailsOk(s, i);
    case Step(_) => StepOk(s, i);
    case _ => CallOk(s, a);
  }

  lemma StepOk(s: OkSys, i: nat)
    requires Can(s, i) && StepOf(s, i).Some?
    ensures StepOf(s, i).value.Ok()
  {
    match s.pc[i]
    case Parenting(_) => ParentingOk(s, i);
    case Publishing(_) => PublishingOk(s, i);
    case XWant(_) => WantOk(s, i);
    case WWant => WantOk(s, i);
    case XChild(_, _) => if Adopts(s, i) { AdoptOk(s, i); } else { ChildOk(s, i); }
    case XInit(_, _, _) => InitOk(s, i);
    case XWake(_, _) => WakeOk(s, i);
    case XDie(_) => DieOk(s, i);
    case Dying => DyingOk(s, i);
    case WScan(_, _) => if Reaps(s, i) { ReapOk(s, i); } else { ScanOnOk(s, i); }
    case WDrop => DropOk(s, i);
    case WGo => GoOk(s, i);
    case _ => SelfOk(s, i);
  }

  lemma KillAt(s: OkSys, i: nat, j: nat)
    requires Can(s, i) && Next(s, Kill(i)).Some? && j < |s.state|
    ensures Next(s, Kill(i)).value.Shape() && At(Next(s, Kill(i)).value, j)
  {
    Parts(s, i);
    Parts(s, j);
  }

  lemma StartAt(s: OkSys, i: nat, c: Pc, j: nat)
    requires Can(s, i) && s.pc[i].Running? && (c.WWant? || (c.XWant? && i != s.init)) && j < |s.state|
    ensures Move(s, i, c).Shape() && At(Move(s, i, c), j)
  {
    Parts(s, i);
    Parts(s, j);
  }

  lemma CallAt(s: OkSys, a: Action, j: nat)
    requires (a.Exit? || a.Wait? || a.GiveUp? || a.Kill?) && Can(s, a.i) && Next(s, a).Some? && j < |s.state|
    ensures Next(s, a).value.Shape() && At(Next(s, a).value, j)
  {
    if a.Kill? {
      KillAt(s, a.i, j);
    } else if a.GiveUp? {
      ScanMoveAt(s, a.i, Running, None, j);
    } else {
      StartAt(s, a.i, if a.Exit? then XWant(a.st) else WWant, j);
    }
  }

  lemma CallKid(s: OkSys, a: Action, x: nat, y: nat)
    requires (a.Exit? || a.Wait? || a.GiveUp? || a.Kill?) && Can(s, a.i) && Next(s, a).Some? && x < |s.state| && y < |s.state|
    ensures Next(s, a).value.Shape() && Next(s, a).value.KidAt(x, y)
  {
    Parts(s, a.i);
    assert s.KidAt(x, y);
  }

  lemma CallOk(s: OkSys, a: Action)
    requires (a.Exit? || a.Wait? || a.GiveUp? || a.Kill?) && Can(s, a.i) && Next(s, a).Some?
    ensures Next(s, a).value.Ok()
  {
    var t := Next(s, a).value;
    CallAt(s, a, a.i);
    assert |t.state| == |s.state|;
    forall j: nat | j < |t.state| ensures At(t, j) { CallAt(s, a, j); }
    forall x: nat, y: nat | x < |t.state| && y < |t.state| ensures t.KidAt(x, y) { CallKid(s, a, x, y); }
    Whole(t);
  }

  // Who exited and who was reaped.

  ghost predicate NotReaped(s: Sys, p: nat) { forall m :: 0 <= m < |s.reaped| ==> s.reaped[m].pid != p }

  /** The pid of slot `i` is its own; it has exited, with this status, exactly if it is a zombie; it was
      not reaped yet. */
  ghost predicate PidAt(s: Sys, i: nat)
    requires s.Shape() && i < |s.state|
  {
    s.state[i] != Unused ==>
      && s.pid[i] < s.nextpid && NotReaped(s, s.pid[i])
      && (s.state[i] == Zombie <==> s.pid[i] in s.exited) && (s.state[i] == Zombie ==> s.exited[s.pid[i]] == s.xstate[i])
  }

  ghost predicate Recorded(s: Sys)
  {
    && s.Shape() && (forall i: nat :: i < |s.state| ==> PidAt(s, i)) && (forall p :: p in s.exited ==> p < s.nextpid)
    && (forall i: nat, j: nat :: i < |s.state| && j < |s.state| && i != j && s.state[i] != Unused && s.state[j] != Unused ==> s.pid[i] != s.pid[j])
    && (forall m :: 0 <= m < |s.reaped| ==> s.reaped[m].pid in s.exited && s.reaped[m].status == s.exited[s.reaped[m].pid])
    && (forall m, n :: 0 <= m < n < |s.reaped| ==> s.reaped[m].pid != s.reaped[n].pid)
  }

  /** A step that neither makes a process, nor ends one, nor reaps one. */
  lemma KeepRecord(s: Sys, t: Sys)
    requires Recorded(s) && t.Shape() && |t.state| == |s.state| && t.pid == s.pid && t.xstate == s.xstate && t.nextpid == s.nextpid
    requires t.exited == s.exited && t.reaped == s.reaped
    requires forall j: nat :: j < |s.state| && t.state[j] != Unused ==> s.state[j] != Unused && (t.state[j] == Zombie <==> s.state[j] == Zombie)
    ensures Recorded(t)
  {
    forall j: nat | j < |t.state| ensures PidAt(t, j) { assert PidAt(s, j); }
  }

  lemma ForkRecorded(s: OkSys, i: nat, c: nat)
    requires Can(s, i) && Next(s, Fork(i, c)).Some? && Recorded(s)
    ensures Recorded(Next(s, Fork(i, c)).value)
  {
    var t := Next(s, Fork(i, c)).value;
    assert s.nextpid !in s.exited;
    forall j: nat | j < |t.state| ensures PidAt(t, j) && (j != c && t.state[j] != Unused ==> t.pid[j] < s.nextpid) { assert PidAt(s, j); }
    forall x: nat, y: nat | x < |t.state| && y < |t.state| && x != y && t.state[x] != Unused && t.state[y] != Unused ensures t.pid[x] != t.pid[y] {
      assert x != c && y != c ==> s.state[x] != Unused && s.state[y] != Unused;
    }
  }

  lemma DieRecorded(s: OkSys, i: nat)
    requires Can(s, i) && s.pc[i].XDie? && Recorded(s)
    ensures Recorded(StepOf(s, i).value)
  {
    var t := StepOf(s, i).value;
    Parts(s, i);
    assert PidAt(s, i);
    forall j: nat | j < |t.state| ensures PidAt(t, j) { assert PidAt(s, j); }
    forall m | 0 <= m < |t.reaped| ensures t.reaped[m].pid in t.exited && t.reaped[m].status == t.exited[t.reaped[m].pid] {
      assert s.reaped[m].pid != s.pid[i];
    }
  }

  lemma ReapRecorded(s: OkSys, i: nat)
    requires Can(s, i) && Reaps(s, i) && StepOf(s, i).Some? && Recorded(s)
    ensures Recorded(StepOf(s, i).value)
  {
    var t, k := StepOf(s, i).value, s.pc[i].k;
    assert PidAt(s, k);
    forall j: nat | j < |t.state| ensures PidAt(t, j) { assert PidAt(s, j); }
  }

  lemma NextRecorded(s: OkSys, a: Action)
    requires Can(s, a.i) && Next(s, a).Some? && Recorded(s)
    ensures Recorded(Next(s, a).value)
  {
    if a.Fork? {
      ForkRecorded(s, a.i, a.c);
    } else if a.Step? && s.pc[a.i].XDie? {
      DieRecorded(s, a.i);
    } else if a.Step? && Reaps(s, a.i) {
      ReapRecorded(s, a.i);
    } else {
      OtherRecorded(s, a);
    }
  }

  lemma OtherRecorded(s: OkSys, a: Action)
    requires Can(s, a.i) && Next(s, a).Some? && Recorded(s) && !a.Fork? && !(a.Step? && (s.pc[a.i].XDie? || Reaps(s, a.i)))
    ensures Recorded(Next(s, a).value)
  {
    if a.Step? {
      if Makes(s.pc[a.i]) { MakeRecorded(s, a.i); } else { StepRecorded(s, a.i); }
    } else {
      CallRecorded(s, a);
    }
  }

  lemma MakeRecorded(s: OkSys, i: nat)
    requires Can(s, i) && Makes(s.pc[i]) && StepOf(s, i).Some? && Recorded(s)
    ensures Recorded(StepOf(s, i).value)
  {
    Parts(s, i);
    Parts(s, s.pc[i].c);
    KeepRecord(s, StepOf(s, i).value);
  }

  /** The same processes, exited and reaped. */
  ghost predicate SameRecord(s: Sys, t: Sys)
  {
    && t.Shape() && t.state == s.state && t.pid == s.pid && t.xstate == s.xstate && t.nextpid == s.nextpid
    && t.exited == s.exited && t.reaped == s.reaped
  }

  /** No other step of exit, or of wait, touches them. */
  lemma ExitUntouched(s: Sys, i: nat)
    requires Can(s, i) && Exits(s.pc[i]) && !s.pc[i].XDie? && StepOf(s, i).Some?
    ensures SameRecord(s, StepOf(s, i).value)
  {
  }

  lemma WaitUntouched(s: Sys, i: nat)
    requires Can(s, i) && !Exits(s.pc[i]) && !Makes(s.pc[i]) && !Reaps(s, i) && StepOf(s, i).Some?
    ensures SameRecord(s, StepOf(s, i).value)
  {
  }

  lemma StepRecorded(s: OkSys, i: nat)
    requires Can(s, i) && !Makes(s.pc[i]) && !s.pc[i].XDie? && !Reaps(s, i) && StepOf(s, i).Some? && Recorded(s)
    ensures Recorded(StepOf(s, i).value)
  {
    if Exits(s.pc[i]) { ExitUntouched(s, i); } else { WaitUntouched(s, i); }
    KeepRecord(s, StepOf(s, i).value);
  }

  lemma CallRecorded(s: OkSys, a: Action)
    requires Can(s, a.i) && Next(s, a).Some? && Recorded(s) && !a.Fork? && !a.Step?
    ensures Recorded(Next(s, a).value)
  {
    Parts(s, a.i);
    if Makes(s.pc[a.i]) { Parts(s, s.pc[a.i].c); }
    KeepRecord(s, Next(s, a).value);
  }

  // Runs.

  type Good = s: OkSys | Recorded(s) ghost witness Sys(0, [Live], [Running], [None], [0], [1], [0], [false], None, 2, map[], [])

  datatype Run = Boot(n: nat) | Then(before: Run, a: Action)

  /** Only init, in slot 0 of n + 1. */
  ghost function Booted(n: nat): Sys
  {
    Sys(0, [Live] + seq(n, _ => Unused), [Running] + seq(n, _ => Off), seq(n + 1, _ => None), seq(n + 1, _ => 0), seq(n + 1, _ => 1),
        seq(n + 1, _ => 0), seq(n + 1, _ => false), None, 2, map[], [])
  }

  lemma BootOk(n: nat)
    ensures Booted(n).Ok() && Recorded(Booted(n))
  {
    var s := Booted(n);
    forall j: nat | j < |s.state| ensures At(s, j) && PidAt(s, j) { }
    Whole(s);
  }

  /** The state after a run; an action that cannot be taken changes nothing. */
  ghost function After(r: Run): Good
  {
    match r
    case Boot(n) => BootOk(n); Booted(n)
    case Then(before, a) =>
      var s := After(before);
      if Can(s, a.i) && Next(s, a).Some? then (NextOk(s, a); NextRecorded(s, a); Next(s, a).value) else s
  }

  /** In every run, every published process but init has a parent that is neither unused nor a zombie. */
  lemma LivingParent(r: Run, i: nat)
    requires i < |After(r).state| && (After(r).state[i] == Live || After(r).state[i] == Zombie) && i != After(r).init
    ensures var s := After(r); s.parent[i].Some? && s.parent[i].value < |s.state| && s.state[s.parent[i].value] == Live
  {
    Parts(After(r), i);
  }

  /** In every run, while wait_lock is free, no process that sleeps in wait, or is about to, has a zombie
      child: none slept through a child's exit. */
  lemma NoMissedExit(r: Run, p: nat, c: nat)
    requires p < |After(r).state| && c < |After(r).state| && After(r).parent[c] == Some(p) && After(r).wl.None?
    requires After(r).asleep[p] || After(r).pc[p].WGo?
    ensures After(r).state[c] != Zombie
  {
    assert After(r).KidAt(p, c);
  }

  /** In every run, no process was reaped twice, and each with the status it exited with. */
  lemma ReapedOnce(r: Run, m: nat, n: nat)
    requires m < |After(r).reaped| && n < |After(r).reaped|
    ensures After(r).reaped[m].pid == After(r).reaped[n].pid <==> m == n
    ensures var s := After(r); s.reaped[m].pid in s.exited && s.exited[s.reaped[m].pid] == s.reaped[m].status
  {
  }

  /** A step that reaps is taken by the parent of a zombie, and records that zombie's pid and status. */
  lemma ReapedByParent(s: Good, a: Action) returns (k: nat)
    requires Can(s, a.i) && Next(s, a).Some? && Next(s, a).value.reaped != s.reaped
    ensures k < |s.state| && s.state[k] == Zombie && s.parent[k] == Some(a.i) && s.pid[k] in s.exited
    ensures Next(s, a).value.reaped == s.reaped + [Reap(s.pid[k], a.i, s.exited[s.pid[k]])]
  {
    assert s.pc[a.i].WScan? && Reaps(s, a.i);
    k := s.pc[a.i].k;
    assert PidAt(s, k);
  }
}
