/** Group commit in kernel/log.c as a step system: begin_op, log_write, end_op and
    commit by any number of concurrent file-system operations, in any order. */
module GroupCommit {
  import opened Crash

  /** `logged` is lh.block[..lh.n]; `active` are the operations between begin_op and end_op
      (log.outstanding counts them); `spent` holds (op, b) when active operation op has
      logged block b; `epoch` counts commits. */
  datatype State = State(logged: seq<nat>, active: set<nat>, spent: set<(nat, nat)>, committing: bool, epoch: nat)

  datatype Action = Begin(op: nat) | Write(op: nat, b: nat) | End(op: nat) | Commit

  const Init := State([], {}, {}, false, 0)

  ghost function Elems(s: seq<nat>): set<nat> { set x | x in s }

  ghost function Of(spent: set<(nat, nat)>, op: nat): set<(nat, nat)> { set p | p in spent && p.0 == op }

  /** The action may happen now; each operation logs at most `k` distinct blocks. */
  ghost predicate Enabled(s: State, a: Action, k: nat)
  {
    match a
    case Begin(op) =>
      op !in s.active && !s.committing && |s.logged| + (|s.active| + 1) * MAXOPBLOCKS <= LOGSIZE
    case Write(op, b) => op in s.active && |Of(s.spent + {(op, b)}, op)| <= k
    case End(op) => op in s.active
    case Commit => s.committing
  }

  /** The "too big a transaction" test of log_write, for a log area of `size` blocks. */
  predicate TooBig(s: State, size: nat) { |s.logged| >= LOGSIZE || |s.logged| >= size - 1 }

  ghost function Apply(s: State, a: Action): State
  {
    match a
    case Begin(op) => s.(active := s.active + {op})
    case Write(op, b) =>
      s.(logged := if b in s.logged then s.logged else s.logged + [b], spent := s.spent + {(op, b)})
    case End(op) =>
      s.(active := s.active - {op}, spent := s.spent - Of(s.spent, op), committing := s.active == {op})
    case Commit => s.(logged := [], committing := false, epoch := s.epoch + 1)
  }

  /** A sequence of actions, last one outermost. */
  datatype Run = Start | Then(before: Run, last: Action)

  datatype Outcome = Runs(s: State) | Panics | Stuck

  /** What a sequence of actions leads to from an empty log. */
  ghost function Exec(run: Run, k: nat, size: nat): Outcome
  {
    match run
    case Start => Runs(Init)
    case Then(before, a) =>
      match Exec(before, k, size)
      case Runs(s) =>
        if !Enabled(s, a, k) then Stuck else if a.Write? && TooBig(s, size) then Panics else Runs(Apply(s, a))
      case o => o
  }

  /** What every run keeps: logged blocks are distinct; the log is committed only when no
      operation is active; every block an active operation logged is in the log; and the log
      plus what active operations may still add stays below one bound. */
  ghost predicate Inv(s: State, k: nat)
  {
    && |Elems(s.logged)| == |s.logged|
    && (s.committing ==> s.active == {})
    && (s.active == {} && !s.committing ==> s.logged == [])
    && (forall p :: p in s.spent ==> p.0 in s.active && p.1 in s.logged)
    && (forall op :: op in s.active ==> |Of(s.spent, op)| <= k)
    && |s.logged| + k * |s.active| - |s.spent| <= MAXOPBLOCKS + 2 * k
  }

  /** What runs with the full reservation keep. */
  ghost predicate Reserved(s: State) { forall k: nat :: k == MAXOPBLOCKS ==> Inv(s, k) }

  /** The states that such runs can reach. */
  type Kept = s: State | Reserved(s) ghost witness Init

  lemma {:induction false} Shorter(s: seq<nat>)
    ensures |Elems(s)| <= |s|
  {
    if s != [] {
      Shorter(s[..|s| - 1]);
      assert Elems(s) == Elems(s[..|s| - 1]) + {s[|s| - 1]};
    } else {
      assert Elems(s) == {};
    }
  }

  /** As many elements as positions: no block number is logged twice. */
  lemma {:induction false} Distinct(s: seq<nat>, i: nat, j: nat)
    requires |Elems(s)| == |s| && i < j < |s|
    ensures s[i] != s[j]
  {
    var t, x := s[..|s| - 1], s[|s| - 1];
    assert Elems(s) == Elems(t) + {x};
    Shorter(t);
    if j == |s| - 1 {
      assert s[i] == t[i];
    } else {
      Distinct(t, i, j);
    }
  }

  lemma Split(spent: set<(nat, nat)>, op: nat)
    ensures |spent| == |Of(spent, op)| + |spent - Of(spent, op)|
    ensures forall o :: o != op ==> Of(spent - Of(spent, op), o) == Of(spent, o)
  {
    assert spent == Of(spent, op) + (spent - Of(spent, op));
  }

  lemma Without(k: nat, active: set<nat>, op: nat)
    requires op in active
    ensures k * |active| == k * |active - {op}| + k
  {
    assert active == (active - {op}) + {op};
    assert |active| == |active - {op}| + 1;
  }

  lemma {:induction false} SpentBound(spent: set<(nat, nat)>, active: set<nat>, k: nat)
    requires forall p :: p in spent ==> p.0 in active
    requires forall op :: op in active ==> |Of(spent, op)| <= k
    ensures |spent| <= k * |active|
    decreases active
  {
    if active == {} {
      assert spent == {};
    } else {
      var op :| op in active;
      Split(spent, op);
      Without(k, active, op);
      SpentBound(spent - Of(spent, op), active - {op}, k);
    }
  }

  lemma BeginKeeps(s: State, op: nat, k: nat)
    requires Inv(s, k) && Enabled(s, Begin(op), k) && k <= MAXOPBLOCKS
    ensures Inv(Apply(s, Begin(op)), k)
  {
    var t := Apply(s, Begin(op));
    assert Of(s.spent, op) == {};
    assert |t.active| == |s.active| + 1;
    SpentBound(s.spent, s.active, k);
    if |s.active| == 1 {
      assert k * 2 == 2 * k;
    } else if |s.active| == 2 {
      assert k * 3 == 3 * k;
    }
  }

  lemma WriteKeeps(s: State, op: nat, b: nat, k: nat)
    requires Inv(s, k) && Enabled(s, Write(op, b), k)
    ensures Inv(Apply(s, Write(op, b)), k)
  {
    var t := Apply(s, Write(op, b));
    forall o | o in s.active && o != op ensures |Of(t.spent, o)| <= k { assert Of(t.spent, o) == Of(s.spent, o); }
    if (op, b) in s.spent { assert t.spent == s.spent; }
    assert b !in s.logged ==> Elems(t.logged) == Elems(s.logged) + {b};
  }

  lemma EndKeeps(s: State, op: nat, k: nat)
    requires Inv(s, k) && Enabled(s, End(op), k)
    ensures Inv(Apply(s, End(op)), k)
  {
    var t := Apply(s, End(op));
    Split(s.spent, op);
    Without(k, s.active, op);
    assert t.active == {} <==> s.active == {op};
  }

  lemma CommitKeeps(s: State, k: nat)
    requires Inv(s, k) && s.committing
    ensures Inv(Apply(s, Commit), k)
  {
    assert s.spent == {};
  }

  lemma {:induction false} RunsKeep(run: Run, k: nat, size: nat)
    requires Exec(run, k, size).Runs? && k <= MAXOPBLOCKS
    ensures Inv(Exec(run, k, size).s, k)
  {
    match run
    case Start =>
    case Then(before, a) =>
      var s := Exec(before, k, size).s;
      RunsKeep(before, k, size);
      match a
      case Begin(op) => BeginKeeps(s, op, k);
      case Write(op, b) => WriteKeeps(s, op, b, k);
      case End(op) => EndKeeps(s, op, k);
      case Commit => CommitKeeps(s, k);
  }

  /** `run` continues `from`, and operation `op` is active at every state in between. */
  ghost predicate ActiveSince(run: Run, from: Run, op: nat, k: nat, size: nat)
  {
    && Exec(run, k, size).Runs? && op in Exec(run, k, size).s.active
    && (run == from || (run.Then? && ActiveSince(run.before, from, op, k, size)))
  }

  /** While an operation is active no commit happens and the log only grows: everything it logs
      is committed together. */
  lemma {:induction false} OneTransaction(run: Run, from: Run, op: nat, k: nat, size: nat)
    requires k <= MAXOPBLOCKS && ActiveSince(run, from, op, k, size)
    ensures Exec(from, k, size).Runs? && Exec(run, k, size).s.epoch == Exec(from, k, size).s.epoch
    ensures Exec(from, k, size).s.logged <= Exec(run, k, size).s.logged
  {
    if run != from {
      OneTransaction(run.before, from, op, k, size);
      RunsKeep(run.before, k, size);
    }
  }

  /** With the full reservation of MAXOPBLOCKS each, the log and what active operations may still
      add fit in LOGSIZE; end_op never finds a commit in progress; and logging a block the
      operation has not logged before never panics when the log area exceeds LOGSIZE blocks. */
  lemma ReservationsHold(run: Run, op: nat, b: nat, size: nat)
    requires Exec(run, MAXOPBLOCKS, size).Runs?
    ensures var s := Exec(run, MAXOPBLOCKS, size).s;
      && |s.logged| + MAXOPBLOCKS * |s.active| - |s.spent| <= LOGSIZE
      && (Enabled(s, End(op), MAXOPBLOCKS) ==> !s.committing)
      && (Enabled(s, Write(op, b), MAXOPBLOCKS) && (op, b) !in s.spent && size > LOGSIZE ==> !TooBig(s, size))
  {
    RunsKeep(run, MAXOPBLOCKS, size);
    var s := Exec(run, MAXOPBLOCKS, size).s;
    if Enabled(s, Write(op, b), MAXOPBLOCKS) && (op, b) !in s.spent {
      WriteKeeps(s, op, b, MAXOPBLOCKS);
      var t := Apply(s, Write(op, b));
      SpentBound(t.spent, t.active, MAXOPBLOCKS);
      assert |t.spent| == |s.spent| + 1;
    }
  }

  /** The smallest log length at which log_write panics. */
  function Cap(size: nat): int { if LOGSIZE < size - 1 then LOGSIZE else size - 1 }

  /** No run of operations that log at most `k` blocks each reaches the panic if the log can
      hold what two operations, and one operation's reservation, may add. */
  lemma {:induction false} NeverTooBig(run: Run, k: nat, size: nat)
    requires k <= MAXOPBLOCKS && 2 * k + MAXOPBLOCKS < Cap(size)
    ensures !Exec(run, k, size).Panics?
  {
    if run.Then? {
      NeverTooBig(run.before, k, size);
      if Exec(run.before, k, size).Runs? {
        var s := Exec(run.before, k, size).s;
        RunsKeep(run.before, k, size);
        SpentBound(s.spent, s.active, k);
      }
    }
  }

  // The run that fills the log: operation 0 stays active while operations 1, 2, ... each log one
  // block and end, until one operation's reservation is used up; then operations 11 and 0 log
  // their k blocks each.

  ghost function Blocks(m: nat): seq<nat> { seq(m, i => i) }

  ghost function Pairs(op: nat, lo: nat, hi: nat): set<(nat, nat)> { set b | lo <= b < hi :: (op, b) }

  ghost function Filling(m: nat, k: nat): State
  {
    if m < MAXOPBLOCKS then State(Blocks(m), {0, m + 1}, {}, false, 0)
    else if m <= MAXOPBLOCKS + k then State(Blocks(m), {0, 11}, Pairs(11, 10, m), false, 0)
    else State(Blocks(m), {0, 11}, Pairs(11, 10, 10 + k) + Pairs(0, 10 + k, m), false, 0)
  }

  /** The operation that logs block `m` in the filling run. */
  function Writer(m: nat, k: nat): nat
  {
    if m < MAXOPBLOCKS then m + 1 else if m < MAXOPBLOCKS + k then 11 else 0
  }

  lemma {:induction false} PairsCard(op: nat, lo: nat, hi: nat)
    requires lo <= hi
    ensures |Pairs(op, lo, hi)| == hi - lo
  {
    if lo < hi {
      assert Pairs(op, lo, hi) == Pairs(op, lo, hi - 1) + {(op, hi - 1)};
      PairsCard(op, lo, hi - 1);
    }
  }

  /** At every point of the filling run the next writer has budget left for its block. */
  lemma WriterHasBudget(m: nat, k: nat)
    requires 1 <= k <= MAXOPBLOCKS && m < MAXOPBLOCKS + 2 * k
    ensures Enabled(Filling(m, k), Write(Writer(m, k), m), k)
  {
    var s, w := Filling(m, k), Writer(m, k);
    if m < MAXOPBLOCKS {
      assert Of(s.spent + {(w, m)}, w) == {(w, m)};
    } else if m < MAXOPBLOCKS + k {
      assert Of(s.spent + {(w, m)}, w) == Pairs(11, 10, m + 1);
      PairsCard(11, 10, m + 1);
    } else {
      assert Of(s.spent + {(w, m)}, w) == Pairs(0, 10 + k, m + 1);
      PairsCard(0, 10 + k, m + 1);
    }
  }

  /** The state the next write of the filling run leads to. */
  lemma WriteFills(m: nat, k: nat)
    requires 1 <= k <= MAXOPBLOCKS && m < MAXOPBLOCKS + 2 * k
    ensures Apply(Filling(m, k), Write(Writer(m, k), m)) ==
      if m < MAXOPBLOCKS then State(Blocks(m + 1), {0, m + 1}, {(m + 1, m)}, false, 0) else Filling(m + 1, k)
  {
    assert Blocks(m) + [m] == Blocks(m + 1);
    if m < MAXOPBLOCKS {
      assert {} + {(m + 1, m)} == {(m + 1, m)};
    } else if m < MAXOPBLOCKS + k {
      assert Pairs(11, 10, m) + {(11, m)} == Pairs(11, 10, m + 1);
    } else {
      assert Pairs(0, 10 + k, m) + {(0, m)} == Pairs(0, 10 + k, m + 1);
      assert m == MAXOPBLOCKS + k ==> Pairs(0, 10 + k, m) == {};
    }
  }

  lemma FillStart(k: nat, size: nat)
    ensures Exec(Then(Then(Start, Begin(0)), Begin(1)), k, size) == Runs(Filling(0, k))
  {
    assert Exec(Then(Start, Begin(0)), k, size) == Runs(Apply(Init, Begin(0)));
    assert Init.active + {0} + {1} == {0, 1} && Blocks(0) == [];
  }

  lemma EndSmall(m: nat)
    requires m >= 1
    ensures Apply(State(Blocks(m), {0, m}, {(m, m - 1)}, false, 0), End(m)) == State(Blocks(m), {0}, {}, false, 0)
  {
    assert {0, m} - {m} == {0} && {0, m} != {m};
    assert Of({(m, m - 1)}, m) == {(m, m - 1)};
  }

  lemma BeginNext(m: nat, k: nat)
    requires m <= MAXOPBLOCKS
    ensures Enabled(State(Blocks(m), {0}, {}, false, 0), Begin(m + 1), k)
    ensures Apply(State(Blocks(m), {0}, {}, false, 0), Begin(m + 1)) == Filling(m, k)
  {
    assert {0} + {m + 1} == {0, m + 1};
    assert Pairs(11, 10, 10) == {};
  }

  /** Once operation m has logged block m - 1, it ends and operation m + 1 begins. */
  lemma SmallOp(run: Run, m: nat, k: nat, size: nat)
    requires 1 <= k <= MAXOPBLOCKS && 1 <= m <= MAXOPBLOCKS
    requires Exec(run, k, size) == Runs(State(Blocks(m), {0, m}, {(m, m - 1)}, false, 0))
    ensures Exec(Then(Then(run, End(m)), Begin(m + 1)), k, size) == Runs(Filling(m, k))
  {
    EndSmall(m);
    BeginNext(m, k);
  }

  lemma FillStep(run: Run, m: nat, k: nat, size: nat) returns (more: Run)
    requires 1 <= k <= MAXOPBLOCKS && m < MAXOPBLOCKS + 2 * k && m < Cap(size)
    requires Exec(run, k, size) == Runs(Filling(m, k))
    ensures Exec(more, k, size) == Runs(Filling(m + 1, k))
  {
    WriterHasBudget(m, k);
    more := Then(run, Write(Writer(m, k), m));
    WriteFills(m, k);
    if m < MAXOPBLOCKS {
      SmallOp(more, m + 1, k, size);
      more := Then(Then(more, End(m + 1)), Begin(m + 2));
    }
  }

  lemma {:induction false} FillRuns(m: nat, k: nat, size: nat) returns (run: Run)
    requires 1 <= k <= MAXOPBLOCKS && m <= MAXOPBLOCKS + 2 * k && m <= Cap(size)
    ensures Exec(run, k, size) == Runs(Filling(m, k))
  {
    if m == 0 {
      FillStart(k, size);
      run := Then(Then(Start, Begin(0)), Begin(1));
    } else {
      run := FillRuns(m - 1, k, size);
      run := FillStep(run, m - 1, k, size);
    }
  }

  /** Some operation may still log a block; when every budget is spent, a block it logged before. */
  lemma NextWrite(m: nat, k: nat) returns (a: Action)
    requires 1 <= k <= MAXOPBLOCKS && m <= MAXOPBLOCKS + 2 * k
    ensures a.Write? && Enabled(Filling(m, k), a, k)
  {
    if m < MAXOPBLOCKS + 2 * k {
      WriterHasBudget(m, k);
      a := Write(Writer(m, k), m);
    } else {
      LastAgain(m, k);
      a := Write(0, m - 1);
    }
  }

  lemma LastAgain(m: nat, k: nat)
    requires 1 <= k <= MAXOPBLOCKS && m == MAXOPBLOCKS + 2 * k
    ensures Enabled(Filling(m, k), Write(0, m - 1), k)
  {
    Again(Filling(m, k), 10 + k, m);
  }

  lemma Again(s: State, lo: nat, hi: nat)
    requires 10 <= lo < hi && 0 in s.active && s.spent == Pairs(11, 10, lo) + Pairs(0, lo, hi)
    ensures Enabled(s, Write(0, hi - 1), hi - lo)
  {
    OwnPairs(lo, hi);
    PairsCard(0, lo, hi);
  }

  lemma OwnPairs(lo: nat, hi: nat)
    requires 10 <= lo < hi
    ensures Of(Pairs(11, 10, lo) + Pairs(0, lo, hi) + {(0, hi - 1)}, 0) == Pairs(0, lo, hi)
  {
    var s, t := Pairs(11, 10, lo) + Pairs(0, lo, hi) + {(0, hi - 1)}, Pairs(0, lo, hi);
    forall p ensures p in Of(s, 0) <==> p in t { }
  }

  /** When the log is full, even logging a block again panics. */
  lemma FullPanics(k: nat, size: nat) returns (run: Run)
    requires 1 <= k <= MAXOPBLOCKS && 0 <= Cap(size) <= 2 * k + MAXOPBLOCKS
    ensures Exec(run, k, size).Panics?
  {
    var before := FillRuns(Cap(size), k, size);
    var a := NextWrite(Cap(size), k);
    run := Then(before, a);
  }

  /** The panic is reachable exactly when two operations' blocks and one reservation fill the log. */
  lemma TooBigIff(k: nat, size: nat)
    requires 1 <= k <= MAXOPBLOCKS && size > 0
    ensures (exists run :: Exec(run, k, size).Panics?) <==> 2 * k + MAXOPBLOCKS >= Cap(size)
  {
    if 2 * k + MAXOPBLOCKS < Cap(size) {
      forall run ensures !Exec(run, k, size).Panics? { NeverTooBig(run, k, size); }
    } else {
      var run := FullPanics(k, size);
    }
  }
}
