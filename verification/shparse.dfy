/** The grammar of user/sh.c on tokens: what parseline, parsepipe, parseexec, parseredirs and parseblock
    make of a list of tokens, and how to write any command so that they give it back. */
module ShParse {

  const MAXARGS := 10

  /** A word, or the symbol gettoken returns: one of |&;()<> or + for >>. */
  datatype Tok<+W> = Word(w: W) | Sym(c: char)

  datatype Cmd<+W> =
    | Exec(argv: seq<W>)
    | Redir(cmd: Cmd<W>, file: W, op: char)
    | Pipe(left: Cmd<W>, right: Cmd<W>)
    | List(left: Cmd<W>, right: Cmd<W>)
    | Back(cmd: Cmd<W>)

  /** A command and the tokens after it, or the panic of a syntax error. */
  datatype Parse<+W> = Panic | Done(cmd: Cmd<W>, rest: seq<Tok<W>>)

  predicate Starts<W>(ts: seq<Tok<W>>, c: char) { ts != [] && ts[0].Sym? && ts[0].c == c }

  predicate StartsOp<W>(ts: seq<Tok<W>>) { Starts(ts, '<') || Starts(ts, '>') || Starts(ts, '+') }

  /** parseredirs: redirections of `cmd` at the front of the tokens. */
  function Redirs<W>(cmd: Cmd<W>, ts: seq<Tok<W>>): (p: Parse<W>)
    ensures p.Done? ==> |p.rest| <= |ts|
    decreases |ts|
  {
    if !StartsOp(ts) then Done(cmd, ts)
    else if |ts| < 2 || !ts[1].Word? then Panic
    else Redirs(Redir(cmd, ts[1].w, ts[0].c), ts[2..])
  }

  /** The command with one more argument: parseexec keeps adding to the execcmd under the redirections. */
  function AddArg<W>(cmd: Cmd<W>, w: W): Cmd<W>
  {
    match cmd
    case Exec(argv) => Exec(argv + [w])
    case Redir(c, f, op) => Redir(AddArg(c, w), f, op)
    case _ => cmd
  }

  predicate StopsExec<W>(ts: seq<Tok<W>>) { ts == [] || Starts(ts, '|') || Starts(ts, ')') || Starts(ts, '&') || Starts(ts, ';') }

  /** parseexec's loop, with `n` arguments so far. */
  function Args<W>(cmd: Cmd<W>, n: nat, ts: seq<Tok<W>>): (p: Parse<W>)
    ensures p.Done? ==> |p.rest| <= |ts|
    decreases |ts|
  {
    if StopsExec(ts) then Done(cmd, ts)
    else if !ts[0].Word? || n + 1 >= MAXARGS then Panic
    else
      var p := Redirs(AddArg(cmd, ts[0].w), ts[1..]);
      if p.Panic? then Panic else Args(p.cmd, n + 1, p.rest)
  }

  /** parseexec, with parseblock for what begins with a parenthesis. */
  function ParseExec<W>(ts: seq<Tok<W>>): (p: Parse<W>)
    ensures p.Done? ==> |p.rest| <= |ts|
    decreases |ts|, 0
  {
    if Starts(ts, '(') then
      var p := ParseLine(ts[1..]);
      if p.Panic? || !Starts(p.rest, ')') then Panic else Redirs(p.cmd, p.rest[1..])
    else
      var p := Redirs(Exec([]), ts);
      if p.Panic? then Panic else Args(p.cmd, 0, p.rest)
  }

  function ParsePipe<W>(ts: seq<Tok<W>>): (p: Parse<W>)
    ensures p.Done? ==> |p.rest| <= |ts|
    decreases |ts|, 1
  {
    var p := ParseExec(ts);
    if p.Panic? then Panic
    else if Starts(p.rest, '|') then
      var q := ParsePipe(p.rest[1..]);
      if q.Panic? then Panic else Done(Pipe(p.cmd, q.cmd), q.rest)
    else p
  }

  /** parseline's loop over '&'. */
  function Backs<W>(cmd: Cmd<W>, ts: seq<Tok<W>>): (p: Parse<W>)
    ensures p.Done? && |p.rest| <= |ts|
    decreases |ts|
  {
    if Starts(ts, '&') then Backs(Back(cmd), ts[1..]) else Done(cmd, ts)
  }

  function ParseLine<W>(ts: seq<Tok<W>>): (p: Parse<W>)
    ensures p.Done? ==> |p.rest| <= |ts|
    decreases |ts|, 2
  {
    var p := ParsePipe(ts);
    if p.Panic? then Panic
    else
      var b := Backs(p.cmd, p.rest);
      if Starts(b.rest, ';') then
        var q := ParseLine(b.rest[1..]);
        if q.Panic? then Panic else Done(List(b.cmd, q.cmd), q.rest)
      else b
  }

  // Writing a command down.

  function Words<W>(argv: seq<W>): seq<Tok<W>> { if argv == [] then [] else [Word(argv[0])] + Words(argv[1..]) }

  /** What is under the redirections. */
  function Core<W>(c: Cmd<W>): Cmd<W> { if c.Redir? then Core(c.cmd) else c }

  function Ops<W>(c: Cmd<W>): seq<Tok<W>> { if c.Redir? then Ops(c.cmd) + [Sym(c.op), Word(c.file)] else [] }

  function Size<W>(c: Cmd<W>): nat
  {
    match c
    case Exec(_) => 1
    case Redir(d, _, _) => 1 + Size(d)
    case Pipe(l, r) => 1 + Size(l) + Size(r)
    case List(l, r) => 1 + Size(l) + Size(r)
    case Back(d) => 1 + Size(d)
  }

  lemma {:induction false} CoreSmaller<W>(c: Cmd<W>)
    ensures !Core(c).Redir? && if c.Redir? then Size(Core(c)) < Size(c) else Core(c) == c
    decreases c
  {
    if c.Redir? { CoreSmaller(c.cmd); }
  }

  /** The command where the grammar wants an exec: in parentheses unless it is one. */
  function ShowExec<W>(c: Cmd<W>): seq<Tok<W>>
    decreases Size(c), if c.Exec? || c.Redir? then 0 else 4
  {
    CoreSmaller(c);
    if Core(c).Exec? then Words(Core(c).argv) + Ops(c) else [Sym('(')] + ShowLine(Core(c)) + [Sym(')')] + Ops(c)
  }

  function ShowPipe<W>(c: Cmd<W>): seq<Tok<W>>
    decreases Size(c), if c.List? || c.Back? then 5 else 1
  {
    if c.Pipe? then ShowExec(c.left) + [Sym('|')] + ShowPipe(c.right) else ShowExec(c)
  }

  function ShowBacks<W>(c: Cmd<W>): seq<Tok<W>>
    decreases Size(c), if c.List? then 6 else 2
  {
    if c.Back? then ShowBacks(c.cmd) + [Sym('&')] else ShowPipe(c)
  }

  function ShowLine<W>(c: Cmd<W>): seq<Tok<W>>
    decreases Size(c), 3
  {
    if c.List? then ShowBacks(c.left) + [Sym(';')] + ShowLine(c.right) else ShowBacks(c)
  }

  // Reading it back.

  /** Fewer than MAXARGS words in every simple command, and < > >> for redirections. */
  predicate Legal<W>(c: Cmd<W>)
  {
    match c
    case Exec(argv) => |argv| < MAXARGS
    case Redir(d, _, op) => Legal(d) && (op == '<' || op == '>' || op == '+')
    case Pipe(l, r) => Legal(l) && Legal(r)
    case List(l, r) => Legal(l) && Legal(r)
    case Back(d) => Legal(d)
  }

  predicate StopsPipe<W>(ts: seq<Tok<W>>) { ts == [] || Starts(ts, ')') || Starts(ts, '&') || Starts(ts, ';') }

  predicate StopsLine<W>(ts: seq<Tok<W>>) { ts == [] || Starts(ts, ')') }

  /** Redirections are read in the order written. */
  lemma {:induction false} ReadOps<W>(c: Cmd<W>, rest: seq<Tok<W>>)
    requires Legal(c) && !StartsOp(rest)
    ensures Redirs(Core(c), Ops(c) + rest) == Done(c, rest)
  {
    ReadOpsInto(c, rest);
  }

  lemma {:induction false} ReadOpsInto<W>(c: Cmd<W>, rest: seq<Tok<W>>)
    requires Legal(c)
    ensures Redirs(Core(c), Ops(c) + rest) == Redirs(c, rest)
    decreases c
  {
    if c.Redir? {
      var more := [Sym(c.op), Word(c.file)] + rest;
      ReadOpsInto(c.cmd, more);
      assert Ops(c) + rest == Ops(c.cmd) + more;
      assert more[2..] == rest;
    } else {
      assert Ops(c) + rest == rest;
    }
  }

  /** parseexec's loop after the last of the arguments `have`. */
  function AfterWord<W>(have: seq<W>, ts: seq<Tok<W>>): Parse<W>
  {
    var p := Redirs(Exec(have), ts);
    if p.Panic? then Panic else Args(p.cmd, |have|, p.rest)
  }

  lemma OneWord<W>(have: seq<W>, w: W, ts: seq<Tok<W>>)
    requires |have| + 1 < MAXARGS
    ensures Args(Exec(have), |have|, [Word(w)] + ts) == AfterWord(have + [w], ts)
  {
    assert ([Word(w)] + ts)[1..] == ts;
  }

  lemma MoreWords<W>(have: seq<W>, ts: seq<Tok<W>>)
    requires ts != [] && ts[0].Word?
    ensures AfterWord(have, ts) == Args(Exec(have), |have|, ts)
  {
  }

  lemma WordsHead<W>(argv: seq<W>, rest: seq<Tok<W>>)
    requires argv != []
    ensures Words(argv) + rest == [Word(argv[0])] + (Words(argv[1..]) + rest)
    ensures |argv| > 1 ==> Words(argv[1..]) != [] && Words(argv[1..])[0].Word?
    ensures |argv| == 1 ==> argv[1..] == [] && Words(argv[1..]) + rest == rest
  {
  }

  /** Words are read into the argument list. */
  lemma {:induction false} ReadWords<W>(have: seq<W>, argv: seq<W>, rest: seq<Tok<W>>)
    requires |have| + |argv| < MAXARGS && argv != []
    ensures Args(Exec(have), |have|, Words(argv) + rest) == AfterWord(have + argv, rest)
    decreases |argv|
  {
    var more, ts := have + [argv[0]], Words(argv[1..]) + rest;
    WordsHead(argv, rest);
    OneWord(have, argv[0], ts);
    assert have + argv == more + argv[1..];
    if |argv| > 1 {
      MoreWords(more, ts);
      ReadWords(more, argv[1..], rest);
    } else {
      assert have + argv == more;
    }
  }

  lemma ReadBare<W>(c: Cmd<W>, rest: seq<Tok<W>>)
    requires Legal(c) && Core(c) == Exec([]) && StopsExec(rest)
    ensures ParseExec(Ops(c) + rest) == Done(c, rest)
  {
    ReadOps(c, rest);
    OpsStart(c, rest);
  }

  lemma ReadCommand<W>(c: Cmd<W>, argv: seq<W>, rest: seq<Tok<W>>)
    requires Legal(c) && Core(c) == Exec(argv) && argv != [] && |argv| < MAXARGS && StopsExec(rest)
    ensures ParseExec(Words(argv) + (Ops(c) + rest)) == Done(c, rest)
  {
    var ts := Words(argv) + (Ops(c) + rest);
    WordsHead(argv, Ops(c) + rest);
    ReadWords([], argv, Ops(c) + rest);
    assert [] + argv == argv;
    ReadOps(c, rest);
    ReadFrom(ts, argv, Ops(c) + rest, c, rest);
  }

  lemma ReadFrom<W>(ts: seq<Tok<W>>, argv: seq<W>, after: seq<Tok<W>>, c: Cmd<W>, rest: seq<Tok<W>>)
    requires ts != [] && ts[0].Word? && Args(Exec([]), 0, ts) == AfterWord(argv, after)
    requires Redirs(Exec(argv), after) == Done(c, rest) && StopsExec(rest)
    ensures ParseExec(ts) == Done(c, rest)
  {
    FirstWord(ts);
    LastRead(c, argv, after, rest);
  }

  lemma FirstWord<W>(ts: seq<Tok<W>>)
    requires ts != [] && ts[0].Word?
    ensures ParseExec(ts) == Args(Exec([]), 0, ts)
  {
  }

  lemma LastRead<W>(c: Cmd<W>, argv: seq<W>, ts: seq<Tok<W>>, rest: seq<Tok<W>>)
    requires Redirs(Exec(argv), ts) == Done(c, rest) && StopsExec(rest)
    ensures AfterWord(argv, ts) == Done(c, rest)
  {
  }

  lemma ReadSimple<W>(c: Cmd<W>, rest: seq<Tok<W>>)
    requires Legal(c) && Core(c).Exec? && StopsExec(rest)
    ensures ParseExec(ShowExec(c) + rest) == Done(c, rest)
  {
    var argv := Core(c).argv;
    CoreLegal(c);
    assert ShowExec(c) + rest == Words(argv) + (Ops(c) + rest);
    if argv == [] {
      assert Words(argv) + (Ops(c) + rest) == Ops(c) + rest;
      ReadBare(c, rest);
    } else {
      ReadCommand(c, argv, rest);
    }
  }

  lemma BlockShown<W>(c: Cmd<W>, rest: seq<Tok<W>>)
    requires !Core(c).Exec?
    ensures ShowExec(c) + rest == [Sym('(')] + (ShowLine(Core(c)) + ([Sym(')')] + (Ops(c) + rest)))
  {
    var inside, ops := ShowLine(Core(c)), Ops(c);
    assert ShowExec(c) == [Sym('(')] + inside + [Sym(')')] + ops;
    Regroup([Sym('(')], inside, [Sym(')')], ops, rest);
  }

  lemma Regroup<T>(a: seq<T>, b: seq<T>, c: seq<T>, d: seq<T>, e: seq<T>)
    ensures a + b + c + d + e == a + (b + (c + (d + e)))
  {
  }

  lemma ReadBlock<W>(c: Cmd<W>, inside: seq<Tok<W>>, rest: seq<Tok<W>>)
    requires Legal(c) && StopsExec(rest)
    requires ParseLine(inside + ([Sym(')')] + (Ops(c) + rest))) == Done(Core(c), [Sym(')')] + (Ops(c) + rest))
    ensures ParseExec([Sym('(')] + (inside + ([Sym(')')] + (Ops(c) + rest)))) == Done(c, rest)
  {
    var after := [Sym(')')] + (Ops(c) + rest);
    var ts := [Sym('(')] + (inside + after);
    assert ts[1..] == inside + after && after[1..] == Ops(c) + rest;
    ReadOps(c, rest);
  }

  lemma {:induction false} CoreLegal<W>(c: Cmd<W>)
    requires Legal(c)
    ensures Legal(Core(c))
    decreases c
  {
    if c.Redir? { CoreLegal(c.cmd); }
  }

  lemma {:induction false} OpsStart<W>(c: Cmd<W>, rest: seq<Tok<W>>)
    requires Legal(c)
    ensures if c.Redir? then StartsOp(Ops(c) + rest) else Ops(c) + rest == rest
    decreases c
  {
    if c.Redir? {
      OpsStart(c.cmd, [Sym(c.op), Word(c.file)] + rest);
      assert Ops(c) + rest == Ops(c.cmd) + ([Sym(c.op), Word(c.file)] + rest);
    }
  }

  lemma {:induction false} ReadExec<W>(c: Cmd<W>, rest: seq<Tok<W>>)
    requires Legal(c) && StopsExec(rest)
    ensures ParseExec(ShowExec(c) + rest) == Done(c, rest)
    decreases Size(c), if c.Exec? || c.Redir? then 0 else 4
  {
    CoreSmaller(c);
    if Core(c).Exec? {
      ReadSimple(c, rest);
    } else {
      var after := [Sym(')')] + (Ops(c) + rest);
      CoreLegal(c);
      ReadLine(Core(c), after);
      ReadBlock(c, ShowLine(Core(c)), rest);
      BlockShown(c, rest);
    }
  }

  lemma {:induction false} ReadPipe<W>(c: Cmd<W>, rest: seq<Tok<W>>)
    requires Legal(c) && StopsPipe(rest)
    ensures ParsePipe(ShowPipe(c) + rest) == Done(c, rest)
    decreases Size(c), if c.List? || c.Back? then 5 else 1
  {
    if c.Pipe? {
      var after := [Sym('|')] + (ShowPipe(c.right) + rest);
      ReadExec(c.left, after);
      ReadPipe(c.right, rest);
      PipeShown(ShowExec(c.left), ShowPipe(c.right), rest);
      PipeJoins(ShowPipe(c) + rest, c.left, after, c.right, rest);
    } else {
      ReadExec(c, rest);
      PipeEnds(ShowPipe(c) + rest, c, rest);
    }
  }

  lemma PipeShown<W>(l: seq<Tok<W>>, r: seq<Tok<W>>, rest: seq<Tok<W>>)
    ensures l + [Sym('|')] + r + rest == l + ([Sym('|')] + (r + rest)) && ([Sym('|')] + (r + rest))[1..] == r + rest
  {
  }

  lemma PipeEnds<W>(ts: seq<Tok<W>>, c: Cmd<W>, rest: seq<Tok<W>>)
    requires ParseExec(ts) == Done(c, rest) && !Starts(rest, '|')
    ensures ParsePipe(ts) == Done(c, rest)
  {
  }

  /** A pipeline goes on after the bar. */
  lemma PipeJoins<W>(ts: seq<Tok<W>>, left: Cmd<W>, after: seq<Tok<W>>, right: Cmd<W>, rest: seq<Tok<W>>)
    requires ParseExec(ts) == Done(left, after) && Starts(after, '|') && ParsePipe(after[1..]) == Done(right, rest)
    ensures ParsePipe(ts) == Done(Pipe(left, right), rest)
  {
  }

  /** A pipeline and the '&'s after it. */
  function ParseBacks<W>(ts: seq<Tok<W>>): Parse<W>
  {
    var p := ParsePipe(ts);
    if p.Panic? then Panic else Backs(p.cmd, p.rest)
  }

  lemma {:induction false} ReadBacks<W>(c: Cmd<W>, rest: seq<Tok<W>>)
    requires Legal(c) && StopsPipe(rest)
    ensures ParseBacks(ShowBacks(c) + rest) == Backs(c, rest)
    decreases Size(c), if c.List? then 6 else 2
  {
    if c.Back? {
      var after := [Sym('&')] + rest;
      ReadBacks(c.cmd, after);
      assert ShowBacks(c) + rest == ShowBacks(c.cmd) + after && after[1..] == rest;
    } else {
      ReadPipe(c, rest);
    }
  }

  lemma {:induction false} ReadLine<W>(c: Cmd<W>, rest: seq<Tok<W>>)
    requires Legal(c) && StopsLine(rest)
    ensures ParseLine(ShowLine(c) + rest) == Done(c, rest)
    decreases Size(c), 3
  {
    if c.List? {
      var after := [Sym(';')] + (ShowLine(c.right) + rest);
      ReadBacks(c.left, after);
      ReadLine(c.right, rest);
      assert ShowLine(c) + rest == ShowBacks(c.left) + after && after[1..] == ShowLine(c.right) + rest;
      assert ParseBacks(ShowLine(c) + rest) == Done(c.left, after);
    } else {
      ReadBacks(c, rest);
      assert ParseBacks(ShowLine(c) + rest) == Done(c, rest);
    }
  }

  /** Round trip: any command, written down, is read back as itself, with nothing left over. */
  lemma ParseShow<W>(c: Cmd<W>)
    requires Legal(c)
    ensures ParseLine(ShowLine(c)) == Done(c, [])
  {
    ReadLine(c, []);
    assert ShowLine(c) + [] == ShowLine(c);
  }

  // The parser does not look into words.

  function MapTok<W, V>(f: W -> V, t: Tok<W>): Tok<V> { if t.Word? then Word(f(t.w)) else Sym(t.c) }

  function MapToks<W, V>(f: W -> V, ts: seq<Tok<W>>): seq<Tok<V>> { seq(|ts|, i requires 0 <= i < |ts| => MapTok(f, ts[i])) }

  function MapSeq<W, V>(f: W -> V, ws: seq<W>): seq<V> { if ws == [] then [] else MapSeq(f, ws[..|ws| - 1]) + [f(ws[|ws| - 1])] }

  function MapCmd<W, V>(f: W -> V, c: Cmd<W>): Cmd<V>
  {
    match c
    case Exec(argv) => Exec(MapSeq(f, argv))
    case Redir(d, w, op) => Redir(MapCmd(f, d), f(w), op)
    case Pipe(l, r) => Pipe(MapCmd(f, l), MapCmd(f, r))
    case List(l, r) => List(MapCmd(f, l), MapCmd(f, r))
    case Back(d) => Back(MapCmd(f, d))
  }

  function MapParse<W, V>(f: W -> V, p: Parse<W>): Parse<V>
  {
    if p.Panic? then Panic else Done(MapCmd(f, p.cmd), MapToks(f, p.rest))
  }

  lemma MapTail<W, V>(f: W -> V, ts: seq<Tok<W>>, k: nat)
    requires k <= |ts|
    ensures MapToks(f, ts)[k..] == MapToks(f, ts[k..])
  {
  }

  lemma {:induction false} MapAddArg<W, V>(f: W -> V, c: Cmd<W>, w: W)
    ensures AddArg(MapCmd(f, c), f(w)) == MapCmd(f, AddArg(c, w))
    decreases c
  {
    match c
    case Exec(argv) => assert (argv + [w])[..|argv|] == argv;
    case Redir(d, _, _) => MapAddArg(f, d, w);
    case _ =>
  }

  lemma {:induction false} MapRedirs<W, V>(f: W -> V, c: Cmd<W>, ts: seq<Tok<W>>)
    ensures Redirs(MapCmd(f, c), MapToks(f, ts)) == MapParse(f, Redirs(c, ts))
    decreases |ts|
  {
    if StartsOp(ts) && |ts| >= 2 && ts[1].Word? {
      MapTail(f, ts, 2);
      MapRedirs(f, Redir(c, ts[1].w, ts[0].c), ts[2..]);
    }
  }

  lemma {:induction false} MapArgs<W, V>(f: W -> V, c: Cmd<W>, n: nat, ts: seq<Tok<W>>)
    ensures Args(MapCmd(f, c), n, MapToks(f, ts)) == MapParse(f, Args(c, n, ts))
    decreases |ts|
  {
    MapStops(f, ts);
    if !StopsExec(ts) && ts[0].Word? && n + 1 < MAXARGS {
      MapOneArg(f, c, ts);
      var p := Redirs(AddArg(c, ts[0].w), ts[1..]);
      if p.Done? { MapArgs(f, p.cmd, n + 1, p.rest); }
    }
  }

  lemma MapStops<W, V>(f: W -> V, ts: seq<Tok<W>>)
    ensures StopsExec(MapToks(f, ts)) == StopsExec(ts)
    ensures !StopsExec(ts) ==> |MapToks(f, ts)| == |ts| > 0 && (MapToks(f, ts)[0].Word? <==> ts[0].Word?)
  {
  }

  lemma MapOneArg<W, V>(f: W -> V, c: Cmd<W>, ts: seq<Tok<W>>)
    requires |ts| > 0 && ts[0].Word?
    ensures |MapToks(f, ts)| > 0 && MapToks(f, ts)[0].Word?
    ensures Redirs(AddArg(MapCmd(f, c), MapToks(f, ts)[0].w), MapToks(f, ts)[1..]) == MapParse(f, Redirs(AddArg(c, ts[0].w), ts[1..]))
  {
    MapTail(f, ts, 1);
    MapAddArg(f, c, ts[0].w);
    MapRedirs(f, AddArg(c, ts[0].w), ts[1..]);
  }

  lemma {:induction false} MapExec<W, V>(f: W -> V, ts: seq<Tok<W>>)
    ensures ParseExec(MapToks(f, ts)) == MapParse(f, ParseExec(ts))
    decreases |ts|, 0
  {
    if Starts(ts, '(') {
      MapTail(f, ts, 1);
      MapLine(f, ts[1..]);
      var p := ParseLine(ts[1..]);
      if p.Done? && Starts(p.rest, ')') {
        MapTail(f, p.rest, 1);
        MapRedirs(f, p.cmd, p.rest[1..]);
      }
    } else {
      MapRedirs(f, Exec([]), ts);
      assert MapCmd(f, Exec([])) == Exec([]);
      var p := Redirs(Exec([]), ts);
      if p.Done? { MapArgs(f, p.cmd, 0, p.rest); }
    }
  }

  lemma {:induction false} MapPipe<W, V>(f: W -> V, ts: seq<Tok<W>>)
    ensures ParsePipe(MapToks(f, ts)) == MapParse(f, ParsePipe(ts))
    decreases |ts|, 1
  {
    MapExec(f, ts);
    var p := ParseExec(ts);
    if p.Done? && Starts(p.rest, '|') {
      MapTail(f, p.rest, 1);
      MapPipe(f, p.rest[1..]);
    }
  }

  lemma {:induction false} MapBacks<W, V>(f: W -> V, c: Cmd<W>, ts: seq<Tok<W>>)
    ensures Backs(MapCmd(f, c), MapToks(f, ts)) == MapParse(f, Backs(c, ts))
    decreases |ts|
  {
    if Starts(ts, '&') {
      MapTail(f, ts, 1);
      MapBacks(f, Back(c), ts[1..]);
    }
  }

  lemma {:induction false} MapLine<W, V>(f: W -> V, ts: seq<Tok<W>>)
    ensures ParseLine(MapToks(f, ts)) == MapParse(f, ParseLine(ts))
    decreases |ts|, 2
  {
    MapPipe(f, ts);
    var p := ParsePipe(ts);
    if p.Done? {
      MapBacks(f, p.cmd, p.rest);
      var b := Backs(p.cmd, p.rest);
      if Starts(b.rest, ';') {
        MapTail(f, b.rest, 1);
        MapLine(f, b.rest[1..]);
      }
    }
  }

  // The words of a command are words of its tokens, and the other way round.

  ghost predicate AllToks<W>(p: W -> bool, ts: seq<Tok<W>>) { forall i :: 0 <= i < |ts| && ts[i].Word? ==> p(ts[i].w) }

  ghost predicate AllSeq<W>(p: W -> bool, ws: seq<W>) { forall i :: 0 <= i < |ws| ==> p(ws[i]) }

  ghost predicate AllCmd<W>(p: W -> bool, c: Cmd<W>)
  {
    match c
    case Exec(argv) => AllSeq(p, argv)
    case Redir(d, w, _) => AllCmd(p, d) && p(w)
    case Pipe(l, r) => AllCmd(p, l) && AllCmd(p, r)
    case List(l, r) => AllCmd(p, l) && AllCmd(p, r)
    case Back(d) => AllCmd(p, d)
  }

  ghost predicate AllParse<W>(p: W -> bool, r: Parse<W>) { r.Done? ==> AllCmd(p, r.cmd) && AllToks(p, r.rest) }

  lemma {:induction false} KeepAddArg<W>(p: W -> bool, c: Cmd<W>, w: W)
    requires AllCmd(p, c) && p(w)
    ensures AllCmd(p, AddArg(c, w))
    decreases c
  {
    if c.Redir? { KeepAddArg(p, c.cmd, w); }
  }

  lemma {:induction false} KeepRedirs<W>(p: W -> bool, c: Cmd<W>, ts: seq<Tok<W>>)
    requires AllCmd(p, c) && AllToks(p, ts)
    ensures AllParse(p, Redirs(c, ts))
    decreases |ts|
  {
    if StartsOp(ts) && |ts| >= 2 && ts[1].Word? { KeepRedirs(p, Redir(c, ts[1].w, ts[0].c), ts[2..]); }
  }

  lemma {:induction false} KeepArgs<W>(p: W -> bool, c: Cmd<W>, n: nat, ts: seq<Tok<W>>)
    requires AllCmd(p, c) && AllToks(p, ts)
    ensures AllParse(p, Args(c, n, ts))
    decreases |ts|
  {
    if !StopsExec(ts) && ts[0].Word? && n + 1 < MAXARGS {
      KeepAddArg(p, c, ts[0].w);
      KeepRedirs(p, AddArg(c, ts[0].w), ts[1..]);
      var r := Redirs(AddArg(c, ts[0].w), ts[1..]);
      if r.Done? { KeepArgs(p, r.cmd, n + 1, r.rest); }
    }
  }

  lemma {:induction false} KeepExec<W>(p: W -> bool, ts: seq<Tok<W>>)
    requires AllToks(p, ts)
    ensures AllParse(p, ParseExec(ts))
    decreases |ts|, 0
  {
    if Starts(ts, '(') {
      KeepLine(p, ts[1..]);
      var r := ParseLine(ts[1..]);
      if r.Done? && Starts(r.rest, ')') { KeepRedirs(p, r.cmd, r.rest[1..]); }
    } else {
      KeepRedirs(p, Exec([]), ts);
      var r := Redirs(Exec([]), ts);
      if r.Done? { KeepArgs(p, r.cmd, 0, r.rest); }
    }
  }

  lemma {:induction false} KeepPipe<W>(p: W -> bool, ts: seq<Tok<W>>)
    requires AllToks(p, ts)
    ensures AllParse(p, ParsePipe(ts))
    decreases |ts|, 1
  {
    KeepExec(p, ts);
    var r := ParseExec(ts);
    if r.Done? && Starts(r.rest, '|') { KeepPipe(p, r.rest[1..]); }
  }

  lemma {:induction false} KeepBacks<W>(p: W -> bool, c: Cmd<W>, ts: seq<Tok<W>>)
    requires AllCmd(p, c) && AllToks(p, ts)
    ensures AllParse(p, Backs(c, ts))
    decreases |ts|
  {
    if Starts(ts, '&') { KeepBacks(p, Back(c), ts[1..]); }
  }

  lemma {:induction false} KeepLine<W>(p: W -> bool, ts: seq<Tok<W>>)
    requires AllToks(p, ts)
    ensures AllParse(p, ParseLine(ts))
    decreases |ts|, 2
  {
    KeepPipe(p, ts);
    var r := ParsePipe(ts);
    if r.Done? {
      KeepBacks(p, r.cmd, r.rest);
      var b := Backs(r.cmd, r.rest);
      if Starts(b.rest, ';') { KeepLine(p, b.rest[1..]); }
    }
  }

  /** The symbols that ShowLine writes. */
  predicate IsOp(c: char) { c == '|' || c == '&' || c == ';' || c == '(' || c == ')' || c == '<' || c == '>' || c == '+' }

  ghost predicate GoodToks<W>(p: W -> bool, ts: seq<Tok<W>>)
  {
    forall i :: 0 <= i < |ts| ==> if ts[i].Word? then p(ts[i].w) else IsOp(ts[i].c)
  }

  lemma {:induction false} GoodWords<W>(p: W -> bool, argv: seq<W>)
    requires AllSeq(p, argv)
    ensures GoodToks(p, Words(argv))
  {
    if argv != [] { GoodWords(p, argv[1..]); }
  }

  lemma {:induction false} GoodOps<W>(p: W -> bool, c: Cmd<W>)
    requires AllCmd(p, c) && Legal(c)
    ensures GoodToks(p, Ops(c)) && AllCmd(p, Core(c)) && Legal(Core(c))
    decreases c
  {
    if c.Redir? { GoodOps(p, c.cmd); }
  }

  lemma {:induction false} GoodShowExec<W>(p: W -> bool, c: Cmd<W>)
    requires AllCmd(p, c) && Legal(c)
    ensures GoodToks(p, ShowExec(c))
    decreases Size(c), if c.Exec? || c.Redir? then 0 else 4
  {
    CoreSmaller(c);
    GoodOps(p, c);
    if Core(c).Exec? { GoodWords(p, Core(c).argv); } else { GoodShowLine(p, Core(c)); }
  }

  lemma {:induction false} GoodShowPipe<W>(p: W -> bool, c: Cmd<W>)
    requires AllCmd(p, c) && Legal(c)
    ensures GoodToks(p, ShowPipe(c))
    decreases Size(c), if c.List? || c.Back? then 5 else 1
  {
    if c.Pipe? {
      GoodShowExec(p, c.left);
      GoodShowPipe(p, c.right);
    } else {
      GoodShowExec(p, c);
    }
  }

  lemma {:induction false} GoodShowBacks<W>(p: W -> bool, c: Cmd<W>)
    requires AllCmd(p, c) && Legal(c)
    ensures GoodToks(p, ShowBacks(c))
    decreases Size(c), if c.List? then 6 else 2
  {
    if c.Back? { GoodShowBacks(p, c.cmd); } else { GoodShowPipe(p, c); }
  }

  lemma {:induction false} GoodShowLine<W>(p: W -> bool, c: Cmd<W>)
    requires AllCmd(p, c) && Legal(c)
    ensures GoodToks(p, ShowLine(c))
    decreases Size(c), 3
  {
    if c.List? {
      GoodShowBacks(p, c.left);
      GoodShowLine(p, c.right);
    } else {
      GoodShowBacks(p, c);
    }
  }
}
