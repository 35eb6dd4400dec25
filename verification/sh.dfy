/** The parser of user/sh.c: a cursor moves over the line while the tree is built, then the words in the
    line are terminated in place. A syntax error is None, where the shell panics. */
module Sh {
  import opened Options
  import opened ShParse
  import opened ShLex

  /** The cursor form did what the grammar says: the same command, and the cursor before the same tokens. */
  ghost predicate Agrees(p: Parse<Span>, r: Option<Cmd<Span>>, s: string, i: nat)
  {
    if p.Panic? then r.None? else r == Some(p.cmd) && i <= |s| && p.rest == Lex(s, i)
  }

  /** gettoken where only the kind of token matters. */
  method Drop(s: string, ps: nat) returns (ret: char, next: nat)
    requires ps <= |s| && '\0' !in s
    ensures ps <= next <= |s| && ret == Code(Lex(s, ps)) && (Lex(s, ps) == [] ==> next == |s|)
    ensures Lex(s, ps) != [] ==> ps < next && Lex(s, ps)[1..] == Lex(s, next)
  {
    var q, eq;
    ret, q, eq, next := Gettoken(s, ps);
  }

  method Parseredirs(cmd: Cmd<Span>, s: string, ps: nat) returns (r: Option<Cmd<Span>>, next: nat)
    requires ps <= |s| && '\0' !in s
    ensures Agrees(Redirs(cmd, Lex(s, ps)), r, s, next) && ps <= next <= |s|
  {
    r, next := Some(cmd), ps;
    var more;
    next, more := Peek(s, next, "<>");
    FirstChar(s, next);
    while more
      invariant ps <= next <= |s| && r.Some? && next == SkipWhite(s, next)
      invariant Redirs(cmd, Lex(s, ps)) == Redirs(r.value, Lex(s, next)) && (more <==> StartsOp(Lex(s, next)))
      decreases |s| - next
    {
      ghost var ts := Lex(s, next);
      var tok, code, q, eq;
      tok, next := Drop(s, next);
      code, q, eq, next := Gettoken(s, next);
      if code != 'a' { return None, next; }
      assert ts[1..][1..] == ts[2..];
      r := Some(Redir(r.value, Span(q, eq), tok));
      next, more := Peek(s, next, "<>");
      FirstChar(s, next);
    }
  }

  method Parseexec(s: string, ps: nat) returns (r: Option<Cmd<Span>>, next: nat)
    requires ps <= |s| && '\0' !in s
    ensures Agrees(ParseExec(Lex(s, ps)), r, s, next) && ps <= next <= |s|
    decreases |s| - ps, 1
  {
    var block;
    next, block := Peek(s, ps, "(");
    FirstChar(s, next);
    if block {
      r, next := Parseblock(s, next);
    } else {
      r, next := Parseredirs(Exec([]), s, next);
      if r.Some? { r, next := Parseargs(r.value, s, next); }
    }
  }

  /** parseexec's loop. */
  method Parseargs(cmd: Cmd<Span>, s: string, ps: nat) returns (r: Option<Cmd<Span>>, next: nat)
    requires ps <= |s| && '\0' !in s
    ensures Agrees(Args(cmd, 0, Lex(s, ps)), r, s, next) && ps <= next <= |s|
  {
    r, next := Some(cmd), ps;
    var argc := 0;
    var stop;
    next, stop := Peek(s, next, "|)&;");
    FirstChar(s, next);
    while !stop
      invariant ps <= next <= |s| && r.Some? && argc >= 0 && next == SkipWhite(s, next)
      invariant Args(cmd, 0, Lex(s, ps)) == Args(r.value, argc, Lex(s, next))
      invariant stop ==> StopsExec(Lex(s, next))
      invariant !stop ==> Lex(s, next) == [] || !StopsExec(Lex(s, next))
      decreases |s| - next, !stop
    {
      r, argc, next, stop := Parsearg(r.value, argc, s, next);
      if r.None? { return; }
    }
  }

  /** One round of that loop, for the argument after `argc` others. */
  method Parsearg(cmd: Cmd<Span>, argc: nat, s: string, ps: nat) returns (r: Option<Cmd<Span>>, n: nat, next: nat, stop: bool)
    requires ps <= |s| && '\0' !in s && ps == SkipWhite(s, ps) && (Lex(s, ps) == [] || !StopsExec(Lex(s, ps)))
    ensures ps <= next <= |s| && (r.None? ==> Args(cmd, argc, Lex(s, ps)).Panic?)
    ensures r.Some? ==> Args(cmd, argc, Lex(s, ps)) == Args(r.value, n, Lex(s, next)) && next == SkipWhite(s, next) && (stop || next > ps)
    ensures r.Some? && stop ==> StopsExec(Lex(s, next))
    ensures r.Some? && !stop ==> Lex(s, next) == [] || !StopsExec(Lex(s, next))
  {
    r, n, stop := Some(cmd), argc, true;
    var tok, q, eq;
    tok, q, eq, next := Gettoken(s, ps);
    if tok == '\0' {
      return;
    } else if tok != 'a' {
      r := None;
    } else {
      r, n := Some(AddArg(cmd, Span(q, eq))), argc + 1;
      if n >= MAXARGS { return None, n, next, stop; }
      r, next := Parseredirs(r.value, s, next);
      if r.Some? {
        next, stop := Peek(s, next, "|)&;");
        FirstChar(s, next);
      }
    }
  }

  method Parseblock(s: string, ps: nat) returns (r: Option<Cmd<Span>>, next: nat)
    requires ps <= |s| && '\0' !in s && Starts(Lex(s, ps), '(')
    ensures Agrees(ParseExec(Lex(s, ps)), r, s, next) && ps <= next <= |s|
    decreases |s| - ps, 0
  {
    var _, after := Drop(s, ps);
    next := after;
    r, next := Parseline(s, next);
    if r.Some? {
      var closed;
      next, closed := Peek(s, next, ")");
      FirstChar(s, next);
      if !closed {
        r := None;
      } else {
        var _, after := Drop(s, next);
        next := after;
        r, next := Parseredirs(r.value, s, next);
      }
    }
  }

  method Parsepipe(s: string, ps: nat) returns (r: Option<Cmd<Span>>, next: nat)
    requires ps <= |s| && '\0' !in s
    ensures Agrees(ParsePipe(Lex(s, ps)), r, s, next) && ps <= next <= |s|
    decreases |s| - ps, 2
  {
    r, next := Parseexec(s, ps);
    if r.Some? {
      var more;
      next, more := Peek(s, next, "|");
      FirstChar(s, next);
      if more {
        var _, after := Drop(s, next);
        next := after;
        var right;
        right, next := Parsepipe(s, next);
        r := if right.Some? then Some(Pipe(r.value, right.value)) else None;
      }
    }
  }

  method Parseline(s: string, ps: nat) returns (r: Option<Cmd<Span>>, next: nat)
    requires ps <= |s| && '\0' !in s
    ensures Agrees(ParseLine(Lex(s, ps)), r, s, next) && ps <= next <= |s|
    decreases |s| - ps, 3
  {
    r, next := Parsepipe(s, ps);
    if r.Some? {
      r, next := Parsebacks(r.value, s, next);
      var more;
      next, more := Peek(s, next, ";");
      FirstChar(s, next);
      if more {
        var _, after := Drop(s, next);
        next := after;
        var right;
        right, next := Parseline(s, next);
        r := if right.Some? then Some(List(r.value, right.value)) else None;
      }
    }
  }

  /** parseline's loop. */
  method Parsebacks(cmd: Cmd<Span>, s: string, ps: nat) returns (r: Option<Cmd<Span>>, next: nat)
    requires ps <= |s| && '\0' !in s
    ensures r.Some? && Agrees(Backs(cmd, Lex(s, ps)), r, s, next) && ps <= next <= |s|
  {
    var c, more := cmd, true;
    next, more := Peek(s, ps, "&");
    FirstChar(s, next);
    while more
      invariant ps <= next <= |s| && next == SkipWhite(s, next)
      invariant Backs(cmd, Lex(s, ps)) == Backs(c, Lex(s, next)) && (more <==> Starts(Lex(s, next), '&'))
      decreases |s| - next
    {
      var _, after := Drop(s, next);
      next := after;
      c := Back(c);
      next, more := Peek(s, next, "&");
      FirstChar(s, next);
    }
    r := Some(c);
  }

  /** parsecmd before nulterminate: a command if the whole line is one, otherwise the panic. */
  method Parsecmd(s: string) returns (r: Option<Cmd<Span>>)
    requires '\0' !in s
    ensures r.Some? ==> ParseLine(Lex(s, 0)) == Done(r.value, [])
    ensures r.None? ==> ParseLine(Lex(s, 0)).Panic? || ParseLine(Lex(s, 0)).rest != []
  {
    var next;
    r, next := Parseline(s, 0);
    if r.Some? {
      var any;
      next, any := Peek(s, next, "");
      FirstChar(s, next);
      if next != |s| { r := None; }
    }
  }

  // nulterminate.

  /** A place in the line that is a whole word: what ends it is no part of a word. */
  predicate IsWord(s: string, p: Span)
  {
    p.q < p.eq <= |s| && (forall k :: p.q <= k < p.eq ==> Plain(s[k])) && (p.eq < |s| ==> !Plain(s[p.eq]))
  }

  ghost function Whole(s: string): Span -> bool { (p: Span) => IsWord(s, p) }

  function Ends(argv: seq<Span>): set<nat> { if argv == [] then {} else {argv[0].eq} + Ends(argv[1..]) }

  /** Where nulterminate stores NULs. */
  function Cuts(c: Cmd<Span>): set<nat>
  {
    match c
    case Exec(argv) => Ends(argv)
    case Redir(d, f, _) => Cuts(d) + {f.eq}
    case Pipe(l, r) => Cuts(l) + Cuts(r)
    case List(l, r) => Cuts(l) + Cuts(r)
    case Back(d) => Cuts(d)
  }

  /** The cuts all lie in the buffer. */
  predicate CutsFit(c: Cmd<Span>, n: nat) { forall k :: k in Cuts(c) ==> k < n }

  lemma {:induction false} EndsHas(argv: seq<Span>, i: nat)
    requires i < |argv|
    ensures argv[i].eq in Ends(argv)
  {
    if i > 0 { EndsHas(argv[1..], i - 1); }
  }

  lemma {:induction false} EndsOnly(argv: seq<Span>, n: nat, k: nat)
    requires n < |argv|
    ensures k in Ends(argv[..n + 1]) <==> k in Ends(argv[..n]) || k == argv[n].eq
    decreases n
  {
    if n == 0 {
      assert argv[..1] == [argv[0]] && argv[..0] == [];
      assert argv[..1][1..] == [];
    } else {
      EndsOnly(argv[1..], n - 1, k);
      assert argv[..n + 1][1..] == argv[1..][..n] && argv[..n][1..] == argv[1..][..n - 1];
    }
  }

  /** nulterminate: NULs at the ends of the words, nothing else changed. */
  method Nulterminate(buf: array<char>, cmd: Cmd<Span>)
    requires CutsFit(cmd, buf.Length)
    modifies buf
    ensures forall k :: 0 <= k < buf.Length ==> buf[k] == if k in Cuts(cmd) then '\0' else old(buf[k])
    decreases cmd
  {
    match cmd
    case Exec(argv) =>
      var i := 0;
      assert argv[..0] == [] && Cuts(cmd) == Ends(argv);
      while i < |argv|
        invariant 0 <= i <= |argv| && forall k :: 0 <= k < buf.Length ==> buf[k] == if k in Ends(argv[..i]) then '\0' else old(buf[k])
      {
        EndsHas(argv, i);
        forall k: nat ensures k in Ends(argv[..i + 1]) <==> k in Ends(argv[..i]) || k == argv[i].eq { EndsOnly(argv, i, k); }
        buf[argv[i].eq] := '\0';
        i := i + 1;
      }
      assert argv[..i] == argv;
    case Redir(d, f, _) =>
      assert Cuts(cmd) == Cuts(d) + {f.eq};
      Nulterminate(buf, d);
      buf[f.eq] := '\0';
    case Pipe(l, r) =>
      assert Cuts(cmd) == Cuts(l) + Cuts(r);
      Nulterminate(buf, l);
      Nulterminate(buf, r);
    case List(l, r) =>
      assert Cuts(cmd) == Cuts(l) + Cuts(r);
      Nulterminate(buf, l);
      Nulterminate(buf, r);
    case Back(d) =>
      assert Cuts(cmd) == Cuts(d);
      Nulterminate(buf, d);
  }

  /** The C string at `q`. */
  function CString(b: seq<char>, q: nat): string
    decreases |b| - q
  {
    if q >= |b| || b[q] == '\0' then "" else [b[q]] + CString(b, q + 1)
  }

  lemma {:induction false} CStringIs(b: seq<char>, q: nat, eq: nat)
    requires q <= eq < |b| && b[eq] == '\0' && forall k :: q <= k < eq ==> b[k] != '\0'
    ensures CString(b, q) == b[q..eq]
    decreases eq - q
  {
    if q < eq {
      CStringIs(b, q + 1, eq);
      assert b[q..eq] == [b[q]] + b[q + 1..eq];
    }
  }

  /** Every cut is the end of a word. */
  lemma {:induction false} CutEndsWord(s: string, c: Cmd<Span>, k: nat)
    requires AllCmd(Whole(s), c) && k in Cuts(c)
    ensures k <= |s| && (k < |s| ==> !Plain(s[k]))
    decreases c
  {
    match c
    case Exec(argv) =>
      var i := EndOf(argv, k);
      assert IsWord(s, argv[i]);
    case Redir(d, f, _) => if k != f.eq { CutEndsWord(s, d, k); }
    case Pipe(l, r) => if k in Cuts(l) { CutEndsWord(s, l, k); } else { CutEndsWord(s, r, k); }
    case List(l, r) => if k in Cuts(l) { CutEndsWord(s, l, k); } else { CutEndsWord(s, r, k); }
    case Back(d) => CutEndsWord(s, d, k);
  }

  lemma {:induction false} EndOf(argv: seq<Span>, k: nat) returns (i: nat)
    requires k in Ends(argv)
    ensures i < |argv| && argv[i].eq == k
  {
    if argv[0].eq == k {
      i := 0;
    } else {
      i := EndOf(argv[1..], k);
      i := i + 1;
    }
  }

  /** Every word that Lex finds is a whole word of the line. */
  lemma {:induction false} LexWords(s: string, i: nat)
    requires i <= |s| && '\0' !in s
    ensures AllToks(Whole(s), Lex(s, i))
    decreases |s| - i
  {
    var j := SkipWhite(s, i);
    if j < |s| {
      LexWords(s, TokEnd(s, j));
      if TokAt(s, j).Word? { WordEndPlain(s, j); }
    }
  }

  lemma {:induction false} WordEndPlain(s: string, i: nat)
    requires i <= |s| && '\0' !in s
    ensures (forall k :: i <= k < WordEnd(s, i) ==> Plain(s[k])) && (WordEnd(s, i) < |s| ==> !Plain(s[WordEnd(s, i)]))
    decreases |s| - i
  {
    if i < |s| && !White(s[i]) && !Symbol(s[i]) { WordEndPlain(s, i + 1); }
  }

  /** A word whose end was cut reads as itself: no NUL landed inside it. `b` is the line with its own
      NUL, terminated for command `c`. */
  lemma ReadsAs(s: string, c: Cmd<Span>, b: seq<char>, p: Span)
    requires '\0' !in s && AllCmd(Whole(s), c) && Terminated(s, c, b) && IsWord(s, p) && p.eq in Cuts(c)
    ensures CString(b, p.q) == s[p.q..p.eq]
  {
    forall k | p.q <= k < p.eq ensures b[k] == s[k] && b[k] != '\0' {
      if k in Cuts(c) { CutEndsWord(s, c, k); }
      assert s[k] in s;
    }
    CStringIs(b, p.q, p.eq);
    assert b[p.q..p.eq] == s[p.q..p.eq];
  }

  ghost predicate Terminated(s: string, c: Cmd<Span>, b: seq<char>)
  {
    |b| == |s| + 1 && forall k :: 0 <= k < |b| ==> b[k] == if k in Cuts(c) || k == |s| then '\0' else s[k]
  }

  ghost predicate Reads(s: string, b: seq<char>, p: Span) { p.q <= p.eq <= |s| && CString(b, p.q) == s[p.q..p.eq] }

  ghost function Reader(s: string, b: seq<char>): Span -> bool { (p: Span) => Reads(s, b, p) }

  /** Every word of a part `d` of command `c`. */
  lemma {:induction false} AllRead(s: string, c: Cmd<Span>, b: seq<char>, d: Cmd<Span>)
    requires '\0' !in s && AllCmd(Whole(s), c) && Terminated(s, c, b)
    requires AllCmd(Whole(s), d) && Cuts(d) <= Cuts(c)
    ensures AllCmd(Reader(s, b), d)
    decreases d
  {
    match d
    case Exec(argv) =>
      forall i | 0 <= i < |argv| ensures Reads(s, b, argv[i]) {
        EndsHas(argv, i);
        ReadsAs(s, c, b, argv[i]);
      }
    case Redir(e, f, _) =>
      AllRead(s, c, b, e);
      ReadsAs(s, c, b, f);
    case Pipe(l, r) =>
      AllRead(s, c, b, l);
      AllRead(s, c, b, r);
    case List(l, r) =>
      AllRead(s, c, b, l);
      AllRead(s, c, b, r);
    case Back(e) => AllRead(s, c, b, e);
  }

  /** parsecmd on a line in memory, with the NUL after it: every argument and file name of the command
      then reads as exactly its word. */
  method ParsecmdInPlace(buf: array<char>) returns (r: Option<Cmd<Span>>)
    requires buf.Length > 0 && buf[buf.Length - 1] == '\0' && forall k :: 0 <= k < buf.Length - 1 ==> buf[k] != '\0'
    modifies buf
    ensures var s := old(buf[..buf.Length - 1]);
      && (r.Some? ==> ParseLine(Lex(s, 0)) == Done(r.value, []) && AllCmd(Reader(s, buf[..]), r.value))
      && (r.None? ==> buf[..] == old(buf[..]) && (ParseLine(Lex(s, 0)).Panic? || ParseLine(Lex(s, 0)).rest != []))
  {
    var s := buf[..buf.Length - 1];
    r := Parsecmd(s);
    if r.Some? {
      LexWords(s, 0);
      KeepLine(Whole(s), Lex(s, 0));
      forall k | k in Cuts(r.value) ensures k < buf.Length { CutEndsWord(s, r.value, k); }
      Nulterminate(buf, r.value);
      assert Terminated(s, r.value, buf[..]);
      AllRead(s, r.value, buf[..], r.value);
    }
  }
}
