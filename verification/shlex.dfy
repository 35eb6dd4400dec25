/** Tokens of a command line, as gettoken of user/sh.c finds them, and a way to print tokens. */
module ShLex {
  import opened ShParse

  predicate White(c: char) { c == ' ' || c == '\t' || c == '\r' || c == '\n' || c == '\U{0B}' }

  predicate Symbol(c: char) { c == '<' || c == '|' || c == '>' || c == '&' || c == ';' || c == '(' || c == ')' }

  predicate Plain(c: char) { !White(c) && !Symbol(c) && c != '\0' }

  /** A word's place in the line, from `q` up to `eq`. */
  datatype Span = Span(q: nat, eq: nat)

  function SkipWhite(s: string, i: nat): (j: nat)
    requires i <= |s|
    ensures i <= j <= |s| && (j < |s| ==> !White(s[j]))
    decreases |s| - i
  {
    if i < |s| && White(s[i]) then SkipWhite(s, i + 1) else i
  }

  function WordEnd(s: string, i: nat): (j: nat)
    requires i <= |s|
    ensures i <= j <= |s|
    decreases |s| - i
  {
    if i < |s| && !White(s[i]) && !Symbol(s[i]) then WordEnd(s, i + 1) else i
  }

  /** Where the token at `i` ends. */
  function TokEnd(s: string, i: nat): (j: nat)
    requires i < |s| && !White(s[i])
    ensures i < j <= |s|
  {
    if s[i] == '>' && i + 1 < |s| && s[i + 1] == '>' then i + 2 else if Symbol(s[i]) then i + 1 else WordEnd(s, i)
  }

  function TokAt(s: string, i: nat): Tok<Span>
    requires i < |s| && !White(s[i])
  {
    if s[i] == '>' && i + 1 < |s| && s[i + 1] == '>' then Sym('+')
    else if Symbol(s[i]) then Sym(s[i]) else Word(Span(i, WordEnd(s, i)))
  }

  /** The tokens from position `i` on. */
  function Lex(s: string, i: nat): seq<Tok<Span>>
    requires i <= |s|
    decreases |s| - i
  {
    var j := SkipWhite(s, i);
    if j == |s| then [] else [TokAt(s, j)] + Lex(s, TokEnd(s, j))
  }

  lemma LexSkips(s: string, i: nat)
    requires i <= |s|
    ensures Lex(s, SkipWhite(s, i)) == Lex(s, i)
  {
  }

  /** gettoken's switch: the kind of token, NUL at the end of the line. */
  function Code(ts: seq<Tok<Span>>): char { if ts == [] then '\0' else if ts[0].Word? then 'a' else ts[0].c }

  /** gettoken: the next token and where it lies; the cursor moves past it and the white space after it. */
  method Gettoken(s: string, ps: nat) returns (ret: char, q: nat, eq: nat, next: nat)
    requires ps <= |s| && '\0' !in s
    ensures ps <= next <= |s| && ret == Code(Lex(s, ps))
    ensures Lex(s, ps) == [] ==> next == |s|
    ensures Lex(s, ps) != [] ==> ps < next && Lex(s, ps)[1..] == Lex(s, next)
    ensures Lex(s, ps) != [] && Lex(s, ps)[0].Word? ==> Lex(s, ps)[0] == Word(Span(q, eq))
  {
    var i := ps;
    while i < |s| && White(s[i])
      invariant ps <= i <= |s| && SkipWhite(s, ps) == SkipWhite(s, i)
    {
      i := i + 1;
    }
    q := i;
    ret := if i < |s| then s[i] else '\0';
    if i < |s| {
      assert SkipWhite(s, ps) == i && s[i] in s;
      if s[i] == '>' {
        i := i + 1;
        if i < |s| && s[i] == '>' {
          ret := '+';
          i := i + 1;
        }
      } else if Symbol(s[i]) {
        i := i + 1;
      } else {
        ret := 'a';
        while i < |s| && !White(s[i]) && !Symbol(s[i])
          invariant q <= i <= |s| && WordEnd(s, q) == WordEnd(s, i)
        {
          i := i + 1;
        }
      }
      assert i == TokEnd(s, q);
    }
    eq := i;
    LexSkips(s, i);
    while i < |s| && White(s[i])
      invariant eq <= i <= |s| && SkipWhite(s, eq) == SkipWhite(s, i)
    {
      i := i + 1;
    }
    next := i;
  }

  /** peek: whether the next token begins with one of these characters. */
  method Peek(s: string, ps: nat, toks: string) returns (next: nat, r: bool)
    requires ps <= |s| && '\0' !in s
    ensures ps <= next <= |s| && next == SkipWhite(s, ps) && Lex(s, next) == Lex(s, ps)
    ensures r <==> next < |s| && s[next] in toks
  {
    next := ps;
    while next < |s| && White(s[next])
      invariant ps <= next <= |s| && SkipWhite(s, ps) == SkipWhite(s, next)
    {
      next := next + 1;
    }
    LexSkips(s, ps);
    r := next < |s| && s[next] in toks;
  }

  /** The first character decides the first token. */
  lemma FirstChar(s: string, i: nat)
    requires i <= |s| && i == SkipWhite(s, i)
    ensures i < |s| <==> Lex(s, i) != []
    ensures i < |s| ==> forall c :: Symbol(c) && c != '>' ==> (s[i] == c <==> Starts(Lex(s, i), c))
    ensures i < |s| ==> (s[i] == '<' || s[i] == '>' <==> StartsOp(Lex(s, i)))
    ensures i < |s| ==> (Lex(s, i)[0].Word? <==> !Symbol(s[i]))
  {
  }

  // Printing tokens so that they are found again.

  function PrintTok(t: Tok<string>): string { if t.Word? then t.w else if t.c == '+' then ">>" else [t.c] }

  function Print(ts: seq<Tok<string>>): string { if ts == [] then "" else PrintTok(ts[0]) + " " + Print(ts[1..]) }

  /** What a word can be: not empty, without white space, symbols and NUL. */
  predicate LegalWord(w: string) { w != "" && forall i :: 0 <= i < |w| ==> Plain(w[i]) }

  function Text(s: string): Span -> string { (p: Span) => if p.q <= p.eq <= |s| then s[p.q..p.eq] else "" }

  lemma {:induction false} WordEndIs(s: string, i: nat, n: nat)
    requires i + n < |s| && (forall k :: i <= k < i + n ==> Plain(s[k])) && White(s[i + n])
    ensures WordEnd(s, i) == i + n
    decreases n
  {
    if n > 0 { WordEndIs(s, i + 1, n - 1); }
  }

  /** A printed token is found where it was printed. */
  lemma TokFound(s: string, i: nat, t: Tok<string>)
    requires i + |PrintTok(t)| < |s| && s[i..i + |PrintTok(t)|] == PrintTok(t) && s[i + |PrintTok(t)|] == ' '
    requires if t.Word? then LegalWord(t.w) else IsOp(t.c)
    ensures !White(s[i]) && TokEnd(s, i) == i + |PrintTok(t)|
    ensures if t.Word? then TokAt(s, i) == Word(Span(i, TokEnd(s, i))) && Text(s)(Span(i, TokEnd(s, i))) == t.w else TokAt(s, i) == Sym(t.c)
  {
    var n := |PrintTok(t)|;
    forall k | 0 <= k < n ensures s[i + k] == PrintTok(t)[k] { assert s[i..i + n][k] == s[i + k]; }
    if t.Word? {
      assert s[i] == t.w[0];
      forall k | i <= k < i + n ensures Plain(s[k]) { assert s[i + (k - i)] == t.w[k - i]; }
      WordEndIs(s, i, n);
    }
  }

  lemma LexStep(s: string, i: nat, t: Tok<string>)
    requires i + |PrintTok(t)| < |s| && s[i..i + |PrintTok(t)|] == PrintTok(t) && s[i + |PrintTok(t)|] == ' '
    requires if t.Word? then LegalWord(t.w) else IsOp(t.c)
    ensures MapToks(Text(s), Lex(s, i)) == [t] + MapToks(Text(s), Lex(s, i + |PrintTok(t)| + 1))
  {
    TokFound(s, i, t);
    var e := i + |PrintTok(t)|;
    assert SkipWhite(s, e) == SkipWhite(s, e + 1);
    assert Lex(s, e) == Lex(s, e + 1);
    var ts := Lex(s, i);
    assert ts == [TokAt(s, i)] + Lex(s, e) && ts[1..] == Lex(s, e + 1);
  }

  lemma Placed(pre: string, w: string, r: string)
    ensures var s := pre + (w + " " + r);
      |pre| + |w| < |s| && s[|pre|..|pre| + |w|] == w && s[|pre| + |w|] == ' ' && s == (pre + w + " ") + r
  {
  }

  /** The tokens from `i` on, as text. */
  ghost function Texts(s: string, i: nat): seq<Tok<string>>
    requires i <= |s|
  {
    MapToks(Text(s), Lex(s, i))
  }

  lemma TextsStep(pre: string, t: Tok<string>, r: string)
    requires if t.Word? then LegalWord(t.w) else IsOp(t.c)
    ensures var s, next := pre + (PrintTok(t) + " " + r), pre + PrintTok(t) + " ";
      s == next + r && Texts(s, |pre|) == [t] + Texts(s, |next|)
  {
    Placed(pre, PrintTok(t), r);
    LexStep(pre + (PrintTok(t) + " " + r), |pre|, t);
  }

  lemma {:induction false} LexPrint(pre: string, ts: seq<Tok<string>>)
    requires GoodToks(LegalWord, ts)
    ensures Texts(pre + Print(ts), |pre|) == ts
    decreases |ts|
  {
    if ts != [] {
      TextsStep(pre, ts[0], Print(ts[1..]));
      LexPrint(pre + PrintTok(ts[0]) + " ", ts[1..]);
      assert ts == [ts[0]] + ts[1..];
    }
  }

  lemma {:induction false} PrintNoNul(ts: seq<Tok<string>>)
    requires GoodToks(LegalWord, ts)
    ensures '\0' !in Print(ts)
    decreases |ts|
  {
    if ts != [] {
      PrintNoNul(ts[1..]);
      assert '\0' !in PrintTok(ts[0]);
    }
  }

  /** Round trip: any command, printed, is read by the parser as itself: the words of the tree are the
      words printed, and nothing is left over. */
  lemma RoundTrip(c: Cmd<string>)
    requires Legal(c) && AllCmd(LegalWord, c)
    ensures var s := Print(ShowLine(c));
      '\0' !in s && ParseLine(Lex(s, 0)).Done? && ParseLine(Lex(s, 0)).rest == [] && MapCmd(Text(s), ParseLine(Lex(s, 0)).cmd) == c
  {
    var ts := ShowLine(c);
    var s := Print(ts);
    GoodShowLine(LegalWord, c);
    PrintNoNul(ts);
    LexPrint("", ts);
    assert "" + s == s;
    MapLine(Text(s), Lex(s, 0));
    ParseShow(c);
  }
}
