/**
 The shell's tokens, parser and nulterminate (usr/sh.c) over the characters of a
 line. Words are spans of the line, as the code's pointer pairs are.
 */
module Shell {
  import opened ShellGrammar
  import R = ShellRelation

  const VTAB: char := '\U{000B}'
  const NUL: char := '\0'

  datatype Span = Span(q: nat, eq: nat)

  predicate Space(c: char) {
    c == ' ' || c == '\t' || c == '\r' || c == '\n' || c == VTAB
  }

  predicate Symbol(c: char) {
    c == '<' || c == '|' || c == '>' || c == '&' || c == ';' || c == '(' || c == ')'
  }

  // ------------------------------------------------------------------- tokens

  function Skip(b: string, s: nat): (t: nat)
    requires s <= |b|
    ensures s <= t <= |b| && (t < |b| ==> !Space(b[t]))
    decreases |b| - s
  {
    if s < |b| && Space(b[s]) then Skip(b, s + 1) else s
  }

  function WordEnd(b: string, s: nat): (t: nat)
    requires s <= |b|
    ensures s <= t <= |b| && (t < |b| ==> Space(b[t]) || Symbol(b[t]))
    ensures forall i | s <= i < t :: !Space(b[i]) && !Symbol(b[i])
    ensures s < |b| && !Space(b[s]) && !Symbol(b[s]) ==> s < t
    decreases |b| - s
  {
    if s < |b| && !Space(b[s]) && !Symbol(b[s]) then WordEnd(b, s + 1) else s
  }

  /** The token that starts at `s`. */
  function TokAt(b: string, s: nat): (t: Tok<Span>)
    requires s < |b| && !Space(b[s])
    ensures t.word.q == s < t.word.eq <= |b|
  {
    if b[s] == '>' && s + 1 < |b| && b[s+1] == '>' then Tok('+', Span(s, s + 2))
    else if Symbol(b[s]) then Tok(b[s], Span(s, s + 1))
    else Tok('a', Span(s, WordEnd(b, s)))
  }

  /** All tokens from `s` on. */
  function Lex(b: string, s: nat): (ts: seq<Tok<Span>>)
    requires s <= |b|
    decreases |b| - s
  {
    var t := Skip(b, s);
    if t == |b| then [] else [TokAt(b, t)] + Lex(b, TokAt(b, t).word.eq)
  }

  lemma {:induction false} LexSkip(b: string, s: nat)
    requires s <= |b|
    ensures Lex(b, Skip(b, s)) == Lex(b, s) && Skip(b, Skip(b, s)) == Skip(b, s)
    ensures Lex(b, s) == [] <==> Skip(b, s) == |b|
  {
  }

  /** `Lexed` and what it is made of say what tokens are, without the functions above. */
  ghost predicate IsBlank(c: char) {
    c in {' ', '\t', '\r', '\n', '\U{000B}'}
  }

  ghost predicate IsSpecial(c: char) {
    c in {'<', '>', '|', '&', ';', '(', ')'}
  }

  /** A token stands there, as long as it can be: a symbol, two '>' in a row, or a word. */
  ghost predicate TokenHere(b: string, t: Tok<Span>) {
    && t.word.q < t.word.eq <= |b|
    && if t.kind == 'a' then
         && (forall i | t.word.q <= i < t.word.eq :: !IsBlank(b[i]) && !IsSpecial(b[i]))
         && (t.word.eq < |b| ==> IsBlank(b[t.word.eq]) || IsSpecial(b[t.word.eq]))
       else if t.kind == '+' then t.word.eq == t.word.q + 2 && b[t.word.q] == '>' && b[t.word.q + 1] == '>'
       else
         && IsSpecial(t.kind) && t.word.eq == t.word.q + 1 && b[t.word.q] == t.kind
         && (t.kind == '>' && t.word.eq < |b| ==> b[t.word.eq] != '>')
  }

  /** From `s` on the line consists of these tokens, one after the other, and blanks between them. */
  ghost predicate Lexed(b: string, s: nat, ts: seq<Tok<Span>>)
    decreases |ts|
  {
    if ts == [] then s <= |b| && forall i | s <= i < |b| :: IsBlank(b[i])
    else
      && s <= ts[0].word.q && TokenHere(b, ts[0]) && (forall i | s <= i < ts[0].word.q :: IsBlank(b[i]))
      && Lexed(b, ts[0].word.eq, ts[1..])
  }

  lemma {:induction false} SkipBlanks(b: string, s: nat)
    requires s <= |b|
    ensures forall i | s <= i < Skip(b, s) :: IsBlank(b[i])
    decreases |b| - s
  {
    if s < |b| && Space(b[s]) {
      SkipBlanks(b, s + 1);
    }
  }

  lemma TokenIs(b: string, t: Tok<Span>)
    requires TokenHere(b, t)
    ensures !Space(b[t.word.q]) && TokAt(b, t.word.q) == t
  {
    if t.kind == 'a' {
      WordEndAt(b, t.word.q, t.word.eq);
    }
  }

  /** Cutting a line into tokens is unique, and `Lex` does it. */
  lemma {:induction false} LexIff(b: string, s: nat, ts: seq<Tok<Span>>)
    requires s <= |b|
    ensures Lexed(b, s, ts) <==> ts == Lex(b, s)
    decreases |b| - s
  {
    var t := Skip(b, s);
    SkipBlanks(b, s);
    if Lexed(b, s, ts) && ts != [] {
      TokenIs(b, ts[0]);
      assert ts[0].word.q == t;
      LexIff(b, TokAt(b, t).word.eq, ts[1..]);
    }
    if ts == Lex(b, s) && t < |b| {
      assert TokenHere(b, TokAt(b, t));
      assert ts[1..] == Lex(b, TokAt(b, t).word.eq);
      LexIff(b, TokAt(b, t).word.eq, ts[1..]);
    }
  }

  /** gettoken; kind NUL stands for 0, the end of the line. */
  method Gettoken(b: string, s0: nat) returns (kind: char, sp: Span, s: nat)
    requires s0 <= |b| && NUL !in b
    ensures s <= |b| && (kind == NUL <==> Lex(b, s0) == []) && (kind == NUL ==> Lex(b, s) == [])
    ensures kind != NUL ==> Lex(b, s0)[0] == Tok(kind, sp) && Lex(b, s) == Lex(b, s0)[1..]
    ensures kind == 'a' ==> WordOk(b, sp)
  {
    s := s0;
    while s < |b| && Space(b[s])
      invariant s0 <= s <= |b| && Skip(b, s) == Skip(b, s0)
    {
      s := s + 1;
    }
    LexSkip(b, s0);
    var q := s;
    if s == |b| {
      return NUL, Span(q, q), s;
    }
    kind := b[s];
    if b[s] == '>' {
      s := s + 1;
      if s < |b| && b[s] == '>' {
        kind := '+';
        s := s + 1;
      }
    } else if Symbol(b[s]) {
      s := s + 1;
    } else {
      kind := 'a';
      while s < |b| && !Space(b[s]) && !Symbol(b[s])
        invariant q <= s <= |b| && WordEnd(b, s) == WordEnd(b, q)
      {
        s := s + 1;
      }
    }
    sp := Span(q, s);
    assert TokAt(b, q) == Tok(kind, sp);
    LexSkip(b, s);
    ghost var e := s;
    while s < |b| && Space(b[s])
      invariant e <= s <= |b| && Skip(b, s) == Skip(b, e)
    {
      s := s + 1;
    }
  }

  /** The first character of a token of that kind. */
  function First(kind: char): char {
    if kind == '+' then '>' else kind
  }

  /** peek, for a set of symbols */
  method Peek(b: string, s0: nat, toks: string) returns (yes: bool, s: nat)
    requires s0 <= |b| && NUL !in b && forall c | c in toks :: Symbol(c)
    ensures s <= |b| && Lex(b, s) == Lex(b, s0) && (yes <==> Lex(b, s0) != [] && First(Lex(b, s0)[0].kind) in toks)
    ensures Lex(b, s0) == [] <==> s == |b|
  {
    s := s0;
    while s < |b| && Space(b[s])
      invariant s0 <= s <= |b| && Skip(b, s) == Skip(b, s0)
    {
      s := s + 1;
    }
    LexSkip(b, s0);
    yes := s < |b| && b[s] in toks;
  }

  // ------------------------------------------------------------------ the parser

  datatype Result = Done(cmd: Cmd<Span>) | Fail

  /** The span is a whole word of the line. */
  ghost predicate WordOk(b: string, sp: Span) {
    && sp.q < sp.eq <= |b|
    && (forall i | sp.q <= i < sp.eq :: !Space(b[i]) && !Symbol(b[i]))
    && (sp.eq < |b| ==> Space(b[sp.eq]) || Symbol(b[sp.eq]))
  }

  ghost predicate WordsOk(b: string, c: Cmd<Span>) {
    match c
    case Exec(args) => forall i | 0 <= i < |args| :: WordOk(b, args[i])
    case Redir(d, f, _) => WordsOk(b, d) && WordOk(b, f)
    case Pipe(l, r) => WordsOk(b, l) && WordsOk(b, r)
    case List(l, r) => WordsOk(b, l) && WordsOk(b, r)
    case Back(d) => WordsOk(b, d)
  }

  /** The parser's result and position are what parsing the tokens gives. */
  ghost predicate Gives(b: string, p: Parsed<Span>, r: Result, s: nat) {
    && s <= |b|
    && if r.Done? then p == Ok(r.cmd, Lex(b, s)) && WordsOk(b, r.cmd) else p.Panic?
  }

  /** parseline */
  method Parseline(b: string, s0: nat) returns (r: Result, s: nat)
    requires s0 <= |b| && NUL !in b
    ensures Gives(b, ParseLine(Lex(b, s0)), r, s)
    decreases |Lex(b, s0)|, 4
  {
    s := s0;
    r, s := Parsepipe(b, s);
    if r.Fail? {
      return;
    }
    var amp, semi;
    amp, s := Peek(b, s, "&");
    while amp
      invariant s <= |b| && r.Done? && WordsOk(b, r.cmd) && |Lex(b, s)| <= |Lex(b, s0)|
      invariant ParseLine(Lex(b, s0)) == ParseBacks(r.cmd, Lex(b, s)) && (amp <==> Is(Lex(b, s), '&'))
      decreases |Lex(b, s)|
    {
      var k, sp;
      k, sp, s := Gettoken(b, s);
      r := Done(Back(r.cmd));
      amp, s := Peek(b, s, "&");
    }
    semi, s := Peek(b, s, ";");
    if semi {
      var k, sp;
      k, sp, s := Gettoken(b, s);
      var rest;
      rest, s := Parseline(b, s);
      r := if rest.Done? then Done(List(r.cmd, rest.cmd)) else Fail;
    }
  }

  /** parsepipe */
  method Parsepipe(b: string, s0: nat) returns (r: Result, s: nat)
    requires s0 <= |b| && NUL !in b
    ensures Gives(b, ParsePipe(Lex(b, s0)), r, s)
    decreases |Lex(b, s0)|, 3
  {
    r, s := Parseexec(b, s0);
    if r.Fail? {
      return;
    }
    var bar;
    bar, s := Peek(b, s, "|");
    if bar {
      var k, sp;
      k, sp, s := Gettoken(b, s);
      var rest;
      rest, s := Parsepipe(b, s);
      r := if rest.Done? then Done(Pipe(r.cmd, rest.cmd)) else Fail;
    }
  }

  /** parseredirs */
  method Parseredirs(b: string, c0: Cmd<Span>, s0: nat) returns (r: Result, s: nat)
    requires s0 <= |b| && NUL !in b && WordsOk(b, c0)
    ensures Gives(b, ParseRedirs(c0, Lex(b, s0)), r, s)
  {
    hide Lex, WordOk;
    var c, more := c0, false;
    more, s := Peek(b, s0, "<>");
    while more
      invariant s <= |b| && WordsOk(b, c) && ParseRedirs(c0, Lex(b, s0)) == ParseRedirs(c, Lex(b, s))
      invariant more <==> IsRedir(Lex(b, s))
      decreases |Lex(b, s)|
    {
      var tok, sp, k;
      tok, sp, s := Gettoken(b, s);
      k, sp, s := Gettoken(b, s);
      if k != 'a' {
        return Fail, s;
      }
      c := Redir(c, sp, tok != '<');
      more, s := Peek(b, s, "<>");
    }
    r := Done(c);
  }

  /** parseblock, for a line that goes on with a parenthesis */
  method Parseblock(b: string, s0: nat) returns (r: Result, s: nat)
    requires s0 <= |b| && NUL !in b && Is(Lex(b, s0), '(')
    ensures Gives(b, ParseBlock(Lex(b, s0)), r, s)
    decreases |Lex(b, s0)|, 1
  {
    var k, sp;
    k, sp, s := Gettoken(b, s0);
    r, s := Parseline(b, s);
    if r.Fail? {
      return;
    }
    var close;
    close, s := Peek(b, s, ")");
    if !close {
      return Fail, s;
    }
    k, sp, s := Gettoken(b, s);
    r, s := Parseredirs(b, r.cmd, s);
  }

  lemma {:induction false} AddOk(b: string, c: Cmd<Span>, sp: Span)
    requires WordsOk(b, c) && WordOk(b, sp)
    ensures WordsOk(b, AddArg(c, sp))
    decreases c
  {
    if c.Redir? {
      AddOk(b, c.cmd, sp);
    }
  }

  /** parseexec */
  method Parseexec(b: string, s0: nat) returns (r: Result, s: nat)
    requires s0 <= |b| && NUL !in b
    ensures Gives(b, ParseExec(Lex(b, s0)), r, s)
    decreases |Lex(b, s0)|, 2
  {
    hide Lex, WordOk;
    var open;
    open, s := Peek(b, s0, "(");
    if open {
      r, s := Parseblock(b, s);
      return;
    }
    RedirsFit<Span>(Exec([]), Lex(b, s));
    r, s := Parseredirs(b, Exec([]), s);
    if r.Fail? {
      return;
    }
    var argc, end := 0, false;
    end, s := Peek(b, s, "|)&;");
    while !end
      invariant s <= |b| && r.Done? && WordsOk(b, r.cmd) && ParseExec(Lex(b, s0)) == ParseArgs(r.cmd, Lex(b, s))
      invariant end <==> EndsExec(Lex(b, s))
      invariant argc == Argc(r.cmd) && Plain(r.cmd) && Fits(r.cmd)
      decreases |Lex(b, s)|
    {
      var tok, sp;
      tok, sp, s := Gettoken(b, s);
      if tok == NUL {
        break;
      }
      if tok != 'a' {
        return Fail, s;
      }
      AddOk(b, r.cmd, sp);
      ghost var c := r.cmd;
      r := Done(AddArg(r.cmd, sp));
      argc := argc + 1;
      if argc >= MAXARGS {
        return Fail, s;
      }
      AddFits(c, sp);
      RedirsFit(r.cmd, Lex(b, s));
      r, s := Parseredirs(b, r.cmd, s);
      if r.Fail? {
        return;
      }
      end, s := Peek(b, s, "|)&;");
    }
  }

  // --------------------------------------------------------------- nulterminate

  /** The bytes of the buffer while words are being terminated: the line, but for NULs at places outside all words. */
  ghost predicate Terminating(b: string, buf: seq<char>) {
    && |buf| == |b| + 1 && buf[|b|] == NUL
    && forall i | 0 <= i < |b| :: buf[i] == b[i] || (buf[i] == NUL && (Space(b[i]) || Symbol(b[i])))
  }

  /** The C string at the word's start is the word. */
  ghost predicate Terminated(b: string, buf: seq<char>, sp: Span) {
    sp.q < sp.eq <= |b| && |buf| == |b| + 1 && buf[sp.q..sp.eq] == b[sp.q..sp.eq] && buf[sp.eq] == NUL
  }

  ghost predicate AllTerminated(b: string, buf: seq<char>, c: Cmd<Span>) {
    match c
    case Exec(args) => forall i | 0 <= i < |args| :: Terminated(b, buf, args[i])
    case Redir(d, f, _) => AllTerminated(b, buf, d) && Terminated(b, buf, f)
    case Pipe(l, r) => AllTerminated(b, buf, l) && AllTerminated(b, buf, r)
    case List(l, r) => AllTerminated(b, buf, l) && AllTerminated(b, buf, r)
    case Back(d) => AllTerminated(b, buf, d)
  }

  /** Going on, termination only adds NULs. */
  ghost predicate OnlyNuls(buf0: seq<char>, buf1: seq<char>) {
    |buf1| == |buf0| && forall i | 0 <= i < |buf0| :: buf1[i] == buf0[i] || buf1[i] == NUL
  }

  lemma WordKept(b: string, buf0: seq<char>, buf1: seq<char>, sp: Span)
    requires NUL !in b && WordOk(b, sp) && Terminating(b, buf1) && OnlyNuls(buf0, buf1) && Terminated(b, buf0, sp)
    ensures Terminated(b, buf1, sp)
  {
    assert forall i | sp.q <= i < sp.eq :: buf1[i] == b[i];
  }

  lemma {:induction false} WordsKept(b: string, buf0: seq<char>, buf1: seq<char>, c: Cmd<Span>)
    requires NUL !in b && WordsOk(b, c) && Terminating(b, buf1) && OnlyNuls(buf0, buf1) && AllTerminated(b, buf0, c)
    ensures AllTerminated(b, buf1, c)
    decreases c
  {
    hide Terminated, WordOk, Terminating, OnlyNuls;
    match c
    case Exec(args) =>
      forall i | 0 <= i < |args| ensures Terminated(b, buf1, args[i]) {
        WordKept(b, buf0, buf1, args[i]);
      }
    case Redir(d, f, _) => WordsKept(b, buf0, buf1, d); WordKept(b, buf0, buf1, f);
    case Pipe(l, r) => WordsKept(b, buf0, buf1, l); WordsKept(b, buf0, buf1, r);
    case List(l, r) => WordsKept(b, buf0, buf1, l); WordsKept(b, buf0, buf1, r);
    case Back(d) => WordsKept(b, buf0, buf1, d);
  }

  /** `*eq = 0` for the end of one word. */
  method Terminate(b: string, buf: array<char>, sp: Span)
    requires NUL !in b && Terminating(b, buf[..]) && WordOk(b, sp)
    modifies buf
    ensures Terminating(b, buf[..]) && OnlyNuls(old(buf[..]), buf[..]) && Terminated(b, buf[..], sp)
  {
    buf[sp.eq] := NUL;
    assert forall i | sp.q <= i < sp.eq :: buf[i] == b[i];
  }

  /** nulterminate: every argument and file name is a C string of its own, and no word has lost a character. */
  method Nulterminate(b: string, buf: array<char>, c: Cmd<Span>)
    requires NUL !in b && Terminating(b, buf[..]) && WordsOk(b, c)
    modifies buf
    ensures Terminating(b, buf[..]) && OnlyNuls(old(buf[..]), buf[..]) && AllTerminated(b, buf[..], c)
    decreases c, 1
  {
    hide Terminating, OnlyNuls, WordOk, Terminated;
    ghost var buf0 := buf[..];
    NulsRefl(buf0);
    match c
    case Exec(args) =>
      var i := 0;
      while i < |args|
        invariant i <= |args| && Terminating(b, buf[..]) && OnlyNuls(buf0, buf[..])
        invariant forall j | 0 <= j < i :: Terminated(b, buf[..], args[j])
      {
        ghost var buf1 := buf[..];
        Terminate(b, buf, args[i]);
        NulsTrans(buf0, buf1, buf[..]);
        forall j | 0 <= j < i ensures Terminated(b, buf[..], args[j]) {
          WordKept(b, buf1, buf[..], args[j]);
        }
        i := i + 1;
      }
    case Redir(d, f, _) =>
      Nulterminate(b, buf, d);
      ghost var buf1 := buf[..];
      Terminate(b, buf, f);
      NulsTrans(buf0, buf1, buf[..]);
      WordsKept(b, buf1, buf[..], d);
    case Pipe(l, r) =>
      NulterminateTwo(b, buf, l, r, c);
    case List(l, r) =>
      NulterminateTwo(b, buf, l, r, c);
    case Back(d) =>
      Nulterminate(b, buf, d);
  }

  /** `nulterminate(left); nulterminate(right);` */
  method NulterminateTwo(b: string, buf: array<char>, l: Cmd<Span>, r: Cmd<Span>, ghost c: Cmd<Span>)
    requires c == Pipe(l, r) || c == List(l, r)
    requires NUL !in b && Terminating(b, buf[..]) && WordsOk(b, l) && WordsOk(b, r)
    modifies buf
    ensures Terminating(b, buf[..]) && OnlyNuls(old(buf[..]), buf[..]) && AllTerminated(b, buf[..], l)
      && AllTerminated(b, buf[..], r)
    decreases c, 0
  {
    hide Terminating, OnlyNuls, WordOk, Terminated;
    ghost var buf0 := buf[..];
    Nulterminate(b, buf, l);
    ghost var buf1 := buf[..];
    Nulterminate(b, buf, r);
    NulsTrans(buf0, buf1, buf[..]);
    WordsKept(b, buf1, buf[..], l);
  }

  lemma NulsRefl(x: seq<char>)
    ensures OnlyNuls(x, x)
  {
  }

  lemma NulsTrans(x: seq<char>, y: seq<char>, z: seq<char>)
    requires OnlyNuls(x, y) && OnlyNuls(y, z)
    ensures OnlyNuls(x, z)
  {
  }

  /** What parsing the line's tokens means, without the parser. */
  lemma Meaning(b: string)
    ensures forall c :: ParseAll(Lex(b, 0)) == Ok(c, []) <==> R.DerivesLine(Lex(b, 0), c)
    ensures forall ts :: Lexed(b, 0, ts) <==> ts == Lex(b, 0)
  {
    hide Lex, Lexed, R.DerivesLine, ParseAll;
    forall c ensures ParseAll(Lex(b, 0)) == Ok(c, []) <==> R.DerivesLine(Lex(b, 0), c) {
      R.ParsesIff(Lex(b, 0), c);
    }
    forall ts ensures Lexed(b, 0, ts) <==> ts == Lex(b, 0) {
      LexIff(b, 0, ts);
    }
  }

  /**
   parsecmd: the line is cut into tokens, and the tokens are one command of the
   language, whose words are then terminated in place; it panics exactly if they are none.
   */
  method Parsecmd(b: string, buf: array<char>) returns (r: Result)
    requires NUL !in b && buf[..] == b + [NUL]
    modifies buf
    ensures r.Done? ==> exists ts :: Lexed(b, 0, ts) && R.DerivesLine(ts, r.cmd)
    ensures r.Fail? ==> !exists ts, c :: Lexed(b, 0, ts) && R.DerivesLine(ts, c)
    ensures var p := ParseAll(Lex(b, 0)); if r.Done? then p == Ok(r.cmd, []) else p.Panic?
    ensures r.Done? ==> AllTerminated(b, buf[..], r.cmd) && Terminating(b, buf[..])
    ensures r.Fail? ==> buf[..] == old(buf[..])
  {
    hide Lex, Lexed, AllTerminated, WordsOk, R.DerivesLine;
    var s, leftover;
    Meaning(b);
    r, s := Parseline(b, 0);
    if r.Fail? {
      return;
    }
    leftover, s := Peek(b, s, "");
    if s != |b| {
      return Fail;
    }
    Nulterminate(b, buf, r.cmd);
  }

  // ------------------------------------------------- parsing what was printed

  /** A word that the shell can read back. */
  predicate ProperWord(w: string) {
    w != [] && NUL !in w && forall i | 0 <= i < |w| :: !Space(w[i]) && !Symbol(w[i])
  }

  predicate Proper(c: Cmd<string>) {
    match c
    case Exec(args) => |args| < MAXARGS && forall i | 0 <= i < |args| :: ProperWord(args[i])
    case Redir(d, f, _) => Proper(d) && ProperWord(f)
    case Pipe(l, r) => Proper(l) && Proper(r)
    case List(l, r) => Proper(l) && Proper(r)
    case Back(d) => Proper(d)
  }

  /** The characters of one token. */
  function Image(t: Tok<string>): string {
    if t.kind == 'a' then t.word else if t.kind == '+' then ">>" else [t.kind]
  }

  /** The tokens one after the other, each followed by a blank. */
  function Show(ts: seq<Tok<string>>): string {
    if ts == [] then [] else Image(ts[0]) + " " + Show(ts[1..])
  }

  ghost predicate ProperTok(t: Tok<string>) {
    if t.kind == 'a' then ProperWord(t.word) else Symbol(t.kind) || t.kind == '+'
  }

  /** Token `t` of the line is token `u`. */
  ghost predicate Shows(b: string, t: Tok<Span>, u: Tok<string>) {
    t.kind == u.kind && (t.kind == 'a' ==> t.word.q <= t.word.eq <= |b| && b[t.word.q..t.word.eq] == u.word)
  }

  ghost predicate AllShow(b: string, ts: seq<Tok<Span>>, us: seq<Tok<string>>) {
    |ts| == |us| && forall i | 0 <= i < |ts| :: Shows(b, ts[i], us[i])
  }

  lemma {:induction false} WordEndAt(b: string, s: nat, e: nat)
    requires s <= e <= |b| && (e < |b| ==> Space(b[e]) || Symbol(b[e]))
    requires forall i | s <= i < e :: !Space(b[i]) && !Symbol(b[i])
    ensures WordEnd(b, s) == e
    decreases e - s
  {
    if s < e {
      WordEndAt(b, s + 1, e);
    }
  }

  /** A token that stands at `s`, with a blank behind it. */
  lemma LexOne(b: string, s: nat, u: Tok<string>)
    requires ProperTok(u) && s + |Image(u)| < |b| && b[s..s + |Image(u)|] == Image(u) && b[s + |Image(u)|] == ' '
    ensures Lex(b, s) == [Tok(u.kind, Span(s, s + |Image(u)|))] + Lex(b, s + |Image(u)| + 1)
  {
    var img := Image(u);
    var e := s + |img|;
    assert forall i | s <= i < e :: b[i] == img[i - s];
    assert img != [] && b[s] == img[0] && Skip(b, s) == s;
    if u.kind == 'a' {
      WordEndAt(b, s, e);
    }
    assert TokAt(b, s) == Tok(u.kind, Span(s, e));
    assert Skip(b, e) == Skip(b, e + 1);
    LexSkip(b, e);
    LexSkip(b, e + 1);
  }

  /** Lexing the printed tokens gives those tokens. */
  lemma {:induction false} LexShow(pre: string, us: seq<Tok<string>>)
    requires forall i | 0 <= i < |us| :: ProperTok(us[i])
    ensures AllShow(pre + Show(us), Lex(pre + Show(us), |pre|), us)
    decreases |us|
  {
    hide Lex, Image, ProperTok, AllShow;
    var b, s := pre + Show(us), |pre|;
    if us == [] {
      LexSkip(b, s);
      AllShowNone(b);
    } else {
      var img := Image(us[0]);
      var pre1 := pre + img + " ";
      ShowSplit(pre, us);
      LexShow(pre1, us[1..]);
      LexOne(b, s, us[0]);
      AllShowOne(b, s, us[0], Lex(b, |pre1|), us[1..]);
      assert us == [us[0]] + us[1..];
    }
  }

  lemma ShowSplit(pre: string, us: seq<Tok<string>>)
    requires us != []
    ensures var b, s, img := pre + Show(us), |pre|, Image(us[0]);
      && b == pre + img + " " + Show(us[1..]) && s + |img| < |b| && b[s..s + |img|] == img && b[s + |img|] == ' '
  {
    hide Image;
    var img := Image(us[0]);
    assert Show(us) == img + " " + Show(us[1..]);
    assert pre + Show(us) == pre + (img + " " + Show(us[1..]));
  }

  lemma AllShowNone(b: string)
    ensures AllShow(b, [], [])
  {
  }

  lemma AllShowOne(b: string, s: nat, u: Tok<string>, ts: seq<Tok<Span>>, us: seq<Tok<string>>)
    requires AllShow(b, ts, us) && s + |Image(u)| <= |b| && b[s..s + |Image(u)|] == Image(u)
    ensures AllShow(b, [Tok(u.kind, Span(s, s + |Image(u)|))] + ts, [u] + us)
  {
    var t := Tok(u.kind, Span(s, s + |Image(u)|));
    assert Shows(b, t, u);
    hide Image, Shows;
  }

  // The parser does not look at the words: parsing tokens that show those of
  // another sequence gives a command that shows the other's.

  ghost predicate CmdShows(b: string, c: Cmd<Span>, d: Cmd<string>) {
    match c
    case Exec(args) => d.Exec? && |args| == |d.args| && forall i | 0 <= i < |args| :: SpanShows(b, args[i], d.args[i])
    case Redir(x, f, out) => d.Redir? && CmdShows(b, x, d.cmd) && SpanShows(b, f, d.file) && out == d.write
    case Pipe(l, r) => d.Pipe? && CmdShows(b, l, d.left) && CmdShows(b, r, d.right)
    case List(l, r) => d.List? && CmdShows(b, l, d.left) && CmdShows(b, r, d.right)
    case Back(x) => d.Back? && CmdShows(b, x, d.cmd)
  }

  ghost predicate SpanShows(b: string, sp: Span, w: string) {
    sp.q <= sp.eq <= |b| && b[sp.q..sp.eq] == w
  }

  ghost predicate Alike(b: string, p: Parsed<Span>, q: Parsed<string>) {
    if p.Ok? then q.Ok? && CmdShows(b, p.cmd, q.cmd) && AllShow(b, p.rest, q.rest) else q.Panic?
  }

  lemma AllShowTail(b: string, ts: seq<Tok<Span>>, us: seq<Tok<string>>)
    requires AllShow(b, ts, us)
    ensures (forall k: char :: Is(ts, k) <==> Is(us, k)) && (ts == [] <==> us == [])
    ensures ts != [] ==> AllShow(b, ts[1..], us[1..])
    ensures Is(ts, 'a') ==> SpanShows(b, ts[0].word, us[0].word)
  {
    if ts != [] {
      assert Shows(b, ts[0], us[0]);
    }
  }

  lemma {:induction false} LineAlike(b: string, ts: seq<Tok<Span>>, us: seq<Tok<string>>)
    requires AllShow(b, ts, us)
    ensures Alike(b, ParseLine(ts), ParseLine(us))
    decreases |ts|, 4
  {
    hide AllShow, CmdShows;
    PipeAlike(b, ts, us);
    var p, q := ParsePipe(ts), ParsePipe(us);
    if p.Ok? {
      BacksAlike(b, p.cmd, q.cmd, p.rest, q.rest);
    }
  }

  lemma {:induction false} BacksAlike(b: string, c: Cmd<Span>, d: Cmd<string>, ts: seq<Tok<Span>>, us: seq<Tok<string>>)
    requires AllShow(b, ts, us) && CmdShows(b, c, d)
    ensures Alike(b, ParseBacks(c, ts), ParseBacks(d, us))
    decreases |ts|, 0
  {
    hide AllShow;
    AllShowTail(b, ts, us);
    if Is(ts, '&') {
      BacksAlike(b, Back(c), Back(d), ts[1..], us[1..]);
    } else if Is(ts, ';') {
      LineAlike(b, ts[1..], us[1..]);
    }
  }

  lemma {:induction false} PipeAlike(b: string, ts: seq<Tok<Span>>, us: seq<Tok<string>>)
    requires AllShow(b, ts, us)
    ensures Alike(b, ParsePipe(ts), ParsePipe(us))
    decreases |ts|, 3
  {
    hide AllShow;
    ExecAlike(b, ts, us);
    var e, f := ParseExec(ts), ParseExec(us);
    if e.Ok? {
      AllShowTail(b, e.rest, f.rest);
      if Is(e.rest, '|') {
        PipeAlike(b, e.rest[1..], f.rest[1..]);
      }
    }
  }

  lemma {:induction false} RedirsAlike(b: string, c: Cmd<Span>, d: Cmd<string>, ts: seq<Tok<Span>>,
                          us: seq<Tok<string>>)
    requires AllShow(b, ts, us) && CmdShows(b, c, d)
    ensures Alike(b, ParseRedirs(c, ts), ParseRedirs(d, us))
    decreases |ts|
  {
    hide AllShow;
    AllShowTail(b, ts, us);
    if IsRedir(ts) {
      AllShowTail(b, ts[1..], us[1..]);
      if Is(ts[1..], 'a') {
        assert ts[1..][1..] == ts[2..] && us[1..][1..] == us[2..];
        RedirsAlike(b, Redir(c, ts[1].word, ts[0].kind != '<'), Redir(d, us[1].word, us[0].kind != '<'), ts[2..],
            us[2..]);
      }
    }
  }

  lemma {:induction false} ExecAlike(b: string, ts: seq<Tok<Span>>, us: seq<Tok<string>>)
    requires AllShow(b, ts, us)
    ensures Alike(b, ParseExec(ts), ParseExec(us))
    decreases |ts|, 2
  {
    hide AllShow;
    AllShowTail(b, ts, us);
    if Is(ts, '(') {
      LineAlike(b, ts[1..], us[1..]);
      var p, q := ParseLine(ts[1..]), ParseLine(us[1..]);
      if p.Ok? {
        AllShowTail(b, p.rest, q.rest);
        if Is(p.rest, ')') {
          RedirsAlike(b, p.cmd, q.cmd, p.rest[1..], q.rest[1..]);
        }
      }
    } else {
      RedirsAlike(b, Exec([]), Exec([]), ts, us);
      var r, t := ParseRedirs(Exec([]), ts), ParseRedirs<string>(Exec([]), us);
      if r.Ok? {
        ArgsAlike(b, r.cmd, t.cmd, r.rest, t.rest);
      }
    }
  }

  lemma {:induction false} AddAlike(b: string, c: Cmd<Span>, d: Cmd<string>, sp: Span, w: string)
    requires CmdShows(b, c, d) && SpanShows(b, sp, w)
    ensures CmdShows(b, AddArg(c, sp), AddArg(d, w)) && Argc(c) == Argc(d)
    decreases c
  {
    if c.Redir? {
      AddAlike(b, c.cmd, d.cmd, sp, w);
    }
  }

  lemma {:induction false} ArgcAlike(b: string, c: Cmd<Span>, d: Cmd<string>)
    requires CmdShows(b, c, d)
    ensures Argc(c) == Argc(d)
    decreases c
  {
    if c.Redir? {
      ArgcAlike(b, c.cmd, d.cmd);
    }
  }

  lemma {:induction false} ArgsAlike(b: string, c: Cmd<Span>, d: Cmd<string>, ts: seq<Tok<Span>>, us: seq<Tok<string>>)
    requires AllShow(b, ts, us) && CmdShows(b, c, d)
    ensures Alike(b, ParseArgs(c, ts), ParseArgs(d, us))
    decreases |ts|
  {
    hide AllShow, CmdShows;
    AllShowTail(b, ts, us);
    ArgcAlike(b, c, d);
    if Is(ts, 'a') && Argc(c) + 1 < MAXARGS {
      AddAlike(b, c, d, ts[0].word, us[0].word);
      RedirsAlike(b, AddArg(c, ts[0].word), AddArg(d, us[0].word), ts[1..], us[1..]);
      var r, t := ParseRedirs(AddArg(c, ts[0].word), ts[1..]), ParseRedirs(AddArg(d, us[0].word), us[1..]);
      if r.Ok? {
        ArgsAlike(b, r.cmd, t.cmd, r.rest, t.rest);
      }
    }
  }

  /** The printed form of a command. */
  function Printed(c: Cmd<string>): string {
    Show(Line(c, ""))
  }

  /** Parsing the printed form of any command with readable words gives that command back. */
  lemma ShellRoundTrip(c: Cmd<string>)
    requires Proper(c)
    ensures var b := Printed(c); var p := ParseAll(Lex(b, 0)); p.Ok? && CmdShows(b, p.cmd, c)
  {
    hide ParseLine, Line, Lex, Show, CmdShows, ProperTok, Proper;
    var us := Line(c, "");
    var b := Show(us);
    ProperLine(c);
    assert "" + Show(us) == b;
    LexShow("", us);
    LineAlike(b, Lex(b, 0), us);
    ProperFits(c);
    RoundTrip(c, "");
  }

  lemma {:induction false} ProperFits(c: Cmd<string>)
    requires Proper(c)
    ensures Fits(c)
    decreases c
  {
    match c
    case Exec(_) =>
    case Redir(d, _, _) => ProperFits(d);
    case Pipe(l, r) => ProperFits(l); ProperFits(r);
    case List(l, r) => ProperFits(l); ProperFits(r);
    case Back(d) => ProperFits(d);
  }

  ghost predicate AllProper(us: seq<Tok<string>>) {
    forall i | 0 <= i < |us| :: ProperTok(us[i])
  }

  lemma {:induction false} ProperLine(c: Cmd<string>)
    requires Proper(c)
    ensures AllProper(Line(c, "")) && AllProper(Background(c, "")) && AllProper(Pipeline(c, ""))
      && AllProper(Simple(c, ""))
    decreases c
  {
    if c.Pipe? || c.List? {
      ProperLine(c.left);
      ProperLine(c.right);
    } else if c.Back? || c.Redir? {
      ProperLine(c.cmd);
    }
    ProperParts(c);
  }

  lemma ProperParts(c: Cmd<string>)
    requires Proper(c)
    requires c.Pipe? ==> AllProper(Simple(c.left, "")) && AllProper(Pipeline(c.right, ""))
    requires c.List? ==> AllProper(Background(c.left, "")) && AllProper(Line(c.right, ""))
    requires c.Back? ==> AllProper(Background(c.cmd, ""))
    requires c.Redir? ==> AllProper(Simple(c.cmd, ""))
    ensures AllProper(Line(c, "")) && AllProper(Background(c, "")) && AllProper(Pipeline(c, ""))
      && AllProper(Simple(c, ""))
  {
    SymProper();
    hide AllProper, ProperTok;
    assert c.List? || Line(c, "") == Background(c, "");
    assert c.Back? || Background(c, "") == Pipeline(c, "");
    assert c.Pipe? || Pipeline(c, "") == Simple(c, "");
    match c {
      case Exec(args) => WordsProper(args);
      case Redir(d, f, out) =>
        AllJoin(Simple(d, ""), Sym(if out then '>' else '<', ""));
        WordsProper([f]);
        AllJoin(Simple(d, "") + Sym(if out then '>' else '<', ""), Words([f]));
        assert Words([f]) == [Tok('a', f)];
      case Pipe(l, r) =>
        AllJoin(Simple(l, ""), Sym('|', ""));
        AllJoin(Simple(l, "") + Sym('|', ""), Pipeline(r, ""));
        AllWrap(Simple(l, "") + Sym('|', "") + Pipeline(r, ""));
      case List(l, r) =>
        AllJoin(Background(l, ""), Sym(';', ""));
        AllJoin(Background(l, "") + Sym(';', ""), Line(r, ""));
        AllWrap(Background(l, "") + Sym(';', "") + Line(r, ""));
        assert Line(c, "") == Background(l, "") + Sym(';', "") + Line(r, "");
      case Back(d) =>
        AllJoin(Background(d, ""), Sym('&', ""));
        AllWrap(Background(d, "") + Sym('&', ""));
    }
  }

  lemma SymProper()
    ensures forall k | Symbol(k) :: AllProper(Sym(k, ""))
  {
  }

  lemma WordsProper(args: seq<string>)
    requires forall i | 0 <= i < |args| :: ProperWord(args[i])
    ensures AllProper(Words(args))
  {
  }

  lemma AllJoin(a: seq<Tok<string>>, b: seq<Tok<string>>)
    requires AllProper(a) && AllProper(b)
    ensures AllProper(a + b)
  {
  }

  lemma AllWrap(a: seq<Tok<string>>)
    requires AllProper(a)
    ensures AllProper(Sym('(', "") + a + Sym(')', ""))
  {
    SymProper();
  }
}
