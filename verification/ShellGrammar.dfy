/**
 The commands of the shell (usr/sh.c) as a grammar over tokens. The parser is a
 function from token sequences; the shell's own parser, which works on characters,
 is proved to compute it.
 */
module ShellGrammar {
  const MAXARGS: nat := 10

  /** `kind` is what gettoken returns: the symbol, '+' for ">>", or 'a' for a word. */
  datatype Tok<W> = Tok(kind: char, word: W)

  /** A command; words are of type `W`, and `write` tells > and >> from <. */
  datatype Cmd<W> =
    | Exec(args: seq<W>)
    | Redir(cmd: Cmd<W>, file: W, write: bool)
    | Pipe(left: Cmd<W>, right: Cmd<W>)
    | List(left: Cmd<W>, right: Cmd<W>)
    | Back(cmd: Cmd<W>)

  datatype Parsed<W> = Ok(cmd: Cmd<W>, rest: seq<Tok<W>>) | Panic

  predicate Is<W>(ts: seq<Tok<W>>, kind: char) {
    ts != [] && ts[0].kind == kind
  }

  predicate IsRedir<W>(ts: seq<Tok<W>>) {
    Is(ts, '<') || Is(ts, '>') || Is(ts, '+')
  }

  predicate EndsExec<W>(ts: seq<Tok<W>>) {
    Is(ts, '|') || Is(ts, ')') || Is(ts, '&') || Is(ts, ';')
  }

  // ------------------------------------------------------------ the parser

  function ParseLine<W>(ts: seq<Tok<W>>): (r: Parsed<W>)
    ensures r.Ok? ==> |r.rest| <= |ts|
    decreases |ts|, 4
  {
    var p := ParsePipe(ts);
    if p.Ok? then ParseBacks(p.cmd, p.rest) else Panic
  }

  /** The rest of parseline, once it has a command. */
  function ParseBacks<W>(c: Cmd<W>, ts: seq<Tok<W>>): (r: Parsed<W>)
    ensures r.Ok? ==> |r.rest| <= |ts|
    decreases |ts|, 0
  {
    if Is(ts, '&') then ParseBacks(Back(c), ts[1..])
    else if Is(ts, ';') then
      var p := ParseLine(ts[1..]);
      if p.Ok? then Ok(List(c, p.cmd), p.rest) else Panic
    else Ok(c, ts)
  }

  function ParsePipe<W>(ts: seq<Tok<W>>): (r: Parsed<W>)
    ensures r.Ok? ==> |r.rest| <= |ts|
    decreases |ts|, 3
  {
    var e := ParseExec(ts);
    if e.Ok? && Is(e.rest, '|') then
      var p := ParsePipe(e.rest[1..]);
      if p.Ok? then Ok(Pipe(e.cmd, p.cmd), p.rest) else Panic
    else e
  }

  /** parseredirs: each redirection wraps the command. */
  function ParseRedirs<W>(c: Cmd<W>, ts: seq<Tok<W>>): (r: Parsed<W>)
    ensures r.Ok? ==> |r.rest| <= |ts| && !IsRedir(r.rest)
    decreases |ts|
  {
    if !IsRedir(ts) then Ok(c, ts)
    else if Is(ts[1..], 'a') then ParseRedirs(Redir(c, ts[1].word, ts[0].kind != '<'), ts[2..])
    else Panic
  }

  function ParseBlock<W>(ts: seq<Tok<W>>): (r: Parsed<W>)
    requires Is(ts, '(')
    ensures r.Ok? ==> |r.rest| < |ts|
    decreases |ts|, 1
  {
    var p := ParseLine(ts[1..]);
    if p.Ok? && Is(p.rest, ')') then ParseRedirs(p.cmd, p.rest[1..]) else Panic
  }

  function ParseExec<W>(ts: seq<Tok<W>>): (r: Parsed<W>)
    ensures r.Ok? ==> |r.rest| <= |ts|
    decreases |ts|, 2
  {
    if Is(ts, '(') then ParseBlock(ts)
    else
      var r := ParseRedirs(Exec([]), ts);
      if r.Ok? then ParseArgs(r.cmd, r.rest) else Panic
  }

  /** The command with the argument added to the simple command inside it. */
  function AddArg<W>(c: Cmd<W>, w: W): Cmd<W> {
    match c
    case Exec(args) => Exec(args + [w])
    case Redir(d, f, out) => Redir(AddArg(d, w), f, out)
    case _ => c
  }

  /** Number of arguments of the simple command inside. */
  function Argc<W>(c: Cmd<W>): nat {
    match c
    case Exec(args) => |args|
    case Redir(d, _, _) => Argc(d)
    case _ => 0
  }

  /** The loop of parseexec. */
  function ParseArgs<W>(c: Cmd<W>, ts: seq<Tok<W>>): (r: Parsed<W>)
    ensures r.Ok? ==> |r.rest| <= |ts|
    decreases |ts|
  {
    if ts == [] || EndsExec(ts) then Ok(c, ts)
    else if !Is(ts, 'a') || Argc(c) + 1 >= MAXARGS then Panic
    else
      var r := ParseRedirs(AddArg(c, ts[0].word), ts[1..]);
      if r.Ok? then ParseArgs(r.cmd, r.rest) else Panic
  }

  /** parsecmd, on tokens: nothing may be left over. */
  function ParseAll<W>(ts: seq<Tok<W>>): (r: Parsed<W>) {
    var p := ParseLine(ts);
    if p.Ok? && p.rest == [] then p else Panic
  }

  // ----------------------------------------------------------- the printer

  function Sym<W>(kind: char, w: W): seq<Tok<W>> { [Tok(kind, w)] }

  function Words<W>(args: seq<W>): (ts: seq<Tok<W>>)
    ensures |ts| == |args| && forall i | 0 <= i < |ts| :: ts[i] == Tok('a', args[i])
  {
    seq(|args|, i requires 0 <= i < |args| => Tok('a', args[i]))
  }

  /**
   Tokens that print the command as a line, a background command, a pipe or a simple command; `w`
   fills the words of symbols.
   */
  function Line<W>(c: Cmd<W>, w: W): seq<Tok<W>>
    decreases c, 3
  {
    if c.List? then Background(c.left, w) + Sym(';', w) + Line(c.right, w) else Background(c, w)
  }

  function Background<W>(c: Cmd<W>, w: W): seq<Tok<W>>
    decreases c, 2
  {
    if c.Back? then Background(c.cmd, w) + Sym('&', w) else Pipeline(c, w)
  }

  function Pipeline<W>(c: Cmd<W>, w: W): seq<Tok<W>>
    decreases c, 1
  {
    if c.Pipe? then Simple(c.left, w) + Sym('|', w) + Pipeline(c.right, w) else Simple(c, w)
  }

  function Simple<W>(c: Cmd<W>, w: W): seq<Tok<W>>
    decreases c, 0
  {
    match c
    case Exec(args) => Words(args)
    case Redir(d, f, out) => Simple(d, w) + Sym(if out then '>' else '<', w) + [Tok('a', f)]
    case Pipe(l, r) => Sym('(', w) + (Simple(l, w) + Sym('|', w) + Pipeline(r, w)) + Sym(')', w)
    case List(l, r) => Sym('(', w) + (Background(l, w) + Sym(';', w) + Line(r, w)) + Sym(')', w)
    case Back(d) => Sym('(', w) + (Background(d, w) + Sym('&', w)) + Sym(')', w)
  }

  /** Every simple command in it has fewer than MAXARGS arguments. */
  predicate Fits<W>(c: Cmd<W>) {
    match c
    case Exec(args) => |args| < MAXARGS
    case Redir(d, _, _) => Fits(d)
    case Pipe(l, r) => Fits(l) && Fits(r)
    case List(l, r) => Fits(l) && Fits(r)
    case Back(d) => Fits(d)
  }

  // -------------------------------------------------------- the round trip

  /** A token at which a line is over. */
  predicate AfterLine<W>(ts: seq<Tok<W>>) {
    ts == [] || Is(ts, ')')
  }

  predicate AfterPipe<W>(ts: seq<Tok<W>>) {
    AfterLine(ts) || Is(ts, ';') || Is(ts, '&')
  }

  /** The simple command inside the redirections is printed without parentheses. */
  predicate Plain<W>(c: Cmd<W>) {
    match c
    case Exec(_) => true
    case Redir(d, _, _) => Plain(d)
    case _ => false
  }

  /** What parseexec makes of the tokens behind a printed simple command. */
  function Finish<W>(c: Cmd<W>, ts: seq<Tok<W>>): Parsed<W> {
    var r := ParseRedirs(c, ts);
    if Plain(c) && r.Ok? then ParseArgs(r.cmd, r.rest) else r
  }

  lemma {:induction false} WordsParse<W>(args: seq<W>, k: nat, ts: seq<Tok<W>>)
    requires k < |args| < MAXARGS && !Is(ts, 'a')
    ensures ParseArgs(Exec(args[..k]), Words(args[k..]) + ts) == Finish(Exec(args), ts)
    decreases |args| - k
  {
    var all := Words(args[k..]) + ts;
    assert all[0] == Tok('a', args[k]) && args[..k] + [args[k]] == args[..k+1];
    assert all[1..] == Words(args[k+1..]) + ts;
    if k + 1 < |args| {
      WordsParse(args, k + 1, ts);
      assert Is(all[1..], 'a');
    } else {
      assert args[..k+1] == args && Words(args[k+1..]) + ts == ts;
    }
  }

  lemma {:induction false} ExecParse<W>(args: seq<W>, ts: seq<Tok<W>>)
    requires |args| < MAXARGS && !Is(ts, 'a') && !Is(ts, '(')
    ensures ParseExec(Words(args) + ts) == Finish(Exec(args), ts)
  {
    if args == [] {
      assert Words(args) + ts == ts;
    } else {
      WordsParse(args, 0, ts);
      assert args[..0] == [] && args[0..] == args;
      assert (Words(args) + ts)[0] == Tok('a', args[0]);
    }
  }

  /** A block between parentheses parses to the command inside, with the redirections behind it. */
  lemma BlockParse<W>(c: Cmd<W>, inner: seq<Tok<W>>, ts: seq<Tok<W>>, w: W)
    requires ParseLine(inner + (Sym(')', w) + ts)) == Ok(c, Sym(')', w) + ts)
    ensures ParseExec(Sym('(', w) + inner + Sym(')', w) + ts) == ParseRedirs(c, ts)
  {
    var all := Sym('(', w) + inner + Sym(')', w) + ts;
    assert all[1..] == inner + (Sym(')', w) + ts);
    assert (Sym(')', w) + ts)[1..] == ts;
  }

  lemma {:induction false} SimpleParse<W>(c: Cmd<W>, ts: seq<Tok<W>>, w: W)
    requires Fits(c) && !Is(ts, 'a') && !Is(ts, '(')
    ensures ParseExec(Simple(c, w) + ts) == Finish(c, ts)
    decreases c, 1
  {
    match c
    case Exec(args) =>
      ExecParse(args, ts);
    case Redir(d, f, out) =>
      var more := Sym(if out then '>' else '<', w) + [Tok('a', f)] + ts;
      assert Simple(c, w) + ts == Simple(d, w) + more;
      SimpleParse(d, more, w);
      assert more[1..][0] == Tok('a', f) && more[2..] == ts;
    case Pipe(l, r) =>
      var inner := Simple(l, w) + Sym('|', w) + Pipeline(r, w);
      PipeParse(l, r, Sym(')', w) + ts, w);
      BlockParse(c, inner, ts, w);
    case List(l, r) =>
      var inner := Background(l, w) + Sym(';', w) + Line(r, w);
      ListParse(l, r, Sym(')', w) + ts, w);
      BlockParse(c, inner, ts, w);
    case Back(d) =>
      var inner := Background(d, w) + Sym('&', w);
      var more := Sym('&', w) + (Sym(')', w) + ts);
      BackParse(d, more, w);
      assert inner + (Sym(')', w) + ts) == Background(d, w) + more;
      assert more[1..] == Sym(')', w) + ts;
      BlockParse(c, inner, ts, w);
  }

  lemma {:induction false} PipelineParse<W>(c: Cmd<W>, ts: seq<Tok<W>>, w: W)
    requires Fits(c) && AfterPipe(ts)
    ensures ParsePipe(Pipeline(c, w) + ts) == Ok(c, ts)
    decreases c, 2
  {
    if c.Pipe? {
      var more := Sym('|', w) + (Pipeline(c.right, w) + ts);
      assert Pipeline(c, w) + ts == Simple(c.left, w) + more;
      SimpleParse(c.left, more, w);
      assert more[1..] == Pipeline(c.right, w) + ts;
      PipelineParse(c.right, ts, w);
    } else {
      SimpleParse(c, ts, w);
    }
  }

  lemma {:induction false} PipeParse<W>(l: Cmd<W>, r: Cmd<W>, ts: seq<Tok<W>>, w: W)
    requires Fits(l) && Fits(r) && AfterLine(ts)
    ensures ParseLine(Simple(l, w) + Sym('|', w) + Pipeline(r, w) + ts) == Ok(Pipe(l, r), ts)
    decreases Pipe(l, r), 0
  {
    var more := Sym('|', w) + (Pipeline(r, w) + ts);
    assert Simple(l, w) + Sym('|', w) + Pipeline(r, w) + ts == Simple(l, w) + more;
    SimpleParse(l, more, w);
    assert more[1..] == Pipeline(r, w) + ts;
    PipelineParse(r, ts, w);
  }

  lemma {:induction false} BackParse<W>(c: Cmd<W>, ts: seq<Tok<W>>, w: W)
    requires Fits(c) && AfterPipe(ts)
    ensures ParseLine(Background(c, w) + ts) == ParseBacks(c, ts)
    decreases c, 3
  {
    if c.Back? {
      var more := Sym('&', w) + ts;
      assert Background(c, w) + ts == Background(c.cmd, w) + more;
      BackParse(c.cmd, more, w);
      assert more[1..] == ts;
    } else {
      PipelineParse(c, ts, w);
    }
  }

  lemma {:induction false} ListParse<W>(l: Cmd<W>, r: Cmd<W>, ts: seq<Tok<W>>, w: W)
    requires Fits(l) && Fits(r) && AfterLine(ts)
    ensures ParseLine(Background(l, w) + Sym(';', w) + Line(r, w) + ts) == Ok(List(l, r), ts)
    decreases List(l, r), 0
  {
    var more := Sym(';', w) + (Line(r, w) + ts);
    assert Background(l, w) + Sym(';', w) + Line(r, w) + ts == Background(l, w) + more;
    BackParse(l, more, w);
    assert more[1..] == Line(r, w) + ts;
    LineParse(r, ts, w);
  }

  lemma {:induction false} LineParse<W>(c: Cmd<W>, ts: seq<Tok<W>>, w: W)
    requires Fits(c) && AfterLine(ts)
    ensures ParseLine(Line(c, w) + ts) == Ok(c, ts)
    decreases c, 4
  {
    if c.List? {
      ListParse(c.left, c.right, ts, w);
    } else {
      BackParse(c, ts, w);
    }
  }

  /** Parsing the tokens of any command gives that command back. */
  lemma RoundTrip<W>(c: Cmd<W>, w: W)
    requires Fits(c)
    ensures ParseAll(Line(c, w)) == Ok(c, [])
  {
    LineParse(c, [], w);
    assert Line(c, w) + [] == Line(c, w);
  }

  /** And every command that parsing yields is one that can be printed. */
  lemma {:induction false} ParsedFits<W>(ts: seq<Tok<W>>)
    ensures var r := ParseLine(ts); r.Ok? ==> Fits(r.cmd)
    decreases |ts|, 4
  {
    PipeFits(ts);
    var p := ParsePipe(ts);
    if p.Ok? {
      BacksFit(p.cmd, p.rest);
    }
  }

  lemma {:induction false} BacksFit<W>(c: Cmd<W>, ts: seq<Tok<W>>)
    requires Fits(c)
    ensures var r := ParseBacks(c, ts); r.Ok? ==> Fits(r.cmd)
    decreases |ts|, 0
  {
    if Is(ts, '&') {
      BacksFit(Back(c), ts[1..]);
    } else if Is(ts, ';') {
      ParsedFits(ts[1..]);
    }
  }

  lemma {:induction false} PipeFits<W>(ts: seq<Tok<W>>)
    ensures var r := ParsePipe(ts); r.Ok? ==> Fits(r.cmd)
    decreases |ts|, 3
  {
    ExecFits(ts);
    var e := ParseExec(ts);
    if e.Ok? && Is(e.rest, '|') {
      PipeFits(e.rest[1..]);
    }
  }

  lemma {:induction false} RedirsFit<W>(c: Cmd<W>, ts: seq<Tok<W>>)
    requires Fits(c)
    ensures var r := ParseRedirs(c, ts); r.Ok? ==> Fits(r.cmd) && Plain(r.cmd) == Plain(c) && Argc(r.cmd) == Argc(c)
    decreases |ts|
  {
    if IsRedir(ts) && Is(ts[1..], 'a') {
      RedirsFit(Redir(c, ts[1].word, ts[0].kind != '<'), ts[2..]);
    }
  }

  lemma {:induction false} AddFits<W>(c: Cmd<W>, w: W)
    requires Fits(c) && Plain(c) && Argc(c) + 1 < MAXARGS
    ensures Fits(AddArg(c, w)) && Plain(AddArg(c, w)) && Argc(AddArg(c, w)) == Argc(c) + 1
    decreases c
  {
    if c.Redir? {
      AddFits(c.cmd, w);
    }
  }

  lemma {:induction false} ArgsFit<W>(c: Cmd<W>, ts: seq<Tok<W>>)
    requires Fits(c) && Plain(c)
    ensures var r := ParseArgs(c, ts); r.Ok? ==> Fits(r.cmd)
    decreases |ts|
  {
    if ts != [] && !EndsExec(ts) && Is(ts, 'a') && Argc(c) + 1 < MAXARGS {
      AddFits(c, ts[0].word);
      RedirsFit(AddArg(c, ts[0].word), ts[1..]);
      var r := ParseRedirs(AddArg(c, ts[0].word), ts[1..]);
      if r.Ok? {
        ArgsFit(r.cmd, r.rest);
      }
    }
  }

  lemma {:induction false} ExecFits<W>(ts: seq<Tok<W>>)
    ensures var r := ParseExec(ts); r.Ok? ==> Fits(r.cmd)
    decreases |ts|, 2
  {
    if Is(ts, '(') {
      ParsedFits(ts[1..]);
      var p := ParseLine(ts[1..]);
      if p.Ok? && Is(p.rest, ')') {
        RedirsFit(p.cmd, p.rest[1..]);
      }
    } else {
      RedirsFit(Exec([]), ts);
      var r := ParseRedirs(Exec([]), ts);
      if r.Ok? {
        ArgsFit(r.cmd, r.rest);
      }
    }
  }

  /**
   A command is what some token sequence parses to exactly when its simple commands have fewer than
   MAXARGS arguments.
   */
  lemma ParsableIff<W(!new)>(c: Cmd<W>, w: W)
    ensures Fits(c) <==> exists ts :: ParseAll(ts) == Ok(c, [])
  {
    if Fits(c) {
      RoundTrip(c, w);
    }
    forall ts | ParseAll(ts) == Ok(c, []) ensures Fits(c) {
      ParsedFits(ts);
    }
  }
}
