/**
 The language of the shell's commands, said without the parser: which commands a
 sequence of tokens stands for. The parser accepts exactly these.
 */
module ShellRelation {
  import opened ShellGrammar

  /** A redirection: the file, and whether it is written. */
  datatype Target<W> = Target(file: W, write: bool)

  /** Words and redirections in any order, each redirection with the word of its file. */
  predicate Items<W>(ts: seq<Tok<W>>) {
    if ts == [] then true
    else if ts[0].kind == 'a' then Items(ts[1..])
    else ts[0].kind in {'<', '>', '+'} && |ts| > 1 && ts[1].kind == 'a' && Items(ts[2..])
  }

  /** The words that are not files of redirections, in order. */
  function Arguments<W>(ts: seq<Tok<W>>): seq<W> {
    if ts == [] then []
    else if ts[0].kind == 'a' then [ts[0].word] + Arguments(ts[1..])
    else if |ts| > 1 then Arguments(ts[2..]) else []
  }

  /** The redirections, in order; `<` reads, `>` and `>>` write. */
  function Targets<W>(ts: seq<Tok<W>>): seq<Target<W>> {
    if ts == [] then []
    else if ts[0].kind == 'a' then Targets(ts[1..])
    else if |ts| > 1 then [Target(ts[1].word, ts[0].kind == '>' || ts[0].kind == '+')] + Targets(ts[2..])
    else []
  }

  /** The command inside the redirections, the first one innermost. */
  function Wrapped<W>(c: Cmd<W>, rs: seq<Target<W>>): Cmd<W> {
    if rs == [] then c
    else Redir(Wrapped(c, rs[..|rs| - 1]), rs[|rs| - 1].file, rs[|rs| - 1].write)
  }

  /** Fewer than ten arguments and any redirections, or a line in parentheses and redirections behind it. */
  ghost predicate DerivesExec<W(!new)>(ts: seq<Tok<W>>, c: Cmd<W>)
    decreases |ts|, 0
  {
    || (Items(ts) && |Arguments(ts)| < 10 && c == Wrapped(Exec(Arguments(ts)), Targets(ts)))
    || exists k: nat, d :: BlockAt(ts, k) && DerivesLine(ts[1..k], d) && c == Wrapped(d, Targets(ts[k+1..]))
  }

  /** The tokens from 1 up to `k` stand in parentheses, and only redirections follow. */
  predicate BlockAt<W>(ts: seq<Tok<W>>, k: nat) {
    && 0 < k < |ts| && ts[0].kind == '(' && ts[k].kind == ')'
    && Items(ts[k+1..]) && Arguments(ts[k+1..]) == []
  }

  ghost predicate DerivesPipe<W(!new)>(ts: seq<Tok<W>>, c: Cmd<W>)
    decreases |ts|, 1
  {
    || DerivesExec(ts, c)
    || (c.Pipe? && exists k ::
        0 <= k < |ts| && ts[k].kind == '|' && DerivesExec(ts[..k], c.left) && DerivesPipe(ts[k+1..], c.right))
  }

  ghost predicate DerivesBack<W(!new)>(ts: seq<Tok<W>>, c: Cmd<W>)
    decreases |ts|, 2
  {
    || DerivesPipe(ts, c)
    || (c.Back? && ts != [] && ts[|ts| - 1].kind == '&' && DerivesBack(ts[..|ts| - 1], c.cmd))
  }

  ghost predicate DerivesLine<W(!new)>(ts: seq<Tok<W>>, c: Cmd<W>)
    decreases |ts|, 3
  {
    || DerivesBack(ts, c)
    || (c.List? && exists k ::
        0 <= k < |ts| && ts[k].kind == ';' && DerivesBack(ts[..k], c.left) && DerivesLine(ts[k+1..], c.right))
  }

  // -------------------------------------------------- simple commands, parsed

  /** parseredirs, then the loop of parseexec. */
  function ParseItems<W>(c: Cmd<W>, ts: seq<Tok<W>>): Parsed<W> {
    var r := ParseRedirs(c, ts);
    if r.Ok? then ParseArgs(r.cmd, r.rest) else Panic
  }

  lemma {:induction false} AddWrapped<W>(args: seq<W>, rs: seq<Target<W>>, w: W)
    ensures AddArg(Wrapped(Exec(args), rs), w) == Wrapped(Exec(args + [w]), rs)
    ensures Argc(Wrapped(Exec(args), rs)) == |args|
  {
    if rs != [] {
      AddWrapped(args, rs[..|rs| - 1], w);
    }
  }

  lemma WrappedMore<W>(c: Cmd<W>, rs: seq<Target<W>>, t: Target<W>)
    ensures Wrapped(c, rs + [t]) == Redir(Wrapped(c, rs), t.file, t.write)
  {
    assert (rs + [t])[..|rs|] == rs;
  }

  /** Tokens that may follow a command of parseexec. */
  predicate AfterExec<W>(ts: seq<Tok<W>>) {
    ts == [] || EndsExec(ts)
  }

  lemma RedirStep<W>(c: Cmd<W>, ts: seq<Tok<W>>)
    requires |ts| > 1 && ts[0].kind in {'<', '>', '+'} && ts[1].kind == 'a'
    ensures var d := Redir(c, ts[1].word, ts[0].kind == '>' || ts[0].kind == '+');
      ParseRedirs(c, ts) == ParseRedirs(d, ts[2..]) && ParseItems(c, ts) == ParseItems(d, ts[2..])
  {
    assert ts[1..][0] == ts[1];
  }

  lemma ArgStep<W>(c: Cmd<W>, ts: seq<Tok<W>>)
    requires ts != [] && ts[0].kind == 'a' && Argc(c) + 1 < 10
    ensures ParseItems(c, ts) == ParseItems(AddArg(c, ts[0].word), ts[1..])
  {
  }

  lemma EndStep<W>(c: Cmd<W>, ts: seq<Tok<W>>)
    requires AfterExec(ts)
    ensures ParseItems(c, ts) == ParseRedirs(c, ts) == Ok(c, ts)
  {
  }

  /** The tokens of a word or a redirection in front. */
  lemma Front<W>(ts: seq<Tok<W>>, rest: seq<Tok<W>>)
    ensures ts == [] ==> ts + rest == rest
    ensures ts != [] ==> (ts + rest)[0] == ts[0] && (ts + rest)[1..] == ts[1..] + rest
    ensures |ts| > 1 ==> (ts + rest)[1] == ts[1] && (ts + rest)[2..] == ts[2..] + rest
  {
  }

  lemma {:induction false} ItemsParse<W>(args: seq<W>, rs: seq<Target<W>>, ts: seq<Tok<W>>, rest: seq<Tok<W>>)
    requires Items(ts) && |args| + |Arguments(ts)| < 10 && AfterExec(rest)
    ensures ParseItems(Wrapped(Exec(args), rs), ts + rest) ==
      Ok(Wrapped(Exec(args + Arguments(ts)), rs + Targets(ts)), rest)
    decreases |ts|
  {
    hide ParseItems, ParseRedirs, Wrapped, AddArg, Argc, AfterExec;
    var c := Wrapped(Exec(args), rs);
    Front(ts, rest);
    if ts == [] {
      EndStep(c, rest);
      assert args + [] == args && rs + [] == rs;
    } else if ts[0].kind == 'a' {
      AddWrapped(args, rs, ts[0].word);
      ArgStep(c, ts + rest);
      ItemsParse(args + [ts[0].word], rs, ts[1..], rest);
      assert args + [ts[0].word] + Arguments(ts[1..]) == args + Arguments(ts);
    } else {
      var t := Target(ts[1].word, ts[0].kind == '>' || ts[0].kind == '+');
      WrappedMore(Exec(args), rs, t);
      RedirStep(c, ts + rest);
      ItemsParse(args, rs + [t], ts[2..], rest);
      assert rs + [t] + Targets(ts[2..]) == rs + Targets(ts);
    }
  }

  /** Redirections alone. */
  lemma {:induction false} TargetsParse<W>(c: Cmd<W>, rs: seq<Target<W>>, ts: seq<Tok<W>>, rest: seq<Tok<W>>)
    requires Items(ts) && Arguments(ts) == [] && AfterExec(rest)
    ensures ParseRedirs(Wrapped(c, rs), ts + rest) == Ok(Wrapped(c, rs + Targets(ts)), rest)
    decreases |ts|
  {
    hide ParseItems, ParseRedirs, Wrapped, AfterExec;
    var d := Wrapped(c, rs);
    Front(ts, rest);
    if ts == [] {
      EndStep(d, rest);
      assert rs + [] == rs;
    } else {
      var t := Target(ts[1].word, ts[0].kind == '>' || ts[0].kind == '+');
      WrappedMore(c, rs, t);
      RedirStep(d, ts + rest);
      TargetsParse(c, rs + [t], ts[2..], rest);
      assert rs + [t] + Targets(ts[2..]) == rs + Targets(ts);
    }
  }

  // ------------------------------------------------ what is derived is parsed

  lemma {:induction false} ExecComplete<W(!new)>(ts: seq<Tok<W>>, c: Cmd<W>, rest: seq<Tok<W>>)
    requires DerivesExec(ts, c) && AfterExec(rest)
    ensures ParseExec(ts + rest) == Ok(c, rest)
    decreases |ts|, 0
  {
    hide Wrapped, Targets, Arguments, Items, AfterExec;
    if Items(ts) && |Arguments(ts)| < 10 && c == Wrapped(Exec(Arguments(ts)), Targets(ts)) {
      SimpleComplete(ts, rest);
    } else {
      var k: nat, d :| BlockAt(ts, k) && DerivesLine(ts[1..k], d) && c == Wrapped(d, Targets(ts[k+1..]));
      var tail := ts[k+1..];
      var more := [ts[k]] + (tail + rest);
      assert (ts + rest)[1..] == ts[1..k] + more;
      LineComplete(ts[1..k], d, more);
      BlockComplete(ts + rest, d, more, tail, rest);
    }
  }

  lemma SimpleComplete<W>(ts: seq<Tok<W>>, rest: seq<Tok<W>>)
    requires Items(ts) && |Arguments(ts)| < 10 && AfterExec(rest)
    ensures ParseExec(ts + rest) == Ok(Wrapped(Exec(Arguments(ts)), Targets(ts)), rest)
  {
    hide Arguments, Targets, ParseRedirs, ParseArgs;
    Front(ts, rest);
    ItemsParse([], [], ts, rest);
    assert [] + Arguments(ts) == Arguments(ts) && [] + Targets(ts) == Targets(ts);
    var none: seq<W> := [];
    assert Wrapped(Exec(none), []) == Exec(none);
    assert ParseExec(ts + rest) == ParseItems(Exec([]), ts + rest);
  }

  lemma BlockComplete<W>(all: seq<Tok<W>>, d: Cmd<W>, more: seq<Tok<W>>, tail: seq<Tok<W>>, rest: seq<Tok<W>>)
    requires Is(all, '(') && ParseLine(all[1..]) == Ok(d, more) && Is(more, ')') && more[1..] == tail + rest
    requires Items(tail) && Arguments(tail) == [] && AfterExec(rest)
    ensures ParseExec(all) == Ok(Wrapped(d, Targets(tail)), rest)
  {
    hide Items, Arguments, Targets, AfterExec, ParseLine, ParseRedirs;
    TargetsParse(d, [], tail, rest);
    assert [] + Targets(tail) == Targets(tail);
    assert Wrapped(d, []) == d;
  }

  /** The tokens from `k` on, and those that follow. */
  lemma Behind<W>(ts: seq<Tok<W>>, k: nat, rest: seq<Tok<W>>) returns (more: seq<Tok<W>>)
    requires k < |ts|
    ensures ts + rest == ts[..k] + more && more != [] && more[0] == ts[k] && more[1..] == ts[k+1..] + rest
  {
    more := [ts[k]] + (ts[k+1..] + rest);
  }

  lemma {:induction false} PipeComplete<W(!new)>(ts: seq<Tok<W>>, c: Cmd<W>, rest: seq<Tok<W>>)
    requires DerivesPipe(ts, c) && AfterPipe(rest)
    ensures ParsePipe(ts + rest) == Ok(c, rest)
    decreases |ts|, 1
  {
    hide DerivesExec, ParseExec;
    if DerivesExec(ts, c) {
      ExecComplete(ts, c, rest);
    } else {
      var k :| 0 <= k < |ts| && ts[k].kind == '|' && DerivesExec(ts[..k], c.left) && DerivesPipe(ts[k+1..], c.right);
      var more := Behind(ts, k, rest);
      ExecComplete(ts[..k], c.left, more);
      PipeComplete(ts[k+1..], c.right, rest);
    }
  }

  lemma {:induction false} BackComplete<W(!new)>(ts: seq<Tok<W>>, c: Cmd<W>, rest: seq<Tok<W>>)
    requires DerivesBack(ts, c) && AfterPipe(rest)
    ensures ParseLine(ts + rest) == ParseBacks(c, rest)
    decreases |ts|, 2
  {
    if DerivesPipe(ts, c) {
      PipeComplete(ts, c, rest);
    } else {
      var n := |ts| - 1;
      var more := [ts[n]] + rest;
      assert ts + rest == ts[..n] + more;
      BackComplete(ts[..n], c.cmd, more);
      assert more[1..] == rest;
    }
  }

  lemma {:induction false} LineComplete<W(!new)>(ts: seq<Tok<W>>, c: Cmd<W>, rest: seq<Tok<W>>)
    requires DerivesLine(ts, c) && AfterLine(rest)
    ensures ParseLine(ts + rest) == Ok(c, rest)
    decreases |ts|, 3
  {
    hide DerivesBack, ParsePipe;
    if DerivesBack(ts, c) {
      BackComplete(ts, c, rest);
    } else {
      var k :| 0 <= k < |ts| && ts[k].kind == ';' && DerivesBack(ts[..k], c.left) && DerivesLine(ts[k+1..], c.right);
      var more := Behind(ts, k, rest);
      BackComplete(ts[..k], c.left, more);
      LineComplete(ts[k+1..], c.right, rest);
    }
  }

  // ------------------------------------------------ what is parsed is derived

  /** The tokens that the parser has consumed when `rest` is left. */
  ghost predicate Consumed<W>(ts: seq<Tok<W>>, k: nat, rest: seq<Tok<W>>) {
    k <= |ts| && rest == ts[k..]
  }

  lemma {:induction false} TargetsSound<W>(c: Cmd<W>, rs: seq<Target<W>>, ts: seq<Tok<W>>) returns (k: nat)
    requires ParseRedirs(Wrapped(c, rs), ts).Ok?
    ensures var r := ParseRedirs(Wrapped(c, rs), ts);
      Consumed(ts, k, r.rest) && Items(ts[..k]) && Arguments(ts[..k]) == []
        && r.cmd == Wrapped(c, rs + Targets(ts[..k]))
    decreases |ts|
  {
    hide Wrapped, Items, Arguments, Targets, ParseRedirs;
    RedirsEnd(Wrapped(c, rs), ts);
    if IsRedir(ts) {
      var t := Target(ts[1].word, ts[0].kind == '>' || ts[0].kind == '+');
      WrappedMore(c, rs, t);
      RedirStep(Wrapped(c, rs), ts);
      var n := TargetsSound(c, rs + [t], ts[2..]);
      k := n + 2;
      assert ts[2..][..n] == ts[..k][2..];
      FirstTarget(ts[..k]);
      assert rs + [t] + Targets(ts[..k][2..]) == rs + Targets(ts[..k]);
    } else {
      k := 0;
      NoItems<W>();
      assert ts[..0] == [] && rs + [] == rs;
    }
  }

  /** Where parseredirs stops, and that it panics without the file's word. */
  lemma RedirsEnd<W>(c: Cmd<W>, ts: seq<Tok<W>>)
    ensures !IsRedir(ts) ==> ParseRedirs(c, ts) == Ok(c, ts)
    ensures IsRedir(ts) && ParseRedirs(c, ts).Ok? ==> |ts| > 1 && ts[1].kind == 'a'
  {
  }

  lemma FirstWord<W>(ts: seq<Tok<W>>)
    requires ts != [] && ts[0].kind == 'a'
    ensures Items(ts) <==> Items(ts[1..])
    ensures Arguments(ts) == [ts[0].word] + Arguments(ts[1..]) && Targets(ts) == Targets(ts[1..])
  {
  }

  lemma NoItems<W>()
    ensures Items<W>([]) && Arguments<W>([]) == [] && Targets<W>([]) == []
  {
  }

  lemma FirstTarget<W>(ts: seq<Tok<W>>)
    requires |ts| > 1 && ts[0].kind in {'<', '>', '+'} && ts[1].kind == 'a'
    ensures Items(ts) <==> Items(ts[2..])
    ensures Arguments(ts) == Arguments(ts[2..])
    ensures Targets(ts) == [Target(ts[1].word, ts[0].kind == '>' || ts[0].kind == '+')] + Targets(ts[2..])
  {
  }

  lemma {:induction false} ItemsSound<W>(args: seq<W>, rs: seq<Target<W>>, ts: seq<Tok<W>>) returns (k: nat)
    requires ParseItems(Wrapped(Exec(args), rs), ts).Ok? && |args| < 10
    ensures var r := ParseItems(Wrapped(Exec(args), rs), ts);
      && Consumed(ts, k, r.rest) && Items(ts[..k]) && |args| + |Arguments(ts[..k])| < 10
      && r.cmd == Wrapped(Exec(args + Arguments(ts[..k])), rs + Targets(ts[..k]))
    decreases |ts|
  {
    hide Wrapped, AddArg, Argc, Items, Arguments, Targets, ParseRedirs, ParseArgs, ParseItems;
    var c := Wrapped(Exec(args), rs);
    ItemsEnd(c, ts);
    if IsRedir(ts) {
      var t := Target(ts[1].word, ts[0].kind == '>' || ts[0].kind == '+');
      WrappedMore(Exec(args), rs, t);
      RedirStep(c, ts);
      var n := ItemsSound(args, rs + [t], ts[2..]);
      k := n + 2;
      assert ts[2..][..n] == ts[..k][2..];
      FirstTarget(ts[..k]);
      assert rs + [t] + Targets(ts[..k][2..]) == rs + Targets(ts[..k]);
    } else if Is(ts, 'a') {
      AddWrapped(args, rs, ts[0].word);
      ArgStep(c, ts);
      var n := ItemsSound(args + [ts[0].word], rs, ts[1..]);
      k := n + 1;
      assert ts[1..][..n] == ts[..k][1..];
      FirstWord(ts[..k]);
      assert args + [ts[0].word] + Arguments(ts[..k][1..]) == args + Arguments(ts[..k]);
    } else {
      k := 0;
      NoItems<W>();
      assert ts[..0] == [] && args + [] == args && rs + [] == rs;
    }
  }

  lemma ItemsEnd<W>(c: Cmd<W>, ts: seq<Tok<W>>)
    requires ParseItems(c, ts).Ok?
    ensures IsRedir(ts) ==> |ts| > 1 && ts[1].kind == 'a'
    ensures Is(ts, 'a') ==> Argc(c) + 1 < 10
    ensures !IsRedir(ts) && !Is(ts, 'a') ==> ParseItems(c, ts) == Ok(c, ts)
  {
    RedirsEnd(c, ts);
  }

  lemma SimpleDerived<W(!new)>(ts: seq<Tok<W>>)
    requires Items(ts) && |Arguments(ts)| < 10
    ensures DerivesExec(ts, Wrapped(Exec(Arguments(ts)), Targets(ts)))
  {
    hide Items, Arguments, Targets, Wrapped, DerivesLine;
  }

  lemma BlockDerived<W(!new)>(ts: seq<Tok<W>>, k: nat, d: Cmd<W>)
    requires BlockAt(ts, k) && DerivesLine(ts[1..k], d)
    ensures DerivesExec(ts, Wrapped(d, Targets(ts[k+1..])))
  {
    hide Items, Arguments, Targets, Wrapped, DerivesLine;
  }

  /** What parseexec has parsed, by the first token. */
  lemma ExecShape<W>(ts: seq<Tok<W>>)
    requires ParseExec(ts).Ok?
    ensures Is(ts, '(') ==>
      var p := ParseLine(ts[1..]);
      p.Ok? && Is(p.rest, ')') && ParseExec(ts) == ParseRedirs(Wrapped(p.cmd, []), p.rest[1..])
    ensures !Is(ts, '(') ==> ParseExec(ts) == ParseItems(Wrapped(Exec([]), []), ts)
  {
    hide ParseLine, ParseRedirs, ParseArgs;
  }

  lemma {:induction false} ExecSound<W(!new)>(ts: seq<Tok<W>>) returns (k: nat)
    requires ParseExec(ts).Ok?
    ensures Consumed(ts, k, ParseExec(ts).rest) && DerivesExec(ts[..k], ParseExec(ts).cmd)
    decreases |ts|, 2
  {
    hide Items, Arguments, Targets, Wrapped, DerivesExec, DerivesLine;
    hide ParseExec, ParseLine, ParseRedirs, ParseItems;
    ExecShape(ts);
    if Is(ts, '(') {
      var n := LineSound(ts[1..]);
      var p := ParseLine(ts[1..]);
      var m := TargetsSound(p.cmd, [], p.rest[1..]);
      k := n + 2 + m;
      var all := ts[..k];
      assert p.rest[1..] == ts[n + 2..];
      assert all[n + 2..] == ts[n + 2..][..m] && all[n + 1] == ts[n + 1] == p.rest[0];
      assert [] + Targets(all[n + 2..]) == Targets(all[n + 2..]);
      assert all[1..n + 1] == ts[1..][..n];
      BlockDerived(all, n + 1, p.cmd);
    } else {
      k := ItemsSound([], [], ts);
      assert [] + Arguments(ts[..k]) == Arguments(ts[..k]) && [] + Targets(ts[..k]) == Targets(ts[..k]);
      SimpleDerived(ts[..k]);
    }
  }

  lemma {:induction false} PipeSound<W(!new)>(ts: seq<Tok<W>>) returns (k: nat)
    requires ParsePipe(ts).Ok?
    ensures Consumed(ts, k, ParsePipe(ts).rest) && DerivesPipe(ts[..k], ParsePipe(ts).cmd)
    decreases |ts|, 3
  {
    hide DerivesExec;
    var e := ParseExec(ts);
    var n := ExecSound(ts);
    if Is(e.rest, '|') {
      var m := PipeSound(e.rest[1..]);
      k := n + 1 + m;
      var all := ts[..k];
      assert all[..n] == ts[..n] && all[n] == e.rest[0] && all[n + 1..] == e.rest[1..][..m];
    } else {
      k := n;
    }
  }

  lemma {:induction false} BacksSound<W(!new)>(pre: seq<Tok<W>>, c: Cmd<W>, ts: seq<Tok<W>>) returns (k: nat)
    requires DerivesBack(pre, c) && ParseBacks(c, ts).Ok?
    ensures Consumed(ts, k, ParseBacks(c, ts).rest) && DerivesLine(pre + ts[..k], ParseBacks(c, ts).cmd)
    decreases |ts|, 0
  {
    hide DerivesPipe;
    if Is(ts, '&') {
      var more := pre + [ts[0]];
      assert more[..|more| - 1] == pre;
      var n := BacksSound(more, Back(c), ts[1..]);
      k := n + 1;
      assert pre + ts[..k] == more + ts[1..][..n];
    } else if Is(ts, ';') {
      var n := LineSound(ts[1..]);
      k := n + 1;
      var all := pre + ts[..k];
      assert all[..|pre|] == pre && all[|pre|] == ts[0] && all[|pre| + 1..] == ts[1..][..n];
    } else {
      k := 0;
      assert pre + ts[..0] == pre;
    }
  }

  lemma {:induction false} LineSound<W(!new)>(ts: seq<Tok<W>>) returns (k: nat)
    requires ParseLine(ts).Ok?
    ensures Consumed(ts, k, ParseLine(ts).rest) && DerivesLine(ts[..k], ParseLine(ts).cmd)
    decreases |ts|, 4
  {
    var p := ParsePipe(ts);
    var n := PipeSound(ts);
    var m := BacksSound(ts[..n], p.cmd, p.rest);
    k := n + m;
    assert ts[..k] == ts[..n] + p.rest[..m];
  }

  /** The parser accepts exactly the token sequences of the language, with exactly the command they stand for. */
  lemma ParsesIff<W(!new)>(ts: seq<Tok<W>>, c: Cmd<W>)
    ensures ParseAll(ts) == Ok(c, []) <==> DerivesLine(ts, c)
  {
    if DerivesLine(ts, c) {
      LineComplete(ts, c, []);
      assert ts + [] == ts;
    }
    if ParseAll(ts) == Ok(c, []) {
      var k := LineSound(ts);
      assert ts[..k] == ts;
    }
  }
}
