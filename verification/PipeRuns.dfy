/**
 A pipe among all the other steps of the process table: every step that the kernel
 can take between two turns at the pipe, and whole runs of both.
 */
module PipeRuns {
  import opened Base
  import opened Processes
  import opened Pipes

  /** A step of the process table, by whoever it is. */
  datatype Step =
    | Alloc(stack: bool) | GiveUp(np: nat) | Adopt(np: nat) | Start(np: nat) | Fork(stack: bool, space: bool)
    | Wakeup(chan: Chan) | Exit | Wait | Sleep(chan: Chan) | Resume | Yield | Kill(pid: nat) | Dispatch

  /** The step can be taken now. */
  predicate Enabled(k: Kernel, s: Step)
    reads k
  {
    match s
    case Alloc(_) => true
    case GiveUp(np) => np < |k.proc| && k.proc[np].state.Embryo? && k.proc[np].parent == -1
    case Adopt(np) => k.cur != -1 && np < |k.proc| && k.proc[np].state.Embryo? && k.proc[np].parent == -1
    case Start(np) => np < |k.proc| && k.proc[np].state.Embryo? && k.proc[np].parent != -1 && k.proc[np].pid > 0
    case Fork(_, _) => k.cur != -1
    case Wakeup(_) => true
    case Exit => k.cur != -1 && k.cur != k.initproc
    case Wait => k.cur != -1
    case Sleep(chan) => k.cur != -1 && !chan.OfProc?
    case Resume => k.cur != -1
    case Yield => k.cur != -1
    case Kill(_) => true
    case Dispatch => k.cur == -1
  }

  /** Whoever sleeps on an address afterwards slept on it before. */
  ghost predicate Calmer(t: Table, t1: Table) {
    |t1| == |t| && forall i | 0 <= i < |t| && t1[i].state.Sleeping? ::
      t1[i].chan.OfProc? || (t[i].state.Sleeping? && t[i].chan == t1[i].chan)
  }

  lemma CalmerNobody(t: Table, t1: Table, a: nat)
    requires Calmer(t, t1) && SomeoneOn(t1, a)
    ensures SomeoneOn(t, a)
  {
    var i :| 0 <= i < |t1| && SleepsOn(t1[i], Address(a));
    assert SleepsOn(t[i], Address(a));
  }

  /** wakeup, and all that exit does to the table, put nobody to sleep. */
  lemma WokenCalmer(t: Table, chan: Chan)
    ensures Calmer(t, Woken(t, chan))
  {
  }

  lemma ExitedCalmer(t: Table, cur: nat, init: nat)
    requires cur < |t| && t[cur].parent >= 0
    ensures Calmer(t, Exited(t, cur, init))
  {
  }

  /** One step of the process table. It adds no sleeper on any address, except that sleep adds the caller on its own. */
  method Take(k: Kernel, s: Step)
    requires k.Valid() && Enabled(k, s)
    modifies k
    ensures k.Valid() && |k.proc| == |old(k.proc)|
    ensures !s.Sleep? ==> Calmer(old(k.proc), k.proc)
    ensures s.Sleep? ==> forall i | 0 <= i < |k.proc| && k.proc[i].state.Sleeping? ::
      k.proc[i].chan == s.chan || (old(k.proc)[i].state.Sleeping? && old(k.proc)[i].chan == k.proc[i].chan)
  {
    hide Good, Exited, Woken;
    k.TableFacts();
    ghost var t0 := k.proc;
    match s {
      case Alloc(stack) => var _ := k.Allocproc(stack);
      case GiveUp(np) => k.Abandon(np);
      case Adopt(np) => k.Adopt(np);
      case Start(np) => k.Start(np);
      case Fork(stack, space) => var _ := k.Fork(stack, space);
      case Wakeup(chan) =>
        WokenCalmer(t0, chan);
        k.Wakeup(chan);
      case Exit =>
        ghost var me := k.cur;
        k.Exit();
        ExitedCalmer(t0, me, k.initproc);
      case Wait => var _ := k.Wait();
      case Sleep(chan) => k.Sleep(chan);
      case Resume => k.Resume();
      case Yield => k.Yield();
      case Kill(pid) => var _ := k.Kill(pid);
      case Dispatch => var _ := k.Dispatch();
    }
    k.TableFacts();
  }

  // -------------------------------------------------------------- whole runs

  /** A turn of the current process at the pipe, or any other step. */
  datatype Turn = Writes(src: seq<byte>, at: nat) | Reads(n: nat) | Closes(writable: bool) | Other(s: Step)

  /** The turn can be taken now; no other step may sleep on the ring's addresses. */
  predicate Possible(p: Pipe, t: Turn)
    reads p, p.k
  {
    match t
    case Writes(src, at) => p.k.cur != -1 && at <= |src|
    case Reads(_) => p.k.cur != -1
    case Closes(writable) => if writable then p.writeopen else p.readopen
    case Other(s) => Enabled(p.k, s) && s != Sleep(Address(p.nreadAddr)) && s != Sleep(Address(p.nwriteAddr))
  }

  /** A step that is not at the pipe cannot break its wakeup properties. */
  method Elsewhere(p: Pipe, s: Step)
    requires p.Valid() && p.k.Valid() && Possible(p, Other(s))
    modifies p.k
    ensures p.Valid() && p.k.Valid()
    ensures (old(p.WritersAwake()) ==> p.WritersAwake()) && (old(p.ReadersAwake()) ==> p.ReadersAwake())
  {
    hide Good, SomeoneOn, Holds;
    ghost var t0 := p.k.proc;
    label before:
    Take(p.k, s);
    NobodyNew(t0, p.k.proc, s, p.nreadAddr);
    NobodyNew(t0, p.k.proc, s, p.nwriteAddr);
    p.OthersKeep@before();
  }

  lemma NobodyNew(t: Table, t1: Table, s: Step, a: nat)
    requires |t1| == |t| && s != Sleep(Address(a)) && (s.Sleep? ==> !s.chan.OfProc?)
    requires !s.Sleep? ==> Calmer(t, t1)
    requires s.Sleep? ==> forall i | 0 <= i < |t1| && t1[i].state.Sleeping? ::
      t1[i].chan == s.chan || (t[i].state.Sleeping? && t[i].chan == t1[i].chan)
    ensures SomeoneOn(t1, a) ==> SomeoneOn(t, a)
  {
    if SomeoneOn(t1, a) {
      if s.Sleep? {
        var i :| 0 <= i < |t1| && SleepsOn(t1[i], Address(a));
        assert SleepsOn(t[i], Address(a));
      } else {
        CalmerNobody(t, t1, a);
      }
    }
  }

  /**
   Any run: at each point some process writes, reads or closes an end, or anything else
   happens in the process table. What is read is what was written, in order; a writer
   sleeps only beside a full ring that can be read; a reader sleeps only beside an empty
   ring that can be written, unless a writer has lost a wakeup (`lost`). Turns that are
   not possible are skipped.
   */
  method Run(p: Pipe, turns: seq<Turn>) returns (ghost lost: bool)
    requires p.Valid() && p.k.Valid() && p.WritersAwake() && p.ReadersAwake()
    modifies p, p.data, p.k
    ensures p.Valid() && p.k.Valid() && old(p.put) <= p.put && old(p.got) <= p.got
    ensures |p.got| <= |p.put| <= |p.got| + PIPESIZE && p.got == p.put[..|p.got|]
    ensures p.WritersAwake() && (!lost ==> p.ReadersAwake())
    ensures (forall t | t in turns && t.Writes? :: |t.src| - t.at <= PIPESIZE) ==> !lost
  {
    hide Good, SomeoneOn, Holds, Enabled;
    lost := false;
    p.PutBound();
    var i := 0;
    while i < |turns|
      invariant i <= |turns| && p.Valid() && p.k.Valid() && old(p.put) <= p.put && old(p.got) <= p.got
      invariant p.WritersAwake() && (!lost ==> p.ReadersAwake())
      invariant (forall t | t in turns && t.Writes? :: |t.src| - t.at <= PIPESIZE) ==> !lost
    {
      if Possible(p, turns[i]) {
        match turns[i] {
          case Writes(src, at) =>
            lost := lost || p.LosesWakeup(|src| - at);
            var _ := p.Write(src, at);
          case Reads(n) =>
            var dst := new byte[n](i => 0);
            var _ := p.Read(n, dst);
          case Closes(writable) =>
            var _ := p.Close(writable);
          case Other(s) => Elsewhere(p, s);
        }
      }
      i := i + 1;
    }
    p.PutBound();
  }
}
