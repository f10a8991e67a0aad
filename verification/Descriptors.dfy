/**
 The table of open files and the descriptors of the processes (file.c, sysfile.c,
 the file part of fork and exit in proc.c): reference counts, and the lifetime of
 pipes (pipe.c pipealloc, pipeclose).
 */
module Descriptors {
  import Processes

  const NFILE: nat := 100
  const NOFILE: nat := 16
  const NPROC: nat := Processes.NPROC
  const SLOTS: nat := 1024    // NPROC * NOFILE

  datatype Kind = NoKind | OfPipe(p: nat) | OfInode(i: nat)

  /** `struct file` */
  datatype File = File(ref: nat, kind: Kind, readable: bool, writable: bool)

  /** The open ends of a pipe. */
  datatype Ends = Ends(readopen: bool, writeopen: bool)

  /** How often `s` occurs. */
  function Count(o: seq<int>, s: int): nat {
    if o == [] then 0 else Count(o[..|o|-1], s) + if o[|o|-1] == s then 1 else 0
  }

  lemma {:induction false} CountSet(o: seq<int>, i: nat, v: int, s: int)
    requires i < |o|
    ensures Count(o[i := v], s) == Count(o, s) - (if o[i] == s then 1 else 0) + (if v == s then 1 else 0)
  {
    var n := |o| - 1;
    if i < n {
      CountSet(o[..n], i, v, s);
      assert o[i := v][..n] == o[..n][i := v];
    } else {
      assert o[i := v][..n] == o[..n];
    }
  }

  lemma {:induction false} CountNone(o: seq<int>, s: int)
    ensures Count(o, s) == 0 <==> s !in o
  {
    if o != [] {
      CountNone(o[..|o|-1], s);
      assert o == o[..|o|-1] + [o[|o|-1]];
    }
  }

  // ------------------------------------------------------------ the invariant

  /**
   Each file's count is the number of descriptors that refer to it plus the references `hold` of
   the system call in progress.
   */
  ghost predicate Counted(ft: seq<File>, ofile: seq<int>, hold: seq<int>) {
    && |ft| == |hold| == NFILE && |ofile| == SLOTS
    && (forall i | 0 <= i < SLOTS :: -1 <= ofile[i] < NFILE)
    && (forall s | 0 <= s < NFILE :: ft[s].ref == Count(ofile, s) + hold[s])
  }

  /** Slot `s` is the read or the write end of pipe `p`. */
  predicate EndOf(f: File, p: nat, write: bool) {
    f.ref > 0 && f.kind == OfPipe(p) && f.writable == write && f.readable == !write
  }

  /** Pipes in memory have an open end, and each open end is exactly one open file; unused files have no kind. */
  ghost predicate PipesOk(ft: seq<File>, pipes: map<nat, Ends>) {
    OpenPipes(pipes) && EndsOpen(ft, pipes) && EndsOnce(ft) && EndsThere(ft, pipes) && UnusedPlain(ft)
  }

  ghost predicate OpenPipes(pipes: map<nat, Ends>) {
    forall p | p in pipes :: pipes[p].readopen || pipes[p].writeopen
  }

  /** A file of a pipe is one of its two ends, and that end is open. */
  ghost predicate EndsOpen(ft: seq<File>, pipes: map<nat, Ends>) {
    forall s | 0 <= s < |ft| && ft[s].kind.OfPipe? :: EndOpen(ft[s], pipes)
  }

  predicate EndOpen(f: File, pipes: map<nat, Ends>) {
    && f.kind.OfPipe? && f.kind.p in pipes && f.readable != f.writable && f.ref > 0
    && if f.writable then pipes[f.kind.p].writeopen else pipes[f.kind.p].readopen
  }

  ghost predicate EndsOnce(ft: seq<File>) {
    forall s, t | 0 <= s < t < |ft| && ft[s].kind.OfPipe? && ft[t].kind == ft[s].kind ::
      ft[s].writable != ft[t].writable
  }

  ghost predicate HasEnd(ft: seq<File>, p: nat, write: bool) {
    exists s :: 0 <= s < |ft| && EndOf(ft[s], p, write)
  }

  ghost predicate EndsThere(ft: seq<File>, pipes: map<nat, Ends>) {
    forall p | p in pipes ::
      (pipes[p].readopen ==> HasEnd(ft, p, false)) && (pipes[p].writeopen ==> HasEnd(ft, p, true))
  }

  ghost predicate UnusedPlain(ft: seq<File>) {
    forall s | 0 <= s < |ft| && ft[s].ref == 0 :: ft[s].kind == NoKind
  }

  /** Every page that a pipe was made of has been freed exactly once, or not yet and the pipe is there. */
  ghost predicate Paired(made: seq<int>, freed: seq<int>, pipes: map<nat, Ends>) {
    forall p: nat :: Count(made, p) == Count(freed, p) + if p in pipes then 1 else 0
  }

  lemma CountMore(o: seq<int>, v: int, s: int)
    ensures Count(o + [v], s) == Count(o, s) + if v == s then 1 else 0
  {
    assert (o + [v])[..|o|] == o;
  }

  function None(): seq<int> { seq<int>(NFILE, i => 0) }

  function Slot(proc: nat, fd: nat): nat
    requires proc < NPROC && fd < NOFILE
    ensures Slot(proc, fd) < SLOTS
  {
    proc * NOFILE + fd
  }

  /** Process `proc` has no open files. */
  ghost predicate NoFiles(ofile: seq<int>, proc: nat)
    requires |ofile| == SLOTS && proc < NPROC
  {
    forall fd | 0 <= fd < NOFILE :: ofile[Slot(proc, fd)] == -1
  }

  /** There are two unused files. */
  predicate TwoUnused(ft: seq<File>) {
    exists s, t :: 0 <= s < t < |ft| && ft[s].ref == 0 && ft[t].ref == 0
  }

  /** Process `proc` has two free descriptors. */
  predicate TwoFree(ofile: seq<int>, proc: nat)
    requires |ofile| == SLOTS && proc < NPROC
  {
    exists a, b :: 0 <= a < b < NOFILE && ofile[Slot(proc, a)] == -1 && ofile[Slot(proc, b)] == -1
  }

  /** Descriptor `fd` of process `proc` is free, and all below it are in use. */
  ghost predicate Lowest(ofile: seq<int>, proc: nat, fd: int)
    requires |ofile| == SLOTS && proc < NPROC
  {
    && 0 <= fd < NOFILE && ofile[Slot(proc, fd)] == -1
    && forall i | 0 <= i < fd :: ofile[Slot(proc, i)] != -1
  }

  /** The two lowest free descriptors. */
  ghost predicate TwoLowest(ofile: seq<int>, proc: nat, a: int, b: int)
    requires |ofile| == SLOTS && proc < NPROC
  {
    && Lowest(ofile, proc, a) && a < b < NOFILE && ofile[Slot(proc, b)] == -1
    && forall i | a < i < b :: ofile[Slot(proc, i)] != -1
  }

  class Kernel {
    var ft: seq<File>
    var ofile: seq<int>            // descriptor fd of process p is at p * NOFILE + fd; -1 is none
    var pipes: map<nat, Ends>      // the pipes in memory, by page
    ghost var hold: seq<int>       // references of the system call in progress
    ghost var made: seq<int>       // pages of the pipes made so far
    ghost var freed: seq<int>      // pages of the pipes freed so far

    ghost predicate Valid()
      reads this
    {
      && |ft| == |hold| == NFILE && |ofile| == SLOTS && (forall i | 0 <= i < SLOTS :: -1 <= ofile[i] < NFILE)
      && Counted(ft, ofile, hold) && PipesOk(ft, pipes) && Paired(made, freed, pipes)
    }

    /** Between system calls: all references are in descriptors. */
    ghost predicate Quiet()
      reads this
    {
      Valid() && hold == None()
    }

    constructor ()
      ensures Quiet() && pipes == map[] && (forall i | 0 <= i < SLOTS :: ofile[i] == -1) && made == freed == []
    {
      ft := seq(NFILE, i => File(0, NoKind, false, false));
      ofile := seq<int>(SLOTS, i => -1);
      pipes, made, freed := map[], [], [];
      hold := None();
      new;
      forall s | 0 <= s < NFILE ensures Count(ofile, s) == 0 {
        CountNone(ofile, s);
      }
    }

    /** filealloc: an unused file with one reference, the caller's, or -1. */
    method Filealloc() returns (f: int)
      requires Valid()
      modifies this`ft, this`hold
      ensures Valid() && (f == -1 <==> forall s | 0 <= s < NFILE :: old(ft)[s].ref != 0)
      ensures f == -1 ==> ft == old(ft) && hold == old(hold)
      ensures f != -1 ==>
        0 <= f < NFILE && old(ft)[f].ref == 0 && ft == old(ft)[f := old(ft)[f].(ref := 1)]
          && hold == old(hold)[f := old(hold)[f] + 1]
    {
      f := 0;
      while f < NFILE && ft[f].ref != 0
        invariant 0 <= f <= NFILE && forall s | 0 <= s < f :: ft[s].ref != 0
      {
        f := f + 1;
      }
      if f == NFILE {
        return -1;
      }
      RefChanged(ft, pipes, f, 1);
      ft := ft[f := ft[f].(ref := 1)];
      hold := hold[f := hold[f] + 1];
    }

    /** filedup */
    method Filedup(f: nat)
      requires Valid() && f < NFILE && ft[f].ref >= 1
      modifies this`ft, this`hold
      ensures Valid() && ft == old(ft)[f := old(ft)[f].(ref := old(ft)[f].ref + 1)]
        && hold == old(hold)[f := old(hold)[f] + 1]
    {
      RefChanged(ft, pipes, f, ft[f].ref + 1);
      ft := ft[f := ft[f].(ref := ft[f].ref + 1)];
      hold := hold[f := hold[f] + 1];
    }

    /** fileclose */
    method Fileclose(f: nat)
      requires Valid() && f < NFILE && ft[f].ref >= 1
      modifies this`ft, this`hold, this`pipes, this`freed
      ensures Valid() && hold == old(hold)[f := old(hold)[f] - 1]
      ensures old(ft)[f].ref > 1 ==>
        ft == old(ft)[f := old(ft)[f].(ref := old(ft)[f].ref - 1)] && pipes == old(pipes) && freed == old(freed)
      ensures old(ft)[f].ref == 1 ==> ft == old(ft)[f := old(ft)[f].(ref := 0, kind := NoKind)]
      ensures old(ft)[f].ref == 1 ==> pipes == Closed(old(pipes), old(ft)[f])
      ensures freed == if old(ft)[f].ref == 1
        && LastEnd(old(pipes), old(ft)[f]) then old(freed) + [old(ft)[f].kind.p] else old(freed)
    {
      hide PipesOk, Paired;
      ghost var ft0, pipes0 := ft, pipes;
      hold := hold[f := hold[f] - 1];
      if ft[f].ref > 1 {
        RefChanged(ft, pipes, f, ft[f].ref - 1);
        ft := ft[f := ft[f].(ref := ft[f].ref - 1)];
        return;
      }
      CloseOk(ft, pipes, f);
      PairedFreed(made, freed, pipes, ft[f]);
      var ff := ft[f];
      ft := ft[f := ft[f].(ref := 0, kind := NoKind)];
      if ff.kind.OfPipe? {
        Pipeclose(ff.kind.p, ff.writable);
      }
    }

    /** pipeclose */
    method Pipeclose(p: nat, writable: bool)
      requires p in pipes
      modifies this`pipes, this`freed
      ensures var e := old(pipes)[p]; var e1 := if writable then e.(writeopen := false) else e.(readopen := false);
        if e1 == Ends(false, false) then pipes == old(pipes) - {p} && freed == old(freed) + [p]
        else pipes == old(pipes)[p := e1] && freed == old(freed)
    {
      if writable {
        pipes := pipes[p := pipes[p].(writeopen := false)];
      } else {
        pipes := pipes[p := pipes[p].(readopen := false)];
      }
      if !pipes[p].readopen && !pipes[p].writeopen {
        freed := freed + [p];
        pipes := pipes - {p};
      }
    }

    /** fdalloc by process `proc`: its first free descriptor takes over the caller's reference, or -1. */
    method Fdalloc(proc: nat, f: nat) returns (fd: int)
      requires Valid() && proc < NPROC && f < NFILE
      modifies this`ofile, this`hold
      ensures Valid() && -1 <= fd < NOFILE
        && (fd == -1 <==> forall i | 0 <= i < NOFILE :: old(ofile)[Slot(proc, i)] != -1)
      ensures fd == -1 ==> ofile == old(ofile) && hold == old(hold)
      ensures fd != -1 ==>
        old(ofile)[Slot(proc, fd)] == -1 && (forall i | 0 <= i < fd :: old(ofile)[Slot(proc, i)] != -1)
      ensures fd != -1 ==> ofile == old(ofile)[Slot(proc, fd) := f] && hold == old(hold)[f := old(hold)[f] - 1]
    {
      fd := 0;
      while fd < NOFILE
        invariant 0 <= fd <= NOFILE && forall i | 0 <= i < fd :: ofile[Slot(proc, i)] != -1
      {
        if ofile[Slot(proc, fd)] == -1 {
          SetSlot(ft, ofile, hold, Slot(proc, fd), f);
          ofile := ofile[Slot(proc, fd) := f];
          hold := hold[f := hold[f] - 1];
          return;
        }
        fd := fd + 1;
      }
      return -1;
    }

    /** `ofile[fd] = 0`, after which the caller has the reference. */
    method Clear(proc: nat, fd: nat)
      requires Valid() && proc < NPROC && fd < NOFILE && ofile[Slot(proc, fd)] != -1
      modifies this`ofile, this`hold
      ensures Valid() && ofile == old(ofile)[Slot(proc, fd) := -1]
      ensures var f := old(ofile)[Slot(proc, fd)]; 0 <= f < NFILE && hold == old(hold)[f := old(hold)[f] + 1]
    {
      ClearSlot(ft, ofile, hold, Slot(proc, fd));
      var f := ofile[Slot(proc, fd)];
      ofile := ofile[Slot(proc, fd) := -1];
      hold := hold[f := hold[f] + 1];
    }

    /** sys_dup */
    method SysDup(proc: nat, fd: int) returns (r: int)
      requires Quiet() && proc < NPROC
      modifies this`ft, this`ofile, this`hold
      ensures Quiet() && (r == -1 ==> ft == old(ft) && ofile == old(ofile))
      ensures r != -1 ==>
        && |old(ofile)| == SLOTS && Lowest(old(ofile), proc, r) && 0 <= fd < NOFILE && old(ofile)[Slot(proc, fd)] != -1
        && ofile == old(ofile)[Slot(proc, r) := old(ofile)[Slot(proc, fd)]]
      ensures r == -1
        <==> !(0 <= fd < NOFILE) || old(ofile)[Slot(proc, fd)] == -1 || forall i | 0 <= i < NOFILE ::
          old(ofile)[Slot(proc, i)] != -1
    {
      hide PipesOk;
      if fd < 0 || fd >= NOFILE || ofile[Slot(proc, fd)] == -1 {
        return -1;
      }
      var f := ofile[Slot(proc, fd)];
      InUse(ft, ofile, hold, Slot(proc, fd));
      r := Fdalloc(proc, f);
      if r == -1 {
        return;
      }
      Filedup(f);
      assert hold == None();
    }

    /** sys_close */
    method SysClose(proc: nat, fd: int) returns (r: int)
      requires Quiet() && proc < NPROC
      modifies this`ft, this`ofile, this`hold, this`pipes, this`freed
      ensures Quiet() && (r == 0 <==> 0 <= fd < NOFILE && old(ofile)[Slot(proc, fd)] != -1) && (r == 0 || r == -1)
      ensures r == 0 ==> ofile == old(ofile)[Slot(proc, fd) := -1]
      ensures r == -1 ==> ft == old(ft) && ofile == old(ofile) && pipes == old(pipes) && freed == old(freed)
    {
      hide PipesOk;
      if fd < 0 || fd >= NOFILE || ofile[Slot(proc, fd)] == -1 {
        return -1;
      }
      var f := ofile[Slot(proc, fd)];
      InUse(ft, ofile, hold, Slot(proc, fd));
      Clear(proc, fd);
      Fileclose(f);
      assert hold == None();
      return 0;
    }

    /** pipealloc; `page` is what kalloc returns, -1 for none. On failure nothing is left behind. */
    method Pipealloc(page: int) returns (ok: bool, f0: int, f1: int)
      requires Valid() && -1 <= page && page !in pipes
      modifies this`ft, this`hold, this`pipes, this`made, this`freed
      ensures Valid() && freed == old(freed) && (ok <==> page != -1 && TwoUnused(old(ft)))
      ensures !ok ==> ft == old(ft) && hold == old(hold) && pipes == old(pipes) && made == old(made)
      ensures ok ==>
        0 <= f0 < NFILE && 0 <= f1 < NFILE && f0 != f1 && old(ft)[f0].ref == 0 && old(ft)[f1].ref == 0 && page >= 0
      ensures ok ==> hold == old(hold)[f0 := old(hold)[f0] + 1][f1 := old(hold)[f1] + 1]
      ensures ok ==> ft == old(ft)[f0 := File(1, OfPipe(page), true, false)][f1 := File(1, OfPipe(page), false, true)]
      ensures ok ==> pipes == old(pipes)[page := Ends(true, true)] && made == old(made) + [page]
    {
      hide Counted, PipesOk, Paired, UnusedPlain;
      ghost var ft0, hold0 := ft, hold;
      ok := false;
      f0, f1 := AllocTwo();
      if f1 == -1 {
        return;
      }
      if page == -1 {
        GiveUp(f0, f1);
        Restored(ft0, hold0, f0, f1);
        return;
      }
      Equip(f0, f1, page);
      ok := true;
    }

    /** The two files of a pipe, with one reference each, or none. */
    method AllocTwo() returns (f0: int, f1: int)
      requires Valid()
      modifies this`ft, this`hold, this`pipes, this`freed
      ensures Valid() && -1 <= f0 < NFILE && -1 <= f1 < NFILE && pipes == old(pipes) && freed == old(freed)
      ensures f1 == -1 ==> ft == old(ft) && hold == old(hold)
      ensures f1 != -1 <==> TwoUnused(old(ft))
      ensures f1 != -1 ==> f0 >= 0 && f0 != f1 && old(ft)[f0].ref == 0 == old(ft)[f1].ref
      ensures f1 != -1 ==> old(ft)[f0].kind == NoKind == old(ft)[f1].kind
      ensures f1 != -1 ==> ft == old(ft)[f0 := old(ft)[f0].(ref := 1)][f1 := old(ft)[f1].(ref := 1)]
      ensures f1 != -1 ==> hold == old(hold)[f0 := old(hold)[f0] + 1][f1 := old(hold)[f1] + 1]
    {
      ghost var ft0 := ft;
      assert UnusedPlain(ft0);
      hide Counted, PipesOk, Paired, UnusedPlain;
      f1 := -1;
      f0 := Filealloc();
      if f0 == -1 {
        return;
      }
      Plain(ft0, f0);
      f1 := Filealloc();
      if f1 == -1 {
        GiveUp(f0, f1);
        assert ft == ft0 && hold == old(hold);
        return;
      }
      Plain(ft0, f1);
    }

    /** The pipe and its two files are set up. */
    method Equip(f0: nat, f1: nat, page: nat)
      requires Valid() && f0 < NFILE && f1 < NFILE && f0 != f1 && page !in pipes
      requires ft[f0].ref == 1 == ft[f1].ref && ft[f0].kind == ft[f1].kind == NoKind
      modifies this`ft, this`pipes, this`made
      ensures Valid()
        && ft == old(ft)[f0 := File(1, OfPipe(page), true, false)][f1 := File(1, OfPipe(page), false, true)]
      ensures pipes == old(pipes)[page := Ends(true, true)] && made == old(made) + [page]
    {
      hide Counted, PipesOk, Paired;
      PipeMade(ft, ofile, hold, pipes, f0, f1, page);
      PairedMade(made, freed, pipes, page);
      ft := ft[f0 := File(1, OfPipe(page), true, false)][f1 := File(1, OfPipe(page), false, true)];
      pipes := pipes[page := Ends(true, true)];
      made := made + [page];
    }

    /** The error path of pipealloc, for files that are not of any kind yet. */
    method GiveUp(f0: nat, f1: int)
      requires Valid() && f0 < NFILE && -1 <= f1 < NFILE && f0 != f1 && ft[f0].ref == 1 && ft[f0].kind == NoKind
      requires f1 != -1 ==> ft[f1].ref == 1 && ft[f1].kind == NoKind
      modifies this`ft, this`hold, this`pipes, this`freed
      ensures Valid() && pipes == old(pipes) && freed == old(freed)
      ensures f1 == -1 ==> ft == old(ft)[f0 := old(ft)[f0].(ref := 0)] && hold == old(hold)[f0 := old(hold)[f0] - 1]
      ensures f1 != -1 ==> ft == old(ft)[f0 := old(ft)[f0].(ref := 0)][f1 := old(ft)[f1].(ref := 0)]
      ensures f1 != -1 ==> hold == old(hold)[f0 := old(hold)[f0] - 1][f1 := old(hold)[f1] - 1]
    {
      hide Counted, PipesOk, Paired;
      Fileclose(f0);
      if f1 != -1 {
        Fileclose(f1);
      }
    }

    /** `fileclose(rf); fileclose(wf);` for the only references to both ends of a pipe: the page is freed. */
    method CloseBoth(rf: nat, wf: nat, ghost p: nat)
      requires Valid() && rf < NFILE && wf < NFILE && rf != wf && ft[rf].ref == 1 && ft[wf].ref == 1
      requires EndOf(ft[rf], p, false) && EndOf(ft[wf], p, true)
      modifies this`ft, this`hold, this`pipes, this`freed
      ensures Valid() && pipes == old(pipes) - {p} && p in old(pipes) && freed == old(freed) + [p]
      ensures hold == old(hold)[rf := old(hold)[rf] - 1][wf := old(hold)[wf] - 1]
    {
      hide Counted, PipesOk, Paired, Closed, LastEnd;
      BothOpen(ft, pipes, rf, wf, p);
      CloseTwo(pipes, ft[rf], ft[wf], p);
      Fileclose(rf);
      Fileclose(wf);
    }

    /**
     sys_pipe of process `proc`. If the descriptors run out, both ends are closed again and the
     page is freed, once.
     */
    method SysPipe(proc: nat, page: int) returns (r: int, fd0: int, fd1: int)
      requires Quiet() && proc < NPROC && -1 <= page && page !in pipes
      modifies this`ft, this`ofile, this`hold, this`pipes, this`made, this`freed
      ensures Quiet() && (r == 0 || r == -1) && |old(ofile)| == SLOTS
      ensures r == 0 <==> page != -1 && TwoUnused(old(ft)) && TwoFree(old(ofile), proc)
      ensures r == -1 ==> ofile == old(ofile) && pipes == old(pipes) && |made| - |freed| == |old(made)| - |old(freed)|
      ensures r == 0 ==> page >= 0 && pipes == old(pipes)[page := Ends(true, true)]
      ensures r == 0 ==> TwoLowest(old(ofile), proc, fd0, fd1)
      ensures r == 0 ==>
        exists f0, f1 :: (0 <= f0 < NFILE && 0 <= f1 < NFILE && EndOf(ft[f0], page, false) && EndOf(ft[f1], page, true)
        && ofile == old(ofile)[Slot(proc, fd0) := f0][Slot(proc, fd1) := f1])
    {
      hide Counted, PipesOk, Paired;
      r, fd0, fd1 := -1, -1, -1;
      var ok, rf, wf := Pipealloc(page);
      if !ok {
        return;
      }
      fd0 := Fdalloc(proc, rf);
      if fd0 != -1 {
        fd1 := Fdalloc(proc, wf);
      }
      if fd0 == -1 || fd1 == -1 {
        Undo(proc, fd0, rf, wf, page);
        assert pipes == old(pipes);
        assert hold == None();
        return;
      }
      SlotsDiffer(proc, fd0, fd1);
      assert hold == None();
      assert EndOf(ft[rf], page, false) && EndOf(ft[wf], page, true);
      r := 0;
    }

    /** The error path of sys_pipe. */
    method Undo(proc: nat, fd0: int, rf: nat, wf: nat, ghost p: nat)
      requires Valid() && proc < NPROC && -1 <= fd0 < NOFILE && rf < NFILE && wf < NFILE && rf != wf
      requires ft[rf].ref == 1 && ft[wf].ref == 1 && EndOf(ft[rf], p, false) && EndOf(ft[wf], p, true)
      requires fd0 != -1 ==> ofile[Slot(proc, fd0)] == rf
      modifies this`ft, this`ofile, this`hold, this`pipes, this`freed
      ensures Valid() && ofile == if fd0 == -1 then old(ofile) else old(ofile)[Slot(proc, fd0) := -1]
      ensures hold == old(hold)[rf := old(hold)[rf] - (if fd0 == -1 then 1 else 0)][wf := old(hold)[wf] - 1]
      ensures pipes == old(pipes) - {p} && freed == old(freed) + [p]
    {
      hide Counted, PipesOk, Paired, EndOf;
      if fd0 >= 0 {
        Clear(proc, fd0);
      }
      CloseBoth(rf, wf, p);
    }

    /** The end of sys_open for inode `i`, which namei or create has found. */
    method OpenInode(proc: nat, i: nat, readable: bool, writable: bool) returns (fd: int)
      requires Quiet() && proc < NPROC
      modifies this`ft, this`ofile, this`hold, this`pipes, this`freed
      ensures Quiet() && -1 <= fd < NOFILE && pipes == old(pipes) && freed == old(freed)
      ensures fd == -1 ==> ft == old(ft) && ofile == old(ofile)
      ensures fd == -1
        <==> (forall s | 0 <= s < NFILE :: old(ft)[s].ref != 0) || forall k | 0 <= k < NOFILE ::
          old(ofile)[Slot(proc, k)] != -1
      ensures fd != -1 ==> |old(ofile)| == SLOTS && Lowest(old(ofile), proc, fd)
      ensures fd != -1 ==> exists f :: (0 <= f < NFILE && old(ft)[f].ref == 0
        && ft == old(ft)[f := File(1, OfInode(i), readable, writable)] && ofile == old(ofile)[Slot(proc, fd) := f])
    {
      ghost var ft0 := ft;
      assert UnusedPlain(ft0);
      hide Counted, PipesOk, Paired, UnusedPlain;
      var f := Filealloc();
      if f == -1 {
        return -1;
      }
      Plain(ft0, f);
      fd := Fdalloc(proc, f);
      if fd == -1 {
        Fileclose(f);
        assert hold == None() && ft == old(ft);
        return;
      }
      assert hold == None();
      InodeMade(ft, ofile, hold, pipes, f, File(1, OfInode(i), readable, writable));
      ft := ft[f := File(1, OfInode(i), readable, writable)];
    }

    /** The loop of fork that gives the child the parent's open files. */
    method ForkFiles(parent: nat, child: nat)
      requires Quiet() && parent < NPROC && child < NPROC && parent != child && NoFiles(ofile, child)
      modifies this`ft, this`ofile, this`hold
      ensures Quiet()
      ensures forall i | 0 <= i < NOFILE :: ofile[Slot(child, i)] == old(ofile)[Slot(parent, i)]
      ensures forall j | 0 <= j < SLOTS && (forall i | 0 <= i < NOFILE :: j != Slot(child, i)) ::
        ofile[j] == old(ofile)[j]
    {
      hide Counted, PipesOk, Paired;
      var i := 0;
      while i < NOFILE
        invariant 0 <= i <= NOFILE && Quiet() && |ofile| == SLOTS
        invariant forall k | 0 <= k < NOFILE ::
          ofile[Slot(child, k)] == if k < i then old(ofile)[Slot(parent, k)] else -1
        invariant forall j | 0 <= j < SLOTS && (forall k | 0 <= k < NOFILE :: j != Slot(child, k)) ::
          ofile[j] == old(ofile)[j]
      {
        forall k | 0 <= k < NOFILE ensures Slot(child, k) != Slot(parent, i)
          && (k != i ==> Slot(child, k) != Slot(child, i)) {
        }
        if ofile[Slot(parent, i)] != -1 {
          Share(Slot(parent, i), Slot(child, i));
        }
        i := i + 1;
      }
    }

    /** `np->ofile[i] = filedup(curr_proc->ofile[i])` */
    method Share(from: nat, to: nat)
      requires Quiet() && from < SLOTS && to < SLOTS && ofile[from] != -1 && ofile[to] == -1
      modifies this`ft, this`ofile, this`hold
      ensures Quiet() && ofile == old(ofile)[to := old(ofile)[from]]
    {
      hide PipesOk, Paired;
      var f := ofile[from];
      InUse(ft, ofile, hold, from);
      Filedup(f);
      SetSlot(ft, ofile, hold, to, f);
      ofile := ofile[to := f];
      hold := hold[f := hold[f] - 1];
      assert hold == None();
    }

    /** The loop of exit that closes the process's open files. */
    method ExitFiles(proc: nat)
      requires Quiet() && proc < NPROC
      modifies this`ft, this`ofile, this`hold, this`pipes, this`freed
      ensures Quiet() && |ofile| == SLOTS && NoFiles(ofile, proc)
      ensures forall j | 0 <= j < SLOTS && (forall k | 0 <= k < NOFILE :: j != Slot(proc, k)) ::
        ofile[j] == old(ofile)[j]
    {
      hide Counted, PipesOk, Paired;
      OfileSize();
      var fd := 0;
      while fd < NOFILE
        invariant 0 <= fd <= NOFILE && Quiet() && |ofile| == |old(ofile)| == SLOTS
        invariant forall k | 0 <= k < fd :: ofile[Slot(proc, k)] == -1
        invariant forall j | 0 <= j < SLOTS && (forall k | 0 <= k < NOFILE :: j != Slot(proc, k)) ::
          ofile[j] == old(ofile)[j]
      {
        forall k | 0 <= k < fd ensures Slot(proc, k) != Slot(proc, fd) {
        }
        if ofile[Slot(proc, fd)] != -1 {
          var r := SysClose(proc, fd);
        }
        fd := fd + 1;
      }
    }

    lemma OfileSize()
      requires Valid()
      ensures |ofile| == SLOTS
    {
    }
  }

  lemma SlotsDiffer(proc: nat, a: nat, b: nat)
    requires proc < NPROC && a < NOFILE && b < NOFILE
    ensures Slot(proc, a) == Slot(proc, b) <==> a == b
  {
  }

  lemma Plain(ft: seq<File>, f: nat)
    requires UnusedPlain(ft) && f < |ft| && ft[f].ref == 0
    ensures ft[f].kind == NoKind
  {
  }

  lemma Restored(ft: seq<File>, hold: seq<int>, f: nat, g: nat)
    requires f < |ft| == |hold| && g < |ft| && f != g && ft[f].ref == 0 == ft[g].ref
    ensures var ft1 := ft[f := ft[f].(ref := 1)][g := ft[g].(ref := 1)];
      ft1[f := ft1[f].(ref := 0)][g := ft1[g].(ref := 0)] == ft
    ensures var hold1 := hold[f := hold[f] + 1][g := hold[g] + 1];
      hold1[f := hold1[f] - 1][g := hold1[g] - 1] == hold
  {
  }

  lemma CloseTwo(pipes: map<nat, Ends>, f: File, g: File, p: nat)
    requires p in pipes && pipes[p] == Ends(true, true) && EndOf(f, p, false) && EndOf(g, p, true)
    ensures !LastEnd(pipes, f) && LastEnd(Closed(pipes, f), g) && Closed(Closed(pipes, f), g) == pipes - {p}
  {
  }

  lemma BothOpen(ft: seq<File>, pipes: map<nat, Ends>, rf: nat, wf: nat, p: nat)
    requires PipesOk(ft, pipes) && rf < |ft| && wf < |ft| && EndOf(ft[rf], p, false) && EndOf(ft[wf], p, true)
    ensures p in pipes && pipes[p] == Ends(true, true)
  {
    assert EndOpen(ft[rf], pipes) && EndOpen(ft[wf], pipes);
  }

  lemma InodeMade(ft: seq<File>, ofile: seq<int>, hold: seq<int>, pipes: map<nat, Ends>, f: nat, file: File)
    requires Counted(ft, ofile, hold) && PipesOk(ft, pipes) && f < |ft| && ft[f].ref == 1 == file.ref
      && ft[f].kind == NoKind && file.kind.OfInode?
    ensures Counted(ft[f := file], ofile, hold) && PipesOk(ft[f := file], pipes)
  {
    hide HasEnd;
    var ft1 := ft[f := file];
    forall p, w | HasEnd(ft, p, w) ensures HasEnd(ft1, p, w) {
      EndKept(ft, ft1, f, p, w);
    }
  }

  lemma PairedMade(made: seq<int>, freed: seq<int>, pipes: map<nat, Ends>, page: nat)
    requires Paired(made, freed, pipes) && page !in pipes
    ensures Paired(made + [page], freed, pipes[page := Ends(true, true)])
  {
    forall p: nat ensures Count(made + [page], p) == Count(made, p) + if p == page then 1 else 0 {
      CountMore(made, page, p);
    }
  }

  lemma PipeMade(ft: seq<File>, ofile: seq<int>, hold: seq<int>, pipes: map<nat, Ends>, f0: nat, f1: nat, page: nat)
    requires Counted(ft, ofile, hold) && PipesOk(ft, pipes) && f0 < NFILE && f1 < NFILE && f0 != f1 && page !in pipes
    requires ft[f0].ref == 1 == ft[f1].ref && ft[f0].kind == ft[f1].kind == NoKind
    ensures var ft1 := ft[f0 := File(1, OfPipe(page), true, false)][f1 := File(1, OfPipe(page), false, true)];
      Counted(ft1, ofile, hold) && PipesOk(ft1, pipes[page := Ends(true, true)])
  {
    hide HasEnd;
    var ft1, pipes1 := ft[f0 := File(1, OfPipe(page), true, false)][f1 := File(1, OfPipe(page), false, true)],
      pipes[page := Ends(true, true)];
    forall s | 0 <= s < |ft| && ft[s].kind.OfPipe? ensures EndOpen(ft[s], pipes) && EndOpen(ft[s], pipes1) {
    }
    forall p, w | p in pipes && HasEnd(ft, p, w) ensures HasEnd(ft1, p, w) {
      EndKept(ft, ft[f0 := ft1[f0]], f0, p, w);
      EndKept(ft[f0 := ft1[f0]], ft1, f1, p, w);
    }
    assert HasEnd(ft1, page, false) && HasEnd(ft1, page, true) by {
      EndIs(ft1, f0, page, false);
      EndIs(ft1, f1, page, true);
    }
  }

  lemma EndIs(ft: seq<File>, s: nat, p: nat, w: bool)
    requires s < |ft| && EndOf(ft[s], p, w)
    ensures HasEnd(ft, p, w)
  {
  }

  /** The descriptor's file is in use. */
  lemma InUse(ft: seq<File>, ofile: seq<int>, hold: seq<int>, i: nat)
    requires Counted(ft, ofile, hold) && i < SLOTS && ofile[i] != -1 && hold[ofile[i]] >= 0
    ensures ft[ofile[i]].ref >= 1
  {
    CountNone(ofile, ofile[i]);
  }

  lemma SetSlot(ft: seq<File>, ofile: seq<int>, hold: seq<int>, i: nat, f: nat)
    requires Counted(ft, ofile, hold) && i < SLOTS && f < NFILE && ofile[i] == -1
    ensures Counted(ft, ofile[i := f], hold[f := hold[f] - 1])
  {
    forall s | 0 <= s < NFILE ensures ft[s].ref == Count(ofile[i := f], s) + hold[f := hold[f] - 1][s] {
      CountSet(ofile, i, f, s);
    }
  }

  lemma ClearSlot(ft: seq<File>, ofile: seq<int>, hold: seq<int>, i: nat)
    requires Counted(ft, ofile, hold) && i < SLOTS && ofile[i] != -1
    ensures Counted(ft, ofile[i := -1], hold[ofile[i] := hold[ofile[i]] + 1])
  {
    forall s | 0 <= s < NFILE ensures ft[s].ref == Count(ofile[i := -1], s) + hold[ofile[i] := hold[ofile[i]] + 1][s] {
      CountSet(ofile, i, -1, s);
    }
  }

  /** The pipes after the last reference to `f` is gone. */
  function Closed(pipes: map<nat, Ends>, f: File): map<nat, Ends>
  {
    if f.kind.OfPipe? && f.kind.p in pipes then
      var e := pipes[f.kind.p];
      var e1 := if f.writable then e.(writeopen := false) else e.(readopen := false);
      if e1 == Ends(false, false) then pipes - {f.kind.p} else pipes[f.kind.p := e1]
    else pipes
  }

  /** `f` is the last open end of its pipe. */
  predicate LastEnd(pipes: map<nat, Ends>, f: File) {
    f.kind.OfPipe? && f.kind.p in pipes && if f.writable then !pipes[f.kind.p].readopen else !pipes[f.kind.p].writeopen
  }

  lemma CloseOk(ft: seq<File>, pipes: map<nat, Ends>, f: nat)
    requires PipesOk(ft, pipes) && f < |ft| && ft[f].ref == 1
    ensures PipesOk(ft[f := ft[f].(ref := 0, kind := NoKind)], Closed(pipes, ft[f]))
    ensures OpenPipes(pipes) && (ft[f].kind.OfPipe? ==> EndOpen(ft[f], pipes))
  {
    hide HasEnd;
    var ft1, pipes1 := ft[f := ft[f].(ref := 0, kind := NoKind)], Closed(pipes, ft[f]);
    forall p | p in pipes1
      ensures pipes1[p].readopen ==> HasEnd(ft1, p, false)
      ensures pipes1[p].writeopen ==> HasEnd(ft1, p, true)
    {
      if pipes1[p].readopen {
        EndKept(ft, ft1, f, p, false);
      }
      if pipes1[p].writeopen {
        EndKept(ft, ft1, f, p, true);
      }
    }
    assert EndsOpen(ft1, pipes1) by { OthersOpen(ft, pipes, f); }
    hide EndsOpen, EndsThere;
  }

  lemma EndKept(ft: seq<File>, ft1: seq<File>, f: nat, p: nat, write: bool)
    requires HasEnd(ft, p, write) && f < |ft| == |ft1| && !EndOf(ft[f], p, write)
    requires forall s | 0 <= s < |ft| && s != f :: ft1[s] == ft[s]
    ensures HasEnd(ft1, p, write)
  {
    var s :| 0 <= s < |ft| && EndOf(ft[s], p, write);
    assert EndOf(ft1[s], p, write);
  }

  /** The ends other than the one closed are still open. */
  lemma OthersOpen(ft: seq<File>, pipes: map<nat, Ends>, f: nat)
    requires EndsOpen(ft, pipes) && EndsOnce(ft) && f < |ft|
    ensures EndsOpen(ft[f := ft[f].(ref := 0, kind := NoKind)], Closed(pipes, ft[f]))
  {
    var ft1, pipes1 := ft[f := ft[f].(ref := 0, kind := NoKind)], Closed(pipes, ft[f]);
    forall s | 0 <= s < |ft1| && ft1[s].kind.OfPipe? ensures EndOpen(ft1[s], pipes1) {
      assert s != f && EndOpen(ft[s], pipes);
      if ft[f].kind == ft[s].kind {
        assert EndOpen(ft[f], pipes) && ft[f].writable != ft[s].writable;
      }
    }
  }

  lemma PairedFreed(made: seq<int>, freed: seq<int>, pipes: map<nat, Ends>, f: File)
    requires Paired(made, freed, pipes) && OpenPipes(pipes) && (f.kind.OfPipe? ==> EndOpen(f, pipes))
    ensures Paired(made, if LastEnd(pipes, f) then freed + [f.kind.p] else freed, Closed(pipes, f))
  {
    if LastEnd(pipes, f) {
      forall p: nat ensures Count(freed + [f.kind.p], p) == Count(freed, p) + if p == f.kind.p then 1 else 0 {
        CountMore(freed, f.kind.p, p);
      }
    }
  }

  /** Counting up a file keeps the pipes. */
  lemma RefChanged(ft: seq<File>, pipes: map<nat, Ends>, f: nat, n: nat)
    requires PipesOk(ft, pipes) && f < |ft| && n > 0
    ensures PipesOk(ft[f := ft[f].(ref := n)], pipes)
  {
    hide HasEnd;
    var ft1 := ft[f := ft[f].(ref := n)];
    forall p, w | HasEnd(ft, p, w) && p in pipes
      && (if w then pipes[p].writeopen else pipes[p].readopen) ensures HasEnd(ft1, p, w) {
      EndCounted(ft, ft1, p, w);
    }
    assert EndsOnce(ft1) && UnusedPlain(ft1) && EndsOpen(ft1, pipes);
  }

  lemma EndCounted(ft: seq<File>, ft1: seq<File>, p: nat, w: bool)
    requires HasEnd(ft, p, w) && |ft1| == |ft| && forall s | 0 <= s < |ft| ::
      ft1[s] == ft[s].(ref := ft1[s].ref) && (ft[s].ref > 0 ==> ft1[s].ref > 0)
    ensures HasEnd(ft1, p, w)
  {
    var s :| 0 <= s < |ft| && EndOf(ft[s], p, w);
    assert EndOf(ft1[s], p, w);
  }
}
