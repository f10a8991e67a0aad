/**
 The process table and the open files together: which processes can have open
 files. Every method is one step of one process, or of the scheduler, so any
 sequence of calls is an interleaving.
 */
module Machine {
  import P = Processes
  import F = Descriptors
  import Pipes

  const NPROC: nat := P.NPROC

  /**
   Processes that have no open files: unused slots, zombies, processes under
   construction that have not got their files yet (`shared` have), and those that
   have closed them all in exit (`leaving`).
   */
  ghost predicate Bare(p: P.Proc, i: nat, shared: set<nat>, leaving: set<nat>) {
    p.state.Unused? || p.state.Zombie? || (p.state.Embryo? && i !in shared) || i in leaving
  }

  ghost predicate BareClosed(t: P.Table, ofile: seq<int>, shared: set<nat>, leaving: set<nat>) {
    && |t| == NPROC && |ofile| == F.SLOTS
    && forall i | 0 <= i < NPROC && Bare(t[i], i, shared, leaving) :: F.NoFiles(ofile, i)
  }

  /** A process that has its files has a parent and is about to start; one that leaves is still alive. */
  ghost predicate Tracked(t: P.Table, shared: set<nat>, leaving: set<nat>) {
    && (forall i | i in shared :: i < |t| && t[i].state.Embryo? && t[i].parent != -1)
    && (forall i | i in leaving :: i < |t| && P.Alive(t[i]))
  }

  /** Only process ids have changed. */
  ghost predicate OnlyPids(t: P.Table, t1: P.Table) {
    |t1| == |t| && forall i | 0 <= i < |t| :: t1[i] == t[i].(pid := t1[i].pid)
  }

  /** The tables agree on who is unused, under construction, a zombie or alive, and on parents. */
  ghost predicate SameStages(t: P.Table, t1: P.Table) {
    |t1| == |t| && forall i | 0 <= i < |t| ::
      && (t1[i].state == t[i].state || (P.Alive(t[i]) && P.Alive(t1[i]))) && t1[i].parent == t[i].parent
  }

  lemma StagesKeep(t: P.Table, t1: P.Table, ofile: seq<int>, shared: set<nat>, leaving: set<nat>)
    requires SameStages(t, t1) && BareClosed(t, ofile, shared, leaving) && Tracked(t, shared, leaving)
    ensures BareClosed(t1, ofile, shared, leaving) && Tracked(t1, shared, leaving)
  {
    hide F.NoFiles;
  }

  lemma WakeStages(t: P.Table, chan: P.Chan)
    ensures SameStages(t, P.Woken(t, chan))
  {
  }

  /** Only descriptors of process `p` have changed. */
  ghost predicate OnlyOf(ofile: seq<int>, ofile1: seq<int>, p: nat)
    requires p < NPROC
  {
    |ofile1| == |ofile| == F.SLOTS && forall i, fd | 0 <= i < NPROC && i != p && 0 <= fd < F.NOFILE ::
      ofile1[F.Slot(i, fd)] == ofile[F.Slot(i, fd)]
  }

  lemma FilesKeep(t: P.Table, ofile: seq<int>, ofile1: seq<int>, shared: set<nat>, leaving: set<nat>, p: nat)
    requires p < NPROC && BareClosed(t, ofile, shared, leaving) && OnlyOf(ofile, ofile1, p)
    requires Bare(t[p], p, shared, leaving) ==> F.NoFiles(ofile1, p)
    ensures BareClosed(t, ofile1, shared, leaving)
  {
    forall i | 0 <= i < NPROC && Bare(t[i], i, shared, leaving) ensures F.NoFiles(ofile1, i) {
      if i != p {
        assert F.NoFiles(ofile, i);
      }
    }
  }

  /** Process `np` has the descriptors of process `p`, and no other process's have changed. */
  ghost predicate SharedWith(ofile: seq<int>, ofile1: seq<int>, p: nat, np: nat)
    requires p < NPROC && np < NPROC
  {
    OnlyOf(ofile, ofile1, np) && forall fd | 0 <= fd < F.NOFILE :: ofile1[F.Slot(np, fd)] == ofile[F.Slot(p, fd)]
  }

  lemma OneSet(ofile: seq<int>, p: nat, fd: nat, v: int)
    requires |ofile| == F.SLOTS && p < NPROC && fd < F.NOFILE
    ensures OnlyOf(ofile, ofile[F.Slot(p, fd) := v], p)
  {
  }

  lemma TwoSet(ofile: seq<int>, p: nat, fd: nat, v: int, fd1: nat, v1: int)
    requires |ofile| == F.SLOTS && p < NPROC && fd < F.NOFILE && fd1 < F.NOFILE
    ensures OnlyOf(ofile, ofile[F.Slot(p, fd) := v][F.Slot(p, fd1) := v1], p)
  {
  }

  lemma OthersSet(ofile: seq<int>, ofile1: seq<int>, p: nat)
    requires |ofile1| == |ofile| == F.SLOTS && p < NPROC
    requires forall j | 0 <= j < F.SLOTS && (forall k | 0 <= k < F.NOFILE :: j != F.Slot(p, k)) :: ofile1[j] == ofile[j]
    ensures OnlyOf(ofile, ofile1, p)
  {
    forall i, fd | 0 <= i < NPROC && i != p
      && 0 <= fd < F.NOFILE ensures ofile1[F.Slot(i, fd)] == ofile[F.Slot(i, fd)] {
      assert forall k | 0 <= k < F.NOFILE :: F.Slot(i, fd) != F.Slot(p, k);
    }
  }

  /** A step that leaves open files and stages alone. */
  datatype Move = Sleep(chan: P.Chan) | Wakeup(chan: P.Chan) | Yield | Dispatch | Kill(pid: nat) | Resume

  /** What the step does to the process table and to the choice of the current process. */
  ghost predicate Moved(m: Move, t: P.Table, cur: int, next: nat, t1: P.Table, cur1: int) {
    match m
    case Sleep(chan) => 0 <= cur < |t| && cur1 == -1 && t1 == t[cur := t[cur].(state := P.Sleeping, chan := chan)]
    case Wakeup(chan) => cur1 == cur && t1 == P.Woken(t, chan)
    case Yield => 0 <= cur < |t| && cur1 == -1 && t1 == t[cur := t[cur].(state := P.Runnable)]
    case Dispatch =>
      if cur1 == -1 then t1 == t && forall i | next <= i < |t| :: !t[i].state.Runnable?
      else FirstRunnable(t, next, cur1) && t1 == t[cur1 := t[cur1].(state := P.Running)]
    case Kill(pid) =>
      && cur1 == cur
      && if exists i :: 0 <= i < |t| && t[i].pid == pid then exists i :: FirstPid(t, i, pid) && P.KilledAt(t, t1, i)
         else t1 == t
    case Resume => 0 <= cur < |t| && cur1 == cur && t1 == t[cur := t[cur].(chan := P.NoChan)]
  }

  ghost predicate FirstRunnable(t: P.Table, next: int, i: int) {
    0 <= next <= i < |t| && t[i].state.Runnable? && forall j | next <= j < i :: !t[j].state.Runnable?
  }

  ghost predicate FirstPid(t: P.Table, i: int, pid: nat) {
    0 <= i < |t| && t[i].pid == pid && forall j | 0 <= j < i :: t[j].pid != pid
  }

  /** A system call on descriptors. */
  datatype Call = Dup(fd: int) | Close(fd: int) | MakePipe(page: int) | Open(inode: nat, readable: bool, writable: bool)

  /** When a call on descriptors by process `p` fails. */
  ghost predicate Refused(c: Call, ft: seq<F.File>, ofile: seq<int>, p: nat)
    requires |ofile| == F.SLOTS && p < NPROC
  {
    match c
    case Dup(fd) => !OpenFd(ofile, p, fd) || !HasFree(ofile, p)
    case Close(fd) => !OpenFd(ofile, p, fd)
    case MakePipe(page) => page == -1 || !F.TwoUnused(ft) || !F.TwoFree(ofile, p)
    case Open(_, _, _) => (forall s | 0 <= s < |ft| :: ft[s].ref != 0) || !HasFree(ofile, p)
  }

  ghost predicate OpenFd(ofile: seq<int>, p: nat, fd: int)
    requires |ofile| == F.SLOTS && p < NPROC
  {
    0 <= fd < F.NOFILE && ofile[F.Slot(p, fd)] != -1
  }

  ghost predicate HasFree(ofile: seq<int>, p: nat)
    requires |ofile| == F.SLOTS && p < NPROC
  {
    exists fd :: 0 <= fd < F.NOFILE && ofile[F.Slot(p, fd)] == -1
  }

  /** What a call that succeeds does to the descriptors. */
  ghost predicate Answered(c: Call, ft0: seq<F.File>, o0: seq<int>, ft: seq<F.File>, o1: seq<int>, p: nat, r: int)
    requires |o0| == F.SLOTS && p < NPROC
  {
    match c
    case Dup(fd) => OpenFd(o0, p, fd) && F.Lowest(o0, p, r) && o1 == o0[F.Slot(p, r) := o0[F.Slot(p, fd)]]
    case Close(fd) => OpenFd(o0, p, fd) && r == 0 && o1 == o0[F.Slot(p, fd) := -1]
    case MakePipe(page) => page >= 0 && r == 0 && exists a, b, f, g :: PipeAt(o0, ft, o1, p, page, a, b, f, g)
    case Open(i, readable, writable) =>
      && F.Lowest(o0, p, r)
      && exists f :: (0 <= f < |ft0| && ft0[f].ref == 0 && ft == ft0[f := F.File(1, F.OfInode(i), readable, writable)]
           && o1 == o0[F.Slot(p, r) := f])
  }

  /** Descriptors `a` and `b`, free before, are on the read end `f` and the write end `g` of the pipe. */
  ghost predicate PipeAt(o0: seq<int>, ft: seq<F.File>, o1: seq<int>, p: nat, page: nat, a: nat, b: nat, f: nat, g: nat)
    requires |o0| == F.SLOTS && p < NPROC
  {
    && F.TwoLowest(o0, p, a, b)
    && f < |ft| && g < |ft| && F.EndOf(ft[f], page, false) && F.EndOf(ft[g], page, true)
    && o1 == o0[F.Slot(p, a) := f][F.Slot(p, b) := g]
  }

  class System {
    const procs: P.Kernel
    const files: F.Kernel
    ghost var shared: set<nat>
    ghost var leaving: set<nat>

    ghost predicate Valid()
      reads this, procs, files
    {
      && procs.Valid() && files.Quiet()
      && BareClosed(procs.proc, files.ofile, shared, leaving) && Tracked(procs.proc, shared, leaving)
    }

    constructor ()
      ensures Valid() && fresh(procs) && fresh(files)
    {
      procs := new P.Kernel();
      files := new F.Kernel();
      shared, leaving := {}, {};
      new;
      files.OfileSize();
      procs.TableFacts();
    }

    /** A slot without a process has no open files, and each file's count is the number of descriptors on it. */
    lemma References(i: nat, s: nat)
      requires Valid() && i < NPROC && s < F.NFILE
      ensures |procs.proc| == NPROC && |files.ofile| == F.SLOTS && |files.ft| == F.NFILE
      ensures procs.proc[i].state.Unused? || procs.proc[i].state.Zombie? ==> F.NoFiles(files.ofile, i)
      ensures files.ft[s].ref == F.Count(files.ofile, s)
    {
    }

    /** Allocproc, in fork. */
    method Alloc(stack: bool) returns (np: int)
      requires Valid()
      modifies procs
      ensures Valid() && |procs.proc| == |old(procs.proc)| == NPROC
      ensures np == -1 <==> !stack || forall i | 0 <= i < NPROC :: !old(procs.proc)[i].state.Unused?
      ensures np == -1 ==> OnlyPids(old(procs.proc), procs.proc)
      ensures np != -1 ==> 0 <= np < NPROC && old(procs.proc)[np].state.Unused? && old(procs.proc)[np].parent == -1
      ensures np != -1 ==>
        procs.proc == old(procs.proc)[np := old(procs.proc)[np].(state := P.Embryo, pid := old(procs.nextpid))]
      ensures procs.cur == old(procs.cur) && (np != -1 ==> old(procs.nextpid) > 0 && np !in shared)
    {
      hide P.Good, F.NoFiles, F.Counted, F.PipesOk, F.Paired;
      procs.TableFacts();
      ghost var t0 := procs.proc;
      np := procs.Allocproc(stack);
      procs.TableFacts();
      forall i | 0 <= i < NPROC && Bare(procs.proc[i], i, shared, leaving) ensures F.NoFiles(files.ofile, i) {
        assert Bare(t0[i], i, shared, leaving);
      }
    }

    /** The failure of copyuvm in fork: the embryo has no files yet. */
    method Abandon(np: nat)
      requires Valid() && np < |procs.proc| && procs.proc[np].state.Embryo? && procs.proc[np].parent == -1
      modifies procs
      ensures Valid() && np < NPROC && |files.ofile| == F.SLOTS && F.NoFiles(files.ofile, np)
      ensures procs.proc == old(procs.proc)[np := old(procs.proc)[np].(state := P.Unused)]
        && procs.cur == old(procs.cur)
    {
      hide P.Good, F.NoFiles, F.Counted, F.PipesOk, F.Paired;
      procs.TableFacts();
      ghost var t0 := procs.proc;
      assert Bare(t0[np], np, shared, leaving);
      procs.Abandon(np);
      forall i | 0 <= i < NPROC && Bare(procs.proc[i], i, shared, leaving) ensures F.NoFiles(files.ofile, i) {
        assert Bare(t0[i], i, shared, leaving);
      }
    }

    method Adopt(np: nat)
      requires Valid() && procs.cur != -1 && np < |procs.proc| && procs.proc[np].state.Embryo?
        && procs.proc[np].parent == -1
      modifies procs
      ensures Valid() && |procs.proc| == |old(procs.proc)| && procs.cur == old(procs.cur)
      ensures np < |old(procs.proc)| && procs.proc == old(procs.proc)[np := old(procs.proc)[np].(parent := procs.cur)]
    {
      hide P.Good, F.NoFiles, F.Counted, F.PipesOk, F.Paired;
      procs.TableFacts();
      ghost var t0 := procs.proc;
      procs.Adopt(np);
      forall i | 0 <= i < NPROC && Bare(procs.proc[i], i, shared, leaving) ensures F.NoFiles(files.ofile, i) {
        assert Bare(t0[i], i, shared, leaving);
      }
    }

    /** fork's loop over the descriptors, for a child that has none. */
    method ShareFiles(np: nat)
      requires Valid() && procs.cur != -1 && np < |procs.proc| && procs.proc[np].state.Embryo?
        && procs.proc[np].parent == procs.cur
      requires np !in shared
      modifies files, this`shared
      ensures Valid() && shared == old(shared) + {np} && 0 <= procs.cur < NPROC && np < NPROC
      ensures |files.ofile| == |old(files.ofile)| == F.SLOTS
      ensures forall fd | 0 <= fd < F.NOFILE :: files.ofile[F.Slot(np, fd)] == old(files.ofile)[F.Slot(procs.cur, fd)]
      ensures OnlyOf(old(files.ofile), files.ofile, np)
    {
      hide P.Good, F.NoFiles, F.Counted, F.PipesOk, F.Paired;
      procs.TableFacts();
      files.OfileSize();
      assert Bare(procs.proc[np], np, shared, leaving);
      ghost var o0, s0 := files.ofile, shared;
      files.ForkFiles(procs.cur, np);
      files.OfileSize();
      OthersSet(o0, files.ofile, np);
      shared := shared + {np};
      assert !Bare(procs.proc[np], np, shared, leaving);
      assert forall i | 0 <= i < NPROC && Bare(procs.proc[i], i, shared, leaving) ::
        Bare(procs.proc[i], i, s0, leaving);
      FilesKeep(procs.proc, o0, files.ofile, shared, leaving, np);
    }

    /** The end of fork: the child may run. */
    method Start(np: nat)
      requires Valid() && np in shared && np < |procs.proc| && procs.proc[np].pid > 0
      modifies procs, this`shared
      ensures Valid() && procs.cur == old(procs.cur)
      ensures procs.proc == old(procs.proc)[np := old(procs.proc)[np].(state := P.Runnable)]
    {
      hide P.Good, F.NoFiles, F.Counted, F.PipesOk, F.Paired;
      procs.TableFacts();
      ghost var t0, s0 := procs.proc, shared;
      procs.Start(np);
      shared := shared - {np};
      forall i | 0 <= i < NPROC && Bare(procs.proc[i], i, shared, leaving) ensures F.NoFiles(files.ofile, i) {
        assert Bare(t0[i], i, s0, leaving);
      }
    }

    /**
     fork without interruption: it fails without a trace in the open files, or the
     child shares all the parent's open files, each counted once more for it.
     */
    method Fork(stack: bool, space: bool) returns (pid: int)
      requires Valid() && procs.cur != -1
      modifies procs, files, this`shared
      ensures Valid() && |files.ofile| == |old(files.ofile)| == F.SLOTS && 0 <= procs.cur < NPROC == |old(procs.proc)|
      ensures pid == -1 <==> !stack || !space || forall i | 0 <= i < NPROC :: !old(procs.proc)[i].state.Unused?
      ensures pid == -1 ==>
        files.ofile == old(files.ofile) && files.ft == old(files.ft) && OnlyPids(old(procs.proc), procs.proc)
      ensures pid != -1 ==>
        pid == old(procs.nextpid) && exists np :: (0 <= np < NPROC && old(procs.proc)[np].state.Unused?
        && procs.proc == old(procs.proc)[np := old(procs.proc)[np].(state := P.Runnable, pid := pid,
           parent := procs.cur)]
        && SharedWith(old(files.ofile), files.ofile, procs.cur, np))
    {
      hide P.Good, F.NoFiles, F.Counted, F.PipesOk, F.Paired, BareClosed;
      files.OfileSize();
      procs.TableFacts();
      var np := Alloc(stack);
      if np == -1 {
        return -1;
      }
      if !space {
        Abandon(np);
        return -1;
      }
      Adopt(np);
      ShareFiles(np);
      pid := procs.proc[np].pid;
      Start(np);
      assert SharedWith(old(files.ofile), files.ofile, procs.cur, np);
      assert procs.proc == old(procs.proc)[np := old(procs.proc)[np].(state := P.Runnable, pid := pid,
          parent := procs.cur)];
    }

    /** exit's loop over the descriptors. */
    method CloseFiles()
      requires Valid() && procs.cur != -1
      modifies files, this`leaving
      ensures Valid() && 0 <= procs.cur < NPROC && leaving == old(leaving) + {procs.cur as nat}
      ensures OnlyOf(old(files.ofile), files.ofile, procs.cur) && F.NoFiles(files.ofile, procs.cur)
    {
      hide P.Good, F.NoFiles, F.Counted, F.PipesOk, F.Paired;
      procs.TableFacts();
      files.OfileSize();
      ghost var o0, l0 := files.ofile, leaving;
      files.ExitFiles(procs.cur);
      OthersSet(o0, files.ofile, procs.cur);
      FilesKeep(procs.proc, o0, files.ofile, shared, l0, procs.cur);
      leaving := leaving + {procs.cur as nat};
      forall i | 0 <= i < NPROC && Bare(procs.proc[i], i, shared, leaving) ensures F.NoFiles(files.ofile, i) {
        if i != procs.cur {
          assert Bare(procs.proc[i], i, shared, l0);
        }
      }
    }

    /** exit's last step turns a process without files into a zombie. */
    method Exit()
      requires Valid() && procs.cur in leaving && procs.cur != procs.initproc
      modifies procs, this`leaving
      ensures Valid() && procs.cur == -1 && 0 <= old(procs.cur) < NPROC == |procs.proc|
        && old(procs.proc[procs.cur].parent) >= 0
      ensures procs.proc == P.Exited(old(procs.proc), old(procs.cur), procs.initproc)
      ensures procs.proc[old(procs.cur)].state.Zombie? && leaving == old(leaving) - {old(procs.cur)}
      ensures |files.ofile| == F.SLOTS && F.NoFiles(files.ofile, old(procs.cur))
    {
      hide P.Good, F.NoFiles, F.Counted, F.PipesOk, F.Paired;
      procs.TableFacts();
      ghost var t0, l0, me := procs.proc, leaving, procs.cur;
      assert Bare(t0[me], me, shared, l0);
      procs.Exit();
      ExitStages(t0, me, procs.initproc);
      leaving := leaving - {me};
      forall i | 0 <= i < NPROC && Bare(procs.proc[i], i, shared, leaving) ensures F.NoFiles(files.ofile, i) {
        assert Bare(t0[i], i, shared, l0);
      }
    }

    /** wait: a zombie's slot becomes unused. */
    method Wait() returns (r: P.Waited)
      requires Valid() && procs.cur != -1
      modifies procs
      ensures Valid() && 0 <= old(procs.cur) < NPROC == |old(procs.proc)| && |files.ofile| == F.SLOTS
      ensures r.Reaped? <==> P.HasZombie(old(procs.proc), old(procs.cur))
      ensures r.Reaped? ==> procs.cur == old(procs.cur) && exists z :: (P.FirstZombie(old(procs.proc), z, procs.cur)
        && r.pid == old(procs.proc)[z].pid
           && procs.proc == old(procs.proc)[z := P.Proc(P.Unused, 0, -1, old(procs.proc)[z].chan, false)]
        && F.NoFiles(files.ofile, z))
      ensures !r.Reaped? ==>
        (r.Hopeless? <==> old(procs.proc[procs.cur].killed) || P.NoChildren(old(procs.proc), old(procs.cur)))
      ensures r.Hopeless? ==> procs.proc == old(procs.proc) && procs.cur == old(procs.cur)
      ensures r.Slept? ==> procs.cur == -1 && procs.proc == old(procs.proc)[old(procs.cur) :=
        old(procs.proc[procs.cur]).(state := P.Sleeping, chan := P.OfProc(old(procs.cur)))]
    {
      hide P.Good, F.NoFiles, F.Counted, F.PipesOk, F.Paired;
      procs.TableFacts();
      ghost var t0 := procs.proc;
      r := procs.Wait();
      forall i | 0 <= i < NPROC && Bare(procs.proc[i], i, shared, leaving) ensures F.NoFiles(files.ofile, i) {
        assert Bare(t0[i], i, shared, leaving);
      }
    }

    /** Any other step of a process or of the scheduler. */
    method Step(m: Move)
      requires Valid() && (m.Dispatch? <==> procs.cur == -1 && !m.Kill? && !m.Wakeup?) && (m.Sleep? ==> !m.chan.OfProc?)
      modifies procs
      ensures Valid() && Moved(m, old(procs.proc), old(procs.cur), old(procs.next), procs.proc, procs.cur)
    {
      hide P.Good, F.NoFiles, F.Counted, F.PipesOk, F.Paired;
      procs.TableFacts();
      ghost var t0 := procs.proc;
      match m {
        case Sleep(chan) => procs.Sleep(chan);
        case Wakeup(chan) =>
          WakeStages(t0, chan);
          procs.Wakeup(chan);
        case Yield => procs.Yield();
        case Dispatch => var _ := procs.Dispatch();
        case Kill(pid) => var _ := procs.Kill(pid);
        case Resume => procs.Resume();
      }
      procs.TableFacts();
      StagesKeep(t0, procs.proc, files.ofile, shared, leaving);
    }

    /** A system call on descriptors by a process that is not in exit. */
    method Do(c: Call) returns (r: int)
      requires Valid() && procs.cur != -1 && procs.cur !in leaving
      requires c.MakePipe? ==> -1 <= c.page && c.page !in files.pipes
      modifies files
      ensures Valid() && 0 <= procs.cur < NPROC && OnlyOf(old(files.ofile), files.ofile, procs.cur)
      ensures r == -1 <==> Refused(c, old(files.ft), old(files.ofile), procs.cur)
      ensures r == -1 ==> files.ofile == old(files.ofile) && files.pipes == old(files.pipes)
      ensures r != -1 ==> Answered(c, old(files.ft), old(files.ofile), files.ft, files.ofile, procs.cur, r)
    {
      hide P.Good, F.NoFiles, F.Counted, F.PipesOk, F.Paired, F.EndOf;
      procs.TableFacts();
      files.OfileSize();
      ghost var o0 := files.ofile;
      var p := procs.cur;
      match c {
        case Dup(fd) =>
          r := files.SysDup(p, fd);
          if r != -1 {
            OneSet(o0, p, r, o0[F.Slot(p, fd)]);
          }
        case Close(fd) =>
          r := files.SysClose(p, fd);
          if r == 0 {
            OneSet(o0, p, fd, -1);
          }
        case MakePipe(page) =>
          var fd0, fd1;
          r, fd0, fd1 := files.SysPipe(p, page);
          if r == 0 {
            ghost var f0, f1 :| 0 <= f0 < F.NFILE && 0 <= f1 < F.NFILE
              && F.EndOf(files.ft[f0], page, false) && F.EndOf(files.ft[f1], page, true)
              && files.ofile == o0[F.Slot(p, fd0) := f0][F.Slot(p, fd1) := f1];
            assert PipeAt(o0, files.ft, files.ofile, p, page, fd0, fd1, f0, f1);
            TwoSet(o0, p, fd0, f0, fd1, f1);
          }
        case Open(inode, readable, writable) =>
          r := files.OpenInode(p, inode, readable, writable);
          if r != -1 {
            ghost var f :| 0 <= f < F.NFILE && files.ofile == o0[F.Slot(p, r) := f];
            OneSet(o0, p, r, f);
          }
      }
      files.OfileSize();
      assert OnlyOf(o0, files.ofile, p);
      FilesKeep(procs.proc, o0, files.ofile, shared, leaving, p);
    }
  }

  /** The open ends of a pipe, as the table of open files sees them. */
  function EndsOf(pipe: Pipes.Pipe): F.Ends
    reads pipe
  {
    F.Ends(pipe.readopen, pipe.writeopen)
  }

  /**
   fileclose of the last reference to an end of a pipe: the end is open, and the page is freed when
   the ring is given up.
   */
  method CloseEnd(files: F.Kernel, f: nat, pipe: Pipes.Pipe, page: nat) returns (free: bool)
    requires files.Valid() && f < F.NFILE && files.ft[f].ref == 1 && files.ft[f].kind == F.OfPipe(page)
    requires pipe.Valid() && pipe.k.Valid() && (page in files.pipes ==> files.pipes[page] == EndsOf(pipe))
    modifies files, pipe`readopen, pipe`writeopen, pipe.k`proc
    ensures files.Valid() && pipe.Valid() && pipe.k.Valid() && pipe.got == old(pipe.got) && pipe.put == old(pipe.put)
    ensures page in old(files.pipes) && (free <==> page !in files.pipes)
    ensures files.freed == old(files.freed) + if free then [page as int] else []
    ensures !free ==> files.pipes[page] == EndsOf(pipe)
  {
    hide F.Counted, F.Paired, P.Good, Pipes.Holds;
    OpenHere(files.ft, files.pipes, f, page);
    hide F.PipesOk;
    free := pipe.Close(files.ft[f].writable);
    files.Fileclose(f);
  }

  lemma OpenHere(ft: seq<F.File>, pipes: map<nat, F.Ends>, f: nat, page: nat)
    requires F.PipesOk(ft, pipes) && f < |ft| && ft[f].kind == F.OfPipe(page)
    ensures page in pipes && if ft[f].writable then pipes[page].writeopen else pipes[page].readopen
  {
  }

  /** exit changes the stage of the process that exits, and parents. */
  lemma ExitStages(t: P.Table, cur: nat, init: nat)
    requires cur < |t| && t[cur].parent >= 0
    ensures var t1 := P.Exited(t, cur, init);
      && |t1| == |t|
         && (forall i | 0 <= i < |t| && i != cur :: t1[i].state == t[i].state || (P.Alive(t[i]) && P.Alive(t1[i])))
      && t1[cur].state.Zombie? && (forall i | 0 <= i < |t| && t[i].parent != -1 :: t1[i].parent != -1)
  {
  }
}
