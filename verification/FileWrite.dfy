/**
 filewrite on a regular file (file.c): a long write is a series of transactions,
 and a crash leaves a whole number of them behind.
 */
module FileWrite {
  import opened Base
  import opened Blocks
  import opened Layout
  import opened Inodes
  import opened FileIO
  import FD = FileData
  import L = RedoLog

  /** `struct file` of type FD_INODE. */
  class File {
    const ip: Inode
    var readable: bool
    var writable: bool
    var off: nat

    constructor (ip: Inode, readable: bool, writable: bool)
      ensures this.ip == ip && this.readable == readable && this.writable == writable && off == 0
    {
      this.ip, this.readable, this.writable, off := ip, readable, writable, 0;
    }
  }

  /** A state of the file system: the home sectors and the inode table. */
  datatype State = State(home: seq<Block>, T: seq<Dinode>)

  /** The state is a consistent file system: exclusive owners, the bitmap, no holes. */
  ghost predicate Sound(s: State) {
    exists owner :: FsOk(s.home, s.T, owner, -1) && FD.NoHoles(s.home, s.T)
  }

  ghost predicate AllSound(states: seq<State>) {
    forall k | 0 <= k < |states| :: Sound(states[k])
  }

  lemma IdleSound(fs: Fs, ip: Inode)
    requires Idle(fs, ip)
    ensures Sound(State(fs.log.home, fs.T))
  {
    hide L.Log.Valid, Geo, FD.NoHoles;
    var s := State(fs.log.home, fs.T);
    assert FsOk(s.home, s.T, fs.owner, -1) && FD.NoHoles(s.home, s.T);
    hide FsOk;
  }

  /** The disk image recovers to one of the states. */
  ghost predicate OneOf(d: seq<Block>, start: nat, size: nat, states: seq<State>) {
    exists k :: 0 <= k < |states| && L.RecoversTo(d, start, size, states[k].home)
  }

  ghost predicate CrashSafe(trace: seq<seq<Block>>, since: int, start: nat, size: nat, states: seq<State>) {
    0 <= since < |trace| && forall t | since <= t < |trace| :: OneOf(trace[t], start, size, states)
  }

  lemma CrashSafeStart(trace: seq<seq<Block>>, start: nat, size: nat, home: seq<Block>, T: seq<Dinode>)
    requires |trace| > 0 && L.TraceOk(trace, |trace| - 1, start, size, home)
    ensures CrashSafe(trace, |trace| - 1, start, size, [State(home, T)])
  {
    assert [State(home, T)][0].home == home;
  }

  /** A transaction adds its final state to the states a crash can leave. */
  lemma CrashSafeStep(t0: seq<seq<Block>>, t1: seq<seq<Block>>, since: nat, start: nat, size: nat,
                      states: seq<State>, next: State)
    requires CrashSafe(t0, since, start, size, states) && states != [] && t0 <= t1
    requires L.Atomic(t1, |t0| - 1, start, size, states[|states|-1].home, next.home)
    ensures CrashSafe(t1, since, start, size, states + [next])
  {
    hide L.RecoversTo;
    var c :| L.CommitPoint(t1, |t0| - 1, c, start, size, states[|states|-1].home, next.home);
    var all := states + [next];
    forall t | since <= t < |t1| ensures OneOf(t1[t], start, size, all) {
      if t < |t0| - 1 {
        assert t1[t] == t0[t] && OneOf(t0[t], start, size, states);
        var k :| 0 <= k < |states| && L.RecoversTo(t0[t], start, size, states[k].home);
        assert all[k] == states[k];
      } else if t < c {
        assert all[|states|-1].home == states[|states|-1].home;
      } else {
        assert all[|states|].home == next.home;
      }
    }
  }

  /** A transaction that ran out of space has committed nothing. */
  lemma CrashSafeStuck(t0: seq<seq<Block>>, t1: seq<seq<Block>>, since: nat, start: nat, size: nat, states: seq<State>)
    requires CrashSafe(t0, since, start, size, states) && states != [] && t0 <= t1
    requires L.TraceOk(t1, |t0| - 1, start, size, states[|states|-1].home)
    ensures CrashSafe(t1, since, start, size, states)
  {
    hide L.RecoversTo;
    forall t | since <= t < |t1| ensures OneOf(t1[t], start, size, states) {
      if t < |t0| - 1 {
        assert t1[t] == t0[t] && OneOf(t0[t], start, size, states);
      }
    }
  }

  lemma AtomicSame(trace: seq<seq<Block>>, since: nat, start: nat, size: nat, home: seq<Block>)
    requires L.Atomic(trace, since, start, size, home, home)
    ensures L.TraceOk(trace, since, start, size, home)
  {
    hide L.RecoversTo;
  }

  lemma OverwriteCompose(was: seq<byte>, off: nat, a: seq<byte>, b: seq<byte>)
    requires off <= |was| && (a != [] || b == [])
    ensures off + |a| <= |FD.Overwrite(was, off, a)|
    ensures FD.Overwrite(FD.Overwrite(was, off, a), off + |a|, b) == FD.Overwrite(was, off, a + b)
  {
  }

  lemma UpdatedTrans(s0: State, s1: State, s2: State, i: nat, off: nat, a: seq<byte>, b: seq<byte>)
    requires Updated(s0.home, s0.T, s1.home, s1.T, i, off, a) && a != []
    requires Updated(s1.home, s1.T, s2.home, s2.T, i, off + |a|, b)
    ensures Updated(s0.home, s0.T, s2.home, s2.T, i, off, a + b)
  {
    hide Geo, GetSuper, FD.FileByte, FD.Mapped, FD.Contents, FD.Overwrite;
    OverwriteCompose(FD.Contents(s0.home, s0.T, i), off, a, b);
    FD.OthersTrans(s0.home, s0.T, s1.home, s1.T, s2.home, s2.T, i);
  }

  /** The states are one chunk of `src` apart. */
  ghost predicate Chunks(states: seq<State>, i: nat, off: nat, src: seq<byte>) {
    && states != [] && (|states| - 1) * CHUNK < |src| + CHUNK
    && forall k | 0 <= k < |states| - 1 :: ChunkStep(states[k], states[k+1], i, off, src, k)
  }

  ghost predicate ChunkStep(s0: State, s1: State, i: nat, off: nat, src: seq<byte>, k: nat) {
    && k * CHUNK < |src|
    && Updated(s0.home, s0.T, s1.home, s1.T, i, off + k * CHUNK, src[k * CHUNK..Min((k + 1) * CHUNK, |src|)])
  }

  /** Bytes written by the first `k` chunks. */
  function Done(k: nat, n: nat): nat { Min(k * CHUNK, n) }

  /** Why a chunk is refused: a hole would remain, or the file would exceed its maximal size. */
  ghost predicate CannotGrow(off: nat, size: nat, left: int) {
    left > 0 && (off > size || off + Min(left, CHUNK) > FD.MAXBYTES)
  }

  /** filewrite. `states` are the states between its transactions. */
  method Filewrite(fs: Fs, f: File, src: seq<byte>) returns (r: Wrote, ghost states: seq<State>)
    requires Idle(fs, f.ip) && f.off < UINT
    modifies f`off, fs, fs.log, fs.log.cache, fs.log.disk, f.ip`addrs, f.ip`size
    ensures !f.writable ==> r.Failed? && fs.log.home == old(fs.log.home) && fs.T == old(fs.T) && f.off == old(f.off)
    ensures f.writable ==> Progress(State(old(fs.log.home), old(fs.T)), states, f.ip.inum, old(f.off), src)
    ensures f.writable ==> AllSound(states)
    ensures f.writable ==> states != [] && f.off == old(f.off) + Done(|states| - 1, |src|)
    ensures f.writable ==> CrashSafe(fs.log.disk.trace, old(|fs.log.disk.trace|) - 1, fs.log.start, fs.log.size, states)
    ensures !r.NoSpace? ==> Idle(fs, f.ip)
    ensures f.writable && !r.NoSpace? ==> states[|states|-1] == State(fs.log.home, fs.T)
    ensures f.writable && r.Wrote? ==> r.n == |src| == Done(|states| - 1, |src|)
    ensures f.writable && r.Failed? ==> CannotGrow(f.off, f.ip.size, |src| - Done(|states| - 1, |src|))
    ensures r.NoSpace? ==> fs.Ready() && UsedUpTo(fs.log.home, fs.log.start)
  {
    hide Idle, Updated, L.Atomic, L.TraceOk, CrashSafe, UsedUpTo, L.Log.Valid, Geo, Progress, Done, Sound;
    states := [];
    if !f.writable {
      return Failed, states;
    }
    IdleTrace(fs, f.ip);
    ghost var s0, t0, start, size := State(fs.log.home, fs.T), fs.log.disk.trace, fs.log.start, fs.log.size;
    CrashSafeStart(t0, start, size, s0.home, s0.T);
    states := [s0];
    IdleSound(fs, f.ip);
    ProgressStart(s0, f.ip.inum, f.off, src);
    var i, n := 0, |src|;
    while i < n
      invariant states != [] && i == Done(|states| - 1, n) <= n && f.off == old(f.off) + i && f.off < UINT
      invariant Idle(fs, f.ip) && fs.log.start == start && fs.log.size == size
      invariant states[|states|-1] == State(fs.log.home, fs.T) && Progress(s0, states, f.ip.inum, old(f.off), src)
      invariant CrashSafe(fs.log.disk.trace, |t0| - 1, start, size, states) && AllSound(states)
    {
      var n1 := n - i;
      if n1 > CHUNK {
        n1 := CHUNK;
      }
      var w;
      w, states := ChunkRound(fs, f, src, i, n1, t0, s0, states, old(f.off));
      if !w.Wrote? {
        return w, states;
      }
      i := i + w.n;
    }
    r := Wrote(n);
  }

  /** One round of filewrite, with the states it adds to. */
  method ChunkRound(fs: Fs, f: File, src: seq<byte>, i: nat, n1: nat, ghost t0: seq<seq<Block>>, ghost s0: State,
                    ghost states: seq<State>, ghost off0: nat) returns (w: Wrote, ghost next: seq<State>)
    requires Idle(fs, f.ip) && f.off < UINT && i < |src| && n1 == Min(|src| - i, CHUNK)
    requires states != [] && i == Done(|states| - 1, |src|) && f.off == off0 + i && |t0| > 0
    requires states[|states|-1] == State(fs.log.home, fs.T) && Progress(s0, states, f.ip.inum, off0, src)
    requires CrashSafe(fs.log.disk.trace, |t0| - 1, fs.log.start, fs.log.size, states) && AllSound(states)
    modifies f`off, fs, fs.log, fs.log.cache, fs.log.disk, f.ip`addrs, f.ip`size
    ensures fs.log.start == old(fs.log.start) && fs.log.size == old(fs.log.size)
    ensures CrashSafe(fs.log.disk.trace, |t0| - 1, fs.log.start, fs.log.size, next) && AllSound(next)
    ensures Progress(s0, next, f.ip.inum, off0, src)
    ensures w.NoSpace? ==> fs.Ready() && UsedUpTo(fs.log.home, fs.log.start)
    ensures !w.NoSpace? ==> Idle(fs, f.ip) && next != [] && next[|next|-1] == State(fs.log.home, fs.T)
    ensures !w.Wrote? ==> next == states && f.off == old(f.off)
    ensures w.Wrote? ==> f.off <= FD.MAXBYTES
    ensures w.Failed? ==> CannotGrow(f.off, f.ip.size, |src| - i)
    ensures w.Wrote? ==>
      w.n == n1 && f.off == old(f.off) + n1 && |next| == |states| + 1 && i + n1 == Done(|next| - 1, |src|)
  {
    hide Idle, Updated, L.Atomic, L.TraceOk, CrashSafe, UsedUpTo, L.Log.Valid, Geo, Progress, Sound;
    ghost var t1 := fs.log.disk.trace;
    ghost var sectors;
    w, sectors := WriteChunk(fs, f.ip, src[i..i + n1], f.off);
    next := states;
    if w.NoSpace? {
      CrashSafeStuck(t1, fs.log.disk.trace, |t0| - 1, fs.log.start, fs.log.size, states);
    } else if w.Failed? {
      AtomicSame(fs.log.disk.trace, |t1| - 1, fs.log.start, fs.log.size, fs.log.home);
      CrashSafeStuck(t1, fs.log.disk.trace, |t0| - 1, fs.log.start, fs.log.size, states);
    } else {
      ghost var last := State(fs.log.home, fs.T);
      IdleSound(fs, f.ip);
      CrashSafeStep(t1, fs.log.disk.trace, |t0| - 1, fs.log.start, fs.log.size, states, last);
      ProgressStep(s0, states, last, f.ip.inum, off0, src, n1);
      next := states + [last];
      f.off := f.off + w.n;
    }
  }

  /** The states are one chunk apart, and together the chunks overwrite the file with a prefix of `src`. */
  ghost predicate Progress(s0: State, states: seq<State>, i: nat, off: nat, src: seq<byte>) {
    && Chunks(states, i, off, src) && states[0] == s0
    && (|states| > 1 ==> var last := states[|states|-1];
          Updated(s0.home, s0.T, last.home, last.T, i, off, src[..Done(|states| - 1, |src|)]))
  }

  lemma ProgressStart(s0: State, i: nat, off: nat, src: seq<byte>)
    ensures Progress(s0, [s0], i, off, src) && Done(0, |src|) == 0
  {
  }

  lemma ProgressStep(s0: State, states: seq<State>, next: State, i: nat, off: nat, src: seq<byte>, n1: nat)
    requires Progress(s0, states, i, off, src)
    requires var k := |states| - 1; var at := Done(k, |src|);
      at < |src| && n1 == Min(|src| - at, CHUNK)
      && Updated(states[k].home, states[k].T, next.home, next.T, i, off + at, src[at..at + n1])
    ensures Progress(s0, states + [next], i, off, src)
    ensures Done(|states|, |src|) == Done(|states| - 1, |src|) + n1
  {
    hide Updated;
    var k := |states| - 1;
    var at := Done(k, |src|);
    assert at == k * CHUNK && Done(k + 1, |src|) == at + n1;
    var all := states + [next];
    forall j | 0 <= j < |all| - 1 ensures ChunkStep(all[j], all[j+1], i, off, src, j) {
      if j < k {
        assert ChunkStep(states[j], states[j+1], i, off, src, j);
      }
    }
    if k > 0 {
      UpdatedTrans(s0, states[k], next, i, off, src[..at], src[at..at + n1]);
      assert src[..at] + src[at..at + n1] == src[..at + n1];
    } else {
      assert src[at..at + n1] == src[..at + n1];
    }
  }

  lemma IdleTrace(fs: Fs, ip: Inode)
    requires Idle(fs, ip)
    ensures |fs.log.disk.trace| > 0
    ensures L.TraceOk(fs.log.disk.trace, |fs.log.disk.trace| - 1, fs.log.start, fs.log.size, fs.log.home)
  {
    hide L.Log.Valid, L.RecoversTo;
    fs.log.ValidFacts();
    fs.log.TraceFacts();
  }
}
