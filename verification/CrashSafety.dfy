/**
 Whole runs with crashes: a transaction, a crash after any of its sector
 writes, a boot, a crash after any sector write of that recovery, and so on.
 */
module CrashSafety {
  import opened Base
  import opened Blocks
  import opened BufferCache
  import opened RedoLog
  import Sets

  datatype Update = Update(sector: nat, data: Block)

  ghost function Sectors(us: seq<Update>): set<nat> {
    set u | u in us :: u.sector
  }

  ghost predicate Legal(us: seq<Update>, start: nat) {
    forall k | 0 <= k < |us| :: HomeSector(us[k].sector, start)
  }

  /** The home sectors after storing the updates one after the other. */
  ghost function Apply(home: seq<Block>, us: seq<Update>): (r: seq<Block>)
    requires Legal(us, |home|)
    ensures |r| == |home|
  {
    if us == [] then home else Apply(home, us[..|us|-1])[us[|us|-1].sector := us[|us|-1].data]
  }

  /** The superblock in sector 1 describes this log area. */
  ghost predicate Described(home: seq<Block>, start: nat, size: nat) {
    && SB < |home| && Word(home[SB], 3) <= Word(home[SB], 0)
    && LogStart(home[SB]) == start && Word(home[SB], 3) == size
  }

  /** No log_write of the transaction finds the log full or all buffers pinned. */
  ghost predicate FitsLog(us: seq<Update>, size: nat) {
    forall k | 0 <= k < |us| :: |Sectors(us[..k])| < size - 1 && |Sectors(us[..k]) + {us[k].sector}| < NBUF
  }

  /**
   A transaction that logs the given updates: begin_trans, then bread, change, log_write and brelse
   for each, then commit_trans.
   */
  method Transaction(log: Log, us: seq<Update>)
    requires log.Valid() && !log.busy && log.held == map[] && log.edited == {}
    requires Legal(us, log.start)
    requires FitsLog(us, log.size)
    modifies log, log.cache, log.disk
    ensures log.Valid() && !log.busy && log.held == map[] && log.edited == {} && log.logged == {}
    ensures log.start == old(log.start) && log.size == old(log.size)
    ensures |old(log.home)| == log.start
    ensures log.home == Apply(old(log.home), us)
    ensures |old(log.disk.trace)| > 0 && old(log.disk.trace) <= log.disk.trace
    ensures Atomic(log.disk.trace, |old(log.disk.trace)| - 1, log.start, log.size, old(log.home), log.home)
  {
    hide Log.Valid, Apply, Sectors, Atomic, HomeSector;
    log.ValidFacts();
    var _ := log.BeginTrans();
    Start(log.home);
    ghost var h0, t0 := log.home, log.disk.trace;
    var k := 0;
    while k < |us|
      invariant k <= |us| && log.Valid() && log.busy && log.held == map[] && log.edited == {}
      invariant log.logged == Sectors(us[..k])
      invariant log.start == old(log.start) && log.size == old(log.size)
      invariant log.base == h0 && log.since == |t0| - 1 && t0 <= log.disk.trace
      invariant |h0| == log.start && log.home == Apply(h0, us[..k])
    {
      SectorsStep(us, k);
      assert |Sectors(us[..k])| < log.size - 1;
      ApplyStep(h0, us, k);
      LoggedWrite(log, us[k].sector, us[k].data);
      k := k + 1;
    }
    assert us[..k] == us;
    log.CommitTrans();
  }

  lemma Start(home: seq<Block>)
    ensures Apply(home, []) == home && Sectors([]) == {}
  {
  }

  lemma ApplyStep(home: seq<Block>, us: seq<Update>, k: nat)
    requires Legal(us, |home|) && k < |us|
    ensures Apply(home, us[..k+1]) == Apply(home, us[..k])[us[k].sector := us[k].data]
  {
    assert us[..k+1][..k] == us[..k];
  }

  /** bread, change, log_write, brelse. */
  method LoggedWrite(log: Log, s: nat, data: Block)
    requires log.Valid() && log.busy && log.held == map[] && log.edited == {} && HomeSector(s, log.start)
    requires |log.logged + {s}| < NBUF && |log.logged| < log.size - 1
    modifies log.cache, log.disk, log`home, log`held, log`edited, log`logged, log`n, log`sector, log`pin
    ensures log.Valid() && log.held == map[] && log.edited == {}
    ensures s < |old(log.home)| && log.home == old(log.home)[s := data] && log.logged == old(log.logged) + {s}
    ensures old(log.disk.trace) <= log.disk.trace
  {
    hide Log.Valid;
    log.ValidFacts();
    Sets.SubsetSize(log.logged, log.logged + {s});
    var i := log.Read(s);
    assert log.held.Values == {s};
    log.Store(i, data);
    log.LogWrite(i);
    log.Release(i);
    PutBack(map[], i, s);
  }

  lemma SectorsStep(us: seq<Update>, k: nat)
    requires k < |us|
    ensures Sectors(us[..k+1]) == Sectors(us[..k]) + {us[k].sector}
  {
    assert us[..k+1] == us[..k] + [us[k]];
  }

  /** The superblock is never in the log, so the disk shows the right one before recovery starts. */
  lemma SuperKept(d: seq<Block>, start: nat, size: nat, home: seq<Block>)
    requires RecoversTo(d, start, size, home)
    ensures SB < |d| && SB < |home| && d[SB] == home[SB]
  {
    var ts := Targets(d[start]);
    OverlayElsewhere(d[..start], ts, d[start+1..start+1+|ts|], SB);
  }

  /** Power on with the given disk: an empty cache, then initlog. */
  method Boot(image: seq<Block>, ghost start: nat, ghost size: nat, ghost home: seq<Block>) returns (log: Log)
    requires RecoversTo(image, start, size, home) && Described(home, start, size)
    ensures fresh(log) && fresh(log.cache) && fresh(log.disk)
    ensures log.Valid() && !log.busy && log.held == map[] && log.edited == {} && log.logged == {}
    ensures log.home == home && log.start == start && log.size == size
    ensures |log.disk.trace| > 0 && forall t | 0 <= t < |log.disk.trace| ::
      RecoversTo(log.disk.trace[t], start, size, home)
  {
    hide RecoversTo, Coherent;
    SuperKept(image, start, size, home);
    var disk := new Disk(image);
    var cache := new Bcache(disk);
    LoggableHere(image, start, size, home);
    CacheFacts(cache);
    log := new Log(cache);
    log.TraceFacts();
  }

  lemma LoggableHere(d: seq<Block>, start: nat, size: nat, home: seq<Block>)
    requires RecoversTo(d, start, size, home)
    ensures Loggable(d, start, size) && Recovered(d, start, size) == home
  {
  }

  /**
     Run a transaction, let the power fail with the disk as it was after one of
     the sector writes, boot, and let it fail again during each of the following
     recoveries. What the last boot finds is the state before the transaction or
     the state after it.
     */
  method CrashRun(log: Log, us: seq<Update>, crash: nat, again: seq<nat>) returns (after: Log)
    requires log.Valid() && !log.busy && log.held == map[] && log.edited == {}
    requires Described(log.home, log.start, log.size)
    requires Legal(us, log.start)
    requires FitsLog(us, log.size)
    modifies log, log.cache, log.disk
    ensures after.Valid() && !after.busy && after.held == map[]
    ensures |old(log.home)| == old(log.start)
    ensures after.home == old(log.home) || after.home == Apply(old(log.home), us)
    ensures Described(after.home, after.start, after.size)
  {
    hide Log.Valid, RecoversTo, Bcache.Valid, Apply, Loggable;
    ghost var h0 := log.home;
    var since := |log.disk.trace| - 1;
    log.ValidFacts();
    Transaction(log, us);
    ApplySuper(h0, us);
    var k := since + crash % (|log.disk.trace| - since);
    var image := log.disk.trace[k];
    ghost var start, size := log.start, log.size;
    ghost var home := AtomicChoice(log.disk.trace, since, k, start, size, h0, log.home);
    var i := 0;
    while i < |again|
      invariant RecoversTo(image, start, size, home)
    {
      var next := Boot(image, start, size, home);
      image := next.disk.trace[again[i] % |next.disk.trace|];
      i := i + 1;
    }
    after := Boot(image, start, size, home);
  }

  lemma {:induction false} ApplySuper(home: seq<Block>, us: seq<Update>)
    requires SB < |home| && Legal(us, |home|)
    ensures Apply(home, us)[SB] == home[SB]
  {
    if us != [] {
      ApplySuper(home, us[..|us|-1]);
    }
  }

  lemma AtomicChoice(trace: seq<seq<Block>>, since: nat, k: nat, start: nat, size: nat, before: seq<Block>,
                     after: seq<Block>)
    returns (home: seq<Block>)
    requires Atomic(trace, since, start, size, before, after) && since <= k < |trace|
    ensures (home == before || home == after) && RecoversTo(trace[k], start, size, home)
  {
    hide RecoversTo;
    var c :| CommitPoint(trace, since, c, start, size, before, after);
    home := if k < c then before else after;
  }
}
