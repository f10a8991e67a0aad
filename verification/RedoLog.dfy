/**
 The redo log (log.c) over the buffer cache: one transaction at a time, its
 blocks appended to the log area, committed by one write of the header block,
 installed to their home sectors, then erased.
 */
module RedoLog {
  import opened Base
  import opened Blocks
  import opened BufferCache
  import Sets

  const LOGSIZE: nat := 10

  // --------------------------------------------------- the log on the disk

  /** A sector that a transaction may write. */
  ghost predicate HomeSector(s: nat, start: nat) {
    s < start && s != SB
  }

  ghost predicate AllHome(ts: seq<nat>, start: nat) {
    forall i | 0 <= i < |ts| :: HomeSector(ts[i], start)
  }

  ghost predicate InRange(ts: seq<nat>, n: nat) {
    forall i | 0 <= i < |ts| :: ts[i] < n
  }

  /** The log area is on the disk and its header names at most the blocks it has room for, all home sectors. */
  ghost predicate Loggable(d: seq<Block>, start: nat, size: nat) {
    && SB < start && 1 < size && start + size <= |d| && Word(d[start], 0) <= LOGSIZE
    && |Targets(d[start])| < size
    && AllHome(Targets(d[start]), start)
  }

  /** The sectors named by a header block. */
  ghost function Targets(h: Block): (ts: seq<nat>)
    requires Word(h, 0) <= LOGSIZE
    ensures |ts| == Word(h, 0)
    ensures forall i | 0 <= i < |ts| :: ts[i] == Word(h, 1 + i)
  {
    seq(Word(h, 0), i requires 0 <= i < LOGSIZE => Word(h, 1 + i))
  }

  /** `home` with block `images[i]` stored at `ts[i]`, in order. */
  ghost function Overlay(home: seq<Block>, ts: seq<nat>, images: seq<Block>): (r: seq<Block>)
    requires |ts| == |images| && InRange(ts, |home|)
    ensures |r| == |home|
  {
    if ts == [] then home
    else Overlay(home, ts[..|ts|-1], images[..|ts|-1])[ts[|ts|-1] := images[|ts|-1]]
  }

  /** The home sectors after installing the first `k` blocks of the log. */
  ghost function Installed(d: seq<Block>, start: nat, ts: seq<nat>, k: nat): (r: seq<Block>)
    requires k <= |ts| && start + 1 + |ts| <= |d| && InRange(ts, start)
    ensures |r| == |d|
  {
    Overlay(d[..start], ts[..k], d[start+1..start+1+k]) + d[start..]
  }

  /** What recovery makes of the home sectors of a disk found after a crash. */
  ghost function Recovered(d: seq<Block>, start: nat, size: nat): seq<Block>
    requires Loggable(d, start, size)
  {
    var ts := Targets(d[start]);
    Overlay(d[..start], ts, d[start+1..start+1+|ts|])
  }

  /** First sector of the log according to the superblock. */
  function LogStart(sb: Block): nat
    requires Word(sb, 3) <= Word(sb, 0)
  {
    Word(sb, 0) - Word(sb, 3)
  }

  ghost predicate RecoversTo(d: seq<Block>, start: nat, size: nat, home: seq<Block>) {
    Loggable(d, start, size) && Recovered(d, start, size) == home
  }

  /** Sectors that the overlay does not name keep their block; those named take it from the log only. */
  lemma {:induction false} OverlayElsewhere(home: seq<Block>, ts: seq<nat>, images: seq<Block>, s: nat)
    requires |ts| == |images| && InRange(ts, |home|)
    requires s < |home| && s !in ts
    ensures Overlay(home, ts, images)[s] == home[s]
  {
    if ts != [] {
      OverlayElsewhere(home, ts[..|ts|-1], images[..|ts|-1], s);
    }
  }

  lemma {:induction false} OverlayNamed(h1: seq<Block>, h2: seq<Block>, ts: seq<nat>, images: seq<Block>, s: nat)
    requires |ts| == |images| && |h1| == |h2| && InRange(ts, |h1|)
    requires s < |h1| && (s in ts || h1[s] == h2[s])
    ensures Overlay(h1, ts, images)[s] == Overlay(h2, ts, images)[s]
  {
    if ts != [] && s != ts[|ts|-1] {
      var q := ts[..|ts|-1];
      assert s in ts ==> s in q by {
        if s in ts { assert ts == q + [ts[|ts|-1]]; }
      }
      OverlayNamed(h1, h2, q, images[..|ts|-1], s);
    }
  }

  /** Installing the whole log over a partial installation is the same as installing it once. */
  lemma OverlayAgain(home: seq<Block>, ts: seq<nat>, images: seq<Block>, k: nat)
    requires |ts| == |images| && k <= |ts| && InRange(ts, |home|)
    ensures Overlay(Overlay(home, ts[..k], images[..k]), ts, images) == Overlay(home, ts, images)
  {
    var part := Overlay(home, ts[..k], images[..k]);
    var l, r := Overlay(part, ts, images), Overlay(home, ts, images);
    forall s | 0 <= s < |home| ensures l[s] == r[s] {
      if s !in ts {
        assert s !in ts[..k];
        OverlayElsewhere(home, ts[..k], images[..k], s);
      }
      OverlayNamed(part, home, ts, images, s);
    }
  }

  /** A crash in the middle of the installation loses nothing: the log still recovers the same state. */
  lemma InstallingRecovers(d: seq<Block>, start: nat, size: nat, k: nat)
    requires Loggable(d, start, size) && k <= Word(d[start], 0)
    ensures RecoversTo(Installed(d, start, Targets(d[start]), k), start, size, Recovered(d, start, size))
  {
    var ts := Targets(d[start]);
    var d' := Installed(d, start, ts, k);
    assert d'[start] == d[start];
    var images := d[start+1..start+1+|ts|];
    assert images[..k] == d[start+1..start+1+k];
    assert d'[start+1..start+1+|ts|] == images;
    assert d'[..start] == Overlay(d[..start], ts[..k], images[..k]);
    OverlayAgain(d[..start], ts, images, k);
  }

  // ------------------------------------------------------- the log in memory

  /** A buffer that is held or dirty pins its sector; fewer pinned sectors than buffers leave one to recycle. */
  lemma FreeBuffer(bufs: seq<Buf>, pinned: set<nat>)
    requires |bufs| == NBUF && Unique(bufs) && |pinned| < NBUF
    requires forall k | 0 <= k < NBUF && !Reusable(bufs[k]) :: bufs[k].dev == ROOTDEV && bufs[k].sector in pinned
    ensures exists k :: 0 <= k < NBUF && Reusable(bufs[k])
  {
    if !(exists k :: 0 <= k < NBUF && Reusable(bufs[k])) {
      var q: seq<nat> := seq(NBUF, k requires 0 <= k < NBUF => bufs[k].sector);
      var all := set x | x in q;
      Sets.Distinct(q);
      Sets.SubsetSize(all, pinned);
    }
  }

  /**
   The in-memory header: distinct home sectors, each pinned by a dirty buffer
   (`pin`), which unless its holder is editing it equals its image in the log.
   */
  ghost predicate Entries(bufs: seq<Buf>, d: seq<Block>, start: nat, ts: seq<nat>, pin: seq<nat>, edited: set<nat>) {
    && |bufs| == NBUF && start + |ts| < |d| && |pin| == |ts|
    && AllHome(ts, start)
    && (forall i, j | 0 <= i < j < |ts| :: ts[i] != ts[j])
    && (forall i | 0 <= i < |ts| ::
          && pin[i] < NBUF && bufs[pin[i]].dirty && Holds(bufs[pin[i]], ts[i])
          && (pin[i] !in edited ==> bufs[pin[i]].data == d[start + 1 + i]))
    && (forall k | 0 <= k < NBUF && bufs[k].dirty :: k in pin)
  }

  /** `held` maps the buffers in use to their sectors; those not being edited equal the disk unless dirty. */
  ghost predicate HeldOk(bufs: seq<Buf>, d: seq<Block>, start: nat, held: map<nat, nat>, edited: set<nat>) {
    && |bufs| == NBUF && start <= |d|
    && (forall k | k in held :: k < NBUF && Holds(bufs[k], held[k]) && held[k] < start)
    && (forall k | 0 <= k < NBUF :: bufs[k].busy <==> k in held)
    && (forall k | k in held && k !in edited && !bufs[k].dirty :: bufs[k].data == d[held[k]])
    && edited <= held.Keys
  }

  ghost predicate HomeView(bufs: seq<Buf>, d: seq<Block>, start: nat, home: seq<Block>) {
    && |home| == start <= |d|
    && forall s | 0 <= s < start :: home[s] == Content(bufs, d, s)
  }

  /** Every disk image since index `since` recovers to `base`. */
  ghost predicate TraceOk(trace: seq<seq<Block>>, since: nat, start: nat, size: nat, base: seq<Block>) {
    && since < |trace|
    && forall t | since <= t < |trace| :: RecoversTo(trace[t], start, size, base)
  }

  class Log {
    const cache: Bcache
    const disk: Disk
    var start: nat
    var size: nat
    var busy: bool
    var n: nat            // lh.n
    var sector: seq<nat>  // lh.sector
    // What the layers above rely on:
    ghost var home: seq<Block>      // current content of the home sectors
    ghost var held: map<nat, nat>   // buffers in use, with their sectors
    ghost var edited: set<nat>      // those changed since they were read or logged
    ghost var logged: set<nat>      // sectors in this transaction
    ghost var base: seq<Block>      // content of the home sectors when it began
    ghost var since: nat            // index in the disk trace at which it began
    ghost var begun: seq<seq<Block>> // the disk trace at that point
    ghost var pin: seq<nat>

    ghost predicate Valid()
      reads this, cache, disk
    {
      && cache.disk == disk && cache.Valid()
      && SB < start < UINT && 1 < size && start + size <= |disk.sectors|
      && Word(disk.sectors[start], 0) == 0
      && |sector| == LOGSIZE && n <= LOGSIZE && n < size && n < NBUF && (!busy ==> n == 0)
      && logged == Elems(sector[..n]) && |logged| == n
      && base == disk.sectors[..start]
      && Entries(cache.buf, disk.sectors, start, sector[..n], pin, edited)
      && HeldOk(cache.buf, disk.sectors, start, held, edited)
      && HomeView(cache.buf, disk.sectors, start, home)
      && TraceOk(disk.trace, since, start, size, base)
      && |begun| == since + 1 && begun <= disk.trace
    }

    /**
     initlog after a boot that found the disk in any state whose log is
     well-formed: the home sectors become what that state recovers to, and every
     disk image on the way recovers to the same.
     */
    constructor (c: Bcache)
      requires c.Valid() && AllFree(c.buf)
      requires SB < |c.disk.sectors| && Word(c.disk.sectors[SB], 3) <= Word(c.disk.sectors[SB], 0)
      requires Loggable(c.disk.sectors, LogStart(c.disk.sectors[SB]), Word(c.disk.sectors[SB], 3))
      modifies c, c.disk
      ensures Valid() && cache == c && disk == c.disk
      ensures start == LogStart(old(c.disk.sectors)[SB]) && size == Word(old(c.disk.sectors)[SB], 3)
      ensures !busy && held == map[] && edited == {} && logged == {}
      ensures base == home == Recovered(old(c.disk.sectors), start, size)
      ensures old(c.disk.trace) <= disk.trace && since == |old(c.disk.trace)| - 1
    {
      hide Coherent, Unique, Content, Bcache.Valid, Word, Overlay, Installed, Targets, TraceOk;
      CacheFacts(c);
      ContentClean(c.buf, c.disk.sectors, SB);
      ghost var d0, t0 := c.disk.sectors, c.disk.trace;
      assert Reusable(c.buf[0]);
      var sb := c.BreadNow(SB);
      cache, disk := c, c.disk;
      start, size := Word(c.buf[sb].data, 0) - Word(c.buf[sb].data, 3), Word(c.buf[sb].data, 3);
      n, sector, busy := 0, seq(LOGSIZE, i => 0), false;
      new;
      cache.Brelse(sb);
      CacheFacts(cache);
      RecoverFromLog();
    }

    /** recover_from_log: install what the header on the disk names, if anything, then clear it. */
    method RecoverFromLog()
      requires cache.disk == disk && cache.Valid() && AllFree(cache.buf)
      requires Loggable(disk.sectors, start, size) && start < UINT && |sector| == LOGSIZE
      modifies cache, disk, this`n, this`sector, this`home, this`base, this`since, this`pin, this`logged, this`held
      modifies this`edited, this`begun
      ensures !busy ==> Valid()
      ensures held == map[] && edited == {} && logged == {}
      ensures base == home == Recovered(old(disk.sectors), start, size)
      ensures old(disk.trace) <= disk.trace && since == |old(disk.trace)| - 1
    {
      hide Coherent, Unique, Content, Bcache.Valid, Word, Overlay, Installed, Targets, TraceOk, Entries, HeldOk;
      hide HomeView, Elems;
      CacheFacts(cache);
      ghost var d0, t0 := disk.sectors, disk.trace;
      ReadHead();
      ghost var h := Recovered(d0, start, size);
      LoggableFacts(d0, start, size, h);
      InstallAndErase(h);
      TraceBoot(t0, disk.trace, d0, start, size, h);
      Settle(t0);
    }

    /** The state of an empty log whose disk has the given trace behind it. */
    ghost method Settle(t: seq<seq<Block>>)
      requires cache.disk == disk && cache.Valid() && AllFree(cache.buf)
      requires SB < start < UINT && 1 < size && start + size <= |disk.sectors| && Word(disk.sectors[start], 0) == 0
      requires |sector| == LOGSIZE && n == 0 && |t| > 0 && t <= disk.trace
      requires TraceOk(disk.trace, |t| - 1, start, size, disk.sectors[..start])
      modifies this`home, this`base, this`since, this`begun, this`pin, this`logged, this`held, this`edited
      ensures !busy ==> Valid()
      ensures home == base == disk.sectors[..start] && held == map[] && edited == {} && logged == {}
      ensures begun == t && since == |t| - 1
    {
      hide Coherent, Unique, Content, Bcache.Valid, Word, TraceOk, Entries, HeldOk, HomeView, Elems, AllFree;
      CacheFacts(cache);
      base := disk.sectors[..start];
      home := base;
      EmptyOk(cache.buf, disk.sectors, start, home);
      pin, logged, held, edited, since, begun := [], {}, map[], {}, |t| - 1, t;
      assert sector[..n] == [];
    }

    /** read_head: load the header block into memory. */
    method ReadHead()
      requires cache.disk == disk && cache.Valid() && start < |disk.sectors| && |sector| == LOGSIZE
      requires AllFree(cache.buf)
      requires Word(disk.sectors[start], 0) <= LOGSIZE
      modifies cache, disk, this`n, this`sector
      ensures cache.Valid() && disk.sectors == old(disk.sectors) && disk.trace == old(disk.trace)
      ensures AllFree(cache.buf)
      ensures |sector| == LOGSIZE && n <= LOGSIZE && sector[..n] == Targets(disk.sectors[start])
    {
      hide Coherent, Unique, Content, Bcache.Valid, Word;
      CacheFacts(cache);
      ContentClean(cache.buf, disk.sectors, start);
      assert Reusable(cache.buf[0]);
      var b := cache.BreadNow(start);
      ghost var lh := cache.buf[b].data;
      n := Word(cache.buf[b].data, 0);
      var i := 0;
      while i < n
        modifies this`sector
        invariant i <= n && |sector| == LOGSIZE
        invariant forall j | 0 <= j < i :: sector[j] == Word(lh, 1 + j)
      {
        sector := sector[i := Word(cache.buf[b].data, 1 + i)];
        i := i + 1;
      }
      cache.Brelse(b);
      CacheFacts(cache);
    }

    /** Write the in-memory header to the log's first sector: one sector write. */
    method WriteHead()
      requires cache.disk == disk && cache.Valid() && start < |disk.sectors|
      requires |sector| == LOGSIZE && n <= LOGSIZE && InRange(sector[..n], UINT)
      requires forall k | 0 <= k < NBUF && !Reusable(cache.buf[k]) :: !Holds(cache.buf[k], start)
      requires exists k :: 0 <= k < NBUF && Reusable(cache.buf[k])
      modifies cache, disk
      ensures cache.Valid() && OnlyRecycled(old(cache.buf), cache.buf)
      ensures start < |disk.sectors| && disk.sectors == old(disk.sectors)[start := disk.sectors[start]]
      ensures Word(disk.sectors[start], 0) == n && Targets(disk.sectors[start]) == sector[..n]
      ensures disk.trace == old(disk.trace) + [disk.sectors]
    {
      hide Linked, Sorted;
      var b := cache.BreadNow(start);
      var hb := FillHead(cache.buf[b].data);
      cache.Store(b, hb);
      cache.Bwrite(b);
      cache.Brelse(b);
    }

    /** The loop of write_head: the block gets the header. */
    method FillHead(data: Block) returns (hb: Block)
      requires |sector| == LOGSIZE && n <= LOGSIZE && InRange(sector[..n], UINT)
      ensures Word(hb, 0) == n && Targets(hb) == sector[..n]
    {
      hb := SetWord(data, 0, n);
      var i := 0;
      while i < n
        invariant i <= n && Word(hb, 0) == n
        invariant forall j: nat | j < i :: Word(hb, 1 + j) == sector[j]
      {
        hb := SetWord(hb, 1 + i, sector[i]);
        i := i + 1;
      }
      assert Targets(hb) == sector[..n];
    }

    /** The second half of that round: both buffers in hand, write the copy and release them. */
    method CopyBuffer(lbuf: nat, dbuf: nat)
      requires cache.disk == disk && cache.Valid() && lbuf < NBUF && dbuf < NBUF && lbuf != dbuf && |cache.buf| == NBUF
      requires cache.buf[lbuf].busy && cache.buf[dbuf].busy && cache.buf[lbuf].dev == cache.buf[dbuf].dev == ROOTDEV
      requires cache.buf[lbuf].sector < |disk.sectors| && cache.buf[dbuf].sector < |disk.sectors|
      requires cache.buf[lbuf].sector != cache.buf[dbuf].sector
      requires !cache.buf[lbuf].dirty && cache.buf[lbuf].data == disk.sectors[cache.buf[lbuf].sector]
      modifies cache, disk
      ensures cache.Valid()
      ensures disk.sectors == old(disk.sectors)[old(cache.buf)[dbuf].sector := old(cache.buf)[lbuf].data]
      ensures disk.trace == old(disk.trace) + [disk.sectors]
      ensures cache.buf == old(cache.buf)[lbuf := old(cache.buf)[lbuf].(busy := false)]
                                         [dbuf := old(cache.buf)[dbuf].(busy := false, dirty := false,
                                             data := old(cache.buf)[lbuf].data)]
    {
      hide Linked, Sorted, Coherent, Unique, Content, Bcache.ListOk, Disk.Valid;
      cache.Store(dbuf, cache.buf[lbuf].data);
      cache.Bwrite(dbuf);
      cache.Brelse(lbuf);
      cache.Brelse(dbuf);
    }

    /** One round of install_trans: copy log block `tail` to its home sector. */
    method InstallBlock(tail: nat) returns (ghost dbuf: nat)
      requires cache.disk == disk && cache.Valid() && NoneBusy(cache.buf)
      requires |sector| == LOGSIZE && tail < LOGSIZE && sector[tail] < start && start + 1 + tail < |disk.sectors|
      requires exists k :: 0 <= k < NBUF && Reusable(cache.buf[k])
      requires forall k | 0 <= k < NBUF && cache.buf[k].dirty :: !Holds(cache.buf[k], start + 1 + tail)
      requires NoneDirty(cache.buf) || exists k ::
        0 <= k < NBUF && cache.buf[k].dirty && Holds(cache.buf[k], sector[tail])
      modifies cache, disk
      ensures cache.Valid() && NoneBusy(cache.buf)
      ensures disk.sectors == old(disk.sectors)[sector[tail] := old(disk.sectors)[start + 1 + tail]]
      ensures disk.trace == old(disk.trace) + [disk.sectors]
      ensures dbuf < NBUF && !cache.buf[dbuf].dirty
      ensures NoneDirty(old(cache.buf)) || Holds(old(cache.buf)[dbuf], sector[tail])
      ensures forall k | 0 <= k < NBUF && k != dbuf ::
        if old(cache.buf)[k].dirty then cache.buf[k] == old(cache.buf)[k] else !cache.buf[k].dirty
    {
      hide Linked, Sorted, Coherent, Unique, Content, Bcache.ListOk, Disk.Valid;
      CoherentFacts(cache.buf, disk.sectors);
      ContentClean(cache.buf, disk.sectors, start + 1 + tail);
      ghost var b0 := cache.buf;
      var lbuf := cache.BreadNow(start + tail + 1);
      ghost var b1 := cache.buf;
      assert exists k :: 0 <= k < NBUF && (Reusable(cache.buf[k]) || Holds(cache.buf[k], sector[tail])) by {
        if NoneDirty(old(cache.buf)) {
          assert Reusable(cache.buf[if lbuf == 0 then 1 else 0]);
        } else {
          var k :| 0 <= k < NBUF && old(cache.buf)[k].dirty && Holds(old(cache.buf)[k], sector[tail]);
          assert cache.buf[k] == old(cache.buf)[k];
        }
      }
      var db := cache.BreadNow(sector[tail]);
      assert NoneDirty(b0) || Holds(b0[db], sector[tail]) by {
        if !NoneDirty(b0) {
          var k :| 0 <= k < NBUF && b0[k].dirty && Holds(b0[k], sector[tail]);
          assert b1[k] == b0[k];
          assert Holds(b1[db], sector[tail]);
        }
      }
      CopyBuffer(lbuf, db);
      dbuf := db;
    }

    /** Copy the blocks of the log to their home sectors, one sector write each. */
    method InstallTrans()
      requires cache.disk == disk && cache.Valid() && NoneBusy(cache.buf)
      requires |sector| == LOGSIZE && n <= LOGSIZE && start + 1 + n <= |disk.sectors| && InRange(sector[..n], start)
      requires NoneDirty(cache.buf) || PinnedFrom(cache.buf, sector[..n], pin, 0)
      modifies cache, disk
      ensures cache.Valid() && NoneBusy(cache.buf) && NoneDirty(cache.buf)
      ensures disk.sectors == Installed(old(disk.sectors), start, sector[..n], n)
      ensures |disk.trace| == |old(disk.trace)| + n && old(disk.trace) <= disk.trace
      ensures forall t | |old(disk.trace)| <= t < |disk.trace| ::
        disk.trace[t] == Installed(old(disk.sectors), start, sector[..n], t + 1 - |old(disk.trace)|)
    {
      hide Linked, Sorted, Coherent, Unique, Installed, PinnedFrom, NoneDirty;
      ghost var d0 := disk.sectors;
      ghost var ts := sector[..n];
      InstalledNone(d0, start, ts);
      var tail := 0;
      while tail < n
        invariant tail <= n && cache.Valid() && NoneBusy(cache.buf)
        invariant NoneDirty(cache.buf) || PinnedFrom(cache.buf, ts, pin, tail)
        invariant disk.sectors == Installed(d0, start, ts, tail)
        invariant |disk.trace| == |old(disk.trace)| + tail && old(disk.trace) <= disk.trace
        invariant forall t | |old(disk.trace)| <= t < |disk.trace| ::
          disk.trace[t] == Installed(d0, start, ts, t + 1 - |old(disk.trace)|)
      {
        ghost var before := cache.buf;
        CoherentFacts(cache.buf, disk.sectors);
        SomeFree(cache.buf, ts, pin, start, tail);
        InstalledStep(d0, start, ts, tail);
        ghost var dbuf := InstallBlock(tail);
        PinnedStep(before, cache.buf, dbuf, ts, pin, tail);
        tail := tail + 1;
      }
      PinnedEnd(cache.buf, ts, pin);
    }

    /** Copy a block into log slot `j`: one sector write in the log area. */
    method AppendBlock(j: nat, data: Block) returns (ghost l: nat)
      requires cache.disk == disk && cache.Valid() && start + 1 + j < |disk.sectors|
      requires forall k | 0 <= k < NBUF && !Reusable(cache.buf[k]) :: !Holds(cache.buf[k], start + 1 + j)
      requires exists k :: 0 <= k < NBUF && Reusable(cache.buf[k])
      modifies cache, disk
      ensures cache.Valid()
      ensures disk.sectors == old(disk.sectors)[start + 1 + j := data]
      ensures disk.trace == old(disk.trace) + [disk.sectors]
      ensures l < NBUF && Reusable(old(cache.buf)[l])
      ensures cache.buf == old(cache.buf)[l := Buf(false, true, false, ROOTDEV, start + 1 + j, data)]
    {
      hide Linked, Sorted, Coherent, Unique, Content, Bcache.ListOk, Disk.Valid;
      CoherentFacts(cache.buf, disk.sectors);
      var lbuf := cache.BreadNow(start + j + 1);
      cache.Store(lbuf, data);
      cache.Bwrite(lbuf);
      cache.Brelse(lbuf);
      l := lbuf;
    }

    /** The common end of commit_trans and recover_from_log: install what the header names, then clear it. */
    method InstallAndErase(ghost home: seq<Block>)
      requires cache.disk == disk && cache.Valid() && NoneBusy(cache.buf)
      requires |sector| == LOGSIZE && n <= LOGSIZE && RecoversTo(disk.sectors, start, size, home)
      requires Targets(disk.sectors[start]) == sector[..n]
      requires NoneDirty(cache.buf) || PinnedFrom(cache.buf, sector[..n], pin, 0)
      modifies cache, disk, this`n
      ensures cache.Valid() && n == 0 && AllFree(cache.buf)
      ensures |disk.sectors| == |old(disk.sectors)| && disk.sectors[..start] == home
        && Word(disk.sectors[start], 0) == 0
      ensures old(disk.trace) < disk.trace && TraceOk(disk.trace, |old(disk.trace)|, start, size, home)
    {
      hide Coherent, Unique, Content, Bcache.Valid, RecoversTo, Word, Overlay, Installed, PinnedFrom;
      CacheFacts(cache);
      LoggableFacts(disk.sectors, start, size, home);
      ghost var t1, d1, ts := disk.trace, disk.sectors, sector[..n];
      InstallTrans();
      CacheFacts(cache);
      InstalledAll(d1, disk.sectors, start, size, ts, home);
      ghost var t2 := disk.trace;
      n := 0;
      assert Reusable(cache.buf[0]);
      WriteHead();
      CacheFacts(cache);
      QuietRecovers(disk.sectors, start, size);
    }

    // ------------------------------------------------- what fs.c calls

    /** bread of a home sector that this process does not hold already. */
    method Read(s: nat) returns (i: nat)
      requires Valid() && s < start
      requires forall k | k in held :: held[k] != s
      requires |logged| + |held| < NBUF
      modifies cache, disk, this`held
      ensures Valid() && disk.trace == old(disk.trace)
      ensures i !in old(held) && i !in edited && held == old(held)[i := s]
      ensures Buffer(i) == home[s]
    {
      hide Linked, Sorted, Coherent, Unique, Content, Bcache.ListOk, TraceOk, Entries, HeldOk, HomeView;
      CoherentFacts(cache.buf, disk.sectors);
      PinnedSum(logged, held);
      PinnedBound(cache.buf, disk.sectors, start, sector[..n], pin, edited, held, logged);
      HeldFacts(cache.buf, disk.sectors, start, held, edited);
      ghost var b0 := cache.buf;
      i := cache.BreadNow(s);
      ReadKeeps(b0, cache.buf, i, s, disk.sectors, start, sector[..n], pin, held, edited, home);
      held := held[i := s];
    }

    /** The data of a held buffer. */
    function Buffer(i: nat): (b: Block)
      requires Valid() && i in held
      reads this, cache, disk
      ensures b == home[held[i]]
    {
      HeldView(cache.buf, disk.sectors, start, held, edited, home, i);
      cache.buf[i].data
    }

    /** Assignments to b->data by the holder of `b`. */
    method Store(i: nat, data: Block)
      requires Valid() && i in held
      modifies cache`buf, this`home, this`edited
      ensures Valid()
      ensures home == old(home)[held[i] := data] && edited == old(edited) + {i}
    {
      hide Linked, Sorted, Coherent, Unique, Content, Bcache.ListOk, TraceOk, Entries, HeldOk, HomeView;
      HeldFacts(cache.buf, disk.sectors, start, held, edited);
      ghost var b0 := cache.buf;
      cache.Store(i, data);
      StoreKeeps(b0, cache.buf, i, data, disk.sectors, start, sector[..n], pin, held, edited, home);
      home := home[held[i] := data];
      edited := edited + {i};
    }

    /** brelse of a buffer that has been logged, or not changed, since it was read. */
    method Release(i: nat)
      requires Valid() && i in held && i !in edited
      modifies cache, this`held
      ensures Valid() && held == old(held) - {i}
    {
      hide Linked, Sorted, Coherent, Unique, Content, Bcache.ListOk, TraceOk, Entries, HeldOk, HomeView;
      HeldFacts(cache.buf, disk.sectors, start, held, edited);
      ghost var b0 := cache.buf;
      cache.Brelse(i);
      ReleaseKeeps(b0, cache.buf, i, disk.sectors, start, sector[..n], pin, held, edited, home);
      held := held - {i};
    }

    lemma ValidFacts()
      requires Valid()
      ensures cache.disk == disk && cache.Valid()
      ensures SB < start < UINT && |home| == start && |disk.trace| > 0
      ensures |begun| == since + 1 && begun <= disk.trace
      ensures forall k | k in held :: held[k] < start
      ensures !busy ==> logged == {}
      ensures !busy && held == map[] && edited == {} ==> base == home
    {
      hide Coherent, TraceOk, Bcache.ListOk, Content;
      if !busy && held == map[] && edited == {} {
        assert sector[..n] == [];
        CommitFacts(cache.buf, disk.sectors, start, [], pin, held);
        CommitView(cache.buf, disk.sectors, start, [], pin, home);
      }
    }

    lemma TraceFacts()
      requires Valid()
      ensures TraceOk(disk.trace, since, start, size, base)
      ensures since < |disk.trace| && forall t | since <= t < |disk.trace| ::
        RecoversTo(disk.trace[t], start, size, base)
    {
    }

    /** bread, a look at the data, brelse. */
    method Load(s: nat) returns (data: Block)
      requires Valid() && s < start
      requires forall k | k in held :: held[k] != s
      requires |logged| + |held| < NBUF
      modifies cache, disk, this`held
      ensures Valid() && disk.trace == old(disk.trace) && held == old(held)
      ensures s < |home| && data == home[s]
    {
      hide Valid;
      ValidFacts();
      var bp := Read(s);
      data := Buffer(bp);
      Release(bp);
      PutBack(old(held), bp, s);
    }

    /** One pass of begin_trans: the log is taken, unless it is, for which the caller has to wait. */
    method BeginTrans() returns (ok: bool)
      requires Valid()
      modifies this`busy, this`since, this`begun
      ensures Valid() && busy && (ok <==> !old(busy))
      ensures ok ==> since == |disk.trace| - 1 && begun == disk.trace
      ensures !ok ==> since == old(since) && begun == old(begun)
    {
      if busy {
        return false;
      }
      ok, busy := true, true;
      since := |disk.trace| - 1;
      begun := disk.trace;
    }

    /** log_write: append the held block to the log, or overwrite its earlier image, and pin it. */
    method LogWrite(i: nat)
      requires Valid() && busy && i in held && HomeSector(held[i], start)
      requires |logged| < LOGSIZE && |logged| < size - 1
      requires |logged + held.Values| < NBUF
      modifies cache, disk, this`n, this`sector, this`edited, this`logged, this`pin
      ensures Valid() && disk.trace == old(disk.trace) + [disk.sectors]
      ensures edited == old(edited) - {i} && logged == old(logged) + {held[i]}
    {
      hide Coherent, Unique, Content, Bcache.Valid, TraceOk, Entries, HeldOk, HomeView, RecoversTo, Elems, Appended;
      hide Word, HomeSector, Holds, Reusable;
      CacheFacts(cache);
      LogWriteReady(cache.buf, disk.sectors, start, sector[..n], pin, edited, held, logged, i);
      ghost var b0, d0, t0, ts0, pin0 := cache.buf, disk.sectors, disk.trace, sector[..n], pin;
      ghost var l, j, b1 := AppendHeld(i, held[i]);
      CacheFacts(cache);
      pin := if j < |ts0| then pin else pin + [i];
      LogWriteKeeps(b0, b1, cache.buf, l, i, j, d0, disk.sectors, start, ts0, sector[..n], pin0, pin, held[i], held,
          edited, home);
      TraceExtend(t0, disk.trace, disk.sectors, since, start, size, base);
      Sets.SubsetSize(logged + {held[i]}, logged + held.Values);
      edited := edited - {i};
      logged := logged + {held[i]};
    }

    /** The body of log_write after its two panics; the contract lists every change it makes. */
    method AppendHeld(i: nat, ghost s: nat) returns (ghost l: nat, ghost slot: nat, ghost b1: seq<Buf>)
      requires cache.disk == disk && cache.Valid()
      requires |sector| == LOGSIZE && n < LOGSIZE && n < size - 1 && start + size <= |disk.sectors|
      requires i < NBUF && i < |cache.buf| && cache.buf[i].busy && Holds(cache.buf[i], s) && HomeSector(s, start)
      requires forall k | 0 <= k < NBUF && !Reusable(cache.buf[k]) :: cache.buf[k].sector < start
      requires exists k :: 0 <= k < NBUF && Reusable(cache.buf[k])
      modifies cache, disk, this`n, this`sector
      ensures cache.Valid() && |sector| == LOGSIZE && Coherent(b1, disk.sectors)
      ensures disk.trace == old(disk.trace) + [disk.sectors]
      ensures n == (if slot < old(n) then old(n) else old(n) + 1) <= |sector| && slot <= old(n) <= |old(sector)|
      ensures slot == old(n) ==> s !in old(sector)[..old(n)]
      ensures Appended(old(cache.buf), b1, cache.buf, l, i, slot, old(disk.sectors), disk.sectors,
                       start, old(sector)[..old(n)], sector[..n], s)
    {
      hide Coherent, Unique, Content, Bcache.Valid, Disk.Valid;
      CacheFacts(cache);
      var j := FindSlot(cache.buf[i].sector);
      sector := sector[j := cache.buf[i].sector];
      l := AppendBlock(j, cache.buf[i].data);
      CacheFacts(cache);
      slot, b1 := j, cache.buf;
      SetSlot(old(sector), n, j, s);
      if j == n {
        n := n + 1;
      }
      cache.MarkDirty(i);
    }

    /**
     commit_trans, with no buffer in use. From the first sector write of the
     transaction on, every disk image recovers to the content before it; from
     the header write on, to the content after it.
     */
    method CommitTrans()
      requires Valid() && busy && held == map[] && edited == {}
      modifies cache, disk, this`n, this`busy, this`home, this`held, this`edited, this`logged, this`pin, this`base
      modifies this`since, this`begun
      ensures Valid() && !busy && logged == {} && held == map[] && edited == {}
      ensures base == home == old(home)
      ensures old(disk.trace) <= disk.trace
      ensures Atomic(disk.trace, old(since), start, size, old(base), home)
    {
      hide Coherent, Unique, Content, Bcache.Valid, TraceOk, Entries, HeldOk, HomeView, RecoversTo, Elems, Word, Atomic;
      Flush();
      busy := false;
      Settle(disk.trace);
    }

    /** commit_trans up to the point where it gives the log up. */
    method Flush()
      requires Valid() && busy && held == map[] && edited == {}
      modifies cache, disk, this`n
      ensures cache.Valid() && n == 0 && AllFree(cache.buf)
      ensures |disk.sectors| == |old(disk.sectors)| && disk.sectors[..start] == home
        && Word(disk.sectors[start], 0) == 0
      ensures old(disk.trace) <= disk.trace && TraceOk(disk.trace, |disk.trace| - 1, start, size, home)
      ensures Atomic(disk.trace, since, start, size, base, home)
    {
      hide Coherent, Unique, Content, Bcache.Valid, TraceOk, Entries, HeldOk, HomeView, RecoversTo, Elems, Word;
      hide Overlay, Installed;
      hide Atomic, Targets;
      CacheFacts(cache);
      PinnedSum(logged, held);
      PinnedBound(cache.buf, disk.sectors, start, sector[..n], pin, edited, held, logged);
      CommitFacts(cache.buf, disk.sectors, start, sector[..n], pin, held);
      CommitView(cache.buf, disk.sectors, start, sector[..n], pin, home);
      ghost var t0, ts := disk.trace, sector[..n];
      if n > 0 {
        CommitHead();
        ghost var t1 := disk.trace;
        hide Holds, Reusable, PinnedFrom, InRange, AllHome;
        InstallAndErase(home);
        TraceCommit(t0, t1, disk.trace, disk.sectors, since, start, size, base, home);
      } else {
        assert ts == [] && home == base;
        TraceNothing(t0, since, start, size, home);
      }
    }

    /** The header write of commit_trans, which is the commit. */
    method CommitHead()
      requires cache.disk == disk && cache.Valid() && |sector| == LOGSIZE && n <= LOGSIZE && n < size
      requires SB < start < UINT && 1 < size && start + size <= |disk.sectors|
      requires InRange(sector[..n], start) && AllHome(sector[..n], start)
        && PinnedFrom(cache.buf, sector[..n], pin, 0) && NoneBusy(cache.buf)
      requires forall k | 0 <= k < NBUF && !Reusable(cache.buf[k]) :: cache.buf[k].sector < start
      requires exists k :: 0 <= k < NBUF && Reusable(cache.buf[k])
      requires Overlay(disk.sectors[..start], sector[..n], disk.sectors[start+1..start+1+n]) == home
      modifies cache, disk
      ensures cache.Valid() && PinnedFrom(cache.buf, sector[..n], pin, 0) && NoneBusy(cache.buf)
      ensures |disk.sectors| == |old(disk.sectors)| && Word(disk.sectors[start], 0) == n
        && Targets(disk.sectors[start]) == sector[..n]
      ensures RecoversTo(disk.sectors, start, size, home) && disk.trace == old(disk.trace) + [disk.sectors]
    {
      hide Coherent, Unique, Content, Bcache.Valid, RecoversTo, Word, Overlay, Targets, AllHome;
      ghost var b0, d0, ts := cache.buf, disk.sectors, sector[..n];
      WriteHead();
      PinnedStays(b0, cache.buf, ts, pin);
      CommittedHead(d0, disk.sectors, start, size, ts, home);
    }

    /** The slot of sector `s` in the in-memory header, or the first free one. */
    method FindSlot(s: nat) returns (j: nat)
      requires |sector| == LOGSIZE && n < LOGSIZE
      ensures j <= n && (j < n ==> sector[j] == s) && s !in sector[..j]
    {
      j := 0;
      while j < n && sector[j] != s
        invariant j <= n && s !in sector[..j]
      {
        j := j + 1;
      }
    }
  }

  /** The dirty buffers are exactly those of the targets not yet installed. */
  ghost predicate PinnedFrom(bufs: seq<Buf>, ts: seq<nat>, pin: seq<nat>, tail: nat) {
    && |bufs| == NBUF && |pin| == |ts| < NBUF && tail <= |ts|
    && (forall i, j | 0 <= i < j < |ts| :: ts[i] != ts[j])
    && (forall i | tail <= i < |ts| :: pin[i] < NBUF && bufs[pin[i]].dirty && Holds(bufs[pin[i]], ts[i]))
    && (forall k | 0 <= k < NBUF && bufs[k].dirty :: k in pin[tail..])
  }

  ghost predicate NoneDirty(bufs: seq<Buf>) {
    forall k | 0 <= k < |bufs| :: !bufs[k].dirty
  }

  ghost predicate AllFree(bufs: seq<Buf>) {
    |bufs| == NBUF && forall k | 0 <= k < NBUF :: Reusable(bufs[k])
  }

  ghost predicate NoneBusy(bufs: seq<Buf>) {
    forall k | 0 <= k < |bufs| :: !bufs[k].busy
  }

  lemma SomeFree(bufs: seq<Buf>, ts: seq<nat>, pin: seq<nat>, start: nat, tail: nat)
    requires |bufs| == NBUF && Unique(bufs) && NoneBusy(bufs) && tail < |ts| && InRange(ts, start)
    requires NoneDirty(bufs) || PinnedFrom(bufs, ts, pin, tail)
    ensures exists k :: 0 <= k < NBUF && Reusable(bufs[k])
    ensures forall k | 0 <= k < NBUF && bufs[k].dirty :: !Holds(bufs[k], start + 1 + tail)
    ensures NoneDirty(bufs) || exists k :: 0 <= k < NBUF && bufs[k].dirty && Holds(bufs[k], ts[tail])
  {
    if NoneDirty(bufs) {
      assert Reusable(bufs[0]);
    } else {
      var all := set t | t in ts;
      Sets.Distinct(ts);
      forall k | 0 <= k < NBUF && !Reusable(bufs[k]) ensures bufs[k].dev == ROOTDEV && bufs[k].sector in all
        && bufs[k].sector < start {
        assert k in pin[tail..];
        var i :| 0 <= i < |pin[tail..]| && pin[tail..][i] == k;
        assert pin[tail + i] == k && Holds(bufs[k], ts[tail + i]);
        assert ts[tail + i] < start;
      }
      FreeBuffer(bufs, all);
      assert Holds(bufs[pin[tail]], ts[tail]);
    }
  }

  lemma {:induction false} InstalledStep(d: seq<Block>, start: nat, ts: seq<nat>, k: nat)
    requires k < |ts| && start + 1 + |ts| <= |d| && InRange(ts, start)
    ensures Installed(d, start, ts, k)[start + 1 + k] == d[start + 1 + k]
    ensures Installed(d, start, ts, k + 1) == Installed(d, start, ts, k)[ts[k] := d[start + 1 + k]]
  {
    assert ts[..k+1][..k] == ts[..k];
    assert d[start+1..start+1+k+1][..k] == d[start+1..start+1+k];
  }

  lemma InstalledNone(d: seq<Block>, start: nat, ts: seq<nat>)
    requires start + 1 + |ts| <= |d| && InRange(ts, start)
    ensures Installed(d, start, ts, 0) == d
  {
    assert d[..start] + d[start..] == d;
  }

  lemma PinnedEnd(bufs: seq<Buf>, ts: seq<nat>, pin: seq<nat>)
    requires |bufs| == NBUF && (NoneDirty(bufs) || PinnedFrom(bufs, ts, pin, |ts|))
    ensures NoneDirty(bufs)
  {
  }

  /** One round of the loop of install_trans, from the cache as it finds it to the cache as it leaves it. */
  lemma PinnedStep(b0: seq<Buf>, b1: seq<Buf>, dbuf: nat, ts: seq<nat>, pin: seq<nat>, tail: nat)
    requires tail < |ts| && |b0| == |b1| == NBUF && dbuf < NBUF && Unique(b0)
    requires NoneDirty(b0) || PinnedFrom(b0, ts, pin, tail)
    requires NoneDirty(b0) || Holds(b0[dbuf], ts[tail])
    requires forall k | 0 <= k < NBUF && k != dbuf :: if b0[k].dirty then b1[k] == b0[k] else !b1[k].dirty
    requires !b1[dbuf].dirty
    ensures NoneDirty(b1) || PinnedFrom(b1, ts, pin, tail + 1)
  {
    if !NoneDirty(b0) {
      assert pin[tail] == dbuf;
      assert pin[tail..] == [dbuf] + pin[tail+1..];
    }
  }

  /** Buffers that were held or dirty are as before; no other buffer became so. */
  ghost predicate OnlyRecycled(before: seq<Buf>, after: seq<Buf>) {
    && |before| == |after|
    && forall k | 0 <= k < |before| ::
         if Reusable(before[k]) then Reusable(after[k]) else after[k] == before[k]
  }

  ghost function Elems(ts: seq<nat>): set<nat> {
    set t | t in ts
  }

  lemma ElemsAdd(ts: seq<nat>, s: nat)
    ensures Elems(ts + [s]) == Elems(ts) + {s}
    ensures s in Elems(ts) <==> s in ts
    ensures s in ts ==> Elems(ts) + {s} == Elems(ts)
  {
  }

  lemma SetSlot(sector: seq<nat>, n: nat, j: nat, s: nat)
    requires j <= n < |sector| && (j < n ==> sector[j] == s)
    ensures j < n ==> sector[j := s][..n] == sector[..n]
    ensures j == n ==> sector[j := s][..n+1] == sector[..n] + [s]
  {
  }

  lemma PinnedBound(bufs: seq<Buf>, d: seq<Block>, start: nat, ts: seq<nat>, pin: seq<nat>, edited: set<nat>,
                    held: map<nat, nat>, logged: set<nat>)
    requires Unique(bufs) && Entries(bufs, d, start, ts, pin, edited) && HeldOk(bufs, d, start, held, edited)
    requires logged == Elems(ts) && |logged + held.Values| < NBUF
    ensures exists k :: 0 <= k < NBUF && Reusable(bufs[k])
    ensures forall k | 0 <= k < NBUF && !Reusable(bufs[k]) :: bufs[k].sector < start
  {
    FreeBuffer(bufs, logged + held.Values);
  }

  lemma PinnedSum(logged: set<nat>, held: map<nat, nat>)
    ensures |logged + held.Values| <= |logged| + |held|
  {
    Sets.ValuesSize(held);
    Sets.UnionSize(logged, held.Values);
  }

  lemma PutBack(held: map<nat, nat>, i: nat, s: nat)
    requires i !in held
    ensures held[i := s] - {i} == held
  {
  }

  // ------------------------------------- what each step keeps, on plain values

  lemma CacheFacts(cache: Bcache)
    requires cache.Valid()
    ensures Coherent(cache.buf, cache.disk.sectors) && |cache.buf| == NBUF && Unique(cache.buf)
    ensures |cache.disk.trace| > 0 && cache.disk.trace[|cache.disk.trace| - 1] == cache.disk.sectors
  {
  }

  lemma HeldFacts(bufs: seq<Buf>, d: seq<Block>, start: nat, held: map<nat, nat>, edited: set<nat>)
    requires HeldOk(bufs, d, start, held, edited)
    ensures forall k | k in held :: k < NBUF && k < |bufs| && bufs[k].busy && Holds(bufs[k], held[k]) && held[k] < start
    ensures edited <= held.Keys && forall k | 0 <= k < NBUF :: k < |bufs| && (bufs[k].busy ==> k in held)
    ensures forall k | k in held && k !in edited && !bufs[k].dirty :: bufs[k].data == d[held[k]]
  {
  }

  lemma HeldView(bufs: seq<Buf>, d: seq<Block>, start: nat, held: map<nat, nat>, edited: set<nat>, home: seq<Block>,
                 i: nat)
    requires Coherent(bufs, d) && HeldOk(bufs, d, start, held, edited) && HomeView(bufs, d, start, home) && i in held
    ensures i < |bufs| && held[i] < |home| && bufs[i].data == home[held[i]]
  {
    ContentCached(bufs, d, i);
  }

  lemma NoneHolds(b1: seq<Buf>, b0: seq<Buf>, i: nat, s: nat)
    requires |b0| == |b1| == NBUF && i < NBUF && b1 == b0[i := b1[i]] && Unique(b1)
    requires !Holds(b0[i], s) && (Holds(b1[i], s) || forall k | 0 <= k < NBUF :: !Holds(b1[k], s))
    ensures forall k | 0 <= k < NBUF :: !Holds(b0[k], s)
  {
    forall k | 0 <= k < NBUF ensures !Holds(b0[k], s) {
      assert k != i ==> b0[k] == b1[k];
    }
  }

  /** Changing slot `i` keeps the view of the home sectors if it only recycles a clean buffer or keeps its content. */
  lemma HomeKeep(b0: seq<Buf>, b1: seq<Buf>, i: nat, d0: seq<Block>, d1: seq<Block>, start: nat, home: seq<Block>)
    requires Coherent(b0, d0) && Coherent(b1, d1) && i < NBUF && b1 == b0[i := b1[i]]
    requires HomeView(b0, d0, start, home) && |d0| == |d1| && forall s | 0 <= s < start :: d0[s] == d1[s]
    requires b1[i].dev == ROOTDEV
    requires
      || (b0[i].dev == ROOTDEV && b0[i].sector == b1[i].sector && b0[i].data == b1[i].data)
      || (Reusable(b0[i]) && b1[i].data == d1[b1[i].sector])
    ensures HomeView(b1, d1, start, home)
  {
    forall s | 0 <= s < start ensures Content(b1, d1, s) == Content(b0, d0, s) {
      if k :| 0 <= k < NBUF && Holds(b1[k], s) {
        ContentCached(b1, d1, k);
        if k != i {
          ContentCached(b0, d0, k);
        } else if Holds(b0[i], s) {
          ContentCached(b0, d0, i);
        } else {
          NoneHolds(b1, b0, i, s);
        }
      } else if Holds(b0[i], s) {
        ContentCached(b0, d0, i);
      } else {
        NoneHolds(b1, b0, i, s);
      }
    }
  }

  lemma ReadKeeps(b0: seq<Buf>, b1: seq<Buf>, i: nat, s: nat, d: seq<Block>, start: nat, ts: seq<nat>, pin: seq<nat>,
                  held: map<nat, nat>, edited: set<nat>, home: seq<Block>)
    requires Coherent(b0, d) && Coherent(b1, d) && i < NBUF && b1 == b0[i := b1[i]] && s < start
    requires Entries(b0, d, start, ts, pin, edited) && HeldOk(b0, d, start, held, edited)
      && HomeView(b0, d, start, home)
    requires !b0[i].busy && b1[i].busy && Holds(b1[i], s) && b1[i].data == Content(b0, d, s)
    requires if Holds(b0[i], s) then b1[i] == b0[i].(busy := true)
             else Reusable(b0[i]) && !b1[i].dirty && forall k | 0 <= k < NBUF :: !Holds(b0[k], s)
    ensures Entries(b1, d, start, ts, pin, edited)
    ensures HeldOk(b1, d, start, held[i := s], edited)
    ensures HomeView(b1, d, start, home)
  {
    HomeKeep(b0, b1, i, d, d, start, home);
  }

  lemma StoreKeeps(b0: seq<Buf>, b1: seq<Buf>, i: nat, data: Block, d: seq<Block>, start: nat, ts: seq<nat>,
                   pin: seq<nat>,
                   held: map<nat, nat>, edited: set<nat>, home: seq<Block>)
    requires Coherent(b0, d) && Coherent(b1, d) && i in held && i < NBUF && b1 == b0[i := b0[i].(data := data)]
    requires Entries(b0, d, start, ts, pin, edited) && HeldOk(b0, d, start, held, edited)
      && HomeView(b0, d, start, home)
    ensures held[i] < |home|
    ensures Entries(b1, d, start, ts, pin, edited + {i})
    ensures HeldOk(b1, d, start, held, edited + {i})
    ensures HomeView(b1, d, start, home[held[i] := data])
  {
    forall s | 0 <= s < start ensures Content(b1, d, s) == home[held[i] := data][s] {
      if k :| 0 <= k < NBUF && Holds(b1[k], s) {
        ContentCached(b1, d, k);
        if k != i {
          assert Holds(b0[k], s);
          ContentCached(b0, d, k);
        }
      } else {
        assert !Holds(b1[i], s);
        NoneHolds(b1, b0, i, s);
      }
    }
  }

  lemma ReleaseKeeps(b0: seq<Buf>, b1: seq<Buf>, i: nat, d: seq<Block>, start: nat, ts: seq<nat>, pin: seq<nat>,
                     held: map<nat, nat>, edited: set<nat>, home: seq<Block>)
    requires Coherent(b0, d) && Coherent(b1, d) && i in held && i < NBUF && b1 == b0[i := b0[i].(busy := false)]
    requires i !in edited
    requires Entries(b0, d, start, ts, pin, edited) && HeldOk(b0, d, start, held, edited)
      && HomeView(b0, d, start, home)
    ensures Entries(b1, d, start, ts, pin, edited)
    ensures HeldOk(b1, d, start, held - {i}, edited)
    ensures HomeView(b1, d, start, home)
  {
    HomeKeep(b0, b1, i, d, d, start, home);
  }

  lemma EntriesFacts(bufs: seq<Buf>, d: seq<Block>, start: nat, ts: seq<nat>, pin: seq<nat>, edited: set<nat>)
    requires Entries(bufs, d, start, ts, pin, edited)
    ensures |bufs| == NBUF && start + |ts| < |d| && |pin| == |ts| && forall i | 0 <= i < |ts| :: ts[i] < start
  {
  }

  lemma LogWriteReady(bufs: seq<Buf>, d: seq<Block>, start: nat, ts: seq<nat>, pin: seq<nat>, edited: set<nat>,
                      held: map<nat, nat>, logged: set<nat>, i: nat)
    requires Unique(bufs) && Entries(bufs, d, start, ts, pin, edited) && HeldOk(bufs, d, start, held, edited)
    requires logged == Elems(ts) && |logged + held.Values| < NBUF && i in held
    ensures exists k :: 0 <= k < NBUF && Reusable(bufs[k])
    ensures forall k | 0 <= k < NBUF && !Reusable(bufs[k]) :: bufs[k].sector < start
    ensures i < |bufs| == NBUF && bufs[i].busy && Holds(bufs[i], held[i]) && |pin| == |ts|
  {
    hide Entries, HeldOk, Unique, Elems;
    PinnedBound(bufs, d, start, ts, pin, edited, held, logged);
    HeldFacts(bufs, d, start, held, edited);
    EntriesFacts(bufs, d, start, ts, pin, edited);
  }

  /** With no committed transaction in the log, recovery leaves the home sectors alone. */
  lemma QuietRecovers(d: seq<Block>, start: nat, size: nat)
    requires SB < start && 1 < size && start + size <= |d| && Word(d[start], 0) == 0
    ensures RecoversTo(d, start, size, d[..start])
  {
  }

  lemma TraceExtend(t0: seq<seq<Block>>, t1: seq<seq<Block>>, d: seq<Block>, since: nat, start: nat, size: nat,
                    base: seq<Block>)
    requires TraceOk(t0, since, start, size, base) && t1 == t0 + [d]
    requires SB < start && 1 < size && start + size <= |d| && Word(d[start], 0) == 0 && d[..start] == base
    ensures TraceOk(t1, since, start, size, base)
  {
    QuietRecovers(d, start, size);
  }

  /** How log_write changes the cache, the disk and the in-memory header. */
  ghost predicate Appended(b0: seq<Buf>, b1: seq<Buf>, b2: seq<Buf>, l: nat, i: nat, j: nat, d0: seq<Block>,
                          d1: seq<Block>,
                           start: nat, ts0: seq<nat>, ts1: seq<nat>, s: nat) {
    && |b0| == NBUF && i < NBUF && l < NBUF && Reusable(b0[l]) && b0[i].busy && Holds(b0[i], s) && HomeSector(s, start)
    && j <= |ts0| && start + 1 + j < |d0| && d1 == d0[start + 1 + j := b0[i].data]
    && b1 == b0[l := Buf(false, true, false, ROOTDEV, start + 1 + j, b0[i].data)]
    && b2 == b1[i := b1[i].(dirty := true)]
    && s !in ts0[..j]
    && if j < |ts0| then ts0[j] == s && ts1 == ts0 else ts1 == ts0 + [s]
  }

  lemma LogWriteKeeps(b0: seq<Buf>, b1: seq<Buf>, b2: seq<Buf>, l: nat, i: nat, j: nat, d0: seq<Block>,
                      d1: seq<Block>, start: nat,
                      ts0: seq<nat>, ts1: seq<nat>, pin0: seq<nat>, pin1: seq<nat>, s: nat,
                      held: map<nat, nat>, edited: set<nat>, home: seq<Block>)
    requires Appended(b0, b1, b2, l, i, j, d0, d1, start, ts0, ts1, s)
    requires Coherent(b0, d0) && Coherent(b1, d1) && Coherent(b2, d1)
    requires Entries(b0, d0, start, ts0, pin0, edited) && start + 1 + |ts0| < |d0|
    requires pin1 == if j < |ts0| then pin0 else pin0 + [i]
    requires HeldOk(b0, d0, start, held, edited) && HomeView(b0, d0, start, home)
    ensures Entries(b2, d1, start, ts1, pin1, edited - {i})
    ensures HeldOk(b2, d1, start, held, edited - {i})
    ensures HomeView(b2, d1, start, home)
    ensures |d1| == |d0| && start < |d0| && d1[start] == d0[start] && d1[..start] == d0[..start]
    ensures Elems(ts1) == Elems(ts0) + {s} && (|Elems(ts0)| == |ts0| ==> |Elems(ts1)| == |ts1|)
  {
    ElemsAdd(ts0, s);
    assert j < |ts0| ==> s in ts0;
    assert |ts1| == if j < |ts0| then |ts0| else |ts0| + 1;
    assert j == |ts0| ==> ts0[..j] == ts0;
    assert |d1| == |d0| && start < |d0| && d1[start] == d0[start] && d1[..start] == d0[..start];
    hide Appended, Entries, HeldOk, HomeView, Coherent, Unique;
    CoherentFacts(b0, d0);
    LogWriteEntries(b0, b1, b2, l, i, j, d0, d1, start, ts0, ts1, pin0, pin1, s, edited);
    LogWriteHeld(b0, b1, b2, l, i, j, d0, d1, start, ts0, ts1, s, held, edited);
    LogWriteView(b0, b1, b2, l, i, j, d0, d1, start, ts0, ts1, s, home);
  }

  lemma LogWriteEntries(b0: seq<Buf>, b1: seq<Buf>, b2: seq<Buf>, l: nat, i: nat, j: nat, d0: seq<Block>,
                        d1: seq<Block>, start: nat,
                        ts0: seq<nat>, ts1: seq<nat>, pin0: seq<nat>, pin1: seq<nat>, s: nat, edited: set<nat>)
    requires Appended(b0, b1, b2, l, i, j, d0, d1, start, ts0, ts1, s) && Unique(b0)
    requires Entries(b0, d0, start, ts0, pin0, edited) && start + 1 + |ts0| < |d0|
    requires pin1 == if j < |ts0| then pin0 else pin0 + [i]
    ensures Entries(b2, d1, start, ts1, pin1, edited - {i})
  {
    forall x | 0 <= x < |ts1|
      ensures pin1[x] < NBUF && b2[pin1[x]].dirty && Holds(b2[pin1[x]], ts1[x])
      ensures pin1[x] !in edited - {i} ==> b2[pin1[x]].data == d1[start + 1 + x]
    {
      if x == j {
        assert pin1[x] == i;
      } else {
        assert pin1[x] == pin0[x] && pin0[x] != l && pin0[x] != i;
      }
    }
    forall k | 0 <= k < NBUF && b2[k].dirty ensures k in pin1 {
      if k == i {
        assert pin1[j] == i;
      } else {
        assert b2[k] == b0[k] && k in pin0;
      }
    }
  }

  lemma LogWriteHeld(b0: seq<Buf>, b1: seq<Buf>, b2: seq<Buf>, l: nat, i: nat, j: nat, d0: seq<Block>,
                     d1: seq<Block>, start: nat,
                     ts0: seq<nat>, ts1: seq<nat>, s: nat,
                     held: map<nat, nat>, edited: set<nat>)
    requires Appended(b0, b1, b2, l, i, j, d0, d1, start, ts0, ts1, s)
    requires HeldOk(b0, d0, start, held, edited)
    ensures HeldOk(b2, d1, start, held, edited - {i})
  {
  }

  lemma LogWriteView(b0: seq<Buf>, b1: seq<Buf>, b2: seq<Buf>, l: nat, i: nat, j: nat, d0: seq<Block>,
                     d1: seq<Block>, start: nat,
                     ts0: seq<nat>, ts1: seq<nat>, s: nat, home: seq<Block>)
    requires Appended(b0, b1, b2, l, i, j, d0, d1, start, ts0, ts1, s)
    requires Coherent(b0, d0) && Coherent(b1, d1) && Coherent(b2, d1) && HomeView(b0, d0, start, home)
    ensures HomeView(b2, d1, start, home)
  {
    HomeKeep(b0, b1, l, d0, d1, start, home);
    HomeKeep(b1, b2, i, d1, d1, start, home);
  }

  /** The point of the commit: images up to it recover to `before`, images from it on to `after`. */
  ghost predicate Atomic(trace: seq<seq<Block>>, since: nat, start: nat, size: nat, before: seq<Block>,
                         after: seq<Block>) {
    exists c :: CommitPoint(trace, since, c, start, size, before, after)
  }

  ghost predicate CommitPoint(trace: seq<seq<Block>>, since: nat, c: nat, start: nat, size: nat,
                              before: seq<Block>, after: seq<Block>) {
    && since < c <= |trace|
    && (forall t | since <= t < c :: RecoversTo(trace[t], start, size, before))
    && (forall t | c <= t < |trace| :: RecoversTo(trace[t], start, size, after))
  }

  lemma {:induction false} OverlayAt(home: seq<Block>, ts: seq<nat>, images: seq<Block>, i: nat)
    requires |ts| == |images| && InRange(ts, |home|) && i < |ts|
    requires forall x, y | 0 <= x < y < |ts| :: ts[x] != ts[y]
    ensures Overlay(home, ts, images)[ts[i]] == images[i]
  {
    if i < |ts| - 1 {
      OverlayAt(home, ts[..|ts|-1], images[..|ts|-1], i);
    }
  }

  lemma CommitFacts(bufs: seq<Buf>, d: seq<Block>, start: nat, ts: seq<nat>, pin: seq<nat>, held: map<nat, nat>)
    requires Entries(bufs, d, start, ts, pin, {}) && HeldOk(bufs, d, start, held, {}) && held == map[]
    ensures NoneBusy(bufs) && start + |ts| < |d| && InRange(ts, start) && AllHome(ts, start)
    ensures |ts| < NBUF ==> PinnedFrom(bufs, ts, pin, 0)
    ensures ts == [] ==> NoneDirty(bufs)
  {
    assert pin[0..] == pin;
  }

  /** With no buffer in use, the current content is the disk overlaid with the log. */
  lemma CommitView(bufs: seq<Buf>, d: seq<Block>, start: nat, ts: seq<nat>, pin: seq<nat>, home: seq<Block>)
    requires Coherent(bufs, d) && Entries(bufs, d, start, ts, pin, {}) && NoneBusy(bufs) && InRange(ts, start)
    requires HomeView(bufs, d, start, home)
    ensures start + |ts| < |d| && Overlay(d[..start], ts, d[start+1..start+1+|ts|]) == home
    ensures ts == [] ==> home == d[..start]
  {
    hide Entries, HomeView, Coherent;
    EntriesFacts(bufs, d, start, ts, pin, {});
    var r := Overlay(d[..start], ts, d[start+1..start+1+|ts|]);
    forall s | 0 <= s < start ensures r[s] == Content(bufs, d, s) {
      if s in ts {
        LoggedView(bufs, d, start, ts, pin, s);
      } else {
        UnloggedView(bufs, d, start, ts, pin, s);
      }
    }
    ViewIs(bufs, d, start, home, r);
  }

  lemma ViewIs(bufs: seq<Buf>, d: seq<Block>, start: nat, home: seq<Block>, r: seq<Block>)
    requires HomeView(bufs, d, start, home) && |r| == start && forall s | 0 <= s < start :: r[s] == Content(bufs, d, s)
    ensures r == home
  {
    hide Content;
  }

  /** The log has the content of the sectors it names. */
  lemma LoggedView(bufs: seq<Buf>, d: seq<Block>, start: nat, ts: seq<nat>, pin: seq<nat>, s: nat)
    requires Coherent(bufs, d) && Entries(bufs, d, start, ts, pin, {}) && InRange(ts, start) && s < start && s in ts
    ensures start + |ts| < |d| && Overlay(d[..start], ts, d[start+1..start+1+|ts|])[s] == Content(bufs, d, s)
  {
    hide Coherent, Content, Entries, Unique, InRange, Overlay;
    var i :| 0 <= i < |ts| && ts[i] == s;
    CoherentFacts(bufs, d);
    LoggedAt(bufs, d, start, ts, pin, i);
    OverlayAt(d[..start], ts, d[start+1..start+1+|ts|], i);
    ContentCached(bufs, d, pin[i]);
  }

  /** The buffer that is pinned for an entry of the log. */
  lemma LoggedAt(bufs: seq<Buf>, d: seq<Block>, start: nat, ts: seq<nat>, pin: seq<nat>, i: nat)
    requires Entries(bufs, d, start, ts, pin, {}) && i < |ts|
    ensures |bufs| == NBUF && start + |ts| < |d| && |pin| == |ts| && pin[i] < NBUF
    ensures Holds(bufs[pin[i]], ts[i]) && bufs[pin[i]].data == d[start + 1 + i]
    ensures forall x, y | 0 <= x < y < |ts| :: ts[x] != ts[y]
  {
  }

  /** The disk has the content of the other sectors. */
  lemma UnloggedView(bufs: seq<Buf>, d: seq<Block>, start: nat, ts: seq<nat>, pin: seq<nat>, s: nat)
    requires Coherent(bufs, d) && Entries(bufs, d, start, ts, pin, {}) && NoneBusy(bufs) && InRange(ts, start)
      && s < start && s !in ts
    ensures start + |ts| < |d| && Overlay(d[..start], ts, d[start+1..start+1+|ts|])[s] == Content(bufs, d, s)
  {
    hide Coherent, Content, Unique;
    CoherentFacts(bufs, d);
    OverlayElsewhere(d[..start], ts, d[start+1..start+1+|ts|], s);
    forall k | 0 <= k < NBUF && !Reusable(bufs[k]) ensures !Holds(bufs[k], s) {
      assert k in pin;
      var i :| 0 <= i < |pin| && pin[i] == k;
      assert Holds(bufs[pin[i]], ts[i]);
    }
    ContentClean(bufs, d, s);
  }

  /** The header write commits. */
  lemma CommittedHead(d0: seq<Block>, d1: seq<Block>, start: nat, size: nat, ts: seq<nat>, home: seq<Block>)
    requires SB < start && 1 < size && start + size <= |d0| && |ts| < size && AllHome(ts, start)
      && InRange(ts, start)
    requires |d1| == |d0| && d1 == d0[start := d1[start]]
    requires Word(d1[start], 0) == |ts| <= LOGSIZE && Targets(d1[start]) == ts
    requires Overlay(d0[..start], ts, d0[start+1..start+1+|ts|]) == home
    ensures RecoversTo(d1, start, size, home)
  {
    assert d1[..start] == d0[..start];
    assert d1[start+1..start+1+|ts|] == d0[start+1..start+1+|ts|];
  }

  lemma PinnedStays(b0: seq<Buf>, b1: seq<Buf>, ts: seq<nat>, pin: seq<nat>)
    requires PinnedFrom(b0, ts, pin, 0) && NoneBusy(b0) && OnlyRecycled(b0, b1)
    ensures PinnedFrom(b1, ts, pin, 0) && NoneBusy(b1)
  {
  }

  lemma EmptyOk(bufs: seq<Buf>, d: seq<Block>, start: nat, home: seq<Block>)
    requires Coherent(bufs, d) && start < |d| && home == d[..start] && AllFree(bufs)
    ensures Entries(bufs, d, start, [], [], {}) && HeldOk(bufs, d, start, map[], {}) && HomeView(bufs, d, start, home)
    ensures Elems([]) == {}
  {
    forall s | 0 <= s < start ensures Content(bufs, d, s) == d[s] {
      ContentClean(bufs, d, s);
    }
  }

  lemma TraceNothing(t: seq<seq<Block>>, since: nat, start: nat, size: nat, base: seq<Block>)
    requires TraceOk(t, since, start, size, base)
    ensures Atomic(t, since, start, size, base, base) && TraceOk(t, |t| - 1, start, size, base)
  {
    assert CommitPoint(t, since, |t|, start, size, base, base);
  }

  lemma InstalledAll(d1: seq<Block>, d2: seq<Block>, start: nat, size: nat, ts: seq<nat>, home: seq<Block>)
    requires RecoversTo(d1, start, size, home) && Targets(d1[start]) == ts && start + |ts| < |d1|
    requires InRange(ts, start) && d2 == Installed(d1, start, ts, |ts|)
    ensures |d2| == |d1| && d2[..start] == home
    ensures forall k | 0 <= k <= |ts| :: RecoversTo(Installed(d1, start, ts, k), start, size, home)
  {
    assert ts[..|ts|] == ts;
    forall k | 0 <= k <= |ts| ensures RecoversTo(Installed(d1, start, ts, k), start, size, home) {
      InstallingRecovers(d1, start, size, k);
    }
  }

  lemma LoggableFacts(d: seq<Block>, start: nat, size: nat, home: seq<Block>)
    requires RecoversTo(d, start, size, home)
    ensures |home| == start && SB < start && 1 < size && start + size <= |d| && Word(d[start], 0) <= LOGSIZE
    ensures |Targets(d[start])| < size && InRange(Targets(d[start]), start)
  {
  }

  lemma TraceCommit(t0: seq<seq<Block>>, t1: seq<seq<Block>>, t2: seq<seq<Block>>, d: seq<Block>, since: nat,
                    start: nat, size: nat,
                    base: seq<Block>, home: seq<Block>)
    requires TraceOk(t0, since, start, size, base) && |t1| == |t0| + 1 && t0 <= t1
      && RecoversTo(t1[|t0|], start, size, home)
    requires t1 < t2 && TraceOk(t2, |t1|, start, size, home)
    ensures Atomic(t2, since, start, size, base, home)
    ensures t0 <= t2 && TraceOk(t2, |t2| - 1, start, size, home)
  {
    forall t | since <= t < |t0| ensures RecoversTo(t2[t], start, size, base) {
      assert t2[t] == t1[t] == t0[t];
    }
    assert t2[|t0|] == t1[|t0|];
    assert CommitPoint(t2, since, |t0|, start, size, base, home);
  }

  lemma TraceBoot(t0: seq<seq<Block>>, t1: seq<seq<Block>>, d0: seq<Block>, start: nat, size: nat, base: seq<Block>)
    requires |t0| > 0 && t0[|t0|-1] == d0 && t0 < t1 && RecoversTo(d0, start, size, base)
    requires TraceOk(t1, |t0|, start, size, base)
    ensures TraceOk(t1, |t0| - 1, start, size, base)
  {
    assert t1[|t0|-1] == d0;
  }
}
