/**
 The memory disk (memide.c) and the buffer cache above it (bio.c).
 */
module BufferCache {
  import opened Blocks
  import Sets

  const NBUF: nat := 10
  const HEAD: nat := 10          // index of the list header in `next` and `prev`
  const ROOTDEV: nat := 1
  const NODEV: nat := 0xFFFF_FFFF  // the (uint)-1 that binit stores

  /** `struct buf` without its list links. */
  datatype Buf = Buf(busy: bool, valid: bool, dirty: bool, dev: nat, sector: nat, data: Block)

  /** What binit makes of every buffer. */
  const UNUSED: Buf := Buf(false, false, false, NODEV, 0, Zeros())

  ghost predicate Holds(b: Buf, s: nat) {
    b.dev == ROOTDEV && b.sector == s
  }

  predicate Reusable(b: Buf) {
    !b.busy && !b.dirty
  }

  // ---------------------------------------------------------------- memide.c

  /** The disk. `trace` lists every image it has had, one per sector write: a crash keeps one of them. */
  class Disk {
    var sectors: seq<Block>
    var trace: seq<seq<Block>>

    ghost predicate Valid()
      reads this
    {
      && |trace| > 0
      && trace[|trace| - 1] == sectors
    }

    constructor (image: seq<Block>)
      ensures Valid() && sectors == image && trace == [image]
    {
      sectors := image;
      trace := [image];
    }

    /** The four panics of iderw are its precondition. */
    method Iderw(b: Buf) returns (r: Buf)
      requires Valid()
      requires b.busy && !(b.valid && !b.dirty) && b.dev == ROOTDEV && b.sector < |sectors|
      modifies this
      ensures Valid()
      ensures r == b.(dirty := false, valid := true, data := if b.dirty then b.data else old(sectors)[b.sector])
      ensures sectors == if b.dirty then old(sectors)[b.sector := b.data] else old(sectors)
      ensures trace == if b.dirty then old(trace) + [sectors] else old(trace)
    {
      r := b;
      if r.dirty {
        r := r.(dirty := false);
        sectors := sectors[r.sector := r.data];
        trace := trace + [sectors];
      } else {
        r := r.(data := sectors[r.sector]);
      }
      r := r.(valid := true);
    }
  }

  // ---------------------------------------------------- content of the cache

  /** No two buffers stand for the same sector of a real device. */
  ghost predicate Unique(bufs: seq<Buf>) {
    forall i, j | 0 <= i < j < |bufs| && bufs[i].dev == bufs[j].dev && bufs[i].sector == bufs[j].sector ::
      bufs[i].dev == NODEV
  }

  ghost predicate GoodBuf(b: Buf, sectors: seq<Block>) {
    if b.dev == NODEV then
      !b.busy && !b.valid && !b.dirty
    else
      b.dev == ROOTDEV && b.sector < |sectors| && b.valid
      && (Reusable(b) ==> b.data == sectors[b.sector])
  }

  /** Nothing is lost if the buffer is recycled after its release. */
  ghost predicate Saved(b: Buf, sectors: seq<Block>) {
    b.dirty || (b.sector < |sectors| && b.data == sectors[b.sector])
  }

  /** Releasing a held buffer. */
  lemma ReleaseCoherent(bufs: seq<Buf>, sectors: seq<Block>, i: nat)
    requires Coherent(bufs, sectors) && i < NBUF && bufs[i].busy
    ensures Coherent(bufs[i := bufs[i].(busy := false)], sectors) <==> Saved(bufs[i], sectors)
  {
    var after := bufs[i := bufs[i].(busy := false)];
    assert GoodBuf(bufs[i], sectors);
    assert GoodBuf(after[i], sectors) <==> Saved(bufs[i], sectors);
  }

  ghost predicate Coherent(bufs: seq<Buf>, sectors: seq<Block>) {
    && |bufs| == NBUF
    && Unique(bufs)
    && forall k | 0 <= k < |bufs| :: GoodBuf(bufs[k], sectors)
  }

  /** What a reader of sector `s` must see: the cached copy if there is one, else the disk. */
  ghost function Content(bufs: seq<Buf>, sectors: seq<Block>, s: nat): Block
    requires s < |sectors|
  {
    if exists k :: 0 <= k < |bufs| && Holds(bufs[k], s) then
      var k :| 0 <= k < |bufs| && Holds(bufs[k], s);
      bufs[k].data
    else sectors[s]
  }

  /** Buffer `i` has been obtained for sector `s` with the content that a reader must see. */
  ghost predicate Fetched(before: seq<Buf>, after: seq<Buf>, i: nat, s: nat, sectors: seq<Block>) {
    && i < NBUF == |before| == |after| && s < |sectors| && after == before[i := after[i]]
    && after[i].busy && after[i].valid && Holds(after[i], s) && after[i].data == Content(before, sectors, s)
    && if Holds(before[i], s) then !before[i].busy && after[i] == before[i].(busy := true)
       else Reusable(before[i]) && !after[i].dirty && forall k | 0 <= k < NBUF :: !Holds(before[k], s)
  }

  lemma ContentCached(bufs: seq<Buf>, sectors: seq<Block>, k: nat)
    requires Unique(bufs) && k < |bufs| && bufs[k].dev == ROOTDEV && bufs[k].sector < |sectors|
    ensures Content(bufs, sectors, bufs[k].sector) == bufs[k].data
  {
    assert Holds(bufs[k], bufs[k].sector);
  }

  lemma AllUnused(bufs: seq<Buf>, sectors: seq<Block>)
    requires bufs == seq(NBUF, i => UNUSED)
    ensures Coherent(bufs, sectors)
  {
  }

  lemma CoherentFacts(bufs: seq<Buf>, sectors: seq<Block>)
    requires Coherent(bufs, sectors)
    ensures |bufs| == NBUF && Unique(bufs)
  {
  }

  lemma ContentClean(bufs: seq<Buf>, sectors: seq<Block>, s: nat)
    requires Coherent(bufs, sectors) && s < |sectors|
    requires forall k | 0 <= k < NBUF && !Reusable(bufs[k]) :: !Holds(bufs[k], s)
    ensures Content(bufs, sectors, s) == sectors[s]
  {
  }

  // ---------------------------------------------------- the circular LRU list

  /** The links form one circle through the header and the nodes of `order`, in that order. */
  ghost predicate Linked(next: seq<nat>, prev: seq<nat>, order: seq<nat>) {
    && |next| == |prev| == NBUF + 1
    && (forall i | 0 <= i < |order| :: order[i] < NBUF)
    && (forall i, j | 0 <= i < j < |order| :: order[i] != order[j])
    && next[HEAD] == At(order, 0)
    && prev[HEAD] == At(order, |order| - 1)
    && (forall i {:trigger next[order[i]]} | 0 <= i < |order| :: next[order[i]] == At(order, i + 1))
    && (forall i {:trigger prev[order[i]]} | 0 <= i < |order| :: prev[order[i]] == At(order, i - 1))
  }

  ghost function At(order: seq<nat>, i: int): nat {
    if 0 <= i < |order| then order[i] else HEAD
  }

  /** Order after moving position `p` to the front. */
  ghost function ToFront(order: seq<nat>, p: nat): seq<nat>
    requires p < |order|
  {
    [order[p]] + order[..p] + order[p+1..]
  }

  lemma EmptyList(next: seq<nat>, prev: seq<nat>)
    requires next == prev == seq(NBUF + 1, i => HEAD)
    ensures Linked(next, prev, [])
  {
  }

  lemma Links(next: seq<nat>, prev: seq<nat>, order: seq<nat>, p: nat)
    requires Linked(next, prev, order) && p < |order|
    ensures |next| == |prev| == NBUF + 1
    ensures order[p] < NBUF && next[order[p]] <= NBUF && prev[order[p]] <= NBUF && next[HEAD] <= NBUF
    ensures next[order[p]] == At(order, p + 1) && prev[order[p]] == At(order, p - 1)
  {
  }

  lemma Ends(next: seq<nat>, prev: seq<nat>, order: seq<nat>)
    requires Linked(next, prev, order)
    ensures |next| == |prev| == NBUF + 1 && next[HEAD] == At(order, 0) && prev[HEAD] == At(order, |order| - 1)
  {
  }

  /** The order without position `p`. */
  ghost function Without(order: seq<nat>, p: nat): seq<nat>
    requires p < |order|
  {
    order[..p] + order[p+1..]
  }

  lemma WithoutAt(order: seq<nat>, p: nat, i: int)
    requires p < |order| && -1 <= i < |order|
    ensures At(Without(order, p), i) == At(order, if i < p then i else i + 1)
  {
  }

  lemma {:induction false} WithoutDistinct(order: seq<nat>, p: nat)
    requires p < |order| && (forall i | 0 <= i < |order| :: order[i] < NBUF) && forall i, j | 0 <= i < j < |order| ::
      order[i] != order[j]
    ensures var r := Without(order, p);
      && |r| == |order| - 1 && (forall i | 0 <= i < |r| :: r[i] < NBUF && r[i] != order[p])
      && forall i, j | 0 <= i < j < |r| :: r[i] != r[j]
  {
    forall i | 0 <= i < |order| - 1 ensures Without(order, p)[i] == order[if i < p then i else i + 1] {
    }
  }

  /** The two assignments of brelse that take a node out. */
  lemma Unlink(next: seq<nat>, prev: seq<nat>, order: seq<nat>, p: nat, next': seq<nat>, prev': seq<nat>)
    requires Linked(next, prev, order) && p < |order|
    requires order[p] <= NBUF && next[order[p]] <= NBUF && prev[order[p]] <= NBUF
    requires prev' == prev[next[order[p]] := prev[order[p]]]
    requires next' == next[prev[order[p]] := next[order[p]]]
    ensures Linked(next', prev', Without(order, p))
    ensures order[p] !in Without(order, p) && next'[HEAD] <= NBUF
  {
    hide Without, Linked, At;
    var rest := Without(order, p);
    LinkedFacts(next, prev, order);
    WithoutDistinct(order, p);
    Links(next, prev, order, p);
    UnlinkHead(next, prev, order, p);
    forall i {:trigger next'[rest[i]]} {:trigger prev'[rest[i]]} | 0 <= i < |rest|
      ensures next'[rest[i]] == At(rest, i + 1) && prev'[rest[i]] == At(rest, i - 1)
    {
      UnlinkNode(next, prev, order, p, i);
    }
    LinkedIs(next', prev', rest);
    Ends(next', prev', rest);
    AtBound(rest, 0);
  }

  lemma AtBound(order: seq<nat>, i: int)
    requires forall k | 0 <= k < |order| :: order[k] < NBUF
    ensures At(order, i) <= NBUF
  {
  }

  lemma LinkedFacts(next: seq<nat>, prev: seq<nat>, order: seq<nat>)
    requires Linked(next, prev, order)
    ensures |next| == |prev| == NBUF + 1 && (forall i | 0 <= i < |order| :: order[i] < NBUF)
    ensures forall i, j | 0 <= i < j < |order| :: order[i] != order[j]
  {
  }

  lemma LinkedIs(next: seq<nat>, prev: seq<nat>, order: seq<nat>)
    requires |next| == |prev| == NBUF + 1 && (forall i | 0 <= i < |order| :: order[i] < NBUF)
    requires forall i, j | 0 <= i < j < |order| :: order[i] != order[j]
    requires next[HEAD] == At(order, 0) && prev[HEAD] == At(order, |order| - 1)
    requires forall i {:trigger next[order[i]]} | 0 <= i < |order| :: next[order[i]] == At(order, i + 1)
    requires forall i {:trigger prev[order[i]]} | 0 <= i < |order| :: prev[order[i]] == At(order, i - 1)
    ensures Linked(next, prev, order)
  {
  }

  lemma UnlinkHead(next: seq<nat>, prev: seq<nat>, order: seq<nat>, p: nat)
    requires Linked(next, prev, order) && p < |order|
    requires order[p] <= NBUF && next[order[p]] <= NBUF && prev[order[p]] <= NBUF
    ensures var r := Without(order, p);
      && next[prev[order[p]] := next[order[p]]][HEAD] == At(r, 0)
      && prev[next[order[p]] := prev[order[p]]][HEAD] == At(r, |r| - 1)
  {
    Links(next, prev, order, p);
    Ends(next, prev, order);
    WithoutDistinct(order, p);
    WithoutAt(order, p, 0);
    WithoutAt(order, p, |order| - 2);
    assert p > 0 ==> At(order, p - 1) < NBUF;
    assert p < |order| - 1 ==> At(order, p + 1) < NBUF;
    hide Without, Linked;
  }

  lemma UnlinkNode(next: seq<nat>, prev: seq<nat>, order: seq<nat>, p: nat, i: nat)
    requires Linked(next, prev, order) && p < |order| && i < |order| - 1
    requires order[p] <= NBUF && next[order[p]] <= NBUF && prev[order[p]] <= NBUF
    ensures var r := Without(order, p);
      && i < |r| && r[i] < NBUF
      && next[prev[order[p]] := next[order[p]]][r[i]] == At(r, i + 1)
      && prev[next[order[p]] := prev[order[p]]][r[i]] == At(r, i - 1)
  {
    var q := if i < p then i else i + 1;
    WithoutAt(order, p, i);
    WithoutAt(order, p, i + 1);
    WithoutAt(order, p, i - 1);
    WithoutDistinct(order, p);
    Links(next, prev, order, p);
    Links(next, prev, order, q);
    assert Without(order, p)[i] == order[q];
    assert q != p && order[q] != order[p];
    assert order[q] == At(order, p - 1) <==> q == p - 1;
    assert order[q] == At(order, p + 1) <==> q == p + 1;
    hide Without, Linked;
  }

  lemma PushFront(next: seq<nat>, prev: seq<nat>, order: seq<nat>, b: nat, next': seq<nat>, prev': seq<nat>)
    requires Linked(next, prev, order) && b < NBUF && b !in order
    requires next[HEAD] <= NBUF
      && next' == next[b := next[HEAD]][HEAD := b]
      && prev' == prev[b := HEAD][next[HEAD] := b]
    ensures Linked(next', prev', [b] + order)
  {
    var r := [b] + order;
    forall i {:trigger next'[r[i]]} | 0 <= i < |r| ensures next'[r[i]] == At(r, i + 1) {
      if i > 0 {
        assert r[i] == order[i-1] && next[order[i-1]] == At(order, i);
      }
    }
    forall i {:trigger prev'[r[i]]} | 0 <= i < |r| ensures prev'[r[i]] == At(r, i - 1) {
      if i > 0 {
        assert r[i] == order[i-1] && prev[order[i-1]] == At(order, i - 2);
      }
    }
  }

  /** `lru` is a permutation of all buffers sorted by the time of their last release, latest first. */
  ghost predicate Sorted(lru: seq<nat>, released: seq<nat>, clock: nat) {
    && |lru| == |released| == NBUF
    && (forall i | 0 <= i < NBUF :: lru[i] < NBUF)
    && (forall b | 0 <= b < NBUF :: released[b] < clock)
    && (forall i, j | 0 <= i < j < NBUF :: released[lru[j]] < released[lru[i]])
  }

  lemma SortedToFront(lru: seq<nat>, released: seq<nat>, clock: nat, p: nat)
    requires Sorted(lru, released, clock) && p < NBUF
    ensures Sorted(ToFront(lru, p), released[lru[p] := clock], clock + 1)
  {
    var r := ToFront(lru, p);
    forall i | 0 <= i < NBUF ensures r[i] == if i == 0 then lru[p] else if i <= p then lru[i-1] else lru[i] {
    }
  }

  lemma SortedAt(lru: seq<nat>, released: seq<nat>, clock: nat, i: nat, j: nat)
    requires Sorted(lru, released, clock) && i <= j < NBUF
    ensures |lru| == |released| == NBUF && lru[i] < NBUF && lru[j] < NBUF && released[lru[j]] <= released[lru[i]]
  {
  }

  lemma SortedSize(lru: seq<nat>, released: seq<nat>, clock: nat)
    requires Sorted(lru, released, clock)
    ensures |lru| == |released| == NBUF && forall i | 0 <= i < NBUF :: lru[i] < NBUF
  {
  }

  /** Every buffer is on the list: NBUF distinct nodes below NBUF are all of them. */
  lemma OnList(lru: seq<nat>, released: seq<nat>, clock: nat, b: nat) returns (p: nat)
    requires Sorted(lru, released, clock) && b < NBUF
    ensures |lru| == |released| == NBUF && p < NBUF && lru[p] == b
  {
    Sets.Onto(lru, b);
    p :| 0 <= p < NBUF && lru[p] == b;
  }

  // ------------------------------------------------------------------- bio.c

  /** Outcome of one pass of bget's loop: a buffer, a wait for its holder, or the panic. */
  datatype Got = Got(i: nat) | MustSleep(i: nat) | NoBuffers

  class Bcache {
    const disk: Disk
    var buf: seq<Buf>
    var next: seq<nat>
    var prev: seq<nat>
    ghost var lru: seq<nat>      // header's successor first
    ghost var released: seq<nat> // time of the last brelse of each buffer
    ghost var clock: nat

    /** The list is a circular permutation of all buffers, most recently released first. */
    ghost predicate ListOk()
      reads this
    {
      && |buf| == NBUF
      && Linked(next, prev, lru)
      && Sorted(lru, released, clock)
    }

    ghost predicate Valid()
      reads this, disk
    {
      disk.Valid() && ListOk() && Coherent(buf, disk.sectors)
    }

    constructor (d: Disk)
      requires d.Valid()
      ensures Valid() && disk == d
      ensures |buf| == NBUF && forall k | 0 <= k < NBUF :: buf[k] == UNUSED
    {
      disk := d;
      buf := seq(NBUF, i => UNUSED);
      next := seq(NBUF + 1, i => HEAD);
      prev := seq(NBUF + 1, i => HEAD);
      lru := [];
      released := seq(NBUF, i => i);
      clock := NBUF;
      new;
      hide Linked, Coherent;
      EmptyList(next, prev);
      var b := 0;
      while b < NBUF
        invariant b <= NBUF && |lru| == b && Linked(next, prev, lru)
        invariant |next| == |prev| == NBUF + 1 && next[HEAD] <= NBUF
        invariant forall i | 0 <= i < b :: lru[i] == b - 1 - i
        invariant buf == seq(NBUF, i => UNUSED)
        invariant released == seq(NBUF, i => i) && clock == NBUF
      {
        ghost var n0, p0 := next, prev;
        next := next[b := next[HEAD]];
        prev := prev[b := HEAD];
        prev := prev[next[HEAD] := b];
        next := next[HEAD := b];
        PushFront(n0, p0, lru, b, next, prev);
        lru := [b] + lru;
        b := b + 1;
      }
      AllUnused(buf, disk.sectors);
    }

    /**
     One pass over the list under the lock. The victim is the least recently
     released buffer that is neither busy nor dirty.
     */
    method Bget(dev: nat, sector: nat) returns (r: Got)
      requires ListOk() && Unique(buf) && dev != NODEV
      modifies this`buf
      ensures ListOk()
      ensures r.NoBuffers? <==>
        forall k | 0 <= k < NBUF :: !Reusable(old(buf)[k]) && !(old(buf)[k].dev == dev && old(buf)[k].sector == sector)
      ensures r.MustSleep? <==>
        exists k | 0 <= k < NBUF :: old(buf)[k].busy && old(buf)[k].dev == dev && old(buf)[k].sector == sector
      ensures !r.Got? ==> buf == old(buf)
      ensures r.Got? ==>
        && r.i < NBUF && !old(buf)[r.i].busy
        && if exists k :: 0 <= k < NBUF && old(buf)[k].dev == dev && old(buf)[k].sector == sector then
             && old(buf)[r.i].dev == dev && old(buf)[r.i].sector == sector
             && buf == old(buf)[r.i := old(buf)[r.i].(busy := true)]
           else
             && Reusable(old(buf)[r.i])
             && (forall k | 0 <= k < NBUF && Reusable(old(buf)[k]) :: released[r.i] <= released[k])
             && buf == old(buf)[r.i := Buf(true, false, false, dev, sector, old(buf)[r.i].data)]
    {
      hide Linked, Sorted;
      SortedSize(lru, released, clock);
      Ends(next, prev, lru);
      var b := next[HEAD];
      ghost var i := 0;
      while b != HEAD
        invariant i <= NBUF && b == At(lru, i) && buf == old(buf)
        invariant forall j | 0 <= j < i :: !(buf[lru[j]].dev == dev && buf[lru[j]].sector == sector)
        decreases NBUF - i
      {
        Links(next, prev, lru, i);
        if buf[b].dev == dev && buf[b].sector == sector {
          if !buf[b].busy {
            buf := buf[b := buf[b].(busy := true)];
            return Got(b);
          }
          return MustSleep(b);
        }
        b := next[b];
        i := i + 1;
      }
      forall k: nat | k < NBUF ensures !(buf[k].dev == dev && buf[k].sector == sector) {
        var _ := OnList(lru, released, clock, k);
      }
      b := prev[HEAD];
      ghost var q := NBUF - 1;
      while b != HEAD
        invariant -1 <= q < NBUF && b == At(lru, q) && buf == old(buf)
        invariant forall j | q < j < NBUF :: !Reusable(buf[lru[j]])
        decreases q + 1
      {
        Links(next, prev, lru, q);
        if !buf[b].busy && !buf[b].dirty {
          forall k: nat | k < NBUF && Reusable(buf[k]) ensures released[b] <= released[k] {
            var j := OnList(lru, released, clock, k);
            SortedAt(lru, released, clock, j, q);
          }
          buf := buf[b := Buf(true, false, false, dev, sector, buf[b].data)];
          return Got(b);
        }
        b := prev[b];
        q := q - 1;
      }
      forall k: nat | k < NBUF ensures !Reusable(buf[k]) {
        var _ := OnList(lru, released, clock, k);
      }
      return NoBuffers;
    }

    /**
     bread: a held buffer with what the sector contains, unless another process
     holds the sector's buffer, for which the caller has to wait, or all buffers are
     held or pinned.
     */
    method Bread(s: nat) returns (r: Got)
      requires Valid() && s < |disk.sectors|
      modifies this`buf, disk
      ensures Valid() && disk.sectors == old(disk.sectors) && disk.trace == old(disk.trace)
      ensures r.MustSleep? <==> exists k :: 0 <= k < NBUF && old(buf)[k].busy && Holds(old(buf)[k], s)
      ensures r.NoBuffers? <==> forall k | 0 <= k < NBUF :: !Reusable(old(buf)[k]) && !Holds(old(buf)[k], s)
      ensures !r.Got? ==> buf == old(buf)
      ensures r.Got? ==> Fetched(old(buf), buf, r.i, s, disk.sectors)
    {
      hide Linked, Sorted;
      r := Bget(ROOTDEV, s);
      if r.Got? {
        if !buf[r.i].valid {
          var b := disk.Iderw(buf[r.i]);
          buf := buf[r.i := b];
        } else {
          ContentCached(old(buf), disk.sectors, r.i);
        }
      }
    }

    /** bread where the caller neither has to wait nor runs out of buffers. */
    method BreadNow(s: nat) returns (i: nat)
      requires Valid() && s < |disk.sectors|
      requires forall k | 0 <= k < NBUF :: buf[k].busy ==> !Holds(buf[k], s)
      requires exists k :: 0 <= k < NBUF && (Reusable(buf[k]) || Holds(buf[k], s))
      modifies this`buf, disk
      ensures Valid() && disk.sectors == old(disk.sectors) && disk.trace == old(disk.trace)
      ensures i < NBUF && buf == old(buf)[i := buf[i]]
      ensures buf[i].busy && buf[i].valid && Holds(buf[i], s)
      ensures buf[i].data == Content(old(buf), disk.sectors, s)
      ensures if Holds(old(buf)[i], s) then
                buf[i] == old(buf)[i].(busy := true)
              else
                Reusable(old(buf)[i]) && !buf[i].dirty && forall k | 0 <= k < NBUF :: !Holds(old(buf)[k], s)
    {
      hide Linked, Sorted, Coherent;
      CoherentFacts(buf, disk.sectors);
      var r := Bread(s);
      i := r.i;
    }

    /** What other processes may do to the cache while this one sleeps. */
    method Others()
      requires Valid()
      modifies this, disk
      ensures Valid() && |disk.sectors| == |old(disk.sectors)|
    {
    }

    /**
     bread by a process that is woken up to `turns` times in wait for the buffer:
     what it gets in the end is the sector's content at that time, `was` and `now`
     being the buffers and the disk when it last looked.
     */
    method BreadWait(s: nat, turns: nat) returns (r: Got, ghost was: seq<Buf>, ghost now: seq<Block>)
      requires Valid() && s < |disk.sectors|
      modifies this, disk
      ensures Valid() && disk.sectors == now && |now| == |old(disk.sectors)| && Coherent(was, now)
      ensures r.Got? ==> Fetched(was, buf, r.i, s, now)
      ensures r.NoBuffers? ==> buf == was && forall k | 0 <= k < NBUF :: !Reusable(buf[k]) && !Holds(buf[k], s)
      ensures r.MustSleep? ==> buf == was && exists k :: 0 <= k < NBUF && buf[k].busy && Holds(buf[k], s)
    {
      hide Linked, Sorted, Coherent, Holds;
      CoherentFacts(buf, disk.sectors);
      was, now := buf, disk.sectors;
      r := Bread(s);
      var n := 0;
      while r.MustSleep? && n < turns
        invariant Valid() && disk.sectors == now && |now| == |old(disk.sectors)| && Coherent(was, now)
        invariant r.Got? ==> Fetched(was, buf, r.i, s, now)
        invariant r.NoBuffers? ==>
          buf == was && forall k | 0 <= k < NBUF :: |buf| == NBUF && !Reusable(buf[k]) && !Holds(buf[k], s)
        invariant r.MustSleep? ==>
          buf == was && |buf| == NBUF && exists k :: 0 <= k < NBUF && buf[k].busy && Holds(buf[k], s)
      {
        Others();
        CoherentFacts(buf, disk.sectors);
        was, now := buf, disk.sectors;
        r := Bread(s);
        n := n + 1;
      }
    }

    /** The holder of a buffer stores into its data. */
    method Store(i: nat, data: Block)
      requires Valid() && i < NBUF && buf[i].busy
      modifies this`buf
      ensures Valid() && buf == old(buf)[i := old(buf)[i].(data := data)]
    {
      hide Linked, Sorted;
      buf := buf[i := buf[i].(data := data)];
    }

    /** The holder of a buffer sets B_DIRTY, which keeps it from being recycled. */
    method MarkDirty(i: nat)
      requires Valid() && i < NBUF && buf[i].busy
      modifies this`buf
      ensures Valid() && buf == old(buf)[i := old(buf)[i].(dirty := true)]
    {
      hide Linked, Sorted;
      buf := buf[i := buf[i].(dirty := true)];
    }

    /** Write a held buffer through to its sector. */
    method Bwrite(i: nat)
      requires Valid() && i < NBUF && buf[i].busy
      modifies this`buf, disk
      ensures Valid()
      ensures buf == old(buf)[i := old(buf)[i].(dirty := false)]
      ensures disk.sectors == old(disk.sectors)[old(buf)[i].sector := old(buf)[i].data]
      ensures disk.trace == old(disk.trace) + [disk.sectors]
    {
      hide Linked, Sorted;
      buf := buf[i := buf[i].(dirty := true)];
      var b := disk.Iderw(buf[i]);
      buf := buf[i := b];
    }

    /**
     Release a held buffer. The cache stays coherent with the disk exactly if the
     buffer's content is on disk or still pinned by its dirty flag.
     */
    method Brelse(i: nat)
      requires Valid() && i < NBUF && buf[i].busy
      modifies this
      ensures ListOk() && disk.Valid() && (Coherent(buf, disk.sectors) <==> old(Saved(buf[i], disk.sectors)))
      ensures Valid() <==> old(Saved(buf[i], disk.sectors))
      ensures buf == old(buf)[i := old(buf)[i].(busy := false)]
      ensures |lru| == |old(lru)| == NBUF && lru[0] == i
      ensures exists p :: 0 <= p < NBUF && old(lru)[p] == i && lru == ToFront(old(lru), p)
      ensures released == old(released)[i := old(clock)]
    {
      hide Linked, Sorted, Coherent, Saved;
      CoherentFacts(buf, disk.sectors);
      ReleaseCoherent(buf, disk.sectors, i);
      ghost var p := OnList(lru, released, clock, i);
      Links(next, prev, lru, p);
      ghost var n0, p0 := next, prev;
      prev := prev[next[i] := prev[i]];
      next := next[prev[i] := next[i]];
      Unlink(n0, p0, lru, p, next, prev);
      ghost var n1, p1 := next, prev;
      next := next[i := next[HEAD]];
      prev := prev[i := HEAD];
      prev := prev[next[HEAD] := i];
      next := next[HEAD := i];
      PushFront(n1, p1, Without(lru, p), i, next, prev);
      SortedToFront(lru, released, clock, p);
      lru := ToFront(lru, p);
      assert lru == [i] + (old(lru)[..p] + old(lru)[p+1..]);
      released := released[i := clock];
      clock := clock + 1;
      buf := buf[i := buf[i].(busy := false)];
    }
  }
}
