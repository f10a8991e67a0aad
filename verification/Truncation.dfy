/**
 Giving blocks back (fs.c bfree, itrunc): the blocks of the inode, each freed
 exactly once, and nothing else.
 */
module Truncation {
  import opened Base
  import opened Blocks
  import opened Layout
  import opened Ownership
  import opened Inodes
  import opened FileIO
  import FD = FileData
  import L = RedoLog
  import BufferCache
  import Sets

  /** The blocks that the given slots of inode `i` own. */
  ghost function Dropped(owner: map<nat, Slot>, i: nat, slots: set<nat>): set<nat> {
    set b | b in owner && owner[b].0 == i && owner[b].1 in slots
  }

  /** `h1` is `h0` with the blocks `gone` marked free and nothing else changed. */
  ghost predicate Cleared(h0: seq<Block>, h1: seq<Block>, gone: set<nat>)
    requires Geo(h0, |h0|)
  {
    && |h1| == |h0| && Geo(h1, |h1|) && SuperOf(h1) == SuperOf(h0)
    && (forall s | 0 <= s < |h0| && (s < SuperOf(h0).ninodes / IPB + 3 || DataStart(SuperOf(h0)) <= s) ::
       h1[s] == h0[s])
    && (forall b | 0 <= b < |h0| :: Used(h1, b) <==> Used(h0, b) && b !in gone)
  }

  lemma ClearedNone(h: seq<Block>)
    requires Geo(h, |h|)
    ensures Cleared(h, h, {})
  {
  }

  lemma ClearedStep(h0: seq<Block>, h1: seq<Block>, gone: set<nat>, b: nat)
    requires Geo(h0, |h0|) && Cleared(h0, h1, gone) && b < |h1|
    ensures Cleared(h0, Marked(h1, b, false), gone + {b})
  {
    hide Geo, GetSuper, Used, Marked;
    var h2 := Marked(h1, b, false);
    UsedAfter(h1, b, b, false);
    forall c | 0 <= c < |h0| ensures Used(h2, c) <==> Used(h0, c) && c !in gone + {b} {
      UsedAfter(h1, b, c, false);
    }
    MarkedElsewhere(h1, b);
  }

  lemma MarkedElsewhere(home: seq<Block>, b: nat)
    requires Geo(home, |home|) && b < |home|
    ensures forall s | 0 <= s < |home| && (s < SuperOf(home).ninodes / IPB + 3 || DataStart(SuperOf(home)) <= s) ::
      Marked(home, b, false)[s] == home[s]
  {
    hide GetSuper, PutBlockBit, BitIndex;
    BitRange(home, b);
  }

  /** What slot `k` owns besides the given slots: nothing, or one block that is marked and not yet given back. */
  lemma DroppedAdd(home: seq<Block>, T: seq<Dinode>, owner: map<nat, Slot>, i: nat, slots: set<nat>, k: nat)
    requires FsOk(home, T, owner, i) && i < |T| && k < NSLOT && k !in slots && |T[i].addrs| == NDIRECT + 1
    ensures var a := SlotAddr(home, T, i, k);
      && Dropped(owner, i, slots + {k}) == Dropped(owner, i, slots) + (if a == 0 then {} else {a})
      && (a != 0 ==> DataStart(SuperOf(home)) <= a < |home| && Used(home, a) && a !in Dropped(owner, i, slots))
  {
    hide Geo, GetSuper, Used, SlotAddr, TableOk, DataStart, WfDinode;
    GeoFacts(home);
    var a := SlotAddr(home, T, i, k);
    forall b | b in owner && owner[b].0 == i && owner[b].1 == k ensures b == a {
      assert OwnedBy(home, T, b, owner[b]);
    }
    var l, r := Dropped(owner, i, slots + {k}), Dropped(owner, i, slots) + (if a == 0 then {} else {a});
    forall b ensures b in l <==> b in r {
    }
  }

  /** The table with inode `i` emptied. */
  ghost function Emptied(T: seq<Dinode>, i: nat): (r: seq<Dinode>)
    requires i < |T|
    ensures |r| == |T| && forall j | 0 <= j < |T| && j != i :: r[j] == T[j]
    ensures r[i].size == 0 && |r[i].addrs| == 13 && (forall k | 0 <= k < 13 :: r[i].addrs[k] == 0)
      && r[i].typ == T[i].typ
  {
    T[i := T[i].(addrs := NoAddrs(), size := 0)]
  }

  function NoAddrs(): (r: seq<nat>)
    ensures |r| == NDIRECT + 1 && forall k | 0 <= k <= NDIRECT :: r[k] == 0
  {
    seq<nat>(NDIRECT + 1, k => 0)
  }

  lemma EmptiedSlots(h0: seq<Block>, h1: seq<Block>, T: seq<Dinode>, owner: map<nat, Slot>, i: nat, j: nat, m: nat)
    requires FsOk(h0, T, owner, i) && i < |T| && j < |T| && m < NSLOT && |T[j].addrs| == NDIRECT + 1
    requires Cleared(h0, h1, Dropped(owner, i, Sets.Range(0, NSLOT)))
    ensures |Emptied(T, i)[j].addrs| == NDIRECT + 1
    ensures SlotAddr(h1, Emptied(T, i), j, m) == if j == i then 0 else SlotAddr(h0, T, j, m)
  {
    hide Geo, GetSuper, Used, Own, BitsOk, TableOk, WfDinode, Dropped, DataStart;
    if j == i {
      assert forall k | 0 <= k <= INDIRECT :: Emptied(T, i)[i].addrs[k] == 0;
    } else {
      assert Emptied(T, i)[j] == T[j];
      if T[j].addrs[INDIRECT] != 0 {
        IndirectOwned(h0, T, owner, j);
      }
    }
  }

  lemma EmptiedOk(h0: seq<Block>, h1: seq<Block>, T: seq<Dinode>, owner: map<nat, Slot>, i: nat)
    requires FsOk(h0, T, owner, i) && i < |T|
    requires Cleared(h0, h1, Dropped(owner, i, Sets.Range(0, NSLOT)))
    ensures FsOk(h1, Emptied(T, i), owner - Dropped(owner, i, Sets.Range(0, NSLOT)), i)
    ensures FD.OthersSame(h0, T, h1, Emptied(T, i), i)
    ensures FD.NoHoles(h0, T) ==> FD.NoHoles(h1, Emptied(T, i))
  {
    var T1, gone := Emptied(T, i), Dropped(owner, i, Sets.Range(0, NSLOT));
    var after := owner - gone;
    KeptDropped(h0, T, owner, i);
    hide Geo, GetSuper, Used, SlotAddr, DataStart, Dropped, Own, FD.OthersSame, FD.NoHoles, Emptied;
    EmptiedTable(h0, h1, T, owner, i, gone);
    forall j, m | 0 <= j < |T| && 0 <= m < NSLOT
      ensures |T1[j].addrs| == NDIRECT + 1
      ensures SlotAddr(h1, T1, j, m) == if j == i then 0 else SlotAddr(h0, T, j, m)
    {
      EmptiedSlots(h0, h1, T, owner, i, j, m);
    }
    EmptiedOwn(h0, h1, T, owner, after, i);
    EmptiedBytes(h0, h1, T, owner, i);
    hide Kept, TableOk, WfTable, BitsOk;
    GoneData(h0, T, owner, i);
    BitsCleared(h0, h1, owner.Keys, after.Keys, gone);
  }

  lemma GoneData(home: seq<Block>, T: seq<Dinode>, owner: map<nat, Slot>, i: nat)
    requires FsOk(home, T, owner, i)
    ensures SB < |home| && forall b | b in Dropped(owner, i, Sets.Range(0, NSLOT)) ::
      b in owner && DataStart(SuperOf(home)) <= b
    ensures (owner - Dropped(owner, i, Sets.Range(0, NSLOT))).Keys == owner.Keys - Dropped(owner, i,
        Sets.Range(0, NSLOT))
  {
    hide Geo, GetSuper, SlotAddr, DataStart, WfDinode, BitsOk, TableOk, Own;
    GeoFacts(home);
    forall b | b in Dropped(owner, i, Sets.Range(0, NSLOT)) ensures DataStart(SuperOf(home)) <= b {
      OwnedSlot(home, T, owner, b);
    }
  }

  lemma BitsCleared(h0: seq<Block>, h1: seq<Block>, owned: set<nat>, after: set<nat>, gone: set<nat>)
    requires Geo(h0, |h0|) && Cleared(h0, h1, gone) && BitsOk(h0, owned)
    requires after == owned - gone && forall b | b in gone :: DataStart(SuperOf(h0)) <= b
    ensures BitsOk(h1, after)
  {
    hide Geo, GetSuper, Used, DataStart;
  }

  lemma EmptiedTable(h0: seq<Block>, h1: seq<Block>, T: seq<Dinode>, owner: map<nat, Slot>, i: nat, gone: set<nat>)
    requires FsOk(h0, T, owner, i) && i < |T| && Cleared(h0, h1, gone)
    ensures WfTable(h1, Emptied(T, i)) && TableOk(h1, Emptied(T, i), i)
  {
    hide Geo, GetSuper, Used, SlotAddr, DataStart, Own, BitsOk;
    forall j | 0 <= j < |T| && j != i ensures InodeBlock(j) < |h1| && h1[InodeBlock(j)] == h0[InodeBlock(j)] {
      InodePlace(h0, T, j);
    }
  }

  /** `after` is `owner` without the blocks of inode `i`. */
  ghost predicate Kept(owner: map<nat, Slot>, after: map<nat, Slot>, i: nat) {
    && (forall b | b in owner && owner[b].0 != i :: b in after)
    && (forall b | b in after :: b in owner && owner[b].0 != i && after[b] == owner[b])
  }

  lemma KeptDropped(home: seq<Block>, T: seq<Dinode>, owner: map<nat, Slot>, i: nat)
    requires WfTable(home, T) && Own(home, T, owner)
    ensures Kept(owner, owner - Dropped(owner, i, Sets.Range(0, NSLOT)), i)
    ensures forall b :: b in Dropped(owner, i, Sets.Range(0, NSLOT)) <==> b in owner && owner[b].0 == i
  {
    hide Geo, GetSuper, SlotAddr, DataStart, WfDinode;
    hide Own, OwnedBy, Sets.Range;
    forall b | b in owner ensures owner[b].1 < NSLOT {
      OwnedSlot(home, T, owner, b);
    }
    KeptRest(owner, i, Dropped(owner, i, Sets.Range(0, NSLOT)));
  }

  lemma OwnedSlot(home: seq<Block>, T: seq<Dinode>, owner: map<nat, Slot>, b: nat)
    requires WfTable(home, T) && Own(home, T, owner) && b in owner
    ensures owner[b].1 < NSLOT && DataStart(SuperOf(home)) <= b
  {
    assert OwnedBy(home, T, b, owner[b]);
  }

  lemma KeptRest(owner: map<nat, Slot>, i: nat, gone: set<nat>)
    requires forall b :: b in gone <==> b in owner && owner[b].0 == i
    ensures Kept(owner, owner - gone, i)
  {
  }

  lemma EmptiedOwn(h0: seq<Block>, h1: seq<Block>, T: seq<Dinode>, owner: map<nat, Slot>, after: map<nat, Slot>, i: nat)
    requires WfTable(h0, T) && Own(h0, T, owner) && i < |T| && Kept(owner, after, i)
    requires WfTable(h1, Emptied(T, i)) && |h1| == |h0| && SuperOf(h1) == SuperOf(h0)
    requires forall j, m | 0 <= j < |T| && 0 <= m < NSLOT ::
      SlotAddr(h1, Emptied(T, i), j, m) == if j == i then 0 else SlotAddr(h0, T, j, m)
    ensures Own(h1, Emptied(T, i), after)
  {
    hide Geo, GetSuper, SlotAddr, DataStart, WfDinode, Emptied;
    forall b | b in after ensures OwnedBy(h1, Emptied(T, i), b, after[b]) {
      assert OwnedBy(h0, T, b, owner[b]);
    }
  }

  lemma EmptiedBytes(h0: seq<Block>, h1: seq<Block>, T: seq<Dinode>, owner: map<nat, Slot>, i: nat)
    requires WfTable(h0, T) && Own(h0, T, owner) && i < |T|
    requires WfTable(h1, Emptied(T, i)) && |h1| == |h0| && SuperOf(h1) == SuperOf(h0)
    requires forall b | DataStart(SuperOf(h0)) <= b < |h0| :: h1[b] == h0[b]
    requires forall j, m | 0 <= j < |T| && 0 <= m < NSLOT ::
      SlotAddr(h1, Emptied(T, i), j, m) == if j == i then 0 else SlotAddr(h0, T, j, m)
    ensures FD.OthersSame(h0, T, h1, Emptied(T, i), i)
    ensures FD.NoHoles(h0, T) ==> FD.NoHoles(h1, Emptied(T, i))
  {
    hide Geo, GetSuper, SlotAddr, FileSlot, DataStart;
    var T1 := Emptied(T, i);
    forall j, p | 0 <= j < |T| && j != i
      && 0 <= p < FD.MAXBYTES ensures FD.FileByte(h1, T1, j, p) == FD.FileByte(h0, T, j, p) {
      assert SlotAddr(h1, T1, j, FileSlot(p / BSIZE)) == SlotAddr(h0, T, j, FileSlot(p / BSIZE));
    }
    hide FD.FileByte;
  }

  /** bfree; the panic "freeing free block" is the precondition that the block is marked. */
  method Bfree(fs: Fs, b: nat)
    requires fs.Ready() && b < |fs.log.home| && fs.log.edited == {} && fs.Spare(1)
    requires Used(fs.log.home, b)
    requires forall k | k in fs.log.held :: DataStart(SuperOf(fs.log.home)) <= fs.log.held[k]
    modifies fs.log.cache, fs.log.disk, fs.log`held, fs.log`home, fs.log`edited, fs.log`logged, fs.log`n
    modifies fs.log`sector, fs.log`pin
    ensures fs.Ready() && fs.log.held == old(fs.log.held) && fs.log.edited == {}
    ensures fs.log.home == Marked(old(fs.log.home), b, false)
    ensures fs.log.logged == old(fs.log.logged) + {BitBlock(SuperOf(old(fs.log.home)), b)}
  {
    hide L.Log.Valid, Geo, PutBlockBit, Word, Used, DataStart, BitBlock;
    fs.log.ValidFacts();
    ghost var held0 := fs.log.held;
    BitRange(fs.log.home, b);
    MarkedFacts(fs.log.home, b, false);
    fs.LoggedSize();
    var sb := fs.Readsb();
    var bp := fs.log.Read(BitBlock(sb, b));
    fs.log.Store(bp, PutBlockBit(fs.log.Buffer(bp), BitIndex(b), false));
    L.PinnedSum(fs.log.logged, fs.log.held);
    fs.log.LogWrite(bp);
    fs.log.Release(bp);
    L.PutBack(held0, bp, BitBlock(sb, b));
    fs.log.ValidFacts();
  }

  /**
   The state while inode `i` is being emptied: the blocks of the given slots are free, the rest is
   as it was in `h0`.
   */
  ghost predicate Emptying(h0: seq<Block>, home: seq<Block>, T: seq<Dinode>, owner: map<nat, Slot>, i: nat,
                          slots: set<nat>) {
    FsOk(h0, T, owner, i) && i < |T| && Cleared(h0, home, Dropped(owner, i, slots))
  }

  lemma EmptyingStart(home: seq<Block>, T: seq<Dinode>, owner: map<nat, Slot>, i: nat)
    requires FsOk(home, T, owner, i) && i < |T|
    ensures Emptying(home, home, T, owner, i, {})
  {
    hide FsOk, Own, BitsOk, TableOk, Cleared;
    assert Geo(home, |home|) by { FsGeo(home, T, owner, i); }
    ClearedNone(home);
    assert Dropped(owner, i, {}) == {};
  }

  lemma FsGeo(home: seq<Block>, T: seq<Dinode>, owner: map<nat, Slot>, i: nat)
    requires FsOk(home, T, owner, i)
    ensures Geo(home, |home|)
  {
  }

  lemma EmptyingFacts(h0: seq<Block>, home: seq<Block>, T: seq<Dinode>, owner: map<nat, Slot>, i: nat, slots: set<nat>)
    requires Emptying(h0, home, T, owner, i, slots)
    ensures Geo(home, |home|) && |home| == |h0| && SuperOf(home) == SuperOf(h0) && |T[i].addrs| == NDIRECT + 1
    ensures WfDinode(T[i])
  {
    hide Own, BitsOk, TableOk, GetSuper, Used;
  }

  lemma EmptyingStep(h0: seq<Block>, home: seq<Block>, T: seq<Dinode>, owner: map<nat, Slot>, i: nat,
                     slots: set<nat>, k: nat)
    requires Emptying(h0, home, T, owner, i, slots) && k < NSLOT && k !in slots && |T[i].addrs| == NDIRECT + 1
    requires Geo(home, |home|)
    ensures SlotAddr(h0, T, i, k) == 0 ==> Emptying(h0, home, T, owner, i, slots + {k})
    ensures var a := SlotAddr(h0, T, i, k);
      a != 0 ==> a < |home| && Used(home, a) && Emptying(h0, Marked(home, a, false), T, owner, i, slots + {k})
  {
    hide FsOk, SlotAddr, Geo, GetSuper, Used, Marked, DataStart, Dropped;
    assert Geo(h0, |h0|) by { FsGeo(h0, T, owner, i); }
    DroppedAdd(h0, T, owner, i, slots, k);
    var a, gone := SlotAddr(h0, T, i, k), Dropped(owner, i, slots);
    if a != 0 {
      ClearedStep(h0, home, gone, a);
    }
  }

  /** A point within itrunc: the slots emptied so far, the budget of the transaction and what it can still take. */
  ghost predicate Stage(fs: Fs, h0: seq<Block>, i: nat, slots: set<nat>, budget: set<nat>, n: nat)
    reads fs, fs.log, fs.log.cache, fs.log.disk
  {
    && fs.Ready() && fs.log.edited == {} && SB < |fs.log.home| && fs.Spare(n) && fs.Budget() == budget
    && Emptying(h0, fs.log.home, fs.T, fs.owner, i, slots) && |fs.T[i].addrs| == NDIRECT + 1
  }

  lemma StageFacts(fs: Fs, h0: seq<Block>, i: nat, slots: set<nat>, budget: set<nat>, n: nat)
    requires Stage(fs, h0, i, slots, budget, n)
    ensures fs.log.Valid() && fs.log.edited == {} && i < |fs.T| && |fs.T[i].addrs| == NDIRECT + 1
    ensures |fs.log.logged| + |fs.log.held| + n < BufferCache.NBUF
    ensures SB < |fs.log.home| == fs.log.start == |h0|
    ensures fs.T[i].addrs[INDIRECT] != 0 ==> DataStart(SuperOf(fs.log.home)) <= fs.T[i].addrs[INDIRECT] < |fs.log.home|
    ensures fs.T[i].addrs[INDIRECT] != 0 ==> forall x | 0 <= x < NINDIRECT ::
      SlotAddr(h0, fs.T, i, INDIRECT + 1 + x) == Word(fs.log.home[fs.T[i].addrs[INDIRECT]], x)
    ensures forall k | 0 <= k <= INDIRECT :: SlotAddr(h0, fs.T, i, k) == fs.T[i].addrs[k]
  {
    hide L.Log.Valid, Geo, GetSuper, Word, DataStart;
    fs.log.ValidFacts();
    fs.LoggedSize();
    EmptyingFacts(h0, fs.log.home, fs.T, fs.owner, i, slots);
    GeoFacts(fs.log.home);
    if fs.T[i].addrs[INDIRECT] != 0 {
      EntryFacts(h0, fs.log.home, fs.T, fs.owner, i, slots, 0);
      forall x | 0 <= x < NINDIRECT
        ensures SlotAddr(h0, fs.T, i, INDIRECT + 1 + x) == Word(fs.log.home[fs.T[i].addrs[INDIRECT]], x)
      {
        EntryFacts(h0, fs.log.home, fs.T, fs.owner, i, slots, x);
      }
    }
  }

  /** Freeing blocks leaves the indirect block as it was. */
  lemma EntryFacts(h0: seq<Block>, home: seq<Block>, T: seq<Dinode>, owner: map<nat, Slot>, i: nat, slots: set<nat>,
                   x: nat)
    requires Emptying(h0, home, T, owner, i, slots) && |T[i].addrs| == NDIRECT + 1 && T[i].addrs[INDIRECT] != 0
      && x < NINDIRECT
    ensures |home| == |h0| && Geo(home, |home|) && SB < |home|
    ensures DataStart(SuperOf(home)) <= T[i].addrs[INDIRECT] < |home| && SB < DataStart(SuperOf(home))
    ensures SlotAddr(h0, T, i, INDIRECT + 1 + x) == Word(home[T[i].addrs[INDIRECT]], x)
  {
    hide Geo, GetSuper, Word, Used;
    EmptyingFacts(h0, home, T, owner, i, slots);
    GeoFacts(home);
    IndirectOwned(h0, T, owner, i);
  }

  /** `if(a) bfree(a)` for the address `a` in slot `k`. */
  method FreeSlot(fs: Fs, a: nat, k: nat, ghost h0: seq<Block>, ghost i: nat, ghost slots: set<nat>,
                  ghost budget: set<nat>, ghost n: nat)
    requires Stage(fs, h0, i, slots, budget, n) && n > 0
    requires forall x | x in fs.log.held :: DataStart(SuperOf(fs.log.home)) <= fs.log.held[x]
    requires k < NSLOT && k !in slots && a == SlotAddr(h0, fs.T, i, k)
    modifies fs.log.cache, fs.log.disk, fs.log`held, fs.log`home, fs.log`edited, fs.log`logged, fs.log`n
    modifies fs.log`sector, fs.log`pin
    ensures fs.log.held == old(fs.log.held) && Stage(fs, h0, i, slots + {k}, budget, n)
  {
    hide L.Log.Valid, Geo, GetSuper, Emptying, SlotAddr, Used, Marked, Bitmap, BitBlock, DataStart;
    fs.log.ValidFacts();
    GeoFacts(fs.log.home);
    EmptyingStep(h0, fs.log.home, fs.T, fs.owner, i, slots, k);
    if a != 0 {
      BitFacts(fs.log.home, a);
      MarkedFacts(fs.log.home, a, false);
      LoggedAgain(fs.log.logged, Bitmap(SuperOf(fs.log.home)), BitBlock(SuperOf(fs.log.home), a));
      Bfree(fs, a);
    }
  }

  lemma LoggedAgain(logged: set<nat>, bitmap: set<nat>, bb: nat)
    requires bb in bitmap
    ensures logged + {bb} + bitmap == logged + bitmap
  {
  }

  /** The first loop of itrunc: free the direct blocks. */
  method FreeDirect(fs: Fs, ip: Inode, ghost h0: seq<Block>, ghost budget: set<nat>)
    requires Stage(fs, h0, ip.inum, Through(0), budget, 2) && fs.log.held == map[]
    requires ip.inum < |fs.T| && ip.addrs == fs.T[ip.inum].addrs
    modifies fs.log.cache, fs.log.disk, fs.log`held, fs.log`home, fs.log`edited, fs.log`logged, fs.log`n
    modifies fs.log`sector, fs.log`pin
    modifies ip`addrs
    ensures Stage(fs, h0, ip.inum, Through(NDIRECT), budget, 2) && fs.log.held == map[]
    ensures |ip.addrs| == NDIRECT + 1 && ip.addrs[INDIRECT] == old(ip.addrs)[INDIRECT]
    ensures forall m | 0 <= m < NDIRECT :: ip.addrs[m] == 0
  {
    hide Stage, Through, L.Log.Valid, DataStart, SlotAddr, Word;
    ghost var i := ip.inum;
    StageFacts(fs, h0, i, Through(0), budget, 2);
    var k := 0;
    while k < NDIRECT
      invariant k <= NDIRECT && |ip.addrs| == NDIRECT + 1
      invariant Stage(fs, h0, i, Through(k), budget, 2) && fs.log.held == map[]
      invariant forall m | 0 <= m < k :: ip.addrs[m] == 0
      invariant forall m | k <= m <= NDIRECT :: ip.addrs[m] == old(ip.addrs)[m]
    {
      StageFacts(fs, h0, i, Through(k), budget, 2);
      ThroughStep(k);
      FreeSlot(fs, ip.addrs[k], k, h0, i, Through(k), budget, 2);
      ip.addrs := ip.addrs[k := 0];
      k := k + 1;
    }
  }

  /** The slots emptied after `x` steps: the direct ones, then the entries of the indirect block. */
  ghost function Through(x: nat): (s: set<nat>)
    ensures forall y: nat :: y in s <==> (y < x && y < NDIRECT) || NDIRECT < y <= x
  {
    if x <= NDIRECT then Sets.Range(0, x) else Sets.Range(0, NDIRECT) + Sets.Range(INDIRECT + 1, x + 1)
  }

  lemma ThroughStep(x: nat)
    ensures var k := if x < NDIRECT then x else x + 1; k !in Through(x) && Through(x + 1) == Through(x) + {k}
    ensures Through(0) == {}
  {
    hide Through, Sets.Range;
    var k := if x < NDIRECT then x else x + 1;
    var p, q := Through(x + 1), Through(x) + {k};
    forall y: nat ensures y in p <==> y in q {
    }
  }

  lemma ThroughAll()
    ensures INDIRECT !in Through(MAXFILE) && Through(MAXFILE) + {INDIRECT} == Sets.Range(0, NSLOT)
  {
    hide Through, Sets.Range;
    var p, q := Through(MAXFILE) + {INDIRECT}, Sets.Range(0, NSLOT);
    forall y: nat ensures y in p <==> y in q {
    }
  }

  /** bread within itrunc */
  method FetchStage(fs: Fs, s: nat, ghost h0: seq<Block>, ghost i: nat, ghost slots: set<nat>, ghost budget: set<nat>)
    returns (bp: nat)
    requires Stage(fs, h0, i, slots, budget, 2) && fs.log.held == map[] && s < fs.log.start
    modifies fs.log.cache, fs.log.disk, fs.log`held
    ensures Stage(fs, h0, i, slots, budget, 1) && fs.log.held == map[bp := s]
  {
    hide L.Log.Valid, Geo, GetSuper, Emptying, Bitmap;
    fs.LoggedSize();
    bp := fs.log.Read(s);
  }

  /** brelse within itrunc */
  method ReleaseStage(fs: Fs, bp: nat, s: nat, ghost h0: seq<Block>, ghost i: nat, ghost slots: set<nat>,
                      ghost budget: set<nat>)
    requires Stage(fs, h0, i, slots, budget, 1) && fs.log.held == map[bp := s]
    modifies fs.log.cache, fs.log.disk, fs.log`held
    ensures Stage(fs, h0, i, slots, budget, 1) && fs.log.held == map[]
  {
    hide L.Log.Valid, Geo, GetSuper, Emptying, Bitmap;
    fs.log.Release(bp);
    L.PutBack(map[], bp, s);
  }

  /** The loop over the entries of the indirect block, which the caller holds in `bp`. */
  method FreeEntries(fs: Fs, bp: nat, ind: nat, ghost i: nat, ghost h0: seq<Block>, ghost budget: set<nat>)
    requires Stage(fs, h0, i, Through(NDIRECT), budget, 1) && fs.log.held == map[bp := ind]
    requires ind != 0 && i < |fs.T| && |fs.T[i].addrs| == NDIRECT + 1 && fs.T[i].addrs[INDIRECT] == ind
    modifies fs.log.cache, fs.log.disk, fs.log`held, fs.log`home, fs.log`edited, fs.log`logged, fs.log`n
    modifies fs.log`sector, fs.log`pin
    ensures Stage(fs, h0, i, Through(MAXFILE), budget, 1) && fs.log.held == map[bp := ind]
  {
    hide Stage, Through, L.Log.Valid, DataStart, SlotAddr, Word;
    var j := 0;
    while j < NINDIRECT
      invariant j <= NINDIRECT
      invariant Stage(fs, h0, i, Through(NDIRECT + j), budget, 1) && fs.log.held == map[bp := ind]
    {
      StageFacts(fs, h0, i, Through(NDIRECT + j), budget, 1);
      ThroughStep(NDIRECT + j);
      var a := fs.log.Buffer(bp);
      FreeSlot(fs, Word(a, j), INDIRECT + 1 + j, h0, i, Through(NDIRECT + j), budget, 1);
      j := j + 1;
    }
  }

  /** `bread(ind)`, the loop over its entries, `brelse` */
  method EmptyIndirect(fs: Fs, ind: nat, ghost h0: seq<Block>, ghost i: nat, ghost budget: set<nat>)
    requires Stage(fs, h0, i, Through(NDIRECT), budget, 2) && fs.log.held == map[]
    requires ind != 0 && i < |fs.T| && |fs.T[i].addrs| == NDIRECT + 1 && fs.T[i].addrs[INDIRECT] == ind
    modifies fs.log.cache, fs.log.disk, fs.log`held, fs.log`home, fs.log`edited, fs.log`logged, fs.log`n
    modifies fs.log`sector, fs.log`pin
    ensures Stage(fs, h0, i, Through(MAXFILE), budget, 1) && fs.log.held == map[]
  {
    hide Stage, Through, L.Log.Valid, DataStart, SlotAddr, Word;
    StageFacts(fs, h0, i, Through(NDIRECT), budget, 2);
    var bp := FetchStage(fs, ind, h0, i, Through(NDIRECT), budget);
    FreeEntries(fs, bp, ind, i, h0, budget);
    ReleaseStage(fs, bp, ind, h0, i, Through(MAXFILE), budget);
  }

  /** The rest of itrunc's work on the blocks: the entries of the indirect block, then the block itself. */
  method FreeIndirect(fs: Fs, ip: Inode, ghost h0: seq<Block>, ghost budget: set<nat>)
    requires Stage(fs, h0, ip.inum, Through(NDIRECT), budget, 2) && fs.log.held == map[]
    requires ip.inum < |fs.T| && |fs.T[ip.inum].addrs| == NDIRECT + 1
    requires |ip.addrs| == NDIRECT + 1 && ip.addrs[INDIRECT] == fs.T[ip.inum].addrs[INDIRECT] != 0
    modifies fs.log.cache, fs.log.disk, fs.log`held, fs.log`home, fs.log`edited, fs.log`logged, fs.log`n
    modifies fs.log`sector, fs.log`pin
    modifies ip`addrs
    ensures Stage(fs, h0, ip.inum, Sets.Range(0, NSLOT), budget, 1) && fs.log.held == map[]
    ensures ip.addrs == old(ip.addrs)[INDIRECT := 0]
  {
    hide Stage, Through, L.Log.Valid, DataStart, SlotAddr, Word;
    ghost var i := ip.inum;
    StageFacts(fs, h0, i, Through(NDIRECT), budget, 2);
    EmptyIndirect(fs, ip.addrs[INDIRECT], h0, i, budget);
    ThroughAll();
    StageFacts(fs, h0, i, Through(MAXFILE), budget, 1);
    FreeSlot(fs, ip.addrs[INDIRECT], INDIRECT, h0, i, Through(MAXFILE), budget, 1);
    ip.addrs := ip.addrs[INDIRECT := 0];
  }

  /**
   itrunc: the inode loses all its blocks and they become free; every other file
   stays as it is. "freeing free block" is never reached: each `Bfree` meets a
   marked block.
   */
  method Itrunc(fs: Fs, ip: Inode)
    requires fs.Consistent(ip.inum) && fs.Locked(ip)
    requires fs.log.held == map[] && fs.log.edited == {} && SB < |fs.log.home| && fs.Spare(2)
    modifies fs.log.cache, fs.log.disk, fs.log`held, fs.log`home, fs.log`edited, fs.log`logged, fs.log`n
    modifies fs.log`sector, fs.log`pin
    modifies ip`addrs, ip`size, fs`T, fs`owner
    ensures fs.Consistent(-1) && fs.Locked(ip) && fs.log.held == map[] && fs.log.edited == {}
    ensures fs.T == Emptied(old(fs.T), ip.inum)
    ensures fs.owner == old(fs.owner) - Dropped(old(fs.owner), ip.inum, Sets.Range(0, NSLOT))
    ensures WfTable(old(fs.log.home), old(fs.T)) && WfTable(fs.log.home, fs.T)
    ensures SuperOf(fs.log.home) == SuperOf(old(fs.log.home))
    ensures FD.OthersSame(old(fs.log.home), old(fs.T), fs.log.home, fs.T, ip.inum)
    ensures FD.NoHoles(old(fs.log.home), old(fs.T)) ==> FD.NoHoles(fs.log.home, fs.T)
    ensures fs.log.logged <= old(fs.Budget()) + {InodeBlock(ip.inum)}
  {
    hide Stage, FsOk, Through, L.Log.Valid, Geo, GetSuper, Emptying, Bitmap, DataStart, SlotAddr, Word;
    hide FD.OthersSame, FD.NoHoles, SameFiles, Dropped, Sets.Range;
    ghost var h0, i, T0, own0, budget := fs.log.home, ip.inum, fs.T, fs.owner, fs.Budget();
    FsFacts(h0, T0, own0, i);
    EmptyingStart(h0, T0, own0, i);
    ThroughStep(0);
    assert Stage(fs, h0, i, Through(0), budget, 2) by { StageStart(fs, h0, i, budget); }
    FreeDirect(fs, ip, h0, budget);
    if ip.addrs[NDIRECT] != 0 {
      FreeIndirect(fs, ip, h0, budget);
    } else {
      NoIndirect(fs, h0, i, budget);
    }
    ip.size := 0;
    assert ip.addrs == NoAddrs();
    Emptied1(fs, ip, h0, budget);
    ghost var h1 := fs.log.home;
    Iupdate(fs, ip);
    FilesAfter(h0, T0, h1, fs.log.home, fs.T, i);
  }

  lemma StageStart(fs: Fs, h0: seq<Block>, i: nat, budget: set<nat>)
    requires fs.Ready() && fs.log.edited == {} && SB < |fs.log.home| && fs.Spare(2) && fs.Budget() == budget
    requires Emptying(h0, fs.log.home, fs.T, fs.owner, i, {}) && |fs.T[i].addrs| == NDIRECT + 1
    ensures Stage(fs, h0, i, Through(0), budget, 2)
  {
    ThroughStep(0);
  }

  /** Without an indirect block the direct ones are all. */
  lemma NoIndirect(fs: Fs, h0: seq<Block>, i: nat, budget: set<nat>)
    requires Stage(fs, h0, i, Through(NDIRECT), budget, 2) && fs.T[i].addrs[INDIRECT] == 0
    ensures Stage(fs, h0, i, Sets.Range(0, NSLOT), budget, 1)
  {
    hide L.Log.Valid, Geo, GetSuper, Cleared, Through, Sets.Range, DataStart, SlotAddr, Bitmap;
    EmptyingFacts(h0, fs.log.home, fs.T, fs.owner, i, Through(NDIRECT));
    NoEntries(h0, fs.log.home, fs.T, fs.owner, i);
  }

  lemma NoEntries(h0: seq<Block>, home: seq<Block>, T: seq<Dinode>, owner: map<nat, Slot>, i: nat)
    requires Emptying(h0, home, T, owner, i, Through(NDIRECT)) && |T[i].addrs| == NDIRECT + 1
      && T[i].addrs[INDIRECT] == 0
    ensures Emptying(h0, home, T, owner, i, Sets.Range(0, NSLOT))
  {
    hide Geo, GetSuper, Cleared, Through, Sets.Range, DataStart, Used;
    var l, r := Dropped(owner, i, Through(NDIRECT)), Dropped(owner, i, Sets.Range(0, NSLOT));
    GeoFacts(h0);
    forall b ensures b in l <==> b in r {
      if b in owner && owner[b].0 == i {
        assert OwnedBy(h0, T, b, owner[b]);
      }
    }
    assert l == r;
  }

  /** The in-core inode is empty: so is the table's. */
  ghost method Emptied1(fs: Fs, ip: Inode, h0: seq<Block>, budget: set<nat>)
    requires Stage(fs, h0, ip.inum, Sets.Range(0, NSLOT), budget, 1)
    requires ip.inum < |fs.T| && ip.Dino() == fs.T[ip.inum].(addrs := NoAddrs(), size := 0)
    modifies fs`T, fs`owner
    ensures fs.T == Emptied(old(fs.T), ip.inum)
    ensures fs.owner == old(fs.owner) - Dropped(old(fs.owner), ip.inum, Sets.Range(0, NSLOT))
    ensures fs.Consistent(ip.inum) && fs.Locked(ip) && fs.log.edited == {} && fs.log.busy
    ensures WfTable(h0, old(fs.T)) && WfTable(fs.log.home, fs.T) && SuperOf(fs.log.home) == SuperOf(h0)
    ensures FD.OthersSame(h0, old(fs.T), fs.log.home, fs.T, ip.inum)
    ensures FD.NoHoles(h0, old(fs.T)) ==> FD.NoHoles(fs.log.home, fs.T)
    ensures |fs.log.logged| < L.LOGSIZE && |fs.log.logged| < fs.log.size - 1 && |fs.log.logged| + 1 < BufferCache.NBUF
    ensures fs.log.logged <= budget
  {
    hide L.Log.Valid, Geo, GetSuper, FsOk, Cleared, DataStart, SlotAddr, FD.OthersSame, FD.NoHoles, Bitmap;
    hide Sets.Range, Dropped, Emptied;
    fs.LoggedSize();
    EmptyingFacts(h0, fs.log.home, fs.T, fs.owner, ip.inum, Sets.Range(0, NSLOT));
    EmptiedOk(h0, fs.log.home, fs.T, fs.owner, ip.inum);
    FsFacts(h0, fs.T, fs.owner, ip.inum);
    ghost var T1 := Emptied(fs.T, ip.inum);
    FsFacts(fs.log.home, T1, fs.owner - Dropped(fs.owner, ip.inum, Sets.Range(0, NSLOT)), ip.inum);
    fs.owner := fs.owner - Dropped(fs.owner, ip.inum, Sets.Range(0, NSLOT));
    fs.T := T1;
    EmptiedAt(old(fs.T), ip.inum);
  }

  lemma EmptiedAt(T: seq<Dinode>, i: nat)
    requires i < |T|
    ensures |Emptied(T, i)| == |T| && Emptied(T, i)[i] == T[i].(addrs := NoAddrs(), size := 0)
  {
  }

  lemma FilesAfter(h0: seq<Block>, T0: seq<Dinode>, h1: seq<Block>, h2: seq<Block>, T1: seq<Dinode>, i: nat)
    requires WfTable(h0, T0) && WfTable(h1, T1) && WfTable(h2, T1)
    requires FD.OthersSame(h0, T0, h1, T1, i) && SameFiles(h1, h2, T1)
    ensures FD.OthersSame(h0, T0, h2, T1, i)
    ensures FD.NoHoles(h1, T1) ==> FD.NoHoles(h2, T1)
  {
    hide Geo, GetSuper, FD.FileByte, FD.Mapped, WfDinode;
  }

  /** The table with inode `i` free: no blocks, no bytes, type 0. */
  ghost function Freed(T: seq<Dinode>, i: nat): (r: seq<Dinode>)
    requires i < |T|
    ensures |r| == |T| && forall j | 0 <= j < |T| && j != i :: r[j] == T[j]
    ensures r[i].typ == 0 && r[i].size == 0 && |r[i].addrs| == 13 && forall k | 0 <= k < 13 :: r[i].addrs[k] == 0
  {
    T[i := T[i].(typ := 0, addrs := NoAddrs(), size := 0)]
  }

  lemma RetypeOk(home: seq<Block>, T: seq<Dinode>, owner: map<nat, Slot>, i: nat)
    requires FsOk(home, T, owner, -1) && i < |T|
    ensures FsOk(home, T[i := T[i].(typ := 0)], owner, i)
    ensures SameAddrs(home, T, T[i := T[i].(typ := 0)])
  {
    hide GetSuper, Geo, GetInode;
    var T1 := T[i := T[i].(typ := 0)];
    forall j, k | 0 <= j < |T| && 0 <= k < NSLOT ensures SlotAddr(home, T1, j, k) == SlotAddr(home, T, j, k) {
    }
  }

  /** Tables that differ in types only. */
  ghost predicate SameAddrs(home: seq<Block>, T0: seq<Dinode>, T1: seq<Dinode>) {
    && WfTable(home, T0) && WfTable(home, T1) && |T1| == |T0|
    && forall j | 0 <= j < |T0| :: T1[j].addrs == T0[j].addrs && T1[j].size == T0[j].size
  }

  lemma SameAddrsFiles(home: seq<Block>, T0: seq<Dinode>, T1: seq<Dinode>)
    requires SameAddrs(home, T0, T1)
    ensures forall j, p | 0 <= j < |T0| && 0 <= p < FD.MAXBYTES ::
      FD.FileByte(home, T1, j, p) == FD.FileByte(home, T0, j, p)
    ensures forall j, bn | 0 <= j < |T0| && 0 <= bn < MAXFILE ::
      FD.Mapped(home, T1, j, bn) == FD.Mapped(home, T0, j, bn)
    ensures FD.NoHoles(home, T0) ==> FD.NoHoles(home, T1)
  {
    hide Geo, GetSuper;
  }

  /** The type becomes 0 in the in-core inode and in the table. */
  method ClearType(fs: Fs, ip: Inode)
    requires fs.Consistent(-1) && fs.Locked(ip)
    modifies ip`typ, fs`T
    ensures fs.Consistent(ip.inum) && fs.Locked(ip)
    ensures ip.inum < |old(fs.T)| && fs.T == old(fs.T)[ip.inum := old(fs.T)[ip.inum].(typ := 0)]
    ensures SameAddrs(fs.log.home, old(fs.T), fs.T)
  {
    hide L.Log.Valid, Geo, FsOk, SameAddrs;
    RetypeOk(fs.log.home, fs.T, fs.owner, ip.inum);
    ip.typ := 0;
    fs.T := fs.T[ip.inum := fs.T[ip.inum].(typ := 0)];
  }

  /** iput of the last reference to an inode without links: empty it, then free it. */
  method IputLast(fs: Fs, ip: Inode)
    requires fs.Consistent(-1) && fs.Locked(ip) && ip.nlink == 0
    requires fs.log.held == map[] && fs.log.edited == {} && SB < |fs.log.home| && fs.Spare(3)
    modifies fs.log.cache, fs.log.disk, fs.log`held, fs.log`home, fs.log`edited, fs.log`logged, fs.log`n
    modifies fs.log`sector, fs.log`pin
    modifies ip`addrs, ip`size, ip`typ, fs`T, fs`owner
    ensures fs.Consistent(-1) && fs.Locked(ip) && fs.log.held == map[] && fs.log.edited == {}
    ensures fs.T == Freed(old(fs.T), ip.inum)
    ensures fs.owner == old(fs.owner) - Dropped(old(fs.owner), ip.inum, Sets.Range(0, NSLOT))
    ensures WfTable(old(fs.log.home), old(fs.T)) && WfTable(fs.log.home, fs.T)
    ensures SuperOf(fs.log.home) == SuperOf(old(fs.log.home))
    ensures FD.OthersSame(old(fs.log.home), old(fs.T), fs.log.home, fs.T, ip.inum)
    ensures FD.NoHoles(old(fs.log.home), old(fs.T)) ==> FD.NoHoles(fs.log.home, fs.T)
    ensures fs.log.logged <= old(fs.Budget()) + {InodeBlock(ip.inum)} && SB < |fs.log.home|
  {
    hide FsOk, L.Log.Valid, Geo, GetSuper, Bitmap, FD.OthersSame, FD.NoHoles, SameFiles, SameAddrs, Dropped;
    hide Sets.Range, Emptied;
    ghost var h0, i, T0, budget := fs.log.home, ip.inum, fs.T, fs.Budget();
    FsWeaken(h0, T0, fs.owner, i);
    FsFacts(h0, T0, fs.owner, i);
    RoomAfter(fs, i);
    Itrunc(fs, ip);
    EmptiedAt(T0, i);
    ghost var h1, T1 := fs.log.home, fs.T;
    Sets.SubsetSize(fs.log.logged, budget + {InodeBlock(i)});
    ClearType(fs, ip);
    FsFacts(h1, fs.T, fs.owner, i);
    Iupdate(fs, ip);
    GeoFacts(fs.log.home);
    FreedAfter(h0, T0, h1, fs.log.home, T1, fs.T, i);
  }

  lemma RoomAfter(fs: Fs, i: nat)
    requires SB < |fs.log.home| && fs.Spare(3) && fs.log.held == map[]
    ensures fs.Spare(2)
    ensures var n := |fs.Budget() + {InodeBlock(i)}|; n < L.LOGSIZE && n < fs.log.size - 1 && n + 1 < BufferCache.NBUF
  {
    Sets.UnionSize(fs.Budget(), {InodeBlock(i)});
  }

  lemma FreedAfter(h0: seq<Block>, T0: seq<Dinode>, h1: seq<Block>, h2: seq<Block>, T1: seq<Dinode>, T2: seq<Dinode>,
                   i: nat)
    requires WfTable(h0, T0) && WfTable(h1, T1) && WfTable(h1, T2) && WfTable(h2, T2) && i < |T0|
    requires T1 == Emptied(T0, i) && T2 == T1[i := T1[i].(typ := 0)] && SameAddrs(h1, T1, T2)
    requires FD.OthersSame(h0, T0, h1, T1, i) && SameFiles(h1, h2, T2)
    ensures T2 == Freed(T0, i) && FD.OthersSame(h0, T0, h2, T2, i)
    ensures FD.NoHoles(h1, T1) ==> FD.NoHoles(h2, T2)
  {
    hide Geo, GetSuper, WfDinode;
    SameAddrsFiles(h1, T1, T2);
    hide FD.FileByte, FD.Mapped;
  }

  /**
   fileclose of the last reference to a file whose inode has no links left: one
   transaction, and a crash anywhere in it leaves the inode with all its blocks
   or without any.
   */
  method CloseUnlinked(fs: Fs, ip: Inode)
    requires Idle(fs, ip) && ip.nlink == 0
    modifies fs, fs.log, fs.log.cache, fs.log.disk, ip`addrs, ip`size, ip`typ
    ensures Idle(fs, ip) && fs.T == Freed(old(fs.T), ip.inum)
    ensures fs.owner == old(fs.owner) - Dropped(old(fs.owner), ip.inum, Sets.Range(0, NSLOT))
    ensures WfTable(old(fs.log.home), old(fs.T)) && WfTable(fs.log.home, fs.T)
    ensures FD.OthersSame(old(fs.log.home), old(fs.T), fs.log.home, fs.T, ip.inum)
    ensures fs.log.start == old(fs.log.start) && fs.log.size == old(fs.log.size) && 0 < |old(fs.log.disk.trace)|
      && old(fs.log.disk.trace) <= fs.log.disk.trace
    ensures L.Atomic(fs.log.disk.trace, |old(fs.log.disk.trace)| - 1, fs.log.start, fs.log.size, old(fs.log.home),
        fs.log.home)
  {
    hide FsOk, L.Log.Valid, Geo, GetSuper, Bitmap, FD.OthersSame, FD.NoHoles, Dropped, Sets.Range, L.Atomic, Freed;
    hide WfTable;
    StartTrans(fs, ip);
    IputLast(fs, ip);
    EndTrans(fs, ip);
  }
}
