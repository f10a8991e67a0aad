/**
 Blocks and inode contents (fs.c) over the log.
 */
module Inodes {
  import opened Base
  import opened Blocks
  import opened Layout
  import L = RedoLog
  import BufferCache
  import Sets
  import opened Ownership

  /** Where balloc's scan ends: a home block, a block of the log area (which it would hand out as well), or nowhere. */
  datatype Alloc = Block(b: nat) | LogArea(b: nat) | Full

  /** `struct inode`: the in-core copy of an inode. */
  class Inode {
    const inum: nat
    var typ: nat
    var major: nat
    var minor: nat
    var nlink: nat
    var size: nat
    var addrs: seq<nat>

    constructor (inum: nat, d: Dinode)
      ensures this.inum == inum && Dino() == d
    {
      this.inum := inum;
      typ, major, minor, nlink, size, addrs := d.typ, d.major, d.minor, d.nlink, d.size, d.addrs;
    }

    function Dino(): Dinode
      reads this
    {
      Dinode(typ, major, minor, nlink, size, addrs)
    }
  }

  class Fs {
    const log: L.Log
    ghost var T: seq<Dinode>          // the inodes as the kernel sees them
    ghost var owner: map<nat, Slot>   // who owns which block

    constructor (l: L.Log)
      ensures log == l
    {
      log := l;
    }

    /** The invariant of the file system; the disk copy of inode `skip` may lag behind. */
    ghost predicate Consistent(skip: int)
      reads this, log, log.cache, log.disk
    {
      Ready() && FsOk(log.home, T, owner, skip)
    }

    /** `ip` is the locked, valid in-core inode that the table shows. */
    ghost predicate Locked(ip: Inode)
      reads this, ip
    {
      ip.inum < |T| && T[ip.inum] == ip.Dino()
    }

    /** The sectors that this transaction has logged or may log as bitmap blocks. */
    ghost function Budget(): set<nat>
      requires SB < |log.home|
      reads log
    {
      log.logged + Bitmap(SuperOf(log.home))
    }

    /** A transaction is running and can take `n` sectors besides those. */
    ghost predicate Spare(n: nat)
      requires SB < |log.home|
      reads log
    {
      && log.busy
      && BudgetSize(log.logged, SuperOf(log.home)) + |log.held| + n < BufferCache.NBUF
      && BudgetSize(log.logged, SuperOf(log.home)) + n <= L.LOGSIZE
      && BudgetSize(log.logged, SuperOf(log.home)) + n <= log.size - 1
    }

    /** A transaction is running and can take `n` more sectors. */
    ghost predicate Room(n: nat)
      reads log
    {
      && log.busy
      && |log.logged| + |log.held| + n < BufferCache.NBUF
      && |log.logged| + n <= L.LOGSIZE
      && |log.logged| + n <= log.size - 1
    }

    ghost predicate Ready()
      reads log, log.cache, log.disk
    {
      log.Valid() && Geo(log.home, log.start)
    }

    lemma BudgetFacts(s: nat)
      requires SB < |log.home| && s in Bitmap(SuperOf(log.home))
      ensures |log.logged| <= SizeWith(log.logged, s) <= BudgetSize(log.logged, SuperOf(log.home))
    {
      Sets.SubsetSize(log.logged, log.logged + {s});
      Sets.SubsetSize(log.logged + {s}, Budget());
    }

    lemma LoggedSize()
      requires SB < |log.home|
      ensures |log.logged| <= |Budget()| == BudgetSize(log.logged, SuperOf(log.home))
    {
      Sets.SubsetSize(log.logged, Budget());
    }

    method Readsb() returns (sb: Super)
      requires Ready() && |log.logged| + |log.held| < BufferCache.NBUF
      requires forall k | k in log.held :: log.held[k] != SB
      modifies log.cache, log.disk, log`held
      ensures Ready() && log.held == old(log.held) && log.disk.trace == old(log.disk.trace)
      ensures sb == SuperOf(log.home)
    {
      hide L.Log.Valid;
      log.ValidFacts();
      var data := log.Load(SB);
      sb := GetSuper(data);
    }

    /** bzero */
    method Bzero(bno: nat)
      requires Ready() && Room(1) && bno < log.start && bno != SB && log.edited == {}
      requires forall k | k in log.held :: log.held[k] != bno
      modifies log.cache, log.disk, log`held, log`home, log`edited, log`logged, log`n, log`sector, log`pin
      ensures log.Valid() && log.held == old(log.held) && log.edited == {}
      ensures bno < |old(log.home)| && log.home == old(log.home)[bno := Zeros()]
        && log.logged == old(log.logged) + {bno}
    {
      hide L.Log.Valid, Geo, GetSuper, Zeros;
      log.ValidFacts();
      var bp := log.Read(bno);
      log.Store(bp, Zeros());
      L.PinnedSum(log.logged, log.held);
      log.LogWrite(bp);
      log.Release(bp);
      L.PutBack(old(log.held), bp, bno);
    }

    /** Blocks in use when an allocator runs are data blocks marked in the bitmap. */
    ghost predicate HeldUsed()
      requires Ready()
      reads log, log.cache, log.disk
    {
      forall k | k in log.held :: DataStart(SuperOf(log.home)) <= log.held[k] < log.start && Used(log.home, log.held[k])
    }

    /** balloc: the first free block of the bitmap, marked and zeroed. */
    method Balloc() returns (r: Alloc)
      requires Ready() && HeldUsed() && Spare(1) && log.edited == {} && MetadataUsed(log.home)
      modifies log.cache, log.disk, log`held, log`home, log`edited, log`logged, log`n, log`sector, log`pin
      ensures Ready() && log.held == old(log.held) && log.edited == {}
      ensures !r.Block? ==> log.home == old(log.home) && log.logged == old(log.logged)
      ensures r.Block? <==> !UsedUpTo(old(log.home), log.start)
      ensures SB < |old(log.home)| && (r.Full? <==> UsedUpTo(old(log.home), SuperOf(old(log.home)).size))
      ensures r.LogArea? ==>
        log.start <= r.b < SuperOf(log.home).size && UsedUpTo(log.home, r.b) && !BitSet(log.home, r.b)
      ensures r.Block? ==> FreshBlock(old(log.home), log.home, r.b) && UsedUpTo(old(log.home), r.b)
      ensures r.Block? ==> log.logged == old(log.logged) + {BitBlock(SuperOf(old(log.home)), r.b), r.b}
    {
      hide L.Log.Valid, Geo, Used, FreshBlock, MetadataUsed, Marked, BitBlock, BitIndex, DataStart, Bit, Word;
      hide UsedUpTo, FirstOf, BudgetSize, SizeWith, BitSet;
      log.ValidFacts();
      ghost var h0 := log.home;
      GeoFacts(h0);
      LoggedSize();
      var sb := Readsb();
      UsedUpToMore(h0, 0, 0);
      FirstNext(0);
      var b := 0;
      while b < sb.size
        invariant Ready() && log.held == old(log.held) && log.edited == {} && log.home == h0
          && log.logged == old(log.logged)
        invariant FirstOf(b) && UsedUpTo(h0, b)
        decreases sb.size - b
      {
        FirstNext(b);
        r := BallocIn(b, sb);
        if !r.Full? {
          FirstFree(h0, r.b);
          return;
        }
        b := b + BPB;
      }
      UsedUpToMore(h0, log.start, b);
      UsedUpToMore(h0, sb.size, b);
      return Full;
    }

    /**
     `if((addr = ip->addrs[k]) == 0) ip->addrs[k] = addr = balloc(ip->dev)`, for a direct address
     or the indirect block.
     */
    method EnsureAddr(ip: Inode, k: nat) returns (r: Alloc)
      requires Consistent(ip.inum) && Locked(ip) && k <= INDIRECT
      requires log.held == map[] && log.edited == {} && |log.logged| < BufferCache.NBUF
        && (ip.addrs[k] != 0 || Spare(1))
      modifies log.cache, log.disk, log`held, log`home, log`edited, log`logged, log`n, log`sector, log`pin
      modifies ip`addrs, this`T, this`owner
      ensures Ready() && log.held == map[] && log.edited == {}
      ensures !r.Block? ==> UsedUpTo(log.home, log.start)
      ensures r.Block? ==>
        && Consistent(ip.inum) && Locked(ip) && r.b == ip.addrs[k] != 0
        && Extends(old(log.home), old(T), log.home, T, ip.inum)
        && Budget() <= old(Budget()) + {r.b}
      ensures old(ip.addrs[k]) != 0 ==>
        r == Block(old(ip.addrs[k])) && log.home == old(log.home) && T == old(T) && owner == old(owner)
          && log.logged == old(log.logged)
    {
      hide L.Log.Valid, Geo, Own, BitsOk, TableOk, Extends, FreshBlock, Used, UsedUpTo, MetadataUsed, GetSuper;
      hide Bitmap, WfDinode;
      FsFacts(log.home, T, owner, ip.inum);
      ExtendsRefl(log.home, T, ip.inum);
      if ip.addrs[k] != 0 {
        return Block(ip.addrs[k]);
      }
      ghost var h0, i := log.home, ip.inum;
      r := Balloc();
      if r.Block? {
        AllocSlotOk(h0, log.home, T, owner, i, k, r.b);
        ip.addrs := ip.addrs[k := r.b];
        T, owner := WithAddr(T, i, k, r.b), owner[r.b := (i, k)];
      }
    }

    /** The indirect half of bmap, once the indirect block is there: entry `x` of it, allocated if it is zero. */
    method EnsureEntry(ip: Inode, x: nat) returns (r: Alloc)
      requires Consistent(ip.inum) && Locked(ip) && x < NINDIRECT && |ip.addrs| == NDIRECT + 1
        && ip.addrs[INDIRECT] != 0
      requires log.held == map[] && log.edited == {} && |log.logged| < BufferCache.NBUF
      requires EntryAt(log.home, T, ip.inum, x) != 0 || Spare(3)
      modifies log.cache, log.disk, log`held, log`home, log`edited, log`logged, log`n, log`sector, log`pin
      modifies this`owner
      ensures Ready() && log.edited == {}
      ensures !r.Block? ==> UsedUpTo(log.home, log.start)
      ensures r.Block? ==>
        && log.held == map[] && Consistent(ip.inum) && Locked(ip)
        && GrewTo(old(log.home), T, log.home, T, ip.inum, INDIRECT + 1 + x, r.b)
        && Budget() <= old(Budget()) + {r.b, ip.addrs[INDIRECT]}
      ensures EntryAt(old(log.home), T, ip.inum, x) != 0 ==>
        && r == Block(EntryAt(old(log.home), T, ip.inum, x))
        && log.home == old(log.home) && owner == old(owner) && log.logged == old(log.logged)
    {
      hide L.Log.Valid, Geo, Own, BitsOk, TableOk, Extends, Used, UsedUpTo, GetSuper, Bitmap, WfDinode, Word;
      hide SlotAddr, FsOk, BudgetSize, DataStart;
      log.ValidFacts();
      FsFacts(log.home, T, owner, ip.inum);
      ExtendsRefl(log.home, T, ip.inum);
      ghost var i := ip.inum;
      IndirectFacts(log.home, T, owner, i, x);
      var bp := log.Read(ip.addrs[INDIRECT]);
      var addr := Word(log.Buffer(bp), x);
      r := Block(addr);
      if addr == 0 {
        r := NewEntry(bp, ip, x);
        if !r.Block? {
          return;
        }
      }
      FsFacts(log.home, T, owner, i);
      log.Release(bp);
      L.PutBack(map[], bp, ip.addrs[INDIRECT]);
    }

    /** `a[bn] = addr = balloc(ip->dev); log_write(bp);` with the indirect block held in `bp`. */
    method NewEntry(bp: nat, ip: Inode, x: nat) returns (r: Alloc)
      requires Consistent(ip.inum) && Locked(ip) && x < NINDIRECT && |ip.addrs| == NDIRECT + 1
        && ip.addrs[INDIRECT] != 0
      requires SlotAddr(log.home, T, ip.inum, INDIRECT + 1 + x) == 0
      requires log.held == map[bp := ip.addrs[INDIRECT]] && log.edited == {} && Spare(2)
      modifies log.cache, log.disk, log`held, log`home, log`edited, log`logged, log`n, log`sector, log`pin
      modifies this`owner
      ensures Ready() && log.edited == {}
      ensures !r.Block? ==> UsedUpTo(log.home, log.start)
      ensures r.Block? ==>
        && log.held == old(log.held) && Consistent(ip.inum)
        && r.b == SlotAddr(log.home, T, ip.inum, INDIRECT + 1 + x) != 0
        && Extends(old(log.home), T, log.home, T, ip.inum)
        && Budget() <= old(Budget()) + {r.b, ip.addrs[INDIRECT]}
    {
      hide L.Log.Valid, Geo, Own, BitsOk, TableOk, Extends, FreshBlock, Used, UsedUpTo, MetadataUsed, GetSuper;
      hide Bitmap, WfDinode, Word;
      log.ValidFacts();
      FsFacts(log.home, T, owner, ip.inum);
      ghost var h0, i := log.home, ip.inum;
      IndirectFacts(h0, T, owner, i, x);
      ghost var l0 := log.logged;
      r := Balloc();
      if r.Block? {
        AllocEntryOk(h0, log.home, T, owner, i, x, r.b);
        LoggedAfter(l0, Bitmap(SuperOf(h0)), BitBlock(SuperOf(h0), r.b), r.b);
        EntryAfter(bp, x, r.b);
        owner := owner[r.b := (i, INDIRECT + 1 + x)];
      }
    }

    /** `a[bn] = addr; log_write(bp);` */
    method EntryAfter(bp: nat, x: nat, b: nat)
      requires Ready() && log.busy && bp in log.held && log.edited == {} && x < NINDIRECT && b < UINT
      requires SB < log.held[bp] < |log.home|
      requires |log.logged| + |log.held| < BufferCache.NBUF && |log.logged| < L.LOGSIZE && |log.logged| < log.size - 1
      modifies log.cache, log.disk, log`home, log`edited, log`logged, log`n, log`sector, log`pin
      ensures log.Valid() && log.edited == {} && log.logged == old(log.logged) + {log.held[bp]}
      ensures log.home == WithEntry(old(log.home), log.held[bp], x, b)
    {
      hide L.Log.Valid, Word, Geo;
      log.ValidFacts();
      log.Store(bp, SetWord(log.Buffer(bp), x, b));
      L.PinnedSum(log.logged, log.held);
      log.LogWrite(bp);
    }

    /** bmap: the address of block `bn` of the file, allocated if there is none yet. */
    method Bmap(ip: Inode, bn: nat) returns (r: Alloc)
      requires Consistent(ip.inum) && Locked(ip) && bn < MAXFILE
      requires log.held == map[] && log.edited == {} && |log.logged| < BufferCache.NBUF && (Mapped(ip, bn) || Spare(4))
      modifies log.cache, log.disk, log`held, log`home, log`edited, log`logged, log`n, log`sector, log`pin
      modifies ip`addrs, this`T, this`owner
      ensures Ready() && log.edited == {}
      ensures !r.Block? ==> UsedUpTo(log.home, log.start)
      ensures r.Block? ==>
        && log.held == map[] && Consistent(ip.inum) && Locked(ip)
        && r.b == SlotAddr(log.home, T, ip.inum, FileSlot(bn)) != 0
        && Extends(old(log.home), old(T), log.home, T, ip.inum)
        && |ip.addrs| == NDIRECT + 1
        && Budget() <= old(Budget()) + {r.b} + (if bn < NDIRECT then {} else {ip.addrs[INDIRECT]})
      ensures old(Mapped(ip, bn)) ==>
        r.Block? && log.home == old(log.home) && T == old(T) && owner == old(owner) && log.logged == old(log.logged)
    {
      hide L.Log.Valid, Geo, Own, BitsOk, TableOk, Extends, Used, UsedUpTo, GetSuper, Bitmap, Word;
      FsFacts(log.home, T, owner, ip.inum);
      SlotDirect(log.home, T, ip.inum, INDIRECT);
      if bn < NDIRECT {
        SlotDirect(log.home, T, ip.inum, bn);
        r := EnsureAddr(ip, bn);
        return;
      }
      ghost var h0, T0, i, b0 := log.home, T, ip.inum, Budget();
      r := EnsureAddr(ip, INDIRECT);
      if !r.Block? {
        return;
      }
      FsFacts(log.home, T, owner, ip.inum);
      ghost var h1, T1, b1 := log.home, T, Budget();
      MoreBudget(b0, b1, r.b);
      LoggedSize();
      r := EnsureEntry(ip, bn - NDIRECT);
      if r.Block? {
        ExtendsTrans(h0, T0, h1, T1, log.home, T, i);
      }
    }

    /** Whether block `bn` of the file has an address already. */
    ghost predicate Mapped(ip: Inode, bn: nat)
      requires Consistent(ip.inum) && Locked(ip) && bn < MAXFILE
      reads this, ip, log, log.cache, log.disk
    {
      SlotAddr(log.home, T, ip.inum, FileSlot(bn)) != 0
    }

    /**
     One round of the outer loop of balloc, for the bitmap block that starts with block `b`; Full
     means it has no clear bit.
     */
    method BallocIn(b: nat, sb: Super) returns (r: Alloc)
      requires Ready() && HeldUsed() && Spare(1) && log.edited == {} && MetadataUsed(log.home)
      requires sb == SuperOf(log.home) && FirstOf(b) && b < sb.size && UsedUpTo(log.home, b)
      modifies log.cache, log.disk, log`held, log`home, log`edited, log`logged, log`n, log`sector, log`pin
      ensures Ready() && log.held == old(log.held) && log.edited == {}
      ensures !r.Block? ==> log.home == old(log.home) && log.logged == old(log.logged)
      ensures !r.Full? ==> r.b < sb.size && UsedUpTo(old(log.home), r.b) && !BitSet(old(log.home), r.b)
      ensures (r.LogArea? ==> log.start <= r.b) && (r.Block? ==> r.b < log.start)
      ensures r.Full? ==> UsedUpTo(old(log.home), b + BPB)
      ensures r.Block? ==> FreshBlock(old(log.home), log.home, r.b) && UsedUpTo(old(log.home), r.b)
      ensures r.Block? ==> log.logged == old(log.logged) + {BitBlock(SuperOf(old(log.home)), r.b), r.b}
    {
      hide L.Log.Valid, Geo, Used, FreshBlock, MetadataUsed, Marked, BitBlock, BitIndex, DataStart, Bit, Word;
      hide UsedUpTo, FirstOf, BudgetSize, SizeWith, BitSet, HeldUsed, GetSuper, Bitmap, HeldIn;
      log.ValidFacts();
      ghost var h0, held0 := log.home, log.held;
      GeoFacts(h0);
      BitFacts(h0, b);
      BudgetFacts(BitBlock(sb, b));
      HeldApart(BitBlock(sb, b));
      var bp := log.Read(BitBlock(sb, b));
      var bi := FirstClear(bp, b, sb);
      if bi < BPB && b + bi < sb.size {
        BitAt(h0, b, bi);
        if b + bi < log.start {
          L.PutBack(held0, bp, BitBlock(sb, b));
          HeldFree(h0, held0, b + bi);
          Take(bp, b + bi, bi);
          return Block(b + bi);
        }
        r := LogArea(b + bi);
      } else {
        r := Full;
      }
      log.Release(bp);
      L.PutBack(held0, bp, BitBlock(sb, b));
    }

    lemma HeldApart(s: nat)
      requires Ready() && HeldUsed()
      ensures s < DataStart(SuperOf(log.home)) ==> forall k | k in log.held :: log.held[k] != s
      ensures HeldIn(log.home, log.held)
    {
      hide L.Log.Valid, GetSuper, Used, DataStart;
    }

    /**
     The inner loop of balloc: the first clear bit of the bitmap block held in `bp` that stands for
     a block of the disk.
     */
    method FirstClear(bp: nat, b: nat, sb: Super) returns (bi: nat)
      requires Ready() && bp in log.held && sb == SuperOf(log.home) && FirstOf(b) && b < sb.size
      requires log.held[bp] == BitBlock(sb, b)
      requires UsedUpTo(log.home, b)
      ensures bi <= BPB && b + bi <= sb.size && UsedUpTo(log.home, b + bi)
      ensures bi < BPB && b + bi < sb.size ==> !BitSet(log.home, b + bi)
      ensures bi < BPB && b + bi < log.start ==> b + bi < |log.home| && !Used(log.home, b + bi)
      ensures bi == BPB || b + bi == sb.size ==> UsedUpTo(log.home, b + BPB)
    {
      hide L.Log.Valid, Geo, Used, BitBlock, BitIndex, DataStart, Bit, Word, FirstOf, BitSet;
      log.ValidFacts();
      GeoFacts(log.home);
      bi := 0;
      while bi < BPB && b + bi < sb.size
        invariant bi <= BPB && b + bi <= sb.size && UsedUpTo(log.home, b + bi)
      {
        BitAt(log.home, b, bi);
        if !Bit(log.Buffer(bp), bi) {
          break;
        }
        bi := bi + 1;
      }
      if bi == BPB || b + bi == sb.size {
        UsedUpToMore(log.home, b + BPB, b + bi);
      }
    }

    /** The end of balloc: mark block `b` in the bitmap block held in `bp`, log and release it, and zero the block. */
    method Take(bp: nat, b: nat, bi: nat)
      requires Ready() && bp in log.held && log.busy && log.edited == {} && b < log.start
      requires SizeWith(log.logged, log.held[bp]) + |log.held| < BufferCache.NBUF
      requires SizeWith(log.logged, log.held[bp]) < L.LOGSIZE && SizeWith(log.logged, log.held[bp]) < log.size - 1
      requires bi == BitIndex(b) && log.held[bp] == BitBlock(SuperOf(log.home), b)
      requires MetadataUsed(log.home) && b < |log.home| && !Used(log.home, b)
      requires forall k | k in log.held && k != bp :: log.held[k] != b
      modifies log.cache, log.disk, log`held, log`home, log`edited, log`logged, log`n, log`sector, log`pin
      ensures Ready() && log.held == old(log.held) - {bp} && log.edited == {}
      ensures FreshBlock(old(log.home), log.home, b)
      ensures log.logged == old(log.logged) + {BitBlock(SuperOf(old(log.home)), b), b}
    {
      hide L.Log.Valid, Geo, PutBlockBit, Word, Used, FreshBlock, MetadataUsed, DataStart, BitIndex, BitBlock;
      log.ValidFacts();
      MarkedFacts(log.home, b, true);
      TakenBlock(log.home, b);
      Sets.SubsetSize(log.logged, log.logged + {log.held[bp]});
      log.Store(bp, PutBlockBit(log.Buffer(bp), bi, true));
      L.PinnedSum(log.logged, log.held);
      log.LogWrite(bp);
      log.Release(bp);
      Bzero(b);
      log.ValidFacts();
    }
  }

  /** The buffers in use are of blocks marked in the bitmap. */
  ghost predicate HeldIn(home: seq<Block>, held: map<nat, nat>)
    requires Geo(home, |home|)
  {
    forall k | k in held :: held[k] < |home| && Used(home, held[k])
  }

  lemma HeldFree(home: seq<Block>, held: map<nat, nat>, b: nat)
    requires Geo(home, |home|) && HeldIn(home, held) && b < |home| && !Used(home, b)
    ensures forall k | k in held :: held[k] != b
  {
    hide Geo, Used;
  }

  /** No block below `n` is free according to the bitmap. */
  ghost predicate UsedUpTo(home: seq<Block>, n: nat)
    requires Geo(home, |home|)
  {
    forall b | 0 <= b < n && b < SuperOf(home).size :: BitSet(home, b)
  }

  lemma UsedUpToMore(home: seq<Block>, m: nat, n: nat)
    requires Geo(home, |home|) && (n == 0 || UsedUpTo(home, n)) && (m <= n || SuperOf(home).size <= n)
    ensures UsedUpTo(home, m)
  {
    hide BitSet;
  }

  /** The first clear bit tells whether there is a free block among the home blocks, or anywhere. */
  lemma FirstFree(home: seq<Block>, b: nat)
    requires Geo(home, |home|) && b < SuperOf(home).size && UsedUpTo(home, b) && !BitSet(home, b)
    ensures forall n: nat :: UsedUpTo(home, n) <==> n <= b
  {
    hide BitSet;
  }

  ghost predicate MetadataUsed(home: seq<Block>)
    requires Geo(home, |home|)
  {
    forall b | 0 <= b < DataStart(SuperOf(home)) :: b < |home| && Used(home, b)
  }

  lemma GeoFacts(home: seq<Block>)
    requires Geo(home, |home|)
    ensures SB < |home| && var sb := SuperOf(home); SB < DataStart(sb) <= |home| <= sb.size
  {
  }

  lemma BitFacts(home: seq<Block>, b: nat)
    requires Geo(home, |home|) && b < SuperOf(home).size
    ensures SB < BitBlock(SuperOf(home), b) < DataStart(SuperOf(home)) <= |home|
    ensures BitBlock(SuperOf(home), b) in Bitmap(SuperOf(home))
  {
  }

  lemma BitAt(home: seq<Block>, b: nat, bi: nat)
    requires Geo(home, |home|) && FirstOf(b) && bi < BPB && b + bi < SuperOf(home).size
    ensures BitIndex(b + bi) == bi && BitBlock(SuperOf(home), b) == BitBlock(SuperOf(home), b + bi) < |home|
    ensures b + bi < |home| ==> (Used(home, b + bi) <==> Bit(home[BitBlock(SuperOf(home), b)], bi))
    ensures BitSet(home, b + bi) <==> Bit(home[BitBlock(SuperOf(home), b)], bi)
  {
    hide Word;
    assert (b + bi) / BPB == b / BPB && (b + bi) % BPB == bi;
  }

  lemma FirstNext(b: nat)
    ensures FirstOf(0) && (FirstOf(b) ==> FirstOf(b + BPB))
  {
  }

  lemma TakenBlock(home: seq<Block>, b: nat)
    requires Geo(home, |home|) && MetadataUsed(home) && b < |home| && !Used(home, b)
    ensures DataStart(SuperOf(home)) <= b
    ensures FreshBlock(home, Marked(home, b, true)[b := Zeros()], b)
    ensures Geo(Marked(home, b, true)[b := Zeros()], |home|)
  {
    hide Word, PutBlockBit, Bit;
    assert DataStart(SuperOf(home)) <= b;
    MarkedFacts(home, b, true);
  }

  lemma MarkedFacts(home: seq<Block>, b: nat, on: bool)
    requires Geo(home, |home|) && b < |home|
    ensures SB < BitBlock(SuperOf(home), b) < DataStart(SuperOf(home)) <= |home|
    ensures Geo(Marked(home, b, on), |home|) && SuperOf(Marked(home, b, on)) == SuperOf(home)
  {
    hide Word, PutBlockBit;
    BitFacts(home, b);
  }

  ghost function SizeWith(logged: set<nat>, s: nat): nat {
    |logged + {s}|
  }

  ghost function BudgetSize(logged: set<nat>, sb: Super): nat {
    |logged + Bitmap(sb)|
  }

  ghost predicate FsOk(home: seq<Block>, T: seq<Dinode>, owner: map<nat, Slot>, skip: int) {
    && |home| <= UINT && WfTable(home, T) && Own(home, T, owner) && BitsOk(home, owner.Keys) && TableOk(home, T, skip)
  }

  lemma FsFacts(home: seq<Block>, T: seq<Dinode>, owner: map<nat, Slot>, i: nat)
    requires FsOk(home, T, owner, i) && i < |T|
    ensures WfTable(home, T) && |home| <= UINT
    ensures SB < |home| && MetadataUsed(home) && WfDinode(T[i]) && |T[i].addrs| == NDIRECT + 1
  {
    GeoFacts(home);
  }

  lemma AllocSlotOk(h0: seq<Block>, h1: seq<Block>, T: seq<Dinode>, owner: map<nat, Slot>, i: nat, k: nat, b: nat)
    requires FsOk(h0, T, owner, i) && FreshBlock(h0, h1, b) && i < |T| && k <= INDIRECT && T[i].addrs[k] == 0
    ensures |h1| == |h0| && b != 0 && SB < |h1| && SuperOf(h1) == SuperOf(h0)
      && BitBlock(SuperOf(h0), b) in Bitmap(SuperOf(h0))
    ensures FsOk(h1, WithAddr(T, i, k, b), owner[b := (i, k)], i)
    ensures Extends(h0, T, h1, WithAddr(T, i, k, b), i)
  {
    hide Own, BitsOk, TableOk, Extends, Used, Geo, GetSuper, Bitmap, BitBlock, DataStart;
    FreshFacts(h0, h1, b);
    AllocSlot(h0, h1, T, owner, i, k, b);
    GeoFacts(h0);
    BitFacts(h0, b);
    assert owner[b := (i, k)].Keys == owner.Keys + {b};
    TableExtends(h0, T, h1, WithAddr(T, i, k, b), i);
  }

  lemma TableExtends(h0: seq<Block>, T0: seq<Dinode>, h1: seq<Block>, T1: seq<Dinode>, i: nat)
    requires WfTable(h0, T0) && WfTable(h1, T1) && Extends(h0, T0, h1, T1, i) && TableOk(h0, T0, i)
    ensures TableOk(h1, T1, i)
  {
  }

  /** Entry `x` of the indirect block of inode `i`. */
  ghost function EntryAt(home: seq<Block>, T: seq<Dinode>, i: nat, x: nat): nat {
    if i < |T| && |T[i].addrs| == NDIRECT + 1 && x < NINDIRECT then SlotAddr(home, T, i, INDIRECT + 1 + x) else 0
  }

  /** The step only added blocks, and slot `k` of inode `i` now holds `b`. */
  ghost predicate GrewTo(h0: seq<Block>, T0: seq<Dinode>, h1: seq<Block>, T1: seq<Dinode>, i: nat, k: nat, b: nat) {
    && WfTable(h0, T0) && WfTable(h1, T1) && Extends(h0, T0, h1, T1, i) && k < NSLOT && i < |T1|
    && b == SlotAddr(h1, T1, i, k) != 0
  }

  lemma IndirectFacts(home: seq<Block>, T: seq<Dinode>, owner: map<nat, Slot>, i: nat, x: nat)
    requires FsOk(home, T, owner, i) && i < |T| && x < NINDIRECT && |T[i].addrs| == NDIRECT + 1
      && T[i].addrs[INDIRECT] != 0
    ensures SB < |home| && DataStart(SuperOf(home)) <= T[i].addrs[INDIRECT] < |home| && Used(home, T[i].addrs[INDIRECT])
    ensures SB < DataStart(SuperOf(home))
    ensures SlotAddr(home, T, i, INDIRECT + 1 + x) == Word(home[T[i].addrs[INDIRECT]], x)
  {
    hide Used, Geo, GetSuper, Word, DataStart;
    IndirectOwned(home, T, owner, i);
    GeoFacts(home);
  }

  lemma AllocEntryOk(h0: seq<Block>, h1: seq<Block>, T: seq<Dinode>, owner: map<nat, Slot>, i: nat, x: nat, b: nat)
    requires FsOk(h0, T, owner, i) && FreshBlock(h0, h1, b) && i < |T| && x < NINDIRECT
    requires T[i].addrs[INDIRECT] != 0 && SlotAddr(h0, T, i, INDIRECT + 1 + x) == 0
    ensures |h1| == |h0| && SB < |h1| && SuperOf(h1) == SuperOf(h0) && BitBlock(SuperOf(h0), b) in Bitmap(SuperOf(h0))
    ensures T[i].addrs[INDIRECT] < |h1| && 0 < b < UINT
    ensures var h2 := WithEntry(h1, T[i].addrs[INDIRECT], x, b);
      && FsOk(h2, T, owner[b := (i, INDIRECT + 1 + x)], i) && SuperOf(h2) == SuperOf(h0)
      && SlotAddr(h2, T, i, INDIRECT + 1 + x) == b
      && Extends(h0, T, h2, T, i)
  {
    hide Own, BitsOk, TableOk, Used, Geo, GetSuper, Bitmap, BitBlock, DataStart, SlotAddr, Word;
    FreshFacts(h0, h1, b);
    AllocEntry(h0, h1, T, owner, i, x, b);
    GeoFacts(h0);
    BitFacts(h0, b);
    assert owner[b := (i, INDIRECT + 1 + x)].Keys == owner.Keys + {b};
    TableExtends(h0, T, WithEntry(h1, T[i].addrs[INDIRECT], x, b), T, i);
  }

  /** One allocation adds one sector to those budgeted for. */
  lemma LoggedAfter(logged: set<nat>, bitmap: set<nat>, bb: nat, b: nat)
    requires bb in bitmap
    ensures |logged + {bb, b}| <= |logged + bitmap| + 1
    ensures logged + {bb, b} + bitmap == logged + bitmap + {b}
  {
    Sets.SubsetSize(logged + {bb, b}, logged + bitmap + {b});
  }

  lemma MoreBudget(b0: set<nat>, b1: set<nat>, b: nat)
    requires b1 <= b0 + {b}
    ensures |b1| <= |b0| + 1
  {
    Sets.SubsetSize(b1, b0 + {b});
  }

  lemma ExtendsTrans(h0: seq<Block>, T0: seq<Dinode>, h1: seq<Block>, T1: seq<Dinode>, h2: seq<Block>,
                     T2: seq<Dinode>, i: nat)
    requires WfTable(h0, T0) && WfTable(h1, T1) && WfTable(h2, T2)
    requires Extends(h0, T0, h1, T1, i) && Extends(h1, T1, h2, T2, i)
    ensures Extends(h0, T0, h2, T2, i)
  {
    hide Geo, GetSuper, SlotAddr, WfDinode;
  }
}
