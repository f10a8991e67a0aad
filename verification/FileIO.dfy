/**
 Reading and writing files (fs.c readi, writei, iupdate) and the transactions
 of filewrite (file.c).
 */
module FileIO {
  import opened Base
  import opened Blocks
  import opened Layout
  import opened Ownership
  import opened Inodes
  import FD = FileData
  import L = RedoLog
  import BufferCache
  import Sets

  /** iupdate's copy of the in-core inode into an inode block. */
  method PutInode(b0: Block, k: nat, ip: Inode) returns (b: Block)
    requires k < IPB && WfDinode(ip.Dino())
    ensures GetInode(b, k) == ip.Dino()
    ensures forall j | 0 <= j < IPB && j != k :: GetInode(b, j) == GetInode(b0, j)
  {
    hide Word;
    b := SetWord(b0, 16*k, ip.typ + ip.major * SHORT);
    b := SetWord(b, 16*k + 1, ip.minor + ip.nlink * SHORT);
    b := SetWord(b, 16*k + 2, ip.size);
    var j := 0;
    while j <= NDIRECT
      invariant j <= NDIRECT + 1
      invariant Word(b, 16*k) == ip.typ + ip.major * SHORT && Word(b, 16*k + 1) == ip.minor + ip.nlink * SHORT
      invariant Word(b, 16*k + 2) == ip.size
      invariant forall m: nat | m < j :: Word(b, 16*k + 3 + m) == ip.addrs[m]
      invariant forall w: nat | w < WORDS && !(16*k <= w < 16*k + 16) :: Word(b, w) == Word(b0, w)
    {
      b := SetWord(b, 16*k + 3 + j, ip.addrs[j]);
      j := j + 1;
    }
    assert Addrs(b, k) == ip.addrs;
    Shorts(ip.typ, ip.major);
    Shorts(ip.minor, ip.nlink);
    forall j | 0 <= j < IPB && j != k ensures GetInode(b, j) == GetInode(b0, j) {
      SameInode(b, b0, j);
    }
  }

  lemma Shorts(lo: nat, hi: nat)
    requires lo < SHORT && hi < SHORT
    ensures lo + hi * SHORT < UINT && (lo + hi * SHORT) % SHORT == lo && (lo + hi * SHORT) / SHORT == hi
  {
  }

  /** Same files: every byte and every mapping of every inode. */
  ghost predicate SameFiles(h0: seq<Block>, h1: seq<Block>, T: seq<Dinode>)
    requires WfTable(h0, T) && WfTable(h1, T)
  {
    && (forall j, p | 0 <= j < |T| && 0 <= p < FD.MAXBYTES :: FD.FileByte(h1, T, j, p) == FD.FileByte(h0, T, j, p))
    && (forall j, bn | 0 <= j < |T| && 0 <= bn < MAXFILE :: FD.Mapped(h1, T, j, bn) == FD.Mapped(h0, T, j, bn))
  }

  lemma InodePlace(home: seq<Block>, T: seq<Dinode>, i: nat)
    requires WfTable(home, T) && i < |T|
    ensures SB < InodeBlock(i) < SuperOf(home).ninodes / IPB + 3 < DataStart(SuperOf(home)) <= |home|
  {
    hide GetSuper;
  }

  /** Writing inode `i` back makes its disk copy current and changes no file. */
  lemma InodeWrite(home: seq<Block>, T: seq<Dinode>, owner: map<nat, Slot>, i: nat, data: Block)
    requires FsOk(home, T, owner, i) && i < |T|
    requires GetInode(data, i % IPB) == T[i]
    requires InodeBlock(i) < |home| && forall j | 0 <= j < IPB && j != i % IPB ::
      GetInode(data, j) == GetInode(home[InodeBlock(i)], j)
    ensures FsOk(home[InodeBlock(i) := data], T, owner, -1)
    ensures SuperOf(home[InodeBlock(i) := data]) == SuperOf(home)
    ensures SameFiles(home, home[InodeBlock(i) := data], T)
  {
    var h1 := home[InodeBlock(i) := data];
    InodePlace(home, T, i);
    MetaFrame(home, T, owner, InodeBlock(i), data);
    hide GetSuper, Geo, Own, BitsOk, GetInode, DataStart, SlotAddr;
    forall j | 0 <= j < |T| ensures InodeBlock(j) < |h1| && GetInode(h1[InodeBlock(j)], j % IPB) == T[j] {
      InodePlace(home, T, j);
      SameIndex(i, j);
      assert j != i ==> InodeBlock(j) < |home| && GetInode(home[InodeBlock(j)], j % IPB) == T[j];
    }
  }

  lemma SameIndex(i: nat, j: nat)
    ensures InodeBlock(i) == InodeBlock(j) && i % IPB == j % IPB ==> i == j
  {
  }

  lemma MetaFrame(home: seq<Block>, T: seq<Dinode>, owner: map<nat, Slot>, s: nat, data: Block)
    requires WfTable(home, T) && Own(home, T, owner) && BitsOk(home, owner.Keys)
    requires SB < s < SuperOf(home).ninodes / IPB + 3 < DataStart(SuperOf(home)) && s < |home|
    ensures WfTable(home[s := data], T) && SuperOf(home[s := data]) == SuperOf(home)
    ensures Own(home[s := data], T, owner) && BitsOk(home[s := data], owner.Keys)
    ensures SameFiles(home, home[s := data], T)
  {
    var h1 := home[s := data];
    assert Geo(h1, |h1|) && SuperOf(h1) == SuperOf(home) by { hide GetSuper; }
    hide GetSuper, Geo, DataStart, Word, Bit;
    forall b | 0 <= b < |home| ensures Used(h1, b) == Used(home, b) {
      BitRange(home, b);
    }
    forall j, m | 0 <= j < |T| && 0 <= m < NSLOT ensures SlotAddr(h1, T, j, m) == SlotAddr(home, T, j, m) {
      if T[j].addrs[INDIRECT] != 0 {
        IndirectOwned(home, T, owner, j);
      }
    }
    SlotsGiveFiles(home, h1, T, owner);
  }

  lemma SlotsGiveFiles(h0: seq<Block>, h1: seq<Block>, T: seq<Dinode>, owner: map<nat, Slot>)
    requires WfTable(h0, T) && WfTable(h1, T) && Own(h0, T, owner) && |h1| == |h0| && SuperOf(h1) == SuperOf(h0)
    requires forall s | DataStart(SuperOf(h0)) <= s < |h0| :: h1[s] == h0[s]
    requires forall j, m | 0 <= j < |T| && 0 <= m < NSLOT :: SlotAddr(h1, T, j, m) == SlotAddr(h0, T, j, m)
    ensures SameFiles(h0, h1, T)
  {
    hide Geo, GetSuper, SlotAddr, DataStart;
  }

  /** iupdate */
  method Iupdate(fs: Fs, ip: Inode)
    requires fs.Consistent(ip.inum) && fs.Locked(ip)
    requires fs.log.held == map[] && fs.log.edited == {} && fs.log.busy
    requires |fs.log.logged| < L.LOGSIZE && |fs.log.logged| < fs.log.size - 1 && |fs.log.logged| + 1 < BufferCache.NBUF
    modifies fs.log.cache, fs.log.disk, fs.log`held, fs.log`home, fs.log`edited, fs.log`logged, fs.log`n
    modifies fs.log`sector, fs.log`pin
    ensures fs.Consistent(-1) && fs.log.held == map[] && fs.log.edited == {}
    ensures SB < |old(fs.log.home)| && WfTable(fs.log.home, fs.T) && SuperOf(fs.log.home) == SuperOf(old(fs.log.home))
    ensures SameFiles(old(fs.log.home), fs.log.home, fs.T)
    ensures fs.log.logged == old(fs.log.logged) + {InodeBlock(ip.inum)}
  {
    hide L.Log.Valid, Geo, GetSuper, Own, BitsOk, TableOk, GetInode, SameFiles, WfDinode;
    fs.log.ValidFacts();
    FsFacts(fs.log.home, fs.T, fs.owner, ip.inum);
    ghost var h0, i := fs.log.home, ip.inum;
    InodePlace(h0, fs.T, i);
    var bp := fs.log.Read(InodeBlock(ip.inum));
    var b := PutInode(fs.log.Buffer(bp), ip.inum % IPB, ip);
    fs.log.Store(bp, b);
    L.PinnedSum(fs.log.logged, fs.log.held);
    fs.log.LogWrite(bp);
    fs.log.Release(bp);
    L.PutBack(map[], bp, InodeBlock(i));
    fs.log.ValidFacts();
    InodeWrite(h0, fs.T, fs.owner, i, b);
  }

  /** readi of a regular file or directory: -1, or the number of bytes copied to `dst`. Nothing is allocated. */
  method Readi(fs: Fs, ip: Inode, dst: array<byte>, off0: nat, n0: nat) returns (r: int)
    requires fs.Consistent(-1) && fs.Locked(ip) && FD.NoHoles(fs.log.home, fs.T)
    requires fs.log.held == map[] && fs.log.edited == {} && |fs.log.logged| < BufferCache.NBUF
    requires off0 < UINT && n0 < UINT && n0 <= dst.Length
    modifies dst, fs.log.cache, fs.log.disk, fs.log`held, fs.log`home, fs.log`edited, fs.log`logged, fs.log`n
    modifies fs.log`sector, fs.log`pin
    modifies ip`addrs, fs`T, fs`owner
    ensures fs.Consistent(-1) && fs.Locked(ip) && fs.log.held == map[] && fs.log.edited == {}
    ensures fs.log.home == old(fs.log.home) && fs.T == old(fs.T) && fs.owner == old(fs.owner)
      && fs.log.logged == old(fs.log.logged)
    ensures r == -1 <==> off0 > ip.size || (off0 + n0) % UINT < off0
    ensures r != -1 ==> r == Min(n0, ip.size - off0) && ip.size <= FD.MAXBYTES && |ip.addrs| == NDIRECT + 1
    ensures r != -1 ==> dst[..r] == FD.Contents(fs.log.home, fs.T, ip.inum)[off0..off0 + r] && dst[r..] == old(dst[r..])
  {
    hide L.Log.Valid, FsOk, Geo, FD.Contents;
    ghost var h0, T0, i := fs.log.home, fs.T, ip.inum;
    FileFacts(h0, T0, fs.owner, i);
    if off0 > ip.size || (off0 + n0) % UINT < off0 {
      return -1;
    }
    NoWrap(off0, n0);
    var n := n0;
    if off0 + n > ip.size {
      n := ip.size - off0;
    }
    var tot, off := 0, off0;
    while tot < n
      invariant tot <= n && off == off0 + tot
      invariant fs.Consistent(-1) && fs.Locked(ip) && fs.log.held == map[] && fs.log.edited == {}
      invariant fs.log.home == h0 && fs.T == T0 && fs.owner == old(fs.owner) && fs.log.logged == old(fs.log.logged)
      invariant ip.Dino() == old(ip.Dino())
      invariant forall x | 0 <= x < tot :: dst[x] == FD.FileByte(h0, T0, i, off0 + x)
      invariant dst[n..] == old(dst[n..])
    {
      var m := ReadBlock(fs, ip, dst, off, n, tot, off0);
      tot, off := tot + m, off + m;
    }
    r := n;
    assert dst[..r] == FD.Contents(fs.log.home, fs.T, ip.inum)[off0..off0 + r];
  }

  /** `bread(bmap(ip, bn))` of a mapped block, and brelse. */
  method FetchBlock(fs: Fs, ip: Inode, bn: nat) returns (data: Block)
    requires fs.Consistent(-1) && fs.Locked(ip) && bn < MAXFILE && |ip.addrs| == NDIRECT + 1
    requires FD.Mapped(fs.log.home, fs.T, ip.inum, bn)
    requires fs.log.held == map[] && fs.log.edited == {} && |fs.log.logged| < BufferCache.NBUF
    modifies fs.log.cache, fs.log.disk, fs.log`held, fs.log`home, fs.log`edited, fs.log`logged, fs.log`n
    modifies fs.log`sector, fs.log`pin
    modifies ip`addrs, fs`T, fs`owner
    ensures fs.Consistent(-1) && fs.Locked(ip) && fs.log.held == map[] && fs.log.edited == {}
    ensures fs.log.home == old(fs.log.home) && fs.T == old(fs.T) && fs.owner == old(fs.owner)
      && fs.log.logged == old(fs.log.logged)
    ensures forall p | 0 <= p < FD.MAXBYTES && p / BSIZE == bn ::
      data[p % BSIZE] == FD.FileByte(fs.log.home, fs.T, ip.inum, p)
  {
    hide L.Log.Valid, Geo, GetSuper, FsOk, SlotAddr, Extends, UsedUpTo;
    fs.log.ValidFacts();
    ghost var h0, T0, i := fs.log.home, fs.T, ip.inum;
    FsWeaken(h0, T0, fs.owner, i);
    AddrInside(h0, T0, fs.owner, i, FileSlot(bn));
    assert fs.Mapped(ip, bn);
    var a := fs.Bmap(ip, bn);
    assert fs.log.home == h0 && fs.T == T0 && fs.owner == old(fs.owner) && fs.log.logged == old(fs.log.logged);
    data := fs.log.Load(a.b);
  }

  /** One round of readi's loop. */
  method ReadBlock(fs: Fs, ip: Inode, dst: array<byte>, off: nat, n: nat, tot: nat, ghost base: nat) returns (m: nat)
    requires fs.Consistent(-1) && fs.Locked(ip) && FD.NoHoles(fs.log.home, fs.T)
    requires fs.log.held == map[] && fs.log.edited == {} && |fs.log.logged| < BufferCache.NBUF
    requires tot < n <= dst.Length && off + (n - tot) <= ip.size <= FD.MAXBYTES && |ip.addrs| == NDIRECT + 1
      && off == base + tot
    modifies dst, fs.log.cache, fs.log.disk, fs.log`held, fs.log`home, fs.log`edited, fs.log`logged, fs.log`n
    modifies fs.log`sector, fs.log`pin
    modifies ip`addrs, fs`T, fs`owner
    ensures fs.Consistent(-1) && fs.Locked(ip) && fs.log.held == map[] && fs.log.edited == {}
    ensures fs.log.home == old(fs.log.home) && fs.T == old(fs.T) && fs.owner == old(fs.owner)
      && fs.log.logged == old(fs.log.logged)
    ensures 0 < m <= n - tot
    ensures forall x | tot <= x < tot + m :: dst[x] == FD.FileByte(fs.log.home, fs.T, ip.inum, base + x)
    ensures forall x | 0 <= x < dst.Length && !(tot <= x < tot + m) :: dst[x] == old(dst[x])
  {
    hide L.Log.Valid, FsOk, Geo, FD.FileByte;
    assert FD.Mapped(fs.log.home, fs.T, ip.inum, off / BSIZE);
    var data := FetchBlock(fs, ip, off / BSIZE);
    m := Min(n - tot, BSIZE - off % BSIZE);
    forall x | tot <= x < tot + m {
      dst[x] := data[off % BSIZE + (x - tot)];
    }
    forall x | tot <= x < tot + m ensures dst[x] == FD.FileByte(fs.log.home, fs.T, ip.inum, base + x) {
      InBlock(off, x - tot);
    }
  }

  lemma InBlock(off: nat, x: nat)
    requires off % BSIZE + x < BSIZE
    ensures (off + x) / BSIZE == off / BSIZE && (off + x) % BSIZE == off % BSIZE + x
  {
  }

  lemma NoWrap(off: nat, n: nat)
    requires off < UINT && n < UINT && (off + n) % UINT >= off
    ensures off + n < UINT
  {
  }

  lemma FileFacts(home: seq<Block>, T: seq<Dinode>, owner: map<nat, Slot>, i: nat)
    requires FsOk(home, T, owner, -1) && FD.NoHoles(home, T) && i < |T|
    ensures T[i].size <= FD.MAXBYTES && |T[i].addrs| == NDIRECT + 1
  {
  }

  lemma FsWeaken(home: seq<Block>, T: seq<Dinode>, owner: map<nat, Slot>, i: nat)
    requires FsOk(home, T, owner, -1)
    ensures FsOk(home, T, owner, i)
  {
  }

  lemma AddrInside(home: seq<Block>, T: seq<Dinode>, owner: map<nat, Slot>, i: nat, k: nat)
    requires FsOk(home, T, owner, i) && i < |T| && k < NSLOT && |T[i].addrs| == NDIRECT + 1
      && SlotAddr(home, T, i, k) != 0
    ensures SB < DataStart(SuperOf(home)) <= SlotAddr(home, T, i, k) < |home|
  {
    hide SlotAddr;
    GeoFacts(home);
  }

  // ------------------------------------------------------------------ writei

  /** Number of file blocks that `n` bytes from offset `off` on touch. */
  function Touched(off: nat, n: nat): nat {
    if n == 0 then 0 else (off + n - 1) / BSIZE - off / BSIZE + 1
  }

  lemma TouchedStep(off: nat, n: nat)
    requires n > 0
    ensures var m := Min(n, BSIZE - off % BSIZE); 0 < m <= n && Touched(off + m, n - m) + 1 == Touched(off, n)
  {
  }

  /** `data` with the bytes `src` copied in at offset `at`. */
  function Patch(data: Block, at: nat, src: seq<byte>): (r: Block)
    requires at + |src| <= BSIZE
    ensures forall x | 0 <= x < BSIZE :: r[x] == if at <= x < at + |src| then src[x - at] else data[x]
  {
    data[..at] + src + data[at + |src|..]
  }

  ghost function IndirectSet(ip: Inode): set<nat>
    requires |ip.addrs| == NDIRECT + 1
    reads ip
  {
    if ip.addrs[INDIRECT] == 0 then {} else {ip.addrs[INDIRECT]}
  }

  /** Sectors logged or budgeted for so far, the file's indirect block included. */
  ghost function Load(fs: Fs, ip: Inode): nat
    requires SB < |fs.log.home| && |ip.addrs| == NDIRECT + 1
    reads fs, fs.log, ip
  {
    |fs.Budget() + IndirectSet(ip)| + (if ip.addrs[INDIRECT] == 0 then 1 else 0)
  }

  lemma LoadIs(fs: Fs, ip: Inode)
    requires SB < |fs.log.home| && |ip.addrs| == NDIRECT + 1
    ensures |IndirectSet(ip)| <= 1 && Load(fs, ip) == |fs.Budget() + IndirectSet(ip)| + (1 - |IndirectSet(ip)|)
    ensures IndirectSet(ip) != {} ==> IndirectSet(ip) == {ip.addrs[INDIRECT]} && ip.addrs[INDIRECT] != 0
  {
  }

  /** One round of writei's loop: put `src` into one block of the file. */
  method WriteBlock(fs: Fs, ip: Inode, off: nat, src: seq<byte>) returns (r: Alloc)
    requires fs.Consistent(ip.inum) && fs.Locked(ip) && off / BSIZE < MAXFILE && off % BSIZE + |src| <= BSIZE
      && |ip.addrs| == NDIRECT + 1
    requires fs.log.held == map[] && fs.log.edited == {} && fs.Spare(4)
    modifies fs.log.cache, fs.log.disk, fs.log`held, fs.log`home, fs.log`edited, fs.log`logged, fs.log`n
    modifies fs.log`sector, fs.log`pin
    modifies ip`addrs, fs`T, fs`owner
    ensures fs.Ready() && fs.log.edited == {}
    ensures !r.Block? ==> UsedUpTo(fs.log.home, fs.log.start)
    ensures r.Block? ==>
      && fs.log.held == map[] && fs.Consistent(ip.inum) && fs.Locked(ip) && |ip.addrs| == NDIRECT + 1
      && Stored(old(fs.log.home), old(fs.T), fs.log.home, fs.T, ip.inum, off, src)
      && SB < |fs.log.home| && Load(fs, ip) <= old(Load(fs, ip)) + 1
    ensures r.Block? && old(fs.Consistent(-1) && fs.Mapped(ip, off / BSIZE)) ==>
      fs.Consistent(-1) && fs.T == old(fs.T) && fs.owner == old(fs.owner)
  {
    hide L.Log.Valid, Geo, GetSuper, FsOk, SlotAddr, Extends, UsedUpTo, Bitmap, Stored, Patch, DataStart, FileSlot;
    hide Load;
    FsFacts(fs.log.home, fs.T, fs.owner, ip.inum);
    ghost var h0, T0 := fs.log.home, fs.T;
    r := AddrForWrite(fs, ip, off / BSIZE);
    if r.Block? {
      ghost var b1, ind1 := fs.Budget(), IndirectSet(ip);
      FinishBlock(fs, ip, r.b, off, src, h0, T0);
      assert IndirectSet(ip) == ind1;
      assert fs.Budget() == b1 + {r.b};
      LoadIs(fs, ip);
    }
  }

  /** The first half of that round: bmap, and what it costs. */
  method AddrForWrite(fs: Fs, ip: Inode, bn: nat) returns (r: Alloc)
    requires fs.Consistent(ip.inum) && fs.Locked(ip) && bn < MAXFILE && |ip.addrs| == NDIRECT + 1
    requires fs.log.held == map[] && fs.log.edited == {} && fs.Spare(4)
    modifies fs.log.cache, fs.log.disk, fs.log`held, fs.log`home, fs.log`edited, fs.log`logged, fs.log`n
    modifies fs.log`sector, fs.log`pin
    modifies ip`addrs, fs`T, fs`owner
    ensures fs.Ready() && fs.log.edited == {}
    ensures !r.Block? ==> UsedUpTo(fs.log.home, fs.log.start)
    ensures r.Block? ==>
      && fs.log.held == map[] && fs.Consistent(ip.inum) && fs.Locked(ip) && |ip.addrs| == NDIRECT + 1
      && Extends(old(fs.log.home), old(fs.T), fs.log.home, fs.T, ip.inum)
      && r.b == SlotAddr(fs.log.home, fs.T, ip.inum, FileSlot(bn)) != 0
      && SB < |fs.log.home| && |fs.log.logged| <= |fs.Budget()| <= old(|fs.Budget()|) + 2
      && |fs.Budget() + {r.b} + IndirectSet(ip)| + (1 - |IndirectSet(ip)|) <= old(Load(fs, ip)) + 1
    ensures r.Block? && old(fs.Consistent(-1) && fs.Mapped(ip, bn)) ==>
      fs.Consistent(-1) && fs.T == old(fs.T) && fs.owner == old(fs.owner)
  {
    hide L.Log.Valid, Geo, GetSuper, FsOk, SlotAddr, Extends, UsedUpTo, Bitmap, DataStart, FileSlot, Load;
    FsFacts(fs.log.home, fs.T, fs.owner, ip.inum);
    LoadIs(fs, ip);
    fs.LoggedSize();
    ghost var h0, T0, i, B0, ind0 := fs.log.home, fs.T, ip.inum, fs.Budget(), IndirectSet(ip);
    r := fs.Bmap(ip, bn);
    if r.Block? {
      ghost var h1, l1 := fs.log.home, fs.log.logged;
      FsFacts(h1, fs.T, fs.owner, i);
      ExtendsSlots(h0, T0, h1, fs.T, i);
      IndirectUsed(h1, fs.T, i, bn);
      LoadIs(fs, ip);
      LoadAfter(B0, l1, Bitmap(SuperOf(h1)), r.b, ind0, if bn < NDIRECT then {}
          else {ip.addrs[INDIRECT]}, IndirectSet(ip));
      fs.LoggedSize();
    }
  }

  /** The second half of that round: the block has its address `a`; store into it. */
  method FinishBlock(fs: Fs, ip: Inode, a: nat, off: nat, src: seq<byte>, ghost h0: seq<Block>, ghost T0: seq<Dinode>)
    requires fs.Consistent(ip.inum) && fs.Locked(ip) && off / BSIZE < MAXFILE && off % BSIZE + |src| <= BSIZE
      && |ip.addrs| == NDIRECT + 1
    requires WfTable(h0, T0) && Extends(h0, T0, fs.log.home, fs.T, ip.inum)
    requires a == SlotAddr(fs.log.home, fs.T, ip.inum, FileSlot(off / BSIZE)) != 0
    requires fs.log.held == map[] && fs.log.edited == {}
    requires fs.log.busy && |fs.log.logged| < L.LOGSIZE && |fs.log.logged| < fs.log.size - 1
      && |fs.log.logged| + 1 < BufferCache.NBUF
    modifies fs.log.cache, fs.log.disk, fs.log`held, fs.log`home, fs.log`edited, fs.log`logged, fs.log`n
    modifies fs.log`sector, fs.log`pin
    ensures fs.Consistent(ip.inum) && fs.Locked(ip) && fs.log.held == map[] && fs.log.edited == {}
    ensures fs.T == old(fs.T) && fs.owner == old(fs.owner) && ip.addrs == old(ip.addrs)
    ensures SB < |fs.log.home| && SB < |old(fs.log.home)| && SuperOf(fs.log.home) == SuperOf(old(fs.log.home))
    ensures Stored(h0, T0, fs.log.home, fs.T, ip.inum, off, src)
    ensures fs.log.logged == old(fs.log.logged) + {a}
    ensures old(fs.Consistent(-1)) ==> fs.Consistent(-1)
  {
    hide L.Log.Valid, Geo, GetSuper, FsOk, SlotAddr, Extends, Bitmap, Stored, Patch, DataStart, FileSlot;
    fs.log.ValidFacts();
    FsFacts(fs.log.home, fs.T, fs.owner, ip.inum);
    AddrInside(fs.log.home, fs.T, fs.owner, ip.inum, FileSlot(off / BSIZE));
    StoreFacts(h0, T0, fs.log.home, fs.T, fs.owner, ip.inum, off, src);
    StoreAt(fs, a, off % BSIZE, src);
  }

  /** `bread(a); memmove; log_write; brelse` */
  method StoreAt(fs: Fs, a: nat, at: nat, src: seq<byte>)
    requires fs.Ready() && fs.log.held == map[] && fs.log.edited == {} && SB < a < fs.log.start && at + |src| <= BSIZE
    requires fs.log.busy && |fs.log.logged| < L.LOGSIZE && |fs.log.logged| < fs.log.size - 1
      && |fs.log.logged| + 1 < BufferCache.NBUF
    modifies fs.log.cache, fs.log.disk, fs.log`held, fs.log`home, fs.log`edited, fs.log`logged, fs.log`n
    modifies fs.log`sector, fs.log`pin
    ensures fs.log.Valid() && fs.log.held == map[] && fs.log.edited == {}
    ensures a < |old(fs.log.home)| && fs.log.home == old(fs.log.home)[a := Patch(old(fs.log.home)[a], at, src)]
    ensures fs.log.logged == old(fs.log.logged) + {a}
  {
    hide L.Log.Valid, Geo, Patch;
    fs.log.ValidFacts();
    var bp := fs.log.Read(a);
    fs.log.Store(bp, Patch(fs.log.Buffer(bp), at, src));
    L.PinnedSum(fs.log.logged, fs.log.held);
    fs.log.LogWrite(bp);
    fs.log.Release(bp);
    L.PutBack(map[], bp, a);
  }

  /** What a round does to the files. */
  ghost predicate Stored(h0: seq<Block>, T0: seq<Dinode>, h1: seq<Block>, T1: seq<Dinode>, i: nat, off: nat,
                         src: seq<byte>)
    requires WfTable(h0, T0) && WfTable(h1, T1) && off / BSIZE < MAXFILE
  {
    && |T1| == |T0| && i < |T0| && SuperOf(h1) == SuperOf(h0)
    && FD.OthersSame(h0, T0, h1, T1, i) && T1[i] == T0[i].(addrs := T1[i].addrs)
    && FD.Mapped(h1, T1, i, off / BSIZE)
    && (forall bn | 0 <= bn < MAXFILE && FD.Mapped(h0, T0, i, bn) :: FD.Mapped(h1, T1, i, bn))
    && (forall p | 0 <= p < FD.MAXBYTES && off <= p < off + |src| :: FD.FileByte(h1, T1, i, p) == src[p - off])
    && (forall p | 0 <= p < FD.MAXBYTES && FD.Mapped(h0, T0, i, p / BSIZE) && !(off <= p < off + |src|) ::
          FD.FileByte(h1, T1, i, p) == FD.FileByte(h0, T0, i, p))
  }

  lemma LoadAfter(B0: set<nat>, l1: set<nat>, bitmap: set<nat>, b: nat, ind0: set<nat>, new0: set<nat>, ind1: set<nat>)
    requires l1 + bitmap <= B0 + {b} + new0 && new0 <= ind1
    requires |ind0| <= 1 && |ind1| <= 1 && (ind0 != {} ==> ind1 == ind0)
    ensures |l1 + bitmap| <= |B0| + 2
    ensures |l1 + bitmap + {b} + ind1| + (1 - |ind1|) <= |B0 + ind0| + (1 - |ind0|) + 1
  {
    Sets.SubsetSize(l1 + bitmap, B0 + {b} + ind1);
    Sets.UnionSize(B0 + {b}, ind1);
    Sets.UnionSize(B0, {b});
    Sets.SubsetSize(l1 + bitmap + {b} + ind1, B0 + {b} + ind1);
    if ind0 != {} {
      assert B0 + {b} + ind1 == B0 + ind0 + {b};
      Sets.UnionSize(B0 + ind0, {b});
    } else {
      assert B0 + ind0 == B0;
    }
  }

  lemma IndirectUsed(home: seq<Block>, T: seq<Dinode>, i: nat, bn: nat)
    requires i < |T| && |T[i].addrs| == NDIRECT + 1 && bn < MAXFILE && SlotAddr(home, T, i, FileSlot(bn)) != 0
    ensures bn >= NDIRECT ==> T[i].addrs[INDIRECT] != 0
  {
    hide Word;
  }

  lemma StoreFacts(h0: seq<Block>, T0: seq<Dinode>, h1: seq<Block>, T1: seq<Dinode>, owner: map<nat, Slot>, i: nat,
                   off: nat, src: seq<byte>)
    requires WfTable(h0, T0) && FsOk(h1, T1, owner, i) && Extends(h0, T0, h1, T1, i)
    requires off / BSIZE < MAXFILE && off % BSIZE + |src| <= BSIZE && SlotAddr(h1, T1, i, FileSlot(off / BSIZE)) != 0
    ensures SlotAddr(h1, T1, i, FileSlot(off / BSIZE)) < |h1|
    ensures var a := SlotAddr(h1, T1, i, FileSlot(off / BSIZE));
      var h2 := h1[a := Patch(h1[a], off % BSIZE, src)];
      && FsOk(h2, T1, owner, i) && Geo(h2, |h1|) && SuperOf(h2) == SuperOf(h0) && WfTable(h2, T1)
      && Stored(h0, T0, h2, T1, i, off, src)
      && (FsOk(h1, T1, owner, -1) ==> FsOk(h2, T1, owner, -1))
      && |T0[i].addrs| == NDIRECT + 1
      && (T0[i].addrs[INDIRECT] != 0 ==> T1[i].addrs[INDIRECT] == T0[i].addrs[INDIRECT])
  {
    hide Geo, GetSuper, Own, BitsOk, SlotAddr, TableOk, Extends, FD.FileByte, FD.Mapped, FD.OthersSame, Patch;
    ExtendsSlots(h0, T0, h1, T1, i);
    AddrInside(h1, T1, owner, i, FileSlot(off / BSIZE));
    var a := SlotAddr(h1, T1, i, FileSlot(off / BSIZE));
    var data := Patch(h1[a], off % BSIZE, src);
    var h2 := h1[a := data];
    FD.ExtendsBytes(h0, T0, h1, T1, i);
    FD.WriteBytes(h1, T1, owner, i, off / BSIZE, data);
    BlockBytes(h1, T1, i, off / BSIZE);
    DataFrameTable(h1, T1, owner, a, data, i);
    FD.OthersTrans(h0, T0, h1, T1, h2, T1, i);
    forall p | 0 <= p < FD.MAXBYTES
      ensures off <= p < off + |src| ==> FD.FileByte(h2, T1, i, p) == src[p - off]
      ensures !(off <= p < off + |src|) ==> FD.FileByte(h2, T1, i, p) == FD.FileByte(h1, T1, i, p)
    {
      if off <= p < off + |src| {
        InBlock(off, p - off);
      } else if p / BSIZE == off / BSIZE {
        OutOfPatch(off, |src|, p);
      }
    }
  }

  lemma OutOfPatch(off: nat, n: nat, p: nat)
    requires off % BSIZE + n <= BSIZE && p / BSIZE == off / BSIZE && !(off <= p < off + n)
    ensures !(off % BSIZE <= p % BSIZE < off % BSIZE + n)
  {
  }

  /** The bytes of a mapped block are the bytes of the file there. */
  lemma BlockBytes(home: seq<Block>, T: seq<Dinode>, i: nat, bn: nat)
    requires WfTable(home, T) && i < |T| && bn < MAXFILE && 0 < SlotAddr(home, T, i, FileSlot(bn)) < |home|
    ensures FD.Mapped(home, T, i, bn)
    ensures forall p | 0 <= p < FD.MAXBYTES && p / BSIZE == bn ::
      FD.FileByte(home, T, i, p) == home[SlotAddr(home, T, i, FileSlot(bn))][p % BSIZE]
  {
    hide SlotAddr, Geo, GetSuper;
  }

  lemma ExtendsSlots(h0: seq<Block>, T0: seq<Dinode>, h1: seq<Block>, T1: seq<Dinode>, i: nat)
    requires WfTable(h0, T0) && WfTable(h1, T1) && Extends(h0, T0, h1, T1, i)
    ensures |T1| == |T0| && i < |T0| && SuperOf(h1) == SuperOf(h0) && T1[i] == T0[i].(addrs := T1[i].addrs)
    ensures T0[i].addrs[INDIRECT] != 0 ==> T1[i].addrs[INDIRECT] == T0[i].addrs[INDIRECT]
  {
    hide Geo, GetSuper, SlotAddr;
    SlotDirect(h0, T0, i, INDIRECT);
    SlotDirect(h1, T1, i, INDIRECT);
  }

  lemma DataFrameTable(home: seq<Block>, T: seq<Dinode>, owner: map<nat, Slot>, a: nat, data: Block, i: nat)
    requires FsOk(home, T, owner, i) && DataStart(SuperOf(home)) <= a < |home|
    ensures WfTable(home[a := data], T) && TableOk(home[a := data], T, i) && SuperOf(home[a := data]) == SuperOf(home)
    ensures TableOk(home, T, -1) ==> TableOk(home[a := data], T, -1)
  {
    hide GetSuper, Geo, Own, BitsOk, GetInode, DataStart, InodeBlock;
    DataFrame(home, a, data);
    forall j | 0 <= j < |T| ensures InodeBlock(j) < |home| && home[a := data][InodeBlock(j)] == home[InodeBlock(j)] {
      InodePlace(home, T, j);
    }
  }

  datatype Wrote = Failed | Wrote(n: nat) | NoSpace

  /** Progress of writei: the first `tot` bytes of `src` are in the file. */
  ghost predicate Written(h0: seq<Block>, T0: seq<Dinode>, h1: seq<Block>, T1: seq<Dinode>, i: nat, off: nat,
                          src: seq<byte>, tot: nat)
    requires WfTable(h0, T0) && WfTable(h1, T1) && i < |T0| && off <= T0[i].size && tot <= |src|
  {
    && |T1| == |T0| && SuperOf(h1) == SuperOf(h0)
    && FD.OthersSame(h0, T0, h1, T1, i) && T1[i] == T0[i].(addrs := T1[i].addrs)
    && FD.MappedTo(h1, T1, i, Max(T0[i].size, off + tot))
    && (forall p | 0 <= p < FD.MAXBYTES && off <= p < off + tot :: FD.FileByte(h1, T1, i, p) == src[p - off])
    && (forall p | 0 <= p < FD.MAXBYTES && p < T0[i].size && !(off <= p < off + tot) ::
          FD.FileByte(h1, T1, i, p) == FD.FileByte(h0, T0, i, p))
  }

  lemma WrittenNone(h0: seq<Block>, T0: seq<Dinode>, i: nat, off: nat, src: seq<byte>)
    requires WfTable(h0, T0) && i < |T0| && off <= T0[i].size && FD.NoHoles(h0, T0)
    ensures Written(h0, T0, h0, T0, i, off, src, 0)
  {
    hide GetSuper, Geo, SlotAddr, FD.FileByte;
  }

  lemma WrittenStep(h0: seq<Block>, T0: seq<Dinode>, h1: seq<Block>, T1: seq<Dinode>, h2: seq<Block>, T2: seq<Dinode>,
                    i: nat, off: nat, src: seq<byte>, tot: nat, m: nat)
    requires WfTable(h0, T0) && WfTable(h1, T1) && WfTable(h2, T2) && i < |T0| && off <= T0[i].size
    requires 0 < m && tot + m <= |src| && off + tot + m <= FD.MAXBYTES && (off + tot) % BSIZE + m <= BSIZE
    requires Written(h0, T0, h1, T1, i, off, src, tot)
    requires Stored(h1, T1, h2, T2, i, off + tot, src[tot..tot + m])
    ensures Written(h0, T0, h2, T2, i, off, src, tot + m)
  {
    hide GetSuper, Geo, SlotAddr, FD.FileByte, FD.OthersSame, FD.Mapped;
    FD.OthersTrans(h0, T0, h1, T1, h2, T2, i);
    forall bn | 0 <= bn < MAXFILE && bn * BSIZE < Max(T0[i].size, off + tot + m) ensures FD.Mapped(h2, T2, i, bn) {
      LastBlock(off + tot, m, bn);
    }
    forall p | 0 <= p < FD.MAXBYTES && off <= p < off + tot + m ensures FD.FileByte(h2, T2, i, p) == src[p - off] {
      if p < off + tot {
        assert (p / BSIZE) * BSIZE < Max(T0[i].size, off + tot);
      }
    }
    forall p | 0 <= p < FD.MAXBYTES && p < T0[i].size && !(off <= p < off + tot + m)
      ensures FD.FileByte(h2, T2, i, p) == FD.FileByte(h0, T0, i, p)
    {
      assert (p / BSIZE) * BSIZE < Max(T0[i].size, off + tot);
    }
  }

  /** A block that starts below the end of a piece within one block starts below the piece or is its block. */
  lemma LastBlock(at: nat, m: nat, bn: nat)
    requires 0 < m && at % BSIZE + m <= BSIZE
    ensures bn * BSIZE < at + m ==> bn * BSIZE < at || bn == at / BSIZE
  {
  }

  /** The loop of writei. */
  method WriteLoop(fs: Fs, ip: Inode, src: seq<byte>, off0: nat) returns (r: Wrote)
    requires fs.Consistent(-1) && fs.Locked(ip) && FD.NoHoles(fs.log.home, fs.T) && off0 <= ip.size
      && off0 + |src| <= FD.MAXBYTES
    requires fs.log.held == map[] && fs.log.edited == {} && |ip.addrs| == NDIRECT + 1
    requires fs.log.busy && fs.log.size >= L.LOGSIZE && |fs.Budget()| + Touched(off0, |src|) <= 5
    modifies fs.log.cache, fs.log.disk, fs.log`held, fs.log`home, fs.log`edited, fs.log`logged, fs.log`n
    modifies fs.log`sector, fs.log`pin
    modifies ip`addrs, fs`T, fs`owner
    ensures fs.Ready() && fs.log.edited == {} && !r.Failed?
    ensures r.NoSpace? ==> UsedUpTo(fs.log.home, fs.log.start)
    ensures r.Wrote? ==> r.n == |src| && fs.Consistent(ip.inum) && fs.Locked(ip) && fs.log.held == map[]
    ensures r.Wrote? ==> WfTable(old(fs.log.home), old(fs.T))
    ensures r.Wrote? ==> Written(old(fs.log.home), old(fs.T), fs.log.home, fs.T, ip.inum, off0, src, |src|)
    ensures r.Wrote? && off0 + |src| <= ip.size ==> fs.Consistent(-1) && fs.T == old(fs.T) && fs.owner == old(fs.owner)
    ensures r.Wrote? ==> |fs.Budget()| <= old(|fs.Budget()|) + Touched(off0, |src|) + 1
  {
    hide L.Log.Valid, Geo, GetSuper, FsOk, WfTable, SlotAddr, Bitmap, Stored, Written, DataStart, FD.NoHoles;
    hide Touched, Load;
    ghost var h0, T0, i, own0 := fs.log.home, fs.T, ip.inum, fs.owner;
    FsWeaken(h0, T0, own0, i);
    FsFacts(h0, T0, own0, i);
    LoadFacts(fs, ip);
    WrittenNone(h0, T0, i, off0, src);
    var n, tot, off := |src|, 0, off0;
    while tot < n
      invariant tot <= n && off == off0 + tot
      invariant fs.Consistent(i) && fs.Locked(ip) && |ip.addrs| == NDIRECT + 1 && fs.log.held == map[]
        && fs.log.edited == {}
      invariant WfTable(fs.log.home, fs.T) && ip.size == old(ip.size)
      invariant Written(h0, T0, fs.log.home, fs.T, i, off0, src, tot)
      invariant off0 + tot <= ip.size ==> fs.Consistent(-1) && fs.T == T0 && fs.owner == own0
      invariant SB < |fs.log.home| && Load(fs, ip) + Touched(off, n - tot) <= old(Load(fs, ip)) + Touched(off0, n)
    {
      var m := Min(n - tot, BSIZE - off % BSIZE);
      TouchedStep(off, n - tot);
      LoadFacts(fs, ip);
      var a := WriteRound(fs, ip, src, off0, tot, m, h0, T0, own0);
      if !a.Block? {
        return NoSpace;
      }
      tot, off := tot + m, off + m;
    }
    LoadFacts(fs, ip);
    r := Wrote(n);
  }

  /** One round of that loop, with what it keeps. */
  method WriteRound(fs: Fs, ip: Inode, src: seq<byte>, off0: nat, tot: nat, m: nat,
                    ghost h0: seq<Block>, ghost T0: seq<Dinode>, ghost own0: map<nat, Slot>) returns (r: Alloc)
    requires fs.Consistent(ip.inum) && fs.Locked(ip) && |ip.addrs| == NDIRECT + 1 && fs.log.held == map[]
      && fs.log.edited == {}
    requires WfTable(h0, T0) && WfTable(fs.log.home, fs.T) && ip.inum < |T0| && off0 <= T0[ip.inum].size == ip.size
    requires 0 < m && tot + m <= |src| && (off0 + tot) % BSIZE + m <= BSIZE && off0 + tot + m <= FD.MAXBYTES
    requires Written(h0, T0, fs.log.home, fs.T, ip.inum, off0, src, tot)
    requires off0 + tot <= ip.size ==> fs.Consistent(-1) && fs.T == T0 && fs.owner == own0
    requires fs.Spare(4)
    modifies fs.log.cache, fs.log.disk, fs.log`held, fs.log`home, fs.log`edited, fs.log`logged, fs.log`n
    modifies fs.log`sector, fs.log`pin
    modifies ip`addrs, fs`T, fs`owner
    ensures fs.Ready() && fs.log.edited == {}
    ensures !r.Block? ==> UsedUpTo(fs.log.home, fs.log.start)
    ensures r.Block? ==>
      && fs.Consistent(ip.inum) && fs.Locked(ip) && |ip.addrs| == NDIRECT + 1 && fs.log.held == map[]
      && WfTable(fs.log.home, fs.T)
      && Written(h0, T0, fs.log.home, fs.T, ip.inum, off0, src, tot + m)
      && SB < |fs.log.home| && Load(fs, ip) <= old(Load(fs, ip)) + 1
    ensures r.Block? && off0 + tot + m <= ip.size ==> fs.Consistent(-1) && fs.T == T0 && fs.owner == own0
  {
    hide L.Log.Valid, Geo, GetSuper, FsOk, WfTable, SlotAddr, Bitmap, Stored, Written, DataStart, UsedUpTo;
    ghost var h1, T1, i := fs.log.home, fs.T, ip.inum;
    WrittenMapped(h0, T0, h1, T1, i, off0, src, tot, m);
    InFile(off0 + tot, m);
    r := WriteBlock(fs, ip, off0 + tot, src[tot..tot + m]);
    if r.Block? {
      FsFacts(fs.log.home, fs.T, fs.owner, i);
      WrittenStep(h0, T0, h1, T1, fs.log.home, fs.T, i, off0, src, tot, m);
    }
  }

  lemma InFile(off: nat, m: nat)
    requires 0 < m && off + m <= FD.MAXBYTES
    ensures off / BSIZE < MAXFILE
  {
  }

  lemma WrittenMapped(h0: seq<Block>, T0: seq<Dinode>, h1: seq<Block>, T1: seq<Dinode>, i: nat, off: nat,
                      src: seq<byte>, tot: nat, m: nat)
    requires WfTable(h0, T0) && WfTable(h1, T1) && i < |T0| && off <= T0[i].size && tot + m <= |src| && 0 < m
    requires Written(h0, T0, h1, T1, i, off, src, tot) && off + tot + m <= FD.MAXBYTES
    ensures (off + tot) / BSIZE < MAXFILE && i < |T1| && |T1[i].addrs| == NDIRECT + 1
    ensures off + tot + m <= T0[i].size ==> SlotAddr(h1, T1, i, FileSlot((off + tot) / BSIZE)) != 0
  {
    hide SlotAddr;
    var bn := (off + tot) / BSIZE;
    if off + tot + m <= T0[i].size {
      assert bn * BSIZE < Max(T0[i].size, off + tot);
      assert FD.Mapped(h1, T1, i, bn);
    }
  }

  lemma LoadFacts(fs: Fs, ip: Inode)
    requires SB < |fs.log.home| && |ip.addrs| == NDIRECT + 1
    ensures |fs.Budget()| <= Load(fs, ip) <= |fs.Budget()| + 1
  {
    Sets.SubsetSize(fs.Budget(), fs.Budget() + IndirectSet(ip));
    Sets.UnionSize(fs.Budget(), IndirectSet(ip));
  }

  /** writei of a regular file or directory, inside a transaction. */
  method Writei(fs: Fs, ip: Inode, src: seq<byte>, off: nat) returns (r: Wrote)
    requires fs.Consistent(-1) && fs.Locked(ip) && FD.NoHoles(fs.log.home, fs.T)
    requires off < UINT && |src| < UINT
    requires fs.log.held == map[] && fs.log.edited == {}
    requires fs.log.busy && fs.log.size >= L.LOGSIZE && |fs.Budget()| + Touched(off, |src|) <= 5
    modifies fs.log.cache, fs.log.disk, fs.log`held, fs.log`home, fs.log`edited, fs.log`logged, fs.log`n
    modifies fs.log`sector, fs.log`pin
    modifies ip`addrs, ip`size, fs`T, fs`owner
    ensures fs.Ready() && fs.log.edited == {}
    ensures r.Failed? <==> off > old(ip.size) || (off + |src|) % UINT < off || off + |src| > FD.MAXBYTES
    ensures r.Failed? ==>
      fs.log.home == old(fs.log.home) && fs.T == old(fs.T) && fs.owner == old(fs.owner)
        && fs.log.logged == old(fs.log.logged)
    ensures r.Failed? ==> ip.size == old(ip.size)
    ensures r.NoSpace? ==> UsedUpTo(fs.log.home, fs.log.start)
    ensures !r.NoSpace? ==> fs.Consistent(-1) && fs.Locked(ip) && fs.log.held == map[] && FD.NoHoles(fs.log.home, fs.T)
    ensures r.Wrote? ==> r.n == |src| && Updated(old(fs.log.home), old(fs.T), fs.log.home, fs.T, ip.inum, off, src)
    ensures r.Wrote? ==> |fs.log.logged| <= old(|fs.Budget()|) + Touched(off, |src|) + 2
  {
    hide L.Log.Valid, Geo, GetSuper, FsOk, Bitmap, DataStart, UsedUpTo, Written, Updated, FD.NoHoles, Touched;
    hide SameFiles;
    ghost var h0, T0, own0, i := fs.log.home, fs.T, fs.owner, ip.inum;
    FsWeaken(h0, T0, own0, i);
    FsFacts(h0, T0, own0, i);
    if off > ip.size || (off + |src|) % UINT < off {
      return Failed;
    }
    NoWrap(off, |src|);
    if off + |src| > MAXFILE * BSIZE {
      return Failed;
    }
    var size0 := ip.size;
    r := WriteLoop(fs, ip, src, off);
    if r.NoSpace? {
      return;
    }
    ghost var h1, T1 := fs.log.home, fs.T;
    FsFacts(h1, T1, fs.owner, i);
    fs.LoggedSize();
    if |src| > 0 && off + |src| > ip.size {
      Grow(fs, ip, off + |src|);
      SizedUpdate(h0, T0, h1, T1, fs.log.home, fs.T, i, off, src);
    } else {
      WrittenUpdate(h0, T0, h1, T1, i, off, src);
    }
  }

  /** `ip->size = off; iupdate(ip);` */
  method Grow(fs: Fs, ip: Inode, size: nat)
    requires fs.Consistent(ip.inum) && fs.Locked(ip) && size < UINT
    requires fs.log.held == map[] && fs.log.edited == {} && fs.log.busy
    requires |fs.log.logged| < L.LOGSIZE && |fs.log.logged| < fs.log.size - 1 && |fs.log.logged| + 1 < BufferCache.NBUF
    modifies fs.log.cache, fs.log.disk, fs.log`held, fs.log`home, fs.log`edited, fs.log`logged, fs.log`n
    modifies fs.log`sector, fs.log`pin
    modifies ip`size, fs`T
    ensures fs.Consistent(-1) && fs.Locked(ip) && fs.log.held == map[] && fs.log.edited == {}
    ensures ip.inum < |old(fs.T)| && fs.T == WithSize(old(fs.T), ip.inum, size)
    ensures SB < |old(fs.log.home)| && WfTable(fs.log.home, fs.T) && SuperOf(fs.log.home) == SuperOf(old(fs.log.home))
    ensures WfTable(old(fs.log.home), fs.T) && SameFiles(old(fs.log.home), fs.log.home, fs.T)
    ensures fs.log.logged == old(fs.log.logged) + {InodeBlock(ip.inum)}
  {
    hide L.Log.Valid, Geo, GetSuper, FsOk, SameFiles;
    SizeOk(fs.log.home, fs.T, fs.owner, ip.inum, size);
    ip.size := size;
    fs.T := WithSize(fs.T, ip.inum, size);
    FsFacts(fs.log.home, fs.T, fs.owner, ip.inum);
    Iupdate(fs, ip);
  }

  ghost function WithSize(T: seq<Dinode>, i: nat, size: nat): (r: seq<Dinode>)
    requires i < |T|
    ensures |r| == |T|
  {
    T[i := T[i].(size := size)]
  }

  lemma SizeOk(home: seq<Block>, T: seq<Dinode>, owner: map<nat, Slot>, i: nat, size: nat)
    requires FsOk(home, T, owner, i) && i < |T| && size < UINT
    ensures FsOk(home, WithSize(T, i, size), owner, i)
  {
    hide GetSuper, Geo, GetInode;
    var T1 := WithSize(T, i, size);
    forall j, k | 0 <= j < |T| && 0 <= k < NSLOT ensures SlotAddr(home, T1, j, k) == SlotAddr(home, T, j, k) {
    }
  }

  /** What a successful writei does: one file is overwritten, every other one keeps its inode and its bytes. */
  ghost predicate Updated(h0: seq<Block>, T0: seq<Dinode>, h1: seq<Block>, T1: seq<Dinode>, i: nat, off: nat,
                          src: seq<byte>)
  {
    && WfTable(h0, T0) && WfTable(h1, T1) && i < |T0| && T0[i].size <= FD.MAXBYTES && off <= T0[i].size
    && SuperOf(h1) == SuperOf(h0)
    && FD.OthersSame(h0, T0, h1, T1, i)
    && T1[i] == T0[i].(addrs := T1[i].addrs, size := T1[i].size) && T1[i].size <= FD.MAXBYTES
    && FD.Contents(h1, T1, i) == FD.Overwrite(FD.Contents(h0, T0, i), off, src)
  }

  lemma WrittenUpdate(h0: seq<Block>, T0: seq<Dinode>, h1: seq<Block>, T1: seq<Dinode>, i: nat, off: nat,
                      src: seq<byte>)
    requires WfTable(h0, T0) && WfTable(h1, T1) && FD.NoHoles(h0, T0) && i < |T0| && off <= T0[i].size
    requires Written(h0, T0, h1, T1, i, off, src, |src|) && (src == [] || off + |src| <= T0[i].size)
    ensures Updated(h0, T0, h1, T1, i, off, src) && FD.NoHoles(h1, T1)
  {
    hide GetSuper, Geo, FD.FileByte, FD.Mapped;
  }

  lemma SizedUpdate(h0: seq<Block>, T0: seq<Dinode>, h1: seq<Block>, T1: seq<Dinode>, h2: seq<Block>, T2: seq<Dinode>,
                    i: nat, off: nat, src: seq<byte>)
    requires WfTable(h0, T0) && WfTable(h1, T1) && FD.NoHoles(h0, T0) && i < |T0| && off <= T0[i].size
    requires Written(h0, T0, h1, T1, i, off, src, |src|) && T0[i].size < off + |src| <= FD.MAXBYTES
    requires T2 == WithSize(T1, i, off + |src|) && WfTable(h1, T2) && WfTable(h2, T2) && SameFiles(h1, h2, T2)
      && SuperOf(h2) == SuperOf(h1)
    ensures Updated(h0, T0, h2, T2, i, off, src) && FD.NoHoles(h2, T2)
  {
    hide GetSuper, Geo;
    assert forall j, p | 0 <= j < |T1| && 0 <= p < FD.MAXBYTES ::
      FD.FileByte(h1, T2, j, p) == FD.FileByte(h1, T1, j, p);
    assert forall j, bn | 0 <= j < |T1| && 0 <= bn < MAXFILE :: FD.Mapped(h1, T2, j, bn) == FD.Mapped(h1, T1, j, bn);
    hide FD.FileByte, FD.Mapped;
  }

  // --------------------------------------------------------------- filewrite

  const CHUNK: nat := (L.LOGSIZE - 1 - 1 - 2) / 2 * 512

  lemma TouchedMax(off: nat, n: nat)
    requires n <= CHUNK
    ensures Touched(off, n) <= 4
  {
  }

  lemma OneBitmapBlock(home: seq<Block>)
    requires SB < |home| && SuperOf(home).size < BPB
    ensures |Bitmap(SuperOf(home))| == 1
  {
  }

  /** The file system between two transactions, with the inode `ip` locked. */
  ghost predicate Idle(fs: Fs, ip: Inode)
    reads fs, fs.log, fs.log.cache, fs.log.disk, ip
  {
    && fs.Consistent(-1) && fs.Locked(ip) && FD.NoHoles(fs.log.home, fs.T)
    && fs.log.held == map[] && fs.log.edited == {} && !fs.log.busy
    && fs.log.size >= L.LOGSIZE && SuperOf(fs.log.home).size < BPB
  }

  /** begin_trans and what the file system knows then. */
  method StartTrans(fs: Fs, ip: Inode)
    requires Idle(fs, ip)
    modifies fs.log`busy, fs.log`since, fs.log`begun
    ensures fs.Consistent(-1) && fs.Locked(ip) && FD.NoHoles(fs.log.home, fs.T) && SB < |fs.log.home|
    ensures fs.log.held == map[] && fs.log.edited == {} && fs.log.busy && |fs.Budget()| == 1 && fs.log.logged == {}
    ensures fs.log.since == |fs.log.disk.trace| - 1 && fs.log.begun == fs.log.disk.trace && fs.log.base == fs.log.home
    ensures |fs.log.disk.trace| > 0
  {
    hide L.Log.Valid, Geo, GetSuper, FsOk, Bitmap, FD.NoHoles;
    fs.log.ValidFacts();
    FsWeaken(fs.log.home, fs.T, fs.owner, ip.inum);
    FsFacts(fs.log.home, fs.T, fs.owner, ip.inum);
    OneBitmapBlock(fs.log.home);
    var _ := fs.log.BeginTrans();
    assert fs.Budget() == Bitmap(SuperOf(fs.log.home));
    fs.log.ValidFacts();
  }

  /** commit_trans: the file system is idle again, and the transaction was atomic. */
  method EndTrans(fs: Fs, ip: Inode)
    requires fs.Consistent(-1) && fs.Locked(ip) && FD.NoHoles(fs.log.home, fs.T)
    requires fs.log.held == map[] && fs.log.edited == {} && fs.log.busy && fs.log.size >= L.LOGSIZE
    requires SB < |fs.log.home| && SuperOf(fs.log.home).size < BPB
    modifies fs.log.cache, fs.log.disk, fs.log`n, fs.log`busy, fs.log`home, fs.log`held, fs.log`edited
    modifies fs.log`logged, fs.log`pin
    modifies fs.log`base, fs.log`since, fs.log`begun
    ensures Idle(fs, ip) && fs.log.home == old(fs.log.home)
    ensures old(fs.log.begun) <= fs.log.disk.trace
    ensures L.Atomic(fs.log.disk.trace, old(fs.log.since), fs.log.start, fs.log.size, old(fs.log.base), fs.log.home)
  {
    hide L.Log.Valid, Geo, GetSuper, FsOk, FD.NoHoles, L.Atomic;
    fs.log.ValidFacts();
    fs.log.CommitTrans();
  }

  /**
     One round of filewrite: begin_trans, writei of at most three blocks' worth,
     commit_trans. It logs at most seven sectors, and a crash anywhere in it
     leaves the file system either as it was or with the whole piece written.
     */
  method WriteChunk(fs: Fs, ip: Inode, src: seq<byte>, off: nat) returns (r: Wrote, ghost sectors: nat)
    requires Idle(fs, ip) && off < UINT && |src| <= CHUNK
    modifies fs, fs.log, fs.log.cache, fs.log.disk, ip`addrs, ip`size
    ensures fs.log.start == old(fs.log.start) && fs.log.size == old(fs.log.size) && 0 < |old(fs.log.disk.trace)|
      && old(fs.log.disk.trace) <= fs.log.disk.trace
    ensures r.Failed? <==> off > old(ip.size) || (off + |src|) % UINT < off || off + |src| > FD.MAXBYTES
    ensures r.NoSpace? ==> fs.Ready() && UsedUpTo(fs.log.home, fs.log.start)
    ensures r.NoSpace? ==>
      L.TraceOk(fs.log.disk.trace, |old(fs.log.disk.trace)| - 1, fs.log.start, fs.log.size, old(fs.log.home))
    ensures !r.NoSpace? ==> Idle(fs, ip) && sectors <= 7
    ensures !r.NoSpace? ==>
      L.Atomic(fs.log.disk.trace, |old(fs.log.disk.trace)| - 1, fs.log.start, fs.log.size, old(fs.log.home),
          fs.log.home)
    ensures r.Failed? ==> fs.log.home == old(fs.log.home) && fs.T == old(fs.T) && ip.size == old(ip.size)
    ensures r.Wrote? ==> r.n == |src| && Updated(old(fs.log.home), old(fs.T), fs.log.home, fs.T, ip.inum, off, src)
  {
    hide L.Log.Valid, Geo, GetSuper, FsOk, Bitmap, DataStart, UsedUpTo, Updated, FD.NoHoles, Touched, L.Atomic;
    hide L.TraceOk;
    TouchedMax(off, |src|);
    ghost var t0, h0 := fs.log.disk.trace, fs.log.home;
    StartTrans(fs, ip);
    r := Writei(fs, ip, src, off);
    sectors := |fs.log.logged|;
    if r.NoSpace? {
      fs.log.ValidFacts();
      fs.log.TraceFacts();
      return;
    }
    if r.Wrote? {
      UpdatedSuper(h0, old(fs.T), fs.log.home, fs.T, ip.inum, off, src);
    }
    EndTrans(fs, ip);
  }

  lemma UpdatedSuper(h0: seq<Block>, T0: seq<Dinode>, h1: seq<Block>, T1: seq<Dinode>, i: nat, off: nat, src: seq<byte>)
    requires Updated(h0, T0, h1, T1, i, off, src)
    ensures SB < |h0| && SB < |h1| && SuperOf(h1) == SuperOf(h0)
  {
  }
}
