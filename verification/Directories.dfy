/**
 Directories and path walking (fs.c dirlookup, dirlink, namex) over files: each
 directory is a finite map, and walking a path is walking those maps.
 */
module Directories {
  import opened Base
  import opened Blocks
  import opened Layout
  import opened Ownership
  import opened Inodes
  import opened FileIO
  import N = Names
  import FD = FileData
  import L = RedoLog
  import BufferCache

  const T_DIR: nat := 1

  /** The file system with no buffer in use and every file without holes. */
  ghost predicate Quiet(fs: Fs)
    reads fs, fs.log, fs.log.cache, fs.log.disk
  {
    && fs.Consistent(-1) && FD.NoHoles(fs.log.home, fs.T)
    && fs.log.held == map[] && fs.log.edited == {} && |fs.log.logged| < BufferCache.NBUF
  }

  /** The bytes of a directory, or of any file. */
  ghost function Data(home: seq<Block>, T: seq<Dinode>, i: nat): seq<byte> {
    if i < |T| && T[i].size <= FD.MAXBYTES && |T[i].addrs| == NDIRECT + 1 then FD.Contents(home, T, i) else []
  }

  lemma DataFacts(home: seq<Block>, T: seq<Dinode>, owner: map<nat, Slot>, i: nat)
    requires FsOk(home, T, owner, -1) && FD.NoHoles(home, T) && i < |T|
    ensures Data(home, T, i) == FD.Contents(home, T, i) && |Data(home, T, i)| == T[i].size <= FD.MAXBYTES
  {
  }

  /** A directory as a map from names to inode numbers. */
  ghost function DirOf(home: seq<Block>, T: seq<Dinode>, i: nat): map<seq<byte>, nat> {
    N.Dir(Data(home, T, i))
  }

  /** Directories consist of whole entries without duplicates, and each entry names an allocated inode. */
  ghost predicate TreeOk(home: seq<Block>, T: seq<Dinode>) {
    forall i | 0 <= i < |T| && T[i].typ == T_DIR :: DirOk(home, T, i)
  }

  ghost predicate DirOk(home: seq<Block>, T: seq<Dinode>, i: nat) {
    && N.WholeEntries(Data(home, T, i)) && N.Unique(Data(home, T, i))
    && forall key | key in DirOf(home, T, i) :: DirOf(home, T, i)[key] < |T| && T[DirOf(home, T, i)[key]].typ != 0
  }

  /** `readi(dp, (char*)&de, off, sizeof(de))`, which always reads the whole entry. */
  method ReadEntry(fs: Fs, dp: Inode, off: nat, ghost e: nat) returns (inum: nat, name: seq<byte>)
    requires Quiet(fs) && fs.Locked(dp) && off == e * N.DIRENT && off < dp.size
    requires N.WholeEntries(Data(fs.log.home, fs.T, dp.inum))
    modifies fs.log.cache, fs.log.disk, fs.log`held, fs.log`home, fs.log`edited, fs.log`logged, fs.log`n
    modifies fs.log`sector, fs.log`pin
    modifies dp`addrs, fs`T, fs`owner
    ensures Quiet(fs) && fs.Locked(dp) && Same(old(fs.log.home), old(fs.T), old(fs.owner), old(fs.log.logged), fs)
    ensures var c := Data(fs.log.home, fs.T, dp.inum);
      e < N.Entries(c) && off + N.DIRENT <= |c| && inum == N.Inum(c, e) && name == N.Name(c, e)
  {
    hide L.Log.Valid, FsOk, Geo, FD.Contents, FD.NoHoles;
    DataFacts(fs.log.home, fs.T, fs.owner, dp.inum);
    ghost var c := Data(fs.log.home, fs.T, dp.inum);
    var de := new byte[N.DIRENT](i => 0);
    var r := Readi(fs, dp, de, off, N.DIRENT);
    WholeEntry(c, off, e, de[..r]);
    inum := de[0] as int + de[1] as int * 0x100;
    name := de[2..];
    assert de[..r] == de[..];
  }

  lemma WholeEntry(c: seq<byte>, off: nat, e: nat, de: seq<byte>)
    requires N.WholeEntries(c) && off == e * N.DIRENT && off < |c| && |de| == Min(N.DIRENT, |c| - off)
      && de == c[off..off + |de|]
    ensures |de| == N.DIRENT && e < N.Entries(c) && off + N.DIRENT <= |c|
    ensures N.Inum(c, e) == de[0] as int + de[1] as int * 0x100 && N.Name(c, e) == de[2..]
  {
    assert |c| == 16 * (|c| / 16);
    assert c[off..off + 16][2..] == c[off + 2..off + 16];
  }

  /** Nothing that the disk shows has changed. */
  ghost predicate Same(home: seq<Block>, T: seq<Dinode>, owner: map<nat, Slot>, logged: set<nat>, fs: Fs)
    reads fs, fs.log
  {
    fs.log.home == home && fs.T == T && fs.owner == owner && fs.log.logged == logged
  }

  /** What dirlookup returns: the inode number and the offset of its entry. */
  datatype Found = NotFound | Found(inum: nat, off: nat)

  /** dirlookup: the map at the name. */
  method Dirlookup(fs: Fs, dp: Inode, name: seq<byte>) returns (r: Found)
    requires Quiet(fs) && fs.Locked(dp) && dp.typ == T_DIR
    requires N.WholeEntries(Data(fs.log.home, fs.T, dp.inum)) && N.Unique(Data(fs.log.home, fs.T, dp.inum))
    modifies fs.log.cache, fs.log.disk, fs.log`held, fs.log`home, fs.log`edited, fs.log`logged, fs.log`n
    modifies fs.log`sector, fs.log`pin
    modifies dp`addrs, fs`T, fs`owner
    ensures Quiet(fs) && fs.Locked(dp) && Same(old(fs.log.home), old(fs.T), old(fs.owner), old(fs.log.logged), fs)
    ensures r.Found? <==> N.Key(name) in DirOf(fs.log.home, fs.T, dp.inum)
    ensures r.Found? ==>
      && r.inum == DirOf(fs.log.home, fs.T, dp.inum)[N.Key(name)] && r.inum != 0
      && exists e: nat :: r.off == e * N.DIRENT && N.Has(Data(fs.log.home, fs.T, dp.inum), e, N.Key(name))
  {
    hide L.Log.Valid, FsOk, Geo, FD.Contents, FD.NoHoles, Quiet, N.Unique, N.Key, N.Dir, N.Has, N.Inum, N.Name;
    hide N.Entries, Data;
    SizeFacts(fs, dp);
    ghost var h0, T0, own0, l0, c := fs.log.home, fs.T, fs.owner, fs.log.logged, Data(fs.log.home, fs.T, dp.inum);
    var off := 0;
    ghost var e: nat := 0;
    while off < dp.size
      invariant Quiet(fs) && fs.Locked(dp) && Same(h0, T0, own0, l0, fs) && dp.size == old(dp.size)
      invariant off == e * N.DIRENT <= |c|
      invariant forall f: nat | f < e :: !N.Has(c, f, N.Key(name))
      decreases dp.size - off
    {
      var inum, nm := ReadEntry(fs, dp, off, e);
      var same := N.Namecmp(name, nm);
      HasThis(c, e, N.Key(name));
      if inum != 0 && same {
        N.DirAt(c, e, N.Key(name));
        return Found(inum, off);
      }
      off, e := off + N.DIRENT, e + 1;
    }
    NotThere(c, e, N.Key(name));
    r := NotFound;
  }

  lemma SizeFacts(fs: Fs, dp: Inode)
    requires Quiet(fs) && fs.Locked(dp)
    ensures |Data(fs.log.home, fs.T, dp.inum)| == dp.size <= FD.MAXBYTES
  {
    hide L.Log.Valid, FsOk, Geo, FD.Contents;
    DataFacts(fs.log.home, fs.T, fs.owner, dp.inum);
  }

  lemma HasThis(c: seq<byte>, e: nat, key: seq<byte>)
    requires e < N.Entries(c)
    ensures N.Has(c, e, key) <==> N.Inum(c, e) != 0 && N.Key(N.Name(c, e)) == key
  {
  }

  lemma NotThere(c: seq<byte>, e: nat, key: seq<byte>)
    requires e * N.DIRENT >= |c| && forall f: nat | f < e :: !N.Has(c, f, key)
    ensures key !in N.Dir(c)
  {
  }

  datatype Link = Exists | Linked | NoRoom

  /** An entry of the directory is not in use, or the directory can grow. */
  ghost predicate HasRoom(c: seq<byte>) {
    |c| < FD.MAXBYTES || exists e :: FreeAt(c, e)
  }

  ghost predicate FreeAt(c: seq<byte>, e: nat) {
    e < N.Entries(c) && N.Inum(c, e) == 0
  }

  lemma FreeThis(c: seq<byte>, e: nat)
    requires e < N.Entries(c)
    ensures FreeAt(c, e) <==> N.Inum(c, e) == 0
  {
  }

  lemma NoneFree(c: seq<byte>, e: nat)
    requires e * N.DIRENT == |c|
    ensures e == N.Entries(c) && ((forall f: nat | f < e :: !FreeAt(c, f)) ==> forall f :: !FreeAt(c, f))
  {
  }

  /** The loop of dirlink: the offset of the first free entry, or the end. */
  method FindFree(fs: Fs, dp: Inode) returns (off: nat, ghost e: nat)
    requires Quiet(fs) && fs.Locked(dp) && N.WholeEntries(Data(fs.log.home, fs.T, dp.inum))
    modifies fs.log.cache, fs.log.disk, fs.log`held, fs.log`home, fs.log`edited, fs.log`logged, fs.log`n
    modifies fs.log`sector, fs.log`pin
    modifies dp`addrs, fs`T, fs`owner
    ensures Quiet(fs) && fs.Locked(dp) && Same(old(fs.log.home), old(fs.T), old(fs.owner), old(fs.log.logged), fs)
    ensures var c := Data(fs.log.home, fs.T, dp.inum);
      && off == e * N.DIRENT <= |c| == dp.size && e <= N.Entries(c)
      && (off < |c| ==> FreeAt(c, e)) && (off == |c| ==> forall f :: !FreeAt(c, f))
      && forall f | 0 <= f < e :: !FreeAt(c, f)
  {
    hide L.Log.Valid, FsOk, Geo, FD.Contents, FD.NoHoles, Quiet, FreeAt, N.Inum, N.Name, N.Entries, Data;
    SizeFacts(fs, dp);
    ghost var h0, T0, own0, l0, c := fs.log.home, fs.T, fs.owner, fs.log.logged, Data(fs.log.home, fs.T, dp.inum);
    off, e := 0, 0;
    while off < dp.size
      invariant Quiet(fs) && fs.Locked(dp) && Same(h0, T0, own0, l0, fs) && dp.size == old(dp.size)
      invariant off == e * N.DIRENT <= |c|
      invariant forall f: nat | f < e :: !FreeAt(c, f)
      decreases dp.size - off
    {
      var inum, nm := ReadEntry(fs, dp, off, e);
      FreeThis(c, e);
      if inum == 0 {
        return;
      }
      off, e := off + N.DIRENT, e + 1;
    }
    NoneFree(c, e);
  }

  /** dirlink, inside a transaction: the name is added to the map unless it is there. */
  method Dirlink(fs: Fs, dp: Inode, name: seq<byte>, inum: nat) returns (r: Link)
    requires Quiet(fs) && fs.Locked(dp) && dp.typ == T_DIR && inum < UINT
    requires N.WholeEntries(Data(fs.log.home, fs.T, dp.inum)) && N.Unique(Data(fs.log.home, fs.T, dp.inum))
    requires HasRoom(Data(fs.log.home, fs.T, dp.inum))
    requires SB < |fs.log.home| && fs.log.busy && fs.log.size >= L.LOGSIZE && |fs.Budget()| <= 4
    modifies fs.log.cache, fs.log.disk, fs.log`held, fs.log`home, fs.log`edited, fs.log`logged, fs.log`n
    modifies fs.log`sector, fs.log`pin
    modifies dp`addrs, dp`size, fs`T, fs`owner
    ensures r.Exists? <==> N.Key(name) in DirOf(old(fs.log.home), old(fs.T), dp.inum)
    ensures r.Exists? ==>
      Quiet(fs) && fs.Locked(dp) && Same(old(fs.log.home), old(fs.T), old(fs.owner), old(fs.log.logged), fs)
    ensures r.NoRoom? ==> fs.Ready() && UsedUpTo(fs.log.home, fs.log.start)
    ensures r.Linked? ==>
      fs.Consistent(-1) && fs.Locked(dp) && FD.NoHoles(fs.log.home, fs.T) && fs.log.held == map[] && fs.log.edited == {}
    ensures r.Linked? ==> DirLinked(old(fs.log.home), old(fs.T), fs.log.home, fs.T, dp.inum, N.Key(name), inum % SHORT)
  {
    hide L.Log.Valid, FsOk, Geo, FD.Contents, FD.NoHoles, Quiet, N.Unique, N.Key, N.Dir, DirLinked, UsedUpTo;
    hide Updated, Same, Bitmap, GetSuper;
    ghost var h0, T0, own0, l0, c, i := fs.log.home, fs.T, fs.owner, fs.log.logged, Data(fs.log.home, fs.T, dp.inum),
      dp.inum;
    SizeFacts(fs, dp);
    var f := Dirlookup(fs, dp, name);
    SameIs(h0, T0, own0, l0, fs);
    if f.Found? {
      return Exists;
    }
    var off;
    ghost var e;
    off, e := FindFree(fs, dp);
    SameIs(h0, T0, own0, l0, fs);
    var nm := N.Strncpy(name);
    OneBlock(c, off, e);
    r := WriteEntry(fs, dp, N.Dirent(inum, nm), off, c);
    if r.Linked? {
      N.Linked(c, e, inum, nm);
      LinkedData(h0, T0, fs.log.home, fs.T, i, off, N.Dirent(inum, nm));
      DirLinkedIs(h0, T0, fs.log.home, fs.T, i, N.Key(name), inum % SHORT);
    }
  }

  lemma SameIs(home: seq<Block>, T: seq<Dinode>, owner: map<nat, Slot>, logged: set<nat>, fs: Fs)
    requires Same(home, T, owner, logged, fs)
    ensures fs.log.home == home && fs.T == T && fs.owner == owner && fs.log.logged == logged
  {
  }

  lemma OneBlock(c: seq<byte>, off: nat, e: nat)
    requires off == e * N.DIRENT <= |c| <= FD.MAXBYTES && N.WholeEntries(c)
    requires HasRoom(c) && (off == |c| ==> forall f :: !FreeAt(c, f))
    ensures off + N.DIRENT <= FD.MAXBYTES && Touched(off, N.DIRENT) == 1 && (e < N.Entries(c) <==> off < |c|)
  {
    assert |c| == 16 * (|c| / 16);
    assert off / BSIZE == (off + 15) / BSIZE;
  }

  /** `writei(dp, (char*)&de, off, sizeof(de))`, which never fails there. */
  method WriteEntry(fs: Fs, dp: Inode, de: seq<byte>, off: nat, ghost c: seq<byte>) returns (r: Link)
    requires Quiet(fs) && fs.Locked(dp) && |de| == N.DIRENT && off <= dp.size && off + N.DIRENT <= FD.MAXBYTES
      && Touched(off, N.DIRENT) == 1
    requires SB < |fs.log.home| && fs.log.busy && fs.log.size >= L.LOGSIZE && |fs.Budget()| <= 4
    modifies fs.log.cache, fs.log.disk, fs.log`held, fs.log`home, fs.log`edited, fs.log`logged, fs.log`n
    modifies fs.log`sector, fs.log`pin
    modifies dp`addrs, dp`size, fs`T, fs`owner
    ensures !r.Exists?
    ensures r.NoRoom? ==> fs.Ready() && UsedUpTo(fs.log.home, fs.log.start)
    ensures r.Linked? ==>
      fs.Consistent(-1) && fs.Locked(dp) && FD.NoHoles(fs.log.home, fs.T) && fs.log.held == map[] && fs.log.edited == {}
    ensures r.Linked? ==> Updated(old(fs.log.home), old(fs.T), fs.log.home, fs.T, dp.inum, off, de)
  {
    hide L.Log.Valid, FsOk, Geo, FD.NoHoles, UsedUpTo, Updated, Bitmap, GetSuper, Touched;
    var w := Writei(fs, dp, de, off);
    r := if w.NoSpace? then NoRoom else Linked;
  }

  lemma LinkedData(h0: seq<Block>, T0: seq<Dinode>, h1: seq<Block>, T1: seq<Dinode>, i: nat, off: nat, de: seq<byte>)
    requires Updated(h0, T0, h1, T1, i, off, de)
    ensures |T0[i].addrs| == |T1[i].addrs| == NDIRECT + 1 && |T1| == |T0|
    ensures off <= |Data(h0, T0, i)| && Data(h1, T1, i) == FD.Overwrite(Data(h0, T0, i), off, de)
    ensures T1[i].typ == T0[i].typ
    ensures forall j | 0 <= j < |T0| && j != i :: T1[j] == T0[j] && Data(h1, T1, j) == Data(h0, T0, j)
  {
    hide Geo, GetSuper, SlotAddr, FD.FileByte, FD.Mapped;
    forall j | 0 <= j < |T0| && j != i ensures Data(h1, T1, j) == Data(h0, T0, j) {
      if T0[j].size <= FD.MAXBYTES {
        assert forall p | 0 <= p < T0[j].size :: FD.FileByte(h1, T1, j, p) == FD.FileByte(h0, T0, j, p);
      }
    }
  }

  /** The directory `i` has one more name, every other file has its old bytes, and no inode has changed its type. */
  ghost predicate DirLinked(h0: seq<Block>, T0: seq<Dinode>, h1: seq<Block>, T1: seq<Dinode>, i: nat, key: seq<byte>,
                          inum: nat) {
    && i < |T0| == |T1| && N.WholeEntries(Data(h1, T1, i)) && N.Unique(Data(h1, T1, i))
    && DirOf(h1, T1, i) == (if inum == 0 then DirOf(h0, T0, i) else DirOf(h0, T0, i)[key := inum])
    && (forall j | 0 <= j < |T0| :: T1[j].typ == T0[j].typ)
    && (forall j | 0 <= j < |T0| && j != i :: T1[j] == T0[j] && Data(h1, T1, j) == Data(h0, T0, j))
  }

  lemma DirLinkedIs(h0: seq<Block>, T0: seq<Dinode>, h1: seq<Block>, T1: seq<Dinode>, i: nat, key: seq<byte>, inum: nat)
    requires i < |T0| == |T1| && N.WholeEntries(Data(h1, T1, i)) && N.Unique(Data(h1, T1, i)) && T1[i].typ == T0[i].typ
    requires DirOf(h1, T1, i) == if inum == 0 then DirOf(h0, T0, i) else DirOf(h0, T0, i)[key := inum]
    requires forall j | 0 <= j < |T0| && j != i :: T1[j] == T0[j] && Data(h1, T1, j) == Data(h0, T0, j)
    ensures DirLinked(h0, T0, h1, T1, i, key, inum)
  {
  }

  /** Linking an allocated inode keeps the tree of directories well-formed. */
  lemma LinkedTree(h0: seq<Block>, T0: seq<Dinode>, h1: seq<Block>, T1: seq<Dinode>, i: nat, key: seq<byte>, inum: nat)
    requires TreeOk(h0, T0) && DirLinked(h0, T0, h1, T1, i, key, inum) && T0[i].typ == T_DIR
    requires inum != 0 ==> inum < |T0| && T0[inum].typ != 0
    ensures TreeOk(h1, T1)
  {
    hide N.WholeEntries, N.Unique, N.Dir, Data;
    forall j | 0 <= j < |T1| && T1[j].typ == T_DIR ensures DirOk(h1, T1, j) {
      assert T0[j].typ == T_DIR && DirOk(h0, T0, j);
      if j == i {
        EntriesKept(h0, T0, h1, T1, i, key, inum);
      } else {
        SameDir(h0, T0, h1, T1, j);
      }
    }
  }

  lemma SameDir(h0: seq<Block>, T0: seq<Dinode>, h1: seq<Block>, T1: seq<Dinode>, j: nat)
    requires DirOk(h0, T0, j) && |T1| == |T0| && j < |T0| && Data(h1, T1, j) == Data(h0, T0, j)
    requires forall k | 0 <= k < |T0| :: T1[k].typ == T0[k].typ
    ensures DirOk(h1, T1, j)
  {
    hide N.WholeEntries, N.Unique, N.Dir, Data;
    var m := DirOf(h1, T1, j);
    assert m == DirOf(h0, T0, j);
    forall k | k in m ensures m[k] < |T1| && T1[m[k]].typ != 0 {
      assert T1[m[k]].typ == T0[m[k]].typ;
    }
  }

  lemma EntriesKept(h0: seq<Block>, T0: seq<Dinode>, h1: seq<Block>, T1: seq<Dinode>, i: nat, key: seq<byte>, inum: nat)
    requires DirLinked(h0, T0, h1, T1, i, key, inum) && DirOk(h0, T0, i)
    requires inum != 0 ==> inum < |T0| && T0[inum].typ != 0
    ensures DirOk(h1, T1, i)
  {
    hide N.WholeEntries, N.Unique, N.Dir, Data;
    var m0, m1 := DirOf(h0, T0, i), DirOf(h1, T1, i);
    forall k | k in m1 ensures m1[k] < |T1| && T1[m1[k]].typ != 0 {
      if k == key && inum != 0 {
        assert T1[inum].typ == T0[inum].typ;
      } else {
        assert m1[k] == m0[k] && T1[m0[k]].typ == T0[m0[k]].typ;
      }
    }
  }

  // ------------------------------------------------------------------- paths

  /** The inode that a list of names leads to from inode `i`, or -1. */
  ghost function Walk(home: seq<Block>, T: seq<Dinode>, i: nat, cs: seq<seq<byte>>): int
    decreases |cs|
  {
    if cs == [] then i
    else if i < |T| && T[i].typ == T_DIR
      && cs[0] in DirOf(home, T, i) then Walk(home, T, DirOf(home, T, i)[cs[0]], cs[1..])
    else -1
  }

  /** The directory in which the last of the names is to be looked up, or -1. */
  ghost function WalkParent(home: seq<Block>, T: seq<Dinode>, i: nat, cs: seq<seq<byte>>): int {
    if cs == [] then -1
    else
      var d := Walk(home, T, i, cs[..|cs| - 1]);
      if 0 <= d < |T| && T[d].typ == T_DIR then d else -1
  }

  /** Directory `i` has the name, for inode `j`. */
  ghost predicate Enters(home: seq<Block>, T: seq<Dinode>, i: nat, name: seq<byte>, j: nat) {
    i < |T| && T[i].typ == T_DIR && name in DirOf(home, T, i) && DirOf(home, T, i)[name] == j
  }

  /** The inodes `way` are those that the names lead through, from `start` to `last`. */
  ghost predicate Leads(home: seq<Block>, T: seq<Dinode>, start: nat, cs: seq<seq<byte>>, way: seq<nat>, last: int) {
    && |way| == |cs| + 1 && way[0] == start && way[|cs|] == last
    && forall k | 0 <= k < |cs| :: Enters(home, T, way[k], cs[k], way[k + 1])
  }

  lemma {:induction false} WalkLeads(home: seq<Block>, T: seq<Dinode>, i: nat, cs: seq<seq<byte>>)
    returns (way: seq<nat>)
    ensures Walk(home, T, i, cs) != -1 ==> Leads(home, T, i, cs, way, Walk(home, T, i, cs))
    decreases |cs|
  {
    hide DirOf;
    way := [i];
    if cs != [] && i < |T| && T[i].typ == T_DIR && cs[0] in DirOf(home, T, i) {
      var rest := WalkLeads(home, T, DirOf(home, T, i)[cs[0]], cs[1..]);
      way := [i] + rest;
      forall k | 0 <= k < |cs| && |way| == |cs| + 1 && Walk(home, T, i, cs) != -1
        ensures Enters(home, T, way[k], cs[k], way[k + 1])
      {
        if k > 0 {
          assert Enters(home, T, rest[k - 1], cs[1..][k - 1], rest[k]);
        }
      }
    }
  }

  lemma {:induction false} LeadsWalk(home: seq<Block>, T: seq<Dinode>, i: nat, cs: seq<seq<byte>>, way: seq<nat>,
                          last: int)
    requires Leads(home, T, i, cs, way, last)
    ensures Walk(home, T, i, cs) == last >= 0
    decreases |cs|
  {
    hide DirOf;
    if cs != [] {
      assert Enters(home, T, way[0], cs[0], way[1]);
      forall k | 0 <= k < |cs| - 1 ensures Enters(home, T, way[1..][k], cs[1..][k], way[1..][k + 1]) {
        assert Enters(home, T, way[k + 1], cs[k + 1], way[k + 2]);
      }
      LeadsWalk(home, T, way[1], cs[1..], way[1..], last);
    }
  }

  /** The names lead from `start` to `last`. */
  ghost predicate Reaches(home: seq<Block>, T: seq<Dinode>, start: nat, cs: seq<seq<byte>>, last: int) {
    exists way :: Leads(home, T, start, cs, way, last)
  }

  /** The walk ends at `last` exactly if the names lead there. */
  lemma WalkIff(home: seq<Block>, T: seq<Dinode>, i: nat, cs: seq<seq<byte>>)
    ensures forall last :: Reaches(home, T, i, cs, last) <==> Walk(home, T, i, cs) == last != -1
    ensures Walk(home, T, i, cs) >= -1
  {
    hide Walk, Leads;
    WalkBound(home, T, i, cs);
    var w := WalkLeads(home, T, i, cs);
    forall way, last: int | Leads(home, T, i, cs, way, last) ensures Walk(home, T, i, cs) == last >= 0 {
      LeadsWalk(home, T, i, cs, way, last);
    }
  }

  lemma {:induction false} WalkBound(home: seq<Block>, T: seq<Dinode>, i: nat, cs: seq<seq<byte>>)
    ensures Walk(home, T, i, cs) >= -1
    decreases |cs|
  {
    hide DirOf;
    if cs != [] && i < |T| && T[i].typ == T_DIR && cs[0] in DirOf(home, T, i) {
      WalkBound(home, T, DirOf(home, T, i)[cs[0]], cs[1..]);
    }
  }

  /** What namex promises: where the names lead, or with `parent` the directory in which the last one is looked up. */
  ghost predicate NameFound(home: seq<Block>, T: seq<Dinode>, start: nat, cs: seq<seq<byte>>, parent: bool, r: int) {
    if !parent then
      if r >= 0 then Reaches(home, T, start, cs, r) else r == -1 && forall last :: !Reaches(home, T, start, cs, last)
    else if cs == [] then r == -1
    else
      var up := cs[..|cs| - 1];
      if r >= 0 then r < |T| && T[r].typ == T_DIR && Reaches(home, T, start, up, r)
      else r == -1 && forall last | Reaches(home, T, start, up, last) :: !(0 <= last < |T| && T[last].typ == T_DIR)
  }

  lemma WalkFound(home: seq<Block>, T: seq<Dinode>, start: nat, cs: seq<seq<byte>>, parent: bool)
    ensures NameFound(home, T, start, cs, parent,
        if parent then WalkParent(home, T, start, cs) else Walk(home, T, start, cs))
  {
    hide Walk, Reaches;
    if !parent {
      WalkIff(home, T, start, cs);
    } else if cs != [] {
      WalkIff(home, T, start, cs[..|cs| - 1]);
    }
  }

  lemma {:induction false} WalkParentStep(home: seq<Block>, T: seq<Dinode>, i: nat, cs: seq<seq<byte>>)
    requires |cs| > 1
    ensures WalkParent(home, T, i, cs) ==
      if i < |T| && T[i].typ == T_DIR
        && cs[0] in DirOf(home, T, i) then WalkParent(home, T, DirOf(home, T, i)[cs[0]], cs[1..]) else -1
  {
    assert cs[..|cs| - 1][1..] == cs[1..][..|cs[1..]| - 1];
  }

  /** ilock of an inode that is not cached yet; "ilock: no type" is its precondition. */
  method Ilock(fs: Fs, inum: nat) returns (ip: Inode)
    requires Quiet(fs) && inum < |fs.T| && fs.T[inum].typ != 0
    modifies fs.log.cache, fs.log.disk, fs.log`held
    ensures Quiet(fs) && Same(old(fs.log.home), old(fs.T), old(fs.owner), old(fs.log.logged), fs)
    ensures fresh(ip) && ip.inum == inum && fs.Locked(ip)
  {
    hide L.Log.Valid, Geo, FD.NoHoles, GetInode;
    InodeOnDisk(fs.log.home, fs.T, fs.owner, inum);
    fs.log.ValidFacts();
    hide FsOk;
    var data := fs.log.Load(InodeBlock(inum));
    ip := new Inode(inum, GetInode(data, inum % IPB));
  }

  lemma InodeOnDisk(home: seq<Block>, T: seq<Dinode>, owner: map<nat, Slot>, i: nat)
    requires FsOk(home, T, owner, -1) && i < |T|
    ensures InodeBlock(i) < |home| && GetInode(home[InodeBlock(i)], i % IPB) == T[i]
  {
  }

  lemma EntryAllocated(home: seq<Block>, T: seq<Dinode>, i: nat, key: seq<byte>)
    requires TreeOk(home, T) && i < |T| && T[i].typ == T_DIR && key in DirOf(home, T, i)
    ensures DirOf(home, T, i)[key] < |T| && T[DirOf(home, T, i)[key]].typ != 0
  {
    assert DirOk(home, T, i);
  }

  lemma DirFacts(home: seq<Block>, T: seq<Dinode>, i: nat)
    requires TreeOk(home, T) && i < |T| && T[i].typ == T_DIR
    ensures N.WholeEntries(Data(home, T, i)) && N.Unique(Data(home, T, i))
  {
    assert DirOk(home, T, i);
  }

  /**
   namex, for the inode numbers: the path's names are walked from the root or the
   current directory; with `parent`, the walk stops at the directory of the last
   name, which is returned as well.
   */
  method Namex(fs: Fs, cwd: nat, path0: seq<byte>, parent: bool) returns (r: int, name: seq<byte>)
    requires Quiet(fs) && TreeOk(fs.log.home, fs.T) && 0 !in path0
    requires ROOTINO < |fs.T| && fs.T[ROOTINO].typ != 0 && cwd < |fs.T| && fs.T[cwd].typ != 0
    modifies fs.log.cache, fs.log.disk, fs.log`held, fs.log`home, fs.log`edited, fs.log`logged, fs.log`n
    modifies fs.log`sector, fs.log`pin
    modifies fs`T, fs`owner
    ensures Quiet(fs) && Same(old(fs.log.home), old(fs.T), old(fs.owner), old(fs.log.logged), fs)
    ensures var start := if path0 != [] && path0[0] == N.SLASH then ROOTINO else cwd; var cs := N.Components(path0);
      NameFound(fs.log.home, fs.T, start, cs, parent, r)
    ensures parent && r != -1 ==> N.Components(path0) != [] && name == N.Components(path0)[|N.Components(path0)| - 1]
  {
    hide L.Log.Valid, FsOk, Geo, FD.NoHoles, Quiet, N.Components, N.Key, DirOf, TreeOk, NameFound;
    ghost var h0, T0, own0, l0 := fs.log.home, fs.T, fs.owner, fs.log.logged;
    var ip: nat := if N.At(path0, 0) == N.SLASH then ROOTINO else cwd;
    ghost var start, cs := ip, N.Components(path0);
    WalkFound(h0, T0, start, cs, parent);
    var path := path0;
    name := [];
    var e := N.SkipElem(path);
    while e.Elem?
      invariant Quiet(fs) && Same(h0, T0, own0, l0, fs) && ip < |T0| && T0[ip].typ != 0 && 0 !in path
      invariant e.NoElem? <==> N.Components(path) == []
      invariant e.Elem? ==> N.Components(path) == [e.name] + N.Components(e.rest) && |e.rest| < |path| && 0 !in e.rest
      invariant e.Elem? ==> (e.rest == [] <==> N.Components(e.rest) == []) && e.name == N.Key(e.name)
      invariant !parent ==> Walk(h0, T0, start, cs) == Walk(h0, T0, ip, N.Components(path))
      invariant parent ==> WalkParent(h0, T0, start, cs) == WalkParent(h0, T0, ip, N.Components(path))
      invariant N.Components(path) != [] ==> cs != [] && cs[|cs| - 1] == N.Components(path)[|N.Components(path)| - 1]
      decreases |path|
    {
      path, name := e.rest, e.name;
      ghost var rest := N.Components(path);
      var step := Step(fs, ip, name, parent && path == [], rest);
      if step == -1 {
        return -1, name;
      }
      if parent && path == [] {
        return ip, name;
      }
      ip := step;
      e := N.SkipElem(path);
    }
    if parent {
      return -1, name;
    }
    return ip, name;
  }

  /** The body of that loop: one name, looked up in inode `i`; `last` stops before the lookup. */
  method Step(fs: Fs, i: nat, name: seq<byte>, last: bool, ghost rest: seq<seq<byte>>) returns (r: int)
    requires Quiet(fs) && TreeOk(fs.log.home, fs.T) && i < |fs.T| && fs.T[i].typ != 0 && name == N.Key(name)
    requires last ==> rest == []
    modifies fs.log.cache, fs.log.disk, fs.log`held, fs.log`home, fs.log`edited, fs.log`logged, fs.log`n
    modifies fs.log`sector, fs.log`pin
    modifies fs`T, fs`owner
    ensures Quiet(fs) && Same(old(fs.log.home), old(fs.T), old(fs.owner), old(fs.log.logged), fs)
    ensures r == -1 ==> last || Walk(fs.log.home, fs.T, i, [name] + rest) == -1
    ensures r == -1 ==> (last || rest != []) ==> WalkParent(fs.log.home, fs.T, i, [name] + rest) == -1
    ensures last && r != -1 ==> r == i == WalkParent(fs.log.home, fs.T, i, [name])
    ensures !last && r != -1 ==>
      && 0 <= r < |fs.T| && fs.T[r].typ != 0
      && Walk(fs.log.home, fs.T, i, [name] + rest) == Walk(fs.log.home, fs.T, r, rest)
    ensures !last && r != -1 && rest != [] ==>
      WalkParent(fs.log.home, fs.T, i, [name] + rest) == WalkParent(fs.log.home, fs.T, r, rest)
  {
    hide L.Log.Valid, FsOk, Geo, FD.NoHoles, Quiet, N.Key, DirOf, TreeOk;
    ghost var all := [name] + rest;
    assert all[1..] == rest;
    if rest != [] {
      WalkParentStep(fs.log.home, fs.T, i, all);
    } else {
      assert all[..0] == [];
    }
    var ip := Ilock(fs, i);
    if ip.typ != T_DIR {
      return -1;
    }
    if last {
      return i;
    }
    DirFacts(fs.log.home, fs.T, i);
    var f := Dirlookup(fs, ip, name);
    if f.NotFound? {
      return -1;
    }
    EntryAllocated(fs.log.home, fs.T, i, name);
    return f.inum;
  }
}
