/**
 The whole of tools/mkfs.c: the image built from a list of programs is a file
 system whose root directory names each of them.
 */
module MakeImage {
  import opened Base
  import opened Blocks
  import opened Layout
  import opened Ownership
  import opened Inodes
  import opened FileIO
  import opened Mkfs
  import N = Names
  import D = Directories
  import FD = FileData
  import L = RedoLog

  const T_FILE: nat := 2
  const DOT: byte := 46
  const UNDERSCORE: byte := 95

  /** A file named on the command line. */
  datatype Program = Program(name: seq<byte>, data: seq<byte>)

  /** The name without its leading underscore. */
  function Stripped(name: seq<byte>): seq<byte> {
    if name != [] && name[0] == UNDERSCORE then name[1..] else name
  }

  /** The root directory after the first `k` programs. */
  ghost function RootDir(ps: seq<Program>, k: nat): map<seq<byte>, nat>
    requires k <= |ps|
  {
    if k == 0 then map[[DOT] := ROOTINO, [DOT, DOT] := ROOTINO]
    else RootDir(ps, k - 1)[N.Key(Stripped(ps[k-1].name)) := k + 1]
  }

  /** Among the first `n` programs and `.` and `..`, no two share their first 14 characters. */
  ghost predicate DistinctTo(ps: seq<Program>, n: nat)
    requires n <= |ps|
  {
    forall k | 0 <= k < n :: N.Key(Stripped(ps[k].name)) !in RootDir(ps, k)
  }

  ghost predicate Distinct(ps: seq<Program>) {
    DistinctTo(ps, |ps|)
  }

  /** The name is stored as `w`: a single underscore in front is dropped. */
  predicate StoredAs(name: seq<byte>, w: seq<byte>) {
    name == [95] + w || (name == w && (w == [] || w[0] != 95))
  }

  /** The names differ in their first 14 characters, from each other and from `.` and `..`. */
  ghost predicate Apart(ws: seq<seq<byte>>, n: nat)
    requires n <= |ws|
  {
    && (forall j, k | 0 <= j < k < n :: N.Key(ws[j]) != N.Key(ws[k]))
    && (forall k | 0 <= k < n :: N.Key(ws[k]) != [46] && N.Key(ws[k]) != [46, 46])
  }

  /** What `RootDir` and `DistinctTo` mean for the names as they are stored. */
  lemma StoredNames(ps: seq<Program>, ws: seq<seq<byte>>, n: nat)
    requires n <= |ps| == |ws| && forall k | 0 <= k < |ps| :: StoredAs(ps[k].name, ws[k])
    ensures DistinctTo(ps, n) <==> Apart(ws, n)
    ensures forall key :: key in RootDir(ps, n) <==> Named(ws, n, key)
    ensures Apart(ws, n) ==> Numbered(RootDir(ps, n), ws, n)
  {
    hide N.Key, RootDir, Stripped;
    StoredDomain(ps, ws, n);
    if Apart(ws, n) {
      StoredNumbers(ps, ws, n);
    }
    forall k | 0 <= k < n
      ensures Stripped(ps[k].name) == ws[k]
      ensures forall key :: key in RootDir(ps, k) <==> Named(ws, k, key)
    {
      StrippedIs(ps[k].name, ws[k]);
      StoredDomain(ps, ws, k);
    }
    if DistinctTo(ps, n) {
      forall j, k | 0 <= j < k < n ensures N.Key(ws[j]) != N.Key(ws[k]) {
        assert Named(ws, k, N.Key(ws[j]));
      }
    } else {
      var k :| 0 <= k < n && N.Key(Stripped(ps[k].name)) in RootDir(ps, k);
      assert Named(ws, k, N.Key(ws[k]));
    }
  }

  /** One of `.`, `..` and the first `n` names. */
  ghost predicate Named(ws: seq<seq<byte>>, n: nat, key: seq<byte>)
    requires n <= |ws|
  {
    key == [46] || key == [46, 46] || exists k :: 0 <= k < n && N.Key(ws[k]) == key
  }

  /** `.` and `..` are the root directory, and the names the inodes from 2 on. */
  ghost predicate Numbered(m: map<seq<byte>, nat>, ws: seq<seq<byte>>, n: nat)
    requires n <= |ws|
  {
    && [46] in m && m[[46]] == 1 && [46, 46] in m && m[[46, 46]] == 1
    && forall k | 0 <= k < n :: N.Key(ws[k]) in m && m[N.Key(ws[k])] == 2 + k
  }

  lemma StrippedIs(name: seq<byte>, w: seq<byte>)
    requires StoredAs(name, w)
    ensures Stripped(name) == w
  {
  }

  lemma {:induction false} StoredDomain(ps: seq<Program>, ws: seq<seq<byte>>, n: nat)
    requires n <= |ps| == |ws| && forall k | 0 <= k < |ps| :: StoredAs(ps[k].name, ws[k])
    ensures forall key :: key in RootDir(ps, n) <==> Named(ws, n, key)
  {
    hide N.Key, Stripped, StoredAs;
    if n > 0 {
      StoredDomain(ps, ws, n - 1);
      StrippedIs(ps[n-1].name, ws[n-1]);
      forall key ensures Named(ws, n, key) <==> Named(ws, n - 1, key) || key == N.Key(ws[n-1]) {
        assert key == N.Key(ws[n-1]) ==> Named(ws, n, key);
      }
    }
  }

  lemma {:induction false} StoredNumbers(ps: seq<Program>, ws: seq<seq<byte>>, n: nat)
    requires n <= |ps| == |ws| && (forall k | 0 <= k < |ps| :: StoredAs(ps[k].name, ws[k])) && Apart(ws, n)
    ensures Numbered(RootDir(ps, n), ws, n)
  {
    hide N.Key, Stripped, StoredAs;
    if n > 0 {
      StoredNumbers(ps, ws, n - 1);
      StrippedIs(ps[n-1].name, ws[n-1]);
    }
  }

  /** The blocks of the first `k` programs. */
  function Total(ps: seq<Program>, k: nat): nat
    requires k <= |ps|
  {
    if k == 0 then 0 else Total(ps, k - 1) + Need(|ps[k-1].data|)
  }

  lemma {:induction false} TotalGrows(ps: seq<Program>, k: nat, m: nat)
    requires k <= m <= |ps|
    ensures Total(ps, k) <= Total(ps, m)
  {
    if k < m {
      TotalGrows(ps, k, m - 1);
    }
  }

  lemma NeedGrows(a: nat, b: nat)
    requires a <= b
    ensures Need(a) <= Need(b)
  {
  }

  /** The size of the root directory after `k` programs. */
  function RootSize(k: nat): nat { (k + 2) * N.DIRENT }

  /** Inode `i` is a file with those bytes and no block beyond them. */
  ghost predicate File(virt: seq<Block>, T: seq<Dinode>, i: nat, typ: nat, c: seq<byte>) {
    && i < |T| && |T[i].addrs| == NDIRECT + 1 && T[i].typ == typ && T[i].nlink == 1 && T[i].size == |c| <= FD.MAXBYTES
    && FD.Contents(virt, T, i) == c && Tight(virt, T, i, |c|)
  }

  lemma FileKept(v0: seq<Block>, T0: seq<Dinode>, v1: seq<Block>, T1: seq<Dinode>, i: nat, j: nat, typ: nat,
                 c: seq<byte>)
    requires WfTable(v0, T0) && WfTable(v1, T1) && FD.OthersSame(v0, T0, v1, T1, i) && j != i && File(v0, T0, j, typ, c)
    ensures File(v1, T1, j, typ, c)
  {
    hide Geo, GetSuper, FD.FileByte, FD.Mapped;
    assert FD.Contents(v1, T1, j) == c;
    assert forall bn | 0 <= bn < MAXFILE :: FD.Mapped(v1, T1, j, bn) == FD.Mapped(v0, T0, j, bn);
    assert forall p | |c| <= p < FD.MAXBYTES :: FD.FileByte(v1, T1, j, p) == FD.FileByte(v0, T0, j, p);
  }

  lemma FileGrown(v0: seq<Block>, T0: seq<Dinode>, v1: seq<Block>, T1: seq<Dinode>, i: nat, typ: nat, c: seq<byte>,
                  xp: seq<byte>)
    requires File(v0, T0, i, typ, c) && i < |T1| && |T1[i].addrs| == NDIRECT + 1
    requires Updated(v0, T0, v1, T1, i, |c|, xp) && T1[i].size == |c| + |xp| && Tight(v1, T1, i, |c| + |xp|)
    ensures File(v1, T1, i, typ, c + xp)
  {
    hide Geo, GetSuper, Tight, FD.Contents, FD.OthersSame;
    OverwriteEnd(c, xp);
  }

  /** The state of the image after `k` programs; `c` is the root directory. */
  ghost predicate Built(virt: seq<Block>, T: seq<Dinode>, ps: seq<Program>, k: nat, c: seq<byte>)
    requires k <= |ps|
  {
    && File(virt, T, ROOTINO, D.T_DIR, c) && RootOk(ps, k, c)
    && (forall j | 0 <= j < k :: File(virt, T, 2 + j, T_FILE, ps[j].data))
    && (forall i | 0 <= i < |T| && T[i].typ == D.T_DIR :: i == ROOTINO)
  }

  ghost predicate RootOk(ps: seq<Program>, k: nat, c: seq<byte>)
    requires k <= |ps|
  {
    && |c| == RootSize(k) && (N.Unique(c) <==> DistinctTo(ps, k))
    && (N.Unique(c) ==> N.Dir(c) == RootDir(ps, k))
  }

  /** Appending an entry: there are still no duplicates exactly if the name is new, and then the map has it. */
  lemma EntryAppended(c: seq<byte>, inum: nat, name: seq<byte>)
    requires N.WholeEntries(c) && |name| == N.DIRSIZ && 0 < inum < SHORT
    ensures EntryMore(c, c + N.Dirent(inum, name), inum, N.Key(name))
  {
    hide N.Unique, N.Dir, N.Key, N.Dirent, FD.Overwrite, N.WholeEntries, N.Entries, N.Has;
    AppendedWhole(c, inum, name);
    if N.Unique(c) && N.Key(name) !in N.Dir(c) {
      NameNew(c, N.Entries(c), inum, name);
    } else {
      NameTaken(c, inum, name);
    }
  }

  lemma NameNew(c: seq<byte>, n: nat, inum: nat, name: seq<byte>)
    requires N.WholeEntries(c) && n == N.Entries(c) && n * N.DIRENT == |c| && |name| == N.DIRSIZ && 0 < inum < SHORT
    requires N.Unique(c) && N.Key(name) !in N.Dir(c)
    ensures var c1 := c + N.Dirent(inum, name); N.Unique(c1) && N.Dir(c1) == N.Dir(c)[N.Key(name) := inum]
  {
    hide N.Unique, N.Dir, N.Key, N.Dirent, FD.Overwrite, N.WholeEntries, N.Entries, N.Has;
    OverwriteEnd(c, N.Dirent(inum, name));
    N.Linked(c, n, inum, name);
    assert inum % SHORT == inum;
  }

  lemma NameTaken(c: seq<byte>, inum: nat, name: seq<byte>)
    requires N.WholeEntries(c) && |name| == N.DIRSIZ && 0 < inum < SHORT
    requires N.Unique(c) ==> N.Key(name) in N.Dir(c)
    ensures !N.Unique(c + N.Dirent(inum, name))
  {
    hide N.Unique, N.Dir, N.Key, N.Dirent, N.WholeEntries, N.Entries, N.Has;
    var c1 := c + N.Dirent(inum, name);
    AppendedWhole(c, inum, name);
    forall f: nat, key
      ensures N.Has(c1, f, key) <==> if f == N.Entries(c) then key == N.Key(name) else N.Has(c, f, key)
    {
      AppendedHas(c, inum, name, f, key);
    }
    Clash(c, c1, N.Entries(c), N.Key(name));
  }

  ghost predicate EntryMore(c: seq<byte>, c1: seq<byte>, inum: nat, key: seq<byte>) {
    && N.WholeEntries(c1) && (N.Unique(c1) <==> N.Unique(c) && key !in N.Dir(c))
    && (N.Unique(c1) ==> N.Dir(c1) == N.Dir(c)[key := inum])
  }

  lemma AppendedWhole(c: seq<byte>, inum: nat, name: seq<byte>)
    requires N.WholeEntries(c) && |name| == N.DIRSIZ
    ensures N.WholeEntries(c + N.Dirent(inum, name)) && (forall key :: !N.Has(c, N.Entries(c), key))
      && N.Entries(c) * N.DIRENT == |c|
  {
    hide N.Key;
  }

  lemma AppendedHas(c: seq<byte>, inum: nat, name: seq<byte>, f: nat, key: seq<byte>)
    requires N.WholeEntries(c) && |name| == N.DIRSIZ && 0 < inum < SHORT
    ensures N.Has(c + N.Dirent(inum, name), f, key)
      <==> if f == N.Entries(c) then key == N.Key(name) else N.Has(c, f, key)
  {
    hide N.Key, N.Dirent, FD.Overwrite, N.Inum, N.Name;
    assert N.Entries(c) * N.DIRENT == |c|;
    OverwriteEnd(c, N.Dirent(inum, name));
    N.EntryWritten(c, N.Entries(c), inum, name, f);
  }

  /** A second entry with the same name is a duplicate. */
  lemma Clash(c: seq<byte>, c1: seq<byte>, n: nat, key: seq<byte>)
    requires forall f: nat, k :: N.Has(c1, f, k) <==> if f == n then k == key else N.Has(c, f, k)
    requires (forall k :: !N.Has(c, n, k)) && (N.Unique(c) ==> key in N.Dir(c))
    ensures !N.Unique(c1)
  {
    hide N.Has;
    if N.Unique(c) {
      var e: nat :| N.Has(c, e, key);
      assert N.Has(c1, e, key) && N.Has(c1, n, key);
    } else {
      var e, f, k :| N.Has(c, e, k) && N.Has(c, f, k) && e != f;
      assert N.Has(c1, e, k) && N.Has(c1, f, k);
    }
  }

  lemma OverwriteEnd(c: seq<byte>, xp: seq<byte>)
    ensures FD.Overwrite(c, |c|, xp) == c + xp
  {
  }

  lemma NoEntries()
    ensures N.Unique([]) && N.Dir([]) == map[] && N.WholeEntries([])
  {
    assert forall e: nat, key :: !N.Has([], e, key);
  }

  lemma RootWhole(k: nat, c: seq<byte>)
    requires |c| == RootSize(k)
    ensures N.WholeEntries(c)
  {
  }

  /** Zeros behind the entries are no entries. */
  lemma PaddedDir(c: seq<byte>, c1: seq<byte>)
    requires N.WholeEntries(c) && N.WholeEntries(c1) && c <= c1 && forall p | |c| <= p < |c1| :: c1[p] == 0
    ensures (N.Unique(c1) <==> N.Unique(c)) && (N.Unique(c) ==> N.Dir(c1) == N.Dir(c))
  {
    forall e: nat, key
      ensures N.Has(c1, e, key) <==> N.Has(c, e, key)
      ensures N.Has(c, e, key) ==> N.Inum(c1, e) == N.Inum(c, e)
    {
      if e < N.Entries(c) {
        assert N.Name(c1, e) == N.Name(c, e);
      }
    }
    if N.Unique(c) {
      SameEntries(c, c1);
    } else {
      hide N.Has;
    }
  }

  lemma SameEntries(c: seq<byte>, c1: seq<byte>)
    requires N.Unique(c) && forall e: nat, key :: N.Has(c1, e, key) <==> N.Has(c, e, key)
    requires forall e: nat, key | N.Has(c, e, key) && N.Has(c1, e, key) :: N.Inum(c1, e) == N.Inum(c, e)
    ensures N.Unique(c1) && N.Dir(c1) == N.Dir(c)
  {
    hide N.Inum, N.Name, N.Key, N.Entries;
    assert N.Unique(c1);
    forall key ensures key in N.Dir(c1) <==> key in N.Dir(c) {
    }
    forall key | key in N.Dir(c) ensures N.Dir(c1)[key] == N.Dir(c)[key] {
      var e: nat :| N.Has(c, e, key);
      N.DirAt(c, e, key);
      N.DirAt(c1, e, key);
    }
  }

  /** Appending to inode `i` when what the image holds so far is known. */
  method Append(img: Image, i: nat, typ: nat, ghost c: seq<byte>, xp: seq<byte>)
    requires img.Valid() && i < img.freeinode && |c| + |xp| <= FD.MAXBYTES
    requires File(img.virt, img.T, i, typ, c) && img.freeblock + Need(|c| + |xp|) - Need(|c|) <= |img.virt|
    modifies img
    ensures img.Valid() && |img.sectors| == |old(img.sectors)| && |img.virt| == |old(img.virt)|
      && img.freeinode == old(img.freeinode)
    ensures Only(old(img.virt), old(img.T), img.virt, img.T, i) && File(img.virt, img.T, i, typ, c + xp)
    ensures img.freeblock == old(img.freeblock) + Need(|c| + |xp|) - Need(|c|)
  {
    hide FsOk, Geo, GetSuper, FreeTail, Updated, Tight, FD.NoHoles, FD.Contents, Need, WfTable, WfDinode;
    ghost var v0, T0 := img.virt, img.T;
    img.Iappend(i, xp);
    FileGrown(v0, T0, img.virt, img.T, i, typ, c, xp);
    UpdatedOnly(v0, T0, img.virt, img.T, i, |c|, xp);
  }

  /** Everything but inode `i` is as it was. */
  ghost predicate Only(v0: seq<Block>, T0: seq<Dinode>, v1: seq<Block>, T1: seq<Dinode>, i: nat) {
    && WfTable(v0, T0) && WfTable(v1, T1) && FD.OthersSame(v0, T0, v1, T1, i) && SuperOf(v1) == SuperOf(v0)
    && i < |T0| && (T0[i].typ == D.T_DIR <==> T1[i].typ == D.T_DIR)
  }

  lemma UpdatedOnly(v0: seq<Block>, T0: seq<Dinode>, v1: seq<Block>, T1: seq<Dinode>, i: nat, off: nat, xp: seq<byte>)
    requires Updated(v0, T0, v1, T1, i, off, xp)
    ensures Only(v0, T0, v1, T1, i)
  {
    hide Geo, GetSuper, FD.FileByte, FD.Mapped, FD.Contents;
  }

  lemma OnlyTrans(v0: seq<Block>, T0: seq<Dinode>, v1: seq<Block>, T1: seq<Dinode>, v2: seq<Block>, T2: seq<Dinode>,
                  i: nat)
    requires Only(v0, T0, v1, T1, i) && Only(v1, T1, v2, T2, i)
    ensures Only(v0, T0, v2, T2, i)
  {
    hide Geo, GetSuper, FD.FileByte, FD.Mapped, WfTable, WfDinode;
    FD.OthersTrans(v0, T0, v1, T1, v2, T2, i);
  }

  /** `while((cc = read(fd, buf, sizeof(buf))) > 0) iappend(inum, buf, cc)` */
  method AppendAll(img: Image, i: nat, data: seq<byte>)
    requires img.Valid() && i < img.freeinode && |data| <= FD.MAXBYTES && img.freeblock + Need(|data|) <= |img.virt|
    requires File(img.virt, img.T, i, T_FILE, [])
    modifies img
    ensures img.Valid() && |img.sectors| == |old(img.sectors)| && |img.virt| == |old(img.virt)|
      && img.freeinode == old(img.freeinode)
    ensures Only(old(img.virt), old(img.T), img.virt, img.T, i) && File(img.virt, img.T, i, T_FILE, data)
    ensures img.freeblock == old(img.freeblock) + Need(|data|)
  {
    hide FsOk, Geo, GetSuper, FreeTail, FD.NoHoles, Need, File, Only, WfTable, WfDinode;
    NeedNone();
    ghost var v0, T0 := img.virt, img.T;
    FileStart(img.virt, img.T, img.owner, i, T_FILE);
    var pos := 0;
    assert data[..0] == [];
    while pos < |data|
      invariant pos <= |data| && img.Valid() && |img.sectors| == |old(img.sectors)| && |img.virt| == |old(img.virt)|
      invariant img.freeinode == old(img.freeinode) && Only(v0, T0, img.virt, img.T, i)
      invariant File(img.virt, img.T, i, T_FILE, data[..pos]) && img.freeblock == old(img.freeblock) + Need(pos)
    {
      var cc := Min(BSIZE, |data| - pos);
      NeedGrows(pos + cc, |data|);
      ghost var v1, T1 := img.virt, img.T;
      Append(img, i, T_FILE, data[..pos], data[pos..pos + cc]);
      assert data[..pos] + data[pos..pos + cc] == data[..pos + cc];
      OnlyTrans(v0, T0, v1, T1, img.virt, img.T, i);
      pos := pos + cc;
    }
    assert data[..pos] == data;
  }

  lemma NeedNone()
    ensures Need(0) == 0
  {
  }

  lemma FileStart(virt: seq<Block>, T: seq<Dinode>, owner: map<nat, Slot>, i: nat, typ: nat)
    requires FsOk(virt, T, owner, -1) && File(virt, T, i, typ, [])
    ensures Only(virt, T, virt, T, i)
  {
  }

  /** The entry `de` for `inum`, appended to the root directory. */
  method AddEntry(img: Image, inum: nat, name: seq<byte>, ghost c: seq<byte>) returns (ghost c1: seq<byte>)
    requires img.Valid() && ROOTINO < img.freeinode && 0 < inum < SHORT && |name| == N.DIRSIZ
    requires File(img.virt, img.T, ROOTINO, D.T_DIR, c) && N.WholeEntries(c)
    requires |c| + N.DIRENT <= FD.MAXBYTES && img.freeblock + Need(|c| + N.DIRENT) - Need(|c|) <= |img.virt|
    modifies img
    ensures img.Valid() && |img.sectors| == |old(img.sectors)| && |img.virt| == |old(img.virt)|
      && img.freeinode == old(img.freeinode)
    ensures Only(old(img.virt), old(img.T), img.virt, img.T, ROOTINO) && File(img.virt, img.T, ROOTINO, D.T_DIR, c1)
    ensures |c1| == |c| + N.DIRENT && EntryMore(c, c1, inum, N.Key(name))
    ensures img.freeblock == old(img.freeblock) + Need(|c| + N.DIRENT) - Need(|c|)
  {
    hide FsOk, Geo, GetSuper, FreeTail, FD.NoHoles, Need, File, Only, WfTable, WfDinode, N.Unique, N.Dir, N.Key;
    c1 := c + N.Dirent(inum, name);
    EntryAppended(c, inum, name);
    Append(img, ROOTINO, D.T_DIR, c, N.Dirent(inum, name));
  }

  /** What holds between two programs. */
  ghost predicate At(img: Image, ps: seq<Program>, k: nat, c: seq<byte>)
    requires k <= |ps|
    reads img
  {
    && img.Valid() && img.freeinode == 2 + k && Built(img.virt, img.T, ps, k, c)
    && img.freeblock == DataStart(SuperOf(img.virt)) + Need(RootSize(k)) + Total(ps, k)
  }

  /** Everything fits: no file is too long, there are inodes and blocks enough. */
  ghost predicate Fits(ps: seq<Program>, sb: Super) {
    && (forall k | 0 <= k < |ps| :: |ps[k].data| <= FD.MAXBYTES)
    && RootSize(|ps|) <= FD.MAXBYTES && |ps| + 2 <= sb.ninodes && |ps| + 2 <= SHORT
    && DataStart(sb) + Need(RootSize(|ps|)) + Total(ps, |ps|) <= sb.size - sb.nlog
  }

  lemma FitsNext(ps: seq<Program>, sb: Super, k: nat)
    requires Fits(ps, sb) && k < |ps|
    ensures RootSize(k + 1) == RootSize(k) + N.DIRENT <= FD.MAXBYTES && k + 2 < sb.ninodes && k + 2 < SHORT
    ensures |ps[k].data| <= FD.MAXBYTES && Total(ps, k) + Need(|ps[k].data|) == Total(ps, k + 1)
    ensures DataStart(sb) + Need(RootSize(k + 1)) + Total(ps, k + 1) <= sb.size - sb.nlog
    ensures Need(RootSize(k)) <= Need(RootSize(k + 1))
  {
    hide Need, N.Key;
    TotalGrows(ps, k + 1, |ps|);
    NeedGrows(RootSize(k + 1), RootSize(|ps|));
    NeedGrows(RootSize(k), RootSize(k + 1));
  }

  lemma BuiltNext(v0: seq<Block>, T0: seq<Dinode>, v1: seq<Block>, T1: seq<Dinode>, ps: seq<Program>, k: nat,
                  c: seq<byte>)
    requires k < |ps| && Built(v0, T0, ps, k, c) && Only(v0, T0, v1, T1, 2 + k) && T1[2 + k].typ != D.T_DIR
    ensures Built(v1, T1, ps, k, c)
  {
    hide Geo, GetSuper, WfTable, WfDinode, FD.OthersSame, File, RootOk;
    FileKept(v0, T0, v1, T1, 2 + k, ROOTINO, D.T_DIR, c);
    forall j | 0 <= j < k ensures File(v1, T1, 2 + j, T_FILE, ps[j].data) {
      FileKept(v0, T0, v1, T1, 2 + k, 2 + j, T_FILE, ps[j].data);
    }
    OthersTyp(v0, T0, v1, T1, 2 + k);
  }

  lemma OthersTyp(v0: seq<Block>, T0: seq<Dinode>, v1: seq<Block>, T1: seq<Dinode>, i: nat)
    requires WfTable(v0, T0) && WfTable(v1, T1) && FD.OthersSame(v0, T0, v1, T1, i)
    ensures |T1| == |T0| && forall j | 0 <= j < |T0| && j != i :: T1[j].typ == T0[j].typ
  {
    hide Geo, GetSuper, WfDinode, FD.FileByte, FD.Mapped;
  }

  /** The files stay when the root directory grows. */
  lemma BuiltRoot(v0: seq<Block>, T0: seq<Dinode>, v1: seq<Block>, T1: seq<Dinode>, ps: seq<Program>, k: nat,
                  c: seq<byte>, c1: seq<byte>)
    requires k < |ps| && Built(v0, T0, ps, k, c) && Only(v0, T0, v1, T1, ROOTINO) && File(v1, T1, ROOTINO, D.T_DIR, c1)
    requires |c1| == RootSize(k + 1) && EntryMore(c, c1, k + 2, N.Key(Stripped(ps[k].name)))
    requires File(v0, T0, 2 + k, T_FILE, [])
    ensures File(v1, T1, 2 + k, T_FILE, []) && RootOk(ps, k + 1, c1)
    ensures forall j | 0 <= j < k :: File(v1, T1, 2 + j, T_FILE, ps[j].data)
    ensures forall i | 0 <= i < |T1| && T1[i].typ == D.T_DIR :: i == ROOTINO
  {
    hide Geo, GetSuper, WfTable, WfDinode, FD.OthersSame, File, N.Unique, N.Dir, N.Key, RootOk, EntryMore;
    RootMore(ps, k, c, c1);
    forall j | 0 <= j < k ensures File(v1, T1, 2 + j, T_FILE, ps[j].data) {
      FileKept(v0, T0, v1, T1, ROOTINO, 2 + j, T_FILE, ps[j].data);
    }
    FileKept(v0, T0, v1, T1, ROOTINO, 2 + k, T_FILE, []);
    OthersTyp(v0, T0, v1, T1, ROOTINO);
  }

  lemma RootMore(ps: seq<Program>, k: nat, c: seq<byte>, c1: seq<byte>)
    requires k < |ps| && RootOk(ps, k, c) && |c1| == RootSize(k + 1)
    requires EntryMore(c, c1, k + 2, N.Key(Stripped(ps[k].name)))
    ensures RootOk(ps, k + 1, c1)
  {
    hide N.Unique, N.Dir, N.Key, N.WholeEntries, Stripped;
  }

  lemma BuiltFile(v0: seq<Block>, T0: seq<Dinode>, v1: seq<Block>, T1: seq<Dinode>, ps: seq<Program>, k: nat,
                  c: seq<byte>)
    requires k < |ps| && File(v0, T0, ROOTINO, D.T_DIR, c) && RootOk(ps, k + 1, c)
    requires forall j | 0 <= j < k :: File(v0, T0, 2 + j, T_FILE, ps[j].data)
    requires forall i | 0 <= i < |T0| && T0[i].typ == D.T_DIR :: i == ROOTINO
    requires Only(v0, T0, v1, T1, 2 + k) && File(v1, T1, 2 + k, T_FILE, ps[k].data)
    ensures Built(v1, T1, ps, k + 1, c)
  {
    hide Geo, GetSuper, WfTable, WfDinode, FD.OthersSame, File, RootOk;
    FileKept(v0, T0, v1, T1, 2 + k, ROOTINO, D.T_DIR, c);
    forall j | 0 <= j < k ensures File(v1, T1, 2 + j, T_FILE, ps[j].data) {
      FileKept(v0, T0, v1, T1, 2 + k, 2 + j, T_FILE, ps[j].data);
    }
    OthersTyp(v0, T0, v1, T1, 2 + k);
  }

  /** A new inode is an empty file. */
  lemma NewFile(virt: seq<Block>, T: seq<Dinode>, i: nat, typ: nat)
    requires i < |T| && T[i] == Blank().(typ := typ, nlink := 1) && Tight(virt, T, i, 0)
    ensures File(virt, T, i, typ, [])
  {
    BlankInode(0);
    hide Tight;
    assert FD.Contents(virt, T, i) == [];
  }

  lemma NewOnly(v0: seq<Block>, T0: seq<Dinode>, v1: seq<Block>, T1: seq<Dinode>, i: nat)
    requires WfTable(v0, T0) && WfTable(v1, T1) && FD.OthersSame(v0, T0, v1, T1, i) && SuperOf(v1) == SuperOf(v0)
    requires i < |T0| == |T1| && T0[i] == Blank() && T1[i].typ != D.T_DIR
    ensures Only(v0, T0, v1, T1, i)
  {
    BlankInode(0);
  }

  /** One round of main's loop. */
  method AddProgram(img: Image, ps: seq<Program>, k: nat, ghost c: seq<byte>, ghost sb: Super)
    returns (ghost c1: seq<byte>)
    requires k < |ps| && Fits(ps, sb) && SB < |img.virt| == sb.size - sb.nlog && SuperOf(img.virt) == sb
      && At(img, ps, k, c)
    modifies img
    ensures At(img, ps, k + 1, c1) && |img.sectors| == |old(img.sectors)| && |img.virt| == |old(img.virt)|
    ensures SB < |img.virt| && SuperOf(img.virt) == sb
  {
    hide FsOk, Geo, GetSuper, FreeTail, FD.NoHoles, Need, File, Built, Only, Fits, RootOk, WfTable, WfDinode;
    hide N.Unique, N.Dir, N.Key;
    FitsNext(ps, sb, k);
    TableFacts(img.virt, img.T, img.owner);
    ghost var v0, T0 := img.virt, img.T;
    var inum := img.Ialloc(T_FILE);
    NewFile(img.virt, img.T, inum, T_FILE);
    NewOnly(v0, T0, img.virt, img.T, inum);
    BuiltNext(v0, T0, img.virt, img.T, ps, k, c);
    ghost var v1, T1 := img.virt, img.T;
    var name := N.Strncpy(Stripped(ps[k].name));
    BuiltFacts(v1, T1, ps, k, c);
    c1 := AddEntry(img, inum, name, c);
    BuiltRoot(v1, T1, img.virt, img.T, ps, k, c, c1);
    OnlySuper(v1, T1, img.virt, img.T, ROOTINO);
    ghost var v2, T2 := img.virt, img.T;
    AppendAll(img, inum, ps[k].data);
    OnlySuper(v2, T2, img.virt, img.T, inum);
    BuiltFile(v2, T2, img.virt, img.T, ps, k, c1);
  }

  lemma TableFacts(virt: seq<Block>, T: seq<Dinode>, owner: map<nat, Slot>)
    requires FsOk(virt, T, owner, -1)
    ensures SB < |virt| && |T| == SuperOf(virt).ninodes
  {
  }

  lemma BuiltFacts(virt: seq<Block>, T: seq<Dinode>, ps: seq<Program>, k: nat, c: seq<byte>)
    requires k <= |ps| && Built(virt, T, ps, k, c)
    ensures |c| == RootSize(k) && N.WholeEntries(c) && File(virt, T, ROOTINO, D.T_DIR, c)
  {
    hide File, N.Unique, N.Dir, N.Key, RootDir;
    RootWhole(k, c);
  }

  lemma OnlySuper(v0: seq<Block>, T0: seq<Dinode>, v1: seq<Block>, T1: seq<Dinode>, i: nat)
    requires Only(v0, T0, v1, T1, i) && SB < |v0| == |v1|
    ensures SuperOf(v1) == SuperOf(v0)
  {
    hide Geo, GetSuper, FD.OthersSame;
  }

  lemma Dots()
    ensures N.Key([DOT]) == [DOT] && N.Key([DOT, DOT]) == [DOT, DOT] && [DOT] != [DOT, DOT]
  {
    assert N.Prefix([DOT], 14) == [DOT] + N.Prefix([], 13);
    assert [DOT, DOT][1..] == [DOT];
    assert N.Prefix([DOT, DOT], 14) == [DOT] + N.Prefix([DOT], 13);
    assert N.Prefix([DOT], 13) == [DOT] + N.Prefix([], 12);
  }

  /** The image with the root directory's two own entries. */
  method Start(sb: Super, super: Block, ghost ps: seq<Program>) returns (img: Image, ghost c: seq<byte>)
    requires GetSuper(super) == sb && sb.size <= UINT && SB < sb.size - sb.nlog && Fits(ps, sb)
    ensures fresh(img) && At(img, ps, 0, c) && |img.sectors| == sb.size && SB < |img.virt| == sb.size - sb.nlog
      && SuperOf(img.virt) == sb
  {
    hide FsOk, Geo, GetSuper, FreeTail, FD.NoHoles, Need, File, Only, Fits, WfTable, WfDinode, N.Unique, N.Dir;
    hide N.Key, DataStart, Total;
    FitsStart(ps, sb);
    NeedNone();
    NeedGrows(16, 32);
    Dots();
    img := new Image(sb, super);
    ghost var v0, T0 := img.virt, img.T;
    var root := img.Ialloc(D.T_DIR);
    NewFile(img.virt, img.T, root, D.T_DIR);
    ghost var v1, T1 := img.virt, img.T;
    RootAlone(T0, T1);
    NoEntries();
    var dot := N.Strncpy([DOT]);
    var c1 := AddEntry(img, root, dot, []);
    ghost var v2, T2 := img.virt, img.T;
    OnlyAlone(v1, T1, v2, T2);
    OnlySuper(v1, T1, v2, T2, ROOTINO);
    var dots := N.Strncpy([DOT, DOT]);
    c := AddEntry(img, root, dots, c1);
    OnlyAlone(v2, T2, img.virt, img.T);
    OnlySuper(v2, T2, img.virt, img.T, ROOTINO);
    assert N.Dir(c) == RootDir(ps, 0);
    TotalNone(ps);
  }

  lemma TotalNone(ps: seq<Program>)
    ensures Total(ps, 0) == 0
  {
  }

  lemma FitsStart(ps: seq<Program>, sb: Super)
    requires Fits(ps, sb)
    ensures DataStart(sb) + Need(32) <= sb.size - sb.nlog && 2 <= sb.ninodes
  {
    hide Need, N.Key;
    TotalGrows(ps, 0, |ps|);
    NeedGrows(32, RootSize(|ps|));
  }

  lemma RootAlone(T0: seq<Dinode>, T1: seq<Dinode>)
    requires ROOTINO < |T0| && (forall i | 0 <= i < |T0| :: T0[i] == Blank())
      && T1 == T0[ROOTINO := Blank().(typ := D.T_DIR, nlink := 1)]
    ensures forall i | 0 <= i < |T1| && T1[i].typ == D.T_DIR :: i == ROOTINO
  {
  }

  lemma OnlyAlone(v0: seq<Block>, T0: seq<Dinode>, v1: seq<Block>, T1: seq<Dinode>)
    requires Only(v0, T0, v1, T1, ROOTINO) && forall i | 0 <= i < |T0| && T0[i].typ == D.T_DIR :: i == ROOTINO
    ensures forall i | 0 <= i < |T1| && T1[i].typ == D.T_DIR :: i == ROOTINO
  {
    hide Geo, GetSuper, WfTable, WfDinode, FD.OthersSame;
    OthersTyp(v0, T0, v1, T1, ROOTINO);
  }

  /** The bytes of file `i` once the root directory's size is rounded up and the bitmap is written. */
  lemma FinalBytes(v0: seq<Block>, T0: seq<Dinode>, v1: seq<Block>, home: seq<Block>, T1: seq<Dinode>, i: nat,
                   typ: nat, c: seq<byte>)
    requires WfTable(v0, T1) && WfTable(v1, T1) && WfTable(home, T1) && SameFiles(v0, v1, T1) && SameFiles(v1, home, T1)
    requires File(v0, T0, i, typ, c) && i < |T1| && T1[i].addrs == T0[i].addrs
    ensures |T1[i].addrs| == NDIRECT + 1
    ensures forall p | 0 <= p < FD.MAXBYTES :: FD.FileByte(home, T1, i, p) == if p < |c| then c[p] else 0
  {
    hide Geo, GetSuper, SameFiles;
    forall p | 0 <= p < FD.MAXBYTES ensures FD.FileByte(home, T1, i, p) == if p < |c| then c[p] else 0 {
      SameFilesAt(v0, v1, T1, i, p);
      SameFilesAt(v1, home, T1, i, p);
      assert FD.FileByte(v0, T1, i, p) == FD.FileByte(v0, T0, i, p);
      assert p < |c| ==> c[p] == FD.Contents(v0, T0, i)[p];
    }
  }

  /** What the finished image holds: each program's file, and a root directory that names them. */
  ghost predicate Holds(home: seq<Block>, T: seq<Dinode>, ps: seq<Program>) {
    && (forall k | 0 <= k < |ps| && 2 + k < |T| :: T[2 + k].typ == T_FILE && D.Data(home, T, 2 + k) == ps[k].data)
    && |ps| + 2 <= |T| && T[ROOTINO].typ == D.T_DIR
    && (RootSize(|ps|) < FD.MAXBYTES ==>
          && (D.TreeOk(home, T) <==> Distinct(ps))
          && (Distinct(ps) ==> D.DirOf(home, T, ROOTINO) == RootDir(ps, |ps|)))
  }

  lemma {:induction false} RootTargets(ps: seq<Program>, k: nat, key: seq<byte>)
    requires k <= |ps| && key in RootDir(ps, k)
    ensures RootDir(ps, k)[key] == ROOTINO || 2 <= RootDir(ps, k)[key] < 2 + k
  {
    hide N.Key;
    if k > 0 && key != N.Key(Stripped(ps[k-1].name)) {
      RootTargets(ps, k - 1, key);
    }
  }

  /** A program's file in the finished image. */
  lemma FinalFile(v0: seq<Block>, T0: seq<Dinode>, v1: seq<Block>, home: seq<Block>, T1: seq<Dinode>, i: nat,
                  typ: nat, c: seq<byte>)
    requires WfTable(v0, T1) && WfTable(v1, T1) && WfTable(home, T1) && SameFiles(v0, v1, T1) && SameFiles(v1, home, T1)
    requires File(v0, T0, i, typ, c) && i < |T1| && T1[i] == T0[i]
    ensures T1[i].typ == typ && D.Data(home, T1, i) == c
  {
    hide Geo, GetSuper, WfTable, WfDinode, SameFiles, FD.FileByte, Tight;
    FinalBytes(v0, T0, v1, home, T1, i, typ, c);
  }

  /** The finished root directory: the entries, then zeros. */
  lemma FinalRoot(v0: seq<Block>, T0: seq<Dinode>, v1: seq<Block>, home: seq<Block>, T1: seq<Dinode>, c: seq<byte>)
    requires WfTable(v0, T1) && WfTable(v1, T1) && WfTable(home, T1) && SameFiles(v0, v1, T1) && SameFiles(v1, home, T1)
    requires File(v0, T0, ROOTINO, D.T_DIR, c) && |c| < FD.MAXBYTES
      && T1 == WithSize(T0, ROOTINO, (|c| / BSIZE + 1) * BSIZE)
    ensures T1[ROOTINO].typ == D.T_DIR
    ensures var c1 := D.Data(home, T1, ROOTINO);
      c <= c1 && |c1| == (|c| / BSIZE + 1) * BSIZE && forall p | |c| <= p < |c1| :: c1[p] == 0
  {
    hide Geo, GetSuper, WfTable, WfDinode, SameFiles, FD.FileByte, Tight;
    FinalBytes(v0, T0, v1, home, T1, ROOTINO, D.T_DIR, c);
  }

  lemma RootEntries(T: seq<Dinode>, ps: seq<Program>, c: seq<byte>, c1: seq<byte>)
    requires RootOk(ps, |ps|, c) && ROOTINO < |T| && |ps| + 2 <= |T| && T[ROOTINO].typ == D.T_DIR
    requires forall i | 2 <= i < 2 + |ps| :: T[i].typ == T_FILE
    requires c <= c1 && |c1| == (|c| / BSIZE + 1) * BSIZE && forall p | |c| <= p < |c1| :: c1[p] == 0
    ensures N.WholeEntries(c1) && (N.Unique(c1) <==> Distinct(ps)) && (Distinct(ps) ==> N.Dir(c1) == RootDir(ps, |ps|))
    ensures Distinct(ps) ==> forall key | key in N.Dir(c1) :: N.Dir(c1)[key] < |T| && T[N.Dir(c1)[key]].typ != 0
  {
    hide RootDir, N.Key, N.Unique, N.Dir, N.WholeEntries;
    RootWhole(|ps|, c);
    BlocksWhole(c1, |c| / BSIZE + 1);
    PaddedDir(c, c1);
    hide RootOk, DistinctTo;
    if Distinct(ps) {
      forall key | key in N.Dir(c1) ensures N.Dir(c1)[key] < |T| && T[N.Dir(c1)[key]].typ != 0 {
        RootTargets(ps, |ps|, key);
      }
    }
  }

  lemma BlocksWhole(c: seq<byte>, n: nat)
    requires |c| == n * BSIZE
    ensures N.WholeEntries(c)
  {
  }

  lemma OnlyRoot(home: seq<Block>, T: seq<Dinode>)
    requires ROOTINO < |T| && (forall i | 0 <= i < |T| && T[i].typ == D.T_DIR :: i == ROOTINO)
      && T[ROOTINO].typ == D.T_DIR
    ensures D.TreeOk(home, T) <==> D.DirOk(home, T, ROOTINO)
  {
    hide D.DirOk;
  }

  lemma Finished(v0: seq<Block>, T0: seq<Dinode>, v1: seq<Block>, home: seq<Block>, T1: seq<Dinode>,
                 ps: seq<Program>, c: seq<byte>)
    requires Built(v0, T0, ps, |ps|, c) && WfTable(v0, T1) && WfTable(v1, T1) && WfTable(home, T1)
    requires SameFiles(v0, v1, T1) && SameFiles(v1, home, T1)
    requires ROOTINO < |T0| && T1 == WithSize(T0, ROOTINO, (RootSize(|ps|) / BSIZE + 1) * BSIZE) && |ps| + 2 <= |T0|
    ensures Holds(home, T1, ps)
  {
    hide Geo, GetSuper, WfTable, WfDinode, SameFiles, RootDir, D.TreeOk, D.Data, File, N.Unique, N.Dir;
    forall k | 0 <= k < |ps| && 2 + k < |T1| ensures T1[2 + k].typ == T_FILE && D.Data(home, T1, 2 + k) == ps[k].data {
      FinalFile(v0, T0, v1, home, T1, 2 + k, T_FILE, ps[k].data);
    }
    RootType(v0, T0, c);
    if RootSize(|ps|) < FD.MAXBYTES {
      FinalRoot(v0, T0, v1, home, T1, c);
      forall i | 2 <= i < 2 + |ps| ensures T1[i].typ == T_FILE {
        FinalFile(v0, T0, v1, home, T1, 2 + (i - 2), T_FILE, ps[i - 2].data);
      }
      RootEntries(T1, ps, c, D.Data(home, T1, ROOTINO));
      OnlyRoot(home, T1);
    }
  }

  lemma RootType(virt: seq<Block>, T: seq<Dinode>, c: seq<byte>)
    requires File(virt, T, ROOTINO, D.T_DIR, c)
    ensures ROOTINO < |T| && T[ROOTINO].typ == D.T_DIR
  {
  }

  /** A blank log: a first start of the kernel finds the home sectors as they are. */
  lemma BlankLog(sectors: seq<Block>, start: nat, size: nat)
    requires SB < start && 1 < size && start + size <= |sectors| && sectors[start] == Zeros()
    ensures L.RecoversTo(sectors, start, size, sectors[..start])
  {
    ZeroWord(0);
  }

  /** main, for an image on which everything fits. */
  method Make(sb: Super, super: Block, ps: seq<Program>) returns (img: Image)
    requires GetSuper(super) == sb && sb.size <= UINT && SB < sb.size - sb.nlog && 1 < sb.nlog && Fits(ps, sb)
    requires DataStart(sb) + Need(RootSize(|ps|)) + Total(ps, |ps|) < BPB
    ensures fresh(img) && |img.sectors| == sb.size
    ensures var home := img.sectors[..sb.size - sb.nlog];
      && FsOk(home, img.T, img.owner, -1) && SuperOf(home) == sb && Holds(home, img.T, ps)
      && (FD.NoHoles(home, img.T) <==> RootSize(|ps|) % BSIZE != 0)
      && (forall b | 0 <= b < sb.size ::
            BitSet(home, b) <==> b < DataStart(sb) + Need(RootSize(|ps|)) + Total(ps, |ps|))
      && L.RecoversTo(img.sectors, |home|, sb.nlog, home)
  {
    hide FsOk, Geo, GetSuper, FreeTail, FD.NoHoles, Need, File, Fits, Holds, WfTable, WfDinode, DataStart, Total;
    hide Used, RootOk, SameFiles, L.RecoversTo;
    ghost var c;
    img, c := Start(sb, super, ps);
    var k := 0;
    while k < |ps|
      invariant k <= |ps| && fresh(img) && At(img, ps, k, c) && |img.sectors| == sb.size
      invariant SB < |img.virt| == sb.size - sb.nlog && SuperOf(img.virt) == sb
    {
      c := AddProgram(img, ps, k, c, sb);
      k := k + 1;
    }
    Close(img, sb, ps, c);
  }

  /** The end of main: the root directory is rounded up and the bitmap written. */
  method Close(img: Image, sb: Super, ghost ps: seq<Program>, ghost c: seq<byte>)
    requires At(img, ps, |ps|, c) && |img.sectors| == sb.size && SB < |img.virt| == sb.size - sb.nlog
      && SuperOf(img.virt) == sb && 1 < sb.nlog
    requires Fits(ps, sb) && DataStart(sb) + Need(RootSize(|ps|)) + Total(ps, |ps|) < BPB
    modifies img
    ensures |img.sectors| == sb.size
    ensures var home := img.sectors[..sb.size - sb.nlog];
      && FsOk(home, img.T, img.owner, -1) && SB < |home| && SuperOf(home) == sb && Holds(home, img.T, ps)
      && (FD.NoHoles(home, img.T) <==> RootSize(|ps|) % BSIZE != 0)
      && (forall b | 0 <= b < sb.size ::
            BitSet(home, b) <==> b < DataStart(sb) + Need(RootSize(|ps|)) + Total(ps, |ps|))
      && L.RecoversTo(img.sectors, |home|, sb.nlog, home)
  {
    hide FsOk, Geo, GetSuper, FreeTail, FD.NoHoles, Need, Tight, Fits, Holds, WfTable, WfDinode, DataStart, Total;
    hide Used, RootOk, SameFiles, L.RecoversTo;
    FitsInodes(ps, sb);
    TableFacts(img.virt, img.T, img.owner);
    ghost var v0, T0 := img.virt, img.T;
    RootFacts(v0, T0, ps, c);
    img.FixRoot(ROOTINO);
    ghost var v1 := img.virt;
    img.Balloc(img.usedblocks);
    ghost var home := img.sectors[..sb.size - sb.nlog];
    assert home == img.sectors[..|img.virt|];
    FsFactsHere(home, img.T, img.owner);
    HolesSame(v1, home, img.T);
    Finished(v0, T0, v1, home, img.T, ps, c);
    BlankLog(img.sectors, sb.size - sb.nlog, sb.nlog);
  }

  lemma FitsInodes(ps: seq<Program>, sb: Super)
    requires Fits(ps, sb)
    ensures |ps| + 2 <= sb.ninodes
  {
    hide Need, N.Key;
  }

  lemma RootFacts(virt: seq<Block>, T: seq<Dinode>, ps: seq<Program>, c: seq<byte>)
    requires Built(virt, T, ps, |ps|, c)
    ensures ROOTINO < |T| && |T[ROOTINO].addrs| == NDIRECT + 1 && Tight(virt, T, ROOTINO, T[ROOTINO].size)
      && T[ROOTINO].size == RootSize(|ps|)
  {
    hide N.Unique, N.Dir, N.Key, Tight;
  }

  lemma HolesSame(v0: seq<Block>, v1: seq<Block>, T: seq<Dinode>)
    requires WfTable(v0, T) && WfTable(v1, T) && SameFiles(v0, v1, T)
    ensures FD.NoHoles(v1, T) <==> FD.NoHoles(v0, T)
  {
    hide GetSuper, Geo, FD.Mapped, FD.FileByte;
  }
}
