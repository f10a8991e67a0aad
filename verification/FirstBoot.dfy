/**
 From mkfs to the running kernel: booting from a fresh image gives a file system
 in which the kernel's invariants hold and the root directory names the programs.
 */
module FirstBoot {
  import opened Base
  import opened Blocks
  import opened Layout
  import opened Ownership
  import opened Inodes
  import opened FileIO
  import opened Mkfs
  import opened MakeImage
  import D = Directories
  import N = Names
  import FD = FileData
  import L = RedoLog
  import C = CrashSafety

  /** The superblock of a consistent image describes its log area. */
  lemma DescribedHere(home: seq<Block>, T: seq<Dinode>, owner: map<nat, Slot>)
    requires FsOk(home, T, owner, -1)
    ensures SB < |home| && C.Described(home, |home|, SuperOf(home).nlog)
  {
  }

  lemma TreeHere(home: seq<Block>, T: seq<Dinode>, ps: seq<Program>)
    requires Holds(home, T, ps) && RootSize(|ps|) < FD.MAXBYTES
    ensures (D.TreeOk(home, T) <==> Distinct(ps)) && (Distinct(ps) ==> D.DirOf(home, T, ROOTINO) == RootDir(ps, |ps|))
  {
  }

  /** For example, thirty programs fill the last block of the root directory, and the image has a hole. */
  method HoleExample(sb: Super, super: Block, ps: seq<Program>) returns (img: Image)
    requires GetSuper(super) == sb && sb.size <= UINT && SB < sb.size - sb.nlog && 1 < sb.nlog && Fits(ps, sb)
    requires DataStart(sb) + Need(RootSize(|ps|)) + Total(ps, |ps|) < BPB && |ps| == 30
    ensures |img.sectors| == sb.size && var home := img.sectors[..sb.size - sb.nlog];
      FsOk(home, img.T, img.owner, -1) && !FD.NoHoles(home, img.T)
  {
    hide FsOk, Geo, GetSuper, FD.NoHoles, Need, Fits, Holds, DataStart, Total, BitSet, L.RecoversTo;
    assert RootSize(30) % BSIZE == 0;
    img := Make(sb, super, ps);
  }

  /** For example, on an image without a free home block balloc hands out the first block of the log. */
  method FullDisk(sb: Super, super: Block, ps: seq<Program>) returns (r: Alloc)
    requires GetSuper(super) == sb && sb.size <= UINT && SB < sb.size - sb.nlog && L.LOGSIZE <= sb.nlog && Fits(ps, sb)
    requires DataStart(sb) + Need(RootSize(|ps|)) + Total(ps, |ps|) == sb.size - sb.nlog < BPB && sb.size < BPB
    ensures r == LogArea(sb.size - sb.nlog)
  {
    hide FsOk, Geo, GetSuper, FD.NoHoles, Need, Fits, Holds, DataStart, Total, BitSet, L.RecoversTo, L.Log.Valid;
    hide D.TreeOk, RootDir, UsedUpTo, MetadataUsed, Bitmap, FreshBlock;
    var fs := Start(sb, super, ps);
    var _ := fs.log.BeginTrans();
    FullHere(fs.log.home, fs.T, fs.owner, sb);
    r := fs.Balloc();
  }

  lemma FullHere(home: seq<Block>, T: seq<Dinode>, owner: map<nat, Slot>, sb: Super)
    requires FsOk(home, T, owner, -1) && SB < |home| && SuperOf(home) == sb && |home| == sb.size - sb.nlog
      && 0 < sb.nlog
    requires forall b | 0 <= b < sb.size :: BitSet(home, b) <==> b < |home|
    ensures MetadataUsed(home) && (forall n: nat :: UsedUpTo(home, n) <==> n <= |home|) && !UsedUpTo(home, sb.size)
    ensures sb.size < BPB ==> |Bitmap(sb)| == 1
  {
    GeoFacts(home);
    HomeBits(home);
    hide GetSuper, BitSet, Used, Own, TableOk, DataStart;
    forall n: nat ensures UsedUpTo(home, n) <==> n <= |home| {
      assert n > |home| ==> !BitSet(home, |home|) && |home| < sb.size;
    }
    if sb.size < BPB {
      OneBitmapBlock(home);
    }
  }

  /**
   mkfs and the first boot. The kernel starts with its invariants, which need that
   there are no holes, exactly if the root directory did not fill its last block.
   */
  method Start(sb: Super, super: Block, ps: seq<Program>) returns (fs: Fs)
    requires GetSuper(super) == sb && sb.size <= UINT && SB < sb.size - sb.nlog && 1 < sb.nlog && Fits(ps, sb)
    requires DataStart(sb) + Need(RootSize(|ps|)) + Total(ps, |ps|) < BPB
    ensures fresh(fs) && fresh(fs.log) && fresh(fs.log.cache) && fresh(fs.log.disk)
    ensures fs.Consistent(-1) && fs.log.held == map[] && fs.log.edited == {} && fs.log.logged == {} && !fs.log.busy
    ensures SB < |fs.log.home| == fs.log.start == sb.size - sb.nlog && SuperOf(fs.log.home) == sb
    ensures Holds(fs.log.home, fs.T, ps) && fs.log.size == sb.nlog
    ensures D.Quiet(fs) <==> RootSize(|ps|) % BSIZE != 0
    ensures RootSize(|ps|) < FD.MAXBYTES ==>
      && (D.TreeOk(fs.log.home, fs.T) <==> Distinct(ps))
      && (Distinct(ps) ==> D.DirOf(fs.log.home, fs.T, ROOTINO) == RootDir(ps, |ps|))
    ensures forall b | 0 <= b < sb.size ::
      BitSet(fs.log.home, b) <==> b < DataStart(sb) + Need(RootSize(|ps|)) + Total(ps, |ps|)
  {
    hide FsOk, Geo, GetSuper, FD.NoHoles, Need, Fits, Holds, DataStart, Total, BitSet, L.RecoversTo, L.Log.Valid;
    hide C.Described, D.TreeOk, RootDir, Distinct;
    var img := Make(sb, super, ps);
    ghost var home := img.sectors[..sb.size - sb.nlog];
    FsFactsHere(home, img.T, img.owner);
    DescribedHere(home, img.T, img.owner);
    var log := C.Boot(img.sectors, |home|, sb.nlog, home);
    fs := new Fs(log);
    fs.T, fs.owner := img.T, img.owner;
    if RootSize(|ps|) < FD.MAXBYTES {
      TreeHere(home, fs.T, ps);
    }
  }

  /**
   From the command line of mkfs to a path in the kernel: a program whose name is
   stored as `ws[k]` is found at "/" followed by that name, with its bytes.
   */
  method FindProgram(sb: Super, super: Block, ps: seq<Program>, ws: seq<seq<byte>>, k: nat) returns (fs: Fs, r: int)
    requires GetSuper(super) == sb && sb.size <= UINT && SB < sb.size - sb.nlog && 1 < sb.nlog && Fits(ps, sb)
    requires DataStart(sb) + Need(RootSize(|ps|)) + Total(ps, |ps|) < BPB
    requires RootSize(|ps|) % BSIZE != 0 && RootSize(|ps|) < FD.MAXBYTES
    requires |ws| == |ps| && (forall j | 0 <= j < |ps| :: StoredAs(ps[j].name, ws[j])) && Apart(ws, |ws|)
    requires k < |ps| && ws[k] != [] && 47 !in ws[k] && 0 !in ws[k]
    ensures D.Quiet(fs) && r == 2 + k < |fs.T| && fs.T[r].typ == 2 && D.Data(fs.log.home, fs.T, r) == ps[k].data
  {
    hide FsOk, Geo, GetSuper, FD.NoHoles, Need, Fits, DataStart, Total, BitSet, L.Log.Valid, D.TreeOk, RootDir;
    hide D.Quiet, N.Key, Apart, N.Components, DistinctTo, StoredAs, D.NameFound, D.DirOf, RootSize;
    StoredNames(ps, ws, |ps|);
    StoredAt(ps, ws, k);
    fs := Start(sb, super, ps);
    ghost var home, T := fs.log.home, fs.T;
    N.ComponentsLaws(ws[k], []);
    N.ComponentsLaws([], ws[k]);
    assert ws[k] + [] == ws[k];
    var path := [N.SLASH] + ws[k];
    assert N.Components(path) == [N.Key(ws[k])];
    var name;
    r, name := D.Namex(fs, ROOTINO, path, false);
    OneStep(home, T, N.Key(ws[k]), 2 + k, r);
  }

  lemma StoredAt(ps: seq<Program>, ws: seq<seq<byte>>, k: nat)
    requires k < |ws| == |ps| && Apart(ws, |ps|) && 0 !in ws[k]
    requires forall j | 0 <= j < |ps| :: StoredAs(ps[j].name, ws[j])
    ensures Distinct(ps) && N.Key(ws[k]) in RootDir(ps, |ps|) && RootDir(ps, |ps|)[N.Key(ws[k])] == 2 + k
    ensures N.Key(ws[k]) == if |ws[k]| > 14 then ws[k][..14] else ws[k]
  {
    hide StoredAs, RootDir, DistinctTo;
    StoredNames(ps, ws, |ps|);
    N.PrefixPlain(ws[k], N.DIRSIZ);
  }

  /** A path of one name leads where the root directory's map says. */
  lemma OneStep(home: seq<Block>, T: seq<Dinode>, key: seq<byte>, i: nat, r: int)
    requires D.NameFound(home, T, ROOTINO, [key], false, r) && ROOTINO < |T| && T[ROOTINO].typ == D.T_DIR
    requires key in D.DirOf(home, T, ROOTINO) && D.DirOf(home, T, ROOTINO)[key] == i
    ensures r == i
  {
    hide D.DirOf, D.Walk;
    assert D.Leads(home, T, ROOTINO, [key], [ROOTINO, i], i);
    assert D.Reaches(home, T, ROOTINO, [key], i);
    D.WalkIff(home, T, ROOTINO, [key]);
  }
}
