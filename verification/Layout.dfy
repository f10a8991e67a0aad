/**
 The on-disk layout (fs.h): superblock, inode blocks, free bitmap, data blocks,
 log. The content of the home sectors is a sequence `home` of blocks.
 */
module Layout {
  import opened Base
  import opened Blocks
  import Sets

  const NDIRECT: nat := 12
  const NINDIRECT: nat := 128
  const MAXFILE: nat := 140  // NDIRECT + NINDIRECT
  const IPB: nat := 8
  const BPB: nat := 4096   // BSIZE * 8
  const NSLOT: nat := 141       // addresses of an inode: direct, indirect block, its entries

  datatype Super = Super(size: nat, nblocks: nat, ninodes: nat, nlog: nat)

  function GetSuper(b: Block): Super {
    Super(Word(b, 0), Word(b, 1), Word(b, 2), Word(b, 3))
  }

  function InodeBlock(i: nat): nat { i / IPB + 2 }

  function BitBlock(sb: Super, b: nat): nat { b / BPB + sb.ninodes / IPB + 3 }

  /** Number of the bit of block `b` within its bitmap block. */
  function BitIndex(b: nat): (r: nat)
    ensures r < BPB
  {
    b % BPB
  }

  /** Whether block `b` has the first bit of a bitmap block. */
  predicate FirstOf(b: nat) {
    b % BPB == 0
  }

  /** First block after the metadata, as mkfs computes it. */
  function DataStart(sb: Super): nat { sb.ninodes / IPB + 3 + sb.size / BPB + 1 }

  /** The blocks of the free bitmap. */
  function Bitmap(sb: Super): set<nat> {
    Sets.Range(sb.ninodes / IPB + 3, DataStart(sb))
  }

  /** `struct dinode`; the shorts as unsigned 16-bit values. */
  datatype Dinode = Dinode(typ: nat, major: nat, minor: nat, nlink: nat, size: nat, addrs: seq<nat>)

  ghost predicate WfDinode(d: Dinode) {
    && d.typ < SHORT && d.major < SHORT && d.minor < SHORT && d.nlink < SHORT
    && d.size < UINT && |d.addrs| == NDIRECT + 1 && forall k | 0 <= k <= NDIRECT :: d.addrs[k] < UINT
  }

  /** Inode `k` of an inode block: sixteen words, the first two holding two shorts each. */
  function GetInode(b: Block, k: nat): (d: Dinode)
    requires k < IPB
    ensures |d.addrs| == NDIRECT + 1
  {
    Dinode(Word(b, 16*k) % SHORT, Word(b, 16*k) / SHORT, Word(b, 16*k+1) % SHORT, Word(b, 16*k+1) / SHORT,
        Word(b, 16*k+2),
           Addrs(b, k))
  }

  function Addrs(b: Block, k: nat): (r: seq<nat>)
    requires k < IPB
    ensures |r| == NDIRECT + 1 && forall j | 0 <= j <= NDIRECT :: r[j] == Word(b, 16*k + 3 + j)
  {
    seq<nat>(NDIRECT + 1, j requires 0 <= j <= NDIRECT => Word(b, 16*k + 3 + j))
  }

  /** Inode blocks that agree on the words of inode `j` agree on that inode. */
  lemma SameInode(b: Block, c: Block, j: nat)
    requires j < IPB && forall w: nat | 16*j <= w < 16*j + 16 :: Word(b, w) == Word(c, w)
    ensures GetInode(b, j) == GetInode(c, j)
  {
    assert Addrs(b, j) == Addrs(c, j);
  }

  /** The superblock is consistent with the log area that starts at block `start`. */
  ghost predicate Geo(home: seq<Block>, start: nat) {
    && |home| == start && SB < start
    && var sb := GetSuper(home[SB]);
       sb.nlog <= sb.size && start == sb.size - sb.nlog && DataStart(sb) <= start
  }

  ghost function SuperOf(home: seq<Block>): Super
    requires SB < |home|
  {
    GetSuper(home[SB])
  }

  /** Whether block `b` is marked in the free bitmap. */
  ghost predicate Used(home: seq<Block>, b: nat)
    requires Geo(home, |home|) && b < |home|
  {
    Bit(home[BitBlock(SuperOf(home), b)], BitIndex(b))
  }

  /** The same for any block of the disk, those of the log included. */
  ghost predicate BitSet(home: seq<Block>, b: nat)
    requires SB < |home|
  {
    BitBlock(SuperOf(home), b) < |home| && Bit(home[BitBlock(SuperOf(home), b)], BitIndex(b))
  }

  /** The disk with the bitmap bit of block `b` set or cleared. */
  ghost function Marked(home: seq<Block>, b: nat, on: bool): (r: seq<Block>)
    requires Geo(home, |home|) && b < |home|
    ensures |r| == |home|
  {
    home[BitBlock(SuperOf(home), b) := PutBlockBit(home[BitBlock(SuperOf(home), b)], BitIndex(b), on)]
  }

  /** `after` is `before` with the free data block `b` marked and zeroed. */
  ghost predicate FreshBlock(before: seq<Block>, after: seq<Block>, b: nat)
    requires Geo(before, |before|)
  {
    && DataStart(SuperOf(before)) <= b < |before| && !Used(before, b)
    && after == Marked(before, b, true)[b := Zeros()]
  }
}
