/**
 Disk blocks as the kernel sees them: 512 bytes, read either as bytes, as
 little-endian 32-bit words (log header, indirect block, superblock, inode) or
 as a bit set (free bitmap).
 */
module Blocks {
  import opened Base

  const BSIZE: nat := 512
  const WORDS: nat := 128

  type Block = b: seq<byte> | |b| == BSIZE witness seq(BSIZE, i => 0)

  function Zeros(): (b: Block)
    ensures forall i | 0 <= i < BSIZE :: b[i] == 0
  {
    seq<byte>(BSIZE, i => 0)
  }

  /** The word at word index `i`, as a cast of the buffer to `uint*` reads it. */
  function Word(b: Block, i: nat): (w: nat)
    requires i < WORDS
    ensures w < UINT
  {
    b[4*i] as int + b[4*i+1] as int * 0x100 + b[4*i+2] as int * 0x1_0000 + b[4*i+3] as int * 0x100_0000
  }

  function SetWord(b: Block, i: nat, w: nat): (r: Block)
    requires i < WORDS && w < UINT
    ensures Word(r, i) == w
    ensures forall j: nat | j < WORDS && j != i :: Word(r, j) == Word(b, j)
  {
    b[..4*i] + [w % 0x100, w / 0x100 % 0x100, w / 0x1_0000 % 0x100, w / 0x100_0000] + b[4*i+4..]
  }

  lemma ZeroWord(i: nat)
    requires i < WORDS
    ensures Word(Zeros(), i) == 0
  {
  }

  // -------------------------------------------------------------- bit sets

  /** Bit `k` of a number: x & (1 << k). */
  predicate TestBit(x: nat, k: nat) {
    if k == 0 then x % 2 == 1 else TestBit(x / 2, k - 1)
  }

  /** x | (1 << k), or x & ~(1 << k), for a bit of a number of `w` bits. */
  function PutBit(x: nat, w: nat, k: nat, on: bool): (r: nat)
    requires k < w && x < Pow2(w)
    ensures r < Pow2(w)
  {
    if k == 0 then x / 2 * 2 + (if on then 1 else 0)
    else PutBit(x / 2, w - 1, k - 1, on) * 2 + x % 2
  }

  lemma {:induction false} PutBitAt(x: nat, w: nat, k: nat, on: bool)
    requires k < w && x < Pow2(w)
    ensures forall j: nat :: TestBit(PutBit(x, w, k, on), j) == if j == k then on else TestBit(x, j)
  {
    if k == 0 {
      PutLow(x, on);
    } else {
      PutBitAt(x / 2, w - 1, k - 1, on);
      var y := PutBit(x / 2, w - 1, k - 1, on);
      Shifted(x, y, y * 2 + x % 2, k, on);
    }
  }

  function Pow2(n: nat): nat {
    if n == 0 then 1 else 2 * Pow2(n - 1)
  }

  lemma PutLow(x: nat, on: bool)
    ensures forall j: nat :: TestBit(x / 2 * 2 + (if on then 1 else 0), j) == if j == 0 then on else TestBit(x, j)
  {
    var r := x / 2 * 2 + (if on then 1 else 0);
    assert r / 2 == x / 2;
    forall j: nat ensures TestBit(r, j) == if j == 0 then on else TestBit(x, j) {
      if j > 0 {
        assert TestBit(r, j) == TestBit(r / 2, j - 1);
      }
    }
  }

  /** `z` is `y` shifted up by one, with the lowest bit of `x`. */
  lemma Shifted(x: nat, y: nat, z: nat, k: nat, on: bool)
    requires k > 0 && z / 2 == y && z % 2 == x % 2
    requires forall j: nat :: TestBit(y, j) == if j == k - 1 then on else TestBit(x / 2, j)
    ensures forall j: nat :: TestBit(z, j) == if j == k then on else TestBit(x, j)
  {
    forall j: nat ensures TestBit(z, j) == if j == k then on else TestBit(x, j) {
      if j > 0 {
        assert TestBit(z, j) == TestBit(z / 2, j - 1) && TestBit(x, j) == TestBit(x / 2, j - 1);
        assert TestBit(y, j - 1) == if j - 1 == k - 1 then on else TestBit(x / 2, j - 1);
      }
    }
  }

  /** Bit `i` of a bitmap block. */
  predicate Bit(b: Block, i: nat)
    requires i < 8 * BSIZE
  {
    TestBit(b[i / 8], i % 8)
  }

  function PutBlockBit(b: Block, i: nat, on: bool): (r: Block)
    requires i < 8 * BSIZE
    ensures forall j: nat | j < 8 * BSIZE :: Bit(r, j) == if j == i then on else Bit(b, j)
  {
    PutBitAt(b[i / 8], 8, i % 8, on);
    b[i / 8 := PutBit(b[i / 8], 8, i % 8, on)]
  }
}
