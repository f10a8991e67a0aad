/**
 What a file is: the sequence of its bytes, read through the block addresses of
 its inode.
 */
module FileData {
  import opened Base
  import opened Blocks
  import opened Layout
  import opened Ownership

  const MAXBYTES: nat := 71680  // MAXFILE * BSIZE

  /** Byte `p` of inode `i`; a block without address reads as zeros. */
  ghost function FileByte(home: seq<Block>, T: seq<Dinode>, i: nat, p: nat): byte
    requires i < |T| && p < MAXBYTES && |T[i].addrs| == NDIRECT + 1
  {
    var a := SlotAddr(home, T, i, FileSlot(p / BSIZE));
    if a == 0 || a >= |home| then 0 else home[a][p % BSIZE]
  }

  ghost predicate Mapped(home: seq<Block>, T: seq<Dinode>, i: nat, bn: nat)
    requires i < |T| && bn < MAXFILE && |T[i].addrs| == NDIRECT + 1
  {
    SlotAddr(home, T, i, FileSlot(bn)) != 0
  }

  /** No holes among the first `n` bytes. */
  ghost predicate MappedTo(home: seq<Block>, T: seq<Dinode>, i: nat, n: nat)
    requires i < |T| && |T[i].addrs| == NDIRECT + 1
  {
    n <= MAXBYTES && forall bn | 0 <= bn < MAXFILE && bn * BSIZE < n :: Mapped(home, T, i, bn)
  }

  ghost predicate NoHoles(home: seq<Block>, T: seq<Dinode>)
    requires WfTable(home, T)
  {
    forall i | 0 <= i < |T| :: T[i].size <= MAXBYTES && MappedTo(home, T, i, T[i].size)
  }

  /** The file: its bytes up to its size. */
  ghost function Contents(home: seq<Block>, T: seq<Dinode>, i: nat): (c: seq<byte>)
    requires i < |T| && T[i].size <= MAXBYTES && |T[i].addrs| == NDIRECT + 1
    ensures |c| == T[i].size
    ensures forall p | 0 <= p < |c| :: c[p] == FileByte(home, T, i, p)
  {
    seq(T[i].size, p requires 0 <= p < T[i].size => FileByte(home, T, i, p))
  }

  /** `was` with `src` stored from offset `off` on, longer if need be. */
  ghost function Overwrite(was: seq<byte>, off: nat, src: seq<byte>): (c: seq<byte>)
    requires off <= |was|
    ensures |c| == if src != [] && off + |src| > |was| then off + |src| else |was|
    ensures forall p | 0 <= p < |c| :: c[p] == if off <= p < off + |src| then src[p - off] else was[p]
  {
    if off + |src| <= |was| then was[..off] + src + was[off + |src|..] else was[..off] + src
  }

  /** Every file except `i` has the same inode and the same bytes, even past its end. */
  ghost predicate OthersSame(h0: seq<Block>, T0: seq<Dinode>, h1: seq<Block>, T1: seq<Dinode>, i: nat)
    requires WfTable(h0, T0) && WfTable(h1, T1)
  {
    && |T1| == |T0|
    && (forall j | 0 <= j < |T0| && j != i :: T1[j] == T0[j])
    && (forall j, p | 0 <= j < |T0| && j != i && 0 <= p < MAXBYTES :: FileByte(h1, T1, j, p) == FileByte(h0, T0, j, p))
    && (forall j, bn | 0 <= j < |T0| && j != i && 0 <= bn < MAXFILE :: Mapped(h1, T1, j, bn) == Mapped(h0, T0, j, bn))
  }

  lemma ExtendsBytes(h0: seq<Block>, T0: seq<Dinode>, h1: seq<Block>, T1: seq<Dinode>, i: nat)
    requires WfTable(h0, T0) && WfTable(h1, T1) && Extends(h0, T0, h1, T1, i)
    ensures OthersSame(h0, T0, h1, T1, i)
    ensures forall bn | 0 <= bn < MAXFILE && Mapped(h0, T0, i, bn) :: Mapped(h1, T1, i, bn)
    ensures forall p | 0 <= p < MAXBYTES && Mapped(h0, T0, i, p / BSIZE) ::
      FileByte(h1, T1, i, p) == FileByte(h0, T0, i, p)
  {
    hide Geo, GetSuper, SlotAddr, WfDinode;
  }

  lemma SlotApart(bn: nat, cn: nat)
    requires bn < MAXFILE && cn < MAXFILE
    ensures FileSlot(bn) == FileSlot(cn) <==> bn == cn
  {
  }

  /** Storing a block at the address of file block `bn` changes the bytes of that block of that file only. */
  lemma WriteBytes(home: seq<Block>, T: seq<Dinode>, owner: map<nat, Slot>, i: nat, bn: nat, data: Block)
    requires WfTable(home, T) && Own(home, T, owner) && BitsOk(home, owner.Keys)
    requires i < |T| && bn < MAXFILE && SlotAddr(home, T, i, FileSlot(bn)) != 0
    ensures SlotAddr(home, T, i, FileSlot(bn)) < |home|
    ensures var h1 := home[SlotAddr(home, T, i, FileSlot(bn)) := data];
      && WfTable(h1, T) && Own(h1, T, owner) && BitsOk(h1, owner.Keys)
      && OthersSame(home, T, h1, T, i)
      && (forall cn | 0 <= cn < MAXFILE :: Mapped(h1, T, i, cn) == Mapped(home, T, i, cn))
      && (forall p | 0 <= p < MAXBYTES :: FileByte(h1, T, i, p) ==
            if p / BSIZE == bn then data[p % BSIZE] else FileByte(home, T, i, p))
  {
    hide Geo, GetSuper, SlotAddr, Own, BitsOk, FileSlot;
    var a := SlotAddr(home, T, i, FileSlot(bn));
    DataWrite(home, T, owner, i, FileSlot(bn), data);
    var h1 := home[a := data];
    forall j, p | 0 <= j < |T| && 0 <= p < MAXBYTES
      ensures FileByte(h1, T, j, p) == if j == i && p / BSIZE == bn then data[p % BSIZE] else FileByte(home, T, j, p)
    {
      SlotApart(p / BSIZE, bn);
      AddrApart(home, T, owner, i, FileSlot(bn), j, FileSlot(p / BSIZE));
    }
  }

  /** Different slots never hold the same address. */
  lemma AddrApart(home: seq<Block>, T: seq<Dinode>, owner: map<nat, Slot>, i: nat, k: nat, j: nat, m: nat)
    requires WfTable(home, T) && Own(home, T, owner) && i < |T| && k < NSLOT && j < |T| && m < NSLOT
    requires SlotAddr(home, T, i, k) != 0
    ensures SlotAddr(home, T, j, m) == SlotAddr(home, T, i, k) ==> i == j && k == m
  {
    hide SlotAddr;
  }

  lemma OthersTrans(h0: seq<Block>, T0: seq<Dinode>, h1: seq<Block>, T1: seq<Dinode>, h2: seq<Block>,
                    T2: seq<Dinode>, i: nat)
    requires WfTable(h0, T0) && WfTable(h1, T1) && WfTable(h2, T2)
    requires OthersSame(h0, T0, h1, T1, i) && OthersSame(h1, T1, h2, T2, i)
    ensures OthersSame(h0, T0, h2, T2, i)
  {
    hide Geo, GetSuper, FileByte, Mapped;
  }
}
