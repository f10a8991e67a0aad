/**
 Which inode slot owns which block. `T` is the table of inodes as the kernel
 sees them (the in-core copy of an inode that is being changed, the disk copy
 of every other one); slots 0..11 of an inode are its direct addresses, slot 12
 its indirect block and the slots above it the entries of that block.
 */
module Ownership {
  import opened Base
  import opened Blocks
  import opened Layout

  const INDIRECT: nat := 12

  type Slot = (nat, nat)

  ghost function SlotAddr(home: seq<Block>, T: seq<Dinode>, i: nat, k: nat): nat
    requires i < |T| && k < NSLOT && |T[i].addrs| == NDIRECT + 1
  {
    if k <= INDIRECT then T[i].addrs[k]
    else if T[i].addrs[INDIRECT] == 0 || T[i].addrs[INDIRECT] >= |home| then 0
    else Word(home[T[i].addrs[INDIRECT]], k - INDIRECT - 1)
  }

  /** The slot that holds the address of block `bn` of a file. */
  function FileSlot(bn: nat): (k: nat)
    requires bn < MAXFILE
    ensures k < NSLOT && k != INDIRECT
  {
    if bn < NDIRECT then bn else bn + 1
  }

  ghost predicate WfTable(home: seq<Block>, T: seq<Dinode>) {
    Geo(home, |home|) && |T| == SuperOf(home).ninodes && forall i | 0 <= i < |T| :: WfDinode(T[i])
  }

  /** `owner` inverts the slots: every address in use is a data block with exactly one owner. */
  ghost predicate Own(home: seq<Block>, T: seq<Dinode>, owner: map<nat, Slot>)
    requires WfTable(home, T)
  {
    && (forall i, k | 0 <= i < |T| && 0 <= k < NSLOT && SlotAddr(home, T, i, k) != 0 ::
          SlotAddr(home, T, i, k) in owner && owner[SlotAddr(home, T, i, k)] == (i, k))
    && (forall b | b in owner :: OwnedBy(home, T, b, owner[b]))
  }

  ghost predicate OwnedBy(home: seq<Block>, T: seq<Dinode>, b: nat, s: Slot)
    requires WfTable(home, T)
  {
    && DataStart(SuperOf(home)) <= b < |home|
    && s.0 < |T| && s.1 < NSLOT && SlotAddr(home, T, s.0, s.1) == b
  }

  /** The bitmap marks the metadata and the owned blocks, and nothing else. */
  ghost predicate BitsOk(home: seq<Block>, owned: set<nat>)
    requires Geo(home, |home|)
  {
    forall b | 0 <= b < |home| :: Used(home, b) <==> b < DataStart(SuperOf(home)) || b in owned
  }

  /** The disk copy of every inode but `skip` is the one in the table. */
  ghost predicate TableOk(home: seq<Block>, T: seq<Dinode>, skip: int)
    requires WfTable(home, T)
  {
    forall i | 0 <= i < |T| && i != skip :: InodeBlock(i) < |home| && GetInode(home[InodeBlock(i)], i % IPB) == T[i]
  }

  /** A step for inode `i` that only adds blocks: other inodes and all file data stay. */
  ghost predicate Extends(h0: seq<Block>, T0: seq<Dinode>, h1: seq<Block>, T1: seq<Dinode>, i: nat)
    requires WfTable(h0, T0) && WfTable(h1, T1)
  {
    && |h1| == |h0| && |T1| == |T0| && i < |T0| && SuperOf(h1) == SuperOf(h0)
    && (forall j | 0 <= j < |T0| && j != i :: T1[j] == T0[j])
    && T1[i] == T0[i].(addrs := T1[i].addrs)
    && (forall s | 0 <= s < SuperOf(h0).ninodes / IPB + 3 && s < |h0| :: h1[s] == h0[s])
    && (forall j, k | 0 <= j < |T0| && 0 <= k < NSLOT && (j != i || SlotAddr(h0, T0, j, k) != 0) ::
          SlotAddr(h1, T1, j, k) == SlotAddr(h0, T0, j, k))
    && (forall j, k | 0 <= j < |T0| && 0 <= k < NSLOT && k != INDIRECT && 0 < SlotAddr(h0, T0, j, k) < |h0| ::
          h1[SlotAddr(h0, T0, j, k)] == h0[SlotAddr(h0, T0, j, k)])
  }

  lemma ExtendsRefl(home: seq<Block>, T: seq<Dinode>, i: nat)
    requires WfTable(home, T) && i < |T|
    ensures Extends(home, T, home, T, i)
  {
  }

  /** `T` with block `b` at direct or indirect-block slot `k` of inode `i`. */
  ghost function WithAddr(T: seq<Dinode>, i: nat, k: nat, b: nat): (r: seq<Dinode>)
    requires i < |T| && k < |T[i].addrs|
    ensures |r| == |T|
  {
    T[i := T[i].(addrs := T[i].addrs[k := b])]
  }

  lemma FreshFacts(h0: seq<Block>, h1: seq<Block>, b: nat)
    requires Geo(h0, |h0|) && FreshBlock(h0, h1, b)
    ensures Geo(h1, |h0|) && |h1| == |h0| && SuperOf(h1) == SuperOf(h0)
    ensures SB < SuperOf(h0).ninodes / IPB + 3 < DataStart(SuperOf(h0)) <= b < |h0| && h1[b] == Zeros()
    ensures forall s | 0 <= s < |h0| && s != b && !(SuperOf(h0).ninodes / IPB + 3 <= s < DataStart(SuperOf(h0))) ::
      h1[s] == h0[s]
    ensures forall c | 0 <= c < |h0| :: Used(h1, c) <==> c == b || Used(h0, c)
  {
    hide Word, PutBlockBit, DataStart, BitBlock;
    BitRange(h0, b);
    UsedAfter(h0, b, b, true);
    var m := Marked(h0, b, true);
    assert h1 == m[b := Zeros()];
    forall c | 0 <= c < |h0| ensures Used(h1, c) <==> c == b || Used(h0, c) {
      BitRange(h0, c);
      UsedAfter(h0, b, c, true);
      assert h1[BitBlock(SuperOf(h0), c)] == m[BitBlock(SuperOf(h0), c)];
    }
  }

  lemma BitRange(home: seq<Block>, b: nat)
    requires Geo(home, |home|) && b < |home|
    ensures SB < SuperOf(home).ninodes / IPB + 3 <= BitBlock(SuperOf(home), b) < DataStart(SuperOf(home)) <= |home|
  {
    hide Word;
  }

  lemma BitInject(sb: Super, b: nat, c: nat)
    requires BitBlock(sb, b) == BitBlock(sb, c) && BitIndex(b) == BitIndex(c)
    ensures b == c
  {
  }

  /** Changing one bit of the bitmap changes whether that block is marked, and no other. */
  lemma UsedAfter(home: seq<Block>, b: nat, c: nat, on: bool)
    requires Geo(home, |home|) && b < |home| && c < |home|
    ensures |Marked(home, b, on)| == |home|
    ensures Geo(Marked(home, b, on), |home|) && SuperOf(Marked(home, b, on)) == SuperOf(home)
    ensures Used(Marked(home, b, on), c) <==> if c == b then on else Used(home, c)
  {
    BitRange(home, b);
    BitRange(home, c);
    assert Geo(Marked(home, b, on), |home|) && SuperOf(Marked(home, b, on)) == SuperOf(home) by {
      hide Word, PutBlockBit, DataStart, BitBlock, BitIndex;
    }
    hide Word, DataStart, BitBlock, BitIndex, Bit, PutBlockBit, Geo;
    if BitBlock(SuperOf(home), b) == BitBlock(SuperOf(home), c) && BitIndex(b) == BitIndex(c) {
      BitInject(SuperOf(home), b, c);
    }
  }

  /** An indirect block in use is owned, hence marked and not the block being allocated. */
  lemma IndirectOwned(home: seq<Block>, T: seq<Dinode>, owner: map<nat, Slot>, j: nat)
    requires WfTable(home, T) && Own(home, T, owner) && j < |T| && T[j].addrs[INDIRECT] != 0
    ensures T[j].addrs[INDIRECT] in owner && owner[T[j].addrs[INDIRECT]] == (j, INDIRECT)
    ensures DataStart(SuperOf(home)) <= T[j].addrs[INDIRECT] < |home|
  {
    assert SlotAddr(home, T, j, INDIRECT) == T[j].addrs[INDIRECT];
  }

  /** What allocating block `b` for slot `(i, k)` with k <= 12 does to the slots. */
  lemma AllocFrame(h0: seq<Block>, h1: seq<Block>, T: seq<Dinode>, owner: map<nat, Slot>, i: nat, k: nat, b: nat,
                   j: nat, m: nat)
    requires WfTable(h0, T) && Own(h0, T, owner) && BitsOk(h0, owner.Keys) && FreshBlock(h0, h1, b)
    requires i < |T| && k <= INDIRECT && T[i].addrs[k] == 0 && j < |T| && m < NSLOT
    ensures |WithAddr(T, i, k, b)[j].addrs| == NDIRECT + 1
    ensures SlotAddr(h1, WithAddr(T, i, k, b), j, m) == if (j, m) == (i, k) then b else SlotAddr(h0, T, j, m)
  {
    hide FreshBlock, Used, GetSuper, Geo, DataStart;
    FreshFacts(h0, h1, b);
    FreshUnused(h0, h1, b);
    if T[j].addrs[INDIRECT] != 0 {
      IndirectOwned(h0, T, owner, j);
      assert Used(h0, T[j].addrs[INDIRECT]) && !Used(h0, b);
    }
    if m > INDIRECT {
      ZeroWord(m - INDIRECT - 1);
    }
  }

  lemma AllocSlot(h0: seq<Block>, h1: seq<Block>, T: seq<Dinode>, owner: map<nat, Slot>, i: nat, k: nat, b: nat)
    requires WfTable(h0, T) && Own(h0, T, owner) && BitsOk(h0, owner.Keys) && FreshBlock(h0, h1, b)
    requires i < |T| && k <= INDIRECT && T[i].addrs[k] == 0 && b < UINT
    ensures WfTable(h1, WithAddr(T, i, k, b)) && b != 0
    ensures SlotAddr(h1, WithAddr(T, i, k, b), i, k) == b
    ensures Own(h1, WithAddr(T, i, k, b), owner[b := (i, k)]) && BitsOk(h1, owner.Keys + {b})
    ensures Extends(h0, T, h1, WithAddr(T, i, k, b), i)
  {
    hide FreshBlock, Used, GetSuper, Geo, DataStart, SlotAddr;
    FreshFacts(h0, h1, b);
    var T1 := WithAddr(T, i, k, b);
    assert !Used(h0, b) by { FreshUnused(h0, h1, b); }
    forall j, m | 0 <= j < |T| && 0 <= m < NSLOT
      ensures SlotAddr(h1, T1, j, m) == if (j, m) == (i, k) then b else SlotAddr(h0, T, j, m)
    {
      AllocFrame(h0, h1, T, owner, i, k, b, j, m);
    }
    assert SlotAddr(h0, T, i, k) == 0 by { SlotDirect(h0, T, i, k); }
    assert b !in owner;
  }

  lemma SlotDirect(home: seq<Block>, T: seq<Dinode>, i: nat, k: nat)
    requires i < |T| && k <= INDIRECT && |T[i].addrs| == NDIRECT + 1
    ensures SlotAddr(home, T, i, k) == T[i].addrs[k]
  {
  }

  lemma FreshUnused(h0: seq<Block>, h1: seq<Block>, b: nat)
    requires Geo(h0, |h0|) && FreshBlock(h0, h1, b)
    ensures b < |h0| && !Used(h0, b)
  {
  }

  /** The disk after entering block `b` at index `x` of the indirect block `ind`. */
  ghost function WithEntry(home: seq<Block>, ind: nat, x: nat, b: nat): (r: seq<Block>)
    requires ind < |home| && x < NINDIRECT && b < UINT
    ensures |r| == |home|
  {
    home[ind := SetWord(home[ind], x, b)]
  }

  lemma EntryFrame(h0: seq<Block>, h1: seq<Block>, T: seq<Dinode>, owner: map<nat, Slot>, i: nat, x: nat, b: nat,
                   j: nat, m: nat)
    requires WfTable(h0, T) && Own(h0, T, owner) && BitsOk(h0, owner.Keys) && FreshBlock(h0, h1, b) && b < UINT
    requires i < |T| && x < NINDIRECT && T[i].addrs[INDIRECT] != 0 && j < |T| && m < NSLOT
    ensures |h1| == |h0| && T[i].addrs[INDIRECT] < |h1|
    ensures SlotAddr(WithEntry(h1, T[i].addrs[INDIRECT], x, b), T, j, m)
         == if (j, m) == (i, INDIRECT + 1 + x) then b else SlotAddr(h0, T, j, m)
  {
    hide FreshBlock, Used, GetSuper, Geo, DataStart, Word;
    FreshFacts(h0, h1, b);
    FreshUnused(h0, h1, b);
    IndirectOwned(h0, T, owner, i);
    if T[j].addrs[INDIRECT] != 0 {
      IndirectOwned(h0, T, owner, j);
    }
  }

  lemma AllocEntry(h0: seq<Block>, h1: seq<Block>, T: seq<Dinode>, owner: map<nat, Slot>, i: nat, x: nat, b: nat)
    requires WfTable(h0, T) && Own(h0, T, owner) && BitsOk(h0, owner.Keys) && FreshBlock(h0, h1, b) && b < UINT
    requires i < |T| && x < NINDIRECT && T[i].addrs[INDIRECT] != 0 && SlotAddr(h0, T, i, INDIRECT + 1 + x) == 0
    ensures |h1| == |h0| && T[i].addrs[INDIRECT] < |h1| && b != 0
    ensures var h2 := WithEntry(h1, T[i].addrs[INDIRECT], x, b);
      && WfTable(h2, T) && SlotAddr(h2, T, i, INDIRECT + 1 + x) == b
      && Own(h2, T, owner[b := (i, INDIRECT + 1 + x)]) && BitsOk(h2, owner.Keys + {b})
      && Extends(h0, T, h2, T, i)
  {
    hide FreshBlock, Used, GetSuper, Geo, DataStart, SlotAddr, Word;
    FreshFacts(h0, h1, b);
    FreshUnused(h0, h1, b);
    IndirectOwned(h0, T, owner, i);
    var ind := T[i].addrs[INDIRECT];
    var h2 := WithEntry(h1, ind, x, b);
    DataFrame(h1, ind, SetWord(h1[ind], x, b));
    assert SuperOf(h2) == SuperOf(h0) && forall c | 0 <= c < |h0| :: Used(h2, c) <==> c == b || Used(h0, c);
    forall j, m | 0 <= j < |T| && 0 <= m < NSLOT
      ensures SlotAddr(h2, T, j, m) == if (j, m) == (i, INDIRECT + 1 + x) then b else SlotAddr(h0, T, j, m)
    {
      EntryFrame(h0, h1, T, owner, i, x, b, j, m);
    }
    assert b !in owner;
    SlotDirect(h0, T, i, INDIRECT);
  }

  /** Writing a data block leaves the superblock and the bitmap alone. */
  lemma DataFrame(home: seq<Block>, a: nat, data: Block)
    requires Geo(home, |home|) && DataStart(SuperOf(home)) <= a < |home|
    ensures Geo(home[a := data], |home|) && SuperOf(home[a := data]) == SuperOf(home)
    ensures forall b | 0 <= b < |home| :: Used(home[a := data], b) == Used(home, b)
    ensures SB < SuperOf(home).ninodes / IPB + 3 < DataStart(SuperOf(home))
  {
    hide Word, BitBlock, Bit;
    var h1 := home[a := data];
    forall b | 0 <= b < |home| ensures Used(h1, b) == Used(home, b) {
      BitRange(home, b);
    }
  }

  /** Storing into a file's data block changes no address. */
  lemma DataWrite(home: seq<Block>, T: seq<Dinode>, owner: map<nat, Slot>, i: nat, k: nat, data: Block)
    requires WfTable(home, T) && Own(home, T, owner) && BitsOk(home, owner.Keys)
    requires i < |T| && k < NSLOT && k != INDIRECT && SlotAddr(home, T, i, k) != 0
    ensures SlotAddr(home, T, i, k) < |home|
    ensures var h1 := home[SlotAddr(home, T, i, k) := data];
      && WfTable(h1, T) && Own(h1, T, owner) && BitsOk(h1, owner.Keys)
      && (forall j, m | 0 <= j < |T| && 0 <= m < NSLOT :: SlotAddr(h1, T, j, m) == SlotAddr(home, T, j, m))
  {
    hide Used, GetSuper, Geo, DataStart, Word;
    var a := SlotAddr(home, T, i, k);
    var h1 := home[a := data];
    assert a in owner && owner[a] == (i, k) && OwnedBy(home, T, a, owner[a]);
    DataFrame(home, a, data);
    assert SuperOf(h1) == SuperOf(home) && |h1| == |home|;
    assert forall b | 0 <= b < |home| :: Used(h1, b) == Used(home, b);
    forall j, m | 0 <= j < |T| && 0 <= m < NSLOT ensures SlotAddr(h1, T, j, m) == SlotAddr(home, T, j, m) {
      if T[j].addrs[INDIRECT] != 0 {
        IndirectOwned(home, T, owner, j);
      }
    }
  }
}
