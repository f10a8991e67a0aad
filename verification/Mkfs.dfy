/**
 The image that tools/mkfs.c writes: it hands out blocks by counting, and writes
 the bitmap last. `virt` is what the home sectors would be with the bitmap of the
 blocks handed out so far; it satisfies the file system's invariant throughout.
 */
module Mkfs {
  import opened Base
  import opened Blocks
  import opened Layout
  import opened Ownership
  import opened Inodes
  import opened FileIO
  import FD = FileData

  /** The blocks below `n` marked. */
  ghost function MarkedTo(home: seq<Block>, n: nat): (r: seq<Block>)
    requires Geo(home, |home|) && n <= |home|
    ensures |r| == |home| && Geo(r, |r|) && SuperOf(r) == SuperOf(home)
  {
    if n == 0 then home
    else
      UsedAfter(MarkedTo(home, n - 1), n - 1, n - 1, true);
      Marked(MarkedTo(home, n - 1), n - 1, true)
  }

  lemma {:induction false} MarkedToFacts(home: seq<Block>, n: nat)
    requires Geo(home, |home|) && n <= |home|
    ensures var r := MarkedTo(home, n);
      && (forall b | 0 <= b < |home| :: Used(r, b) <==> b < n || Used(home, b))
      && (forall s | 0 <= s < |home| && (s < SuperOf(home).ninodes / IPB + 3 || DataStart(SuperOf(home)) <= s) ::
         r[s] == home[s])
  {
    hide Geo, GetSuper, Used, Marked, DataStart;
    if n > 0 {
      MarkedToFacts(home, n - 1);
      var r0 := MarkedTo(home, n - 1);
      UsedAfter(r0, n - 1, n - 1, true);
      forall b | 0 <= b < |home| ensures Used(Marked(r0, n - 1, true), b) <==> b < n || Used(home, b) {
        UsedAfter(r0, n - 1, b, true);
      }
      MarkedElse(r0, n - 1);
      assert MarkedTo(home, n) == Marked(r0, n - 1, true);
      forall b | 0 <= b < |home| ensures Used(MarkedTo(home, n), b) <==> b < n || Used(home, b) {
        assert Used(Marked(r0, n - 1, true), b) <==> b < n || Used(home, b);
      }
    } else {
      assert MarkedTo(home, n) == home;
    }
  }

  lemma MarkedElse(home: seq<Block>, b: nat)
    requires Geo(home, |home|) && b < |home|
    ensures forall s | 0 <= s < |home| && (s < SuperOf(home).ninodes / IPB + 3 || DataStart(SuperOf(home)) <= s) ::
      Marked(home, b, true)[s] == home[s]
  {
    hide GetSuper, PutBlockBit, BitIndex;
    BitRange(home, b);
  }

  /** The image agrees with `virt` outside the bitmap, which is still blank like the log. */
  ghost predicate Sync(sectors: seq<Block>, virt: seq<Block>)
    requires SB < |virt|
  {
    && |virt| <= |sectors|
    && (forall s | 0 <= s < |virt| && (s < SuperOf(virt).ninodes / IPB + 3 || DataStart(SuperOf(virt)) <= s) ::
       sectors[s] == virt[s])
    && (forall s | SuperOf(virt).ninodes / IPB + 3 <= s < DataStart(SuperOf(virt)) && s < |virt| ::
       sectors[s] == Zeros())
    && (forall s | |virt| <= s < |sectors| :: sectors[s] == Zeros())
  }

  /** The home blocks from `free` on are blank and not marked; all below are marked. */
  ghost predicate FreeTail(virt: seq<Block>, free: nat)
    requires Geo(virt, |virt|)
  {
    && (forall b | free <= b < |virt| :: virt[b] == Zeros())
    && (forall b | 0 <= b < |virt| :: Used(virt, b) <==> b < free)
  }

  /** An unused inode. */
  function Blank(): (d: Dinode)
    ensures |d.addrs| == NDIRECT + 1 && forall k | 0 <= k <= NDIRECT :: d.addrs[k] == 0
  {
    Dinode(0, 0, 0, 0, 0, seq<nat>(NDIRECT + 1, k => 0))
  }

  lemma BlankInode(k: nat)
    requires k < IPB
    ensures GetInode(Zeros(), k) == Blank() && WfDinode(Blank())
  {
    forall w: nat | w < WORDS ensures Word(Zeros(), w) == 0 {
      ZeroWord(w);
    }
    hide Word;
    assert Addrs(Zeros(), k) == Blank().addrs;
  }

  class Image {
    var sectors: seq<Block>
    var freeblock: nat
    var usedblocks: nat
    var freeinode: nat
    ghost var virt: seq<Block>
    ghost var T: seq<Dinode>
    ghost var owner: map<nat, Slot>

    ghost predicate Valid()
      reads this
    {
      && Consistent(-1) && FD.NoHoles(virt, T)
    }

    /** The invariant; the image's copy of inode `skip` may lag behind. */
    ghost predicate Consistent(skip: int)
      reads this
    {
      && FsOk(virt, T, owner, skip) && SB < |virt| && Geo(virt, |virt|) && Sync(sectors, virt)
      && FreeTail(virt, freeblock) && usedblocks == freeblock
      && (forall i | freeinode <= i < |T| && i != skip :: T[i] == Blank())
    }

    /** mkfs up to the superblock: every sector blank, the counters after the metadata. */
    constructor (sb: Super, super: Block)
      requires GetSuper(super) == sb && sb.size <= UINT
      requires SB < sb.size - sb.nlog && DataStart(sb) <= sb.size - sb.nlog
      ensures Valid() && |sectors| == sb.size && |virt| == sb.size - sb.nlog && SuperOf(virt) == sb
      ensures freeblock == DataStart(sb) && freeinode == 1 && |T| == sb.ninodes && forall i | 0 <= i < |T| ::
        T[i] == Blank()
    {
      sectors := seq<Block>(sb.size, i => Zeros())[SB := super];
      freeblock, usedblocks, freeinode := DataStart(sb), DataStart(sb), 1;
      ghost var base := (seq<Block>(sb.size - sb.nlog, i => Zeros()))[SB := super];
      FreshImage(base, sb);
      virt := MarkedTo(base, DataStart(sb));
      T, owner := BlankTable(sb.ninodes), map[];
    }

    /** winode: the inode's copy in the image becomes current. */
    method Winode(inum: nat, din: Dinode)
      requires Consistent(inum) && inum < |T| && inum < freeinode && T[inum] == din
      modifies this`sectors, this`virt
      ensures Consistent(-1) && |sectors| == |old(sectors)| && |virt| == |old(virt)|
        && SuperOf(virt) == SuperOf(old(virt))
      ensures WfTable(old(virt), T) && WfTable(virt, T) && SameFiles(old(virt), virt, T)
    {
      hide FsOk, Geo, GetSuper, GetInode, SameFiles, FreeTail, WfDinode;
      InodeFacts(virt, T, owner, inum);
      var ip := new Inode(inum, din);
      assert ip.Dino() == din;
      ghost var v0 := virt;
      var buf := PutInode(sectors[InodeBlock(inum)], inum % IPB, ip);
      InodeWrite(v0, T, owner, inum, buf);
      sectors := sectors[InodeBlock(inum) := buf];
      virt := virt[InodeBlock(inum) := buf];
      TailKept(v0, virt, T, owner, freeblock, inum);
      FsFactsHere(virt, T, owner);
    }

    /** ialloc: the next inode gets a type and one link. */
    method Ialloc(typ: nat) returns (inum: nat)
      requires Valid() && 0 < typ < SHORT && freeinode < |T|
      modifies this
      ensures Valid() && inum == old(freeinode) && freeinode == inum + 1 && freeblock == old(freeblock)
      ensures |virt| == |old(virt)| && |sectors| == |old(sectors)| && SuperOf(virt) == SuperOf(old(virt))
      ensures T == old(T)[inum := Blank().(typ := typ, nlink := 1)] && Tight(virt, T, inum, 0)
      ensures WfTable(old(virt), old(T)) && WfTable(virt, T) && FD.OthersSame(old(virt), old(T), virt, T, inum)
    {
      hide FsOk, Geo, GetSuper, SameFiles, FreeTail;
      inum := freeinode;
      freeinode := freeinode + 1;
      var din := Blank().(typ := typ, nlink := 1);
      Renew(virt, T, owner, inum, din);
      ghost var T0 := T;
      FsFactsHere(virt, T0, owner);
      T := T[inum := din];
      ghost var v0 := virt;
      Winode(inum, din);
      FilesSame(v0, virt, T);
      RenewOthers(v0, T0, virt, T, inum);
    }

    /** `din.addrs[k] = freeblock++` if it is 0, for a direct address or the indirect block. */
    method TakeAddr(inum: nat, din0: Dinode, k: nat) returns (din: Dinode)
      requires Consistent(inum) && inum < |T| && T[inum] == din0 && k <= INDIRECT
        && (din0.addrs[k] == 0 ==> freeblock < |virt|)
      modifies this
      ensures Consistent(inum) && inum < |T| && T[inum] == din && k < |din.addrs| == |din0.addrs| && din.addrs[k] != 0
      ensures forall m | 0 <= m <= INDIRECT && m != k :: din.addrs[m] == din0.addrs[m]
      ensures Grown(old(virt), old(T), virt, T, inum, k) && |sectors| == |old(sectors)|
      ensures freeblock == old(freeblock) + (if din0.addrs[k] == 0 then 1 else 0) && freeinode == old(freeinode)
    {
      hide FsOk, Geo, GetSuper, FreeTail, FreshBlock, Extends, SlotAddr;
      FsFacts(virt, T, owner, inum);
      din := din0;
      if din.addrs[k] == 0 {
        ghost var v0, T0 := virt, T;
        Fresh(sectors, v0, T, owner, inum, freeblock);
        AllocSlotOk(v0, Taken(v0, freeblock), T, owner, inum, k, freeblock);
        AllocGrown(v0, Taken(v0, freeblock), T, owner, inum, k, freeblock);
        din := din.(addrs := din.addrs[k := freeblock]);
        virt := Taken(v0, freeblock);
        T, owner := WithAddr(T, inum, k, freeblock), owner[freeblock := (inum, k)];
        freeblock, usedblocks := freeblock + 1, usedblocks + 1;
      } else {
        GrownRefl(virt, T, owner, inum, k);
      }
    }

    /** The entry `x` of the indirect block, `freeblock++` if it is 0; the block is written back. */
    method TakeEntry(inum: nat, din: Dinode, x: nat) returns (a: nat)
      requires Consistent(inum) && inum < |T| && T[inum] == din && x < NINDIRECT && din.addrs[INDIRECT] != 0
      requires SlotAddr(virt, T, inum, INDIRECT + 1 + x) == 0 ==> freeblock < |virt|
      modifies this`sectors, this`virt, this`owner, this`freeblock, this`usedblocks
      ensures Consistent(inum) && inum < |T| && T[inum] == din && |sectors| == |old(sectors)|
      ensures Grown(old(virt), T, virt, T, inum, INDIRECT + 1 + x)
        && a == SlotAddr(virt, T, inum, INDIRECT + 1 + x) != 0
      ensures freeblock == old(freeblock) + if SlotAddr(old(virt), T, inum, INDIRECT + 1 + x) == 0 then 1 else 0
    {
      hide FsOk, Geo, GetSuper, FreeTail, FreshBlock, Extends, SlotAddr, Word;
      FsFacts(virt, T, owner, inum);
      IndirectFacts(virt, T, owner, inum, x);
      var ind := din.addrs[INDIRECT];
      var indirect := sectors[ind];
      a := Word(indirect, x);
      if a == 0 {
        a := freeblock;
        ghost var v0, v1 := virt, Taken(virt, freeblock);
        Fresh(sectors, v0, T, owner, inum, a);
        AllocEntryOk(v0, v1, T, owner, inum, x, a);
        EntryGrown(sectors, v0, v1, T, owner, inum, x, a);
        indirect := SetWord(indirect, x, a);
        sectors := sectors[ind := indirect];
        virt := WithEntry(v1, ind, x, a);
        owner := owner[a := (inum, INDIRECT + 1 + x)];
        freeblock, usedblocks := freeblock + 1, usedblocks + 1;
      } else {
        GrownRefl(virt, T, owner, inum, INDIRECT + 1 + x);
      }
    }

    /** `wsect(x, buf)` after copying `src` into block `x` of the image, which is file block `off / 512`. */
    method StoreBlock(inum: nat, x: nat, off: nat, src: seq<byte>, ghost v0: seq<Block>, ghost T0: seq<Dinode>)
      requires Consistent(inum) && inum < |T| && off / BSIZE < MAXFILE && off % BSIZE + |src| <= BSIZE
      requires Grown(v0, T0, virt, T, inum, FileSlot(off / BSIZE)) && |T[inum].addrs| == NDIRECT + 1
      requires x == SlotAddr(virt, T, inum, FileSlot(off / BSIZE)) != 0
      modifies this`sectors, this`virt
      ensures Consistent(inum) && |sectors| == |old(sectors)| && |virt| == |old(virt)| && WfTable(v0, T0)
        && WfTable(virt, T)
      ensures Stored(v0, T0, virt, T, inum, off, src) && OneMore(v0, T0, virt, T, inum, off, |src|)
    {
      hide FsOk, Geo, GetSuper, FreeTail, Extends, SlotAddr, Patch, Stored, OneMore;
      ghost var v1 := virt;
      StoreFacts(v0, T0, v1, T, owner, inum, off, src);
      AddrInside(v1, T, owner, inum, FileSlot(off / BSIZE));
      StoredMore(sectors, v0, T0, v1, T, owner, inum, off, src, freeblock);
      var buf := Patch(sectors[x], off % BSIZE, src);
      sectors := sectors[x := buf];
      virt := virt[x := buf];
    }

    /** The address of file block `fbn`, handed out if there is none yet. */
    method BlockFor(inum: nat, din0: Dinode, fbn: nat) returns (din: Dinode, x: nat)
      requires Consistent(inum) && inum < |T| && T[inum] == din0 && fbn < MAXFILE && |din0.addrs| == NDIRECT + 1
      requires freeblock + Cost(virt, T, inum, fbn) <= |virt|
      modifies this
      ensures Consistent(inum) && inum < |T| && T[inum] == din && |din.addrs| == NDIRECT + 1
        && |sectors| == |old(sectors)|
      ensures Grown(old(virt), old(T), virt, T, inum, FileSlot(fbn)) && x == SlotAddr(virt, T, inum, FileSlot(fbn)) != 0
      ensures freeblock == old(freeblock) + Cost(old(virt), old(T), inum, fbn) && freeinode == old(freeinode)
      ensures din.addrs[INDIRECT] != 0 <==> din0.addrs[INDIRECT] != 0 || fbn >= NDIRECT
    {
      hide FsOk, Geo, GetSuper, FreeTail, Extends, Grown, SlotAddr, Cost;
      ghost var v0, T0 := virt, T;
      CostSlots(v0, T0, inum, fbn);
      if fbn < NDIRECT {
        din := TakeAddr(inum, din0, fbn);
        GrownFacts(v0, T0, virt, T, inum, fbn);
        SlotDirect(virt, T, inum, fbn);
        x := din.addrs[fbn];
      } else {
        din := TakeAddr(inum, din0, INDIRECT);
        GrownFacts(v0, T0, virt, T, inum, INDIRECT);
        ghost var v1 := virt;
        GrownSlot(v0, T0, v1, T, inum, FileSlot(fbn));
        x := TakeEntry(inum, din, fbn - NDIRECT);
        GrownTrans(v0, T0, v1, T, virt, T, inum, INDIRECT, FileSlot(fbn));
      }
    }

    /** One round of iappend's loop. */
    method AppendRound(inum: nat, din0: Dinode, off: nat, piece: seq<byte>) returns (din: Dinode)
      requires Consistent(inum) && inum < |T| && T[inum] == din0 && |din0.addrs| == NDIRECT + 1
      requires off / BSIZE < MAXFILE && off % BSIZE + |piece| <= BSIZE
        && freeblock + Cost(virt, T, inum, off / BSIZE) <= |virt|
      modifies this
      ensures Consistent(inum) && inum < |T| && T[inum] == din && |din.addrs| == NDIRECT + 1
        && |sectors| == |old(sectors)|
      ensures freeblock == old(freeblock) + Cost(old(virt), old(T), inum, off / BSIZE) && freeinode == old(freeinode)
        && |virt| == |old(virt)|
      ensures din.addrs[INDIRECT] != 0 <==> din0.addrs[INDIRECT] != 0 || off / BSIZE >= NDIRECT
      ensures WfTable(old(virt), old(T)) && WfTable(virt, T) && Stored(old(virt), old(T), virt, T, inum, off, piece)
      ensures OneMore(old(virt), old(T), virt, T, inum, off, |piece|)
    {
      hide FsOk, Geo, GetSuper, FreeTail, Extends, Grown, SlotAddr, Stored, OneMore;
      ghost var v0, T0 := virt, T;
      var x;
      din, x := BlockFor(inum, din0, off / BSIZE);
      GrownSize(v0, T0, virt, T, inum, FileSlot(off / BSIZE));
      StoreBlock(inum, x, off, piece, v0, T0);
      SizeKept(virt, T, owner, inum, v0);
    }

    /**
     iappend for a file that fits: the bytes follow those that were there, and exactly
     the blocks that the longer file needs are handed out.
     */
    method Iappend(inum: nat, xp: seq<byte>)
      requires Valid() && inum < |T| && inum < freeinode && T[inum].size + |xp| <= FD.MAXBYTES
      requires |T[inum].addrs| == NDIRECT + 1 && Tight(virt, T, inum, T[inum].size)
      requires freeblock + Need(T[inum].size + |xp|) - Need(T[inum].size) <= |virt|
      modifies this
      ensures Valid() && |sectors| == |old(sectors)| && |virt| == |old(virt)| && freeinode == old(freeinode)
        && inum < |T|
      ensures Updated(old(virt), old(T), virt, T, inum, old(T)[inum].size, xp)
        && T[inum].size == old(T)[inum].size + |xp|
      ensures |T[inum].addrs| == NDIRECT + 1 && Tight(virt, T, inum, T[inum].size)
      ensures freeblock == old(freeblock) + Need(T[inum].size) - Need(old(T)[inum].size)
    {
      hide FsOk, Geo, GetSuper, FreeTail, SlotAddr, Stored, OneMore, Written, Updated, Tight, FD.NoHoles, SameFiles;
      hide Cost, Need, WfTable, WfDinode;
      ghost var v0, T0, off0 := virt, T, T[inum].size;
      var din := Rinode(inum);
      AppendStart(virt, T, owner, inum, xp);
      var off, tot := din.size, 0;
      while tot < |xp|
        invariant tot <= |xp| && off == off0 + tot && Consistent(inum) && inum < |T| && T[inum] == din
          && |din.addrs| == NDIRECT + 1
        invariant |sectors| == |old(sectors)| && |virt| == |old(virt)| && freeinode == old(freeinode)
        invariant WfTable(v0, T0) && WfTable(virt, T) && Written(v0, T0, virt, T, inum, off0, xp, tot)
          && Tight(virt, T, inum, off)
        invariant freeblock == old(freeblock) + Need(off) - Need(off0)
      {
        var fbn := off / BSIZE;
        var n1 := Min(|xp| - tot, (fbn + 1) * BSIZE - off);
        AppendBounds(off, |xp| - tot);
        AppendCost(v0, T0, virt, T, inum, off0, xp, tot, n1);
        ghost var v1, T1 := virt, T;
        din := AppendRound(inum, din, off, xp[tot..tot + n1]);
        WrittenStep(v0, T0, v1, T1, virt, T, inum, off0, xp, tot, n1);
        TightMore(v1, T1, virt, T, inum, off, n1);
        tot, off := tot + n1, off + n1;
      }
      Resize(inum, din, off, v0, T0, off0, xp);
    }

    /** rinode */
    method Rinode(inum: nat) returns (din: Dinode)
      requires Consistent(-1) && inum < |T|
      ensures din == T[inum]
    {
      hide Geo, GetSuper, FreeTail, Own, BitsOk, GetInode;
      InodePlace(virt, T, inum);
      var buf := sectors[InodeBlock(inum)];
      din := GetInode(buf, inum % IPB);
    }

    /** `din.size = off; winode(inum, &din);` at the end of iappend */
    method Resize(inum: nat, din0: Dinode, off: nat, ghost v0: seq<Block>, ghost T0: seq<Dinode>, ghost off0: nat,
                  ghost xp: seq<byte>)
      requires Consistent(inum) && inum < |T| && inum < freeinode && T[inum] == din0 && |din0.addrs| == NDIRECT + 1
      requires WfTable(v0, T0) && WfTable(virt, T) && FD.NoHoles(v0, T0) && inum < |T0| && off0 == T0[inum].size
      requires Written(v0, T0, virt, T, inum, off0, xp, |xp|) && off == off0 + |xp| <= FD.MAXBYTES
        && Tight(virt, T, inum, off)
      modifies this`sectors, this`virt, this`T
      ensures Valid() && |sectors| == |old(sectors)| && |virt| == |old(virt)| && inum < |T|
      ensures Updated(v0, T0, virt, T, inum, off0, xp) && T[inum].size == off && |T[inum].addrs| == NDIRECT + 1
        && Tight(virt, T, inum, off)
    {
      hide FsOk, Geo, GetSuper, FreeTail, SlotAddr, Written, Updated, Tight, FD.NoHoles, SameFiles, WfDinode;
      ghost var v1, T1 := virt, T;
      var din := din0.(size := off);
      SizeOk(virt, T, owner, inum, off);
      T := WithSize(T, inum, off);
      Winode(inum, din);
      if xp == [] {
        NothingAppended(v0, T0, v1, T1, virt, T, inum, off0);
      } else {
        SizedUpdate(v0, T0, v1, T1, virt, T, inum, off0, xp);
      }
      TightSame(v1, T1, virt, T, inum, off);
    }

    /**
     The end of main: the root directory's size goes up to a whole number of blocks,
     by a whole block if it is one already. That leaves a hole exactly in that case.
     */
    method FixRoot(root: nat)
      requires Valid() && root < |T| && root < freeinode && |T[root].addrs| == NDIRECT + 1
        && Tight(virt, T, root, T[root].size)
      modifies this`sectors, this`virt, this`T
      ensures Consistent(-1) && |sectors| == |old(sectors)| && |virt| == |old(virt)| && root < |T|
        && SuperOf(virt) == SuperOf(old(virt))
      ensures T == WithSize(old(T), root, (old(T)[root].size / BSIZE + 1) * BSIZE)
      ensures FD.NoHoles(virt, T) <==> old(T)[root].size % BSIZE != 0
      ensures WfTable(old(virt), T) && WfTable(virt, T) && SameFiles(old(virt), virt, T)
    {
      hide FsOk, Geo, GetSuper, FreeTail, Tight, FD.NoHoles, SameFiles, WfDinode;
      ghost var v1, T1 := virt, T;
      var din := Rinode(root);
      var off := din.size;
      off := (off / BSIZE + 1) * BSIZE;
      din := din.(size := off);
      RootBounds(virt, T, owner, root);
      SizeOk(virt, T, owner, root, off);
      T := WithSize(T, root, off);
      Winode(root, din);
      RootFixed(v1, T1, virt, T, root);
    }

    /**
     balloc: the bitmap block gets its first `used` bits; the home part of the image is then a
     consistent file system.
     */
    method Balloc(used: nat)
      requires Consistent(-1) && used == usedblocks < BPB
      modifies this`sectors
      ensures |sectors| == |old(sectors)| && |virt| <= |sectors| && FsOk(sectors[..|virt|], T, owner, -1)
      ensures SameFiles(virt, sectors[..|virt|], T) && forall s | |virt| <= s < |sectors| :: sectors[s] == Zeros()
      ensures SB < |virt| && Geo(sectors[..|virt|], |virt|) && SuperOf(sectors[..|virt|]) == SuperOf(virt)
      ensures forall b | 0 <= b < SuperOf(virt).size :: BitSet(sectors[..|virt|], b) <==> b < usedblocks
    {
      hide FsOk, Geo, GetSuper, FreeTail, Bit, PutBlockBit, DataStart, FD.NoHoles;
      ZeroBlockBits();
      var buf := Zeros();
      var i := 0;
      while i < used
        invariant i <= used && forall j: nat | j < BPB :: Bit(buf, j) <==> j < i
      {
        buf := MarkBit(buf, i);
        i := i + 1;
      }
      BitmapPlace(virt, T, owner);
      BitmapWritten(sectors, virt, T, owner, freeblock, buf);
      var sb := GetSuper(sectors[SB]);
      assert sb == SuperOf(virt);
      sectors := sectors[sb.ninodes / IPB + 3 := buf];
    }
  }

  lemma NothingAppended(v0: seq<Block>, T0: seq<Dinode>, v1: seq<Block>, T1: seq<Dinode>, v2: seq<Block>,
                        T2: seq<Dinode>, i: nat, off: nat)
    requires WfTable(v0, T0) && WfTable(v1, T1) && FD.NoHoles(v0, T0) && i < |T0| && off == T0[i].size
    requires Written(v0, T0, v1, T1, i, off, [], 0) && i < |T1| && T2 == WithSize(T1, i, off)
    requires WfTable(v1, T2) && WfTable(v2, T2) && SameFiles(v1, v2, T2) && SuperOf(v2) == SuperOf(v1)
    ensures Updated(v0, T0, v2, T2, i, off, []) && FD.NoHoles(v2, T2)
  {
    hide GetSuper, Geo, FD.FileByte, FD.Mapped, SameFiles;
    WrittenUpdate(v0, T0, v1, T1, i, off, []);
    assert T2 == T1;
    FilesSame(v1, v2, T1);
    hide Written, FD.NoHoles;
    SameFilesContents(v1, v2, T1);
  }

  lemma SameFilesContents(v1: seq<Block>, v2: seq<Block>, T: seq<Dinode>)
    requires WfTable(v1, T) && WfTable(v2, T) && SameFiles(v1, v2, T)
    ensures forall j, p | 0 <= j < |T| && 0 <= p < FD.MAXBYTES :: FD.FileByte(v2, T, j, p) == FD.FileByte(v1, T, j, p)
    ensures forall j, bn | 0 <= j < |T| && 0 <= bn < MAXFILE :: FD.Mapped(v2, T, j, bn) == FD.Mapped(v1, T, j, bn)
    ensures forall j | 0 <= j < |T| && T[j].size <= FD.MAXBYTES :: FD.Contents(v2, T, j) == FD.Contents(v1, T, j)
  {
    hide GetSuper, Geo, FD.FileByte, FD.Mapped;
  }

  function MarkBit(buf: Block, i: nat): (r: Block)
    requires i < BPB
    ensures forall j: nat | j < BPB :: Bit(r, j) <==> j == i || Bit(buf, j)
  {
    PutBlockBit(buf, i, true)
  }

  lemma ZeroBlockBits()
    ensures forall j: nat | j < BPB :: !Bit(Zeros(), j)
  {
    forall j: nat | j < BPB ensures !Bit(Zeros(), j) {
      ZeroBits(j % 8);
    }
  }

  lemma RootBounds(virt: seq<Block>, T: seq<Dinode>, owner: map<nat, Slot>, i: nat)
    requires FsOk(virt, T, owner, -1) && FD.NoHoles(virt, T) && i < |T|
    ensures FsOk(virt, T, owner, i) && (T[i].size / BSIZE + 1) * BSIZE < UINT && T[i].size <= FD.MAXBYTES
  {
    FsWeaken(virt, T, owner, i);
  }

  lemma RootFixed(v1: seq<Block>, T1: seq<Dinode>, v2: seq<Block>, T2: seq<Dinode>, i: nat)
    requires WfTable(v1, T1) && WfTable(v1, T2) && WfTable(v2, T2) && FD.NoHoles(v1, T1) && i < |T1|
      && |T1[i].addrs| == NDIRECT + 1
    requires Tight(v1, T1, i, T1[i].size) && T2 == WithSize(T1, i, (T1[i].size / BSIZE + 1) * BSIZE)
      && SameFiles(v1, v2, T2)
    ensures FD.NoHoles(v2, T2) <==> T1[i].size % BSIZE != 0
  {
    hide Geo, GetSuper;
    var n := T1[i].size;
    assert forall j, bn | 0 <= j < |T1| && 0 <= bn < MAXFILE :: FD.Mapped(v1, T2, j, bn) == FD.Mapped(v1, T1, j, bn);
    hide FD.Mapped, FD.FileByte;
    if n % BSIZE != 0 {
      forall bn | 0 <= bn < MAXFILE && bn * BSIZE < T2[i].size ensures FD.Mapped(v2, T2, i, bn) {
        assert bn * BSIZE < n;
      }
      assert T2[i].size <= FD.MAXBYTES;
    } else if n < FD.MAXBYTES {
      assert n / BSIZE < MAXFILE && n / BSIZE * BSIZE == n < T2[i].size;
      assert !FD.Mapped(v1, T1, i, n / BSIZE);
      assert !FD.Mapped(v2, T2, i, n / BSIZE);
      assert !FD.MappedTo(v2, T2, i, T2[i].size);
    } else {
      assert T2[i].size > FD.MAXBYTES;
    }
  }

  lemma BitmapPlace(virt: seq<Block>, T: seq<Dinode>, owner: map<nat, Slot>)
    requires FsOk(virt, T, owner, -1)
    ensures SB < |virt| && SB < SuperOf(virt).ninodes / IPB + 3 < DataStart(SuperOf(virt)) <= |virt|
  {
    GeoFacts(virt);
  }

  lemma BitmapWritten(sectors: seq<Block>, virt: seq<Block>, T: seq<Dinode>, owner: map<nat, Slot>, free: nat,
                      buf: Block)
    requires FsOk(virt, T, owner, -1) && SB < |virt| && Geo(virt, |virt|) && Sync(sectors, virt)
      && FreeTail(virt, free) && free < BPB
    requires forall j: nat | j < BPB :: Bit(buf, j) <==> j < free
    requires SuperOf(virt).ninodes / IPB + 3 < |virt|
    ensures var home := sectors[SuperOf(virt).ninodes / IPB + 3 := buf][..|virt|];
      && FsOk(home, T, owner, -1) && SameFiles(virt, home, T) && Geo(home, |virt|) && SuperOf(home) == SuperOf(virt)
      && forall b | 0 <= b < SuperOf(virt).size :: BitSet(home, b) <==> b < free
  {
    var home := sectors[SuperOf(virt).ninodes / IPB + 3 := buf][..|virt|];
    BitmapPlace(virt, T, owner);
    assert Geo(home, |home|) && SuperOf(home) == SuperOf(virt) by { hide GetSuper, DataStart, Bit; }
    hide GetSuper, Own, TableOk, Geo, DataStart, Bit;
    ZeroBlockBits();
    forall b | 0 <= b < SuperOf(virt).size ensures BitSet(home, b) <==> b < free {
      BitFacts(home, b);
      BitHere(b, SuperOf(virt));
    }
    HomeBits(home);
    BitmapSlots(virt, home, T, owner);
  }

  lemma HomeBits(home: seq<Block>)
    requires Geo(home, |home|)
    ensures forall b | 0 <= b < |home| :: b < SuperOf(home).size && (Used(home, b) <==> BitSet(home, b))
  {
    GeoFacts(home);
    hide GetSuper, BitIndex;
    forall b | 0 <= b < |home| ensures Used(home, b) <==> BitSet(home, b) {
      BitRange(home, b);
    }
  }

  lemma BitHere(b: nat, sb: Super)
    ensures b < BPB ==> BitBlock(sb, b) == sb.ninodes / IPB + 3 && BitIndex(b) == b
    ensures b >= BPB ==> BitBlock(sb, b) > sb.ninodes / IPB + 3
  {
  }

  /** Images that differ in the bitmap only have the same inodes and files. */
  lemma BitmapSlots(virt: seq<Block>, home: seq<Block>, T: seq<Dinode>, owner: map<nat, Slot>)
    requires FsOk(virt, T, owner, -1) && |home| == |virt| && Geo(home, |home|) && SuperOf(home) == SuperOf(virt)
    requires forall s | 0 <= s < |virt| && (s < SuperOf(virt).ninodes / IPB + 3 || DataStart(SuperOf(virt)) <= s) ::
      home[s] == virt[s]
    requires forall b | 0 <= b < |virt| :: Used(home, b) == Used(virt, b)
    ensures FsOk(home, T, owner, -1) && SameFiles(virt, home, T)
  {
    hide GetSuper, Geo, DataStart, Used, GetInode;
    forall j, m | 0 <= j < |T| && 0 <= m < NSLOT ensures SlotAddr(home, T, j, m) == SlotAddr(virt, T, j, m) {
      if T[j].addrs[INDIRECT] != 0 {
        IndirectOwned(virt, T, owner, j);
      }
    }
    forall j | 0 <= j < |T| ensures InodeBlock(j) < |virt| && home[InodeBlock(j)] == virt[InodeBlock(j)] {
      InodePlace(virt, T, j);
    }
    hide SlotAddr;
    assert Own(home, T, owner) by { hide TableOk, BitsOk; }
    assert TableOk(home, T, -1);
    hide Own, BitsOk, TableOk;
    forall j, bn: nat | 0 <= j < |T| && bn < MAXFILE ensures FD.Mapped(home, T, j, bn) == FD.Mapped(virt, T, j, bn) {
      assert FileSlot(bn) < NSLOT;
    }
    forall j, p: nat | 0 <= j < |T|
      && p < FD.MAXBYTES ensures FD.FileByte(home, T, j, p) == FD.FileByte(virt, T, j, p) {
      if SlotAddr(virt, T, j, FileSlot(p / BSIZE)) != 0 {
        AddrInside(virt, T, owner, j, FileSlot(p / BSIZE));
      }
    }
  }

  /** The blocks that `n` bytes reach into. */
  function Reach(n: nat): nat { (n + BSIZE - 1) / BSIZE }

  /** The blocks that a file of `n` bytes takes, with its indirect block. */
  function Need(n: nat): nat {
    Reach(n) + if Reach(n) > NDIRECT then 1 else 0
  }

  /** The blocks that still have to be handed out before file block `bn` has an address. */
  ghost function Cost(virt: seq<Block>, T: seq<Dinode>, i: nat, bn: nat): nat
    requires i < |T| && |T[i].addrs| == NDIRECT + 1 && bn < MAXFILE
  {
    (if FD.Mapped(virt, T, i, bn) then 0 else 1) + (if bn >= NDIRECT && T[i].addrs[INDIRECT] == 0 then 1 else 0)
  }

  /**
   Beyond its first `n` bytes the file has no block and no byte other than zero, and
   it has an indirect block only if they need it.
   */
  ghost predicate Tight(virt: seq<Block>, T: seq<Dinode>, i: nat, n: nat)
    requires i < |T| && |T[i].addrs| == NDIRECT + 1
  {
    && (forall bn | 0 <= bn < MAXFILE && FD.Mapped(virt, T, i, bn) :: bn * BSIZE < n)
    && (forall p | n <= p < FD.MAXBYTES :: FD.FileByte(virt, T, i, p) == 0)
    && (T[i].addrs[INDIRECT] != 0 ==> NDIRECT * BSIZE < n)
  }

  lemma GrownFacts(v0: seq<Block>, T0: seq<Dinode>, v1: seq<Block>, T1: seq<Dinode>, i: nat, k: nat)
    requires Grown(v0, T0, v1, T1, i, k)
    ensures |v1| == |v0| && i < |T0| == |T1| && |T1[i].addrs| == |T0[i].addrs| == NDIRECT + 1
    ensures T0[i].addrs[INDIRECT] != 0 ==> T1[i].addrs[INDIRECT] == T0[i].addrs[INDIRECT]
  {
    hide Geo, GetSuper, SlotAddr;
    ExtendsSlots(v0, T0, v1, T1, i);
  }

  lemma CostSlots(virt: seq<Block>, T: seq<Dinode>, i: nat, bn: nat)
    requires i < |T| && |T[i].addrs| == NDIRECT + 1 && bn < MAXFILE
    ensures bn < NDIRECT ==> Cost(virt, T, i, bn) == (if T[i].addrs[bn] == 0 then 1 else 0)
    ensures bn >= NDIRECT ==>
      Cost(virt, T, i, bn) == (if SlotAddr(virt, T, i, FileSlot(bn)) == 0 then 1
          else 0) + (if T[i].addrs[INDIRECT] == 0 then 1 else 0)
  {
  }

  lemma GrownSlot(v0: seq<Block>, T0: seq<Dinode>, v1: seq<Block>, T1: seq<Dinode>, i: nat, m: nat)
    requires Grown(v0, T0, v1, T1, i, INDIRECT) && m < NSLOT && m != INDIRECT
    ensures SlotAddr(v1, T1, i, m) == SlotAddr(v0, T0, i, m)
  {
    hide Geo, GetSuper, SlotAddr;
  }

  lemma GrownIn(v0: seq<Block>, T0: seq<Dinode>, v1: seq<Block>, T1: seq<Dinode>, i: nat, bn: nat)
    requires bn < MAXFILE && Grown(v0, T0, v1, T1, i, FileSlot(bn))
    ensures i < |T0| && i < |T1|
  {
    hide Geo, GetSuper, SlotAddr;
  }

  lemma EntrySlot(virt: seq<Block>, T: seq<Dinode>, i: nat, x: nat)
    requires i < |T| && |T[i].addrs| == NDIRECT + 1 && x < NINDIRECT && 0 < T[i].addrs[INDIRECT] < |virt|
    ensures SlotAddr(virt, T, i, INDIRECT + 1 + x) == Word(virt[T[i].addrs[INDIRECT]], x)
  {
  }

  lemma GrownSize(v0: seq<Block>, T0: seq<Dinode>, v1: seq<Block>, T1: seq<Dinode>, i: nat, k: nat)
    requires Grown(v0, T0, v1, T1, i, k)
    ensures |v1| == |v0| && WfTable(v0, T0)
  {
    hide Geo, GetSuper, SlotAddr;
  }

  lemma SizeKept(virt: seq<Block>, T: seq<Dinode>, owner: map<nat, Slot>, i: nat, v0: seq<Block>)
    requires WfTable(virt, T)
    ensures Geo(virt, |virt|)
  {
  }

  lemma GrownTrans(v0: seq<Block>, T0: seq<Dinode>, v1: seq<Block>, T1: seq<Dinode>, v2: seq<Block>, T2: seq<Dinode>,
                   i: nat, k: nat, m: nat)
    requires Grown(v0, T0, v1, T1, i, k) && Grown(v1, T1, v2, T2, i, m) && k == INDIRECT
    ensures Grown(v0, T0, v2, T2, i, m)
  {
    hide Geo, GetSuper, SlotAddr, Extends;
    ExtendsTrans(v0, T0, v1, T1, v2, T2, i);
  }

  lemma AppendStart(virt: seq<Block>, T: seq<Dinode>, owner: map<nat, Slot>, i: nat, xp: seq<byte>)
    requires FsOk(virt, T, owner, -1) && FD.NoHoles(virt, T) && i < |T|
    ensures FsOk(virt, T, owner, i) && WfTable(virt, T) && Written(virt, T, virt, T, i, T[i].size, xp, 0)
  {
    FsWeaken(virt, T, owner, i);
    WrittenNone(virt, T, i, T[i].size, xp);
  }

  lemma AppendBounds(off: nat, left: nat)
    requires left > 0 && off + left <= FD.MAXBYTES
    ensures var n1 := Min(left, (off / BSIZE + 1) * BSIZE - off);
      && 0 < n1 <= left && off % BSIZE + n1 <= BSIZE && off / BSIZE < MAXFILE
         && Need(off) <= Need(off + n1) <= Need(off + left)
  {
  }

  /** A round costs what the longer file needs beyond the shorter one. */
  lemma AppendCost(v0: seq<Block>, T0: seq<Dinode>, v1: seq<Block>, T1: seq<Dinode>, i: nat, off0: nat,
                   xp: seq<byte>, tot: nat, n1: nat)
    requires WfTable(v0, T0) && WfTable(v1, T1) && i < |T0| && i < |T1| && off0 == T0[i].size && tot + n1 <= |xp|
      && |T1[i].addrs| == NDIRECT + 1
    requires Written(v0, T0, v1, T1, i, off0, xp, tot) && Tight(v1, T1, i, off0 + tot)
    requires n1 > 0 && (off0 + tot) % BSIZE + n1 <= BSIZE && (off0 + tot) / BSIZE < MAXFILE
    ensures var off := off0 + tot; Cost(v1, T1, i, off / BSIZE) == Need(off + n1) - Need(off)
  {
    hide Geo, GetSuper, FD.FileByte, FD.OthersSame;
    var off := off0 + tot;
    var bn := off / BSIZE;
    assert FD.Mapped(v1, T1, i, bn) <==> bn * BSIZE < off;
    if off > NDIRECT * BSIZE {
      assert FD.Mapped(v1, T1, i, NDIRECT);
    }
    hide FD.Mapped;
    assert Reach(off + n1) == bn + 1;
  }

  lemma TightMore(v1: seq<Block>, T1: seq<Dinode>, v2: seq<Block>, T2: seq<Dinode>, i: nat, off: nat, n: nat)
    requires WfTable(v1, T1) && WfTable(v2, T2) && OneMore(v1, T1, v2, T2, i, off, n) && n > 0
    requires |T1[i].addrs| == |T2[i].addrs| == NDIRECT + 1
    requires T2[i].addrs[INDIRECT] != 0 <==> T1[i].addrs[INDIRECT] != 0 || off / BSIZE >= NDIRECT
    requires Tight(v1, T1, i, off)
    ensures Tight(v2, T2, i, off + n)
  {
    hide Geo, GetSuper, SlotAddr, FD.Mapped, FD.FileByte;
  }

  lemma TightSame(v1: seq<Block>, T1: seq<Dinode>, v2: seq<Block>, T2: seq<Dinode>, i: nat, n: nat)
    requires WfTable(v1, T1) && WfTable(v1, T2) && WfTable(v2, T2) && i < |T1| == |T2| && T2[i].addrs == T1[i].addrs
      && SameFiles(v1, v2, T2)
    requires Tight(v1, T1, i, n)
    ensures Tight(v2, T2, i, n)
  {
    hide Geo, GetSuper;
    forall bn | 0 <= bn < MAXFILE && FD.Mapped(v2, T2, i, bn) ensures FD.Mapped(v1, T1, i, bn) {
      assert FD.Mapped(v1, T2, i, bn);
    }
    forall p | n <= p < FD.MAXBYTES ensures FD.FileByte(v2, T2, i, p) == 0 {
      assert FD.FileByte(v1, T1, i, p) == 0;
      assert FD.FileByte(v2, T2, i, p) == FD.FileByte(v1, T2, i, p);
    }
  }

  /** No block of the file but that of `off` has become mapped, and no byte but the `n` from there on has changed. */
  ghost predicate OneMore(v0: seq<Block>, T0: seq<Dinode>, v1: seq<Block>, T1: seq<Dinode>, i: nat, off: nat, n: nat)
    requires WfTable(v0, T0) && WfTable(v1, T1)
  {
    && i < |T0| && i < |T1|
    && (forall cn | 0 <= cn < MAXFILE && cn != off / BSIZE && FD.Mapped(v1, T1, i, cn) :: FD.Mapped(v0, T0, i, cn))
    && (forall p | 0 <= p < FD.MAXBYTES && !(off <= p < off + n) ::
       FD.FileByte(v1, T1, i, p) == FD.FileByte(v0, T0, i, p))
  }

  /** Blocks that are handed out hold zeros, as a file without them does. */
  lemma GrownBytes(v0: seq<Block>, T0: seq<Dinode>, v1: seq<Block>, T1: seq<Dinode>, i: nat, bn: nat)
    requires bn < MAXFILE && i < |T0| && i < |T1| && Grown(v0, T0, v1, T1, i, FileSlot(bn))
    ensures forall p | 0 <= p < FD.MAXBYTES :: FD.FileByte(v1, T1, i, p) == FD.FileByte(v0, T0, i, p)
  {
    hide Geo, GetSuper, SlotAddr, Extends, FileSlot;
    FD.ExtendsBytes(v0, T0, v1, T1, i);
    forall p | 0 <= p < FD.MAXBYTES ensures FD.FileByte(v1, T1, i, p) == FD.FileByte(v0, T0, i, p) {
      if !FD.Mapped(v0, T0, i, p / BSIZE) {
        FD.SlotApart(p / BSIZE, bn);
      }
    }
  }

  lemma EntryGrown(sectors: seq<Block>, v0: seq<Block>, v1: seq<Block>, T: seq<Dinode>, owner: map<nat, Slot>,
                   i: nat, x: nat, b: nat)
    requires FsOk(v0, T, owner, i) && FreshBlock(v0, v1, b) && v1 == Taken(v0, b) && i < |T| && x < NINDIRECT
      && b < UINT
    requires |T[i].addrs| == NDIRECT + 1 && T[i].addrs[INDIRECT] != 0 && SlotAddr(v0, T, i, INDIRECT + 1 + x) == 0
    requires Geo(v1, |v1|) && SB < |v1| && Sync(sectors, v1) && FreeTail(v0, b) && FreeTail(v1, b + 1)
    requires T[i].addrs[INDIRECT] < |v1| && var v2 := WithEntry(v1, T[i].addrs[INDIRECT], x, b);
      FsOk(v2, T, owner[b := (i, INDIRECT + 1 + x)], i) && Extends(v0, T, v2, T, i)
    ensures var v2 := WithEntry(v1, T[i].addrs[INDIRECT], x, b);
      && Grown(v0, T, v2, T, i, INDIRECT + 1 + x) && T[i].addrs[INDIRECT] < |sectors| && SB < |v2| && Geo(v2, |v2|)
      && Sync(sectors[T[i].addrs[INDIRECT] := SetWord(sectors[T[i].addrs[INDIRECT]], x, b)], v2) && FreeTail(v2, b + 1)
  {
    hide Own, BitsOk, TableOk, Extends, Used, Geo, GetSuper, SlotAddr, FreshBlock, Word, DataStart;
    var ind, v2 := T[i].addrs[INDIRECT], WithEntry(v1, T[i].addrs[INDIRECT], x, b);
    FreshFacts(v0, v1, b);
    IndirectOwned(v0, T, owner, i);
    FreeAbove(v0, T, owner, b, i);
    DataFrame(v1, ind, SetWord(v1[ind], x, b));
    EntrySlot(v2, T, i, x);
    assert v2[b] == Zeros();
    forall m | 0 <= m < NSLOT && m != INDIRECT + 1 + x
      && m != INDIRECT ensures SlotAddr(v2, T, i, m) == SlotAddr(v0, T, i, m) {
      EntryFrame(v0, v1, T, owner, i, x, b, i, m);
    }
    assert ind in owner && ind < b;
    assert Sync(sectors[ind := SetWord(sectors[ind], x, b)], v2);
    assert forall c | b < c < |v2| :: v2[c] == Zeros();
    assert forall c | 0 <= c < |v2| :: Used(v2, c) == Used(v1, c);
  }

  lemma StoredMore(sectors: seq<Block>, v0: seq<Block>, T0: seq<Dinode>, v1: seq<Block>, T1: seq<Dinode>,
                   owner: map<nat, Slot>,
                   i: nat, off: nat, src: seq<byte>, free: nat)
    requires FsOk(v1, T1, owner, i) && i < |T1| && off / BSIZE < MAXFILE && off % BSIZE + |src| <= BSIZE
      && |T1[i].addrs| == NDIRECT + 1
    requires Grown(v0, T0, v1, T1, i, FileSlot(off / BSIZE)) && SlotAddr(v1, T1, i, FileSlot(off / BSIZE)) != 0
    requires SlotAddr(v1, T1, i, FileSlot(off / BSIZE)) < |v1| && SB < |v1| && Geo(v1, |v1|) && Sync(sectors, v1)
      && FreeTail(v1, free)
    ensures var x := SlotAddr(v1, T1, i, FileSlot(off / BSIZE)); x < |sectors| && sectors[x] == v1[x]
    ensures var x := SlotAddr(v1, T1, i, FileSlot(off / BSIZE)); var v2 := v1[x := Patch(v1[x], off % BSIZE, src)];
      && WfTable(v0, T0) && WfTable(v2, T1) && OneMore(v0, T0, v2, T1, i, off, |src|) && SB < |v2| && Geo(v2, |v2|)
      && Sync(sectors[x := v2[x]], v2) && FreeTail(v2, free)
  {
    hide Used, Geo, GetSuper, SlotAddr, TableOk, Extends, Patch, DataStart, FileSlot, FD.OthersSame, FD.FileByte;
    var x := SlotAddr(v1, T1, i, FileSlot(off / BSIZE));
    var data := Patch(v1[x], off % BSIZE, src);
    var v2 := v1[x := data];
    AddrInside(v1, T1, owner, i, FileSlot(off / BSIZE));
    FD.WriteBytes(v1, T1, owner, i, off / BSIZE, data);
    GrownIn(v0, T0, v1, T1, i, off / BSIZE);
    GrownBytes(v0, T0, v1, T1, i, off / BSIZE);
    forall p | 0 <= p < FD.MAXBYTES
      && !(off <= p < off + |src|) ensures FD.FileByte(v2, T1, i, p) == FD.FileByte(v1, T1, i, p) {
      if p / BSIZE == off / BSIZE {
        PatchAt(v1, T1, i, off, p, src);
      }
    }
    DataFrame(v1, x, data);
    FreeAbove(v1, T1, owner, free, i);
    assert x in owner;
    hide Own;
    ExtendsSlots(v0, T0, v1, T1, i);
    forall cn | 0 <= cn < MAXFILE && cn != off / BSIZE && FD.Mapped(v2, T1, i, cn) ensures FD.Mapped(v0, T0, i, cn) {
      assert FD.Mapped(v1, T1, i, cn);
      FD.SlotApart(cn, off / BSIZE);
      SlotNotIndirect(cn);
    }
  }

  /** A byte of the block that the patch leaves alone. */
  lemma PatchAt(virt: seq<Block>, T: seq<Dinode>, i: nat, off: nat, p: nat, src: seq<byte>)
    requires i < |T| && |T[i].addrs| == NDIRECT + 1 && off / BSIZE < MAXFILE && off % BSIZE + |src| <= BSIZE
    requires p / BSIZE == off / BSIZE && !(off <= p < off + |src|) && p < FD.MAXBYTES
    requires 0 < SlotAddr(virt, T, i, FileSlot(off / BSIZE)) < |virt|
    ensures Patch(virt[SlotAddr(virt, T, i, FileSlot(off / BSIZE))], off % BSIZE,
        src)[p % BSIZE] == FD.FileByte(virt, T, i, p)
  {
    hide SlotAddr;
  }

  lemma SlotNotIndirect(bn: nat)
    requires bn < MAXFILE
    ensures FileSlot(bn) != INDIRECT && FileSlot(bn) < NSLOT
  {
  }

  lemma InodeFacts(virt: seq<Block>, T: seq<Dinode>, owner: map<nat, Slot>, i: nat)
    requires FsOk(virt, T, owner, i) && i < |T|
    ensures SB < InodeBlock(i) < SuperOf(virt).ninodes / IPB + 3 < DataStart(SuperOf(virt)) <= |virt| && WfDinode(T[i])
  {
    InodePlace(virt, T, i);
  }

  lemma FsFactsHere(virt: seq<Block>, T: seq<Dinode>, owner: map<nat, Slot>)
    requires FsOk(virt, T, owner, -1)
    ensures SB < |virt| && Geo(virt, |virt|) && WfTable(virt, T)
  {
  }

  /** Writing an inode changes no bit and no block behind the metadata. */
  lemma TailKept(v0: seq<Block>, v1: seq<Block>, T: seq<Dinode>, owner: map<nat, Slot>, free: nat, i: nat)
    requires FsOk(v0, T, owner, i) && FsOk(v1, T, owner, -1) && |v1| == |v0| && SuperOf(v1) == SuperOf(v0)
      && FreeTail(v0, free)
    requires i < |T| && v1 == v0[InodeBlock(i) := v1[InodeBlock(i)]]
    ensures FreeTail(v1, free)
  {
    hide GetSuper, Used, Own, TableOk, DataStart;
    InodePlace(v0, T, i);
    FreeAbove(v0, T, owner, free, i);
  }

  lemma FreeAbove(virt: seq<Block>, T: seq<Dinode>, owner: map<nat, Slot>, free: nat, skip: int)
    requires FsOk(virt, T, owner, skip) && FreeTail(virt, free)
    ensures SB < DataStart(SuperOf(virt)) <= free && forall b | b in owner && b < |virt| :: b < free
  {
    hide GetSuper, Used, Own, TableOk;
    GeoFacts(virt);
    assert Used(virt, DataStart(SuperOf(virt)) - 1);
    forall b | b in owner && b < |virt| ensures b < free {
      assert Used(virt, b);
    }
  }

  /** A blank inode may get any type. */
  lemma Renew(virt: seq<Block>, T: seq<Dinode>, owner: map<nat, Slot>, i: nat, din: Dinode)
    requires FsOk(virt, T, owner, -1) && FD.NoHoles(virt, T) && i < |T| && T[i] == Blank() && WfDinode(din)
      && din.addrs == Blank().addrs && din.size == 0
    ensures FsOk(virt, T[i := din], owner, i) && FD.NoHoles(virt, T[i := din])
  {
    hide GetSuper, Geo, GetInode;
    var T1 := T[i := din];
    forall j, k | 0 <= j < |T| && 0 <= k < NSLOT ensures SlotAddr(virt, T1, j, k) == SlotAddr(virt, T, j, k) {
    }
    forall j | 0 <= j < |T| ensures T1[j].size <= FD.MAXBYTES && FD.MappedTo(virt, T1, j, T1[j].size) {
      forall bn | 0 <= bn < MAXFILE && bn * BSIZE < T1[j].size ensures FD.Mapped(virt, T1, j, bn) {
        assert FD.Mapped(virt, T, j, bn);
      }
    }
  }

  lemma RenewOthers(v0: seq<Block>, T0: seq<Dinode>, v1: seq<Block>, T1: seq<Dinode>, i: nat)
    requires WfTable(v0, T0) && WfTable(v0, T1) && WfTable(v1, T1) && i < |T0| && T0[i].addrs == Blank().addrs
      && T1 == T0[i := T1[i]]
    requires SameFiles(v0, v1, T1) && T1[i].addrs == Blank().addrs
    ensures FD.OthersSame(v0, T0, v1, T1, i) && Tight(v1, T1, i, 0)
  {
    hide Geo, GetSuper, SameFiles;
    assert |Blank().addrs| == NDIRECT + 1;
    forall j, p | 0 <= j < |T0| && 0 <= p < FD.MAXBYTES ensures FD.FileByte(v1, T1, j, p) == FD.FileByte(v0, T0, j, p) {
      SameFilesAt(v0, v1, T1, j, p);
      assert T1[j].addrs == T0[j].addrs;
    }
    forall j, bn | 0 <= j < |T0| && 0 <= bn < MAXFILE ensures FD.Mapped(v1, T1, j, bn) == FD.Mapped(v0, T0, j, bn) {
      SameFilesAt(v0, v1, T1, j, bn * BSIZE);
      assert T1[j].addrs == T0[j].addrs;
    }
  }

  lemma SameFilesAt(v0: seq<Block>, v1: seq<Block>, T: seq<Dinode>, j: nat, p: nat)
    requires WfTable(v0, T) && WfTable(v1, T) && SameFiles(v0, v1, T) && j < |T| && p < FD.MAXBYTES
    ensures FD.FileByte(v1, T, j, p) == FD.FileByte(v0, T, j, p)
      && FD.Mapped(v1, T, j, p / BSIZE) == FD.Mapped(v0, T, j, p / BSIZE)
  {
    hide Geo, GetSuper, FD.FileByte, FD.Mapped;
  }

  lemma FilesSame(v0: seq<Block>, v1: seq<Block>, T: seq<Dinode>)
    requires WfTable(v0, T) && WfTable(v1, T) && SameFiles(v0, v1, T) && FD.NoHoles(v0, T)
    ensures FD.NoHoles(v1, T)
  {
    hide GetSuper, Geo, FD.Mapped, FD.FileByte;
  }

  /** `virt` after block `b` has been handed out. */
  ghost function Taken(virt: seq<Block>, b: nat): (r: seq<Block>)
    requires Geo(virt, |virt|) && b < |virt|
    ensures |r| == |virt|
  {
    Marked(virt, b, true)[b := Zeros()]
  }

  lemma Fresh(sectors: seq<Block>, virt: seq<Block>, T: seq<Dinode>, owner: map<nat, Slot>, i: nat, b: nat)
    requires FsOk(virt, T, owner, i) && FreeTail(virt, b) && b < |virt| && SB < |virt| && Sync(sectors, virt)
    ensures FreshBlock(virt, Taken(virt, b), b) && Geo(Taken(virt, b), |virt|)
      && SuperOf(Taken(virt, b)) == SuperOf(virt)
    ensures FreeTail(Taken(virt, b), b + 1) && Sync(sectors, Taken(virt, b))
  {
    hide GetSuper, Used, Own, TableOk, DataStart, Marked;
    FreeAbove(virt, T, owner, b, i);
    assert FreshBlock(virt, Taken(virt, b), b);
    FreshFacts(virt, Taken(virt, b), b);
  }

  /**
   A step for inode `i` that adds blocks: all slots but `k` and the indirect block keep their
   addresses, and a new data block is blank.
   */
  ghost predicate Grown(v0: seq<Block>, T0: seq<Dinode>, v1: seq<Block>, T1: seq<Dinode>, i: nat, k: nat) {
    && WfTable(v0, T0) && WfTable(v1, T1) && Extends(v0, T0, v1, T1, i) && k < NSLOT
    && (forall m | 0 <= m < NSLOT && m != k && m != INDIRECT :: SlotAddr(v1, T1, i, m) == SlotAddr(v0, T0, i, m))
    && (k != INDIRECT && SlotAddr(v0, T0, i, k) == 0 && 0 < SlotAddr(v1, T1, i, k) < |v1| ==>
       v1[SlotAddr(v1, T1, i, k)] == Zeros())
  }

  lemma GrownRefl(virt: seq<Block>, T: seq<Dinode>, owner: map<nat, Slot>, i: nat, k: nat)
    requires FsOk(virt, T, owner, i) && i < |T| && k < NSLOT
    ensures Grown(virt, T, virt, T, i, k)
  {
    ExtendsRefl(virt, T, i);
  }

  lemma AllocGrown(v0: seq<Block>, v1: seq<Block>, T: seq<Dinode>, owner: map<nat, Slot>, i: nat, k: nat, b: nat)
    requires FsOk(v0, T, owner, i) && FreshBlock(v0, v1, b) && i < |T| && k <= INDIRECT
      && |T[i].addrs| == NDIRECT + 1 && T[i].addrs[k] == 0
    requires WfTable(v1, WithAddr(T, i, k, b)) && Extends(v0, T, v1, WithAddr(T, i, k, b), i)
    ensures Grown(v0, T, v1, WithAddr(T, i, k, b), i, k)
  {
    hide Own, BitsOk, TableOk, Extends, Used, Geo, GetSuper, SlotAddr, FreshBlock;
    forall m | 0 <= m < NSLOT && m != k
      && m != INDIRECT ensures SlotAddr(v1, WithAddr(T, i, k, b), i, m) == SlotAddr(v0, T, i, m) {
      AllocFrame(v0, v1, T, owner, i, k, b, i, m);
    }
    SlotDirect(v1, WithAddr(T, i, k, b), i, k);
    FreshFacts(v0, v1, b);
    FreshBlank(v0, v1, b);
  }

  lemma FreshBlank(v0: seq<Block>, v1: seq<Block>, b: nat)
    requires Geo(v0, |v0|) && FreshBlock(v0, v1, b)
    ensures b < |v1| && v1[b] == Zeros()
  {
    hide Geo, GetSuper, Marked;
  }

  lemma {:induction false} ZeroBits(k: nat)
    ensures !TestBit(0, k)
  {
    if k > 0 {
      ZeroBits(k - 1);
    }
  }

  /** In a blank bitmap nothing is marked. */
  lemma NothingMarked(base: seq<Block>, b: nat)
    requires Geo(base, |base|) && b < |base| && forall s | 0 <= s < |base| && s != SB :: base[s] == Zeros()
    ensures !Used(base, b)
  {
    hide GetSuper;
    BitRange(base, b);
    ZeroBits(BitIndex(b) % 8);
  }

  function BlankTable(n: nat): (T: seq<Dinode>)
    ensures |T| == n && forall i | 0 <= i < n :: T[i] == Blank()
  {
    seq<Dinode>(n, i => Blank())
  }

  lemma FreshImage(base: seq<Block>, sb: Super)
    requires SB < |base| <= UINT && GetSuper(base[SB]) == sb && forall s | 0 <= s < |base| && s != SB ::
      base[s] == Zeros()
    requires |base| == sb.size - sb.nlog && DataStart(sb) <= |base|
    ensures Geo(base, |base|) && SuperOf(base) == sb
    ensures var virt, T := MarkedTo(base, DataStart(sb)), BlankTable(sb.ninodes);
      && FsOk(virt, T, map[], -1) && FD.NoHoles(virt, T) && FreeTail(virt, DataStart(sb)) && SuperOf(virt) == sb
      && forall s | 0 <= s < |base| && (s < sb.ninodes / IPB + 3 || DataStart(sb) <= s) :: virt[s] == base[s]
  {
    hide GetSuper, Used, BlankTable, DataStart, Marked, GetInode;
    assert Geo(base, |base|) && SuperOf(base) == sb;
    GeoFacts(base);
    var virt, T := MarkedTo(base, DataStart(sb)), BlankTable(sb.ninodes);
    MarkedToFacts(base, DataStart(sb));
    forall b | 0 <= b < |base| ensures Used(virt, b) <==> b < DataStart(sb) {
      NothingMarked(base, b);
    }
    BlankTableFacts(sb.ninodes);
    hide MarkedTo, Geo;
    BlankOk(virt, T);
    forall i | 0 <= i < |T| ensures InodeBlock(i) < |virt| && GetInode(virt[InodeBlock(i)], i % IPB) == T[i] {
      InodePlace(virt, T, i);
      BlankInode(i % IPB);
    }
  }

  lemma BlankTableFacts(n: nat)
    ensures |BlankTable(n)| == n && (forall i | 0 <= i < n :: BlankTable(n)[i] == Blank()) && WfDinode(Blank())
  {
    BlankInode(0);
  }

  /** Blank inodes own nothing. */
  lemma BlankOk(virt: seq<Block>, T: seq<Dinode>)
    requires WfTable(virt, T) && forall i | 0 <= i < |T| :: T[i] == Blank()
    ensures Own(virt, T, map[]) && FD.NoHoles(virt, T)
  {
    hide GetSuper, Geo;
  }
}
