/**
 Copying between the kernel and the pages of an address space (vm.c uva2ka, copyout,
 copyin, clearpteu), across pages that need not be adjacent in physical memory.
 */
module UserCopy {
  import opened Base
  import opened Pages
  import B = Blocks

  // ------------------------------------------------------------ bytes in words

  /** Byte `j` of a word, the lowest first. */
  function ByteOf(w: nat, j: nat): byte {
    if j == 0 then w % 0x100 else ByteOf(w / 0x100, j - 1)
  }

  /** The word with byte `j` replaced. */
  function SetByte(w: nat, j: nat, b: byte): nat {
    if j == 0 then w / 0x100 * 0x100 + b else SetByte(w / 0x100, j - 1, b) * 0x100 + w % 0x100
  }

  lemma {:induction false} SetByteAt(w: nat, j: nat, b: byte, k: nat)
    ensures ByteOf(SetByte(w, j, b), k) == if k == j then b else ByteOf(w, k)
  {
    var r := SetByte(w, j, b);
    if j == 0 {
      assert r / 0x100 == w / 0x100 && r % 0x100 == b;
    } else {
      assert r / 0x100 == SetByte(w / 0x100, j - 1, b) && r % 0x100 == w % 0x100;
      if k > 0 {
        SetByteAt(w / 0x100, j - 1, b, k - 1);
      }
    }
  }

  /** Byte `k` of a frame. */
  function At(page: Page, k: nat): byte
    requires |page| == WORDS && k < PGSIZE
  {
    ByteOf(page[k / 4], k % 4)
  }

  function SetAt(page: Page, n: nat, b: byte): (r: Page)
    requires |page| == WORDS && n < PGSIZE
    ensures |r| == WORDS && forall k | 0 <= k < PGSIZE :: At(r, k) == if k == n then b else At(page, k)
  {
    SetAtOk(page, n, b);
    page[n / 4 := SetByte(page[n / 4], n % 4, b)]
  }

  lemma SetAtOk(page: Page, n: nat, b: byte)
    requires |page| == WORDS && n < PGSIZE
    ensures var r := page[n / 4 := SetByte(page[n / 4], n % 4, b)];
      forall k | 0 <= k < PGSIZE :: At(r, k) == if k == n then b else At(page, k)
  {
    hide SetByte, ByteOf;
    forall k | 0 <= k < PGSIZE && k / 4 == n / 4
      ensures ByteOf(SetByte(page[n / 4], n % 4, b), k % 4) == if k == n then b else ByteOf(page[k / 4], k % 4)
    {
      SetByteAt(page[n / 4], n % 4, b, k % 4);
    }
  }

  /** The frame with `src` copied to offset `at`. */
  function Stored(page: Page, at: nat, src: seq<byte>): (r: Page)
    requires |page| == WORDS && at + |src| <= PGSIZE
    ensures |r| == WORDS
    ensures forall k | 0 <= k < PGSIZE :: At(r, k) == if at <= k < at + |src| then src[k - at] else At(page, k)
  {
    if src == [] then page
    else SetAt(Stored(page, at, src[..|src| - 1]), at + |src| - 1, src[|src| - 1])
  }

  // ------------------------------------------------------------- permissions

  /** `*pte & PTX_AP(U_AP)`: the user may access one of the four quarters of the page. */
  predicate UserBit(e: nat) {
    B.TestBit(Flags(e), 5) || B.TestBit(Flags(e), 7) || B.TestBit(Flags(e), 9) || B.TestBit(Flags(e), 11)
  }

  /** `*pte & ~PTX_AP(U_AP)`: the four bits are gone, and only they. */
  function ClearUser(e: nat): (r: nat)
    ensures Addr(r) == Addr(e) && !UserBit(r)
    ensures forall j: nat :: B.TestBit(Flags(r), j) <==> B.TestBit(Flags(e), j) && j !in {5, 7, 9, 11}
  {
    assert B.Pow2(12) == PGSIZE;
    var f5 := B.PutBit(Flags(e), 12, 5, false);
    var f7 := B.PutBit(f5, 12, 7, false);
    var f9 := B.PutBit(f7, 12, 9, false);
    var f11 := B.PutBit(f9, 12, 11, false);
    B.PutBitAt(Flags(e), 12, 5, false);
    B.PutBitAt(f5, 12, 7, false);
    B.PutBitAt(f7, 12, 9, false);
    B.PutBitAt(f9, 12, 11, false);
    Addr(e) * PGSIZE + f11
  }

  /** The walk finds a table for page `p`. */
  ghost predicate HasTable(mem: seq<Page>, d: nat, p: nat) {
    d < |mem| && |mem[d]| == WORDS && p < USERPAGES && mem[d][Pdx(p)] != 0
  }

  /** The user may access page `p`. */
  ghost predicate Open(mem: seq<Page>, d: nat, p: nat) {
    && Entry(mem, d, p) != 0
    && var flags := Flags(Entry(mem, d, p));
       B.TestBit(flags, 5) || B.TestBit(flags, 7) || B.TestBit(flags, 9) || B.TestBit(flags, 11)
  }

  /** The byte at user address `a`. */
  ghost function UserByte(mem: seq<Page>, d: nat, a: nat): byte {
    var f := Addr(Entry(mem, d, a / PGSIZE));
    if Entry(mem, d, a / PGSIZE) != 0 && f < |mem| && |mem[f]| == WORDS then At(mem[f], a % PGSIZE) else 0
  }

  /** What uva2ka returns: a frame, 0, or nothing, because it follows the null pointer that the walk returned. */
  datatype Ka = Frame(f: nat) | NoFrame | Fault

  /** How a copy ends: all copied, -1, or uva2ka has followed a null pointer. */
  datatype Copy = Copied | Refused | Faulted

  /** uva2ka of page `p` */
  method Uva2ka(m: Memory, d: nat, p: nat) returns (r: Ka)
    requires m.Valid() && IsDir(m.role, d) && p < USERPAGES
    ensures r.Fault? <==> !HasTable(m.mem, d, p)
    ensures r.Frame? <==> Open(m.mem, d, p)
    ensures r.Frame? ==> r.f == Addr(Entry(m.mem, d, p)) && r.f < |m.mem| && |m.mem[r.f]| == WORDS
    ensures r.Frame? ==> r.f in m.role && m.role[r.f] == Mapped(d, p)
  {
    hide Chain, FreeOk, B.TestBit;
    DirHere(m.mem, m.freelist, m.free, m.role, d);
    if m.mem[d][Pdx(p)] == 0 {
      return Fault;
    }
    EntryHere(m.mem, m.freelist, m.free, m.role, d, p);
    var e := m.mem[Addr(m.mem[d][Pdx(p)])][Ptx(p)];
    if e == 0 || !UserBit(e) {
      return NoFrame;
    }
    PageHere(m.mem, m.freelist, m.free, m.role, d, p);
    r := Frame(Addr(e));
  }

  lemma DirHere(mem: seq<Page>, head: nat, free: seq<nat>, role: map<nat, Role>, d: nat)
    requires Good(mem, head, free, role) && IsDir(role, d)
    ensures d < |mem| && |mem[d]| == WORDS
  {
  }

  lemma PageHere(mem: seq<Page>, head: nat, free: seq<nat>, role: map<nat, Role>, d: nat, p: nat)
    requires Good(mem, head, free, role) && IsDir(role, d) && Entry(mem, d, p) != 0
    ensures var f := Addr(Entry(mem, d, p)); f in role && role[f] == Mapped(d, p) && f < |mem| && |mem[f]| == WORDS
  {
    hide Entry;
  }

  /** Changing the content of a mapped frame changes nothing about the page tables. */
  lemma Rewritten(mem: seq<Page>, head: nat, free: seq<nat>, role: map<nat, Role>, f: nat, data: Page)
    requires Good(mem, head, free, role) && f in role && role[f].Mapped? && |data| == WORDS
    ensures f < |mem| && Good(mem[f := data], head, free, role)
    ensures forall d: nat, p: nat | IsDir(role, d) :: Entry(mem[f := data], d, p) == Entry(mem, d, p)
  {
    hide Entry;
    assert f !in free by { hide TablesOk, PagesOk, Chain; }
    TablesKept(mem, role, f, data);
    hide FreeOk, TablesOk, PagesOk, Chain;
    ChainKept(mem, mem[f := data], head, free, f);
  }

  lemma TablesKept(mem: seq<Page>, role: map<nat, Role>, f: nat, data: Page)
    requires Sized(mem) && TablesOk(mem, role) && PagesOk(mem, role) && f in role && role[f].Mapped? && |data| == WORDS
    ensures f < |mem| && Sized(mem[f := data]) && TablesOk(mem[f := data], role) && PagesOk(mem[f := data], role)
    ensures forall d: nat, p: nat | IsDir(role, d) :: Entry(mem[f := data], d, p) == Entry(mem, d, p)
  {
    hide Entry;
    var mem1 := mem[f := data];
    forall d: nat, p: nat | IsDir(role, d) ensures Entry(mem1, d, p) == Entry(mem, d, p) {
      EntryKept(mem, role, f, data, d, p);
    }
    assert PagesOk(mem1, role) by { hide TablesOk; }
    assert TablesOk(mem1, role) by { hide PagesOk; }
  }

  /** The state after the first `n` bytes of `src` have been copied to the address `va` of the space. */
  ghost predicate CopiedTo(mem0: seq<Page>, mem1: seq<Page>, role: map<nat, Role>, d: nat, va: nat, src: seq<byte>,
                          n: nat) {
    && n <= |src| && |mem1| == |mem0|
    && (forall e: nat, p: nat | IsDir(role, e) :: Entry(mem1, e, p) == Entry(mem0, e, p))
    && (forall a: nat | a < USERBOUND && Entry(mem0, d, a / PGSIZE) != 0 ::
          UserByte(mem1, d, a) == if va <= a < va + n then src[a - va] else UserByte(mem0, d, a))
    && (forall g | 0 <= g < |mem0| && !(g in role && role[g].Mapped? && role[g].d == d) :: mem1[g] == mem0[g])
    && (forall a: nat | va <= a < va + n :: Open(mem0, d, a / PGSIZE))
  }

  lemma CopiedNone(mem: seq<Page>, role: map<nat, Role>, d: nat, va: nat, src: seq<byte>)
    ensures CopiedTo(mem, mem, role, d, va, src, 0)
  {
    hide Entry, UserByte, Open;
  }

  /** The bytes of an address space after its page `p`, in frame `f`, has been rewritten. */
  lemma PageBytes(mem: seq<Page>, head: nat, free: seq<nat>, role: map<nat, Role>, d: nat, p: nat, data: Page, a: nat)
    requires Good(mem, head, free, role) && IsDir(role, d) && Entry(mem, d, p) != 0 && |data| == WORDS
    requires a < USERBOUND && Entry(mem, d, a / PGSIZE) != 0
    ensures var f := Addr(Entry(mem, d, p));
      && f < |mem|
      && UserByte(mem[f := data], d, a) == if a / PGSIZE == p then At(data, a % PGSIZE) else UserByte(mem, d, a)
  {
    PageHere(mem, head, free, role, d, p);
    PageHere(mem, head, free, role, d, a / PGSIZE);
    Rewritten(mem, head, free, role, Addr(Entry(mem, d, p)), data);
    hide Entry, At, Good;
  }

  /** The next piece has been copied. */
  lemma CopiedMore(mem0: seq<Page>, mem1: seq<Page>, head: nat, free: seq<nat>, role: map<nat, Role>, d: nat, va: nat,
                   src: seq<byte>, n: nat, k: nat)
    requires Good(mem1, head, free, role) && IsDir(role, d) && CopiedTo(mem0, mem1, role, d, va, src, n)
    requires n + k <= |src| && (va + n) % PGSIZE + k <= PGSIZE && va + |src| <= USERBOUND
    requires Open(mem1, d, (va + n) / PGSIZE) && k > 0
    ensures var f, off := Addr(Entry(mem1, d, (va + n) / PGSIZE)), (va + n) % PGSIZE;
      && f < |mem1| && |mem1[f]| == WORDS && f in role && role[f].Mapped?
      && CopiedTo(mem0, mem1[f := Stored(mem1[f], off, src[n..n + k])], role, d, va, src, n + k)
  {
    hide Good, Stored, UserByte, Entry, UserBit;
    var p, off := (va + n) / PGSIZE, (va + n) % PGSIZE;
    PageHere(mem1, head, free, role, d, p);
    var f := Addr(Entry(mem1, d, p));
    var data := Stored(mem1[f], off, src[n..n + k]);
    var mem2 := mem1[f := data];
    Rewritten(mem1, head, free, role, f, data);
    forall a: nat | a < USERBOUND && Entry(mem0, d, a / PGSIZE) != 0
      ensures UserByte(mem2, d, a) == if va <= a < va + (n + k) then src[a - va] else UserByte(mem0, d, a)
    {
      assert Entry(mem1, d, a / PGSIZE) != 0;
      MoreByte(mem1, head, free, role, d, va, src, n, k, a);
    }
    forall a: nat | va <= a < va + (n + k) ensures Open(mem0, d, a / PGSIZE) {
      if a >= va + n {
        SamePage(va + n, k, a);
      }
    }
  }

  /** A byte of the space after the next piece. */
  lemma MoreByte(mem: seq<Page>, head: nat, free: seq<nat>, role: map<nat, Role>, d: nat, va: nat, src: seq<byte>,
                 n: nat,
                 k: nat, a: nat)
    requires Good(mem, head, free, role) && IsDir(role, d) && n + k <= |src| && (va + n) % PGSIZE + k <= PGSIZE && k > 0
    requires Entry(mem, d, (va + n) / PGSIZE) != 0 && a < USERBOUND && Entry(mem, d, a / PGSIZE) != 0
    ensures var f, off := Addr(Entry(mem, d, (va + n) / PGSIZE)), (va + n) % PGSIZE;
      && f < |mem| && |mem[f]| == WORDS
      && UserByte(mem[f := Stored(mem[f], off, src[n..n + k])], d, a) ==
           if va + n <= a < va + n + k then src[a - va] else UserByte(mem, d, a)
  {
    hide Good, Stored, Entry, UserByte;
    var p, off := (va + n) / PGSIZE, (va + n) % PGSIZE;
    PageHere(mem, head, free, role, d, p);
    var data := Stored(mem[Addr(Entry(mem, d, p))], off, src[n..n + k]);
    PageBytes(mem, head, free, role, d, p, data, a);
    if va + n <= a < va + n + k {
      SamePage(va + n, k, a);
    }
    if a / PGSIZE == p {
      PieceByte(mem, d, p, off, src[n..n + k], a);
      assert va + n == p * PGSIZE + off;
    }
  }

  lemma SamePage(a: nat, k: nat, b: nat)
    requires a <= b < a + k && a % PGSIZE + k <= PGSIZE
    ensures b / PGSIZE == a / PGSIZE
  {
  }

  /** The bytes of a page with a piece stored at offset `off`. */
  lemma PieceByte(mem: seq<Page>, d: nat, p: nat, off: nat, piece: seq<byte>, a: nat)
    requires Entry(mem, d, p) != 0 && Addr(Entry(mem, d, p)) < |mem| && |mem[Addr(Entry(mem, d, p))]| == WORDS
    requires off + |piece| <= PGSIZE && a / PGSIZE == p
    ensures At(Stored(mem[Addr(Entry(mem, d, p))], off, piece), a % PGSIZE) ==
      if p * PGSIZE + off <= a < p * PGSIZE + off + |piece| then piece[a - p * PGSIZE - off] else UserByte(mem, d, a)
  {
    hide Entry, At;
  }

  /**
   copyout: as many bytes as lie before the first page in the range that the user may
   not access arrive at their addresses, and no other byte of any space changes.
   */
  method Copyout(m: Memory, d: nat, va: nat, src: seq<byte>) returns (r: Copy, ghost n: nat)
    requires m.Valid() && IsDir(m.role, d) && va + |src| <= USERBOUND
    modifies m`mem
    ensures m.Valid() && CopiedTo(old(m.mem), m.mem, m.role, d, va, src, n)
    ensures n <= |src| && (r.Copied? <==> n == |src|)
    ensures !r.Copied? ==> !Open(old(m.mem), d, (va + n) / PGSIZE)
    ensures !r.Copied? ==> (r.Faulted? <==> !HasTable(old(m.mem), d, (va + n) / PGSIZE))
  {
    hide Good, CopiedTo, Open, HasTable, Stored;
    CopiedNone(m.mem, m.role, d, va, src);
    n := 0;
    var i := 0;
    while i < |src|
      invariant i == n <= |src| && m.Valid() && CopiedTo(old(m.mem), m.mem, m.role, d, va, src, n)
    {
      var off := (va + i) % PGSIZE;
      var pa := Uva2ka(m, d, (va + i) / PGSIZE);
      SameTables(old(m.mem), m.mem, m.freelist, m.free, m.role, d, va, src, n, (va + i) / PGSIZE);
      if pa.Fault? {
        return Faulted, n;
      }
      if pa.NoFrame? {
        return Refused, n;
      }
      var k := PGSIZE - off;
      if k > |src| - i {
        k := |src| - i;
      }
      CopiedMore(old(m.mem), m.mem, m.freelist, m.free, m.role, d, va, src, n, k);
      ghost var data := Stored(m.mem[pa.f], off, src[i..i + k]);
      Rewritten(m.mem, m.freelist, m.free, m.role, pa.f, data);
      m.mem := m.mem[pa.f := Stored(m.mem[pa.f], off, src[i..i + k])];
      i, n := i + k, n + k;
    }
    r := Copied;
  }

  lemma SameTables(mem0: seq<Page>, mem1: seq<Page>, head: nat, free: seq<nat>, role: map<nat, Role>, d: nat, va: nat,
                   src: seq<byte>, n: nat, p: nat)
    requires Good(mem1, head, free, role) && IsDir(role, d) && CopiedTo(mem0, mem1, role, d, va, src, n)
    ensures (HasTable(mem1, d, p) <==> HasTable(mem0, d, p)) && (Open(mem1, d, p) <==> Open(mem0, d, p))
  {
    DirHere(mem1, head, free, role, d);
    hide Good, UserByte;
    assert mem1[d] == mem0[d];
  }

  /** copyin: the bytes at the user addresses, up to the first page that the user may not access. */
  method Copyin(m: Memory, d: nat, dst: array<byte>, va: nat, len: nat) returns (r: Copy, n: nat)
    requires m.Valid() && IsDir(m.role, d) && va + len <= USERBOUND && len <= dst.Length
    modifies dst
    ensures n <= len && dst[n..] == old(dst[n..]) && forall i | 0 <= i < n :: dst[i] == UserByte(m.mem, d, va + i)
    ensures forall a: nat | va <= a < va + n :: Open(m.mem, d, a / PGSIZE)
    ensures r.Copied? <==> n == len
    ensures !r.Copied? ==> !Open(m.mem, d, (va + n) / PGSIZE)
    ensures !r.Copied? ==> (r.Faulted? <==> !HasTable(m.mem, d, (va + n) / PGSIZE))
  {
    hide Good, Open, HasTable, UserByte;
    n := 0;
    while n < len
      invariant n <= len && dst[n..] == old(dst[n..])
      invariant forall i | 0 <= i < n :: dst[i] == UserByte(m.mem, d, va + i)
      invariant forall a: nat | va <= a < va + n :: Open(m.mem, d, a / PGSIZE)
    {
      var off := (va + n) % PGSIZE;
      var pa := Uva2ka(m, d, (va + n) / PGSIZE);
      if pa.Fault? {
        return Faulted, n;
      }
      if pa.NoFrame? {
        return Refused, n;
      }
      var k := PGSIZE - off;
      if k > len - n {
        k := len - n;
      }
      CopyPiece(m, d, dst, va, n, k, pa.f);
      n := n + k;
    }
    r := Copied;
  }

  /** `memmove(buf, pa0 + (va - va0), n)` */
  method CopyPiece(m: Memory, d: nat, dst: array<byte>, va: nat, n: nat, k: nat, f: nat)
    requires n + k <= dst.Length && 0 < k && (va + n) % PGSIZE + k <= PGSIZE && va + n + k <= USERBOUND
    requires Open(m.mem, d, (va + n) / PGSIZE) && f == Addr(Entry(m.mem, d, (va + n) / PGSIZE)) < |m.mem|
      && |m.mem[f]| == WORDS
    modifies dst
    ensures dst[n + k..] == old(dst[n + k..]) && dst[..n] == old(dst[..n])
    ensures forall i | n <= i < n + k :: dst[i] == UserByte(m.mem, d, va + i)
    ensures forall a: nat | va + n <= a < va + n + k :: Open(m.mem, d, a / PGSIZE)
  {
    hide Entry, UserBit, At;
    var i := 0;
    while i < k
      invariant i <= k && dst[n + k..] == old(dst[n + k..]) && dst[..n] == old(dst[..n])
      invariant forall j | n <= j < n + i :: dst[j] == UserByte(m.mem, d, va + j)
    {
      SamePage(va + n, k, va + n + i);
      assert (va + n + i) % PGSIZE == (va + n) % PGSIZE + i;
      dst[n + i] := At(m.mem[f], (va + n) % PGSIZE + i);
      i := i + 1;
    }
    forall a: nat | va + n <= a < va + n + k ensures Open(m.mem, d, a / PGSIZE) {
      SamePage(va + n, k, a);
    }
  }

  /** A byte that has been copied. */
  lemma OpenAt(mem0: seq<Page>, mem1: seq<Page>, role: map<nat, Role>, d: nat, va: nat, src: seq<byte>, n: nat, a: nat)
    requires CopiedTo(mem0, mem1, role, d, va, src, n) && va <= a < va + n && a < USERBOUND
    ensures Open(mem0, d, a / PGSIZE) && UserByte(mem1, d, a) == src[a - va]
  {
    hide UserByte, Entry, UserBit;
  }

  /** What copyout has delivered, copyin fetches. */
  method OutAndIn(m: Memory, d: nat, va: nat, src: seq<byte>, dst: array<byte>) returns (r: Copy)
    requires m.Valid() && IsDir(m.role, d) && va + |src| <= USERBOUND && |src| == dst.Length
    modifies m`mem, dst
    ensures m.Valid() && (r.Copied? <==> forall a: nat | va <= a < va + |src| :: Open(old(m.mem), d, a / PGSIZE))
    ensures r.Copied? ==> dst[..] == src
  {
    hide Good, Entry, HasTable, Open, UserByte, CopiedTo;
    ghost var n, mem0;
    mem0 := m.mem;
    r, n := Copyout(m, d, va, src);
    if r.Copied? {
      var r1, n1 := Copyin(m, d, dst, va, |src|);
      assert r1.Copied? by {
        SameTables(mem0, m.mem, m.freelist, m.free, m.role, d, va, src, n, (va + n1) / PGSIZE);
        if n1 < |src| {
          OpenAt(mem0, m.mem, m.role, d, va, src, n, va + n1);
        }
      }
      forall a: nat | va <= a < va + |src| ensures Open(mem0, d, a / PGSIZE) && UserByte(m.mem, d, a) == src[a - va] {
        OpenAt(mem0, m.mem, m.role, d, va, src, n, a);
      }
      assert forall i | 0 <= i < |src| :: dst[i] == UserByte(m.mem, d, va + i);
    }
  }

  /** clearpteu: the page is closed to the user, every other page of every space is as before. */
  method Clearpteu(m: Memory, d: nat, p: nat)
    requires m.Valid() && IsDir(m.role, d) && HasTable(m.mem, d, p)
    modifies m`mem
    ensures m.Valid() && !Open(m.mem, d, p) && Addr(Entry(m.mem, d, p)) == Addr(Entry(old(m.mem), d, p))
    ensures Entry(m.mem, d, p) == 0 <==> Entry(old(m.mem), d, p) == 0
    ensures forall e: nat, q: nat | IsDir(m.role, e) && (e, q) != (d, p) ::
      Entry(m.mem, e, q) == Entry(old(m.mem), e, q)
    ensures |m.mem| == |old(m.mem)|
      && forall g | 0 <= g < |m.mem| && !(g in m.role && m.role[g].Table?) :: m.mem[g] == old(m.mem)[g]
  {
    hide Good, ClearUser, Poke, Entry, B.TestBit;
    DirHere(m.mem, m.freelist, m.free, m.role, d);
    Cleared(m.mem, m.freelist, m.free, m.role, d, p);
    var t := Addr(m.mem[d][Pdx(p)]);
    forall g | 0 <= g < |m.mem| && g != t ensures Poke(m.mem, t, Ptx(p), ClearUser(m.mem[t][Ptx(p)]))[g] == m.mem[g] {
      PokeAt(m.mem, t, Ptx(p), ClearUser(m.mem[t][Ptx(p)]), g);
    }
    m.mem := Poke(m.mem, t, Ptx(p), ClearUser(m.mem[t][Ptx(p)]));
  }

  lemma Cleared(mem: seq<Page>, head: nat, free: seq<nat>, role: map<nat, Role>, d: nat, p: nat)
    requires Good(mem, head, free, role) && IsDir(role, d) && HasTable(mem, d, p)
    ensures var t := Addr(mem[d][Pdx(p)]);
      t < |mem| && |mem[t]| == WORDS && t in role && role[t].Table? && Entry(mem, d, p) == mem[t][Ptx(p)]
    ensures var t := Addr(mem[d][Pdx(p)]);
      var mem1 := Poke(mem, t, Ptx(p), ClearUser(mem[t][Ptx(p)]));
      && |mem1| == |mem| && Sized(mem1) && Good(mem1, head, free, role)
      && !UserBit(Entry(mem1, d, p)) && Addr(Entry(mem1, d, p)) == Addr(Entry(mem, d, p))
      && (Entry(mem1, d, p) == 0 <==> Entry(mem, d, p) == 0)
      && forall e: nat, q: nat | IsDir(role, e) && (e, q) != (d, p) :: Entry(mem1, e, q) == Entry(mem, e, q)
  {
    hide ClearUser, UserBit, Entry, Poke, PagesOk, Chain, FreeOk;
    EntryHere(mem, head, free, role, d, p);
    var t, w := TableOf(mem, d, p), ClearUser(mem[Addr(mem[d][Pdx(p)])][Ptx(p)]);
    var mem1 := Poke(mem, t, Ptx(p), w);
    forall e: nat, q: nat | IsDir(role, e) ensures Entry(mem1, e, q) == if (e, q) == (d, p) then w
      else Entry(mem, e, q) {
      EntryPoked(mem, role, d, p, w, e, q);
    }
    PokedTables(mem, role, t, Ptx(p), w, role);
    FreeRecast(free, role, t, Other);
    ChainPoked(mem, head, free, t, Ptx(p), w);
    ClearedEntry(mem, role, d, p);
    hide TablesOk;
    SamePages(mem, mem1, role, d, p);
  }

  /** The entry still names the same frame. */
  lemma ClearedEntry(mem: seq<Page>, role: map<nat, Role>, d: nat, p: nat)
    requires Sized(mem) && TablesOk(mem, role) && PagesOk(mem, role) && IsDir(role, d)
    ensures var e := Entry(mem, d, p); var w := ClearUser(e); Addr(w) == Addr(e) && !UserBit(w) && (w == 0 <==> e == 0)
  {
    hide Entry, UserBit;
    var e := Entry(mem, d, p);
    if e == 0 {
      ClearNone();
    } else {
      assert Addr(e) in role && Addr(e) > 0;
      hide ClearUser;
    }
  }

  lemma ClearNone()
    ensures ClearUser(0) == 0
  {
    assert B.Pow2(12) == PGSIZE;
    PutZero(12, 5);
    PutZero(12, 7);
    PutZero(12, 9);
    PutZero(12, 11);
  }

  lemma {:induction false} PutZero(w: nat, k: nat)
    requires k < w
    ensures 0 < B.Pow2(w) && B.PutBit(0, w, k, false) == 0
  {
    if k > 0 {
      PutZero(w - 1, k - 1);
    } else if w > 1 {
      PutZero(w - 1, 0);
    }
  }

  lemma SamePages(mem: seq<Page>, mem1: seq<Page>, role: map<nat, Role>, d: nat, p: nat)
    requires PagesOk(mem, role) && IsDir(role, d) && |mem1| == |mem|
    requires forall e: nat, q: nat | IsDir(role, e) && (e, q) != (d, p) :: Entry(mem1, e, q) == Entry(mem, e, q)
    requires Addr(Entry(mem1, d, p)) == Addr(Entry(mem, d, p)) && (Entry(mem1, d, p) == 0 <==> Entry(mem, d, p) == 0)
    ensures PagesOk(mem1, role)
  {
    hide Entry, Addr;
  }

  /**
   A process grows and the kernel copies into its new pages and back: whenever
   allocuvm has mapped the last page it was asked for, both copies succeed.
   */
  method GrowAndCopy(m: Memory, d: nat, oldsz: nat, newsz: nat, ghost tables: nat, va: nat, src: seq<byte>,
                     dst: array<byte>)
    returns (r: nat, c: Copy)
    requires m.Valid() && Space(m.mem, m.role, d, Up(oldsz), tables) && oldsz <= newsz < USERBOUND
    requires Up(oldsz) * PGSIZE <= va && va + |src| <= newsz && |src| == dst.Length && newsz > 0
    modifies m, dst
    ensures m.Valid() && (r == 0 || r == newsz)
    ensures r == newsz && !old(Misreports(Up(oldsz), Up(newsz), tables, |m.free|)) ==> c.Copied? && dst[..] == src
  {
    hide Good, Entry, Starves, Misreports, GrewFrom, FullAccess, Contents, Kept, BlankPages;
    ghost var lost, n1;
    r, lost, n1 := m.Allocuvm(d, oldsz, newsz, tables);
    c := Refused;
    if r == newsz {
      SpaceDir(m.mem, m.role, d, n1);
      forall a: nat | va <= a < va + |src| && n1 == Up(newsz) ensures Open(m.mem, d, a / PGSIZE) {
        PageInside(a, oldsz, newsz);
        AccessOpen(m.mem, d, a / PGSIZE);
      }
      hide Open, Grown;
      c := OutAndIn(m, d, va, src, dst);
    }
  }

  lemma SpaceDir(mem: seq<Page>, role: map<nat, Role>, d: nat, n: nat)
    requires exists k :: Space(mem, role, d, n, k)
    ensures IsDir(role, d)
  {
  }

  lemma PageInside(a: nat, oldsz: nat, newsz: nat)
    requires Up(oldsz) * PGSIZE <= a < newsz
    ensures Up(oldsz) <= a / PGSIZE < Up(newsz)
  {
  }

  lemma AccessOpen(mem: seq<Page>, d: nat, p: nat)
    requires Entry(mem, d, p) != 0 && FullAccess(Entry(mem, d, p))
    ensures Open(mem, d, p)
  {
    hide Entry;
    assert B.TestBit(Flags(Entry(mem, d, p)), 5);
  }
}
