/**
 Physical pages and two-level page tables (kalloc.c, vm.c). Physical memory is a
 sequence of page frames of 1024 words; a word that holds an address holds
 `frame * 4096` plus flags.
 */
module Pages {
  import Sets
  import B = Blocks

  const PGSIZE: nat := 4096
  const WORDS: nat := 1024
  const NPDENTRIES: nat := 1024
  const NPTENTRIES: nat := 1024
  const PERTABLE: nat := 256         // entries of a table that PTX can reach
  const USERBOUND: nat := 0x4000_0000
  const USERPAGES: nat := 0x4_0000   // USERBOUND / PGSIZE
  const UVMPDXATTR: nat := 1         // DOMAIN0 | COARSE
  const UVMPTXATTR: nat := 0xFFE     // PTX_AP(U_RW) | CACHED | BUFFERED | SMALL
  const JUNK: nat := 0x0101_0101

  type Page = seq<nat>

  /**
   What a frame is for: on the free list, a page directory, table `i` or page `p` of the directory
   `d`, or anything else.
   */
  datatype Role = Free | Dir | Table(d: nat, i: nat) | Mapped(d: nat, p: nat) | Other

  function Blank(w: nat): (r: Page)
    ensures |r| == WORDS && forall i | 0 <= i < WORDS :: r[i] == w
  {
    seq<nat>(WORDS, i => w)
  }

  /** Page directory index and page table index of page `p`. */
  function Pdx(p: nat): (i: nat)
    ensures p < USERPAGES <==> i < NPDENTRIES
  {
    p / PERTABLE
  }

  function Ptx(p: nat): (i: nat)
    ensures i < PERTABLE
  {
    p % PERTABLE
  }

  lemma PageOf(p: nat, q: nat)
    ensures Pdx(p) == Pdx(q) && Ptx(p) == Ptx(q) ==> p == q
  {
  }

  function Addr(e: nat): nat { e / PGSIZE }

  function Flags(e: nat): nat { e % PGSIZE }

  lemma Decode(f: nat, flags: nat)
    requires flags < PGSIZE
    ensures Addr(f * PGSIZE + flags) == f && Flags(f * PGSIZE + flags) == flags
      && (flags > 0 || f > 0 ==> f * PGSIZE + flags != 0)
  {
  }

  ghost predicate Sized(mem: seq<Page>) {
    forall f | 0 <= f < |mem| :: |mem[f]| == WORDS
  }

  /** The page table entry for page `p` of the directory `d`, or 0. */
  ghost function Entry(mem: seq<Page>, d: nat, p: nat): nat {
    if d < |mem| && |mem[d]| == WORDS && p < USERPAGES && mem[d][Pdx(p)] != 0
       && Addr(mem[d][Pdx(p)]) < |mem| && |mem[Addr(mem[d][Pdx(p)])]| == WORDS
    then mem[Addr(mem[d][Pdx(p)])][Ptx(p)] else 0
  }

  // ------------------------------------------------------------ the invariant

  /** The free list starts at `head`, runs through the frames of `free` and ends with 0. */
  ghost predicate Chain(mem: seq<Page>, head: nat, free: seq<nat>)
    requires Sized(mem)
  {
    && head == NthFree(free, 0)
    && forall k | 0 <= k < |free| :: 0 < free[k] < |mem| && mem[free[k]][0] == NthFree(free, k + 1) * PGSIZE
  }

  function NthFree(free: seq<nat>, k: nat): nat {
    if k < |free| then free[k] else 0
  }

  ghost predicate FreeOk(free: seq<nat>, role: map<nat, Role>) {
    && (forall j, k | 0 <= j < k < |free| :: free[j] != free[k])
    && (forall k | 0 <= k < |free| :: free[k] in role && role[free[k]] == Free)
    && (forall f | f in role && role[f] == Free :: f in free)
  }

  ghost predicate IsDir(role: map<nat, Role>, d: nat) {
    d in role && role[d] == Dir
  }

  /** Directories and their tables name each other. */
  ghost predicate TablesOk(mem: seq<Page>, role: map<nat, Role>)
    requires Sized(mem)
  {
    && (forall f | f in role :: 0 < f < |mem|)
    && (forall d: nat, i: nat | IsDir(role, d) && i < NPDENTRIES && mem[d][i] != 0 ::
          Addr(mem[d][i]) in role && role[Addr(mem[d][i])] == Table(d, i))
    && (forall t | t in role && role[t].Table? ::
          IsDir(role, role[t].d) && role[t].i < NPDENTRIES && mem[role[t].d][role[t].i] != 0
            && Addr(mem[role[t].d][role[t].i]) == t)
  }

  /** Page table entries and the frames they map name each other. */
  ghost predicate PagesOk(mem: seq<Page>, role: map<nat, Role>) {
    && (forall d: nat, p: nat | IsDir(role, d) && Entry(mem, d, p) != 0 ::
       Addr(Entry(mem, d, p)) in role && role[Addr(Entry(mem, d, p))] == Mapped(d, p))
    && (forall f | f in role && role[f].Mapped? ::
          IsDir(role, role[f].d) && Entry(mem, role[f].d, role[f].p) != 0
            && Addr(Entry(mem, role[f].d, role[f].p)) == f)
  }

  ghost predicate Good(mem: seq<Page>, head: nat, free: seq<nat>, role: map<nat, Role>) {
    Sized(mem) && Chain(mem, head, free) && FreeOk(free, role) && TablesOk(mem, role) && PagesOk(mem, role)
  }

  // -------------------------------------------------------------- small steps

  /** A frame that is neither a directory nor a table may change without changing any entry. */
  lemma EntryKept(mem: seq<Page>, role: map<nat, Role>, f: nat, data: Page, d: nat, p: nat)
    requires Sized(mem) && TablesOk(mem, role) && f < |mem| && |data| == WORDS && IsDir(role, d)
    requires f !in role || !(role[f].Dir? || role[f].Table?)
    ensures Entry(mem[f := data], d, p) == Entry(mem, d, p)
  {
    if p < USERPAGES && mem[d][Pdx(p)] != 0 {
      assert role[Addr(mem[d][Pdx(p)])] == Table(d, Pdx(p));
    }
  }

  /** A frame passes from one use to another, neither of them in a page table; its content may change. */
  lemma Recast(mem: seq<Page>, role: map<nat, Role>, f: nat, data: Page, r: Role)
    requires Sized(mem) && TablesOk(mem, role) && PagesOk(mem, role) && f in role && |data| == WORDS
    requires (role[f].Free? || role[f].Other?) && (r.Free? || r.Other?)
    ensures f < |mem| && Sized(mem[f := data]) && TablesOk(mem[f := data], role[f := r])
      && PagesOk(mem[f := data], role[f := r])
  {
    var mem1, role1 := mem[f := data], role[f := r];
    assert forall d: nat :: IsDir(role1, d) <==> IsDir(role, d);
    forall d: nat, p: nat | IsDir(role, d) ensures Entry(mem1, d, p) == Entry(mem, d, p) {
      EntryKept(mem, role, f, data, d, p);
    }
  }

  /** A blank frame becomes a page directory. */
  lemma NewDir(mem: seq<Page>, role: map<nat, Role>, f: nat)
    requires Sized(mem) && TablesOk(mem, role) && PagesOk(mem, role) && f in role && role[f].Other?
    ensures f < |mem| && Sized(mem[f := Blank(0)]) && TablesOk(mem[f := Blank(0)], role[f := Dir])
      && PagesOk(mem[f := Blank(0)], role[f := Dir])
  {
    hide Blank;
    var mem1, role1 := mem[f := Blank(0)], role[f := Dir];
    BlankWords();
    assert forall d: nat :: IsDir(role1, d) <==> d == f || IsDir(role, d);
    forall d: nat, p: nat | IsDir(role, d) ensures Entry(mem1, d, p) == Entry(mem, d, p) {
      EntryKept(mem, role, f, Blank(0), d, p);
    }
    assert forall p :: Entry(mem1, f, p) == 0;
  }

  lemma BlankWords()
    ensures |Blank(0)| == WORDS && forall i | 0 <= i < WORDS :: Blank(0)[i] == 0
  {
  }

  /** The memory with word `i` of frame `f` set. */
  function Poke(mem: seq<Page>, f: nat, i: nat, w: nat): (r: seq<Page>)
    requires f < |mem| && i < |mem[f]|
    ensures |r| == |mem|
  {
    var page: Page := mem[f][i := w];
    mem[f := page]
  }

  /** A blank frame becomes table `i` of directory `d`. */
  lemma NewTable(mem: seq<Page>, role: map<nat, Role>, d: nat, i: nat, t: nat)
    requires Sized(mem) && TablesOk(mem, role) && PagesOk(mem, role) && IsDir(role, d) && i < NPDENTRIES
    requires t in role && role[t].Other? && d < |mem| && mem[d][i] == 0 && t < |mem| && mem[t] == Blank(0)
    ensures var mem1, role1 := Poke(mem, d, i, t * PGSIZE + UVMPDXATTR), role[t := Table(d, i)];
      && Sized(mem1) && TablesOk(mem1, role1) && PagesOk(mem1, role1)
      && (forall e: nat, p: nat | IsDir(role, e) :: Entry(mem1, e, p) == Entry(mem, e, p))
  {
    hide Blank;
    BlankWords();
    Decode(t, UVMPDXATTR);
    var mem1, role1 := Poke(mem, d, i, t * PGSIZE + UVMPDXATTR), role[t := Table(d, i)];
    assert t != d;
    assert forall e: nat :: IsDir(role1, e) <==> IsDir(role, e);
    forall e: nat, p: nat | IsDir(role, e) ensures Entry(mem1, e, p) == Entry(mem, e, p) {
      if p < USERPAGES && mem[e][Pdx(p)] != 0 {
        assert role[Addr(mem[e][Pdx(p)])] == Table(e, Pdx(p));
      }
    }
    assert TablesOk(mem1, role1) by { hide Entry, Addr, Flags; }
    hide Entry;
  }

  /** The table that holds the entry of page `p`. */
  ghost function TableOf(mem: seq<Page>, d: nat, p: nat): nat
    requires Sized(mem) && d < |mem| && p < USERPAGES
  {
    Addr(mem[d][Pdx(p)])
  }

  /** Writing one entry changes that entry only. */
  lemma EntryPoked(mem: seq<Page>, role: map<nat, Role>, d: nat, p: nat, w: nat, e: nat, q: nat)
    requires Sized(mem) && TablesOk(mem, role) && IsDir(role, d) && d < |mem| && p < USERPAGES && mem[d][Pdx(p)] != 0
      && IsDir(role, e)
    ensures var t := TableOf(mem, d, p);
      t < |mem| && t in role && role[t] == Table(d, Pdx(p))
        && Entry(Poke(mem, t, Ptx(p), w), e, q) == if (e, q) == (d, p) then w else Entry(mem, e, q)
    ensures Entry(mem, d, p) == mem[TableOf(mem, d, p)][Ptx(p)]
  {
    hide Addr, Flags, Pdx, Ptx;
    var t := TableOf(mem, d, p);
    assert role[t] == Table(d, Pdx(p));
    if q < USERPAGES && mem[e][Pdx(q)] != 0 {
      assert role[Addr(mem[e][Pdx(q)])] == Table(e, Pdx(q));
      PageOf(p, q);
    }
  }

  lemma PokedTables(mem: seq<Page>, role: map<nat, Role>, t: nat, i: nat, w: nat, role1: map<nat, Role>)
    requires Sized(mem) && TablesOk(mem, role) && t in role && role[t].Table? && i < WORDS
    requires role1.Keys == role.Keys && forall f | f in role ::
      role1[f] == role[f] || !(role[f].Dir? || role[f].Table? || role1[f].Dir? || role1[f].Table?)
    ensures t < |mem| && Sized(Poke(mem, t, i, w)) && TablesOk(Poke(mem, t, i, w), role1)
  {
    hide Addr;
    var mem1 := Poke(mem, t, i, w);
    assert forall d: nat :: IsDir(role1, d) <==> IsDir(role, d);
    assert forall d: nat | IsDir(role, d) :: mem1[d] == mem[d];
  }

  /** An entry that was 0 comes to map a frame. */
  lemma Map(mem: seq<Page>, role: map<nat, Role>, d: nat, p: nat, f: nat, flags: nat)
    requires Sized(mem) && TablesOk(mem, role) && PagesOk(mem, role) && IsDir(role, d) && d < |mem| && p < USERPAGES
      && mem[d][Pdx(p)] != 0
    requires f in role && role[f].Other? && flags < PGSIZE && Entry(mem, d, p) == 0
    ensures var t := TableOf(mem, d, p); t < |mem| && t != f && t in role && role[t] == Table(d, Pdx(p))
    ensures var mem1, role1 := Poke(mem, TableOf(mem, d, p), Ptx(p), f * PGSIZE + flags), role[f := Mapped(d, p)];
      && Sized(mem1) && TablesOk(mem1, role1) && PagesOk(mem1, role1)
      && (forall e: nat, q: nat | IsDir(role, e) ::
         Entry(mem1, e, q) == if (e, q) == (d, p) then f * PGSIZE + flags else Entry(mem, e, q))
  {
    hide Addr, Flags, Pdx, Ptx, Entry, Poke;
    EntryPoked(mem, role, d, p, f * PGSIZE + flags, d, p);
    Decode(f, flags);
    var t := TableOf(mem, d, p);
    var mem1, role1 := Poke(mem, t, Ptx(p), f * PGSIZE + flags), role[f := Mapped(d, p)];
    PokedTables(mem, role, t, Ptx(p), f * PGSIZE + flags, role1);
    assert forall e: nat :: IsDir(role1, e) <==> IsDir(role, e);
    forall e: nat, q: nat | IsDir(role, e) ensures Entry(mem1, e, q) == if (e, q) == (d, p) then f * PGSIZE + flags
      else Entry(mem, e, q) {
      EntryPoked(mem, role, d, p, f * PGSIZE + flags, e, q);
    }
    hide TablesOk;
  }

  /** An entry is cleared; the frame it mapped is nobody's. */
  lemma Unmap(mem: seq<Page>, role: map<nat, Role>, d: nat, p: nat)
    requires Sized(mem) && TablesOk(mem, role) && PagesOk(mem, role) && IsDir(role, d) && d < |mem| && p < USERPAGES
      && mem[d][Pdx(p)] != 0
    requires Entry(mem, d, p) != 0
    ensures var t, f := TableOf(mem, d, p), Addr(Entry(mem, d, p));
      t < |mem| && t in role && role[t] == Table(d, Pdx(p)) && f in role && t != f && role[f] == Mapped(d, p)
    ensures var f := Addr(Entry(mem, d, p));
      var mem1, role1 := Poke(mem, TableOf(mem, d, p), Ptx(p), 0), role[f := Other];
      && Sized(mem1) && TablesOk(mem1, role1) && PagesOk(mem1, role1)
      && (forall e: nat, q: nat | IsDir(role, e) ::
         Entry(mem1, e, q) == if (e, q) == (d, p) then 0 else Entry(mem, e, q))
  {
    hide Addr, Flags, Pdx, Ptx, Entry, Poke;
    EntryPoked(mem, role, d, p, 0, d, p);
    var t, f := TableOf(mem, d, p), Addr(Entry(mem, d, p));
    var mem1, role1 := Poke(mem, t, Ptx(p), 0), role[f := Other];
    PokedTables(mem, role, t, Ptx(p), 0, role1);
    assert forall e: nat :: IsDir(role1, e) <==> IsDir(role, e);
    forall e: nat, q: nat | IsDir(role, e) ensures Entry(mem1, e, q) == if (e, q) == (d, p) then 0
      else Entry(mem, e, q) {
      EntryPoked(mem, role, d, p, 0, e, q);
    }
    hide TablesOk;
  }

  // --------------------------------------------------------------- the free list

  lemma Taken(mem: seq<Page>, head: nat, free: seq<nat>, role: map<nat, Role>)
    requires Good(mem, head, free, role) && free != []
    ensures var f := free[0]; 0 < f == head < |mem| && f in role && role[f] == Free
    ensures Good(mem, Addr(mem[head][0]), free[1..], role[free[0] := Other])
  {
    var f := free[0];
    assert f in role && role[f] == Free;
    Recast(mem, role, f, mem[f], Other);
    assert mem[f := mem[f]] == mem;
    hide TablesOk, PagesOk;
    ChainTail(mem, head, free);
    FreeTail(free, role);
  }

  lemma ChainTail(mem: seq<Page>, head: nat, free: seq<nat>)
    requires Sized(mem) && Chain(mem, head, free) && free != []
    ensures 0 < head < |mem| && Chain(mem, Addr(mem[head][0]), free[1..])
  {
    var free1 := free[1..];
    Decode(NthFree(free, 1), 0);
    hide Addr;
    forall k | 0 <= k < |free1| ensures 0 < free1[k] < |mem| && mem[free1[k]][0] == NthFree(free1, k + 1) * PGSIZE {
      assert free1[k] == free[k+1] && NthFree(free1, k + 1) == NthFree(free, k + 2);
    }
  }

  lemma FreeTail(free: seq<nat>, role: map<nat, Role>)
    requires FreeOk(free, role) && free != []
    ensures FreeOk(free[1..], role[free[0] := Other])
  {
    var free1, role1 := free[1..], role[free[0] := Other];
    assert free == [free[0]] + free1;
    forall g | g in role1 && role1[g] == Free ensures g in free1 {
      assert g in free;
    }
  }

  /** The frame `f` with its first word pointing to the rest of the list. */
  function Junk(head: nat): (r: Page)
    ensures |r| == WORDS && r[0] == head * PGSIZE
  {
    Blank(JUNK)[0 := head * PGSIZE]
  }

  lemma Returned(mem: seq<Page>, head: nat, free: seq<nat>, role: map<nat, Role>, f: nat)
    requires Good(mem, head, free, role) && f in role && role[f] == Other
    ensures 0 < f < |mem| && Good(mem[f := Junk(head)], f, [f] + free, role[f := Free])
  {
    assert f !in free;
    Recast(mem, role, f, Junk(head), Free);
    hide TablesOk, PagesOk, Junk;
    ChainMore(mem, head, free, f);
    FreeMore(free, role, f);
  }

  lemma ChainMore(mem: seq<Page>, head: nat, free: seq<nat>, f: nat)
    requires Sized(mem) && Chain(mem, head, free) && f !in free && 0 < f < |mem|
    ensures Sized(mem[f := Junk(head)]) && Chain(mem[f := Junk(head)], f, [f] + free)
  {
    JunkFacts(head);
    hide Junk;
    var mem1, free1 := mem[f := Junk(head)], [f] + free;
    assert forall k | 0 < k < |free1| :: free1[k] == free[k-1] && free[k-1] != f;
    forall k | 0 <= k < |free1|
      ensures 0 < free1[k] < |mem1| && mem1[free1[k]][0] == NthFree(free1, k + 1) * PGSIZE
    {
      if k > 0 {
        assert mem[free[k-1]][0] == NthFree(free, k) * PGSIZE;
      }
    }
  }

  lemma FreeMore(free: seq<nat>, role: map<nat, Role>, f: nat)
    requires FreeOk(free, role) && f !in free
    ensures FreeOk([f] + free, role[f := Free])
  {
    var free1, role1 := [f] + free, role[f := Free];
    assert forall k | 0 < k < |free1| :: free1[k] == free[k-1] && free[k-1] != f;
    forall g | g in role1 && role1[g] == Free ensures g in free1 {
      assert g == f || g in free;
    }
  }

  lemma JunkFacts(head: nat)
    ensures |Junk(head)| == WORDS && Junk(head)[0] == head * PGSIZE
  {
  }

  /** Frames about directory `d`: itself, its tables, its pages. */
  predicate About(r: Role, f: nat, d: nat) {
    match r
    case Dir => f == d
    case Table(e, _) => e == d
    case Mapped(e, _) => e == d
    case _ => false
  }

  /** Every frame in use that is not about `d` keeps its use and its content. */
  ghost predicate Kept(mem0: seq<Page>, role0: map<nat, Role>, mem1: seq<Page>, role1: map<nat, Role>, d: nat) {
    && |mem1| == |mem0| && role1.Keys == role0.Keys
    && forall f | f in role0 && f < |mem0| && !role0[f].Free? && !About(role0[f], f, d) ::
       role1[f] == role0[f] && mem1[f] == mem0[f]
  }

  // --------------------------------------------------------- address spaces

  /** The pages below `n` are mapped, and no others; the first `m` tables exist. */
  ghost predicate Space(mem: seq<Page>, role: map<nat, Role>, d: nat, n: nat, m: nat) {
    && IsDir(role, d) && d < |mem| && |mem[d]| == WORDS && m <= NPDENTRIES && n <= m * PERTABLE
    && (forall i | 0 <= i < NPDENTRIES :: mem[d][i] != 0 <==> i < m)
    && (forall p: nat :: Entry(mem, d, p) != 0 <==> p < n)
  }

  /** As `Space`, except that the pages from `lo` up to `hi` are gone. */
  ghost predicate Gap(mem: seq<Page>, role: map<nat, Role>, d: nat, n: nat, m: nat, lo: nat, hi: nat) {
    && IsDir(role, d) && d < |mem| && |mem[d]| == WORDS && m <= NPDENTRIES && n <= m * PERTABLE
    && (forall i | 0 <= i < NPDENTRIES :: mem[d][i] != 0 <==> i < m)
    && (forall p: nat :: Entry(mem, d, p) != 0 <==> p < n && !(lo <= p < hi))
  }

  /** Pages `lo` up to `hi` of the space are what they were: same entries, same contents. */
  ghost predicate Contents(mem0: seq<Page>, mem1: seq<Page>, d: nat, lo: nat, hi: nat) {
    && |mem1| == |mem0|
    && forall p: nat | lo <= p < hi :: Entry(mem1, d, p) == Entry(mem0, d, p)
         && (Addr(Entry(mem0, d, p)) < |mem0| ==> mem1[Addr(Entry(mem0, d, p))] == mem0[Addr(Entry(mem0, d, p))])
  }

  lemma KeptTrans(mem0: seq<Page>, role0: map<nat, Role>, mem1: seq<Page>, role1: map<nat, Role>, mem2: seq<Page>,
                  role2: map<nat, Role>, d: nat)
    requires Kept(mem0, role0, mem1, role1, d) && Kept(mem1, role1, mem2, role2, d)
    ensures Kept(mem0, role0, mem2, role2, d)
  {
  }

  /** The frames of pages from `lo` on of the space are free; every other frame is used as before. */
  ghost predicate Freed(role0: map<nat, Role>, role1: map<nat, Role>, d: nat, lo: nat) {
    && role1.Keys == role0.Keys
    && forall f | f in role0 ::
       role1[f] == if role0[f].Mapped? && role0[f].d == d && lo <= role0[f].p then Free else role0[f]
  }

  ghost predicate FreedTo(role0: map<nat, Role>, role1: map<nat, Role>, d: nat, lo: nat, hi: nat) {
    && role1.Keys == role0.Keys
    && forall f | f in role0 ::
       role1[f] == if role0[f].Mapped? && role0[f].d == d && lo <= role0[f].p < hi then Free else role0[f]
  }

  /** No frame is page `n` or a later page of the space. */
  ghost predicate Below(role: map<nat, Role>, d: nat, n: nat) {
    forall f | f in role && role[f].Mapped? && role[f].d == d :: role[f].p < n
  }

  /** The state of deallocuvm's loop when it has dealt with the pages from `lo` up to `p`. */
  ghost predicate Dealloc(mem0: seq<Page>, role0: map<nat, Role>, mem: seq<Page>, role: map<nat, Role>,
                          d: nat, n: nat, m: nat, lo: nat, p: nat) {
    && lo <= p && Gap(mem, role, d, n, m, lo, p) && Below(role0, d, n)
    && Kept(mem0, role0, mem, role, d) && Contents(mem0, mem, d, 0, Least(n, lo)) && FreedTo(role0, role, d, lo, p)
    && Mine(mem, role, d, n)
  }

  /** The space's entries and the frames it owns as pages name each other. */
  ghost predicate Mine(mem: seq<Page>, role: map<nat, Role>, d: nat, n: nat) {
    && (forall p: nat | p < n && Entry(mem, d, p) != 0 ::
       Addr(Entry(mem, d, p)) in role && role[Addr(Entry(mem, d, p))] == Mapped(d, p))
    && (forall f | f in role && role[f].Mapped? && role[f].d == d :: Addr(Entry(mem, d, role[f].p)) == f)
  }

  lemma SpaceBelow(mem: seq<Page>, head: nat, free: seq<nat>, role: map<nat, Role>, d: nat, n: nat, m: nat)
    requires Good(mem, head, free, role) && Space(mem, role, d, n, m)
    ensures Below(role, d, n) && Mine(mem, role, d, n)
  {
    hide Entry, Addr, TablesOk, Chain, FreeOk;
  }

  lemma NothingFreed(mem: seq<Page>, head: nat, free: seq<nat>, role: map<nat, Role>, d: nat, n: nat, m: nat, hi: nat)
    requires Good(mem, head, free, role) && Space(mem, role, d, n, m) && n <= hi
    ensures Space(mem, role, d, Least(n, hi), m) && Kept(mem, role, mem, role, d)
    ensures Contents(mem, mem, d, 0, Least(n, hi)) && Freed(role, role, d, hi)
  {
    hide Entry, Addr, Good;
    SpaceBelow(mem, head, free, role, d, n, m);
  }

  lemma DeallocStart(mem: seq<Page>, head: nat, free: seq<nat>, role: map<nat, Role>, d: nat, n: nat, m: nat, lo: nat)
    requires Good(mem, head, free, role) && Space(mem, role, d, n, m)
    ensures Dealloc(mem, role, mem, role, d, n, m, lo, lo)
  {
    hide Entry, Addr, Good;
    SpaceBelow(mem, head, free, role, d, n, m);
  }

  lemma DeallocFacts(mem0: seq<Page>, role0: map<nat, Role>, mem: seq<Page>, role: map<nat, Role>,
                     d: nat, n: nat, m: nat, lo: nat, p: nat)
    requires Dealloc(mem0, role0, mem, role, d, n, m, lo, p) && p < USERPAGES
    ensures IsDir(role, d) && d < |mem| && |mem[d]| == WORDS && (Entry(mem, d, p) != 0 <==> p < n)
    ensures mem[d][Pdx(p)] == 0 ==> p >= n
  {
    hide Entry, Addr;
  }

  /** Nothing is mapped from `p` on, so the loop may go on anywhere beyond. */
  lemma DeallocSkip(mem0: seq<Page>, role0: map<nat, Role>, mem: seq<Page>, role: map<nat, Role>,
                    d: nat, n: nat, m: nat, lo: nat, p: nat, q: nat)
    requires Dealloc(mem0, role0, mem, role, d, n, m, lo, p) && n <= p <= q
    ensures Dealloc(mem0, role0, mem, role, d, n, m, lo, q)
  {
    hide Entry, Addr, Kept, Contents, Mine;
  }

  /** What FreePage does, as the loop sees it. */
  ghost predicate PageFreed(mem1: seq<Page>, role1: map<nat, Role>, mem2: seq<Page>, role2: map<nat, Role>, d: nat,
                          p: nat) {
    && IsDir(role1, d) && |mem2| == |mem1| && d < |mem1| && mem2[d] == mem1[d]
    && var f := Addr(Entry(mem1, d, p));
    && f in role1 && role1[f] == Mapped(d, p) && role2 == role1[f := Free]
    && (forall e: nat, q: nat | IsDir(role1, e) ::
       Entry(mem2, e, q) == if (e, q) == (d, p) then 0 else Entry(mem1, e, q))
    && (forall g | g in role2 && g < |mem2|
       && (role2[g].Other? || role2[g].Mapped? || role2[g].Dir? || (role2[g].Table? && role2[g].d != d)) ::
          mem2[g] == mem1[g])
  }

  lemma DeallocMore(mem0: seq<Page>, role0: map<nat, Role>, mem1: seq<Page>, role1: map<nat, Role>, mem2: seq<Page>,
                    role2: map<nat, Role>,
                    d: nat, n: nat, m: nat, lo: nat, p: nat)
    requires Dealloc(mem0, role0, mem1, role1, d, n, m, lo, p) && p < n && PageFreed(mem1, role1, mem2, role2, d, p)
    ensures Dealloc(mem0, role0, mem2, role2, d, n, m, lo, p + 1)
  {
    hide Entry, Addr;
    var f := Addr(Entry(mem1, d, p));
    assert role0[f] == Mapped(d, p) && forall e: nat :: IsDir(role2, e) <==> IsDir(role1, e);
    assert Gap(mem2, role2, d, n, m, lo, p + 1);
    assert FreedTo(role0, role2, d, lo, p + 1);
    assert Kept(mem0, role0, mem2, role2, d);
    forall q: nat | q < Least(n, lo)
      ensures Entry(mem2, d, q) == Entry(mem0, d, q)
      ensures Addr(Entry(mem0, d, q)) < |mem0| ==> mem2[Addr(Entry(mem0, d, q))] == mem0[Addr(Entry(mem0, d, q))]
    {
      assert Entry(mem1, d, q) == Entry(mem0, d, q) != 0;
      assert role1[Addr(Entry(mem1, d, q))] == Mapped(d, q);
    }
  }

  lemma DeallocEnd(mem0: seq<Page>, role0: map<nat, Role>, mem: seq<Page>, role: map<nat, Role>,
                   d: nat, n: nat, m: nat, lo: nat, p: nat)
    requires Dealloc(mem0, role0, mem, role, d, n, m, lo, p) && n <= p
    ensures Space(mem, role, d, Least(n, lo), m) && Kept(mem0, role0, mem, role, d)
    ensures Contents(mem0, mem, d, 0, Least(n, lo)) && Freed(role0, role, d, lo)
  {
    hide Entry, Addr;
  }

  lemma EntryHere(mem: seq<Page>, head: nat, free: seq<nat>, role: map<nat, Role>, d: nat, p: nat)
    requires Good(mem, head, free, role) && IsDir(role, d) && p < USERPAGES && d < |mem| && |mem[d]| == WORDS
      && mem[d][Pdx(p)] != 0
    ensures var t := Addr(mem[d][Pdx(p)]);
      t < |mem| && |mem[t]| == WORDS && Entry(mem, d, p) == mem[t][Ptx(p)] && t in role && role[t] == Table(d, Pdx(p))
  {
    EntryPoked(mem, role, d, p, 0, d, p);
  }

  /** The state after kfree of the frame of page `p` and `*pte = 0`. */
  lemma FreePageOk(mem: seq<Page>, head: nat, free: seq<nat>, role: map<nat, Role>, d: nat, p: nat)
    requires Good(mem, head, free, role) && IsDir(role, d) && p < USERPAGES && d < |mem| && |mem[d]| == WORDS
      && mem[d][Pdx(p)] != 0
    requires Entry(mem, d, p) != 0
    ensures var f, t := Addr(Entry(mem, d, p)), Addr(mem[d][Pdx(p)]);
      && 0 < f < |mem| && t < |mem| && |mem[t]| == |mem[f]| == WORDS && f in role && role[f] == Mapped(d, p) && t != f
      && var mem1 := mem[f := Junk(head)];
         && |mem1[t]| == WORDS && Sized(Poke(mem1, t, Ptx(p), 0))
            && Good(Poke(mem1, t, Ptx(p), 0), f, [f] + free, role[f := Free])
         && forall e: nat, q: nat | IsDir(role, e) ::
            Entry(Poke(mem1, t, Ptx(p), 0), e, q) == if (e, q) == (d, p) then 0 else Entry(mem, e, q)
  {
    hide Entry, Addr, Pdx, Ptx, Poke, Junk, TablesOk, PagesOk, Chain, FreeOk;
    Unmap(mem, role, d, p);
    var f, t := Addr(Entry(mem, d, p)), TableOf(mem, d, p);
    var mem1, role1 := Poke(mem, t, Ptx(p), 0), role[f := Other];
    UnmapFree(mem, mem1, head, free, role, t, Ptx(p), f);
    Returned(mem1, head, free, role1, f);
    PokeElsewhere(mem, t, Ptx(p), 0, f, Junk(head));
    assert role1[f := Free] == role[f := Free];
    forall e: nat, q: nat | IsDir(role, e) ensures Entry(mem1[f := Junk(head)], e, q) == Entry(mem1, e, q) {
      EntryKept(mem1, role1, f, Junk(head), e, q);
    }
  }

  lemma UnmapFree(mem: seq<Page>, mem1: seq<Page>, head: nat, free: seq<nat>, role: map<nat, Role>, t: nat, i: nat,
                  f: nat)
    requires Sized(mem) && Chain(mem, head, free) && FreeOk(free, role) && t < |mem| && i < WORDS
      && mem1 == Poke(mem, t, i, 0)
    requires t in role && role[t].Table? && f in role && role[f].Mapped?
    ensures Sized(mem1) && Chain(mem1, head, free) && FreeOk(free, role[f := Other])
  {
    FreeRecast(free, role, t, Other);
    FreeRecast(free, role, f, Other);
    ChainPoked(mem, head, free, t, i, 0);
  }

  lemma ChainKept(mem: seq<Page>, mem1: seq<Page>, head: nat, free: seq<nat>, t: nat)
    requires Sized(mem) && Sized(mem1) && Chain(mem, head, free) && t !in free && |mem1| == |mem|
    requires forall f | 0 <= f < |mem| && f != t :: mem1[f] == mem[f]
    ensures Chain(mem1, head, free)
  {
  }

  lemma PokeWords(mem: seq<Page>, t: nat, i: nat, w: nat)
    requires t < |mem| && i < |mem[t]|
    ensures var r := Poke(mem, t, i, w);
      && |r[t]| == |mem[t]| && (forall j | 0 <= j < |mem[t]| :: r[t][j] == if j == i then w else mem[t][j])
      && (forall g | 0 <= g < |mem| && g != t :: r[g] == mem[g])
  {
  }

  lemma PokeAt(mem: seq<Page>, t: nat, i: nat, w: nat, g: nat)
    requires t < |mem| && i < |mem[t]| && g < |mem| && g != t
    ensures Poke(mem, t, i, w)[g] == mem[g]
  {
  }

  lemma PokeElsewhere(mem: seq<Page>, t: nat, i: nat, w: nat, f: nat, data: Page)
    requires Sized(mem) && t < |mem| && f < |mem| && t != f && i < WORDS && |data| == WORDS
    ensures |mem[f := data][t]| == WORDS && Poke(mem[f := data], t, i, w) == Poke(mem, t, i, w)[f := data]
  {
  }

  /** A frame of no special use gets a new content, and maybe becomes a directory. */
  lemma Refilled(mem: seq<Page>, head: nat, free: seq<nat>, role: map<nat, Role>, f: nat, data: Page)
    requires Good(mem, head, free, role) && f in role && role[f] == Other && |data| == WORDS
    ensures f < |mem| && Sized(mem[f := data]) && Good(mem[f := data], head, free, role)
    ensures forall d: nat, p: nat | IsDir(role, d) :: Entry(mem[f := data], d, p) == Entry(mem, d, p)
  {
    assert role[f := Other] == role && f !in free;
    Recast(mem, role, f, data, Other);
    ChainKept(mem, mem[f := data], head, free, f);
    forall d: nat, p: nat | IsDir(role, d) ensures Entry(mem[f := data], d, p) == Entry(mem, d, p) {
      EntryKept(mem, role, f, data, d, p);
    }
    hide TablesOk, PagesOk, FreeOk, Chain, Entry;
  }

  lemma DirMade(mem: seq<Page>, head: nat, free: seq<nat>, role: map<nat, Role>, f: nat)
    requires Good(mem, head, free, role) && f in role && role[f] == Other
    ensures f < |mem| && Sized(mem[f := Blank(0)]) && Good(mem[f := Blank(0)], head, free, role[f := Dir])
    ensures Space(mem[f := Blank(0)], role[f := Dir], f, 0, 0)
    ensures forall d: nat, p: nat | IsDir(role, d) :: Entry(mem[f := Blank(0)], d, p) == Entry(mem, d, p)
  {
    BlankWords();
    hide Blank, FreeOk, Space, Entry, TablesOk, PagesOk, Chain;
    Refilled(mem, head, free, role, f, Blank(0));
    NewDir(mem, role, f);
    FreeRecast(free, role, f, Dir);
    EmptySpace(mem[f := Blank(0)], role[f := Dir], f);
  }

  /** A blank directory maps nothing. */
  lemma EmptySpace(mem: seq<Page>, role: map<nat, Role>, d: nat)
    requires IsDir(role, d) && d < |mem| && |mem[d]| == WORDS && forall i | 0 <= i < WORDS :: mem[d][i] == 0
    ensures Space(mem, role, d, 0, 0)
  {
    assert forall p: nat :: Entry(mem, d, p) == 0;
  }

  /** A frame in use is not on the free list, whatever it is used for next. */
  lemma FreeRecast(free: seq<nat>, role: map<nat, Role>, f: nat, r: Role)
    requires FreeOk(free, role) && f in role && role[f] != Free && r != Free
    ensures f !in free && FreeOk(free, role[f := r])
  {
  }

  lemma ChainPoked(mem: seq<Page>, head: nat, free: seq<nat>, t: nat, i: nat, w: nat)
    requires Sized(mem) && Chain(mem, head, free) && t !in free && t < |mem| && i < WORDS
    ensures Sized(Poke(mem, t, i, w)) && Chain(Poke(mem, t, i, w), head, free)
  {
    PokeWords(mem, t, i, w);
    hide Chain, Poke;
    ChainKept(mem, Poke(mem, t, i, w), head, free, t);
  }

  lemma TableMade(mem: seq<Page>, head: nat, free: seq<nat>, role: map<nat, Role>, d: nat, i: nat, t: nat)
    requires Good(mem, head, free, role) && IsDir(role, d) && d < |mem| && |mem[d]| == WORDS && i < NPDENTRIES
      && mem[d][i] == 0
    requires t in role && role[t] == Other && t < |mem| && mem[t] == Blank(0)
    ensures var mem1, role1 := Poke(mem, d, i, t * PGSIZE + UVMPDXATTR), role[t := Table(d, i)];
      && Sized(mem1) && Good(mem1, head, free, role1) && t * PGSIZE + UVMPDXATTR != 0
      && (forall e: nat, p: nat | IsDir(role, e) :: Entry(mem1, e, p) == Entry(mem, e, p))
  {
    hide Blank, Poke, TablesOk, PagesOk, Chain, Entry, FreeOk;
    NewTable(mem, role, d, i, t);
    FreeRecast(free, role, t, Table(d, i));
    FreeRecast(free, role, d, Dir);
    ChainPoked(mem, head, free, d, i, t * PGSIZE + UVMPDXATTR);
  }

  lemma PageMade(mem: seq<Page>, head: nat, free: seq<nat>, role: map<nat, Role>, d: nat, p: nat, f: nat, flags: nat)
    requires Good(mem, head, free, role) && IsDir(role, d) && d < |mem| && |mem[d]| == WORDS && p < USERPAGES
      && mem[d][Pdx(p)] != 0
    requires f in role && role[f] == Other && flags < PGSIZE && Entry(mem, d, p) == 0
    ensures var t := Addr(mem[d][Pdx(p)]);
      t < |mem| && |mem[t]| == WORDS && t != f && t in role && role[t] == Table(d, Pdx(p))
    ensures var mem1, role1 := Poke(mem, Addr(mem[d][Pdx(p)]), Ptx(p), f * PGSIZE + flags), role[f := Mapped(d, p)];
      && Sized(mem1) && Good(mem1, head, free, role1)
      && (forall e: nat, q: nat | IsDir(role, e) ::
         Entry(mem1, e, q) == if (e, q) == (d, p) then f * PGSIZE + flags else Entry(mem, e, q))
  {
    hide Poke, Entry, Addr, Pdx, Ptx, TablesOk, PagesOk, Chain, FreeOk;
    Map(mem, role, d, p, f, flags);
    var t := Addr(mem[d][Pdx(p)]);
    FreeRecast(free, role, f, Mapped(d, p));
    FreeRecast(free, role, t, Other);
    ChainPoked(mem, head, free, t, Ptx(p), f * PGSIZE + flags);
  }

  /** As `Kept`, except for the frame `f` that becomes a page of the space. */
  ghost predicate KeptBut(mem0: seq<Page>, role0: map<nat, Role>, mem1: seq<Page>, role1: map<nat, Role>, d: nat,
                          f: nat) {
    && |mem1| == |mem0| && role1.Keys == role0.Keys
    && forall g | g in role0 && g < |mem0| && g != f && !role0[g].Free? && !About(role0[g], g, d) ::
       role1[g] == role0[g] && mem1[g] == mem0[g]
  }

  /** Mapping page `n`, the table being there. */
  lemma Appended(mem: seq<Page>, head: nat, free: seq<nat>, role: map<nat, Role>, d: nat, n: nat, m: nat, f: nat,
                 flags: nat)
    requires Good(mem, head, free, role) && Space(mem, role, d, n, m) && n < m * PERTABLE && f in role
      && role[f] == Other && flags < PGSIZE
    ensures n < USERPAGES && mem[d][Pdx(n)] != 0
    ensures var t := Addr(mem[d][Pdx(n)]);
      t < |mem| && |mem[t]| == WORDS && t != f && t in role && role[t] == Table(d, Pdx(n))
    ensures var mem1, role1 := Poke(mem, Addr(mem[d][Pdx(n)]), Ptx(n), f * PGSIZE + flags), role[f := Mapped(d, n)];
      && Sized(mem1) && Good(mem1, head, free, role1) && Space(mem1, role1, d, n + 1, m)
         && Entry(mem1, d, n) == f * PGSIZE + flags
      && Contents(mem, mem1, d, 0, n) && KeptBut(mem, role, mem1, role1, d, f) && f < |mem| && mem1[f] == mem[f]
  {
    hide Poke, Entry, Addr, Ptx, Good;
    assert n < USERPAGES && Pdx(n) < m && f * PGSIZE + flags != 0
      && f < |mem| by { FrameFacts(mem, head, free, role, f); Decode(f, flags); }
    assert Entry(mem, d, n) == 0;
    PageMade(mem, head, free, role, d, n, f, flags);
    var t := Addr(mem[d][Pdx(n)]);
    var mem1, role1 := Poke(mem, t, Ptx(n), f * PGSIZE + flags), role[f := Mapped(d, n)];
    PokeWords(mem, t, Ptx(n), f * PGSIZE + flags);
    assert t != d && mem1[d] == mem[d];
    forall p: nat | p < n
      ensures Entry(mem1, d, p) == Entry(mem, d, p)
      ensures Addr(Entry(mem, d, p)) < |mem| ==> mem1[Addr(Entry(mem, d, p))] == mem[Addr(Entry(mem, d, p))]
    {
      PageRole(mem, head, free, role, d, p);
    }
  }

  /** The memory after walkpgdir made a table from the free frame `t`, or left everything as it was. */
  ghost predicate Tabled(mem0: seq<Page>, role0: map<nat, Role>, mem1: seq<Page>, role1: map<nat, Role>, d: nat,
                         i: nat, t: nat) {
    && |mem1| == |mem0| && role1.Keys == role0.Keys
    && (forall q: nat :: Entry(mem1, d, q) == Entry(mem0, d, q))
    && (forall g | g in role0 && (g != t || !role0[t].Free?) :: role1[g] == role0[g])
    && (forall g | 0 <= g < |mem0| && g != d && !(g in role0 && role0[g].Free?) :: mem1[g] == mem0[g])
  }

  lemma AppendedBoth(mem0: seq<Page>, head: nat, free: seq<nat>, role0: map<nat, Role>, mem1: seq<Page>,
                     role1: map<nat, Role>,
                     mem2: seq<Page>, role2: map<nat, Role>, d: nat, n: nat, m: nat, f: nat, t: nat)
    requires Good(mem0, head, free, role0) && Space(mem0, role0, d, n, m)
      && Tabled(mem0, role0, mem1, role1, d, Pdx(n), t)
    requires f in role0 && role0[f] == Other && f < |mem0|
    requires Contents(mem1, mem2, d, 0, n) && KeptBut(mem1, role1, mem2, role2, d, f) && mem2[f] == mem1[f]
    ensures Contents(mem0, mem2, d, 0, n) && KeptBut(mem0, role0, mem2, role2, d, f) && mem2[f] == mem0[f]
  {
    hide Entry, Addr, Good;
    assert f != d;
    forall p: nat | p < n
      ensures Entry(mem2, d, p) == Entry(mem0, d, p)
      ensures Addr(Entry(mem0, d, p)) < |mem0| ==> mem2[Addr(Entry(mem0, d, p))] == mem0[Addr(Entry(mem0, d, p))]
    {
      PageRole(mem0, head, free, role0, d, p);
      assert Entry(mem1, d, p) == Entry(mem0, d, p);
    }
  }

  lemma FrameFacts(mem: seq<Page>, head: nat, free: seq<nat>, role: map<nat, Role>, f: nat)
    requires Good(mem, head, free, role) && f in role
    ensures 0 < f < |mem|
  {
  }

  lemma PageRole(mem: seq<Page>, head: nat, free: seq<nat>, role: map<nat, Role>, d: nat, p: nat)
    requires Good(mem, head, free, role) && IsDir(role, d) && Entry(mem, d, p) != 0
    ensures Addr(Entry(mem, d, p)) in role && role[Addr(Entry(mem, d, p))] == Mapped(d, p)
      && 0 < Addr(Entry(mem, d, p)) < |mem|
  {
    hide Entry, Addr;
  }

  /** The space after one more table, whose entries are all 0. */
  lemma MoreTable(mem: seq<Page>, role: map<nat, Role>, mem1: seq<Page>, role1: map<nat, Role>, d: nat, n: nat, m: nat)
    requires Space(mem, role, d, n, m) && n == m * PERTABLE && n < USERPAGES && IsDir(role1, d) && |mem1| == |mem|
      && |mem1[d]| == WORDS
    requires mem1[d][Pdx(n)] != 0 && forall i | 0 <= i < NPDENTRIES && i != Pdx(n) :: mem1[d][i] == mem[d][i]
    requires forall q: nat :: Entry(mem1, d, q) == Entry(mem, d, q)
    ensures m < NPDENTRIES && Space(mem1, role1, d, n, m + 1)
  {
    hide Entry;
    assert Pdx(n) == m;
  }

  lemma SpaceBounds(mem: seq<Page>, role: map<nat, Role>, d: nat, n: nat, m: nat)
    requires Space(mem, role, d, n, m)
    ensures IsDir(role, d) && d < |mem| && |mem[d]| == WORDS && n <= m * PERTABLE <= USERPAGES
    ensures n < USERPAGES ==> (mem[d][Pdx(n)] == 0 <==> n == m * PERTABLE) && Entry(mem, d, n) == 0
    ensures n == m * PERTABLE ==> Pdx(n) == m
  {
    hide Entry;
    assert n < USERPAGES ==> (Pdx(n) < m <==> n < m * PERTABLE);
  }

  /** The roles while freevm frees the tables of `d`, those below `k` being done. */
  ghost predicate TornDown(role0: map<nat, Role>, role: map<nat, Role>, d: nat, k: nat) {
    && role.Keys == role0.Keys
    && forall f | f in role0 :: role[f] ==
         if role0[f].Table? && role0[f].d == d then (if role0[f].i < k then Free else Other)
         else if f == d then Other else role0[f]
  }

  ghost function Dismantled(role: map<nat, Role>, d: nat): (r: map<nat, Role>)
    ensures TornDown(role, r, d, 0)
  {
    map f | f in role :: if (role[f].Table? && role[f].d == d) || f == d then Other else role[f]
  }

  /** An empty space's directory and tables may be given up. */
  lemma Dismantle(mem: seq<Page>, head: nat, free: seq<nat>, role: map<nat, Role>, d: nat, m: nat)
    requires Good(mem, head, free, role) && Space(mem, role, d, 0, m)
    ensures Good(mem, head, free, Dismantled(role, d))
    ensures forall i: nat | i < NPDENTRIES && mem[d][i] != 0 ::
      Addr(mem[d][i]) in role && role[Addr(mem[d][i])] == Table(d, i)
    ensures forall t | t in role && role[t].Table? && role[t].d == d ::
      role[t].i < NPDENTRIES && Addr(mem[d][role[t].i]) == t && mem[d][role[t].i] != 0
  {
    hide Entry, Addr, Chain;
    SpaceBelow(mem, head, free, role, d, 0, m);
    var role1 := Dismantled(role, d);
    assert forall e: nat :: IsDir(role1, e) <==> IsDir(role, e) && e != d;
    assert FreeOk(free, role1) by { hide TablesOk, PagesOk; }
    assert TablesOk(mem, role1) by { hide PagesOk; }
    assert PagesOk(mem, role1) by { hide TablesOk; }
  }

  /** Everything about the directory is free, everything else as before. */
  ghost predicate AllFreed(role0: map<nat, Role>, role: map<nat, Role>, d: nat) {
    role.Keys == role0.Keys && forall f | f in role0 :: role[f] == if About(role0[f], f, d) then Free else role0[f]
  }

  lemma TornAll(role0: map<nat, Role>, role1: map<nat, Role>, role2: map<nat, Role>, d: nat)
    requires Freed(role0, role1, d, 0) && IsDir(role0, d) && TornDown(role1, role2, d, NPDENTRIES)
    requires forall t | t in role0 && role0[t].Table? && role0[t].d == d :: role0[t].i < NPDENTRIES
    requires forall f | f in role0 && role0[f].Dir? && f != d :: !About(role0[f], f, d)
    ensures AllFreed(role0, role2[d := Free], d)
  {
  }

  lemma DismantledAt(role: map<nat, Role>, d: nat)
    ensures TornDown(role, Dismantled(role, d), d, 0)
  {
  }

  lemma TornFacts(role0: map<nat, Role>, role: map<nat, Role>, d: nat, k: nat)
    requires TornDown(role0, role, d, k) && IsDir(role0, d)
    ensures d in role && role[d] == Other && role.Keys == role0.Keys
    ensures forall t | t in role0 && role0[t] == Table(d, k) :: role[t] == Other
  {
  }

  lemma TableBounds(mem: seq<Page>, head: nat, free: seq<nat>, role: map<nat, Role>, d: nat)
    requires Good(mem, head, free, role)
    ensures forall t | t in role && role[t].Table? && role[t].d == d :: role[t].i < NPDENTRIES
  {
    hide Entry, Addr;
  }

  lemma TornEnd(mem0: seq<Page>, role0: map<nat, Role>, mem1: seq<Page>, role1: map<nat, Role>, mem2: seq<Page>,
                role2: map<nat, Role>, d: nat)
    requires Freed(role0, role1, d, 0) && IsDir(role0, d) && Kept(mem0, role0, mem1, role1, d)
    requires d in role2 && role2[d] == Free && TornDown(role1, role2[d := Other], d, NPDENTRIES) && |mem2| == |mem1|
    requires forall t | t in role0 && role0[t].Table? && role0[t].d == d :: role0[t].i < NPDENTRIES
    requires forall g | 0 <= g < |mem1| && g != d && !(g in role1 && role1[g].Table? && role1[g].d == d) ::
      mem2[g] == mem1[g]
    ensures AllFreed(role0, role2, d) && Kept(mem0, role0, mem2, role2, d)
  {
    assert role2[d := Other][d := Free] == role2;
    TornAll(role0, role1, role2[d := Other], d);
    hide TornDown;
  }

  lemma RoleBack(role: map<nat, Role>, d: nat)
    requires d in role && role[d] == Other
    ensures role[d := Free][d := Other] == role
  {
  }

  /** The next table is freed. */
  lemma TornMore(role0: map<nat, Role>, role: map<nat, Role>, d: nat, k: nat, t: nat)
    requires TornDown(role0, role, d, k) && t in role0 && role0[t] == Table(d, k)
    requires forall f | f in role0 && role0[f] == Table(d, k) :: f == t
    ensures TornDown(role0, role[t := Free], d, k + 1)
  {
  }

  lemma TornSkip(role0: map<nat, Role>, role: map<nat, Role>, d: nat, k: nat)
    requires TornDown(role0, role, d, k) && forall f | f in role0 :: role0[f] != Table(d, k)
    ensures TornDown(role0, role, d, k + 1)
  {
  }

  // --------------------------------------------------- what growing a space costs

  /** Tables for the first `p` pages. */
  function Tables(p: nat): nat { (p + PERTABLE - 1) / PERTABLE }

  /** Frames to map the pages from `n` up to `p` when `m` tables exist. */
  function Cost(n: nat, p: nat, m: nat): int {
    p - n + (if Tables(p) > m then Tables(p) - m else 0)
  }

  /** The last free frame goes to page `p`, and then there is none for the table that page needs. */
  predicate StarvesAt(n: nat, p: nat, m: nat, nfree: nat) {
    n <= p && p % PERTABLE == 0 && p / PERTABLE >= m && nfree == Cost(n, p, m) + 1
  }

  ghost predicate Starves(n: nat, hi: nat, m: nat, nfree: nat) {
    exists p: nat :: p < hi && StarvesAt(n, p, m, nfree)
  }

  /** The page that starves is the last one wanted: allocuvm ends its loop and reports success. */
  predicate Misreports(n: nat, hi: nat, m: nat, nfree: nat) {
    hi > 0 && StarvesAt(n, hi - 1, m, nfree)
  }

  /** For example: one free frame for page 256, the first of the second table. */
  lemma StarvesExample()
    ensures Starves(256, 257, 1, 1) && !Starves(256, 257, 1, 2) && !Starves(256, 257, 2, 1)
    ensures Misreports(256, 257, 1, 1) && !Misreports(256, 258, 1, 1) && Starves(256, 258, 1, 1)
  {
    assert StarvesAt(256, 256, 1, 1);
  }

  lemma CostStep(n: nat, p: nat, m: nat)
    ensures Cost(n, p + 1, m) == Cost(n, p, m) + (if p % PERTABLE == 0 && p / PERTABLE >= m then 2 else 1)
  {
  }

  lemma {:induction false} CostMono(n: nat, p: nat, q: nat, m: nat)
    requires p <= q
    ensures Cost(n, p, m) + (q - p) <= Cost(n, q, m)
    decreases q - p
  {
    if p < q {
      CostStep(n, p, m);
      CostMono(n, p + 1, q, m);
    }
  }

  /** With the pages up to `p` paid for, no page before `p` starved. */
  lemma NotBefore(n: nat, p: nat, m: nat, nfree: nat, q: nat)
    requires Cost(n, p, m) <= nfree && q < p
    ensures !StarvesAt(n, q, m, nfree)
  {
    CostStep(n, q, m);
    CostMono(n, q + 1, p, m);
  }

  /** With no frame left after the pages up to `p`, no page starves. */
  lemma NotAfter(n: nat, p: nat, m: nat, nfree: nat, hi: nat)
    requires Cost(n, p, m) == nfree
    ensures !Starves(n, hi, m, nfree)
  {
    forall q: nat | q < hi ensures !StarvesAt(n, q, m, nfree) {
      if q < p {
        NotBefore(n, p, m, nfree, q);
      } else {
        CostMono(n, p, q, m);
      }
    }
  }

  /** Tables after growing to `p` pages. */
  function TablesAt(p: nat, m: nat): nat { if Tables(p) > m then Tables(p) else m }

  lemma TablesAtStep(p: nat, m: nat)
    ensures p <= TablesAt(p, m) * PERTABLE
    ensures p == TablesAt(p, m) * PERTABLE <==> p % PERTABLE == 0 && p / PERTABLE >= m
    ensures TablesAt(p + 1, m) == if p < TablesAt(p, m) * PERTABLE then TablesAt(p, m) else TablesAt(p, m) + 1
  {
  }

  /**
   Frames that were free are free still or now belong to the space `d`, except `lost`; all others
   are used as before.
   */
  ghost predicate GrewFrom(role0: map<nat, Role>, role: map<nat, Role>, d: nat, lost: set<nat>) {
    && role.Keys == role0.Keys
    && forall f | f in role0 :: if !role0[f].Free? then role[f] == role0[f]
         else if f in lost then role[f] == Other else role[f].Free? || About(role[f], f, d)
  }

  /** The pages of the space from `lo` up to `hi` are blank and writable by the user. */
  ghost predicate BlankPages(mem: seq<Page>, d: nat, lo: nat, hi: nat) {
    forall p: nat | lo <= p < hi :: PageIs(mem, d, p, Blank(0), UVMPTXATTR)
  }

  /** Page `p` of the space has that content and those flags. */
  ghost predicate PageIs(mem: seq<Page>, d: nat, p: nat, data: Page, flags: nat) {
    Flags(Entry(mem, d, p)) == flags && Addr(Entry(mem, d, p)) < |mem| && mem[Addr(Entry(mem, d, p))] == data
  }

  /** The first `p` pages of the space `d` in `mem` have the contents and flags of those of `d0` in `mem0`. */
  ghost predicate Copied(mem0: seq<Page>, d0: nat, mem: seq<Page>, d: nat, p: nat) {
    forall q: nat | q < p ::
      Addr(Entry(mem0, d0, q)) < |mem0| && PageIs(mem, d, q, mem0[Addr(Entry(mem0, d0, q))], Flags(Entry(mem0, d0, q)))
  }

  /** Pages that `sz` bytes take. */
  function Up(sz: nat): nat { (sz + PGSIZE - 1) / PGSIZE }

  function Least(a: nat, b: nat): nat { if a < b then a else b }

  class Memory {
    var mem: seq<Page>
    var freelist: nat
    ghost var free: seq<nat>
    ghost var role: map<nat, Role>

    ghost predicate Valid()
      reads this
    {
      Sized(mem) && Good(mem, freelist, free, role)
    }

    /** kinit1 before freerange: all frames from `lo` up to the end of `mem` are the kernel's. */
    constructor (mem: seq<Page>, lo: nat)
      requires Sized(mem) && 0 < lo <= |mem|
      ensures Valid() && free == [] && this.mem == mem && forall f ::
        (f in role <==> lo <= f < |mem|) && (f in role ==> role[f] == Other)
    {
      this.mem, freelist, free := mem, 0, [];
      role := map f | f in Sets.Range(lo, |mem|) :: Other;
    }

    /** kfree */
    method Kfree(f: nat)
      requires Valid() && f in role && role[f] == Other
      modifies this
      ensures Valid() && free == [f] + old(free) && role == old(role)[f := Free]
      ensures |mem| == |old(mem)| && forall g | 0 <= g < |mem| && g != f :: mem[g] == old(mem)[g]
    {
      Returned(mem, freelist, free, role, f);
      Push(f);
      free, role := [f] + free, role[f := Free];
    }

    /** What kfree does to the memory: junk in the frame, which becomes the head of the list. */
    method Push(f: nat)
      requires f < |mem| && |mem[f]| == WORDS
      modifies this`mem, this`freelist
      ensures mem == old(mem)[f := Junk(old(freelist))] && freelist == f
    {
      mem := mem[f := Blank(JUNK)];
      mem := Poke(mem, f, 0, freelist * PGSIZE);
      freelist := f;
      assert mem == old(mem)[f := Junk(old(freelist))];
    }

    /** kalloc: a free frame, or 0. */
    method Kalloc() returns (f: nat)
      requires Valid()
      modifies this`freelist, this`free, this`role
      ensures Valid() && (f == 0 <==> old(free) == [])
      ensures f == 0 ==> free == old(free) && role == old(role)
      ensures f != 0 ==> f == old(free)[0] && free == old(free)[1..] && role == old(role)[f := Other]
      ensures f != 0 ==> f < |mem| && f in old(role) && old(role)[f] == Free
    {
      f := freelist;
      if f != 0 {
        Taken(mem, freelist, free, role);
        freelist := Addr(mem[f][0]);
        free, role := free[1..], role[f := Other];
      }
    }

    /** freerange: all whole frames of the range go to the free list. */
    method Freerange(lo: nat, hi: nat)
      requires Valid() && forall f | lo <= f < hi :: f in role && role[f] == Other
      modifies this
      ensures Valid() && role.Keys == old(role.Keys) && |mem| == |old(mem)|
      ensures forall f | f in role :: role[f] == if lo <= f < hi then Free else old(role)[f]
      ensures |free| == |old(free)| + (if lo <= hi then hi - lo else 0)
    {
      hide Good;
      var p := lo;
      while p < hi
        invariant lo <= p && (p <= hi || hi < lo) && (hi < lo ==> p == lo) && Valid() && role.Keys == old(role.Keys)
          && |mem| == |old(mem)|
        invariant forall f | f in role :: role[f] == if lo <= f < p && f < hi then Free else old(role)[f]
        invariant |free| == |old(free)| + p - lo
      {
        Kfree(p);
        p := p + 1;
      }
    }

    /** One round of deallocuvm's loop for a page whose table exists: free it if it is mapped. */
    method FreePage(d: nat, p: nat) returns (ghost f: nat)
      requires Valid() && IsDir(role, d) && p < USERPAGES && d < |mem| && mem[d][Pdx(p)] != 0 && Entry(mem, d, p) != 0
      modifies this
      ensures Valid() && |mem| == |old(mem)| && f == Addr(Entry(old(mem), d, p)) && f in old(role)
        && old(role)[f] == Mapped(d, p)
      ensures role == old(role)[f := Free] && free == [f] + old(free) && mem[d] == old(mem)[d]
      ensures forall e: nat, q: nat | IsDir(role, e) ::
        Entry(mem, e, q) == if (e, q) == (d, p) then 0 else Entry(old(mem), e, q)
      ensures forall g | g in role && g < |mem|
        && (role[g].Other? || role[g].Mapped? || role[g].Dir? || (role[g].Table? && role[g].d != d)) ::
           mem[g] == old(mem)[g]
    {
      hide Good, Entry, TablesOk, PagesOk, Addr, Pdx, Ptx, Poke, Junk;
      EntryHere(mem, freelist, free, role, d, p);
      FreePageOk(mem, freelist, free, role, d, p);
      var t := Addr(mem[d][Pdx(p)]);
      var pa := Addr(mem[t][Ptx(p)]);
      ghost var mem0 := mem;
      Push(pa);
      ghost var mem1 := mem;
      mem := Poke(mem, t, Ptx(p), 0);
      forall g | 0 <= g < |mem| && g != t ensures mem[g] == mem1[g] {
        PokeAt(mem1, t, Ptx(p), 0, g);
      }
      f := pa;
      free, role := [f] + free, role[f := Free];
    }

    /**
     deallocuvm down to `newsz`, for a contiguous space. Where a table is missing the
     loop skips 4 MB though a table covers only 1 MB: in a contiguous space nothing
     is mapped beyond a missing table.
     */
    method Deallocuvm(d: nat, oldsz: nat, newsz: nat, ghost n: nat, ghost m: nat) returns (r: nat)
      requires Valid() && Space(mem, role, d, n, m) && oldsz <= USERBOUND && n <= Up(oldsz)
      modifies this
      ensures Valid() && r == if newsz >= oldsz then oldsz else newsz
      ensures Space(mem, role, d, Least(n, Up(r)), m)
      ensures Kept(old(mem), old(role), mem, role, d) && Contents(old(mem), mem, d, 0, Least(n, Up(r)))
      ensures Freed(old(role), role, d, Up(r))
    {
      hide Good, Dealloc, Space, Kept, Contents, Freed;
      ghost var mem0, role0 := mem, role;
      if newsz >= oldsz {
        NothingFreed(mem, freelist, free, role, d, n, m, Up(oldsz));
        return oldsz;
      }
      DeallocStart(mem, freelist, free, role, d, n, m, Up(newsz));
      var p := Up(newsz);
      while p * PGSIZE < oldsz
        invariant Valid() && Dealloc(mem0, role0, mem, role, d, n, m, Up(newsz), p)
      {
        p := DeallocStep(d, p, n, m, Up(newsz), mem0, role0);
      }
      DeallocEnd(mem0, role0, mem, role, d, n, m, Up(newsz), p);
      r := newsz;
    }

    /** One round of that loop; the result is where it goes on. */
    method DeallocStep(d: nat, p: nat, ghost n: nat, ghost m: nat, ghost lo: nat, ghost mem0: seq<Page>,
                       ghost role0: map<nat, Role>) returns (q: nat)
      requires Valid() && p < USERPAGES && Dealloc(mem0, role0, mem, role, d, n, m, lo, p)
      modifies this
      ensures p < q && Valid() && Dealloc(mem0, role0, mem, role, d, n, m, lo, q)
    {
      hide Good, Dealloc, Entry, Addr, Pdx, Ptx;
      DeallocFacts(mem0, role0, mem, role, d, n, m, lo, p);
      if mem[d][Pdx(p)] == 0 {
        DeallocSkip(mem0, role0, mem, role, d, n, m, lo, p, p + NPTENTRIES);
        q := p + NPTENTRIES;
        return;
      }
      EntryHere(mem, freelist, free, role, d, p);
      var t := Addr(mem[d][Pdx(p)]);
      q := p + 1;
      if mem[t][Ptx(p)] != 0 {
        ghost var mem1, role1 := mem, role;
        ghost var f := FreePage(d, p);
        DeallocMore(mem0, role0, mem1, role1, mem, role, d, n, m, lo, p);
      } else {
        DeallocSkip(mem0, role0, mem, role, d, n, m, lo, p, q);
      }
    }

    /** memset of a frame of no special use, or memmove into it. */
    method Fill(f: nat, data: Page)
      requires Valid() && f in role && role[f] == Other && |data| == WORDS
      modifies this`mem
      ensures Valid() && f < |mem| && mem == old(mem)[f := data]
      ensures forall d: nat, p: nat | IsDir(role, d) :: Entry(mem, d, p) == Entry(old(mem), d, p)
    {
      hide Good, Entry;
      Refilled(mem, freelist, free, role, f, data);
      mem := mem[f := data];
    }

    /** setupkvm: an empty address space, or 0. */
    method Setupkvm() returns (d: nat)
      requires Valid()
      modifies this
      ensures Valid() && (d == 0 <==> old(free) == []) && |mem| == |old(mem)|
      ensures d == 0 ==> mem == old(mem) && free == old(free) && role == old(role)
      ensures d != 0 ==> d in old(role) && old(role)[d] == Free && free == old(free)[1..] && role == old(role)[d := Dir]
      ensures d != 0 ==> Space(mem, role, d, 0, 0) && (forall g | 0 <= g < |mem| && g != d :: mem[g] == old(mem)[g])
      ensures d != 0 ==> forall e: nat, p: nat | IsDir(old(role), e) :: Entry(mem, e, p) == Entry(old(mem), e, p)
    {
      hide Good, Entry, Space;
      d := Kalloc();
      if d == 0 {
        return;
      }
      DirMade(mem, freelist, free, role, d);
      mem := mem[d := Blank(0)];
      role := role[d := Dir];
    }

    /** walkpgdir with `alloc`: the table for page `p`, made if it is missing and there is a frame for it. */
    method EnsureTable(d: nat, p: nat) returns (ok: bool)
      requires Valid() && IsDir(role, d) && d < |mem| && p < USERPAGES
      modifies this
      ensures Valid() && |mem| == |old(mem)| && (ok <==> old(mem)[d][Pdx(p)] != 0 || old(free) != [])
      ensures old(mem)[d][Pdx(p)] != 0 || !ok ==> mem == old(mem) && free == old(free) && role == old(role)
      ensures ok ==>
        |mem[d]| == WORDS && mem[d][Pdx(p)] != 0 && forall i | 0 <= i < NPDENTRIES && i != Pdx(p) ::
          mem[d][i] == old(mem)[d][i]
      ensures ok && old(mem)[d][Pdx(p)] == 0 ==> mem[d][Pdx(p)] == old(free)[0] * PGSIZE + 1
      ensures ok && old(mem)[d][Pdx(p)] == 0 ==>
        && free == old(free)[1..] && old(free)[0] in old(role) && old(role)[old(free)[0]] == Free
        && role == old(role)[old(free)[0] := Table(d, Pdx(p))]
           && (forall g | 0 <= g < |mem| && g != d && g != old(free)[0] :: mem[g] == old(mem)[g])
      ensures forall e: nat, q: nat | IsDir(old(role), e) :: Entry(mem, e, q) == Entry(old(mem), e, q)
    {
      hide Good, Entry, Poke, Pdx, Blank;
      if mem[d][Pdx(p)] != 0 {
        return true;
      }
      var t := Kalloc();
      if t == 0 {
        return false;
      }
      Fill(t, Blank(0));
      TableMade(mem, freelist, free, role, d, Pdx(p), t);
      ghost var mem1 := mem;
      mem := Poke(mem, d, Pdx(p), t * PGSIZE + UVMPDXATTR);
      role := role[t := Table(d, Pdx(p))];
      PokeWords(mem1, d, Pdx(p), t * PGSIZE + UVMPDXATTR);
      return true;
    }

    /**
     mappages of the frame `f` as the next page of a space; it fails if that takes a table and
     there is no frame for it.
     */
    method AppendPage(d: nat, n: nat, f: nat, flags: nat, ghost m: nat) returns (ok: bool)
      requires Valid() && Space(mem, role, d, n, m) && n < USERPAGES && f in role && role[f] == Other && flags < PGSIZE
      modifies this
      ensures Valid() && |mem| == |old(mem)| && f < |mem|
      ensures ok <==> n < m * PERTABLE || old(free) != []
      ensures !ok ==> mem == old(mem) && free == old(free) && role == old(role)
      ensures ok ==>
        Space(mem, role, d, n + 1, if n < m * PERTABLE then m else m + 1) && Entry(mem, d, n) == f * PGSIZE + flags
      ensures ok ==>
        Contents(old(mem), mem, d, 0, n) && KeptBut(old(mem), old(role), mem, role, d, f) && mem[f] == old(mem)[f]
      ensures ok && n < m * PERTABLE ==> free == old(free) && role == old(role)[f := Mapped(d, n)]
      ensures ok && n == m * PERTABLE ==>
        && free == old(free)[1..] && old(free)[0] in old(role) && old(role)[old(free)[0]] == Free
        && role == old(role)[old(free)[0] := Table(d, m)][f := Mapped(d, n)]
    {
      hide Good, Entry, Poke, Pdx, Ptx, Addr, Space, Contents, KeptBut;
      SpaceBounds(mem, role, d, n, m);
      FrameFacts(mem, freelist, free, role, f);
      ghost var mem0, role0, head0, free0 := mem, role, freelist, free;
      ok := EnsureTable(d, n);
      if !ok {
        return;
      }
      ghost var m1 := if n < m * PERTABLE then m else m + 1;
      if n == m * PERTABLE {
        MoreTable(mem0, role0, mem, role, d, n, m);
      }
      Appended(mem, freelist, free, role, d, n, m1, f, flags);
      ghost var mem1, role1 := mem, role;
      var t := Addr(mem[d][Pdx(n)]);
      mem := Poke(mem, t, Ptx(n), f * PGSIZE + flags);
      role := role[f := Mapped(d, n)];
      AppendedBoth(mem0, head0, free0, role0, mem1, role1, mem, role, d, n, m, f, if free0 == [] then 0 else free0[0]);
    }

    /** The end of freevm, for a space without pages: its tables and its directory are freed. */
    method FreeTables(d: nat, ghost m: nat)
      requires Valid() && Space(mem, role, d, 0, m)
      modifies this
      ensures Valid() && |mem| == |old(mem)| && TornDown(old(role), role[d := Other], d, NPDENTRIES) && d in role
        && role[d] == Free
      ensures forall g | 0 <= g < |mem| && g != d
        && !(g in old(role) && old(role)[g].Table? && old(role)[g].d == d) :: mem[g] == old(mem)[g]
    {
      hide Good, Addr, TornDown;
      Dismantle(mem, freelist, free, role, d, m);
      ghost var role0, dir := role, mem[d];
      role := Dismantled(role, d);
      DismantledAt(role0, d);
      var i := 0;
      while i < NPDENTRIES
        invariant i <= NPDENTRIES && Valid() && TornDown(role0, role, d, i) && |mem| == |old(mem)| && mem[d] == dir
        invariant forall g | 0 <= g < |mem| && !(g in role0 && role0[g].Table? && role0[g].d == d) ::
          mem[g] == old(mem)[g]
      {
        TornFacts(role0, role, d, i);
        if mem[d][i] != 0 {
          TornMore(role0, role, d, i, Addr(mem[d][i]));
          Kfree(Addr(mem[d][i]));
        } else {
          TornSkip(role0, role, d, i);
        }
        i := i + 1;
      }
      TornFacts(role0, role, d, i);
      RoleBack(role, d);
      Kfree(d);
    }

    /** freevm: all frames of the space are free again, and only they. */
    method Freevm(d: nat, ghost n: nat, ghost m: nat)
      requires Valid() && Space(mem, role, d, n, m)
      modifies this
      ensures Valid() && AllFreed(old(role), role, d) && Kept(old(mem), old(role), mem, role, d)
    {
      hide Good, Space, Freed, Kept, Contents, TornDown;
      SpaceBounds(mem, role, d, n, m);
      ghost var mem0, role0 := mem, role;
      TableBounds(mem, freelist, free, role, d);
      var r := Deallocuvm(d, USERBOUND, 0, n, m);
      ghost var mem1, role1 := mem, role;
      FreeTables(d, m);
      TornEnd(mem0, role0, mem1, role1, mem, role, d);
    }

    /** kalloc, a content for the frame, and mappages of it as page `p`, which takes a table or a frame for one. */
    method MapFresh(d: nat, p: nat, data: Page, flags: nat, ghost n: nat, ghost m: nat) returns (f: nat, ok: bool)
      requires Valid() && Space(mem, role, d, n, m) && p < USERPAGES && (n == p || free == []) && |data| == WORDS
        && flags < PGSIZE
      modifies this
      ensures Valid() && (f == 0 <==> old(free) == [])
      ensures f == 0 ==> mem == old(mem) && free == old(free) && role == old(role) && !ok
      ensures f != 0 ==> (ok <==> p < m * PERTABLE || |old(free)| > 1)
      ensures f != 0 ==>
        Kept(old(mem), old(role), mem, role, d) && Contents(old(mem), mem, d, 0, p) && f in old(role)
          && old(role)[f] == Free
      ensures ok ==> Space(mem, role, d, p + 1, if p < m * PERTABLE then m else m + 1) && PageIs(mem, d, p, data, flags)
      ensures ok ==> |free| == |old(free)| - (if p < m * PERTABLE then 1 else 2) && GrewFrom(old(role), role, d, {})
      ensures f != 0 && !ok ==> free == [] && Space(mem, role, d, p, m) && GrewFrom(old(role), role, d, {f})
    {
      hide Good, Entry, Space, Contents, Kept, KeptBut, GrewFrom, PageIs;
      ghost var mem0, role0, head0, free0 := mem, role, freelist, free;
      ok := false;
      SpaceBounds(mem, role, d, n, m);
      f := Kalloc();
      if f == 0 {
        return;
      }
      SpaceRole(mem, role0, role, d, p, m);
      Fill(f, data);
      SpaceFilled(mem0, mem, role, d, p, m);
      ghost var mem1, role1 := mem, role;
      ok := AppendPage(d, p, f, flags, m);
      GrownOnce(mem0, head0, free0, role0, mem1, role1, mem, role, d, p, m, f, data, flags,
          if |free0| > 1 then free0[1] else 0, ok);
    }

    /**
     allocuvm for a contiguous space of `m` tables; `n1` is the number of pages that
     it has afterwards. It ignores a failure of mappages: exactly when the last free
     frame becomes a page for whose table there is none, that frame is lost. If that
     page is the last one wanted, `newsz` is returned although the page is not mapped.
     In all other cases `newsz` means that blank pages are mapped up to there, and 0
     that the pages are as they were.
     */
    method Allocuvm(d: nat, oldsz: nat, newsz: nat, ghost m: nat) returns (r: nat, ghost lost: set<nat>, ghost n1: nat)
      requires Valid() && Space(mem, role, d, Up(oldsz), m) && oldsz <= USERBOUND
      modifies this
      ensures Valid()
      ensures newsz >= USERBOUND ==> r == 0 && mem == old(mem) && role == old(role)
      ensures newsz < USERBOUND && newsz < oldsz ==> r == oldsz && mem == old(mem) && role == old(role)
      ensures oldsz <= newsz < USERBOUND ==>
        (r == 0 || r == newsz) && Grown(old(mem), old(role), mem, role, d, Up(oldsz), n1, m, lost)
      ensures oldsz <= newsz < USERBOUND ==> (lost != {} <==> Starves(Up(oldsz), Up(newsz), m, |old(free)|))
      ensures oldsz <= newsz < USERBOUND && lost == {} ==>
        if |old(free)| >= Cost(Up(oldsz), Up(newsz), m) then r == newsz && n1 == Up(newsz)
          else r == 0 && n1 == Up(oldsz)
      ensures oldsz <= newsz < USERBOUND && lost != {} ==>
        if Misreports(Up(oldsz), Up(newsz), m, |old(free)|) then r == newsz && n1 + 1 == Up(newsz)
          else r == 0 && n1 == Up(oldsz)
      ensures oldsz <= newsz < USERBOUND ==>
        forall p: nat | Up(oldsz) <= p < n1 :: Entry(mem, d, p) != 0 && FullAccess(Entry(mem, d, p))
      ensures oldsz <= newsz < USERBOUND && r == newsz > 0 ==>
        (n1 == Up(newsz) <==> !Misreports(Up(oldsz), Up(newsz), m, |old(free)|))
    {
      hide Good, Entry, Space, Grown, Starves, GrewFrom, Misreports, FullAccess;
      lost, n1 := {}, 0;
      if newsz >= USERBOUND {
        return 0, lost, n1;
      }
      if newsz < oldsz {
        return oldsz, lost, n1;
      }
      ghost var n0, nfree := Up(oldsz), |free|;
      ghost var mem0, role0, head0, free0 := mem, role, freelist, free;
      GrownStart(mem, freelist, free, role, d, n0, m);
      UpMono(oldsz, newsz);
      n1 := n0;
      var p := Up(oldsz);
      while p * PGSIZE < newsz
        invariant n0 <= n1 <= p <= Up(newsz) && Valid() && Grown(mem0, role0, mem, role, d, n0, n1, m, lost)
          && Space(mem, role, d, n1, TablesAt(n1, m))
        invariant lost == {} ==> n1 == p && |free| + Cost(n0, p, m) == nfree
        invariant lost != {} ==> n1 + 1 == p && free == [] && StarvesAt(n0, n1, m, nfree)
      {
        UpLast(p, newsz);
        TablesAtStep(p, m);
        CostStep(n0, p, m);
        ghost var mem1, role1 := mem, role;
        var f, ok := MapFresh(d, p, Blank(0), UVMPTXATTR, n1, TablesAt(n1, m));
        if f == 0 {
          OutOfFrames(n0, p, Up(newsz), m, nfree, lost, n1);
          r := Deallocuvm(d, newsz, oldsz, n1, TablesAt(n1, m));
          GrownBack(mem0, head0, free0, role0, mem1, role1, mem, role, d, n0, n1, m, lost);
          return 0, lost, n0;
        }
        GrownMore(mem0, role0, mem1, role1, mem, role, d, n0, p, m, f, ok);
        if ok {
          n1 := p + 1;
        } else {
          lost := {f};
        }
        p := p + 1;
      }
      UpLast(p, newsz);
      EnoughFrames(n0, Up(newsz), m, nfree, lost, n1);
      GrownAccess(mem0, role0, mem, role, d, n0, n1, m, lost);
      r := newsz;
    }

    /**
     copyuvm of a contiguous space: a space with the same flags and contents on frames
     of its own, or 0 with everything as before. The copy of a page for which mappages
     fails is not given back, so a frame is lost exactly when the frames run out at a
     table.
     */
    method Copyuvm(d0: nat, sz: nat, ghost m: nat) returns (r: nat, ghost lost: set<nat>)
      requires Valid() && Space(mem, role, d0, Up(sz), m) && sz <= USERBOUND
      modifies this
      ensures Valid()
      ensures r != 0 ==>
        lost == {} && Space(mem, role, r, Up(sz), Tables(Up(sz))) && r != d0 && r in old(role) && old(role)[r] == Free
      ensures r != 0 ==>
        Kept(old(mem), old(role), mem, role, r) && GrewFrom(old(role), role, r, {})
          && Copied(old(mem), d0, mem, r, Up(sz))
      ensures r == 0 ==> BackTo(old(mem), old(role), mem, role, lost)
      ensures lost != {} <==> |old(free)| > 0 && Starves(0, Up(sz), 0, |old(free)| - 1)
      ensures lost == {} ==> (r != 0 <==> |old(free)| > Cost(0, Up(sz), 0))
    {
      hide Good, Entry, Space, Kept, Copied, GrewFrom, BackTo, Copying, Contents, Starves;
      lost := {};
      SpaceBounds(mem, role, d0, Up(sz), m);
      UpMono(sz, sz);
      CostMono(0, 0, Up(sz), 0);
      ghost var mem0, role0, head0, free0 := mem, role, freelist, free;
      var d := Setupkvm();
      if d == 0 {
        Unchanged(mem, role);
        return 0, lost;
      }
      CopyStart(mem0, role0, mem, role, d0, d);
      var p := 0;
      while p * PGSIZE < sz
        invariant p <= Up(sz) && Valid() && Copying(mem0, role0, mem, role, d0, d, p, {})
          && |free| + Cost(0, p, 0) == |free0| - 1
      {
        UpLast(p, sz);
        TablesAtStep(p, 0);
        CostStep(0, p, 0);
        CopyFacts(mem0, head0, free0, role0, mem, role, d0, Up(sz), m, d, p);
        EntryHere(mem, freelist, free, role, d0, p);
        ghost var mem1, role1 := mem, role;
        var pte := mem[Addr(mem[d0][Pdx(p)])][Ptx(p)];
        var f, ok := MapFresh(d, p, mem[Addr(pte)], Flags(pte), p, TablesAt(p, 0));
        if !ok {
          if f != 0 {
            CopyMore(mem0, role0, mem1, role1, mem, role, d0, d, p, f, ok);
            lost := {f};
          }
          OutOfFrames(0, if f != 0 then p + 1 else p, Up(sz), 0, |free0| - 1, lost, p);
          ghost var mem2, role2 := mem, role;
          CopyDone(mem0, role0, mem, role, d0, d, p, lost);
          Freevm(d, p, TablesAt(p, 0));
          CopyUndone(mem0, head0, free0, role0, mem2, role2, mem, role, d, lost);
          return 0, lost;
        }
        CopyMore(mem0, role0, mem1, role1, mem, role, d0, d, p, f, ok);
        p := p + 1;
      }
      UpLast(p, sz);
      EnoughFrames(0, Up(sz), 0, |free0| - 1, {}, 0);
      CopyDone(mem0, role0, mem, role, d0, d, p, {});
      FrameFacts(mem, freelist, free, role, d);
      r := d;
    }
  }

  /**
   For example: a space of 256 pages on one table grows by a page with one frame left.
   allocuvm reports success, but the page is not there, and the space is not one of
   that size, as copyuvm expects it to be.
   */
  method FalseSuccess(k: Memory, d: nat) returns (r: nat)
    requires k.Valid() && Space(k.mem, k.role, d, 256, 1) && |k.free| == 1
    modifies k
    ensures k.Valid() && r == 257 * PGSIZE && Entry(k.mem, d, 256) == 0
    ensures forall m :: !Space(k.mem, k.role, d, Up(r), m)
  {
    StarvesExample();
    hide Good, Entry, Starves, Misreports, GrewFrom;
    assert Up(256 * PGSIZE) == 256 && Up(257 * PGSIZE) == 257;
    ghost var lost, n1;
    r, lost, n1 := k.Allocuvm(d, 256 * PGSIZE, 257 * PGSIZE, 1);
  }

  lemma OutOfFrames(n0: nat, p: nat, hi: nat, m: nat, nfree: nat, lost: set<nat>, n1: nat)
    requires p <= hi
    requires lost == {} ==> p < hi && Cost(n0, p, m) == nfree
    requires lost != {} ==> n1 + 1 == p && StarvesAt(n0, n1, m, nfree)
    ensures lost != {} <==> Starves(n0, hi, m, nfree)
    ensures lost == {} ==> nfree < Cost(n0, hi, m)
    ensures p < hi ==> !Misreports(n0, hi, m, nfree)
  {
    if lost == {} {
      NotAfter(n0, p, m, nfree, hi);
      CostMono(n0, p, hi, m);
    } else if p < hi {
      CostMono(n0, n1, hi - 1, m);
    }
  }

  lemma EnoughFrames(n0: nat, hi: nat, m: nat, nfree: nat, lost: set<nat>, n1: nat)
    requires lost == {} ==> Cost(n0, hi, m) <= nfree
    requires lost != {} ==> n1 + 1 == hi && StarvesAt(n0, n1, m, nfree)
    ensures lost != {} <==> Starves(n0, hi, m, nfree)
    ensures lost != {} <==> Misreports(n0, hi, m, nfree)
  {
    if lost == {} {
      forall q: nat | q < hi ensures !StarvesAt(n0, q, m, nfree) {
        NotBefore(n0, hi, m, nfree, q);
      }
    }
  }

  /** copyuvm's copy in progress: `p` pages of the new space `d` are there. */
  ghost predicate Copying(mem0: seq<Page>, role0: map<nat, Role>, mem: seq<Page>, role: map<nat, Role>, d0: nat,
                          d: nat, p: nat, lost: set<nat>) {
    && Space(mem, role, d, p, TablesAt(p, 0)) && Kept(mem0, role0, mem, role, d)
    && Copied(mem0, d0, mem, d, p) && GrewFrom(role0, role, d, lost)
  }

  lemma CopyStart(mem0: seq<Page>, role0: map<nat, Role>, mem: seq<Page>, role: map<nat, Role>, d0: nat, d: nat)
    requires d in role0 && role0[d] == Free && role == role0[d := Dir] && Space(mem, role, d, 0, 0) && |mem| == |mem0|
    requires forall g | 0 <= g < |mem| && g != d :: mem[g] == mem0[g]
    ensures Copying(mem0, role0, mem, role, d0, d, 0, {})
  {
    hide Space;
  }

  /** A space that is not about `d` stays as it is. */
  lemma KeptSpace(mem0: seq<Page>, head: nat, free: seq<nat>, role0: map<nat, Role>, mem: seq<Page>,
                  role: map<nat, Role>, d0: nat, d: nat, q: nat)
    requires Good(mem0, head, free, role0) && IsDir(role0, d0) && d0 != d && Kept(mem0, role0, mem, role, d)
    ensures Entry(mem, d0, q) == Entry(mem0, d0, q)
    ensures Entry(mem0, d0, q) != 0 ==>
      Addr(Entry(mem0, d0, q)) < |mem0| && mem[Addr(Entry(mem0, d0, q))] == mem0[Addr(Entry(mem0, d0, q))]
  {
    if Entry(mem0, d0, q) != 0 {
      PageRole(mem0, head, free, role0, d0, q);
    }
    hide Chain, FreeOk, PagesOk;
    if q < USERPAGES && mem0[d0][Pdx(q)] != 0 {
      assert role0[Addr(mem0[d0][Pdx(q)])] == Table(d0, Pdx(q));
    }
  }

  lemma CopyDone(mem0: seq<Page>, role0: map<nat, Role>, mem: seq<Page>, role: map<nat, Role>, d0: nat, d: nat,
                 p: nat, lost: set<nat>)
    requires Copying(mem0, role0, mem, role, d0, d, p, lost)
    ensures Space(mem, role, d, p, TablesAt(p, 0)) && TablesAt(p, 0) == Tables(p) && d in role
    ensures Kept(mem0, role0, mem, role, d) && Copied(mem0, d0, mem, d, p) && GrewFrom(role0, role, d, lost)
  {
    hide Entry, Copied, Kept, GrewFrom;
  }

  lemma Unchanged(mem: seq<Page>, role: map<nat, Role>)
    ensures BackTo(mem, role, mem, role, {})
  {
  }

  /** What the loop of copyuvm finds at page `p` of the source. */
  lemma CopyFacts(mem0: seq<Page>, head: nat, free: seq<nat>, role0: map<nat, Role>, mem: seq<Page>,
                  role: map<nat, Role>,
                  d0: nat, n: nat, m: nat, d: nat, p: nat)
    requires Good(mem0, head, free, role0) && Space(mem0, role0, d0, n, m) && p < n && d in role0 && role0[d] == Free
    requires Copying(mem0, role0, mem, role, d0, d, p, {})
    ensures IsDir(role, d0) && d0 < |mem| == |mem0| && |mem[d0]| == WORDS && p < USERPAGES && mem[d0][Pdx(p)] != 0
    ensures Entry(mem, d0, p) == Entry(mem0, d0, p) != 0 && Addr(Entry(mem0, d0, p)) < |mem0|
    ensures mem[Addr(Entry(mem0, d0, p))] == mem0[Addr(Entry(mem0, d0, p))] && |mem0[Addr(Entry(mem0, d0, p))]| == WORDS
    ensures Space(mem, role, d, p, TablesAt(p, 0)) && Flags(Entry(mem0, d0, p)) < PGSIZE
  {
    hide Entry, Addr, Copied, GrewFrom, TablesOk, PagesOk, Chain, FreeOk;
    KeptSpace(mem0, head, free, role0, mem, role, d0, d, p);
    FrameFacts(mem0, head, free, role0, d0);
    assert mem[d0] == mem0[d0] && role[d0] == role0[d0];
    assert Pdx(p) < m;
  }

  lemma CopyMore(mem0: seq<Page>, role0: map<nat, Role>, mem1: seq<Page>, role1: map<nat, Role>, mem2: seq<Page>,
                 role2: map<nat, Role>,
                 d0: nat, d: nat, p: nat, f: nat, ok: bool)
    requires Copying(mem0, role0, mem1, role1, d0, d, p, {}) && Kept(mem1, role1, mem2, role2, d)
      && Contents(mem1, mem2, d, 0, p)
    requires Addr(Entry(mem0, d0, p)) < |mem0|
    requires ok ==>
      && Space(mem2, role2, d, p + 1, TablesAt(p + 1, 0)) && GrewFrom(role1, role2, d, {})
      && PageIs(mem2, d, p, mem0[Addr(Entry(mem0, d0, p))], Flags(Entry(mem0, d0, p)))
    requires !ok ==>
      Space(mem2, role2, d, p, TablesAt(p, 0)) && GrewFrom(role1, role2, d, {f}) && f in role1 && role1[f] == Free
    ensures if ok then Copying(mem0, role0, mem2, role2, d0, d, p + 1, {})
      else Copying(mem0, role0, mem2, role2, d0, d, p, {f})
  {
    hide Entry, Addr, Flags;
    KeptTrans(mem0, role0, mem1, role1, mem2, role2, d);
    hide Kept, Space;
  }

  /** No frame is about a directory that is free. */
  lemma NotAbout(mem: seq<Page>, head: nat, free: seq<nat>, role: map<nat, Role>, d: nat)
    requires Good(mem, head, free, role) && d in role && role[d] == Free
    ensures forall f | f in role :: !About(role[f], f, d)
  {
    hide Entry, Addr;
  }

  /** After freevm of the unfinished copy, all frames are used as before, but for a lost one. */
  lemma CopyUndone(mem0: seq<Page>, head: nat, free: seq<nat>, role0: map<nat, Role>, mem1: seq<Page>,
                   role1: map<nat, Role>,
                   mem2: seq<Page>, role2: map<nat, Role>, d: nat, lost: set<nat>)
    requires Good(mem0, head, free, role0) && d in role0 && role0[d] == Free && Kept(mem0, role0, mem1, role1, d)
      && GrewFrom(role0, role1, d, lost)
    requires AllFreed(role1, role2, d) && Kept(mem1, role1, mem2, role2, d)
    ensures BackTo(mem0, role0, mem2, role2, lost)
  {
    hide Good, Entry;
    NotAbout(mem0, head, free, role0, d);
    KeptTrans(mem0, role0, mem1, role1, mem2, role2, d);
  }

  /** Frames in use keep use and content; free ones are free again, except those lost. */
  ghost predicate BackTo(mem0: seq<Page>, role0: map<nat, Role>, mem: seq<Page>, role: map<nat, Role>, lost: set<nat>) {
    && |mem| == |mem0| && role.Keys == role0.Keys
    && forall f | f in role0 && f < |mem0| ::
         if role0[f].Free? then role[f] == (if f in lost then Other else Free)
           else role[f] == role0[f] && mem[f] == mem0[f]
  }

  lemma UpMono(a: nat, b: nat)
    requires a <= b
    ensures Up(a) <= Up(b) && (b <= USERBOUND ==> Up(b) <= USERPAGES)
  {
  }

  lemma UpLast(p: nat, sz: nat)
    ensures p * PGSIZE < sz <==> p < Up(sz)
  {
  }

  lemma GrownMore(mem0: seq<Page>, role0: map<nat, Role>, mem1: seq<Page>, role1: map<nat, Role>, mem2: seq<Page>,
                  role2: map<nat, Role>,
                  d: nat, n0: nat, p: nat, m: nat, f: nat, ok: bool)
    requires Grown(mem0, role0, mem1, role1, d, n0, p, m, {}) && Kept(mem1, role1, mem2, role2, d)
      && Contents(mem1, mem2, d, 0, p)
    requires ok ==>
      Space(mem2, role2, d, p + 1, TablesAt(p + 1, m)) && PageIs(mem2, d, p, Blank(0), UVMPTXATTR)
        && GrewFrom(role1, role2, d, {})
    requires !ok ==>
      Space(mem2, role2, d, p, TablesAt(p, m)) && GrewFrom(role1, role2, d, {f}) && f in role1 && role1[f] == Free
    ensures if ok then Grown(mem0, role0, mem2, role2, d, n0, p + 1, m, {})
      else Grown(mem0, role0, mem2, role2, d, n0, p, m, {f})
  {
    hide Entry, Addr, Flags, Blank;
    KeptTrans(mem0, role0, mem1, role1, mem2, role2, d);
    hide Kept, Space;
    forall q: nat | n0 <= q < p ensures PageIs(mem2, d, q, Blank(0), UVMPTXATTR) {
      assert PageIs(mem1, d, q, Blank(0), UVMPTXATTR);
    }
    hide PageIs;
  }

  /** deallocuvm undoes what allocuvm had done so far. */
  lemma GrownBack(mem0: seq<Page>, head: nat, free: seq<nat>, role0: map<nat, Role>, mem1: seq<Page>,
                  role1: map<nat, Role>,
                  mem2: seq<Page>, role2: map<nat, Role>, d: nat, n0: nat, n1: nat, m: nat, lost: set<nat>)
    requires Good(mem0, head, free, role0) && (exists m0 :: Space(mem0, role0, d, n0, m0))
      && Grown(mem0, role0, mem1, role1, d, n0, n1, m, lost)
    requires Space(mem2, role2, d, n0, TablesAt(n1, m)) && Kept(mem1, role1, mem2, role2, d)
    requires Contents(mem1, mem2, d, 0, n0) && Freed(role1, role2, d, n0)
    ensures Grown(mem0, role0, mem2, role2, d, n0, n0, m, lost)
  {
    hide Entry, Addr, Flags, Blank, Good;
    var m0 :| Space(mem0, role0, d, n0, m0);
    SpaceBelow(mem0, head, free, role0, d, n0, m0);
    KeptTrans(mem0, role0, mem1, role1, mem2, role2, d);
    hide Kept, Space;
  }

  lemma SpaceRole(mem: seq<Page>, role: map<nat, Role>, role1: map<nat, Role>, d: nat, n: nat, m: nat)
    requires Space(mem, role, d, n, m) && IsDir(role1, d)
    ensures Space(mem, role1, d, n, m)
  {
    hide Entry;
  }

  lemma SpaceFilled(mem: seq<Page>, mem1: seq<Page>, role: map<nat, Role>, d: nat, n: nat, m: nat)
    requires Space(mem, role, d, n, m) && |mem1| == |mem| && mem1[d] == mem[d] && forall p: nat ::
      Entry(mem1, d, p) == Entry(mem, d, p)
    ensures Space(mem1, role, d, n, m)
  {
    hide Entry;
  }

  lemma GrownOnce(mem0: seq<Page>, head: nat, free0: seq<nat>, role0: map<nat, Role>, mem1: seq<Page>,
                  role1: map<nat, Role>,
                  mem2: seq<Page>, role2: map<nat, Role>, d: nat, p: nat, m: nat, f: nat,
                  data: Page, flags: nat, t: nat, ok: bool)
    requires Good(mem0, head, free0, role0) && Space(mem0, role0, d, p, m)
    requires f in role0 && role0[f] == Free && f < |mem0| && role1 == role0[f := Other] && mem1 == mem0[f := data]
      && flags < PGSIZE
    requires forall e: nat, q: nat | IsDir(role0, e) :: Entry(mem1, e, q) == Entry(mem0, e, q)
    requires !ok ==> mem2 == mem1 && role2 == role1
    requires ok ==> Contents(mem1, mem2, d, 0, p) && KeptBut(mem1, role1, mem2, role2, d, f) && mem2[f] == mem1[f]
    requires ok ==> Entry(mem2, d, p) == f * PGSIZE + flags
    requires ok ==>
      || role2 == role1[f := Mapped(d, p)]
      || (t in role1 && role1[t] == Free && role2 == role1[t := Table(d, m)][f := Mapped(d, p)])
    ensures Kept(mem0, role0, mem2, role2, d) && Contents(mem0, mem2, d, 0, p)
    ensures ok ==> PageIs(mem2, d, p, data, flags) && GrewFrom(role0, role2, d, {})
    ensures !ok ==> GrewFrom(role0, role2, d, {f})
  {
    hide Entry, Addr, Flags, Good;
    forall q: nat | q < p
      ensures Entry(mem2, d, q) == Entry(mem0, d, q)
      ensures Addr(Entry(mem0, d, q)) < |mem0| ==> mem2[Addr(Entry(mem0, d, q))] == mem0[Addr(Entry(mem0, d, q))]
    {
      PageRole(mem0, head, free0, role0, d, q);
      assert Entry(mem1, d, q) == Entry(mem0, d, q);
    }
    Decode(f, flags);
  }

  lemma GrownStart(mem: seq<Page>, head: nat, free: seq<nat>, role: map<nat, Role>, d: nat, n0: nat, m: nat)
    requires Good(mem, head, free, role) && Space(mem, role, d, n0, m)
    ensures Grown(mem, role, mem, role, d, n0, n0, m, {}) && Space(mem, role, d, n0, TablesAt(n0, m))
      && Cost(n0, n0, m) == 0
  {
    hide Entry, Addr, Good;
    assert Tables(n0) <= m;
  }

  /**
   A small page, cached and buffered, that the user may read and write in all four
   quarters: of the twelve low bits of its entry all but the lowest are set.
   */
  ghost predicate FullAccess(e: nat) {
    forall j | 0 <= j < 12 :: B.TestBit(Flags(e), j) <==> j > 0
  }

  lemma {:induction false} Ones(n: nat, k: nat)
    requires k < n
    ensures B.Pow2(n) > 0 && B.TestBit(B.Pow2(n) - 1, k)
  {
    if k > 0 {
      Ones(n - 1, k - 1);
      assert (B.Pow2(n) - 1) / 2 == B.Pow2(n - 1) - 1;
    } else if n > 1 {
      Ones(n - 1, 0);
    }
  }

  lemma AttrAccess(e: nat)
    requires Flags(e) == UVMPTXATTR
    ensures FullAccess(e)
  {
    assert B.Pow2(11) == 0x800;
    forall j | 0 < j < 12 ensures B.TestBit(UVMPTXATTR, j) {
      Ones(11, j - 1);
      assert UVMPTXATTR / 2 == B.Pow2(11) - 1;
    }
  }

  /** The pages that allocuvm has mapped are open to the user. */
  lemma GrownAccess(mem0: seq<Page>, role0: map<nat, Role>, mem: seq<Page>, role: map<nat, Role>, d: nat, n0: nat,
                    n1: nat, m: nat, lost: set<nat>)
    requires Grown(mem0, role0, mem, role, d, n0, n1, m, lost)
    ensures forall p: nat | n0 <= p < n1 :: Entry(mem, d, p) != 0 && FullAccess(Entry(mem, d, p))
  {
    hide Entry, FullAccess, Space, Contents, Kept, GrewFrom;
    forall p: nat | n0 <= p < n1 ensures Entry(mem, d, p) != 0 && FullAccess(Entry(mem, d, p)) {
      assert PageIs(mem, d, p, Blank(0), UVMPTXATTR);
      AttrAccess(Entry(mem, d, p));
    }
  }

  /** What allocuvm has made of the space: pages up to `n1`, old ones kept and new ones blank, all else untouched. */
  ghost predicate Grown(mem0: seq<Page>, role0: map<nat, Role>, mem: seq<Page>, role: map<nat, Role>, d: nat,
                        n0: nat, n1: nat, m: nat, lost: set<nat>) {
    && n0 <= n1 && (exists m1 :: m <= m1 && Space(mem, role, d, n1, m1)) && Contents(mem0, mem, d, 0, n0)
       && BlankPages(mem, d, n0, n1)
    && Kept(mem0, role0, mem, role, d) && GrewFrom(role0, role, d, lost)
  }
}
