/**
 The user-level allocator (usr/umalloc.c): a circular list of free blocks in
 address order, each block headed by a header in the heap itself. Addresses
 count headers (8 bytes each); 0 is the null pointer.
 */
module UserHeap {
  import opened Base
  import Sets

  const HEADER: nat := 8              // sizeof(Header)
  const LIMIT: nat := 0x0800_0000     // USERBOUND / sizeof(Header): user addresses end here
  const MAXREQUEST: nat := 0x7FFF_FFF0
  const BATCH: nat := 4096

  /** `union header` */
  datatype Header = Header(ptr: nat, size: nat)

  type Headers = map<nat, Header>

  // ------------------------------------------------------------- arithmetic

  /** `(nbytes + sizeof(Header) - 1)/sizeof(Header) + 1` in 32-bit arithmetic. */
  function Units(nbytes: nat): nat
    requires nbytes < UINT
  {
    (nbytes + HEADER - 1) % UINT / HEADER + 1
  }

  /** The units morecore asks for. */
  function CoreUnits(nu: nat): (r: nat)
    ensures r >= 4096 && r >= nu && (r == 4096 || r == nu)
  {
    if nu < BATCH then BATCH else nu
  }

  /** What sbrk, whose parameter is an int, sees of `nu * sizeof(Header)`. */
  function SbrkArg(nu: nat): int {
    var n := nu * HEADER % UINT;
    if n < 0x8000_0000 then n else n - UINT
  }

  /** sbrk is asked for as many bytes as morecore means. */
  predicate SbrkRight(nbytes: nat)
    requires nbytes < UINT
  {
    SbrkArg(CoreUnits(Units(nbytes))) == CoreUnits(Units(nbytes)) * HEADER
  }

  /** A block of that many units holds the request, and sbrk is asked for that many bytes. */
  predicate Adequate(nbytes: nat)
    requires nbytes < UINT
  {
    (Units(nbytes) - 1) * HEADER >= nbytes && SbrkRight(nbytes)
  }

  /**
   What sbrk gets is wrong exactly for requests that overflow an int with their header without
   wrapping to almost nothing.
   */
  lemma SbrkRightIff(nbytes: nat)
    requires nbytes < UINT
    ensures SbrkRight(nbytes) <==> nbytes <= MAXREQUEST || nbytes > UINT - HEADER
    ensures !SbrkRight(nbytes) ==> SbrkArg(CoreUnits(Units(nbytes))) <= 0
  {
    var nu := Units(nbytes);
    if nbytes + HEADER - 1 < UINT {
      assert (nbytes + HEADER - 1) % UINT == nbytes + HEADER - 1;
      assert nu == (nbytes + HEADER - 1) / HEADER + 1;
    } else {
      assert (nbytes + HEADER - 1) % UINT == nbytes + HEADER - 1 - UINT;
    }
  }

  /** The arithmetic of malloc is right exactly up to the largest request that fits an int with its header. */
  lemma AdequateIff(nbytes: nat)
    requires nbytes < UINT
    ensures Adequate(nbytes) <==> nbytes <= MAXREQUEST
    ensures Adequate(nbytes) ==> (Units(nbytes) - 1) * HEADER < nbytes + HEADER
  {
    var nu := Units(nbytes);
    if nbytes + HEADER - 1 < UINT {
      assert (nbytes + HEADER - 1) % UINT == nbytes + HEADER - 1;
      assert nu == (nbytes + HEADER - 1) / HEADER + 1;
    } else {
      assert (nbytes + HEADER - 1) % UINT == nbytes + HEADER - 1 - UINT;
    }
  }

  /** The largest request gets a bare header: its block has no room for a single byte. */
  lemma WrappedRequest()
    ensures Units(0xFFFF_FFFF) == 1 && SbrkRight(0xFFFF_FFFF) && !Adequate(0xFFFF_FFFF)
  {
  }

  // ------------------------------------------------------- the shape of the heap

  function Size(hdr: Headers, h: nat): nat {
    if h in hdr then hdr[h].size else 0
  }

  /** `n` follows `h` in address order among the free blocks, or is `base`, the lowest, and follows the highest. */
  ghost predicate Succ(free: set<nat>, base: nat, h: nat, n: nat) {
    && n in free
    && (h < n || n == base)
    && forall g | g in free :: (h < n ==> g <= h || n <= g) && (n <= h ==> g <= h)
  }

  /** The pointers of the free blocks form the circle of all of them in address order, `base` being the lowest. */
  ghost predicate Ring(hdr: Headers, free: set<nat>, base: nat) {
    && base in free && Size(hdr, base) == 0
    && (forall h | h in free :: h in hdr && base <= h)
    && forall h {:trigger hdr[h]} | h in free :: Succ(free, base, h, hdr[h].ptr)
  }

  /** No free block, except those of `but`, touches the next. */
  ghost predicate Coalesced(hdr: Headers, free: set<nat>, but: set<nat>) {
    forall h {:trigger hdr[h]} | h in free && h !in but && h in hdr :: hdr[h].ptr <= h || h + Size(hdr, h) < hdr[h].ptr
  }

  /** Which block each unit obtained from sbrk belongs to: `owner` maps it to the header of exactly one block. */
  ghost predicate Partition(hdr: Headers, blocks: set<nat>, owner: map<nat, nat>) {
    && (forall h | h in blocks :: h in hdr && hdr[h].size > 0)
    && (forall u {:trigger owner[u]} | u in owner ::
       owner[u] in blocks && owner[u] <= u < owner[u] + Size(hdr, owner[u]))
    && (forall h, u: nat | h in blocks && h <= u < h + Size(hdr, h) :: u in owner && owner[u] == h)
  }

  /** The heap; `blocks` are all blocks and `free` the free ones and `base`. */
  ghost predicate Good(hdr: Headers, free: set<nat>, blocks: set<nat>, owner: map<nat, nat>, base: nat, but: set<nat>) {
    && Ring(hdr, free, base) && Coalesced(hdr, free, but) && Partition(hdr, blocks, owner)
    && (forall h | h in blocks :: base < h)
    && (forall h | h in free && h != base :: h in blocks)
  }

  /** Blocks do not overlap. */
  lemma Disjoint(hdr: Headers, blocks: set<nat>, owner: map<nat, nat>, g: nat, h: nat)
    requires Partition(hdr, blocks, owner) && g in blocks && h in blocks && g < h
    ensures g + Size(hdr, g) <= h
  {
    assert h in owner && owner[h] == h;
    if g + Size(hdr, g) > h {
      assert false;
    }
  }

  // ----------------------------------------------------- steps on the free list

  /** `bp` goes between the free block `p` and its successor. */
  ghost predicate PlaceOf(hdr: Headers, p: nat, bp: nat) {
    p in hdr && p < bp && (p < hdr[p].ptr ==> bp < hdr[p].ptr)
  }

  /** The headers after the two assignments that link `bp` behind `p`. */
  function Linked(hdr: Headers, p: nat, bp: nat): Headers
    requires p in hdr && bp in hdr
  {
    hdr[bp := hdr[bp].(ptr := hdr[p].ptr)][p := hdr[p].(ptr := bp)]
  }

  /** Linking a block that is in use into the list makes it free. */
  lemma Link(hdr: Headers, free: set<nat>, blocks: set<nat>, owner: map<nat, nat>, base: nat, p: nat, bp: nat)
    requires Good(hdr, free, blocks, owner, base, {}) && bp in blocks && bp !in free && p in free && PlaceOf(hdr, p, bp)
    ensures bp in hdr && Good(Linked(hdr, p, bp), free + {bp}, blocks, owner, base, {p, bp})
    ensures p + Size(hdr, p) <= bp && (hdr[p].ptr > p ==> bp + Size(hdr, bp) <= hdr[p].ptr)
  {
    hide Partition, Ring, Succ;
    SuccFacts(hdr, free, base, p);
    BlockFacts(hdr, blocks, owner, bp);
    if p != base {
      Disjoint(hdr, blocks, owner, p, bp);
    }
    if hdr[p].ptr > p {
      Disjoint(hdr, blocks, owner, bp, hdr[p].ptr);
    }
    LinkRing(hdr, free, base, p, bp);
    SameSizes(hdr, Linked(hdr, p, bp), blocks, owner);
  }

  lemma BlockFacts(hdr: Headers, blocks: set<nat>, owner: map<nat, nat>, h: nat)
    requires Partition(hdr, blocks, owner) && h in blocks
    ensures h in hdr && Size(hdr, h) > 0 && h in owner
  {
    assert h <= h < h + Size(hdr, h);
  }

  lemma LinkRing(hdr: Headers, free: set<nat>, base: nat, p: nat, bp: nat)
    requires Ring(hdr, free, base) && bp in hdr && bp !in free && p in free && PlaceOf(hdr, p, bp)
    ensures Ring(Linked(hdr, p, bp), free + {bp}, base)
  {
    hide Succ;
    var hdr1, free1 := Linked(hdr, p, bp), free + {bp};
    forall h | h in free1 ensures Succ(free1, base, h, hdr1[h].ptr) {
      SuccLink(free, base, p, hdr[p].ptr, bp, if h == bp then p else h, if h == bp then hdr[p].ptr else hdr[h].ptr);
    }
  }

  lemma SuccLink(free: set<nat>, base: nat, p: nat, n: nat, bp: nat, h: nat, m: nat)
    requires Succ(free, base, p, n) && Succ(free, base, h, m) && p in free && h in free && base <= p < bp
      && (p < n ==> bp < n)
    requires bp !in free
    ensures Succ(free + {bp}, base, p, bp) && Succ(free + {bp}, base, bp, n)
    ensures h != p ==> Succ(free + {bp}, base, h, m)
  {
  }

  /** Pointers do not matter to the partition. */
  lemma SameSizes(hdr: Headers, hdr1: Headers, blocks: set<nat>, owner: map<nat, nat>)
    requires Partition(hdr, blocks, owner) && forall h | h in hdr :: h in hdr1 && hdr1[h].size == hdr[h].size
    ensures Partition(hdr1, blocks, owner)
  {
  }

  /** The headers after `p` has absorbed the block `q` behind it. */
  function Absorbed(hdr: Headers, p: nat, q: nat): Headers
    requires p in hdr && q in hdr
  {
    hdr[p := Header(hdr[q].ptr, hdr[p].size + hdr[q].size)]
  }

  /** Merging a free block with the next one, which it touches. */
  lemma Merge(hdr: Headers, free: set<nat>, blocks: set<nat>, owner: map<nat, nat>, base: nat, but: set<nat>, p: nat,
              q: nat)
    requires Good(hdr, free, blocks, owner, base, but) && p in free && p != base && p in hdr && q == hdr[p].ptr
    requires p + Size(hdr, p) == q && q !in but
    ensures q in hdr && q in free && q != base
    ensures Good(Absorbed(hdr, p, q), free - {q}, blocks - {q}, Reowned(owner, q, p), base, but - {p})
  {
    hide Partition, Reowned;
    BlockFacts(hdr, blocks, owner, p);
    SuccFacts(hdr, free, base, p);
    MergeRing(hdr, free, base, p, q);
    MergePartition(hdr, blocks, owner, p, q);
  }

  lemma MergeRing(hdr: Headers, free: set<nat>, base: nat, p: nat, q: nat)
    requires Ring(hdr, free, base) && p in free && p in hdr && q == hdr[p].ptr && base <= p < q && q in free
      && q in hdr && q != base
    ensures Ring(hdr[p := Header(hdr[q].ptr, Size(hdr, p))], free - {q}, base)
  {
    hide Succ;
    var hdr1, free1 := hdr[p := Header(hdr[q].ptr, Size(hdr, p))], free - {q};
    forall h | h in free1 ensures Succ(free1, base, h, hdr1[h].ptr) {
      SuccSkip(free, base, p, q, hdr[q].ptr, h, hdr[h].ptr);
    }
  }

  lemma SuccSkip(free: set<nat>, base: nat, p: nat, q: nat, r: nat, h: nat, m: nat)
    requires Succ(free, base, p, q) && Succ(free, base, q, r) && Succ(free, base, h, m) && p in free && h in free
    requires base <= p < q && h != q && q != base
    ensures Succ(free - {q}, base, p, r)
    ensures h != p ==> Succ(free - {q}, base, h, m)
  {
  }

  lemma SuccFacts(hdr: Headers, free: set<nat>, base: nat, p: nat)
    requires Ring(hdr, free, base) && p in free
    ensures p in hdr && hdr[p].ptr in free && hdr[p].ptr in hdr && base <= p && base in hdr && Size(hdr, base) == 0
    ensures hdr[p].ptr > p || hdr[p].ptr == base
  {
  }

  lemma MergePartition(hdr: Headers, blocks: set<nat>, owner: map<nat, nat>, p: nat, q: nat)
    requires Partition(hdr, blocks, owner) && p in blocks && q in blocks && p + Size(hdr, p) == q && p in hdr
      && q in hdr
    ensures Partition(Absorbed(hdr, p, q), blocks - {q}, Reowned(owner, q, p))
  {
    AbsorbedSizes(hdr, p, q);
    BlockFacts(hdr, blocks, owner, p);
    hide Partition, Absorbed, Reowned, Size;
    var hdr1, owner1, blocks1 := Absorbed(hdr, p, q), Reowned(owner, q, p), blocks - {q};
    forall h | h in blocks1 ensures h in hdr1 && Size(hdr1, h) > 0 {
      BlockFacts(hdr, blocks, owner, h);
    }
    forall u | u in owner1 ensures owner1[u] in blocks1 && owner1[u] <= u < owner1[u] + Size(hdr1, owner1[u]) {
      OwnFacts(hdr, blocks, owner, u);
      ReownedAt(owner, q, p, u);
    }
    forall h, u: nat | h in blocks1 && h <= u < h + Size(hdr1, h) ensures u in owner1 && owner1[u] == h {
      Covered(hdr, blocks, owner, if h == p && u >= q then q else h, u);
      ReownedAt(owner, q, p, u);
    }
    PartitionIs(hdr1, blocks1, owner1);
  }

  lemma AbsorbedSizes(hdr: Headers, p: nat, q: nat)
    requires p in hdr && q in hdr && p != q
    ensures forall h :: h in Absorbed(hdr, p, q) <==> h in hdr
    ensures forall h :: Size(Absorbed(hdr, p, q), h) == if h == p then Size(hdr, p) + Size(hdr, q) else Size(hdr, h)
  {
  }

  lemma ReownedAt(owner: map<nat, nat>, q: nat, p: nat, u: nat)
    requires u in owner
    ensures u in Reowned(owner, q, p) && Reowned(owner, q, p)[u] == if owner[u] == q then p else owner[u]
  {
  }

  /** The units of block `q` now belong to block `p`. */
  ghost function Reowned(owner: map<nat, nat>, q: nat, p: nat): (r: map<nat, nat>)
    ensures r.Keys == owner.Keys
  {
    map u | u in owner :: if owner[u] == q then p else owner[u]
  }

  /** A block that does not touch the next one needs no exemption. */
  lemma Apart(hdr: Headers, free: set<nat>, blocks: set<nat>, owner: map<nat, nat>, base: nat, but: set<nat>, h: nat)
    requires Good(hdr, free, blocks, owner, base, but)
    requires h in free ==> h in hdr && (hdr[h].ptr <= h || h + Size(hdr, h) < hdr[h].ptr)
    ensures Good(hdr, free, blocks, owner, base, but - {h})
  {
    hide Partition, Ring;
  }

  // ---------------------------------------------------------------- free

  predicate TouchesNext(hdr: Headers, p: nat, bp: nat)
    requires p in hdr && bp in hdr
  {
    bp + hdr[bp].size == hdr[p].ptr
  }

  predicate TouchesPrevious(hdr: Headers, p: nat, bp: nat)
    requires p in hdr && bp in hdr
  {
    p + hdr[p].size == bp
  }

  /** The first step: `bp` is linked behind `p` and has absorbed the next block if it touches it. */
  ghost function Step1(hdr: Headers, p: nat, bp: nat): Headers
    requires p in hdr && bp in hdr && hdr[p].ptr in hdr
  {
    if TouchesNext(hdr, p, bp) then Absorbed(Linked(hdr, p, bp), bp, hdr[p].ptr) else Linked(hdr, p, bp)
  }

  /** The second step: `p` has absorbed `bp` if they touch. */
  ghost function Step2(hdr: Headers, p: nat, bp: nat): Headers
    requires p in hdr && bp in hdr
  {
    if TouchesPrevious(hdr, p, bp) then Absorbed(hdr, p, bp) else hdr
  }

  /** The blocks that cease to be blocks of their own. */
  ghost function Gone(hdr: Headers, p: nat, bp: nat): set<nat>
    requires p in hdr && bp in hdr
  {
    (if TouchesNext(hdr, p, bp) then {hdr[p].ptr} else {}) + (if TouchesPrevious(hdr, p, bp) then {bp} else {})
  }

  ghost function OwnerAfter(hdr: Headers, owner: map<nat, nat>, p: nat, bp: nat): (r: map<nat, nat>)
    requires p in hdr && bp in hdr
    ensures r.Keys == owner.Keys
  {
    var x := if TouchesNext(hdr, p, bp) then Reowned(owner, hdr[p].ptr, bp) else owner;
    if TouchesPrevious(hdr, p, bp) then Reowned(x, bp, p) else x
  }

  lemma FreeNext(hdr: Headers, free: set<nat>, blocks: set<nat>, owner: map<nat, nat>, base: nat, p: nat, bp: nat)
    requires Good(hdr, free, blocks, owner, base, {}) && bp in blocks && bp !in free && p in free && PlaceOf(hdr, p, bp)
    ensures bp in hdr && hdr[p].ptr in hdr && p < bp
    ensures var hdr1 := Step1(hdr, p, bp); var gone := if TouchesNext(hdr, p, bp) then {hdr[p].ptr} else {};
      && Good(hdr1, free + {bp} - gone, blocks - gone, if TouchesNext(hdr, p, bp) then Reowned(owner, hdr[p].ptr, bp)
         else owner, base, {p})
      && p in hdr1 && bp in hdr1 && hdr1[p] == Header(bp, hdr[p].size)
    ensures TouchesNext(hdr, p, bp) ==> hdr[p].ptr !in {p, bp}
    ensures TouchesPrevious(hdr, p, bp) ==> p != base
  {
    hide Partition, Ring, Reowned;
    Link(hdr, free, blocks, owner, base, p, bp);
    SuccFacts(hdr, free, base, p);
    BlockFacts(hdr, blocks, owner, bp);
    var hdr1, n := Linked(hdr, p, bp), hdr[p].ptr;
    if TouchesNext(hdr, p, bp) {
      Merge(hdr1, free + {bp}, blocks, owner, base, {p, bp}, bp, n);
      assert {p, bp} - {bp} == {p};
    } else {
      Apart(hdr1, free + {bp}, blocks, owner, base, {p, bp}, bp);
      assert {p, bp} - {bp} == {p} && free + {bp} - {} == free + {bp} && blocks - {} == blocks;
    }
  }

  lemma FreePrevious(hdr: Headers, free: set<nat>, blocks: set<nat>, owner: map<nat, nat>, base: nat, p: nat, bp: nat)
    requires Good(hdr, free, blocks, owner, base, {p}) && p in free && p in hdr && bp in hdr && p < bp
      && hdr[p].ptr == bp
    requires TouchesPrevious(hdr, p, bp) ==> p != base
    requires p + hdr[p].size <= bp
    ensures var gone := if TouchesPrevious(hdr, p, bp) then {bp} else {};
      Good(Step2(hdr, p, bp), free - gone, blocks - gone, if TouchesPrevious(hdr, p, bp) then Reowned(owner, bp, p)
          else owner, base, {})
  {
    hide Partition, Ring, Reowned;
    if TouchesPrevious(hdr, p, bp) {
      Merge(hdr, free, blocks, owner, base, {p}, p, bp);
      assert {p} - {p} == {};
    } else {
      Apart(hdr, free, blocks, owner, base, {p}, p);
      assert {p} - {p} == {} && free - {} == free && blocks - {} == blocks;
    }
  }

  /** Freeing a block keeps the heap good: the list stays circular, ordered and fully coalesced. */
  lemma FreeOk(hdr: Headers, free: set<nat>, blocks: set<nat>, owner: map<nat, nat>, base: nat, p: nat, bp: nat)
    requires Good(hdr, free, blocks, owner, base, {}) && bp in blocks && bp !in free && p in free && PlaceOf(hdr, p, bp)
    ensures bp in hdr && hdr[p].ptr in hdr && p in Step1(hdr, p, bp) && bp in Step1(hdr, p, bp)
    ensures var gone := Gone(hdr, p, bp);
      && Good(Step2(Step1(hdr, p, bp), p, bp), free + {bp} - gone, blocks - gone, OwnerAfter(hdr, owner, p, bp),
         base, {})
      && (blocks - gone) - (free + {bp} - gone) == (blocks - free) - {bp} && p in free + {bp} - gone
    ensures var g := if TouchesPrevious(hdr, p, bp) then p else bp;
      g in free + {bp} - Gone(hdr, p, bp) && Size(Step2(Step1(hdr, p, bp), p, bp), g) >= Size(hdr, bp)
  {
    hide Partition, Ring, Reowned, Good;
    FreeNext(hdr, free, blocks, owner, base, p, bp);
    assert p + hdr[p].size <= bp by { Link(hdr, free, blocks, owner, base, p, bp); }
    assert hdr[p].ptr in free by { NextFree(hdr, free, blocks, owner, base, p); }
    var gone := if TouchesNext(hdr, p, bp) then {hdr[p].ptr} else {};
    var hdr1 := Step1(hdr, p, bp);
    FreePrevious(hdr1, free + {bp} - gone, blocks - gone,
        if TouchesNext(hdr, p, bp) then Reowned(owner, hdr[p].ptr, bp) else owner, base, p, bp);
    var gone2 := if TouchesPrevious(hdr, p, bp) then {bp} else {};
    assert Gone(hdr, p, bp) == gone + gone2;
    assert free + {bp} - gone - gone2 == free + {bp} - Gone(hdr, p, bp)
      && blocks - gone - gone2 == blocks - Gone(hdr, p, bp);
    hide Gone;
  }

  lemma NextFree(hdr: Headers, free: set<nat>, blocks: set<nat>, owner: map<nat, nat>, base: nat, p: nat)
    requires Good(hdr, free, blocks, owner, base, {}) && p in free
    ensures p in hdr && hdr[p].ptr in free
  {
    SuccFacts(hdr, free, base, p);
  }

  /** Freeing touches no header of another block in use. */
  lemma FreeFrame(hdr: Headers, free: set<nat>, blocks: set<nat>, owner: map<nat, nat>, base: nat, p: nat, bp: nat,
                  h: nat)
    requires Good(hdr, free, blocks, owner, base, {}) && bp in blocks && bp !in free && p in free && PlaceOf(hdr, p, bp)
    requires h in blocks && h !in free && h != bp
    ensures bp in hdr && hdr[p].ptr in hdr && p in Step1(hdr, p, bp) && bp in Step1(hdr, p, bp)
    ensures h in hdr && h in Step2(Step1(hdr, p, bp), p, bp) && Step2(Step1(hdr, p, bp), p, bp)[h] == hdr[h]
  {
    hide Partition, Ring;
    BlockFacts(hdr, blocks, owner, h);
    BlockFacts(hdr, blocks, owner, bp);
    SuccFacts(hdr, free, base, p);
  }

  // ------------------------------------------------------------------ malloc

  /** The headers after the block `p`, which fits exactly, has left the list behind `prev`. */
  function Unlinked(hdr: Headers, prev: nat, p: nat): Headers
    requires prev in hdr && p in hdr
  {
    hdr[prev := hdr[prev].(ptr := hdr[p].ptr)]
  }

  lemma TakeOk(hdr: Headers, free: set<nat>, blocks: set<nat>, owner: map<nat, nat>, base: nat, prev: nat, p: nat)
    requires Good(hdr, free, blocks, owner, base, {}) && prev in free && prev in hdr && p == hdr[prev].ptr
      && p in hdr && p != base
    ensures Good(Unlinked(hdr, prev, p), free - {p}, blocks, owner, base, {}) && p in blocks && p in free && prev != p
    ensures blocks - (free - {p}) == (blocks - free) + {p}
  {
    hide Partition, Succ, Absorbed;
    SuccFacts(hdr, free, base, prev);
    SuccFacts(hdr, free, base, p);
    assert prev < p;
    MergeRing(hdr, free, base, prev, p);
    SameSizes(hdr, Unlinked(hdr, prev, p), blocks, owner);
    TakeGap(hdr, free, blocks, owner, base, prev, p);
    hide Ring;
  }

  /** With `p` gone from the list, its neighbours are still apart. */
  lemma TakeGap(hdr: Headers, free: set<nat>, blocks: set<nat>, owner: map<nat, nat>, base: nat, prev: nat, p: nat)
    requires Good(hdr, free, blocks, owner, base, {}) && prev in free && prev in hdr && p == hdr[prev].ptr
      && p in hdr && prev < p
    ensures hdr[p].ptr <= prev || prev + Size(hdr, prev) < hdr[p].ptr
  {
    hide Partition, Succ;
    SuccFacts(hdr, free, base, prev);
    SuccFacts(hdr, free, base, p);
  }

  /** The headers after the last `n` units of block `p` have become a block of their own. */
  function Cut(hdr: Headers, p: nat, n: nat): Headers
    requires p in hdr && n <= hdr[p].size
  {
    var q := p + hdr[p].size - n;
    hdr[p := hdr[p].(size := hdr[p].size - n)][q := Header(if q in hdr then hdr[q].ptr else 0, n)]
  }

  ghost function CutOwner(owner: map<nat, nat>, q: nat, p: nat): (r: map<nat, nat>)
    ensures r.Keys == owner.Keys
  {
    map u | u in owner :: if owner[u] == p && u >= q then q else owner[u]
  }

  lemma CutOk(hdr: Headers, free: set<nat>, blocks: set<nat>, owner: map<nat, nat>, base: nat, p: nat, n: nat)
    requires Good(hdr, free, blocks, owner, base, {}) && p in free && p != base && p in hdr && 0 < n < hdr[p].size
    ensures var q := p + hdr[p].size - n;
      && q !in blocks && Good(Cut(hdr, p, n), free, blocks + {q}, CutOwner(owner, q, p), base, {})
      && blocks + {q} - free == (blocks - free) + {q}
  {
    hide Ring, Partition, Succ, CutOwner;
    var q := p + hdr[p].size - n;
    FreshHeader(hdr, blocks, owner, p, q);
    CutRing(hdr, free, blocks, owner, base, p, n);
    CutPartition(hdr, blocks, owner, p, n);
  }

  /** Inside a block there is no other block. */
  lemma FreshHeader(hdr: Headers, blocks: set<nat>, owner: map<nat, nat>, p: nat, q: nat)
    requires Partition(hdr, blocks, owner) && p in blocks && p < q < p + Size(hdr, p)
    ensures q !in blocks
  {
    if q in blocks {
      Disjoint(hdr, blocks, owner, p, q);
    }
  }

  lemma CutRing(hdr: Headers, free: set<nat>, blocks: set<nat>, owner: map<nat, nat>, base: nat, p: nat, n: nat)
    requires Ring(hdr, free, base) && p in free && p != base && p in hdr && 0 < n < hdr[p].size
    requires p + hdr[p].size - n !in free
    ensures Ring(Cut(hdr, p, n), free, base)
  {
    hide Succ;
  }

  lemma CutPartition(hdr: Headers, blocks: set<nat>, owner: map<nat, nat>, p: nat, n: nat)
    requires Partition(hdr, blocks, owner) && p in blocks && p in hdr && 0 < n < hdr[p].size
    requires p + hdr[p].size - n !in blocks
    ensures var q := p + hdr[p].size - n; Partition(Cut(hdr, p, n), blocks + {q}, CutOwner(owner, q, p))
  {
    hide Partition, Cut, CutOwner, Size;
    var q := p + hdr[p].size - n;
    var hdr1, owner1, blocks1 := Cut(hdr, p, n), CutOwner(owner, q, p), blocks + {q};
    CutSizes(hdr, p, n);
    SizeIs(hdr);
    forall u | u in owner1 ensures owner1[u] in blocks1 && owner1[u] <= u < owner1[u] + Size(hdr1, owner1[u]) {
      OwnFacts(hdr, blocks, owner, u);
      CutOwned(owner, q, p, u);
    }
    forall h, u: nat | h in blocks1 && h <= u < h + Size(hdr1, h) ensures u in owner1 && owner1[u] == h {
      CutCover(hdr, blocks, owner, p, n, h, u);
    }
    forall h | h in blocks1 ensures h in hdr1 && Size(hdr1, h) > 0 {
      BlockFacts(hdr, blocks, owner, if h == q then p else h);
    }
    PartitionIs(hdr1, blocks1, owner1);
  }

  lemma OwnFacts(hdr: Headers, blocks: set<nat>, owner: map<nat, nat>, u: nat)
    requires Partition(hdr, blocks, owner) && u in owner
    ensures owner[u] in blocks && owner[u] <= u < owner[u] + Size(hdr, owner[u])
  {
  }

  lemma PartitionIs(hdr: Headers, blocks: set<nat>, owner: map<nat, nat>)
    requires forall h | h in blocks :: h in hdr && Size(hdr, h) > 0
    requires forall u | u in owner :: owner[u] in blocks && owner[u] <= u < owner[u] + Size(hdr, owner[u])
    requires forall h, u: nat | h in blocks && h <= u < h + Size(hdr, h) :: u in owner && owner[u] == h
    ensures Partition(hdr, blocks, owner)
  {
  }

  lemma CutCover(hdr: Headers, blocks: set<nat>, owner: map<nat, nat>, p: nat, n: nat, h: nat, u: nat)
    requires Partition(hdr, blocks, owner) && p in blocks && p in hdr && 0 < n < hdr[p].size
    requires var q := p + hdr[p].size - n; q !in blocks && (h in blocks || h == q)
    requires h <= u < h + Size(Cut(hdr, p, n), h)
    ensures var owner1 := CutOwner(owner, p + hdr[p].size - n, p); u in owner1 && owner1[u] == h
  {
    var q := p + hdr[p].size - n;
    CutSizes(hdr, p, n);
    assert Size(hdr, p) == hdr[p].size;
    hide Cut, Size, CutOwner;
    assert u in owner && owner[u] == if h == q then p else h;
    CutOwned(owner, q, p, u);
  }

  lemma SizeIs(hdr: Headers)
    ensures forall h | h in hdr :: hdr[h].size == Size(hdr, h)
  {
  }

  lemma CutSizes(hdr: Headers, p: nat, n: nat)
    requires p in hdr && 0 < n < hdr[p].size
    ensures var q := p + hdr[p].size - n;
      && (forall h :: Size(Cut(hdr, p, n), h) == if h == q then n else if h == p then hdr[p].size - n else Size(hdr, h))
      && (forall h :: h in Cut(hdr, p, n) <==> h in hdr || h == q)
  {
  }

  lemma CutOwned(owner: map<nat, nat>, q: nat, p: nat, u: nat)
    requires u in owner
    ensures u in CutOwner(owner, q, p) && CutOwner(owner, q, p)[u] == if owner[u] == p && u >= q then q else owner[u]
  {
  }

  /** The new units from `at` on are one more block in use. */
  ghost function ChunkOwner(owner: map<nat, nat>, at: nat, nu: nat): (r: map<nat, nat>)
    ensures forall u :: u in r <==> u in owner || at <= u < at + nu
    ensures forall u | u in r :: r[u] == if at <= u < at + nu then at else owner[u]
  {
    var new1 := Sets.Range(at, at + nu);
    map u: nat | u in owner.Keys + new1 :: if u in new1 then at else owner[u]
  }

  lemma GrowOk(hdr: Headers, free: set<nat>, blocks: set<nat>, owner: map<nat, nat>, base: nat, at: nat, h: Header)
    requires Good(hdr, free, blocks, owner, base, {}) && base < at && (forall u | u in owner :: u < at) && h.size > 0
    ensures Good(hdr[at := h], free, blocks + {at}, ChunkOwner(owner, at, h.size), base, {})
    ensures at !in free && at !in blocks
  {
    hide Partition, Ring, Succ;
    GrowPartition(hdr, blocks, owner, at, h);
    GrowRing(hdr, free, base, at, h);
  }

  lemma GrowPartition(hdr: Headers, blocks: set<nat>, owner: map<nat, nat>, at: nat, h: Header)
    requires Partition(hdr, blocks, owner) && (forall u | u in owner :: u < at) && h.size > 0
    ensures Partition(hdr[at := h], blocks + {at}, ChunkOwner(owner, at, h.size)) && at !in blocks
  {
    hide Partition, ChunkOwner, Size;
    var hdr1, owner1, blocks1 := hdr[at := h], ChunkOwner(owner, at, h.size), blocks + {at};
    forall b | b in blocks ensures b in hdr && Size(hdr, b) > 0 && b < at {
      BlockFacts(hdr, blocks, owner, b);
    }
    assert forall b :: Size(hdr1, b) == if b == at then h.size else Size(hdr, b) by { GrowSizes(hdr, at, h); }
    forall u | u in owner1 ensures owner1[u] in blocks1 && owner1[u] <= u < owner1[u] + Size(hdr1, owner1[u]) {
      if u in owner {
        OwnFacts(hdr, blocks, owner, u);
      }
      ChunkOwned(owner, at, h.size, u);
    }
    forall b, u: nat | b in blocks1 && b <= u < b + Size(hdr1, b) ensures u in owner1 && owner1[u] == b {
      if b != at {
        Covered(hdr, blocks, owner, b, u);
      }
      ChunkOwned(owner, at, h.size, u);
    }
    PartitionIs(hdr1, blocks1, owner1);
  }

  lemma GrowSizes(hdr: Headers, at: nat, h: Header)
    ensures forall b :: Size(hdr[at := h], b) == if b == at then h.size else Size(hdr, b)
  {
    var hdr1 := hdr[at := h];
    forall b ensures Size(hdr1, b) == if b == at then h.size else Size(hdr, b) {
      assert b in hdr1 <==> b == at || b in hdr;
    }
  }

  lemma Covered(hdr: Headers, blocks: set<nat>, owner: map<nat, nat>, b: nat, u: nat)
    requires Partition(hdr, blocks, owner) && b in blocks && b <= u < b + Size(hdr, b)
    ensures u in owner && owner[u] == b
  {
  }

  lemma ChunkKeys(owner: map<nat, nat>, at: nat, nu: nat)
    ensures ChunkOwner(owner, at, nu).Keys == owner.Keys + Sets.Range(at, at + nu)
    ensures forall u | u in ChunkOwner(owner, at, nu) :: u in owner || u < at + nu
  {
  }

  lemma ChunkOwned(owner: map<nat, nat>, at: nat, nu: nat, u: nat)
    ensures u in ChunkOwner(owner, at, nu) <==> u in owner || at <= u < at + nu
    ensures u in ChunkOwner(owner, at, nu) ==>
      ChunkOwner(owner, at, nu)[u] == if at <= u < at + nu then at else owner[u]
  {
  }

  lemma GrowRing(hdr: Headers, free: set<nat>, base: nat, at: nat, h: Header)
    requires Ring(hdr, free, base) && at !in free
    ensures Ring(hdr[at := h], free, base) && base in free
  {
    hide Succ;
  }

  // ------------------------------------------------------ going round the list

  /** How far a walk round the list from `f` has come when it reaches `g`; `f` itself comes last. */
  ghost function Dist(f: nat, g: nat): nat
    requires f < LIMIT
  {
    if g > f then g - f else g + LIMIT - f
  }

  /** Every step goes further, and skips no free block. */
  lemma RingStep(hdr: Headers, free: set<nat>, base: nat, f: nat, p: nat, g: nat)
    requires Ring(hdr, free, base) && f in free && p in free && g in free && forall x | x in free :: x < LIMIT
    ensures p in hdr && hdr[p].ptr in free
    ensures p == f ==> Dist(f, hdr[p].ptr) <= Dist(f, g)
    ensures p != f ==>
      Dist(f, p) < Dist(f, hdr[p].ptr) && (Dist(f, g) < Dist(f, hdr[p].ptr) ==> g == p || Dist(f, g) < Dist(f, p))
  {
    var n := hdr[p].ptr;
    assert Succ(free, base, p, n) && base <= g && base <= f;
    assert p < n ==> (g <= p || n <= g) && (f <= p || n <= f);
    assert n <= p ==> n == base && g <= p && f <= p;
  }

  /** All free blocks that a walk from `f` meets before `p` are too small. */
  ghost predicate TooSmall(hdr: Headers, free: set<nat>, f: nat, p: nat, n: nat)
    requires f < LIMIT
  {
    forall g | g in free && Dist(f, g) < Dist(f, p) :: Size(hdr, g) < n
  }

  /** The first block that fits, on a walk from `f`. */
  ghost predicate FirstFit(hdr: Headers, free: set<nat>, f: nat, p: nat, n: nat) {
    f < LIMIT && p in free && Size(hdr, p) >= n && TooSmall(hdr, free, f, p, n)
  }

  /** The heap has grown by exactly the units from `lo` up to `hi`. */
  ghost predicate Acquired(before: set<nat>, after: set<nat>, lo: int, hi: int) {
    0 <= lo <= hi && after == before + Sets.Range(lo, hi)
  }

  ghost predicate Fits(hdr: Headers, free: set<nat>, n: nat) {
    exists g :: g in free && Size(hdr, g) >= n
  }

  lemma WalkStart(hdr: Headers, free: set<nat>, base: nat, f: nat, n: nat)
    requires Ring(hdr, free, base) && f in free && forall g | g in free :: g < LIMIT
    ensures f in hdr && hdr[f].ptr in free && TooSmall(hdr, free, f, hdr[f].ptr, n)
  {
    hide Ring;
    RingStep(hdr, free, base, f, f, f);
    forall g | g in free ensures Dist(f, hdr[f].ptr) <= Dist(f, g) {
      RingStep(hdr, free, base, f, f, g);
    }
  }

  lemma WalkStep(hdr: Headers, free: set<nat>, base: nat, f: nat, p: nat, n: nat)
    requires Ring(hdr, free, base) && f in free && p in free && (forall g | g in free :: g < LIMIT) && p != f
    requires TooSmall(hdr, free, f, p, n) && Size(hdr, p) < n
    ensures p in hdr && hdr[p].ptr in free && TooSmall(hdr, free, f, hdr[p].ptr, n)
      && Dist(f, p) < Dist(f, hdr[p].ptr) <= LIMIT
  {
    hide Ring;
    RingStep(hdr, free, base, f, p, p);
    forall g | g in free && Dist(f, g) < Dist(f, hdr[p].ptr) ensures Size(hdr, g) < n {
      RingStep(hdr, free, base, f, p, g);
    }
  }

  lemma WalkEnd(hdr: Headers, free: set<nat>, f: nat, n: nat)
    requires (forall g | g in free :: g < LIMIT) && f in free && TooSmall(hdr, free, f, f, n) && Size(hdr, f) < n
    ensures !Fits(hdr, free, n)
  {
    forall g | g in free ensures Size(hdr, g) < n {
      assert g != f ==> Dist(f, g) < Dist(f, f);
    }
  }

  lemma BelowBreak(hdr: Headers, free: set<nat>, blocks: set<nat>, owner: map<nat, nat>, base: nat, brk: nat)
    requires Good(hdr, free, blocks, owner, base, {}) && base < brk && forall u | u in owner :: u < brk
    ensures forall g | g in free :: g < brk
  {
    forall g | g in free && g != base ensures g < brk {
      BlockFacts(hdr, blocks, owner, g);
      assert g in owner;
    }
  }

  /**
   The system's answer to sbrk: refusal, or memory that starts `gap` units above the break, which
   others may have moved.
   */
  datatype Grant = NoMemory | Memory(gap: nat)

  class Allocator {
    const base: nat         // the static header `base`, below the heap
    var hdr: Headers        // the headers in memory
    var freep: nat
    var brk: nat            // the break, in units
    ghost var free: set<nat>
    ghost var blocks: set<nat>
    ghost var owner: map<nat, nat>

    ghost predicate Valid()
      reads this
    {
      && 0 < base < brk < LIMIT
      && (freep == 0 ==> free == {} && blocks == {} && owner == map[])
      && (freep != 0 ==> Good(hdr, free, blocks, owner, base, {}) && freep in free && forall u | u in owner :: u < brk)
    }

    /** The headers of the blocks in use. */
    ghost function Live(): set<nat>
      reads this
    {
      blocks - free
    }

    /** Whether sbrk grants `nu` units. */
    predicate Granted(grant: Grant, nu: nat)
      reads this
    {
      grant.Memory? && brk + grant.gap + nu < LIMIT
    }

    constructor (base: nat, brk: nat)
      requires 0 < base < brk < LIMIT
      ensures Valid() && Live() == {} && owner == map[] && this.base == base && this.brk == brk
    {
      this.base, this.brk, hdr, freep := base, brk, map[], 0;
      free, blocks, owner := {}, {}, map[];
    }

    /** free */
    method Free(ap: nat)
      requires Valid() && ap > 0 && ap - 1 in Live()
      modifies this`hdr, this`freep, this`free, this`blocks, this`owner
      ensures Valid() && freep != 0 && Live() == old(Live()) - {ap - 1} && owner.Keys == old(owner.Keys)
      ensures forall h | h in Live() :: h in hdr && h in old(hdr) && hdr[h] == old(hdr[h])
      ensures Fits(hdr, free, Size(old(hdr), ap - 1))
      ensures freep in old(free) && PlaceOf(old(hdr), freep, ap - 1)
    {
      hide Good, Ring, Partition, Succ;
      var bp := ap - 1;
      var p := Find(bp);
      FreeOk(hdr, free, blocks, owner, base, p, bp);
      ghost var h0, free0, blocks0 := hdr, free, blocks;
      var n := hdr[p].ptr;
      if bp + hdr[bp].size == n {
        hdr := hdr[bp := Header(hdr[n].ptr, hdr[bp].size + hdr[n].size)];
      } else {
        hdr := hdr[bp := hdr[bp].(ptr := n)];
      }
      if p + hdr[p].size == bp {
        hdr := hdr[p := Header(hdr[bp].ptr, hdr[p].size + hdr[bp].size)];
      } else {
        hdr := hdr[p := hdr[p].(ptr := bp)];
      }
      freep := p;
      assert hdr == Step2(Step1(h0, p, bp), p, bp);
      forall h | h in blocks && h !in free && h != bp ensures h in hdr && h in h0 && hdr[h] == h0[h] {
        FreeFrame(h0, free, blocks, owner, base, p, bp, h);
      }
      owner := OwnerAfter(h0, owner, p, bp);
      assert owner.Keys == old(owner).Keys;
      assert forall u :: u in owner <==> u in old(owner);
      free, blocks := free + {bp} - Gone(h0, p, bp), blocks - Gone(h0, p, bp);
    }

    /** The loop of free: the free block behind which `bp` belongs. */
    method Find(bp: nat) returns (p: nat)
      requires Valid() && bp in Live()
      ensures p in free && base <= p && PlaceOf(hdr, p, bp)
    {
      hide Partition, Ring, Succ;
      BelowBreak(hdr, free, blocks, owner, base, brk);
      p := freep;
      SuccFacts(hdr, free, base, p);
      while !(bp > p && bp < hdr[p].ptr)
        invariant p in free && p in hdr && base <= p
        decreases if p > bp then 1 else 0, brk - p
      {
        SuccFacts(hdr, free, base, p);
        if p >= hdr[p].ptr && (bp > p || bp < hdr[p].ptr) {
          break;
        }
        p := hdr[p].ptr;
      }
    }

    /** morecore: 0, or the new free pointer. */
    method Morecore(nu0: nat, grant: Grant) returns (p: nat)
      requires Valid() && freep != 0
      modifies this`hdr, this`freep, this`free, this`blocks, this`owner, this`brk
      ensures Valid() && freep != 0 && Live() == old(Live())
      ensures forall h | h in Live() :: h in hdr && h in old(hdr) && hdr[h] == old(hdr[h])
      ensures p == 0 <==> !old(Granted(grant, CoreUnits(nu0)))
      ensures p == 0 ==>
        hdr == old(hdr) && free == old(free) && owner == old(owner) && freep == old(freep) && brk == old(brk)
      ensures p != 0 ==> p == freep && Fits(hdr, free, CoreUnits(nu0))
      ensures p != 0 ==> brk == old(brk) + grant.gap + CoreUnits(nu0)
      ensures p != 0 ==> Acquired(old(owner.Keys), owner.Keys, brk - CoreUnits(nu0), brk)
    {
      hide Good, Ring, Partition, Succ, Acquired;
      LiveHeaders();
      var nu := nu0;
      if nu < BATCH {
        nu := BATCH;
      }
      if !Granted(grant, nu) {
        return 0;
      }
      var at := brk + grant.gap;
      Extend(at, nu);
      Free(at + 1);
      p := freep;
    }

    /** The memory from `at` on becomes one block, as morecore sets it up for free. */
    method Extend(at: nat, nu: nat)
      requires Valid() && freep != 0 && brk <= at && 0 < nu && at + nu < LIMIT
      modifies this`hdr, this`blocks, this`owner, this`brk
      ensures Valid() && brk == at + nu && at !in old(Live()) && Live() == old(Live()) + {at} && Size(hdr, at) == nu
      ensures Acquired(old(owner.Keys), owner.Keys, at, at + nu)
      ensures forall h | h in old(Live()) :: h in hdr && h in old(hdr) && hdr[h] == old(hdr[h])
    {
      hide Good, Ring, Partition, Succ, ChunkOwner, Sets.Range;
      GrowOk(hdr, free, blocks, owner, base, at, Header(if at in hdr then hdr[at].ptr else 0, nu));
      LiveHeaders();
      ChunkKeys(owner, at, nu);
      brk := at + nu;
      hdr := hdr[at := Header(if at in hdr then hdr[at].ptr else 0, nu)];
      blocks, owner := blocks + {at}, ChunkOwner(owner, at, nu);
    }

    lemma LiveHeaders()
      requires Valid()
      ensures forall h | h in Live() :: h in hdr && h < brk && h != 0
    {
      hide Ring, Succ, Partition;
      forall h | h in Live() ensures h in hdr && h < brk && h != 0 {
        BlockFacts(hdr, blocks, owner, h);
      }
    }

    /**
     malloc: 0, or the address behind the header of a block of exactly `Units(nbytes)`
     units, wherever sbrk gets the right number. The block is large enough if and only
     if the request does not wrap.
     */
    method Malloc(nbytes: nat, grant: Grant) returns (r: nat)
      requires Valid() && nbytes < UINT && SbrkRight(nbytes)
      modifies this`hdr, this`freep, this`free, this`blocks, this`owner, this`brk
      ensures Valid() && freep != 0
      ensures forall h | h in old(Live()) :: h in hdr && h in old(hdr) && hdr[h] == old(hdr[h])
      ensures r != 0 ==> ((Size(hdr, r - 1) - 1) * HEADER >= nbytes <==> nbytes <= MAXREQUEST)
      ensures r != 0 ==> r - 1 !in old(Live()) && Live() == old(Live()) + {r - 1} && Size(hdr, r - 1) == Units(nbytes)
      ensures r == 0 ==> Live() == old(Live()) && owner == old(owner) && brk == old(brk)
      ensures r == 0 <==> !old(Fits(hdr, free, Units(nbytes))) && !old(Granted(grant, CoreUnits(Units(nbytes))))
      ensures old(Fits(hdr, free, Units(nbytes))) ==> owner.Keys == old(owner.Keys) && brk == old(brk)
      ensures old(Fits(hdr, free, Units(nbytes))) ==> exists g: nat ::
        FirstFit(old(hdr), old(free), old(freep), g, Units(nbytes)) && r + Units(nbytes) == g + Size(old(hdr), g) + 1
        && freep in old(hdr) && old(hdr)[freep].ptr == g
      ensures r != 0 && !old(Fits(hdr, free, Units(nbytes))) ==>
        && brk == old(brk) + grant.gap + CoreUnits(Units(nbytes))
        && Acquired(old(owner.Keys), owner.Keys, brk - CoreUnits(Units(nbytes)), brk)
    {
      hide Good, Ring, Partition, Succ, TooSmall, Fits, Acquired;
      AdequateIff(nbytes);
      SbrkRightIff(nbytes);
      hide Units;
      LiveHeaders();
      var nunits := Units(nbytes);
      if freep == 0 {
        Init(nunits);
      }
      var prevp := freep;
      var p := First(nunits);
      ghost var grown := false;
      while true
        invariant Valid() && freep != 0 && prevp in free && p in free && prevp in hdr && p in hdr && hdr[prevp].ptr == p
        invariant forall g | g in free :: g < LIMIT
        invariant TooSmall(hdr, free, freep, p, nunits)
        invariant Live() == old(Live()) && forall h | h in Live() :: h in hdr && h in old(hdr) && hdr[h] == old(hdr[h])
        invariant !grown ==> owner == old(owner) && brk == old(brk)
        invariant !grown && old(freep) != 0 ==> hdr == old(hdr) && free == old(free) && freep == old(freep)
        invariant !grown && old(freep) == 0 ==>
          free == {freep} && !Fits(hdr, free, nunits) && !old(Fits(hdr, free, nunits))
        invariant grown ==>
          Fits(hdr, free, nunits) && !old(Fits(hdr, free, nunits)) && old(Granted(grant, CoreUnits(nunits)))
        invariant grown ==> brk == old(brk) + grant.gap + CoreUnits(nunits)
        invariant grown ==> Acquired(old(owner.Keys), owner.Keys, brk - CoreUnits(nunits), brk)
        decreases if grown then 0 else 1, LIMIT - Dist(freep, p)
      {
        if hdr[p].size >= nunits {
          FitsBy(hdr, free, p, nunits);
          r := Take(prevp, p, nunits);
          return;
        }
        if p == freep {
          WalkEnd(hdr, free, freep, nunits);
          p := Morecore(nunits, grant);
          if p == 0 {
            return 0;
          }
          grown := true;
          FitsLess(hdr, free, CoreUnits(nunits), nunits);
          prevp := p;
          p := First(nunits);
        } else {
          prevp := p;
          p := Following(p, nunits);
        }
      }
    }

    lemma FitsBy(hdr: Headers, free: set<nat>, g: nat, n: nat)
      requires g in free && Size(hdr, g) >= n
      ensures Fits(hdr, free, n)
    {
    }

    lemma FitsLess(hdr: Headers, free: set<nat>, m: nat, n: nat)
      requires Fits(hdr, free, m) && n <= m
      ensures Fits(hdr, free, n)
    {
    }

    /** `freep->s.ptr`, where a walk begins. */
    method First(n: nat) returns (p: nat)
      requires Valid() && freep != 0
      ensures freep in free && freep in hdr && p == hdr[freep].ptr && p in free && p in hdr
        && (forall g | g in free :: g < LIMIT)
      ensures TooSmall(hdr, free, freep, p, n)
    {
      hide Ring, Partition, Succ, TooSmall;
      BelowBreak(hdr, free, blocks, owner, base, brk);
      WalkStart(hdr, free, base, freep, n);
      SuccFacts(hdr, free, base, freep);
      p := hdr[freep].ptr;
    }

    /** `p->s.ptr`, the next block of the walk. */
    method Following(p: nat, n: nat) returns (q: nat)
      requires Valid() && freep != 0 && freep in free && p in free && forall g | g in free :: g < LIMIT
      requires p != freep && TooSmall(hdr, free, freep, p, n) && Size(hdr, p) < n
      ensures p in hdr && q == hdr[p].ptr && q in free && q in hdr
      ensures TooSmall(hdr, free, freep, q, n) && Dist(freep, p) < Dist(freep, q) <= LIMIT
    {
      hide Ring, Partition, Succ, TooSmall;
      WalkStep(hdr, free, base, freep, p, n);
      SuccFacts(hdr, free, base, p);
      q := hdr[p].ptr;
    }

    /** The block found: the whole of it, or its last `n` units. */
    method Take(prevp: nat, p: nat, n: nat) returns (r: nat)
      requires Valid() && freep != 0 && prevp in free && prevp in hdr && p == hdr[prevp].ptr && p in free && p in hdr
      requires 0 < n <= hdr[p].size
      modifies this`hdr, this`freep, this`free, this`blocks, this`owner
      ensures Valid() && freep != 0 && owner.Keys == old(owner.Keys)
      ensures r + n == p + old(hdr[p].size) + 1 && r != 0 && freep == prevp
      ensures r - 1 !in old(Live()) && Live() == old(Live()) + {r - 1} && Size(hdr, r - 1) == n
      ensures forall h | h in old(Live()) :: h in hdr && h in old(hdr) && hdr[h] == old(hdr[h])
    {
      hide Ring, Partition, Succ, CutOwner;
      LiveHeaders();
      SuccFacts(hdr, free, base, prevp);
      if hdr[p].size == n {
        TakeOk(hdr, free, blocks, owner, base, prevp, p);
        hdr := hdr[prevp := hdr[prevp].(ptr := hdr[p].ptr)];
        free := free - {p};
        r := p + 1;
      } else {
        CutOk(hdr, free, blocks, owner, base, p, n);
        ghost var q := p + hdr[p].size - n;
        r := p + hdr[p].size - n + 1;
        hdr := Cut(hdr, p, n);
        blocks, owner := blocks + {q}, CutOwner(owner, q, p);
      }
      freep := prevp;
    }

    /** The first call finds an empty list and makes `base` its only element. */
    method Init(n: nat)
      requires Valid() && freep == 0 && n > 0
      modifies this`hdr, this`freep, this`free
      ensures Valid() && freep == base && free == {base} && Live() == {} && owner == map[] && !Fits(hdr, free, n)
        && !old(Fits(hdr, free, n))
    {
      hdr := hdr[base := Header(base, 0)];
      freep, free := base, {base};
    }

    /** The units of the given blocks. */
    ghost function UnitsOf(bs: set<nat>): set<nat>
      reads this
    {
      set u | u in owner && owner[u] in bs
    }

    /** Free and used units add up to the units obtained from sbrk, and a block has the units its header says. */
    lemma Conservation()
      requires Valid()
      ensures |UnitsOf(free)| + |UnitsOf(Live())| == |owner|
      ensures forall h | h in blocks ::
        h in hdr && UnitsOf({h}) == Sets.Range(h, h + hdr[h].size) && |UnitsOf({h})| == hdr[h].size
    {
      hide *;
      AllUnits();
      Sets.DisjointSize(UnitsOf(free), UnitsOf(Live()));
      forall h | h in blocks ensures h in hdr && UnitsOf({h}) == Sets.Range(h, h + hdr[h].size)
        && |UnitsOf({h})| == hdr[h].size {
        BlockUnits(h);
        RangeSize(h, hdr[h].size);
      }
    }

    lemma RangeSize(a: nat, n: nat)
      ensures |Sets.Range(a, a + n)| == n
    {
    }

    lemma AllUnits()
      requires Valid()
      ensures owner.Keys == UnitsOf(free) + UnitsOf(Live()) && UnitsOf(free) !! UnitsOf(Live())
        && |owner| == |owner.Keys|
    {
      hide Ring, Succ, Partition;
      forall u | u in owner ensures owner[u] in blocks {
        OwnFacts(hdr, blocks, owner, u);
      }
    }

    lemma BlockUnits(h: nat)
      requires Valid() && h in blocks
      ensures h in hdr && UnitsOf({h}) == Sets.Range(h, h + hdr[h].size)
    {
      hide Ring, Succ, Partition, Sets.Range;
      BlockFacts(hdr, blocks, owner, h);
      forall u: nat ensures u in UnitsOf({h}) <==> h <= u < h + hdr[h].size {
        if u in owner {
          OwnFacts(hdr, blocks, owner, u);
        }
        if h <= u < h + hdr[h].size {
          Covered(hdr, blocks, owner, h, u);
        }
      }
    }

    /** Different blocks in use never share a unit, and none reaches beyond the break or below the heap. */
    lemma LiveApart(g: nat, h: nat)
      requires Valid() && g in Live() && h in Live() && g < h
      ensures g in hdr && h in hdr && base < g && g + hdr[g].size <= h && h + hdr[h].size <= brk
    {
      hide Ring, Succ, Partition;
      BlockFacts(hdr, blocks, owner, g);
      BlockFacts(hdr, blocks, owner, h);
      Disjoint(hdr, blocks, owner, g, h);
      Covered(hdr, blocks, owner, h, h + hdr[h].size - 1);
    }
  }
}
