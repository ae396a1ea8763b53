/** The arena heap of kernel/memory.c (block_init, arena2block, block2arena, sys_malloc, sys_free) as
    functions on its state, for one pool.  Pointers are byte addresses; an arena is named by its page. */
module Heap {
  import opened Bits
  import opened Pages

  const CLASSES: nat := 7   // DESC_CNT
  const HEADER: nat := 12   // sizeof(struct arena)
  const PAGE: nat := 4096   // PG_SIZE

  // block_init: class c holds blocks of 16 * 2^c bytes
  function BlockSize(c: nat): nat
    requires c < CLASSES
  {
    if c == 0 then 16 else if c == 1 then 32 else if c == 2 then 64 else if c == 3 then 128
    else if c == 4 then 256 else if c == 5 then 512 else 1024
  }

  function PerArena(c: nat): nat
    requires c < CLASSES
  {
    (PAGE - HEADER) / BlockSize(c)
  }

  // the loop of sys_malloc that looks for the block size
  function ClassFor(size: nat, c: nat): nat
    requires c <= CLASSES
    decreases CLASSES - c
  {
    if c < CLASSES && size > BlockSize(c) then ClassFor(size, c + 1) else c
  }

  // arena2block
  function BlockAddr(p: nat, c: nat, i: nat): nat
    requires c < CLASSES
  {
    p * PAGE + HEADER + i * BlockSize(c)
  }

  // block2arena, as a page number
  function ArenaOf(b: nat): nat { b / PAGE }

  function Blocks(p: nat, c: nat): (r: seq<nat>)
    requires c < CLASSES
    ensures |r| == PerArena(c)
  {
    seq(PerArena(c), i requires 0 <= i < PerArena(c) => BlockAddr(p, c, i))
  }

  datatype Arena = Arena(cls: nat, large: bool, cnt: nat)
  {
    function Span(): nat { if large then cnt else 1 }
  }

  // `live` records the pointers handed out and the sizes asked for, `held` how often the pool's lock is
  // held by the caller beyond its depth at the start.
  datatype Heap = Heap(free: seq<seq<nat>>, arenas: map<nat, Arena>, live: map<nat, nat>, mem: Mem, held: nat)

  // ---------- operations ----------

  // Stop: an ASSERT fires, or memory that holds no arena header is used as one; Wild: frame 0 is used as
  // a page table
  datatype Result = Ptr(p: nat, h: Heap) | Null(h: Heap) | Stop | Wild

  // pages a request above 1024 bytes takes
  function LargePages(size: nat): nat {
    (size + HEADER + PAGE - 1) / PAGE
  }

  function LargeAlloc(L: Layout, pf: Pf, h: Heap, size: nat): Result {
    var n := LargePages(size);
    match MallocPage(L, h.mem, pf, n)
    case Got(p, m) =>
      Ptr(p * PAGE + HEADER,
          h.(mem := m, arenas := h.arenas[p := Arena(0, true, n)], live := h.live[p * PAGE + HEADER := size],
             held := h.held + 1))
    case NoPages(m, _) => Null(h.(mem := m))
    case PageHalt => Stop
    case PageWild => Wild
  }

  datatype Refilled = Ready(h: Heap) | NoArena(h: Heap) | RefillStop | RefillWild

  // a new arena when the class has no free block
  function Refill(L: Layout, pf: Pf, h: Heap, c: nat): Refilled
    requires c < CLASSES && |h.free| == CLASSES
  {
    if h.free[c] != [] then Ready(h)
    else
      match MallocPage(L, h.mem, pf, 1)
      case Got(p, m) =>
        Ready(h.(mem := m, arenas := h.arenas[p := Arena(c, false, PerArena(c))], free := h.free[c := Blocks(p, c)]))
      case NoPages(m, _) => NoArena(h.(mem := m))
      case PageHalt => RefillStop
      case PageWild => RefillWild
  }

  // the first block of the free list leaves it
  function Pop(h: Heap, c: nat, size: nat): Heap
    requires c < |h.free| && h.free[c] != []
    requires ArenaOf(h.free[c][0]) in h.arenas && h.arenas[ArenaOf(h.free[c][0])].cnt >= 1
  {
    var b := h.free[c][0];
    var a := h.arenas[ArenaOf(b)];
    h.(free := h.free[c := h.free[c][1..]], arenas := h.arenas[ArenaOf(b) := a.(cnt := a.cnt - 1)],
       live := h.live[b := size])
  }

  function SysMalloc(L: Layout, pf: Pf, h: Heap, size: nat): Result
    requires |h.free| == CLASSES
  {
    if !(0 < size < L.PoolBytes(pf)) then Null(h)
    else if size > 1024 then LargeAlloc(L, pf, h, size)
    else
      var c := ClassFor(size, 0);
      if c == CLASSES then Stop
      else
        match Refill(L, pf, h, c)
        case Ready(h1) =>
          if h1.free[c] == [] || ArenaOf(h1.free[c][0]) !in h1.arenas
             || h1.arenas[ArenaOf(h1.free[c][0])].cnt == 0 then Stop
          else Ptr(h1.free[c][0], Pop(h1, c, size))
        case NoArena(h1) => Null(h1)
        case RefillStop => Stop
        case RefillWild => Wild
  }

  // the list without the elements of X
  function Drop(s: seq<nat>, X: set<nat>): seq<nat> {
    if s == [] then [] else if s[0] in X then Drop(s[1..], X) else [s[0]] + Drop(s[1..], X)
  }

  // the loop of sys_free that takes an arena's blocks off the list; None is its elem_find assertion
  function Unlink(s: seq<nat>, blocks: seq<nat>): Option<seq<nat>>
    decreases |blocks|
  {
    if blocks == [] then Some(s)
    else if blocks[0] !in s then None
    else Unlink(Drop(s, {blocks[0]}), blocks[1..])
  }

  // mfree_page of an arena that leaves the heap
  function ReleaseArena(L: Layout, pf: Pf, h: Heap, p: nat): Option<Heap>
    requires p in h.arenas
  {
    match MFreePage(L, h.mem, pf, p, h.arenas[p].Span())
    case Done(m) => Some(h.(mem := m, arenas := h.arenas - {p}))
    case _ => None
  }

  // a small block goes back on its list
  function Push(h: Heap, b: nat): Heap
    requires ArenaOf(b) in h.arenas && h.arenas[ArenaOf(b)].cls < |h.free|
  {
    var a := h.arenas[ArenaOf(b)];
    h.(free := h.free[a.cls := h.free[a.cls] + [b]], arenas := h.arenas[ArenaOf(b) := a.(cnt := a.cnt + 1)],
       live := h.live - {b})
  }

  function SysFree(L: Layout, pf: Pf, h: Heap, b: nat): Option<Heap>
    requires |h.free| == CLASSES
  {
    var p := ArenaOf(b);
    if p !in h.arenas || (pf.Kernel? && p < L.kStart) then None
    else if h.arenas[p].large then ReleaseArena(L, pf, h.(live := h.live - {b}), p)
    else if h.arenas[p].cls >= CLASSES then None
    else
      var c := h.arenas[p].cls;
      var h1 := Push(h, b);
      if h1.arenas[p].cnt != PerArena(c) then Some(h1)
      else
        match Unlink(h1.free[c], Blocks(p, c))
        case None => None
        case Some(rest) => ReleaseArena(L, pf, h1.(free := h1.free[c := rest]), p)
  }

  // ---------- what a caller can tell before sys_malloc ----------

  // pages the request takes from malloc_page
  function PagesFor(h: Heap, size: nat): nat
    requires |h.free| == CLASSES
  {
    if size > 1024 then LargePages(size)
    else if ClassFor(size, 0) < CLASSES && h.free[ClassFor(size, 0)] == [] then 1
    else 0
  }

  predicate NeedsPages(L: Layout, pf: Pf, h: Heap, size: nat)
    requires |h.free| == CLASSES
  {
    0 < size < L.PoolBytes(pf) && PagesFor(h, size) != 0
  }

  // an assertion refuses the request: it needs 3840 pages or more, or vaddr_get's bound on user addresses fires
  predicate Refused(L: Layout, pf: Pf, h: Heap, size: nat)
    requires |h.free| == CLASSES
  {
    NeedsPages(L, pf, h, size) && (PagesFor(h, size) >= 3840 || LastUserPage(L, h.mem, pf, PagesFor(h, size)))
  }

  // a page table is needed for it while the kernel pool has no frame
  predicate Misses(L: Layout, pf: Pf, h: Heap, size: nat)
    requires |h.free| == CLASSES
  {
    NeedsPages(L, pf, h, size) && TableMissed(L, h.mem, pf, PagesFor(h, size))
  }

  // there is a block on the list, or a run of pages with frames for them and their page tables
  predicate Served(L: Layout, pf: Pf, h: Heap, size: nat)
    requires |h.free| == CLASSES
  {
    0 < size < L.PoolBytes(pf) && (PagesFor(h, size) == 0 || Granted(L, h.mem, pf, PagesFor(h, size)))
  }

  // there is a run of virtual pages, but too few frames
  predicate RunsShort(L: Layout, pf: Pf, h: Heap, size: nat)
    requires |h.free| == CLASSES
  {
    NeedsPages(L, pf, h, size) && Exhausted(L, h.mem, pf, PagesFor(h, size))
  }

  // ---------- the heap invariant ----------

  ghost predicate NoDup(s: seq<nat>) {
    forall i, j :: 0 <= i < j < |s| ==> s[i] != s[j]
  }

  // b is a block of a live arena of class c
  ghost predicate IsBlock(arenas: map<nat, Arena>, c: nat, b: nat)
    requires c < CLASSES
  {
    && ArenaOf(b) in arenas && !arenas[ArenaOf(b)].large && arenas[ArenaOf(b)].cls == c
    && b in Blocks(ArenaOf(b), c)
  }

  ghost function FreeIn(s: seq<nat>, p: nat): set<nat> {
    set b | b in s && ArenaOf(b) == p
  }

  // page u belongs to the arena that starts at page p
  predicate InArena(arenas: map<nat, Arena>, p: nat, u: nat) {
    p in arenas && p <= u < p + arenas[p].Span()
  }

  ghost predicate ArenasOk(L: Layout, pf: Pf, arenas: map<nat, Arena>, m: Mem) {
    && (forall p :: p in arenas ==> ArenaOk(arenas[p]))
    && (forall p, u :: InArena(arenas, p, u) ==> m.Present(u) && L.Side(u) == pf)
    && (forall p, q, u :: InArena(arenas, p, u) && InArena(arenas, q, u) ==> p == q)
  }

  ghost predicate ArenaOk(a: Arena) {
    if a.large then a.cnt >= 1 else a.cls < CLASSES && a.cnt <= PerArena(a.cls)
  }

  // each free list: no duplicates, exactly the blocks not handed out
  ghost predicate FreeOk(h: Heap) {
    && |h.free| == CLASSES
    && (forall c :: 0 <= c < CLASSES ==> NoDup(h.free[c]))
    && (forall c, b: nat :: 0 <= c < CLASSES ==> (b in h.free[c] <==> IsBlock(h.arenas, c, b) && b !in h.live))
  }

  ghost predicate CountsOk(h: Heap)
    requires |h.free| == CLASSES
  {
    forall p :: p in h.arenas && !h.arenas[p].large && h.arenas[p].cls < CLASSES ==>
      h.arenas[p].cnt == |FreeIn(h.free[h.arenas[p].cls], p)|
  }

  // a handed-out pointer is a block of a small arena, or the space behind the header of a large one, and
  // it is big enough for what was asked
  ghost predicate LiveFits(h: Heap, b: nat)
    requires b in h.live
  {
    && ArenaOf(b) in h.arenas
    && var a := h.arenas[ArenaOf(b)];
    && h.live[b] >= 1
    && if a.large then b == ArenaOf(b) * PAGE + HEADER && HEADER + h.live[b] <= a.cnt * PAGE
       else a.cls < CLASSES && b in Blocks(ArenaOf(b), a.cls) && h.live[b] <= BlockSize(a.cls)
  }

  ghost predicate LiveOk(h: Heap) {
    && (forall b :: b in h.live ==> LiveFits(h, b))
    && (forall p :: p in h.arenas && h.arenas[p].large ==> p * PAGE + HEADER in h.live)
  }

  // the invariant with arena q (if any) allowed to be full
  ghost predicate Core(L: Layout, pf: Pf, h: Heap, full: set<nat>) {
    && PageInv(L, h.mem) && ArenasOk(L, pf, h.arenas, h.mem)
    && FreeOk(h) && CountsOk(h) && LiveOk(h)
    && (forall p :: p in h.arenas && !h.arenas[p].large && p !in full ==> h.arenas[p].cnt < PerArena(h.arenas[p].cls))
  }

  ghost predicate HeapInv(L: Layout, pf: Pf, h: Heap) {
    Core(L, pf, h, {})
  }

  // the pages the heap owns
  function Owned(arenas: map<nat, Arena>): (r: set<nat>)
    ensures forall u :: u in r <==> exists p :: InArena(arenas, p, u)
  {
    set p, u | p in arenas && u in Run(p, arenas[p].Span()) && InArena(arenas, p, u) :: u
  }

  // ---------- blocks ----------

  lemma BlockFacts(p: nat, c: nat, i: nat)
    requires c < CLASSES && i < PerArena(c)
    ensures ArenaOf(BlockAddr(p, c, i)) == p
    ensures p * PAGE + HEADER <= BlockAddr(p, c, i)
    ensures BlockAddr(p, c, i) + BlockSize(c) <= (p + 1) * PAGE
  {
    BlockOffset(c, i);
  }

  lemma BlockOffset(c: nat, i: nat)
    requires c < CLASSES && i < PerArena(c)
    ensures 0 <= i * BlockSize(c) && HEADER + i * BlockSize(c) + BlockSize(c) <= PAGE
  {
    var k := BlockSize(c);
    assert (i + 1) * k <= PerArena(c) * k;
    assert PerArena(c) * k <= PAGE - HEADER;
  }

  lemma BlocksApart(p: nat, c: nat, i: nat, j: nat)
    requires c < CLASSES && i < j
    ensures BlockAddr(p, c, i) + BlockSize(c) <= BlockAddr(p, c, j)
  {
    var k := BlockSize(c);
    assert i * k + k == (i + 1) * k <= j * k;
  }

  lemma BlocksFacts(p: nat, c: nat)
    requires c < CLASSES
    ensures NoDup(Blocks(p, c))
    ensures forall b :: b in Blocks(p, c) ==> ArenaOf(b) == p
  {
    forall i, j | 0 <= i < j < |Blocks(p, c)|
      ensures Blocks(p, c)[i] != Blocks(p, c)[j]
    {
      BlocksApart(p, c, i, j);
    }
    forall b | b in Blocks(p, c)
      ensures ArenaOf(b) == p
    {
      var i :| 0 <= i < PerArena(c) && b == BlockAddr(p, c, i);
      BlockFacts(p, c, i);
    }
  }

  // the class chosen by the search loop is the smallest that is big enough
  lemma ClassForFits(size: nat)
    requires 0 < size <= 1024
    ensures ClassFor(size, 0) < CLASSES && size <= BlockSize(ClassFor(size, 0))
    ensures forall d :: 0 <= d < ClassFor(size, 0) ==> BlockSize(d) < size
  {
    ClassForFrom(size, 0);
  }

  lemma ClassForFrom(size: nat, c: nat)
    requires 0 < size <= 1024 && c < CLASSES
    requires forall d :: 0 <= d < c ==> BlockSize(d) < size
    ensures ClassFor(size, c) < CLASSES && size <= BlockSize(ClassFor(size, c))
    ensures forall d :: 0 <= d < ClassFor(size, c) ==> BlockSize(d) < size
    decreases CLASSES - c
  {
    if size > BlockSize(c) {
      ClassForFrom(size, c + 1);
    }
  }
}
