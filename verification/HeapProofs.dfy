/** The heap invariant is kept by every sys_malloc and every sys_free of a live pointer. */
module HeapProofs {
  import opened Bits
  import opened Pages
  import opened PagesProofs
  import opened Heap

  // ---------- new arenas ----------

  // Arenas survive a memory that grows, and the fresh pages can become an arena.
  lemma AddArena(L: Layout, pf: Pf, arenas: map<nat, Arena>, m: Mem, m1: Mem, p: nat, a: Arena)
    requires L.Valid() && ArenasOk(L, pf, arenas, m) && FramesExt(L, m, m1, pf, Run(p, a.Span())) && ArenaOk(a)
    requires forall u :: u in Run(p, a.Span()) ==> L.Side(u) == pf
    ensures p !in arenas && ArenasOk(L, pf, arenas[p := a], m1)
  {
    var S := Run(p, a.Span());
    assert p in S && !m.Present(p);
    if p in arenas {
      assert ArenaOk(arenas[p]);
      assert InArena(arenas, p, p);
      assert false;
    }
    var more := arenas[p := a];
    forall q, u | InArena(more, q, u)
      ensures m1.Present(u) && L.Side(u) == pf && (u in S <==> q == p)
    {
      if q != p {
        assert InArena(arenas, q, u) && m.Present(u);
      } else {
        assert u in S;
      }
    }
    forall q, r, u | InArena(more, q, u) && InArena(more, r, u)
      ensures q == r
    {
      if q != p && r != p {
        assert InArena(arenas, q, u) && InArena(arenas, r, u);
      }
    }
  }

  lemma SideOfRange(L: Layout, pf: Pf, v: nat, n: nat)
    requires L.Valid() && L.Start(pf) <= v && v + n <= L.Start(pf) + L.PageCnt(pf)
    ensures forall u :: u in Run(v, n) ==> L.Side(u) == pf
  {
  }

  // Blocks of the arenas already there stay the same when arena p comes.
  lemma OldBlocks(arenas: map<nat, Arena>, p: nat, a: Arena, c: nat, b: nat)
    requires c < CLASSES && p !in arenas
    ensures ArenaOf(b) != p ==> (IsBlock(arenas[p := a], c, b) <==> IsBlock(arenas, c, b))
    ensures ArenaOf(b) == p ==> !IsBlock(arenas, c, b)
  {
  }

  lemma RefillFree(h: Heap, h1: Heap, c: nat, p: nat)
    requires c < CLASSES && FreeOk(h) && LiveOk(h) && h.free[c] == [] && p !in h.arenas
    requires h1.live == h.live && h1.arenas == h.arenas[p := Arena(c, false, PerArena(c))]
    requires h1.free == h.free[c := Blocks(p, c)]
    ensures FreeOk(h1)
  {
    BlocksFacts(p, c);
    forall d, b: nat | 0 <= d < CLASSES
      ensures b in h1.free[d] <==> IsBlock(h1.arenas, d, b) && b !in h1.live
    {
      OldBlocks(h.arenas, p, h1.arenas[p], d, b);
      if b in h.live {
        assert LiveFits(h, b);
      }
      assert b in h.free[d] <==> IsBlock(h.arenas, d, b) && b !in h.live;
    }
  }

  lemma RefillCounts(h: Heap, h1: Heap, c: nat, p: nat)
    requires c < CLASSES && FreeOk(h) && CountsOk(h) && h.free[c] == [] && p !in h.arenas
    requires h1.arenas == h.arenas[p := Arena(c, false, PerArena(c))]
    requires h1.free == h.free[c := Blocks(p, c)]
    ensures CountsOk(h1)
  {
    BlocksFacts(p, c);
    forall q | q in h1.arenas && !h1.arenas[q].large && h1.arenas[q].cls < CLASSES
      ensures h1.arenas[q].cnt == |FreeIn(h1.free[h1.arenas[q].cls], q)|
    {
      if q == p {
        assert FreeIn(Blocks(p, c), p) == Elems(Blocks(p, c));
        DistinctSize(Blocks(p, c));
      } else if h1.arenas[q].cls == c {
        assert FreeIn(h1.free[c], q) == {} == FreeIn(h.free[c], q);
      }
    }
  }

  ghost function Elems(s: seq<nat>): set<nat> {
    set b | b in s
  }

  lemma {:induction false} DistinctSize(s: seq<nat>)
    requires NoDup(s)
    ensures |Elems(s)| == |s|
  {
    if s != [] {
      DistinctSize(s[1..]);
      assert Elems(s) == {s[0]} + Elems(s[1..]);
      assert s[0] !in s[1..];
    }
  }

  lemma LiveStays(h: Heap, h1: Heap, p: nat, a: Arena)
    requires LiveOk(h) && p !in h.arenas && h1.arenas == h.arenas[p := a] && h1.live == h.live && !a.large
    ensures LiveOk(h1)
  {
    forall b | b in h1.live
      ensures LiveFits(h1, b)
    {
      assert LiveFits(h, b);
    }
  }

  // the heap with a new arena on its pages m1 and the arena's blocks on the list
  lemma MakeSmall(L: Layout, pf: Pf, h: Heap, c: nat, p: nat, m1: Mem, h1: Heap)
    requires L.Valid() && HeapInv(L, pf, h) && c < CLASSES && h.free[c] == [] && GotPages(L, h.mem, m1, pf, p, 1)
    requires h1 == h.(mem := m1, arenas := h.arenas[p := Arena(c, false, PerArena(c))], free := h.free[c := Blocks(p, c)])
    ensures Core(L, pf, h1, {p}) && p !in h.arenas
  {
    SideOfRange(L, pf, p, 1);
    AddArena(L, pf, h.arenas, h.mem, m1, p, Arena(c, false, PerArena(c)));
    RefillFree(h, h1, c, p);
    RefillCounts(h, h1, c, p);
    LiveStays(h, h1, p, Arena(c, false, PerArena(c)));
  }

  // Refilling keeps the invariant except that the new arena is full.
  lemma RefillKeeps(L: Layout, pf: Pf, h: Heap, c: nat) returns (h1: Heap, p: nat)
    requires L.Valid() && HeapInv(L, pf, h) && c < CLASSES && h.free[c] == [] && Granted(L, h.mem, pf, 1)
    ensures Refill(L, pf, h, c) == Ready(h1) && h1.free[c] == Blocks(p, c)
    ensures Core(L, pf, h1, {p}) && p !in h.arenas
    ensures h1.live == h.live && h1.held == h.held
    ensures h1.arenas == h.arenas[p := Arena(c, false, PerArena(c))]
    ensures p == RunStart(L, h.mem, pf, 1) && GotPages(L, h.mem, h1.mem, pf, p, 1)
  {
    var m1;
    p, m1 := PagesGot(L, h.mem, pf, 1);
    h1 := h.(mem := m1, arenas := h.arenas[p := Arena(c, false, PerArena(c))], free := h.free[c := Blocks(p, c)]);
    MakeSmall(L, pf, h, c, p, m1, h1);
  }

  // ---------- handing a block out ----------

  lemma PopFree(h: Heap, h1: Heap, c: nat, b: nat, size: nat, a: Arena)
    requires c < CLASSES && FreeOk(h) && h.free[c] != [] && b == h.free[c][0] && ArenaOf(b) in h.arenas
    requires a.cls == h.arenas[ArenaOf(b)].cls && a.large == h.arenas[ArenaOf(b)].large
    requires h1.free == h.free[c := h.free[c][1..]] && h1.live == h.live[b := size]
    requires h1.arenas == h.arenas[ArenaOf(b) := a]
    ensures FreeOk(h1)
  {
    forall d, x: nat | 0 <= d < CLASSES
      ensures x in h1.free[d] <==> IsBlock(h1.arenas, d, x) && x !in h1.live
    {
      assert x in h.free[d] <==> IsBlock(h.arenas, d, x) && x !in h.live;
      assert IsBlock(h1.arenas, d, x) <==> IsBlock(h.arenas, d, x);
      assert b in h.free[c];
      if d == c {
        assert x in h.free[c] <==> x == b || x in h.free[c][1..];
        assert NoDup(h.free[c]);
      }
    }
  }

  lemma PopCounts(h: Heap, h1: Heap, c: nat, b: nat)
    requires c < CLASSES && FreeOk(h) && CountsOk(h) && h.free[c] != [] && b == h.free[c][0] && b in h.free[c]
    requires h1.free == h.free[c := h.free[c][1..]] && ArenaOf(b) in h.arenas && h.arenas[ArenaOf(b)].cls == c
    requires !h.arenas[ArenaOf(b)].large && h.arenas[ArenaOf(b)].cnt >= 1
    requires h1.arenas == h.arenas[ArenaOf(b) := h.arenas[ArenaOf(b)].(cnt := h.arenas[ArenaOf(b)].cnt - 1)]
    ensures CountsOk(h1)
  {
    forall q | q in h1.arenas && !h1.arenas[q].large && h1.arenas[q].cls < CLASSES
      ensures h1.arenas[q].cnt == |FreeIn(h1.free[h1.arenas[q].cls], q)|
    {
      if h1.arenas[q].cls == c {
        assert NoDup(h.free[c]);
        FreeInTail(h.free[c], q);
      }
    }
  }

  lemma FreeInTail(s: seq<nat>, q: nat)
    requires s != [] && NoDup(s)
    ensures |FreeIn(s[1..], q)| == |FreeIn(s, q)| - if ArenaOf(s[0]) == q then 1 else 0
  {
    assert forall x :: x in s <==> x == s[0] || x in s[1..];
    assert s[0] !in s[1..];
    if ArenaOf(s[0]) == q {
      assert FreeIn(s, q) == FreeIn(s[1..], q) + {s[0]};
    } else {
      assert FreeIn(s, q) == FreeIn(s[1..], q);
    }
  }

  lemma PopLive(h: Heap, h1: Heap, c: nat, b: nat, size: nat, a: Arena)
    requires LiveOk(h) && c < CLASSES && IsBlock(h.arenas, c, b) && 1 <= size <= BlockSize(c)
    requires a.cls == c && !a.large
    requires h1.live == h.live[b := size] && h1.arenas == h.arenas[ArenaOf(b) := a]
    ensures LiveOk(h1)
  {
    forall x | x in h1.live
      ensures LiveFits(h1, x)
    {
      if x != b {
        assert LiveFits(h, x);
      }
    }
  }

  lemma SameSpans(L: Layout, pf: Pf, arenas: map<nat, Arena>, m: Mem, p: nat, a: Arena)
    requires ArenasOk(L, pf, arenas, m) && p in arenas && a.Span() == arenas[p].Span() && ArenaOk(a)
    ensures ArenasOk(L, pf, arenas[p := a], m)
    ensures Owned(arenas[p := a]) == Owned(arenas)
  {
    var now := arenas[p := a];
    assert forall q, u :: InArena(now, q, u) <==> InArena(arenas, q, u);
    assert forall q :: q in now ==> ArenaOk(now[q]);
  }

  // Popping keeps the invariant; the arena of the block is not full afterwards.
  lemma PopKeeps(L: Layout, pf: Pf, h: Heap, c: nat, size: nat, full: set<nat>) returns (b: nat, h1: Heap)
    requires c < CLASSES && Core(L, pf, h, full) && h.free[c] != [] && 1 <= size <= BlockSize(c)
    requires full <= {ArenaOf(h.free[c][0])}
    ensures b == h.free[c][0] && ArenaOf(b) in h.arenas && h.arenas[ArenaOf(b)].cnt >= 1 && b !in h.live
    ensures h1 == Pop(h, c, size) && HeapInv(L, pf, h1)
    ensures h1.live == h.live[b := size] && h1.mem == h.mem && Owned(h1.arenas) == Owned(h.arenas)
  {
    b := h.free[c][0];
    assert b in h.free[c];
    assert IsBlock(h.arenas, c, b) && b !in h.live;
    var p := ArenaOf(b);
    assert b in FreeIn(h.free[c], p);
    assert h.arenas[p].cnt >= 1;
    h1 := Pop(h, c, size);
    var a := h.arenas[p].(cnt := h.arenas[p].cnt - 1);
    assert ArenaOk(h.arenas[p]);
    SameSpans(L, pf, h.arenas, h.mem, p, a);
    PopFree(h, h1, c, b, size, a);
    PopCounts(h, h1, c, b);
    PopLive(h, h1, c, b, size, a);
  }

  // ---------- sys_malloc ----------

  lemma ArenasGrow(L: Layout, pf: Pf, arenas: map<nat, Arena>, m: Mem, m1: Mem, S: set<nat>)
    requires ArenasOk(L, pf, arenas, m) && FramesExt(L, m, m1, pf, S)
    ensures ArenasOk(L, pf, arenas, m1)
  {
    forall p, u | InArena(arenas, p, u)
      ensures m1.Present(u)
    {
      assert m.Present(u) && u !in S;
    }
  }

  // a malloc_page that fails, leak included, leaves the heap consistent
  lemma FailureKeeps(L: Layout, pf: Pf, h: Heap, n: nat)
    requires L.Valid() && HeapInv(L, pf, h) && MallocPage(L, h.mem, pf, n).NoPages?
    ensures HeapInv(L, pf, h.(mem := MallocPage(L, h.mem, pf, n).mem))
  {
    MallocPageCorrect(L, h.mem, pf, n);
    var r := MallocPage(L, h.mem, pf, n);
    if Exhausted(L, h.mem, pf, n) {
      ArenasGrow(L, pf, h.arenas, h.mem, r.mem, Run(RunStart(L, h.mem, pf, n), r.mapped));
    }
    SameLists(h, h.(mem := r.mem));
  }

  lemma SameLists(h: Heap, h1: Heap)
    requires FreeOk(h) && CountsOk(h) && LiveOk(h)
    requires h1.free == h.free && h1.arenas == h.arenas && h1.live == h.live
    ensures FreeOk(h1) && CountsOk(h1) && LiveOk(h1)
  {
    assert forall b :: b in h.live ==> LiveFits(h, b) && LiveFits(h1, b);
    forall d, x: nat | 0 <= d < CLASSES
      ensures x in h1.free[d] <==> IsBlock(h1.arenas, d, x) && x !in h1.live
    {
      assert x in h.free[d] <==> IsBlock(h.arenas, d, x) && x !in h.live;
    }
  }

  lemma LargeFree(h: Heap, h1: Heap, p: nat, n: nat, size: nat)
    requires FreeOk(h) && p !in h.arenas
    requires h1.arenas == h.arenas[p := Arena(0, true, n)] && h1.free == h.free
    requires h1.live == h.live[p * PAGE + HEADER := size]
    ensures FreeOk(h1)
  {
    assert ArenaOf(p * PAGE + HEADER) == p;
    forall d, x: nat | 0 <= d < CLASSES
      ensures x in h1.free[d] <==> IsBlock(h1.arenas, d, x) && x !in h1.live
    {
      OldBlocks(h.arenas, p, h1.arenas[p], d, x);
      assert x in h.free[d] <==> IsBlock(h.arenas, d, x) && x !in h.live;
    }
  }

  lemma LargeLive(h: Heap, h1: Heap, p: nat, n: nat, size: nat)
    requires LiveOk(h) && p !in h.arenas && size >= 1 && HEADER + size <= n * PAGE
    requires h1.arenas == h.arenas[p := Arena(0, true, n)]
    requires h1.live == h.live[p * PAGE + HEADER := size]
    ensures LiveOk(h1) && p * PAGE + HEADER !in h.live
  {
    var b := p * PAGE + HEADER;
    assert ArenaOf(b) == p;
    assert b in h.live ==> LiveFits(h, b);
    forall x | x in h1.live
      ensures LiveFits(h1, x)
    {
      if x != b {
        assert LiveFits(h, x);
      }
    }
  }

  // the heap with a large arena on its pages m1
  lemma MakeLarge(L: Layout, pf: Pf, h: Heap, size: nat, n: nat, p: nat, m1: Mem, h1: Heap)
    requires L.Valid() && HeapInv(L, pf, h) && size > 1024 && n == LargePages(size) && GotPages(L, h.mem, m1, pf, p, n)
    requires h1 == h.(mem := m1, arenas := h.arenas[p := Arena(0, true, n)], live := h.live[p * PAGE + HEADER := size],
                      held := h.held + 1)
    ensures HeapInv(L, pf, h1) && p !in h.arenas && p * PAGE + HEADER !in h.live
  {
    SideOfRange(L, pf, p, n);
    AddArena(L, pf, h.arenas, h.mem, m1, p, Arena(0, true, n));
    LargeFree(h, h1, p, n, size);
    LargeLive(h, h1, p, n, size);
  }

  lemma LargeUnfold(L: Layout, pf: Pf, h: Heap, size: nat, p: nat, m1: Mem)
    requires MallocPage(L, h.mem, pf, LargePages(size)) == Got(p, m1)
    ensures LargeAlloc(L, pf, h, size) ==
            Ptr(p * PAGE + HEADER, h.(mem := m1, arenas := h.arenas[p := Arena(0, true, LargePages(size))],
                                      live := h.live[p * PAGE + HEADER := size], held := h.held + 1))
  {
  }

  // a large request, by what malloc_page returned
  lemma LargeBy(L: Layout, pf: Pf, h: Heap, size: nat, r: PageResult)
    requires r == MallocPage(L, h.mem, pf, LargePages(size))
    ensures r.Got? ==>
              LargeAlloc(L, pf, h, size) ==
                Ptr(r.start * PAGE + HEADER,
                    h.(mem := r.mem, arenas := h.arenas[r.start := Arena(0, true, LargePages(size))],
                       live := h.live[r.start * PAGE + HEADER := size], held := h.held + 1))
    ensures r.NoPages? ==> LargeAlloc(L, pf, h, size) == Null(h.(mem := r.mem))
    ensures r.PageHalt? ==> LargeAlloc(L, pf, h, size) == Stop
    ensures r.PageWild? ==> LargeAlloc(L, pf, h, size) == Wild
  {
  }

  // what a successful sys_malloc adds: the pointer is new, big enough, and any pages it took are fresh
  ghost predicate Allocated(L: Layout, pf: Pf, h: Heap, size: nat, b: nat, h1: Heap)
    requires |h.free| == CLASSES
  {
    && b !in h.live && h1.live == h.live[b := size]
    && HeapInv(L, pf, h1)
    && h1.held == h.held + (if size > 1024 then 1 else 0)
    && (if PagesFor(h, size) == 0 then h1.mem == h.mem && Owned(h1.arenas) == Owned(h.arenas)
        else Took(L, pf, h, h1, PagesFor(h, size)))
  }

  // the heap took the n pages malloc_page gave it
  ghost predicate Took(L: Layout, pf: Pf, h: Heap, h1: Heap, n: nat) {
    && Granted(L, h.mem, pf, n) && GotPages(L, h.mem, h1.mem, pf, RunStart(L, h.mem, pf, n), n)
    && Owned(h1.arenas) == Owned(h.arenas) + Run(RunStart(L, h.mem, pf, n), n)
  }

  lemma OwnedAdd(arenas: map<nat, Arena>, p: nat, a: Arena)
    requires p !in arenas
    ensures Owned(arenas[p := a]) == Owned(arenas) + Run(p, a.Span())
  {
    var more := arenas[p := a];
    forall u: nat
      ensures u in Owned(more) <==> u in Owned(arenas) || u in Run(p, a.Span())
    {
      if u in Owned(arenas) {
        var q :| InArena(arenas, q, u);
        assert InArena(more, q, u);
      }
      if u in Run(p, a.Span()) {
        assert InArena(more, p, u);
      }
      if u in Owned(more) {
        var q :| InArena(more, q, u);
        assert q != p ==> InArena(arenas, q, u);
      }
    }
  }

  lemma SmallUnfold(L: Layout, pf: Pf, h: Heap, size: nat, c: nat, h0: Heap)
    requires |h.free| == CLASSES == |h0.free| && 1 <= size <= 1024 && size < L.PoolBytes(pf)
    requires c == ClassFor(size, 0) && c < CLASSES && Refill(L, pf, h, c) == Ready(h0) && h0.free[c] != []
    requires ArenaOf(h0.free[c][0]) in h0.arenas && h0.arenas[ArenaOf(h0.free[c][0])].cnt >= 1
    ensures SysMalloc(L, pf, h, size) == Ptr(h0.free[c][0], Pop(h0, c, size))
  {
  }

  lemma NoRefill(L: Layout, pf: Pf, h: Heap, c: nat)
    requires |h.free| == CLASSES && c < CLASSES && h.free[c] != []
    ensures Refill(L, pf, h, c) == Ready(h)
  {
  }

  lemma MakePopped(L: Layout, pf: Pf, h: Heap, size: nat, b: nat, h1: Heap)
    requires |h.free| == CLASSES && PagesFor(h, size) == 0 && size <= 1024 && b !in h.live
    requires h1.live == h.live[b := size] && HeapInv(L, pf, h1) && h1.held == h.held
    requires h1.mem == h.mem && Owned(h1.arenas) == Owned(h.arenas)
    ensures Allocated(L, pf, h, size, b, h1)
  {
  }

  // a small request served from the free list
  lemma SmallPopped(L: Layout, pf: Pf, h: Heap, size: nat, c: nat) returns (b: nat, h1: Heap)
    requires L.Valid() && HeapInv(L, pf, h) && 1 <= size <= 1024 && size < L.PoolBytes(pf) && c == ClassFor(size, 0)
    requires c < CLASSES && size <= BlockSize(c) && h.free[c] != []
    ensures SysMalloc(L, pf, h, size) == Ptr(b, h1) && Allocated(L, pf, h, size, b, h1)
  {
    b, h1 := PopKeeps(L, pf, h, c, size, {});
    NoRefill(L, pf, h, c);
    SmallUnfold(L, pf, h, size, c, h);
    MakePopped(L, pf, h, size, b, h1);
  }

  lemma RefillAndPop(L: Layout, pf: Pf, h: Heap, size: nat, c: nat) returns (h0: Heap, b: nat, h1: Heap)
    requires L.Valid() && HeapInv(L, pf, h) && c < CLASSES && 1 <= size <= BlockSize(c) && h.free[c] == []
    requires Granted(L, h.mem, pf, 1)
    ensures Refill(L, pf, h, c) == Ready(h0) && |h0.free| == CLASSES && h0.free[c] != [] && b == h0.free[c][0]
    ensures ArenaOf(b) in h0.arenas && h0.arenas[ArenaOf(b)].cnt >= 1 && h1 == Pop(h0, c, size)
    ensures HeapInv(L, pf, h1) && b !in h.live && h1.live == h.live[b := size] && h1.held == h.held
    ensures Took(L, pf, h, h1, 1)
  {
    var p;
    h0, p := RefillKeeps(L, pf, h, c);
    BlocksFacts(p, c);
    assert h0.free[c][0] in Blocks(p, c);
    b, h1 := PopKeeps(L, pf, h0, c, size, {p});
    TookArena(L, pf, h, h1, p, Arena(c, false, PerArena(c)), h0.arenas);
  }

  lemma TookArena(L: Layout, pf: Pf, h: Heap, h1: Heap, p: nat, a: Arena, arenas: map<nat, Arena>)
    requires p !in h.arenas && arenas == h.arenas[p := a] && Owned(h1.arenas) == Owned(arenas)
    requires Granted(L, h.mem, pf, a.Span()) && p == RunStart(L, h.mem, pf, a.Span())
    requires GotPages(L, h.mem, h1.mem, pf, p, a.Span())
    ensures Took(L, pf, h, h1, a.Span())
  {
    OwnedAdd(h.arenas, p, a);
  }

  lemma MakeAllocated(L: Layout, pf: Pf, h: Heap, size: nat, b: nat, h1: Heap, n: nat)
    requires |h.free| == CLASSES && n == PagesFor(h, size) && n != 0 && Took(L, pf, h, h1, n)
    requires b !in h.live && h1.live == h.live[b := size] && HeapInv(L, pf, h1)
    requires h1.held == h.held + if size > 1024 then 1 else 0
    ensures Allocated(L, pf, h, size, b, h1)
  {
  }

  lemma SmallRefilled(L: Layout, pf: Pf, h: Heap, size: nat, c: nat) returns (b: nat, h1: Heap)
    requires L.Valid() && HeapInv(L, pf, h) && 1 <= size <= 1024 && size < L.PoolBytes(pf) && c == ClassFor(size, 0)
    requires c < CLASSES && size <= BlockSize(c) && h.free[c] == [] && Granted(L, h.mem, pf, 1)
    ensures SysMalloc(L, pf, h, size) == Ptr(b, h1) && Allocated(L, pf, h, size, b, h1)
  {
    var h0;
    h0, b, h1 := RefillAndPop(L, pf, h, size, c);
    SmallUnfold(L, pf, h, size, c, h0);
    MakeAllocated(L, pf, h, size, b, h1, 1);
  }

  lemma LargeAllocated(L: Layout, pf: Pf, h: Heap, size: nat) returns (b: nat, h1: Heap)
    requires L.Valid() && HeapInv(L, pf, h) && size > 1024 && Granted(L, h.mem, pf, LargePages(size))
    ensures LargeAlloc(L, pf, h, size) == Ptr(b, h1) && Allocated(L, pf, h, size, b, h1)
  {
    var n := LargePages(size);
    var p, m1 := PagesGot(L, h.mem, pf, n);
    LargeUnfold(L, pf, h, size, p, m1);
    b := p * PAGE + HEADER;
    h1 := h.(mem := m1, arenas := h.arenas[p := Arena(0, true, n)], live := h.live[b := size], held := h.held + 1);
    MakeLarge(L, pf, h, size, n, p, m1, h1);
    TookArena(L, pf, h, h1, p, Arena(0, true, n), h1.arenas);
    MakeAllocated(L, pf, h, size, b, h1, n);
  }

  // the memory after a NULL return: as before, or with what malloc_page left behind
  ghost predicate NullMem(L: Layout, pf: Pf, h: Heap, size: nat, m1: Mem)
    requires |h.free| == CLASSES
  {
    if RunsShort(L, pf, h, size) then Leaked(L, h.mem, m1, pf, PagesFor(h, size), Clear(h.mem.Pool(pf)))
    else m1 == h.mem
  }

  ghost predicate MallocOk(L: Layout, pf: Pf, h: Heap, size: nat, r: Result)
    requires |h.free| == CLASSES
  {
    && (r.Stop? <==> Refused(L, pf, h, size))
    && (r.Wild? <==> Misses(L, pf, h, size))
    && (r.Ptr? <==> Served(L, pf, h, size))
    && (r.Ptr? ==> Allocated(L, pf, h, size, r.p, r.h))
    && (r.Null? ==> HeapInv(L, pf, r.h) && r.h.(mem := h.mem) == h && NullMem(L, pf, h, size, r.h.mem))
  }

  // a request that has to take n pages, and is not served: the call ends as malloc_page did
  lemma NotServed(L: Layout, pf: Pf, h: Heap, size: nat, n: nat, pr: PageResult, r: Result)
    requires L.Valid() && HeapInv(L, pf, h) && 0 < size < L.PoolBytes(pf) && n == PagesFor(h, size) && n >= 1
    requires !Granted(L, h.mem, pf, n) && pr == MallocPage(L, h.mem, pf, n)
    requires pr.NoPages? ==> r == Null(h.(mem := pr.mem))
    requires (pr.PageHalt? ==> r == Stop) && (pr.PageWild? ==> r == Wild)
    ensures MallocOk(L, pf, h, size, r)
  {
    MallocPageCorrect(L, h.mem, pf, n);
    if r.Null? {
      FailureKeeps(L, pf, h, n);
    }
  }

  lemma IsLarge(L: Layout, pf: Pf, h: Heap, size: nat)
    requires |h.free| == CLASSES && 1024 < size < L.PoolBytes(pf)
    ensures SysMalloc(L, pf, h, size) == LargeAlloc(L, pf, h, size)
  {
  }

  lemma ServedOk(L: Layout, pf: Pf, h: Heap, size: nat, b: nat, h1: Heap)
    requires |h.free| == CLASSES && Served(L, pf, h, size) && Allocated(L, pf, h, size, b, h1)
    ensures MallocOk(L, pf, h, size, Ptr(b, h1))
  {
  }

  lemma LargeCorrect(L: Layout, pf: Pf, h: Heap, size: nat) returns (r: Result)
    requires L.Valid() && HeapInv(L, pf, h) && 1024 < size < L.PoolBytes(pf)
    ensures r == SysMalloc(L, pf, h, size) && MallocOk(L, pf, h, size, r)
  {
    var n := LargePages(size);
    IsLarge(L, pf, h, size);
    if Granted(L, h.mem, pf, n) {
      var b, h1 := LargeAllocated(L, pf, h, size);
      r := Ptr(b, h1);
      ServedOk(L, pf, h, size, b, h1);
    } else {
      var pr := MallocPage(L, h.mem, pf, n);
      LargeBy(L, pf, h, size, pr);
      r := LargeAlloc(L, pf, h, size);
      NotServed(L, pf, h, size, n, pr, r);
    }
  }

  // a small request on an empty list for which malloc_page fails
  lemma SmallBy(L: Layout, pf: Pf, h: Heap, size: nat, c: nat, pr: PageResult)
    requires |h.free| == CLASSES && 1 <= size <= 1024 && size < L.PoolBytes(pf) && c == ClassFor(size, 0)
    requires c < CLASSES && h.free[c] == [] && pr == MallocPage(L, h.mem, pf, 1)
    ensures pr.NoPages? ==> SysMalloc(L, pf, h, size) == Null(h.(mem := pr.mem))
    ensures pr.PageHalt? ==> SysMalloc(L, pf, h, size) == Stop
    ensures pr.PageWild? ==> SysMalloc(L, pf, h, size) == Wild
  {
  }

  // a small request that finds its list empty
  lemma SmallCorrect(L: Layout, pf: Pf, h: Heap, size: nat, c: nat) returns (r: Result)
    requires L.Valid() && HeapInv(L, pf, h) && 1 <= size <= 1024 && size < L.PoolBytes(pf) && c == ClassFor(size, 0)
    requires c < CLASSES && size <= BlockSize(c) && h.free[c] == []
    ensures r == SysMalloc(L, pf, h, size) && MallocOk(L, pf, h, size, r)
  {
    if Granted(L, h.mem, pf, 1) {
      var b, h1 := SmallRefilled(L, pf, h, size, c);
      r := Ptr(b, h1);
      ServedOk(L, pf, h, size, b, h1);
    } else {
      var pr := MallocPage(L, h.mem, pf, 1);
      SmallBy(L, pf, h, size, c, pr);
      r := SysMalloc(L, pf, h, size);
      NotServed(L, pf, h, size, 1, pr, r);
    }
  }

  // sys_malloc on a consistent heap: which of its ends it takes is told by the state before.  A pointer it
  // returns is new and big enough; a NULL return changes neither the lists nor the live pointers, and no
  // memory unless it ran short of frames; the invariant holds after.
  lemma SysMallocCorrect(L: Layout, pf: Pf, h: Heap, size: nat) returns (r: Result)
    requires L.Valid() && HeapInv(L, pf, h)
    ensures r == SysMalloc(L, pf, h, size)
    ensures r.Stop? <==> Refused(L, pf, h, size)
    ensures r.Wild? <==> Misses(L, pf, h, size)
    ensures r.Ptr? <==> Served(L, pf, h, size)
    ensures r.Ptr? ==> Allocated(L, pf, h, size, r.p, r.h)
    ensures r.Null? ==> HeapInv(L, pf, r.h) && r.h.(mem := h.mem) == h && NullMem(L, pf, h, size, r.h.mem)
  {
    if 1024 < size < L.PoolBytes(pf) {
      r := LargeCorrect(L, pf, h, size);
    } else if 0 < size < L.PoolBytes(pf) {
      ClassForFits(size);
      if h.free[ClassFor(size, 0)] == [] {
        r := SmallCorrect(L, pf, h, size, ClassFor(size, 0));
      } else {
        var b, h1 := SmallPopped(L, pf, h, size, ClassFor(size, 0));
        r := Ptr(b, h1);
      }
    } else {
      r := Null(h);
    }
  }
}
