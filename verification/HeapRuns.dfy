/** sys_free keeps the heap invariant; safety and conservation over whole runs of sys_malloc and sys_free. */
module HeapRuns {
  import opened Bits
  import opened Pages
  import opened PagesProofs
  import opened Heap
  import opened HeapProofs

  // ---------- a block goes back on its list ----------

  lemma FreeInPush(s: seq<nat>, b: nat, q: nat)
    requires b !in s
    ensures |FreeIn(s + [b], q)| == |FreeIn(s, q)| + if ArenaOf(b) == q then 1 else 0
  {
    assert forall x :: x in s + [b] <==> x == b || x in s;
    if ArenaOf(b) == q {
      assert FreeIn(s + [b], q) == FreeIn(s, q) + {b};
    } else {
      assert FreeIn(s + [b], q) == FreeIn(s, q);
    }
  }

  // the state after list_append and ++cnt, spelled out
  ghost predicate Pushed(h: Heap, h1: Heap, b: nat, c: nat, a: Arena)
    requires |h.free| == CLASSES
  {
    && c < CLASSES && b in h.live && IsBlock(h.arenas, c, b)
    && h1.free == h.free[c := h.free[c] + [b]] && h1.live == h.live - {b}
    && a == h.arenas[ArenaOf(b)].(cnt := h.arenas[ArenaOf(b)].cnt + 1)
    && h1.arenas == h.arenas[ArenaOf(b) := a] && h1.mem == h.mem && h1.held == h.held
  }

  lemma PushFree(h: Heap, h1: Heap, b: nat, c: nat, a: Arena)
    requires FreeOk(h) && Pushed(h, h1, b, c, a)
    ensures FreeOk(h1) && b !in h.free[c]
  {
    assert b in h.free[c] <==> IsBlock(h.arenas, c, b) && b !in h.live;
    forall d, x: nat | 0 <= d < CLASSES
      ensures x in h1.free[d] <==> IsBlock(h1.arenas, d, x) && x !in h1.live
    {
      assert x in h.free[d] <==> IsBlock(h.arenas, d, x) && x !in h.live;
      assert IsBlock(h1.arenas, d, x) <==> IsBlock(h.arenas, d, x);
      assert d == c ==> (x in h1.free[c] <==> x == b || x in h.free[c]);
    }
    assert NoDup(h.free[c]);
  }

  lemma PushCounts(h: Heap, h1: Heap, b: nat, c: nat, a: Arena)
    requires FreeOk(h) && CountsOk(h) && Pushed(h, h1, b, c, a) && b !in h.free[c]
    ensures CountsOk(h1)
  {
    forall q | q in h1.arenas && !h1.arenas[q].large && h1.arenas[q].cls < CLASSES
      ensures h1.arenas[q].cnt == |FreeIn(h1.free[h1.arenas[q].cls], q)|
    {
      if h1.arenas[q].cls == c {
        FreeInPush(h.free[c], b, q);
      }
    }
  }

  lemma PushLive(h: Heap, h1: Heap, b: nat, c: nat, a: Arena)
    requires |h.free| == CLASSES && LiveOk(h) && Pushed(h, h1, b, c, a)
    ensures LiveOk(h1)
  {
    forall x | x in h1.live
      ensures LiveFits(h1, x)
    {
      assert LiveFits(h, x);
      assert ArenaOf(x) == ArenaOf(b) ==> x in Blocks(ArenaOf(b), c);
    }
    forall p | p in h1.arenas && h1.arenas[p].large
      ensures p * PAGE + HEADER in h1.live
    {
      assert ArenaOf(p * PAGE + HEADER) == p;
    }
  }

  // blocks of arena p on the free list number at most PerArena; all of them when they are that many
  lemma FreeInBound(h: Heap, p: nat, c: nat)
    requires FreeOk(h) && c < CLASSES
    ensures FreeIn(h.free[c], p) <= Elems(Blocks(p, c)) && |Elems(Blocks(p, c))| == PerArena(c)
    ensures |FreeIn(h.free[c], p)| <= PerArena(c)
    ensures |FreeIn(h.free[c], p)| == PerArena(c) ==> forall b :: b in Blocks(p, c) ==> b in h.free[c]
  {
    BlocksFacts(p, c);
    DistinctSize(Blocks(p, c));
    var F, E := FreeIn(h.free[c], p), Elems(Blocks(p, c));
    forall b | b in F
      ensures b in E
    {
      assert b in h.free[c] && IsBlock(h.arenas, c, b);
    }
    SubsetSize(F, E);
    if |F| == PerArena(c) {
      forall b | b in Blocks(p, c)
        ensures b in h.free[c]
      {
        assert b in E && F == E;
      }
    }
  }

  // list_append of a live block and ++cnt: consistent, the block's arena perhaps full
  lemma PushKeeps(L: Layout, pf: Pf, h: Heap, b: nat) returns (h1: Heap, c: nat)
    requires L.Valid() && HeapInv(L, pf, h) && b in h.live && ArenaOf(b) in h.arenas && !h.arenas[ArenaOf(b)].large
    ensures c == h.arenas[ArenaOf(b)].cls && c < CLASSES && h1 == Push(h, b)
    ensures Core(L, pf, h1, {ArenaOf(b)})
    ensures h1.live == h.live - {b} && h1.mem == h.mem && h1.held == h.held
    ensures ArenaOf(b) in h1.arenas && h1.arenas[ArenaOf(b)].cls == c && !h1.arenas[ArenaOf(b)].large
    ensures Owned(h1.arenas) == Owned(h.arenas)
  {
    var p := ArenaOf(b);
    assert LiveFits(h, b) && ArenaOk(h.arenas[p]);
    c := h.arenas[p].cls;
    h1 := Push(h, b);
    var a := h.arenas[p].(cnt := h.arenas[p].cnt + 1);
    PushFree(h, h1, b, c, a);
    PushCounts(h, h1, b, c, a);
    PushLive(h, h1, b, c, a);
    FreeInBound(h1, p, c);
    SameSpans(L, pf, h.arenas, h.mem, p, a);
  }

  // ---------- taking a full arena's blocks off the list ----------

  lemma {:induction false} DropFacts(s: seq<nat>, X: set<nat>)
    ensures forall b :: b in Drop(s, X) <==> b in s && b !in X
    ensures NoDup(s) ==> NoDup(Drop(s, X))
  {
    if s != [] {
      DropFacts(s[1..], X);
      if NoDup(s) {
        assert s[0] !in s[1..];
      }
    }
  }

  lemma {:induction false} DropTwice(s: seq<nat>, X: set<nat>, Y: set<nat>)
    ensures Drop(Drop(s, X), Y) == Drop(s, X + Y)
  {
    if s != [] {
      DropTwice(s[1..], X, Y);
      var d := Drop(s, X);
      if s[0] !in X {
        assert d[0] == s[0] && d[1..] == Drop(s[1..], X);
      }
    }
  }

  lemma {:induction false} DropNothing(s: seq<nat>)
    ensures Drop(s, {}) == s
  {
    if s != [] {
      DropNothing(s[1..]);
    }
  }

  // The loop finds every block and takes off exactly these.
  lemma {:induction false} UnlinkAll(s: seq<nat>, blocks: seq<nat>)
    requires NoDup(blocks) && forall b :: b in blocks ==> b in s
    ensures Unlink(s, blocks) == Some(Drop(s, Elems(blocks)))
    decreases |blocks|
  {
    if blocks == [] {
      assert Elems(blocks) == {};
      DropNothing(s);
    } else {
      var b := blocks[0];
      assert b in blocks && b !in blocks[1..];
      DropFacts(s, {b});
      UnlinkAll(Drop(s, {b}), blocks[1..]);
      DropTwice(s, {b}, Elems(blocks[1..]));
      assert {b} + Elems(blocks[1..]) == Elems(blocks);
    }
  }

  // ---------- an arena leaves the heap ----------

  lemma RemoveArena(L: Layout, pf: Pf, arenas: map<nat, Arena>, m: Mem, m1: Mem, p: nat)
    requires ArenasOk(L, pf, arenas, m) && p in arenas && FramesExt(L, m1, m, pf, Run(p, arenas[p].Span()))
    ensures ArenasOk(L, pf, arenas - {p}, m1)
    ensures Owned(arenas) == Owned(arenas - {p}) + Run(p, arenas[p].Span())
    ensures Owned(arenas - {p}) !! Run(p, arenas[p].Span())
  {
    var less := arenas - {p};
    var S := Run(p, arenas[p].Span());
    forall q, u | InArena(less, q, u)
      ensures m1.Present(u) && InArena(arenas, q, u) && u !in S
    {
      assert InArena(arenas, q, u);
      assert u in S ==> InArena(arenas, p, u);
    }
    assert forall q, u :: InArena(less, q, u) ==> InArena(arenas, q, u) && q != p;
    assert less[p := arenas[p]] == arenas;
    OwnedAdd(less, p, arenas[p]);
  }

  // mfree_page of an arena the heap owns succeeds and gives its pages back
  lemma ReleaseKeeps(L: Layout, pf: Pf, h: Heap, p: nat) returns (h1: Heap)
    requires L.Valid() && PageInv(L, h.mem) && ArenasOk(L, pf, h.arenas, h.mem) && p in h.arenas
    ensures ReleaseArena(L, pf, h, p) == Some(h1)
    ensures h1 == h.(mem := h1.mem, arenas := h.arenas - {p})
    ensures PageInv(L, h1.mem) && ArenasOk(L, pf, h1.arenas, h1.mem)
    ensures Extends(L, h1.mem, h.mem, pf, Run(p, h.arenas[p].Span()))
    ensures Owned(h.arenas) == Owned(h1.arenas) + Run(p, h.arenas[p].Span())
    ensures Owned(h1.arenas) !! Run(p, h.arenas[p].Span()) && h1.mem.tables == h.mem.tables
  {
    var n := h.arenas[p].Span();
    assert ArenaOk(h.arenas[p]);
    forall u | u in Run(p, n)
      ensures h.mem.Present(u) && L.Side(u) == pf
    {
      assert InArena(h.arenas, p, u);
    }
    var m1 := MFreePageCorrect(L, h.mem, pf, p, n);
    h1 := h.(mem := m1, arenas := h.arenas - {p});
    RemoveArena(L, pf, h.arenas, h.mem, m1, p);
  }

  // the lists of a heap whose arena p is gone together with its blocks
  lemma GoneLists(h: Heap, h1: Heap, p: nat)
    requires FreeOk(h) && p in h.arenas && h1.arenas == h.arenas - {p} && h1.live.Keys <= h.live.Keys
    requires forall b :: b in h.live && ArenaOf(b) != p ==> b in h1.live
    requires |h1.free| == CLASSES
    requires forall c :: 0 <= c < CLASSES ==> NoDup(h1.free[c])
    requires forall c, b :: 0 <= c < CLASSES ==> (b in h1.free[c] <==> b in h.free[c] && ArenaOf(b) != p)
    ensures FreeOk(h1)
  {
    forall d, x: nat | 0 <= d < CLASSES
      ensures x in h1.free[d] <==> IsBlock(h1.arenas, d, x) && x !in h1.live
    {
      assert x in h.free[d] <==> IsBlock(h.arenas, d, x) && x !in h.live;
      assert IsBlock(h1.arenas, d, x) <==> IsBlock(h.arenas, d, x) && ArenaOf(x) != p;
    }
  }

  lemma GoneCounts(h: Heap, h1: Heap, p: nat)
    requires FreeOk(h) && FreeOk(h1) && CountsOk(h) && p in h.arenas && h1.arenas == h.arenas - {p}
    requires forall c, b :: 0 <= c < CLASSES ==> (b in h1.free[c] <==> b in h.free[c] && ArenaOf(b) != p)
    ensures CountsOk(h1)
  {
    forall q | q in h1.arenas && !h1.arenas[q].large && h1.arenas[q].cls < CLASSES
      ensures h1.arenas[q].cnt == |FreeIn(h1.free[h1.arenas[q].cls], q)|
    {
      assert FreeIn(h1.free[h1.arenas[q].cls], q) == FreeIn(h.free[h1.arenas[q].cls], q);
    }
  }

  lemma GoneLive(h: Heap, h1: Heap, p: nat)
    requires LiveOk(h) && p in h.arenas && h1.arenas == h.arenas - {p}
    requires h1.live == map b | b in h.live && ArenaOf(b) != p :: h.live[b]
    ensures LiveOk(h1)
  {
    forall x | x in h1.live
      ensures LiveFits(h1, x)
    {
      assert LiveFits(h, x);
    }
    forall q | q in h1.arenas && h1.arenas[q].large
      ensures q * PAGE + HEADER in h1.live
    {
      assert ArenaOf(q * PAGE + HEADER) == q;
    }
  }

  // ---------- sys_free ----------

  ghost predicate Freed(L: Layout, pf: Pf, h: Heap, b: nat, h1: Heap) {
    && HeapInv(L, pf, h1) && h1.live == h.live - {b} && h1.held == h.held
    && (|| (h1.mem == h.mem && Owned(h1.arenas) == Owned(h.arenas))
        || exists p, n :: GaveBack(L, pf, h, h1, p, n))
  }

  ghost predicate GaveBack(L: Layout, pf: Pf, h: Heap, h1: Heap, p: nat, n: nat) {
    && Extends(L, h1.mem, h.mem, pf, Run(p, n)) && h1.mem.tables == h.mem.tables
    && Owned(h.arenas) == Owned(h1.arenas) + Run(p, n) && Owned(h1.arenas) !! Run(p, n)
  }

  lemma FreeLarge(L: Layout, pf: Pf, h: Heap, b: nat) returns (h1: Heap)
    requires L.Valid() && HeapInv(L, pf, h) && b in h.live && ArenaOf(b) in h.arenas && h.arenas[ArenaOf(b)].large
    ensures ReleaseArena(L, pf, h.(live := h.live - {b}), ArenaOf(b)) == Some(h1)
    ensures Freed(L, pf, h, b, h1)
  {
    var p := ArenaOf(b);
    assert LiveFits(h, b);
    var h0 := h.(live := h.live - {b});
    h1 := ReleaseKeeps(L, pf, h0, p);
    assert GaveBack(L, pf, h, h1, p, h.arenas[p].Span());
    OnlyLargePointer(h, p, b);
    NoLargeBlocks(h, p);
    GoneLists(h, h1, p);
    GoneCounts(h, h1, p);
    GoneLive(h, h1, p);
  }

  // a large arena has one live pointer
  lemma OnlyLargePointer(h: Heap, p: nat, b: nat)
    requires LiveOk(h) && p in h.arenas && h.arenas[p].large && b in h.live && ArenaOf(b) == p
    ensures h.live - {b} == map x | x in h.live && ArenaOf(x) != p :: h.live[x]
  {
    assert LiveFits(h, b);
    forall x | x in h.live
      ensures x == b || ArenaOf(x) != p
    {
      assert LiveFits(h, x);
    }
  }

  // ... and no block on any list
  lemma NoLargeBlocks(h: Heap, p: nat)
    requires FreeOk(h) && p in h.arenas && h.arenas[p].large
    ensures forall c, x :: 0 <= c < CLASSES && x in h.free[c] ==> ArenaOf(x) != p
  {
    forall c, x | 0 <= c < CLASSES && x in h.free[c]
      ensures ArenaOf(x) != p
    {
      assert IsBlock(h.arenas, c, x);
    }
  }

  // unlinking a full arena and giving its page back
  lemma FreeLast(L: Layout, pf: Pf, h: Heap, p: nat, c: nat) returns (h1: Heap)
    requires L.Valid() && Core(L, pf, h, {p}) && p in h.arenas && !h.arenas[p].large && h.arenas[p].cls == c
    requires c < CLASSES && h.arenas[p].cnt == PerArena(c)
    ensures Unlink(h.free[c], Blocks(p, c)).Some?
    ensures ReleaseArena(L, pf, h.(free := h.free[c := Unlink(h.free[c], Blocks(p, c)).value]), p) == Some(h1)
    ensures HeapInv(L, pf, h1) && h1.live == h.live && h1.held == h.held
    ensures GaveBack(L, pf, h, h1, p, 1)
  {
    FreeInBound(h, p, c);
    BlocksFacts(p, c);
    UnlinkAll(h.free[c], Blocks(p, c));
    var rest := Drop(h.free[c], Elems(Blocks(p, c)));
    var h0 := h.(free := h.free[c := rest]);
    DropFacts(h.free[c], Elems(Blocks(p, c)));
    h1 := ReleaseKeeps(L, pf, h0, p);
    GoneFrom(h, h1, p, c, rest);
    NoneLiveIn(h, p, c);
    GoneLists(h, h1, p);
    GoneCounts(h, h1, p);
    GoneLive(h, h1, p);
  }

  lemma GoneFrom(h: Heap, h1: Heap, p: nat, c: nat, rest: seq<nat>)
    requires FreeOk(h) && c < CLASSES && p in h.arenas && h.arenas[p].cls == c && h1.free == h.free[c := rest]
    requires forall b :: b in rest <==> b in h.free[c] && b !in Elems(Blocks(p, c))
    ensures forall d, b :: 0 <= d < CLASSES ==> (b in h1.free[d] <==> b in h.free[d] && ArenaOf(b) != p)
  {
    BlocksFacts(p, c);
    forall d, b | 0 <= d < CLASSES
      ensures b in h1.free[d] <==> b in h.free[d] && ArenaOf(b) != p
    {
      assert b in h.free[d] ==> IsBlock(h.arenas, d, b);
    }
  }

  // all blocks of arena p are free, so no live pointer is in it
  lemma NoneLiveIn(h: Heap, p: nat, c: nat)
    requires LiveOk(h) && FreeOk(h) && c < CLASSES && p in h.arenas && !h.arenas[p].large && h.arenas[p].cls == c
    requires forall b :: b in Blocks(p, c) ==> b in h.free[c]
    ensures h.live == map x | x in h.live && ArenaOf(x) != p :: h.live[x]
  {
    forall x | x in h.live
      ensures ArenaOf(x) != p
    {
      assert LiveFits(h, x);
      assert x in h.free[c] ==> x !in h.live;
    }
  }

  lemma KernelPage(L: Layout, pf: Pf, h: Heap, p: nat)
    requires ArenasOk(L, pf, h.arenas, h.mem) && p in h.arenas
    ensures pf.Kernel? ==> p >= L.kStart
  {
    assert ArenaOk(h.arenas[p]);
    assert InArena(h.arenas, p, p);
  }

  lemma FreeSmall(L: Layout, pf: Pf, h: Heap, b: nat)
    requires L.Valid() && HeapInv(L, pf, h) && b in h.live && ArenaOf(b) in h.arenas && !h.arenas[ArenaOf(b)].large
    ensures SysFree(L, pf, h, b).Some? && Freed(L, pf, h, b, SysFree(L, pf, h, b).value)
  {
    var p := ArenaOf(b);
    KernelPage(L, pf, h, p);
    var h0, c := PushKeeps(L, pf, h, b);
    if h0.arenas[p].cnt == PerArena(c) {
      var h1 := FreeLast(L, pf, h0, p, c);
      assert SysFree(L, pf, h, b) == Some(h1);
      assert GaveBack(L, pf, h, h1, p, 1);
    } else {
      assert SysFree(L, pf, h, b) == Some(h0);
    }
  }

  // sys_free of a live pointer: no assertion fires, the invariant is kept, exactly this pointer stops
  // being live, and whole pages go back to the memory they came from.
  lemma SysFreeCorrect(L: Layout, pf: Pf, h: Heap, b: nat)
    requires L.Valid() && HeapInv(L, pf, h) && b in h.live
    ensures SysFree(L, pf, h, b).Some? && Freed(L, pf, h, b, SysFree(L, pf, h, b).value)
  {
    assert LiveFits(h, b);
    var p := ArenaOf(b);
    KernelPage(L, pf, h, p);
    if h.arenas[p].large {
      var h1 := FreeLarge(L, pf, h, b);
    } else {
      FreeSmall(L, pf, h, b);
    }
  }

  // ---------- what callers get ----------

  // bytes of the arena at page p: behind its header, up to the end of its last page
  lemma InsideArena(h: Heap, b: nat)
    requires LiveOk(h) && b in h.live && ArenaOf(b) in h.arenas
    ensures ArenaOf(b) * PAGE + HEADER <= b
    ensures b + h.live[b] <= (ArenaOf(b) + h.arenas[ArenaOf(b)].Span()) * PAGE
  {
    assert LiveFits(h, b);
    var p := ArenaOf(b);
    var a := h.arenas[p];
    if !a.large {
      var i :| 0 <= i < PerArena(a.cls) && b == BlockAddr(p, a.cls, i);
      BlockFacts(p, a.cls, i);
    }
  }

  lemma ArenasApart(L: Layout, pf: Pf, h: Heap, p: nat, q: nat)
    requires ArenasOk(L, pf, h.arenas, h.mem) && p in h.arenas && q in h.arenas && p < q
    ensures p + h.arenas[p].Span() <= q
  {
    assert ArenaOk(h.arenas[q]);
    assert InArena(h.arenas, q, q);
    assert q < p + h.arenas[p].Span() ==> InArena(h.arenas, p, q);
  }

  // Two live allocations never overlap.
  lemma LiveDisjoint(L: Layout, pf: Pf, h: Heap, b: nat, d: nat)
    requires HeapInv(L, pf, h) && b in h.live && d in h.live && b < d
    ensures b + h.live[b] <= d
  {
    assert LiveFits(h, b) && LiveFits(h, d);
    var p, q := ArenaOf(b), ArenaOf(d);
    InsideArena(h, b);
    InsideArena(h, d);
    if p < q {
      ArenasApart(L, pf, h, p, q);
    } else if p == q {
      var a := h.arenas[p];
      assert !a.large;
      var i :| 0 <= i < PerArena(a.cls) && b == BlockAddr(p, a.cls, i);
      var j :| 0 <= j < PerArena(a.cls) && d == BlockAddr(p, a.cls, j);
      BlockOrder(p, a.cls, i, j);
      BlocksApart(p, a.cls, i, j);
    }
  }

  lemma BlockOrder(p: nat, c: nat, i: nat, j: nat)
    requires c < CLASSES && BlockAddr(p, c, i) < BlockAddr(p, c, j)
    ensures i < j
  {
    if j < i {
      BlocksApart(p, c, j, i);
    }
  }

  // No live allocation touches an arena header, its own or another's.
  lemma LiveClearOfHeaders(L: Layout, pf: Pf, h: Heap, b: nat, q: nat)
    requires HeapInv(L, pf, h) && b in h.live && q in h.arenas
    ensures b >= q * PAGE + HEADER || b + h.live[b] <= q * PAGE
  {
    assert LiveFits(h, b);
    InsideArena(h, b);
    if ArenaOf(b) < q {
      ArenasApart(L, pf, h, ArenaOf(b), q);
    }
  }

  // ---------- runs ----------

  datatype Op = Malloc(size: nat) | Free(ptr: nat)

  // one call; None when an assertion stops the kernel or frame 0 becomes a page table
  function Step(L: Layout, pf: Pf, h: Heap, op: Op): Option<Heap>
    requires |h.free| == CLASSES
  {
    match op
    case Malloc(size) => After(SysMalloc(L, pf, h, size))
    case Free(b) => SysFree(L, pf, h, b)
  }

  function After(r: Result): Option<Heap> {
    match r
    case Ptr(_, h) => Some(h)
    case Null(h) => Some(h)
    case _ => None
  }

  function Exec(L: Layout, pf: Pf, h: Heap, ops: seq<Op>): Option<Heap>
    decreases |ops|
  {
    if ops == [] then Some(h)
    else if |h.free| != CLASSES then None
    else
      match Step(L, pf, h, ops[0])
      case None => None
      case Some(h1) => Exec(L, pf, h1, ops[1..])
  }

  // a freed pointer is live; a request runs neither into the assertions of malloc_page nor into a page
  // table that cannot be had
  predicate Allowed(L: Layout, pf: Pf, h: Heap, op: Op)
    requires |h.free| == CLASSES
  {
    match op
    case Malloc(size) => !Refused(L, pf, h, size) && !Misses(L, pf, h, size)
    case Free(b) => b in h.live
  }

  predicate WellUsed(L: Layout, pf: Pf, h: Heap, ops: seq<Op>)
    decreases |ops|
  {
    ops == [] ||
    (&& |h.free| == CLASSES && Allowed(L, pf, h, ops[0])
     && (Step(L, pf, h, ops[0]).Some? ==> WellUsed(L, pf, Step(L, pf, h, ops[0]).value, ops[1..])))
  }

  // a request that runs short of frames with a run of virtual pages already reserved
  predicate Leaking(L: Layout, pf: Pf, h: Heap, op: Op)
    requires |h.free| == CLASSES
  {
    op.Malloc? && RunsShort(L, pf, h, op.size)
  }

  // a request that is served, and needs page tables that are missing
  predicate MakesTables(L: Layout, pf: Pf, h: Heap, op: Op)
    requires |h.free| == CLASSES
  {
    && op.Malloc? && PagesFor(h, op.size) != 0 && Served(L, pf, h, op.size)
    && MissingSlots(h.mem, RunStart(L, h.mem, pf, PagesFor(h, op.size)), PagesFor(h, op.size)) != {}
  }

  // a large request that is served: sys_malloc returns from it with the pool's lock still held
  predicate KeepsLock(L: Layout, pf: Pf, h: Heap, op: Op)
    requires |h.free| == CLASSES
  {
    op.Malloc? && op.size > 1024 && Served(L, pf, h, op.size)
  }

  // what an allowed call does to the memory
  ghost predicate Changes(L: Layout, pf: Pf, h: Heap, op: Op, h1: Heap)
    requires |h.free| == CLASSES
  {
    && h1.held == h.held + (if KeepsLock(L, pf, h, op) then 1 else 0)
    && (if Leaking(L, pf, h, op) then h1.arenas == h.arenas && LeakedPage(L, pf, h, h1) else Owns(L, pf, h, op, h1))
  }

  // the memory changes by the pages the heap comes to own or gives up, and by page tables made for them
  ghost predicate Owns(L: Layout, pf: Pf, h: Heap, op: Op, h1: Heap)
    requires |h.free| == CLASSES
  {
    && (|| (h1.mem == h.mem && Owned(h1.arenas) == Owned(h.arenas))
        || (exists n :: Took(L, pf, h, h1, n)) || (exists p, n :: GaveBack(L, pf, h, h1, p, n)))
    && Within(h.mem.tables, h1.mem.tables)
    && (h1.mem.tables == h.mem.tables <==> !MakesTables(L, pf, h, op))
  }

  // b has a's page tables
  ghost predicate Within(a: map<nat, nat>, b: map<nat, nat>) {
    forall d :: d in a ==> d in b && b[d] == a[d]
  }

  // bits only grew, and some page became reserved
  ghost predicate LeakedPage(L: Layout, pf: Pf, h: Heap, h1: Heap) {
    && (forall u :: Reserved(L, h.mem, pf, u) ==> Reserved(L, h1.mem, pf, u))
    && exists u :: !Reserved(L, h.mem, pf, u) && Reserved(L, h1.mem, pf, u)
  }

  lemma LeakedRun(L: Layout, pf: Pf, h: Heap, h1: Heap, n: nat, k: nat)
    requires n >= 1 && Leaked(L, h.mem, h1.mem, pf, n, k)
    ensures LeakedPage(L, pf, h, h1)
  {
    FirstFit(h.mem.VBits(pf), n);
    var u := RunStart(L, h.mem, pf, n);
    assert !Reserved(L, h.mem, pf, u) && Reserved(L, h1.mem, pf, u);
  }

  lemma GotTables(L: Layout, m: Mem, m1: Mem, pf: Pf, v: nat, n: nat)
    requires GotPages(L, m, m1, pf, v, n)
    ensures Within(m.tables, m1.tables) && (m1.tables == m.tables <==> MissingSlots(m, v, n) == {})
  {
    TablesGrown(L, m, m1, pf, v, n);
  }

  // the three ways an allowed request ends
  lemma PagesChange(L: Layout, pf: Pf, h: Heap, size: nat, b: nat, h1: Heap)
    requires |h.free| == CLASSES && Served(L, pf, h, size) && PagesFor(h, size) != 0 && Allocated(L, pf, h, size, b, h1)
    ensures Owns(L, pf, h, Malloc(size), h1)
  {
    var n := PagesFor(h, size);
    GotTables(L, h.mem, h1.mem, pf, RunStart(L, h.mem, pf, n), n);
  }

  lemma BlockChange(L: Layout, pf: Pf, h: Heap, size: nat, h1: Heap)
    requires |h.free| == CLASSES && PagesFor(h, size) == 0 && h1.mem == h.mem && Owned(h1.arenas) == Owned(h.arenas)
    ensures Owns(L, pf, h, Malloc(size), h1)
  {
  }

  lemma ServedIsNotShort(L: Layout, pf: Pf, h: Heap, size: nat)
    requires |h.free| == CLASSES && Served(L, pf, h, size)
    ensures !RunsShort(L, pf, h, size)
  {
  }

  lemma ServedChanges(L: Layout, pf: Pf, h: Heap, size: nat, b: nat, h1: Heap)
    requires |h.free| == CLASSES && Served(L, pf, h, size) && Allocated(L, pf, h, size, b, h1)
    ensures Owns(L, pf, h, Malloc(size), h1) && h1.held == h.held + if size > 1024 then 1 else 0
  {
    if PagesFor(h, size) == 0 {
      BlockChange(L, pf, h, size, h1);
    } else {
      PagesChange(L, pf, h, size, b, h1);
    }
  }

  lemma NullChanges(L: Layout, pf: Pf, h: Heap, size: nat, h1: Heap)
    requires |h.free| == CLASSES && !Served(L, pf, h, size)
    requires h1 == h.(mem := h1.mem) && NullMem(L, pf, h, size, h1.mem)
    ensures Changes(L, pf, h, Malloc(size), h1)
  {
    if RunsShort(L, pf, h, size) {
      LeakedRun(L, pf, h, h1, PagesFor(h, size), Clear(h.mem.Pool(pf)));
    }
  }

  lemma MallocStep(L: Layout, pf: Pf, h: Heap, size: nat) returns (h1: Heap)
    requires L.Valid() && HeapInv(L, pf, h) && Allowed(L, pf, h, Malloc(size))
    ensures Step(L, pf, h, Malloc(size)) == Some(h1) && HeapInv(L, pf, h1) && Changes(L, pf, h, Malloc(size), h1)
  {
    var r := SysMallocCorrect(L, pf, h, size);
    h1 := After(r).value;
    if r.Ptr? {
      ServedChanges(L, pf, h, size, r.p, h1);
      ServedIsNotShort(L, pf, h, size);
    } else {
      NullChanges(L, pf, h, size, h1);
    }
  }

  lemma FreeStep(L: Layout, pf: Pf, h: Heap, b: nat) returns (h1: Heap)
    requires L.Valid() && HeapInv(L, pf, h) && Allowed(L, pf, h, Free(b))
    ensures Step(L, pf, h, Free(b)) == Some(h1) && HeapInv(L, pf, h1) && Changes(L, pf, h, Free(b), h1)
  {
    SysFreeCorrect(L, pf, h, b);
    h1 := SysFree(L, pf, h, b).value;
  }

  // One allowed call keeps the invariant, and changes the memory as told.
  lemma StepKeeps(L: Layout, pf: Pf, h: Heap, op: Op) returns (h1: Heap)
    requires L.Valid() && HeapInv(L, pf, h) && Allowed(L, pf, h, op)
    ensures Step(L, pf, h, op) == Some(h1) && HeapInv(L, pf, h1) && Changes(L, pf, h, op, h1)
  {
    match op
    case Malloc(size) => h1 := MallocStep(L, pf, h, size);
    case Free(b) => h1 := FreeStep(L, pf, h, b);
  }

  // No run of sys_malloc and sys_free of live pointers stops, and the heap invariant holds after it.
  lemma {:induction false} RunsAreSafe(L: Layout, pf: Pf, h: Heap, ops: seq<Op>) returns (h1: Heap)
    requires L.Valid() && HeapInv(L, pf, h) && WellUsed(L, pf, h, ops)
    ensures Exec(L, pf, h, ops) == Some(h1) && HeapInv(L, pf, h1)
    decreases |ops|
  {
    if ops == [] {
      h1 := h;
    } else {
      var h0 := StepKeeps(L, pf, h, ops[0]);
      h1 := RunsAreSafe(L, pf, h0, ops[1..]);
    }
  }

  // how many calls of the run return with the pool's lock held
  function LargeGrants(L: Layout, pf: Pf, h: Heap, ops: seq<Op>): nat
    decreases |ops|
  {
    if ops == [] || |h.free| != CLASSES || Step(L, pf, h, ops[0]).None? then 0
    else (if KeepsLock(L, pf, h, ops[0]) then 1 else 0) + LargeGrants(L, pf, Step(L, pf, h, ops[0]).value, ops[1..])
  }

  // The lock is balanced over a run exactly when no request above 1024 bytes was served in it.
  lemma {:induction false} LockBalance(L: Layout, pf: Pf, h: Heap, ops: seq<Op>) returns (h1: Heap)
    requires L.Valid() && HeapInv(L, pf, h) && WellUsed(L, pf, h, ops)
    ensures Exec(L, pf, h, ops) == Some(h1) && h1.held == h.held + LargeGrants(L, pf, h, ops)
    decreases |ops|
  {
    if ops == [] {
      h1 := h;
    } else {
      var h0 := StepKeeps(L, pf, h, ops[0]);
      h1 := LockBalance(L, pf, h0, ops[1..]);
    }
  }

  // ---------- conservation ----------

  // some call in the run leaked
  predicate Leaks(L: Layout, pf: Pf, h: Heap, ops: seq<Op>)
    decreases |ops|
  {
    ops != [] && |h.free| == CLASSES && Step(L, pf, h, ops[0]).Some? &&
    (Leaking(L, pf, h, ops[0]) || Leaks(L, pf, Step(L, pf, h, ops[0]).value, ops[1..]))
  }

  // some call in the run made page tables
  predicate TablesMade(L: Layout, pf: Pf, h: Heap, ops: seq<Op>)
    decreases |ops|
  {
    ops != [] && |h.free| == CLASSES && Step(L, pf, h, ops[0]).Some? &&
    (MakesTables(L, pf, h, ops[0]) || TablesMade(L, pf, Step(L, pf, h, ops[0]).value, ops[1..]))
  }

  // a page that is reserved but not the heap's stays so: no later call can give it back
  ghost predicate Stuck(L: Layout, pf: Pf, h: Heap, u: nat) {
    Reserved(L, h.mem, pf, u) && u !in Owned(h.arenas)
  }

  lemma StuckStays(L: Layout, pf: Pf, h: Heap, op: Op, u: nat) returns (h1: Heap)
    requires L.Valid() && HeapInv(L, pf, h) && Stuck(L, pf, h, u) && Allowed(L, pf, h, op)
    ensures Step(L, pf, h, op) == Some(h1) && HeapInv(L, pf, h1) && Stuck(L, pf, h1, u)
  {
    h1 := StepKeeps(L, pf, h, op);
    if !Leaking(L, pf, h, op) {
      StuckOwned(L, pf, h, op, h1, u);
    }
  }

  lemma StuckOwned(L: Layout, pf: Pf, h: Heap, op: Op, h1: Heap, u: nat)
    requires |h.free| == CLASSES && Stuck(L, pf, h, u) && Owns(L, pf, h, op, h1)
    ensures Stuck(L, pf, h1, u)
  {
    if n :| Took(L, pf, h, h1, n) {
      assert u !in Run(RunStart(L, h.mem, pf, n), n);
    } else if p, n :| GaveBack(L, pf, h, h1, p, n) {
      assert u !in Run(p, n);
    }
  }

  // A page stuck once is stuck after every run.
  lemma {:induction false} StuckForever(L: Layout, pf: Pf, h: Heap, ops: seq<Op>, u: nat) returns (h1: Heap)
    requires L.Valid() && HeapInv(L, pf, h) && WellUsed(L, pf, h, ops) && Stuck(L, pf, h, u)
    ensures Exec(L, pf, h, ops) == Some(h1) && Stuck(L, pf, h1, u)
    decreases |ops|
  {
    if ops == [] {
      h1 := h;
    } else {
      var h0 := StuckStays(L, pf, h, ops[0], u);
      h1 := StuckForever(L, pf, h0, ops[1..], u);
    }
  }

  // without live pointers the heap is empty
  lemma NothingLive(L: Layout, pf: Pf, h: Heap)
    requires HeapInv(L, pf, h) && h.live == map[]
    ensures h.arenas == map[] && Owned(h.arenas) == {}
    ensures forall c :: 0 <= c < CLASSES ==> h.free[c] == []
  {
    if p :| p in h.arenas {
      assert ArenaOk(h.arenas[p]);
      if !h.arenas[p].large {
        FullWhenUnused(h, p);
      }
      assert false;
    }
    assert h.arenas == map[];
    forall c | 0 <= c < CLASSES
      ensures h.free[c] == []
    {
      assert forall b: nat :: b in h.free[c] <==> IsBlock(h.arenas, c, b) && b !in h.live;
      HeadMember(h.free[c]);
    }
  }

  lemma HeadMember(s: seq<nat>)
    ensures s == [] || s[0] in s
  {
  }

  // an arena none of whose blocks is live has all of them on the list
  lemma FullWhenUnused(h: Heap, p: nat)
    requires FreeOk(h) && CountsOk(h) && p in h.arenas && !h.arenas[p].large && h.arenas[p].cls < CLASSES
    requires forall b :: b in Blocks(p, h.arenas[p].cls) ==> b !in h.live
    ensures h.arenas[p].cnt == PerArena(h.arenas[p].cls)
  {
    var c := h.arenas[p].cls;
    BlocksFacts(p, c);
    FreeInBound(h, p, c);
    forall b | b in Blocks(p, c)
      ensures b in FreeIn(h.free[c], p)
    {
      assert IsBlock(h.arenas, c, b);
    }
    assert FreeIn(h.free[c], p) == Elems(Blocks(p, c));
  }

  lemma ExtendsAlong(L: Layout, pf: Pf, m0: Mem, h: Heap, op: Op, h1: Heap)
    requires |h.free| == CLASSES && Extends(L, m0, h.mem, pf, Owned(h.arenas)) && Owns(L, pf, h, op, h1)
    ensures Extends(L, m0, h1.mem, pf, Owned(h1.arenas))
  {
    if n :| Took(L, pf, h, h1, n) {
      Compose(L, m0, h.mem, h1.mem, pf, Owned(h.arenas), Run(RunStart(L, h.mem, pf, n), n));
    } else if p, n :| GaveBack(L, pf, h, h1, p, n) {
      Cancel(L, m0, h1.mem, h.mem, pf, Owned(h1.arenas), Run(p, n));
    }
  }

  // After a leak no run, whatever it frees, brings the memory back.
  lemma LeakIsFinal(L: Layout, pf: Pf, m0: Mem, h: Heap, h1: Heap, ops: seq<Op>) returns (h2: Heap)
    requires L.Valid() && HeapInv(L, pf, h1) && WellUsed(L, pf, h1, ops) && h1.arenas == h.arenas
    requires Extends(L, m0, h.mem, pf, Owned(h.arenas)) && LeakedPage(L, pf, h, h1)
    ensures Exec(L, pf, h1, ops) == Some(h2) && m0.VBits(pf) != h2.mem.VBits(pf)
  {
    var u :| !Reserved(L, h.mem, pf, u) && Reserved(L, h1.mem, pf, u);
    assert u !in Owned(h.arenas) && !Reserved(L, m0, pf, u);
    h2 := StuckForever(L, pf, h1, ops, u);
    assert Reserved(L, h2.mem, pf, u);
  }

  // A run without a leak keeps the memory beyond m0 in the heap's hands.
  lemma {:induction false} NoLeak(L: Layout, pf: Pf, m0: Mem, h: Heap, ops: seq<Op>) returns (h1: Heap)
    requires L.Valid() && HeapInv(L, pf, h) && WellUsed(L, pf, h, ops) && !Leaks(L, pf, h, ops)
    requires Extends(L, m0, h.mem, pf, Owned(h.arenas))
    ensures Exec(L, pf, h, ops) == Some(h1) && Extends(L, m0, h1.mem, pf, Owned(h1.arenas))
    decreases |ops|
  {
    if ops == [] {
      h1 := h;
    } else {
      var h0 := StepKeeps(L, pf, h, ops[0]);
      ExtendsAlong(L, pf, m0, h, ops[0], h0);
      h1 := NoLeak(L, pf, m0, h0, ops[1..]);
    }
  }

  lemma SameOrMore(a: map<nat, nat>, b: map<nat, nat>, c: map<nat, nat>)
    requires Within(a, b) && Within(b, c)
    ensures a == c ==> a == b
  {
    if a == c {
      assert a == b;
    }
  }

  // Its page tables only grow, and they stay as they are exactly when no call made any.
  lemma {:induction false} TablesAlong(L: Layout, pf: Pf, h: Heap, ops: seq<Op>) returns (h1: Heap)
    requires L.Valid() && HeapInv(L, pf, h) && WellUsed(L, pf, h, ops) && !Leaks(L, pf, h, ops)
    ensures Exec(L, pf, h, ops) == Some(h1) && Within(h.mem.tables, h1.mem.tables)
    ensures h1.mem.tables == h.mem.tables <==> !TablesMade(L, pf, h, ops)
    decreases |ops|
  {
    if ops == [] {
      h1 := h;
    } else {
      var h0 := StepKeeps(L, pf, h, ops[0]);
      h1 := TablesAlong(L, pf, h0, ops[1..]);
      if MakesTables(L, pf, h, ops[0]) {
        SameOrMore(h.mem.tables, h0.mem.tables, h1.mem.tables);
      }
    }
  }

  lemma {:induction false} ALeak(L: Layout, pf: Pf, m0: Mem, h: Heap, ops: seq<Op>) returns (h1: Heap)
    requires L.Valid() && HeapInv(L, pf, h) && WellUsed(L, pf, h, ops) && Leaks(L, pf, h, ops)
    requires Extends(L, m0, h.mem, pf, Owned(h.arenas))
    ensures Exec(L, pf, h, ops) == Some(h1) && m0.VBits(pf) != h1.mem.VBits(pf)
    decreases |ops|
  {
    var h0 := StepKeeps(L, pf, h, ops[0]);
    if Leaking(L, pf, h, ops[0]) {
      h1 := LeakIsFinal(L, pf, m0, h, h0, ops[1..]);
    } else {
      ExtendsAlong(L, pf, m0, h, ops[0], h0);
      h1 := ALeak(L, pf, m0, h0, ops[1..]);
    }
  }

  // Conservation: let the heap own exactly what the memory has beyond m0, and let a run end with nothing
  // live.  Then the lists are empty and the heap owns nothing.  The memory is m0 again but for page tables
  // -- both virtual bitmaps, the pools and the present entries -- if and only if no request ran short of
  // frames; from the same page tables it is m0 altogether if and only if, besides, none had to make one.
  lemma Conservation(L: Layout, pf: Pf, m0: Mem, h: Heap, ops: seq<Op>) returns (h1: Heap)
    requires L.Valid() && HeapInv(L, pf, h) && WellUsed(L, pf, h, ops)
    requires Extends(L, m0, h.mem, pf, Owned(h.arenas))
    requires Exec(L, pf, h, ops).Some? && Exec(L, pf, h, ops).value.live == map[]
    ensures Exec(L, pf, h, ops) == Some(h1) && h1.arenas == map[] && |h1.free| == CLASSES
    ensures forall c :: 0 <= c < CLASSES ==> h1.free[c] == []
    ensures Extends(L, m0, h1.mem, pf, {}) <==> !Leaks(L, pf, h, ops)
    ensures h.mem.tables == m0.tables ==> (SameMem(m0, h1.mem) <==> !Leaks(L, pf, h, ops) && !TablesMade(L, pf, h, ops))
  {
    h1 := RunsAreSafe(L, pf, h, ops);
    NothingLive(L, pf, h1);
    if Leaks(L, pf, h, ops) {
      var h2 := ALeak(L, pf, m0, h, ops);
      if Extends(L, m0, h1.mem, pf, {}) {
        GrowNothing(L.Start(pf), m0.VBits(pf), h1.mem.VBits(pf));
      }
    } else {
      var h2 := NoLeak(L, pf, m0, h, ops);
      h2 := TablesAlong(L, pf, h, ops);
      EmptyExtension(L, m0, h1.mem, pf);
    }
  }

  // ---------- the kernel's heap ----------

  // kernel pages never lack a page table
  lemma KernelMakesNone(L: Layout, h: Heap, op: Op)
    requires L.Valid() && HeapInv(L, Kernel, h)
    ensures !MakesTables(L, Kernel, h, op) && (op.Malloc? ==> !Misses(L, Kernel, h, op.size))
  {
    if op.Malloc? && PagesFor(h, op.size) != 0 && Fit(h.mem.kBits, PagesFor(h, op.size)).Some? {
      KernelHasTables(L, h.mem, PagesFor(h, op.size), PagesFor(h, op.size));
    }
  }

  lemma {:induction false} KernelRunMakesNone(L: Layout, h: Heap, ops: seq<Op>)
    requires L.Valid() && HeapInv(L, Kernel, h) && WellUsed(L, Kernel, h, ops)
    ensures !TablesMade(L, Kernel, h, ops)
    decreases |ops|
  {
    if ops != [] {
      KernelMakesNone(L, h, ops[0]);
      var h0 := StepKeeps(L, Kernel, h, ops[0]);
      KernelRunMakesNone(L, h0, ops[1..]);
    }
  }

  // So a run of the kernel's heap that ends with nothing live restores the memory altogether exactly if no
  // request ran short of frames.
  lemma KernelConservation(L: Layout, m0: Mem, h: Heap, ops: seq<Op>) returns (h1: Heap)
    requires L.Valid() && HeapInv(L, Kernel, h) && WellUsed(L, Kernel, h, ops)
    requires Extends(L, m0, h.mem, Kernel, Owned(h.arenas))
    requires Exec(L, Kernel, h, ops).Some? && Exec(L, Kernel, h, ops).value.live == map[]
    ensures Exec(L, Kernel, h, ops) == Some(h1) && h1.arenas == map[]
    ensures SameMem(m0, h1.mem) <==> !Leaks(L, Kernel, h, ops)
  {
    KernelRunMakesNone(L, h, ops);
    h1 := Conservation(L, Kernel, m0, h, ops);
  }
}
