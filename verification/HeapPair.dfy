/** The kernel's heap and a process's heap on one memory: they share frames for page tables and nothing else. */
module HeapPair {
  import opened Bits
  import opened Pages
  import opened Heap
  import opened HeapProofs
  import opened HeapRuns

  // the two heaps hold the same memory
  datatype Pair = Pair(kernel: Heap, user: Heap)
  {
    function Of(pf: Pf): Heap { if pf.Kernel? then kernel else user }

    // heap h of that pool after a call, and the other one with h's memory
    function With(pf: Pf, h: Heap): Pair {
      if pf.Kernel? then Pair(h, user.(mem := h.mem)) else Pair(kernel.(mem := h.mem), h)
    }
  }

  ghost predicate PairInv(L: Layout, s: Pair) {
    HeapInv(L, Kernel, s.kernel) && HeapInv(L, User, s.user) && s.kernel.mem == s.user.mem
  }

  // no page of the other side goes away
  ghost predicate OthersStay(L: Layout, pf: Pf, m: Mem, m1: Mem) {
    forall u: nat :: m.Present(u) && L.Side(u) != pf ==> m1.Present(u)
  }

  lemma MallocOthers(L: Layout, pf: Pf, h: Heap, size: nat) returns (h1: Heap)
    requires L.Valid() && HeapInv(L, pf, h) && Allowed(L, pf, h, Malloc(size))
    ensures Step(L, pf, h, Malloc(size)) == Some(h1) && OthersStay(L, pf, h.mem, h1.mem)
  {
    var r := SysMallocCorrect(L, pf, h, size);
    h1 := After(r).value;
    if r.Ptr? && PagesFor(h, size) != 0 {
      var n := PagesFor(h, size);
      assert MapExt(h.mem, h1.mem, Run(RunStart(L, h.mem, pf, n), n));
    } else if r.Null? && RunsShort(L, pf, h, size) {
      var n, k := PagesFor(h, size), Clear(h.mem.Pool(pf));
      assert MapExt(h.mem, h1.mem, Run(RunStart(L, h.mem, pf, n), k));
    }
  }

  lemma FreeOthers(L: Layout, pf: Pf, h: Heap, b: nat) returns (h1: Heap)
    requires L.Valid() && HeapInv(L, pf, h) && Allowed(L, pf, h, Free(b))
    ensures Step(L, pf, h, Free(b)) == Some(h1) && OthersStay(L, pf, h.mem, h1.mem)
  {
    h1 := FreeStep(L, pf, h, b);
    if n :| Took(L, pf, h, h1, n) {
      assert MapExt(h.mem, h1.mem, Run(RunStart(L, h.mem, pf, n), n));
    } else if p, n :| GaveBack(L, pf, h, h1, p, n) {
      OwnedSide(L, pf, h);
      assert MapExt(h1.mem, h.mem, Run(p, n));
    }
  }

  lemma OwnedSide(L: Layout, pf: Pf, h: Heap)
    requires HeapInv(L, pf, h)
    ensures forall u :: u in Owned(h.arenas) ==> L.Side(u) == pf
  {
  }

  // the other heap's part of the invariant only needs its pages
  lemma OtherKeeps(L: Layout, pf: Pf, g: Heap, m1: Mem)
    requires HeapInv(L, pf.Other(), g) && PageInv(L, m1) && OthersStay(L, pf, g.mem, m1)
    ensures HeapInv(L, pf.Other(), g.(mem := m1))
  {
    var g1 := g.(mem := m1);
    forall p, u | InArena(g1.arenas, p, u)
      ensures m1.Present(u) && L.Side(u) == pf.Other()
    {
      assert InArena(g.arenas, p, u);
    }
    assert ArenasOk(L, pf.Other(), g1.arenas, m1);
    forall b | b in g1.live
      ensures LiveFits(g1, b)
    {
      assert LiveFits(g, b);
    }
    forall c, b: nat | 0 <= c < CLASSES
      ensures b in g1.free[c] <==> IsBlock(g1.arenas, c, b) && b !in g1.live
    {
      assert b in g.free[c] <==> IsBlock(g.arenas, c, b) && b !in g.live;
    }
  }

  // A call of one heap keeps the invariants of both.
  lemma PairStepKeeps(L: Layout, s: Pair, pf: Pf, op: Op) returns (s1: Pair)
    requires L.Valid() && PairInv(L, s) && |s.Of(pf).free| == CLASSES && Allowed(L, pf, s.Of(pf), op)
    ensures Step(L, pf, s.Of(pf), op).Some? && s1 == s.With(pf, Step(L, pf, s.Of(pf), op).value) && PairInv(L, s1)
  {
    var h := s.Of(pf);
    var h1 := StepKeeps(L, pf, h, op);
    match op {
      case Malloc(size) => var h2 := MallocOthers(L, pf, h, size);
      case Free(b) => var h2 := FreeOthers(L, pf, h, b);
    }
    OtherKeeps(L, pf, s.Of(pf.Other()), h1.mem);
    s1 := s.With(pf, h1);
  }

  // ---------- runs of both ----------

  datatype Call = Call(pf: Pf, op: Op)

  predicate PairWellUsed(L: Layout, s: Pair, calls: seq<Call>)
    decreases |calls|
  {
    calls == [] ||
    var h := s.Of(calls[0].pf);
    && |h.free| == CLASSES && Allowed(L, calls[0].pf, h, calls[0].op)
    && (Step(L, calls[0].pf, h, calls[0].op).Some? ==>
          PairWellUsed(L, s.With(calls[0].pf, Step(L, calls[0].pf, h, calls[0].op).value), calls[1..]))
  }

  function PairExec(L: Layout, s: Pair, calls: seq<Call>): Option<Pair>
    decreases |calls|
  {
    if calls == [] then Some(s)
    else if |s.Of(calls[0].pf).free| != CLASSES then None
    else
      match Step(L, calls[0].pf, s.Of(calls[0].pf), calls[0].op)
      case None => None
      case Some(h1) => PairExec(L, s.With(calls[0].pf, h1), calls[1..])
  }

  // However calls of the two heaps interleave, none stops and both invariants hold throughout.
  lemma {:induction false} PairRunsAreSafe(L: Layout, s: Pair, calls: seq<Call>) returns (s1: Pair)
    requires L.Valid() && PairInv(L, s) && PairWellUsed(L, s, calls)
    ensures PairExec(L, s, calls) == Some(s1) && PairInv(L, s1)
    decreases |calls|
  {
    if calls == [] {
      s1 := s;
    } else {
      var s0 := PairStepKeeps(L, s, calls[0].pf, calls[0].op);
      s1 := PairRunsAreSafe(L, s0, calls[1..]);
    }
  }

  // What the kernel and the process hold never overlaps: kernel allocations lie above all of the process's.
  lemma HeapsDisjoint(L: Layout, s: Pair, b: nat, d: nat)
    requires PairInv(L, s) && b in s.user.live && d in s.kernel.live
    ensures b + s.user.live[b] <= L.kStart * PAGE <= d
  {
    assert LiveFits(s.user, b) && LiveFits(s.kernel, d);
    InsideArena(s.user, b);
    InsideArena(s.kernel, d);
    var p, q := ArenaOf(b), ArenaOf(d);
    assert ArenaOk(s.user.arenas[p]) && ArenaOk(s.kernel.arenas[q]);
    assert InArena(s.user.arenas, p, p + s.user.arenas[p].Span() - 1);
    assert InArena(s.kernel.arenas, q, q);
  }
}
