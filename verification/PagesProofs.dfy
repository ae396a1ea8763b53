/** malloc_page and mfree_page keep the page map consistent; when each succeeds and what it changes. */
module PagesProofs {
  import opened Bits
  import opened Pages

  // ---------- one page ----------

  ghost predicate HasTable(m: Mem, u: nat) { Slot(u) in m.tables }

  // every present page has a page table
  ghost predicate Tabled(m: Mem) {
    forall u: nat {:trigger HasTable(m, u)} :: m.Present(u) ==> HasTable(m, u)
  }

  // what the loop finds: unmapped pages, with page tables if they are the kernel's
  ghost predicate Mappable(L: Layout, m: Mem, pf: Pf, v: nat, n: nat) {
    && Sized(L, m) && Tabled(m)
    && forall u :: u in Run(v, n) ==> !m.Present(u) && (pf.Kernel? ==> Slot(u) in m.tables)
  }

  // m1 is m with page v mapped, and with a page table for it if there was none
  ghost predicate Turned(L: Layout, m: Mem, m1: Mem, pf: Pf, v: nat) {
    && FramesExt(L, m, m1, pf, {v}) && Sized(L, m1) && Tabled(m1)
    && m1.kBits == m.kBits && m1.uBits == m.uBits
    && TablesIn(m, m1, {Slot(v)})
    && Clear(m1.Pool(pf)) == Clear(m.Pool(pf)) - 1
    && (pf.User? ==> Clear(m.kPool) == Clear(m1.kPool) + if Slot(v) in m.tables then 0 else 1)
  }

  // with the page table present
  lemma EntryTurn(L: Layout, m: Mem, pf: Pf, v: nat) returns (f: nat, m0: Mem, m1: Mem)
    requires Sized(L, m) && Tabled(m) && !m.Present(v) && Slot(v) in m.tables && Fit(m.Pool(pf), 1).Some?
    ensures Palloc(L, m, pf) == Some((f, m0)) && AddEntry(m0, v, f) == Added(m1)
    ensures Turned(L, m, m1, pf, v)
  {
    var i := Fit(m.Pool(pf), 1).value;
    f, m0 := L.Base(pf) + i, m.WithPool(pf, SetRun(m.Pool(pf), i, 1, true));
    m1 := m0.(pt := m0.pt[v := Pte(f, true)]);
    TakenOne(L, m, pf, i);
    EntryExt(m, m1, v, f);
    NoNewTables(m, m1);
    forall u: nat | m1.Present(u)
      ensures HasTable(m1, u)
    {
      assert HasTable(m, u);
    }
  }

  lemma TakenOne(L: Layout, m: Mem, pf: Pf, i: nat)
    requires Fit(m.Pool(pf), 1) == Some(i)
    ensures Grows(L.Base(pf), m.Pool(pf), SetRun(m.Pool(pf), i, 1, true), {L.Base(pf) + i})
    ensures Clear(SetRun(m.Pool(pf), i, 1, true)) == Clear(m.Pool(pf)) - 1
  {
    FirstFit(m.Pool(pf), 1);
    ClearOneLess(m.Pool(pf));
    GrowByRun(L.Base(pf), m.Pool(pf), i, 1);
    assert Run(L.Base(pf) + i, 1) == {L.Base(pf) + i};
  }

  lemma EntryExt(m: Mem, m1: Mem, v: nat, f: nat)
    requires !m.Present(v) && m1.pt == m.pt[v := Pte(f, true)]
    ensures MapExt(m, m1, {v}) && FramesOf(m1, {v}) == {f}
    ensures forall u: nat :: m1.Present(u) <==> u == v || m.Present(u)
  {
  }

  // a new page table for slot d
  lemma TableTurn(L: Layout, m: Mem, d: nat) returns (t: nat, m0: Mem, m1: Mem)
    requires Sized(L, m) && Tabled(m) && d !in m.tables && Fit(m.kPool, 1).Some?
    ensures Palloc(L, m, Kernel) == Some((t, m0)) && m1 == WithTable(m0, d, t)
    ensures FramesExt(L, m, m1, User, {}) && Sized(L, m1) && Tabled(m1)
    ensures m1.uPool == m.uPool && m1.kBits == m.kBits && m1.uBits == m.uBits
    ensures TablesIn(m, m1, {d}) && Clear(m1.kPool) == Clear(m.kPool) - 1
    ensures forall u: nat :: m1.Present(u) == m.Present(u)
  {
    var i := Fit(m.kPool, 1).value;
    t, m0 := L.kBase + i, m.WithPool(Kernel, SetRun(m.kPool, i, 1, true));
    m1 := WithTable(m0, d, t);
    TakenOne(L, m, Kernel, i);
    assert m.Pool(Kernel) == m.kPool;
    TableExt(m, m0, m1, d, t);
  }

  lemma TableExt(m: Mem, m0: Mem, m1: Mem, d: nat, t: nat)
    requires Tabled(m) && d !in m.tables && m0.tables == m.tables && m0.pt == m.pt && m1 == WithTable(m0, d, t)
    ensures MapExt(m, m1, {}) && FramesOf(m1, {}) == {} && Tabled(m1)
    ensures TablesExt(m, m1) && NewTables(m, m1) == {t} && TablesIn(m, m1, {d})
    ensures forall u: nat :: m1.Present(u) == m.Present(u)
  {
    forall u: nat
      ensures m1.Present(u) == m.Present(u) && (m.Present(u) ==> m1.Frame(u) == m.Frame(u))
    {
      assert m.Present(u) ==> HasTable(m, u) && Slot(u) != d;
    }
    forall u: nat | m1.Present(u)
      ensures HasTable(m1, u)
    {
      assert HasTable(m, u);
    }
    assert d in m1.tables && m1.tables[d] == t;
  }

  // the loop's first turn, when the pools have the frames it needs
  lemma FirstTurn(L: Layout, m: Mem, pf: Pf, v: nat, n: nat) returns (m1: Mem)
    requires n > 0 && Mappable(L, m, pf, v, n) && Clear(m.Pool(pf)) > 0 && (Slot(v) in m.tables || Clear(m.kPool) > 0)
    ensures Turned(L, m, m1, pf, v)
    ensures MapPages(L, m, pf, v, n) == Later(MapPages(L, m1, pf, v + 1, n - 1))
  {
    assert v in Run(v, n);
    NoneClear(m.Pool(pf));
    var f, m0;
    if Slot(v) in m.tables {
      f, m0, m1 := EntryTurn(L, m, pf, v);
    } else {
      m1 := TurnWithTable(L, m, v);
    }
  }

  lemma TurnWithTable(L: Layout, m: Mem, v: nat) returns (m1: Mem)
    requires Sized(L, m) && Tabled(m) && !m.Present(v) && Slot(v) !in m.tables
    requires Clear(m.uPool) > 0 && Clear(m.kPool) > 0
    ensures Turned(L, m, m1, User, v) && Palloc(L, m, User).Some?
    ensures PageTableAdd(L, Palloc(L, m, User).value.1, v, Palloc(L, m, User).value.0) == Added(m1)
  {
    NoneClear(m.kPool);
    NoneClear(m.uPool);
    var t, a, b := TableTurn(L, m, Slot(v));
    var f, m0;
    f, m0, m1 := EntryTurn(L, b, User, v);
    FramesCompose(L, m, b, m1, User, {}, {v});
    assert {} + {v} == {v};
    TwoAllocs(L, m, v, f, t, a, b, m0, m1);
  }

  // taking the table's frame before the page's gives the same memory
  lemma TwoAllocs(L: Layout, m: Mem, v: nat, f: nat, t: nat, a: Mem, b: Mem, m0: Mem, m1: Mem)
    requires Slot(v) !in m.tables
    requires Palloc(L, m, Kernel) == Some((t, a)) && b == WithTable(a, Slot(v), t)
    requires Palloc(L, b, User) == Some((f, m0)) && AddEntry(m0, v, f) == Added(m1)
    ensures Palloc(L, m, User).Some? && Palloc(L, m, User).value.0 == f
    ensures PageTableAdd(L, Palloc(L, m, User).value.1, v, f) == Added(m1)
  {
    var c := Palloc(L, m, User).value.1;
    var d := Palloc(L, c, Kernel).value.1;
    assert WithTable(d, Slot(v), t) == m0;
  }

  // ---------- the loop of malloc_page ----------

  // turn i of the loop leads from ms[i] to ms[i + 1]
  ghost predicate TurnAt(L: Layout, ms: seq<Mem>, pf: Pf, v: nat, i: nat)
    requires i + 1 < |ms|
  {
    Turned(L, ms[i], ms[i + 1], pf, v + i)
  }

  // the states the loop goes through
  ghost predicate Turns(L: Layout, ms: seq<Mem>, pf: Pf, v: nat) {
    ms != [] && forall i: nat {:trigger TurnAt(L, ms, pf, v, i)} :: i + 1 < |ms| ==> TurnAt(L, ms, pf, v, i)
  }

  // the loop stops after k of n turns in m2
  ghost predicate Stops(m2: Mem, pf: Pf, v: nat, n: nat, k: nat, r: Outcome) {
    if k == n then r == Done(m2)
    else if Clear(m2.Pool(pf)) == 0 then k < n && r == Failed(m2, k)
    else k < n && pf.User? && Slot(v + k) !in m2.tables && Clear(m2.kPool) == 0 && r == WildTable
  }

  lemma MappableRest(L: Layout, m: Mem, m1: Mem, pf: Pf, v: nat, n: nat)
    requires n > 0 && Mappable(L, m, pf, v, n) && Turned(L, m, m1, pf, v)
    ensures Mappable(L, m1, pf, v + 1, n - 1)
  {
    forall u | u in Run(v + 1, n - 1)
      ensures !m1.Present(u) && (pf.Kernel? ==> Slot(u) in m1.tables)
    {
      assert u in Run(v, n) && u !in {v};
    }
  }

  // the loop's outcome from m on
  ghost predicate Loops(L: Layout, m: Mem, pf: Pf, v: nat, n: nat, r: Outcome) {
    r == MapPages(L, m, pf, v, n)
  }

  // the loop stops at once
  lemma NoTurn(L: Layout, m: Mem, pf: Pf, v: nat, n: nat, r: Outcome)
    requires Mappable(L, m, pf, v, n) && Loops(L, m, pf, v, n, r)
    requires n == 0 || Clear(m.Pool(pf)) == 0 || (Slot(v) !in m.tables && Clear(m.kPool) == 0)
    ensures Stops(m, pf, v, n, 0, r)
  {
    NoneClear(m.Pool(pf));
    NoneClear(m.kPool);
    assert n > 0 ==> v in Run(v, n);
  }

  // one turn, after which the loop goes on with the rest
  lemma TurnBegins(L: Layout, m: Mem, pf: Pf, v: nat, n: nat) returns (m1: Mem, r: Outcome)
    requires n > 0 && Mappable(L, m, pf, v, n) && Clear(m.Pool(pf)) > 0 && (Slot(v) in m.tables || Clear(m.kPool) > 0)
    ensures Turns(L, [m, m1], pf, v) && Mappable(L, m1, pf, v + 1, n - 1)
    ensures Loops(L, m1, pf, v + 1, n - 1, r) && Loops(L, m, pf, v, n, Later(r))
  {
    m1 := FirstTurn(L, m, pf, v, n);
    r := MapPages(L, m1, pf, v + 1, n - 1);
    MappableRest(L, m, m1, pf, v, n);
    assert TurnAt(L, [m, m1], pf, v, 0);
  }

  lemma OneTurnMore(L: Layout, m: Mem, m1: Mem, ms: seq<Mem>, pf: Pf, v: nat)
    requires Turns(L, ms, pf, v + 1) && Turns(L, [m, m1], pf, v) && ms[0] == m1
    ensures Turns(L, [m] + ms, pf, v)
  {
    var all := [m] + ms;
    forall i: nat | i + 1 < |all|
      ensures TurnAt(L, all, pf, v, i)
    {
      if i > 0 {
        assert TurnAt(L, ms, pf, v + 1, i - 1);
      } else {
        assert TurnAt(L, [m, m1], pf, v, 0);
      }
    }
  }

  // where the rest of the loop stops, the loop stops
  lemma LoopGoesOn(L: Layout, m: Mem, m1: Mem, ms: seq<Mem>, m2: Mem, pf: Pf, v: nat, n: nat, k: nat, r: Outcome)
    requires n > 0 && Turns(L, [m, m1], pf, v) && Turns(L, ms, pf, v + 1) && Stops(m2, pf, v + 1, n - 1, k, r)
    requires |ms| == k + 1 && ms[0] == m1 && ms[k] == m2
    ensures Turns(L, [m] + ms, pf, v) && |[m] + ms| == k + 2 && ([m] + ms)[0] == m && ([m] + ms)[k + 1] == m2
    ensures Stops(m2, pf, v, n, k + 1, Later(r))
  {
    OneTurnMore(L, m, m1, ms, pf, v);
  }

  // the loop runs through some states and stops in the last of them
  lemma {:induction false} LoopTurns(L: Layout, m: Mem, pf: Pf, v: nat, n: nat, r: Outcome)
    returns (ms: seq<Mem>, m2: Mem, k: nat)
    requires Mappable(L, m, pf, v, n) && Loops(L, m, pf, v, n, r)
    ensures Turns(L, ms, pf, v) && |ms| == k + 1 && ms[0] == m && ms[k] == m2 && Stops(m2, pf, v, n, k, r)
    decreases n
  {
    if n == 0 || Clear(m.Pool(pf)) == 0 || (Slot(v) !in m.tables && Clear(m.kPool) == 0) {
      NoTurn(L, m, pf, v, n, r);
      ms, m2, k := [m], m, 0;
    } else {
      var m1, r1 := TurnBegins(L, m, pf, v, n);
      var j, ms1;
      ms1, m2, j := LoopTurns(L, m1, pf, v + 1, n - 1, r1);
      LoopGoesOn(L, m, m1, ms1, m2, pf, v, n, j, r1);
      ms, k := [m] + ms1, j + 1;
    }
  }

  // k pages from v on mapped
  ghost predicate MapsRun(L: Layout, m: Mem, m1: Mem, pf: Pf, v: nat, k: nat) {
    && FramesExt(L, m, m1, pf, Run(v, k)) && m1.kBits == m.kBits && m1.uBits == m.uBits
    && TablesIn(m, m1, MissingSlots(m, v, k))
  }

  // what their frames and page tables cost
  ghost predicate Paid(m: Mem, m1: Mem, pf: Pf, v: nat, k: nat) {
    && Clear(m.Pool(pf)) == Clear(m1.Pool(pf)) + k
    && (pf.User? ==> Clear(m.kPool) == Clear(m1.kPool) + |MissingSlots(m, v, k)|)
  }

  lemma MissingNext(m: Mem, v: nat, k: nat, d: nat)
    ensures d in MissingSlots(m, v, k + 1) <==> d in MissingSlots(m, v, k) || (d == Slot(v + k) && d !in m.tables)
  {
    if d in MissingSlots(m, v, k + 1) {
      var u :| u in Run(v, k + 1) && Slot(u) !in m.tables && Slot(u) == d;
      assert d != Slot(v + k) ==> u in Run(v, k);
    }
    if d in MissingSlots(m, v, k) {
      var u :| u in Run(v, k) && Slot(u) !in m.tables && Slot(u) == d;
      assert u in Run(v, k + 1);
    }
    assert v + k in Run(v, k + 1);
  }

  lemma MissingCount(m: Mem, m1: Mem, v: nat, k: nat)
    requires TablesIn(m, m1, MissingSlots(m, v, k))
    ensures |MissingSlots(m, v, k + 1)| == |MissingSlots(m, v, k)| + if Slot(v + k) in m1.tables then 0 else 1
  {
    var A, B, d0 := MissingSlots(m, v, k + 1), MissingSlots(m, v, k), Slot(v + k);
    forall d
      ensures d in A <==> d in B || (d == d0 && d !in m.tables)
    {
      MissingNext(m, v, k, d);
    }
    assert A == if d0 in m1.tables then B else B + {d0};
  }

  lemma MoreFrames(L: Layout, m: Mem, m1: Mem, m2: Mem, pf: Pf, v: nat, k: nat)
    requires FramesExt(L, m, m1, pf, Run(v, k)) && FramesExt(L, m1, m2, pf, {v + k})
    ensures FramesExt(L, m, m2, pf, Run(v, k + 1))
  {
    var S, T := Run(v, k), {v + k};
    FramesCompose(L, m, m1, m2, pf, S, T);
    assert Run(v, k + 1) == S + T;
  }

  lemma MoreTables(m: Mem, m1: Mem, m2: Mem, v: nat, k: nat)
    requires TablesIn(m, m1, MissingSlots(m, v, k)) && TablesIn(m1, m2, {Slot(v + k)})
    ensures TablesIn(m, m2, MissingSlots(m, v, k + 1))
  {
    forall d
      ensures d in m2.tables <==> d in m.tables || d in MissingSlots(m, v, k + 1)
    {
      MissingNext(m, v, k, d);
    }
  }

  lemma OneMore(L: Layout, m: Mem, m1: Mem, m2: Mem, pf: Pf, v: nat, k: nat)
    requires MapsRun(L, m, m1, pf, v, k) && Paid(m, m1, pf, v, k) && Turned(L, m1, m2, pf, v + k)
    ensures MapsRun(L, m, m2, pf, v, k + 1) && Paid(m, m2, pf, v, k + 1)
  {
    MoreFrames(L, m, m1, m2, pf, v, k);
    MoreTables(m, m1, m2, v, k);
    MissingCount(m, m1, v, k);
  }

  lemma NoneMore(L: Layout, m: Mem, pf: Pf, v: nat)
    ensures MapsRun(L, m, m, pf, v, 0) && Paid(m, m, pf, v, 0)
  {
    NoExtension(L, m, pf);
    assert Run(v, 0) == {} && MissingSlots(m, v, 0) == {};
  }

  lemma TurnsMap(L: Layout, ms: seq<Mem>, m: Mem, m2: Mem, pf: Pf, v: nat, k: nat)
    requires Turns(L, ms, pf, v) && |ms| == k + 1 && ms[0] == m && ms[k] == m2
    ensures MapsRun(L, m, m2, pf, v, k) && Paid(m, m2, pf, v, k)
  {
    NoneMore(L, m, pf, v);
    var i, b := 0, m;
    while i != k
      invariant i <= k && b == ms[i]
      invariant MapsRun(L, m, b, pf, v, i) && Paid(m, b, pf, v, i)
      decreases k - i
    {
      assert TurnAt(L, ms, pf, v, i);
      var c := ms[i + 1];
      OneMore(L, m, b, c, pf, v, i);
      i, b := i + 1, c;
    }
  }

  // the loop ends after k pages
  ghost predicate MapsSome(L: Layout, m: Mem, pf: Pf, v: nat, n: nat, k: nat, r: Outcome) {
    && (if k == n then r.Done? else r.Failed? && r.mapped == k && Clear(r.mem.Pool(pf)) == 0)
    && MapsRun(L, m, r.mem, pf, v, k)
  }

  ghost predicate MapOutcome(L: Layout, m: Mem, pf: Pf, v: nat, n: nat, r: Outcome) {
    if TablesFit(m, v, Affordable(m, pf, n)) then MapsSome(L, m, pf, v, n, Affordable(m, pf, n), r)
    else r == WildTable
  }

  lemma KernelTablesFit(L: Layout, m: Mem, v: nat, n: nat, k: nat)
    requires Mappable(L, m, Kernel, v, n) && k <= n
    ensures MissingSlots(m, v, k) == {}
  {
    forall u | u in Run(v, k)
      ensures Slot(u) in m.tables
    {
      assert u in Run(v, n);
    }
  }

  // the page after k needs one page table more than these
  lemma MoreMissing(m: Mem, m2: Mem, v: nat, k: nat, j: nat)
    requires TablesIn(m, m2, MissingSlots(m, v, k)) && Slot(v + k) !in m2.tables && k < j
    ensures |MissingSlots(m, v, k)| < |MissingSlots(m, v, j)|
  {
    var A, B := MissingSlots(m, v, k), MissingSlots(m, v, j);
    forall u | u in Run(v, k)
      ensures u in Run(v, j)
    {
    }
    assert v + k in Run(v, j);
    SubsetSize(A + {Slot(v + k)}, B);
  }

  // The mapping loop never trips over a present entry; it maps as many pages of the run as the pool has
  // frames for, unless the kernel pool has none left for a page table on the way.
  lemma MapPagesExtends(L: Layout, m: Mem, pf: Pf, v: nat, n: nat) returns (r: Outcome)
    requires Mappable(L, m, pf, v, n)
    ensures r == MapPages(L, m, pf, v, n) && MapOutcome(L, m, pf, v, n, r)
  {
    var ms, m2, k;
    r := MapPages(L, m, pf, v, n);
    ms, m2, k := LoopTurns(L, m, pf, v, n, r);
    TurnsMap(L, ms, m, m2, pf, v, k);
    OutcomeFromTurns(L, m, m2, pf, v, n, k, r);
  }

  lemma OutcomeFromTurns(L: Layout, m: Mem, m2: Mem, pf: Pf, v: nat, n: nat, k: nat, r: Outcome)
    requires Mappable(L, m, pf, v, n) && Stops(m2, pf, v, n, k, r)
    requires MapsRun(L, m, m2, pf, v, k) && Paid(m, m2, pf, v, k)
    ensures MapOutcome(L, m, pf, v, n, r)
  {
    if pf.Kernel? {
      KernelTablesFit(L, m, v, n, k);
    }
    if r.WildTable? {
      MoreMissing(m, m2, v, k, Affordable(m, pf, n));
    }
  }

  // ---------- the invariant ----------

  // the virtual run vaddr_get hands out: clear bits, hence no present entries
  lemma FreshRun(L: Layout, m: Mem, pf: Pf, n: nat)
    requires L.Valid() && PageInv(L, m) && n >= 1 && Fit(m.VBits(pf), n).Some?
    ensures var i := Fit(m.VBits(pf), n).value; var v := L.Start(pf) + i;
            && i + n <= L.PageCnt(pf)
            && Grows(L.Start(pf), m.VBits(pf), SetRun(m.VBits(pf), i, n, true), Run(v, n))
            && forall u :: u in Run(v, n) ==> L.Side(u) == pf && !m.Present(u) && (pf.Kernel? ==> Slot(u) in m.tables)
  {
    FirstFit(m.VBits(pf), n);
    var i := Fit(m.VBits(pf), n).value;
    GrowByRun(L.Start(pf), m.VBits(pf), i, n);
    forall u | u in Run(L.Start(pf) + i, n)
      ensures L.Side(u) == pf && !m.Present(u) && (pf.Kernel? ==> Slot(u) in m.tables)
    {
      assert !Reserved(L, m, pf, u);
      assert m.Present(u) ==> Backed(L, m, u);
    }
  }

  // page tables lie below the user pool, and those in the kernel pool are taken
  lemma TablePlace(L: Layout, m: Mem, f: nat)
    requires L.Valid() && Sized(L, m) && TablesOk(L, m)
    ensures IsTable(m, f) ==> f < L.uBase && (f >= L.kBase ==> Taken(L, m, Kernel, f))
  {
  }

  lemma InvTables(L: Layout, a: Mem, b: Mem, pf: Pf, S: set<nat>)
    requires TablesOk(L, a) && FramesExt(L, a, b, pf, S)
    ensures TablesOk(L, b)
  {
    forall d | d in b.tables
      ensures b.tables[d] < L.kBase || Taken(L, b, Kernel, b.tables[d])
      ensures d !in a.tables ==> b.tables[d] in NewTables(a, b) && b.tables[d] >= L.kBase && !Taken(L, a, Kernel, b.tables[d])
    {
      assert d in a.tables ==> b.tables[d] == a.tables[d];
    }
    forall d, e | OwnTable(L, b, d, e)
      ensures TablesApart(b, d, e)
    {
      assert TablesApart(a, d, e) && TablesApart(a, e, d);
      assert d !in a.tables && e !in a.tables ==> TablesApart(b, d, e);
    }
  }

  // a page mapped by the extension
  lemma NewBacked(L: Layout, a: Mem, b: Mem, pf: Pf, S: set<nat>, v: nat)
    requires L.Valid() && Sized(L, a) && Sized(L, b) && TablesOk(L, a) && TablesOk(L, b) && FramesExt(L, a, b, pf, S)
    requires v in S && L.Side(v) == pf && Reserved(L, b, pf, v) && Slot(v) in b.tables
    ensures Backed(L, b, v)
  {
    var f := b.Frame(v);
    assert f in FramesOf(b, S);
    TablePlace(L, a, f);
    TablePlace(L, b, f);
    assert pf.Kernel? ==> IsTable(a, f) == IsTable(b, f);
  }

  // a page that was mapped before
  lemma OldBacked(L: Layout, a: Mem, b: Mem, pf: Pf, S: set<nat>, v: nat)
    requires L.Valid() && Sized(L, a) && Backed(L, a, v) && FramesExt(L, a, b, pf, S)
    requires v !in S && a.Present(v) && Reserved(L, b, L.Side(v), v)
    ensures Backed(L, b, v)
  {
    var f := b.Frame(v);
    assert f == a.Frame(v) && !IsTable(a, f);
    assert forall d :: d in b.tables && d !in a.tables ==> b.tables[d] in NewTables(a, b);
  }

  lemma InvDistinct(L: Layout, a: Mem, b: Mem, pf: Pf, S: set<nat>)
    requires L.Valid() && PageInv(L, a) && FramesExt(L, a, b, pf, S) && forall u :: u in S ==> L.Side(u) == pf
    ensures DistinctFrames(b)
  {
    forall v: nat, w: nat
      ensures FramesApart(b, v, w)
    {
      assert FramesApart(a, v, w);
      assert v in S ==> b.Frame(v) in FramesOf(b, S);
      assert w in S ==> b.Frame(w) in FramesOf(b, S);
      assert a.Present(v) ==> Backed(L, a, v);
      assert a.Present(w) ==> Backed(L, a, w);
    }
  }

  // The page-map invariant survives mapping pages that are reserved already.
  lemma InvFrames(L: Layout, a: Mem, b: Mem, pf: Pf, S: set<nat>)
    requires L.Valid() && PageInv(L, a) && FramesExt(L, a, b, pf, S)
    requires a.kBits == b.kBits && a.uBits == b.uBits
    requires forall u :: u in S ==> L.Side(u) == pf && Reserved(L, a, pf, u) && Slot(u) in b.tables
    ensures PageInv(L, b)
  {
    InvTables(L, a, b, pf, S);
    InvDistinct(L, a, b, pf, S);
    forall v: nat | b.Present(v)
      ensures Backed(L, b, v)
    {
      if v in S {
        NewBacked(L, a, b, pf, S, v);
      } else {
        OldBacked(L, a, b, pf, S, v);
      }
    }
  }

  // ... and changing the reservation of pages that are not present, or reserving more.
  lemma InvBits(L: Layout, a: Mem, b: Mem)
    requires PageInv(L, a) && Sized(L, b)
    requires a.kPool == b.kPool && a.uPool == b.uPool && a.tables == b.tables && a.pt == b.pt
    requires forall v: nat :: a.Present(v) ==> Reserved(L, b, L.Side(v), v)
    ensures PageInv(L, b)
  {
    assert forall v: nat :: a.Entry(v) == b.Entry(v);
    forall v: nat | b.Present(v)
      ensures Backed(L, b, v)
    {
      assert a.Present(v) && Backed(L, a, v);
      assert IsTable(b, b.Frame(v)) ==> IsTable(a, a.Frame(v));
    }
    forall v: nat, w: nat
      ensures FramesApart(b, v, w)
    {
      assert FramesApart(a, v, w);
    }
    forall d, e | OwnTable(L, b, d, e)
      ensures TablesApart(b, d, e)
    {
      assert TablesApart(a, d, e);
    }
  }

  // ---------- malloc_page ----------

  // what a successful malloc_page adds: n fresh consecutive pages, and the page tables that were missing
  ghost predicate GotPages(L: Layout, m: Mem, m1: Mem, pf: Pf, v: nat, n: nat) {
    && PageInv(L, m1) && Extends(L, m, m1, pf, Run(v, n)) && TablesIn(m, m1, MissingSlots(m, v, n))
    && L.Start(pf) <= v && v + n <= L.Start(pf) + L.PageCnt(pf)
  }

  // what a failed malloc_page leaves behind: a run of n virtual bits set and its first k pages mapped
  ghost predicate Leaked(L: Layout, m: Mem, m1: Mem, pf: Pf, n: nat, k: nat) {
    && Exhausted(L, m, pf, n) && k == Clear(m.Pool(pf)) && PageInv(L, m1)
    && m1.VBits(pf) == SetRun(m.VBits(pf), Fit(m.VBits(pf), n).value, n, true)
    && m1.VBits(pf.Other()) == m.VBits(pf.Other())
    && FramesExt(L, m, m1, pf, Run(RunStart(L, m, pf, n), k))
    && TablesIn(m, m1, MissingSlots(m, RunStart(L, m, pf, n), k))
    && Clear(m1.Pool(pf)) == 0
  }

  // the loop's effect, told from the memory before vaddr_get
  lemma FromReserved(L: Layout, m: Mem, m1: Mem, b: Mem, pf: Pf, v: nat, k: nat)
    requires m1.pt == m.pt && m1.tables == m.tables && m1.kPool == m.kPool && m1.uPool == m.uPool
    requires MapsRun(L, m1, b, pf, v, k)
    ensures FramesExt(L, m, b, pf, Run(v, k)) && TablesIn(m, b, MissingSlots(m, v, k))
  {
    assert forall u :: m1.Entry(u) == m.Entry(u);
    assert NewTables(m, b) == NewTables(m1, b);
  }

  lemma ReservedSlots(L: Layout, m1: Mem, b: Mem, pf: Pf, v: nat, n: nat, k: nat)
    requires Mappable(L, m1, pf, v, n) && MapsRun(L, m1, b, pf, v, k) && k <= n
    ensures forall u :: u in Run(v, k) ==> Slot(u) in b.tables
  {
    forall u | u in Run(v, k)
      ensures Slot(u) in b.tables
    {
      assert Slot(u) in m1.tables || Slot(u) in MissingSlots(m1, v, k);
    }
  }

  // the invariant after k of the n reserved pages are mapped
  lemma InvMapped(L: Layout, m1: Mem, b: Mem, pf: Pf, v: nat, n: nat, k: nat)
    requires L.Valid() && PageInv(L, m1) && Mappable(L, m1, pf, v, n) && MapsRun(L, m1, b, pf, v, k) && k <= n
    requires forall u :: u in Run(v, n) ==> Reserved(L, m1, pf, u) && L.Side(u) == pf
    ensures PageInv(L, b)
  {
    ReservedSlots(L, m1, b, pf, v, n, k);
    forall u | u in Run(v, k)
      ensures u in Run(v, n)
    {
    }
    InvFrames(L, m1, b, pf, Run(v, k));
  }

  lemma SameCosts(m: Mem, m1: Mem, pf: Pf, v: nat, n: nat, k: nat)
    requires m1.tables == m.tables && m1.kPool == m.kPool && m1.uPool == m.uPool
    ensures Affordable(m1, pf, n) == Affordable(m, pf, n) && TablesFit(m1, v, k) == TablesFit(m, v, k)
  {
    assert MissingSlots(m, v, k) == MissingSlots(m1, v, k);
  }

  // what vaddr_get did to the memory m: the n pages from v on are reserved
  ghost predicate ReservesRun(L: Layout, m: Mem, m1: Mem, pf: Pf, v: nat, n: nat) {
    && m1.pt == m.pt && m1.tables == m.tables && m1.kPool == m.kPool && m1.uPool == m.uPool
    && PageInv(L, m1) && Mappable(L, m1, pf, v, n)
    && forall u :: u in Run(v, n) ==> Reserved(L, m1, pf, u) && L.Side(u) == pf
  }

  // vaddr_get, up to its assertion
  lemma ReserveRun(L: Layout, m: Mem, pf: Pf, n: nat) returns (m1: Mem, v: nat)
    requires L.Valid() && PageInv(L, m) && n >= 1 && Fit(m.VBits(pf), n).Some?
    ensures v == RunStart(L, m, pf, n) && L.Start(pf) <= v && v + n <= L.Start(pf) + L.PageCnt(pf)
    ensures m1 == m.WithVBits(pf, SetRun(m.VBits(pf), Fit(m.VBits(pf), n).value, n, true))
    ensures ReservesRun(L, m, m1, pf, v, n)
    ensures Grows(L.Start(pf), m.VBits(pf), m1.VBits(pf), Run(v, n)) && m1.VBits(pf.Other()) == m.VBits(pf.Other())
  {
    FreshRun(L, m, pf, n);
    v := RunStart(L, m, pf, n);
    m1 := m.WithVBits(pf, SetRun(m.VBits(pf), Fit(m.VBits(pf), n).value, n, true));
    forall w: nat | m.Present(w)
      ensures Reserved(L, m1, L.Side(w), w) && Slot(w) in m.tables
    {
      assert Backed(L, m, w);
    }
    InvBits(L, m, m1);
    assert forall u :: m1.Present(u) == m.Present(u);
  }

  // the loop's effect on the memory before vaddr_get
  ghost predicate MapsFrom(L: Layout, m: Mem, m1: Mem, b: Mem, pf: Pf, v: nat, k: nat) {
    && PageInv(L, b) && FramesExt(L, m, b, pf, Run(v, k)) && TablesIn(m, b, MissingSlots(m, v, k))
    && b.kBits == m1.kBits && b.uBits == m1.uBits
  }

  lemma MapsFromRun(L: Layout, m: Mem, m1: Mem, b: Mem, pf: Pf, v: nat, n: nat, k: nat)
    requires L.Valid() && ReservesRun(L, m, m1, pf, v, n) && MapsRun(L, m1, b, pf, v, k) && k <= n
    ensures MapsFrom(L, m, m1, b, pf, v, k)
  {
    FromReserved(L, m, m1, b, pf, v, k);
    InvMapped(L, m1, b, pf, v, n, k);
  }

  lemma MapReserved(L: Layout, m: Mem, m1: Mem, pf: Pf, v: nat, n: nat) returns (o: Outcome, k: nat)
    requires L.Valid() && ReservesRun(L, m, m1, pf, v, n)
    ensures o == MapPages(L, m1, pf, v, n) && k == Affordable(m, pf, n)
    ensures !TablesFit(m, v, k) ==> o == WildTable
    ensures TablesFit(m, v, k) ==>
              && (if k == n then o.Done? else o.Failed? && o.mapped == k && Clear(o.mem.Pool(pf)) == 0)
              && MapsFrom(L, m, m1, o.mem, pf, v, k)
  {
    o := MapPagesExtends(L, m1, pf, v, n);
    k := Affordable(m, pf, n);
    SameCosts(m, m1, pf, v, n, k);
    if TablesFit(m, v, k) {
      MapsFromRun(L, m, m1, o.mem, pf, v, n, k);
    }
  }

  // malloc_page once the loop's outcome is known
  lemma MallocPageUnfold(L: Layout, m: Mem, pf: Pf, n: nat, v: nat, o: Outcome)
    requires RunFits(L, m, pf, n) && v == RunStart(L, m, pf, n)
    requires o == MapPages(L, m.WithVBits(pf, SetRun(m.VBits(pf), Fit(m.VBits(pf), n).value, n, true)), pf, v, n)
    ensures MallocPage(L, m, pf, n) == Returned(v, o)
  {
  }

  // all n pages mapped
  lemma RunGot(L: Layout, m: Mem, m1: Mem, b: Mem, pf: Pf, v: nat, n: nat)
    requires MapsFrom(L, m, m1, b, pf, v, n) && Grows(L.Start(pf), m.VBits(pf), m1.VBits(pf), Run(v, n))
    requires m1.VBits(pf.Other()) == m.VBits(pf.Other())
    requires L.Start(pf) <= v && v + n <= L.Start(pf) + L.PageCnt(pf)
    ensures GotPages(L, m, b, pf, v, n)
  {
  }

  // malloc_page past vaddr_get
  lemma MallocPageRuns(L: Layout, m: Mem, pf: Pf, n: nat) returns (r: PageResult)
    requires L.Valid() && PageInv(L, m) && RunFits(L, m, pf, n)
    ensures r == MallocPage(L, m, pf, n) && !r.PageHalt?
    ensures r.PageWild? <==> TableMissed(L, m, pf, n)
    ensures r.Got? <==> Granted(L, m, pf, n)
    ensures r.Got? ==> r.start == RunStart(L, m, pf, n) && GotPages(L, m, r.mem, pf, r.start, n)
    ensures r.NoPages? ==> Leaked(L, m, r.mem, pf, n, r.mapped)
  {
    var m1, v := ReserveRun(L, m, pf, n);
    var o, k := MapReserved(L, m, m1, pf, v, n);
    MallocPageUnfold(L, m, pf, n, v, o);
    r := Returned(v, o);
    if o.Done? {
      RunGot(L, m, m1, o.mem, pf, v, n);
    }
  }

  // malloc_page on a consistent memory: which of its four ends it takes is told by the state before; the
  // assertion on a present entry never fires, and the page-map invariant is kept also by a failure.
  lemma MallocPageCorrect(L: Layout, m: Mem, pf: Pf, n: nat)
    requires L.Valid() && PageInv(L, m)
    ensures MallocPage(L, m, pf, n).PageHalt? <==> n == 0 || n >= 3840 || LastUserPage(L, m, pf, n)
    ensures MallocPage(L, m, pf, n).PageWild? <==> TableMissed(L, m, pf, n)
    ensures MallocPage(L, m, pf, n).Got? <==> Granted(L, m, pf, n)
    ensures MallocPage(L, m, pf, n).Got? ==>
              GotPages(L, m, MallocPage(L, m, pf, n).mem, pf, MallocPage(L, m, pf, n).start, n)
              && MallocPage(L, m, pf, n).start == RunStart(L, m, pf, n)
    ensures MallocPage(L, m, pf, n).NoPages? ==>
              if Exhausted(L, m, pf, n) then Leaked(L, m, MallocPage(L, m, pf, n).mem, pf, n, MallocPage(L, m, pf, n).mapped)
              else MallocPage(L, m, pf, n).mem == m
  {
    if RunFits(L, m, pf, n) {
      var r := MallocPageRuns(L, m, pf, n);
    }
  }

  lemma PagesGot(L: Layout, m: Mem, pf: Pf, n: nat) returns (v: nat, m1: Mem)
    requires L.Valid() && PageInv(L, m) && Granted(L, m, pf, n)
    ensures MallocPage(L, m, pf, n) == Got(v, m1) && v == RunStart(L, m, pf, n) && GotPages(L, m, m1, pf, v, n)
  {
    var r := MallocPageRuns(L, m, pf, n);
    v, m1 := r.start, r.mem;
  }

  // Kernel pages need no new page table, so for them the unchecked NULL cannot occur.
  lemma KernelHasTables(L: Layout, m: Mem, n: nat, k: nat)
    requires L.Valid() && PageInv(L, m) && n >= 1 && Fit(m.kBits, n).Some? && k <= n
    ensures MissingSlots(m, RunStart(L, m, Kernel, n), k) == {} && !TableMissed(L, m, Kernel, n)
  {
    FirstFit(m.kBits, n);
    var v := RunStart(L, m, Kernel, n);
    assert v + n <= L.kStart + L.kPages;
    assert MissingSlots(m, v, k) == {};
    assert MissingSlots(m, v, Affordable(m, Kernel, n)) == {};
  }

  // ---------- mfree_page ----------

  // the pages are mapped to distinct taken frames of the pool
  ghost predicate Mapped(L: Layout, m: Mem, pf: Pf, S: set<nat>) {
    && (forall u :: u in S ==> m.Present(u) && Taken(L, m, pf, m.Frame(u)))
    && (forall u, w {:trigger FramesApart(m, u, w)} :: u in S && w in S ==> FramesApart(m, u, w))
  }

  lemma PfreeTaken(L: Layout, m: Mem, pf: Pf, f: nat) returns (m1: Mem)
    requires L.Valid() && Sized(L, m) && Taken(L, m, pf, f)
    ensures Pfree(L, m, f) == Some(m1) && m1 == m.WithPool(pf, SetRun(m.Pool(pf), f - L.Base(pf), 1, false))
    ensures Grows(L.Base(pf), m1.Pool(pf), m.Pool(pf), {f}) && Sized(L, m1)
  {
    m1 := Pfree(L, m, f).value;
    ShrinkByRun(L.Base(pf), m.Pool(pf), f, 1);
    assert Run(f, 1) == {f};
  }

  // one turn of the freeing loop, which goes on with m1
  lemma OnePageFreed(L: Layout, m: Mem, pf: Pf, v: nat, n: nat) returns (m1: Mem)
    requires L.Valid() && Sized(L, m) && m.Present(v) && Taken(L, m, pf, m.Frame(v)) && n >= 1
    ensures FreePages(L, m, pf.User?, v, n) == FreePages(L, m1, pf.User?, v + 1, n - 1)
    ensures FramesExt(L, m1, m, pf, {v}) && Sized(L, m1)
    ensures m1.kBits == m.kBits && m1.uBits == m.uBits && m1.tables == m.tables
    ensures forall u :: u != v ==> m1.Entry(u) == m.Entry(u)
  {
    var m0 := PfreeTaken(L, m, pf, m.Frame(v));
    m1 := PteRemove(m0, v);
    assert FramesOf(m, {v}) == {m.Frame(v)};
    NoNewTables(m1, m);
  }

  lemma MappedRest(L: Layout, m: Mem, m1: Mem, pf: Pf, v: nat, n: nat)
    requires n >= 1 && Mapped(L, m, pf, Run(v, n))
    requires FramesExt(L, m1, m, pf, {v}) && forall u :: u != v ==> m1.Entry(u) == m.Entry(u)
    ensures Mapped(L, m1, pf, Run(v + 1, n - 1))
  {
    assert FramesOf(m, {v}) == {m.Frame(v)};
    assert v in Run(v, n);
    forall u | u in Run(v + 1, n - 1)
      ensures u in Run(v, n) && u != v && m1.Present(u) && Taken(L, m1, pf, m1.Frame(u))
    {
      assert u in Run(v, n);
      assert Taken(L, m, pf, m.Frame(u)) && FramesApart(m, u, v);
    }
    forall u, w | u in Run(v + 1, n - 1) && w in Run(v + 1, n - 1)
      ensures FramesApart(m1, u, w)
    {
      assert FramesApart(m, u, w);
    }
  }

  // what the freeing loop leaves of m
  ghost predicate FreedRun(L: Layout, m: Mem, m2: Mem, pf: Pf, v: nat, n: nat) {
    && Sized(L, m2) && FramesExt(L, m2, m, pf, Run(v, n))
    && m2.kBits == m.kBits && m2.uBits == m.uBits && m2.tables == m.tables
  }

  lemma FreedMore(L: Layout, m: Mem, m1: Mem, m2: Mem, pf: Pf, v: nat, n: nat)
    requires n >= 1 && FreedRun(L, m1, m2, pf, v + 1, n - 1) && FramesExt(L, m1, m, pf, {v})
    requires m1.kBits == m.kBits && m1.uBits == m.uBits && m1.tables == m.tables
    ensures FreedRun(L, m, m2, pf, v, n)
  {
    FramesCompose(L, m2, m1, m, pf, Run(v + 1, n - 1), {v});
    assert Run(v + 1, n - 1) + {v} == Run(v, n);
  }

  lemma FreedNone(L: Layout, m: Mem, pf: Pf, v: nat)
    requires Sized(L, m)
    ensures FreedRun(L, m, m, pf, v, 0)
  {
    NoExtension(L, m, pf);
    assert Run(v, 0) == {};
  }

  // The freeing loop releases exactly the frames of the run, contiguous or not, and fires no assertion.
  lemma {:induction false} FreePagesShrinks(L: Layout, m: Mem, pf: Pf, v: nat, n: nat) returns (m2: Mem)
    requires L.Valid() && Sized(L, m) && Mapped(L, m, pf, Run(v, n))
    ensures FreePages(L, m, pf.User?, v, n) == Done(m2) && FreedRun(L, m, m2, pf, v, n)
    decreases n
  {
    if n == 0 {
      m2 := m;
      FreedNone(L, m, pf, v);
    } else {
      assert v in Run(v, n);
      var m1 := OnePageFreed(L, m, pf, v, n);
      MappedRest(L, m, m1, pf, v, n);
      m2 := FreePagesShrinks(L, m1, pf, v + 1, n - 1);
      FreedMore(L, m, m1, m2, pf, v, n);
    }
  }

  lemma TablesBack(L: Layout, a: Mem, b: Mem, pf: Pf, S: set<nat>)
    requires L.Valid() && PageInv(L, b) && FramesExt(L, a, b, pf, S) && a.tables == b.tables
    requires forall u :: u in S ==> L.Side(u) == pf
    ensures TablesOk(L, a)
  {
    NoNewTables(a, b);
    forall d | d in a.tables
      ensures a.tables[d] < L.kBase || Taken(L, a, Kernel, a.tables[d])
    {
      assert IsTable(b, a.tables[d]);
      forall u | u in S
        ensures b.Frame(u) != a.tables[d]
      {
        assert Backed(L, b, u);
      }
    }
    forall d, e | OwnTable(L, a, d, e)
      ensures TablesApart(a, d, e)
    {
      assert TablesApart(b, d, e);
    }
  }

  lemma InvFramesBack(L: Layout, a: Mem, b: Mem, pf: Pf, S: set<nat>)
    requires L.Valid() && PageInv(L, b) && FramesExt(L, a, b, pf, S) && a.tables == b.tables
    requires a.kBits == b.kBits && a.uBits == b.uBits && forall u :: u in S ==> L.Side(u) == pf
    ensures PageInv(L, a)
  {
    TablesBack(L, a, b, pf, S);
    NoNewTables(a, b);
    forall v: nat | a.Present(v)
      ensures Backed(L, a, v)
    {
      assert v !in S && Backed(L, b, v);
      assert IsTable(a, a.Frame(v)) ==> IsTable(b, b.Frame(v));
      forall u | u in S
        ensures b.Frame(u) != b.Frame(v)
      {
        assert FramesApart(b, u, v);
      }
    }
    forall v: nat, w: nat
      ensures FramesApart(a, v, w)
    {
      assert FramesApart(b, v, w);
    }
  }

  // mfree_page up to vaddr_remove
  lemma UnmapRun(L: Layout, m: Mem, pf: Pf, v: nat, n: nat) returns (m1: Mem)
    requires L.Valid() && PageInv(L, m) && n >= 1
    requires forall u :: u in Run(v, n) ==> m.Present(u) && L.Side(u) == pf
    ensures FreePages(L, m, m.Frame(v) >= L.uBase, v, n) == Done(m1) && m.Frame(v) >= 0x102
    ensures PageInv(L, m1) && FreedRun(L, m, m1, pf, v, n)
    ensures forall u :: u in Run(v, n) ==> !m1.Present(u) && Reserved(L, m1, pf, u)
    ensures L.Start(pf) <= v && v + n <= L.Start(pf) + |m1.VBits(pf)|
  {
    assert forall u :: u in Run(v, n) ==> Backed(L, m, u);
    assert v in Run(v, n) && v + n - 1 in Run(v, n);
    m1 := FreePagesShrinks(L, m, pf, v, n);
    InvFramesBack(L, m1, m, pf, Run(v, n));
  }

  // vaddr_remove, once the pages are unmapped
  lemma ReleaseRun(L: Layout, m1: Mem, pf: Pf, v: nat, n: nat) returns (m2: Mem)
    requires L.Valid() && PageInv(L, m1) && n >= 1 && L.Start(pf) <= v
    requires forall u :: u in Run(v, n) ==> !m1.Present(u) && Reserved(L, m1, pf, u)
    ensures m2 == m1.WithVBits(pf, SetRun(m1.VBits(pf), v - L.Start(pf), n, false)) && PageInv(L, m2)
    ensures m2.pt == m1.pt && m2.kPool == m1.kPool && m2.uPool == m1.uPool && m2.tables == m1.tables
    ensures m2.VBits(pf.Other()) == m1.VBits(pf.Other())
    ensures Grows(L.Start(pf), m2.VBits(pf), m1.VBits(pf), Run(v, n))
  {
    ShrinkByRun(L.Start(pf), m1.VBits(pf), v, n);
    m2 := m1.WithVBits(pf, SetRun(m1.VBits(pf), v - L.Start(pf), n, false));
    forall u: nat | m1.Present(u)
      ensures Reserved(L, m2, L.Side(u), u)
    {
      assert Backed(L, m1, u) && u !in Run(v, n);
    }
    InvBits(L, m1, m2);
  }

  lemma SameFrames(L: Layout, m2: Mem, m1: Mem, m: Mem, pf: Pf, S: set<nat>)
    requires m1.pt == m2.pt && m1.tables == m2.tables && m1.kPool == m2.kPool && m1.uPool == m2.uPool
    requires FramesExt(L, m1, m, pf, S)
    ensures FramesExt(L, m2, m, pf, S)
  {
    assert forall u :: m1.Entry(u) == m2.Entry(u);
    assert NewTables(m1, m) == NewTables(m2, m);
  }

  lemma MFreePageUnfold(L: Layout, m: Mem, pf: Pf, v: nat, n: nat, m1: Mem, m2: Mem)
    requires n >= 1 && m.Frame(v) >= 0x102 && FreePages(L, m, m.Frame(v) >= L.uBase, v, n) == Done(m1)
    requires L.Start(pf) <= v && v + n <= L.Start(pf) + |m1.VBits(pf)|
    requires m2 == m1.WithVBits(pf, SetRun(m1.VBits(pf), v - L.Start(pf), n, false))
    ensures MFreePage(L, m, pf, v, n) == Done(m2)
  {
  }

  // mfree_page of n present pages of one range: no assertion fires, the invariant is kept, and the memory
  // left is the one the freed pages extended; no page table is given back.
  lemma MFreePageCorrect(L: Layout, m: Mem, pf: Pf, v: nat, n: nat) returns (m2: Mem)
    requires L.Valid() && PageInv(L, m) && n >= 1
    requires forall u :: u in Run(v, n) ==> m.Present(u) && L.Side(u) == pf
    ensures MFreePage(L, m, pf, v, n) == Done(m2)
    ensures PageInv(L, m2) && Extends(L, m2, m, pf, Run(v, n)) && m2.tables == m.tables
  {
    var m1 := UnmapRun(L, m, pf, v, n);
    m2 := ReleaseRun(L, m1, pf, v, n);
    MFreePageUnfold(L, m, pf, v, n, m1, m2);
    SameFrames(L, m2, m1, m, pf, Run(v, n));
  }

  // Freeing what malloc_page returned restores the memory but for the page tables that had to be made, so
  // exactly when every page of the run had one; for kernel pages always.
  lemma MallocThenFree(L: Layout, m: Mem, pf: Pf, n: nat) returns (m2: Mem)
    requires L.Valid() && PageInv(L, m) && Granted(L, m, pf, n)
    ensures MallocPage(L, m, pf, n).Got?
    ensures MFreePage(L, MallocPage(L, m, pf, n).mem, pf, MallocPage(L, m, pf, n).start, n) == Done(m2)
    ensures Extends(L, m, m2, pf, {})
    ensures SameMem(m, m2) <==> MissingSlots(m, RunStart(L, m, pf, n), n) == {}
    ensures pf.Kernel? ==> SameMem(m, m2)
  {
    var r := MallocPageRuns(L, m, pf, n);
    var v, m1 := r.start, r.mem;
    GotPresent(L, m, m1, pf, v, n);
    m2 := MFreePageCorrect(L, m1, pf, v, n);
    GrownThenShrunk(L, m, m1, m2, pf, v, n);
    if pf.Kernel? {
      KernelHasTables(L, m, n, n);
    }
  }

  lemma GrownThenShrunk(L: Layout, m: Mem, m1: Mem, m2: Mem, pf: Pf, v: nat, n: nat)
    requires Extends(L, m, m1, pf, Run(v, n)) && Extends(L, m2, m1, pf, Run(v, n)) && m2.tables == m1.tables
    requires TablesIn(m, m1, MissingSlots(m, v, n))
    ensures Extends(L, m, m2, pf, {}) && (SameMem(m, m2) <==> MissingSlots(m, v, n) == {})
  {
    assert {} + Run(v, n) == Run(v, n);
    Cancel(L, m, m2, m1, pf, {}, Run(v, n));
    EmptyExtension(L, m, m2, pf);
    TablesGrown(L, m, m1, pf, v, n);
  }

  lemma GotPresent(L: Layout, m: Mem, m1: Mem, pf: Pf, v: nat, n: nat)
    requires L.Valid() && GotPages(L, m, m1, pf, v, n)
    ensures forall u :: u in Run(v, n) ==> m1.Present(u) && L.Side(u) == pf
  {
  }

  // the page tables are as before exactly if none was missing
  lemma TablesGrown(L: Layout, m: Mem, m1: Mem, pf: Pf, v: nat, k: nat)
    requires FramesExt(L, m, m1, pf, Run(v, k)) && TablesIn(m, m1, MissingSlots(m, v, k))
    ensures m1.tables == m.tables <==> MissingSlots(m, v, k) == {}
  {
    if d :| d in MissingSlots(m, v, k) {
      assert d in m1.tables && d !in m.tables;
    } else {
      assert m1.tables == m.tables;
    }
  }
}
