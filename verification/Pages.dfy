/** Page-level allocation of kernel/memory.c as functions on the memory manager's state: virtual-page
    bitmaps, the two physical pools, the page tables and their entries of the managed address ranges.
    Addresses are page and frame numbers (address / 4096). */
module Pages {
  import opened Bits

  // enum pool_flags
  datatype Pf = Kernel | User
  {
    function Other(): Pf { if Kernel? then User else Kernel }
  }

  // where the pools and the managed virtual ranges lie
  datatype Layout = Layout(
    kBase: nat, kFrames: nat, uBase: nat, uFrames: nat,
    kStart: nat, kPages: nat, uStart: nat, uPages: nat,
    kPoolBytes: nat, uPoolBytes: nat)
  {
    function Base(pf: Pf): nat { if pf.Kernel? then kBase else uBase }
    function Start(pf: Pf): nat { if pf.Kernel? then kStart else uStart }
    function PageCnt(pf: Pf): nat { if pf.Kernel? then kPages else uPages }
    function PoolBytes(pf: Pf): nat { if pf.Kernel? then kPoolBytes else uPoolBytes }

    ghost predicate Valid() {
      && 0x200 <= kBase && kBase + kFrames <= uBase
      && 0x400 <= uStart && uStart + uPages <= kStart && kStart + kPages <= 0xffc00
    }

    function Side(v: nat): Pf { if v >= kStart then Kernel else User }
  }

  // frame f is taken in its pool; page v is reserved in its virtual bitmap
  predicate Taken(L: Layout, m: Mem, pf: Pf, f: nat) { On(L.Base(pf), m.Pool(pf), f) }
  predicate Reserved(L: Layout, m: Mem, pf: Pf, v: nat) { On(L.Start(pf), m.VBits(pf), v) }

  datatype Pte = Pte(frame: nat, present: bool)

  // the directory slot of page v, counting off a table of 1024 pages at a time
  function Slot(v: nat): nat {
    if v < 1024 then 0 else Slot(v - 1024) + 1
  }

  lemma SlotIsQuotient(v: nat)
    ensures Slot(v) == v / 1024
  {
  }

  // `tables` gives the frame of the page table in each directory slot that has one
  datatype Mem = Mem(kPool: seq<bool>, uPool: seq<bool>, kBits: seq<bool>, uBits: seq<bool>,
                     tables: map<nat, nat>, pt: map<nat, Pte>)
  {
    function Pool(pf: Pf): seq<bool> { if pf.Kernel? then kPool else uPool }
    function VBits(pf: Pf): seq<bool> { if pf.Kernel? then kBits else uBits }
    function WithPool(pf: Pf, b: seq<bool>): Mem { if pf.Kernel? then this.(kPool := b) else this.(uPool := b) }
    function WithVBits(pf: Pf, b: seq<bool>): Mem { if pf.Kernel? then this.(kBits := b) else this.(uBits := b) }
    function Entry(v: nat): Pte { if v in pt then pt[v] else Pte(0, false) }
    predicate Present(v: nat) { Entry(v).present }
    function Frame(v: nat): nat { Entry(v).frame }
  }

  // ---------- operations ----------

  // palloc: a physical frame of the pool, first fit
  function Palloc(L: Layout, m: Mem, pf: Pf): Option<(nat, Mem)> {
    match Fit(m.Pool(pf), 1)
    case None => None
    case Some(i) => Some((L.Base(pf) + i, m.WithPool(pf, SetRun(m.Pool(pf), i, 1, true))))
  }

  // how page_table_add ends: Repeat is the ASSERT on a present entry, NoTable the unchecked NULL of palloc,
  // which makes frame 0 the page table
  datatype Edit = Added(mem: Mem) | Repeat | NoTable

  function AddEntry(m: Mem, v: nat, f: nat): Edit {
    if m.Present(v) then Repeat else Added(m.(pt := m.pt[v := Pte(f, true)]))
  }

  // frame t becomes the page table of slot d, and is cleared
  function WithTable(m: Mem, d: nat, t: nat): Mem {
    m.(tables := m.tables[d := t], pt := map u | u in m.pt && Slot(u) != d :: m.pt[u])
  }

  // page_table_add
  function PageTableAdd(L: Layout, m: Mem, v: nat, f: nat): Edit {
    if Slot(v) in m.tables then AddEntry(m, v, f)
    else
      match Palloc(L, m, Kernel)
      case None => NoTable
      case Some((t, m1)) => AddEntry(WithTable(m1, Slot(v), t), v, f)
  }

  // Failed carries how many pages were mapped before the pool ran out; WildTable is NoTable
  datatype Outcome = Done(mem: Mem) | Failed(mem: Mem, mapped: nat) | Halted | WildTable

  // the loop of malloc_page
  function MapPages(L: Layout, m: Mem, pf: Pf, v: nat, n: nat): Outcome
    decreases n
  {
    if n == 0 then Done(m)
    else
      match Palloc(L, m, pf)
      case None => Failed(m, 0)
      case Some((f, m1)) =>
        match PageTableAdd(L, m1, v, f)
        case Repeat => Halted
        case NoTable => WildTable
        case Added(m2) => Later(MapPages(L, m2, pf, v + 1, n - 1))
  }

  // the outcome after one more page
  function Later(r: Outcome): Outcome {
    match r
    case Failed(m, k) => Failed(m, k + 1)
    case other => other
  }

  datatype PageResult = Got(start: nat, mem: Mem) | NoPages(mem: Mem, mapped: nat) | PageHalt | PageWild

  // vaddr_get's bound on user addresses fires: the first fitting run starts in the last page below 0xc0000000
  predicate LastUserPage(L: Layout, m: Mem, pf: Pf, n: nat) {
    pf.User? && Fit(m.VBits(pf), n).Some? && L.Start(pf) + Fit(m.VBits(pf), n).value >= 0xbffff
  }

  // malloc_page (vaddr_get inlined): Got is the start page, NoPages the NULL return
  function MallocPage(L: Layout, m: Mem, pf: Pf, n: nat): PageResult {
    if n == 0 || n >= 3840 then PageHalt
    else
      match Fit(m.VBits(pf), n)
      case None => NoPages(m, 0)
      case Some(i) =>
        if LastUserPage(L, m, pf, n) then PageHalt
        else
          var m1 := m.WithVBits(pf, SetRun(m.VBits(pf), i, n, true));
          Returned(L.Start(pf) + i, MapPages(L, m1, pf, L.Start(pf) + i, n))
  }

  // malloc_page's return from its loop
  function Returned(start: nat, o: Outcome): PageResult {
    match o
    case Done(m) => Got(start, m)
    case Failed(m, k) => NoPages(m, k)
    case Halted => PageHalt
    case WildTable => PageWild
  }

  // pfree: the pool is chosen by the frame; None is the range ASSERT of bitmap_set
  function Pfree(L: Layout, m: Mem, f: nat): Option<Mem> {
    var pf := if f >= L.uBase then User else Kernel;
    if L.Base(pf) <= f < L.Base(pf) + |m.Pool(pf)|
    then Some(m.WithPool(pf, SetRun(m.Pool(pf), f - L.Base(pf), 1, false)))
    else None
  }

  // page_table_pte_remove: only the P bit goes
  function PteRemove(m: Mem, v: nat): Mem {
    m.(pt := m.pt[v := m.Entry(v).(present := false)])
  }

  // the loop of mfree_page in its user or kernel branch
  function FreePages(L: Layout, m: Mem, userBranch: bool, v: nat, n: nat): Outcome
    decreases n
  {
    if n == 0 then Done(m)
    else
      var f := m.Frame(v);
      if (if userBranch then f < L.uBase else !(L.kBase <= f < L.uBase)) then Halted
      else
        match Pfree(L, m, f)
        case None => Halted
        case Some(m1) => FreePages(L, PteRemove(m1, v), userBranch, v + 1, n - 1)
  }

  // mfree_page (vaddr_remove inlined)
  function MFreePage(L: Layout, m: Mem, pf: Pf, v: nat, n: nat): Outcome {
    var f := m.Frame(v);
    if n == 0 || f < 0x102 then Halted
    else
      match FreePages(L, m, f >= L.uBase, v, n)
      case Done(m1) =>
        if L.Start(pf) <= v && v + n <= L.Start(pf) + |m1.VBits(pf)|
        then Done(m1.WithVBits(pf, SetRun(m1.VBits(pf), v - L.Start(pf), n, false)))
        else Halted
      case other => other
  }

  // ---------- what a caller can tell beforehand ----------

  // slots of the n pages from v on that have no page table
  function MissingSlots(m: Mem, v: nat, n: nat): set<nat> {
    set u | u in Run(v, n) && Slot(u) !in m.tables :: Slot(u)
  }

  // how many of n pages the pool has frames for
  function Affordable(m: Mem, pf: Pf, n: nat): nat {
    if n <= Clear(m.Pool(pf)) then n else Clear(m.Pool(pf))
  }

  // the kernel pool has a frame for every page table that n pages from v on need
  predicate TablesFit(m: Mem, v: nat, n: nat) { |MissingSlots(m, v, n)| <= Clear(m.kPool) }

  // malloc_page gets past vaddr_get: no assertion, and a free run of n virtual pages
  predicate RunFits(L: Layout, m: Mem, pf: Pf, n: nat) {
    1 <= n < 3840 && Fit(m.VBits(pf), n).Some? && !LastUserPage(L, m, pf, n)
  }

  // the first page of that run
  function RunStart(L: Layout, m: Mem, pf: Pf, n: nat): nat
    requires Fit(m.VBits(pf), n).Some?
  {
    L.Start(pf) + Fit(m.VBits(pf), n).value
  }

  // there is a run, and a frame for every page and every page table
  predicate Granted(L: Layout, m: Mem, pf: Pf, n: nat) {
    RunFits(L, m, pf, n) && n <= Clear(m.Pool(pf)) && TablesFit(m, RunStart(L, m, pf, n), n)
  }

  // there is a run, but too few frames for its pages
  predicate Exhausted(L: Layout, m: Mem, pf: Pf, n: nat) {
    && RunFits(L, m, pf, n) && Clear(m.Pool(pf)) < n
    && TablesFit(m, RunStart(L, m, pf, n), Clear(m.Pool(pf)))
  }

  // a page table is needed while the kernel pool has no frame
  predicate TableMissed(L: Layout, m: Mem, pf: Pf, n: nat) {
    RunFits(L, m, pf, n) && !TablesFit(m, RunStart(L, m, pf, n), Affordable(m, pf, n))
  }

  // ---------- the page-map invariant ----------

  ghost predicate Sized(L: Layout, m: Mem) {
    && |m.kPool| == L.kFrames && |m.uPool| == L.uFrames
    && |m.kBits| == L.kPages && |m.uBits| == L.uPages
  }

  // Page tables are the loader's, below the pools, or taken from the kernel pool.  Slots have page tables of
  // their own, but for the loader's slot 0.  The kernel's range has all its page tables.
  ghost predicate TablesOk(L: Layout, m: Mem) {
    && (forall d :: d in m.tables ==> m.tables[d] < L.kBase || Taken(L, m, Kernel, m.tables[d]))
    && (forall d, e {:trigger TablesApart(m, d, e)} :: OwnTable(L, m, d, e) ==> TablesApart(m, d, e))
    && (forall v: nat :: L.kStart <= v < L.kStart + L.kPages ==> Slot(v) in m.tables)
  }

  predicate OwnTable(L: Layout, m: Mem, d: nat, e: nat) {
    (d != 0 && e != 0) || (d in m.tables && m.tables[d] >= L.kBase)
  }

  // slots d and e do not share a page table
  ghost predicate TablesApart(m: Mem, d: nat, e: nat) {
    d in m.tables && e in m.tables && d != e ==> m.tables[d] != m.tables[e]
  }

  ghost predicate IsTable(m: Mem, f: nat) {
    exists d :: d in m.tables && m.tables[d] == f
  }

  // a present page has a page table, is reserved in its managed range and maps to a taken frame of its
  // pool that is no page table
  ghost predicate Backed(L: Layout, m: Mem, v: nat) {
    && Reserved(L, m, L.Side(v), v) && Taken(L, m, L.Side(v), m.Frame(v))
    && Slot(v) in m.tables && !IsTable(m, m.Frame(v))
  }

  // v and w are not mapped to the same frame
  ghost predicate FramesApart(m: Mem, v: nat, w: nat) {
    v != w && m.Present(v) && m.Present(w) ==> m.Frame(v) != m.Frame(w)
  }

  ghost predicate DistinctFrames(m: Mem) {
    forall v: nat, w: nat {:trigger FramesApart(m, v, w)} :: FramesApart(m, v, w)
  }

  ghost predicate PageInv(L: Layout, m: Mem) {
    && Sized(L, m) && DistinctFrames(m) && TablesOk(L, m)
    && (forall v: nat {:trigger Backed(L, m, v)} :: m.Present(v) ==> Backed(L, m, v))
  }

  function FramesOf(m: Mem, S: set<nat>): set<nat> {
    set u | u in S :: m.Frame(u)
  }

  // b's page table is a's with the pages S, none of them present in a, mapped to distinct frames
  ghost predicate MapExt(a: Mem, b: Mem, S: set<nat>) {
    && (forall u :: u in S ==> !a.Present(u) && b.Present(u))
    && (forall u, w :: u in S && w in S && u != w ==> b.Frame(u) != b.Frame(w))
    && (forall u: nat :: u !in S ==> a.Present(u) == b.Present(u))
    && (forall u: nat :: u !in S && a.Present(u) ==> a.Frame(u) == b.Frame(u))
  }

  // b has page tables in a's slots and in the slots D
  ghost predicate TablesIn(a: Mem, b: Mem, D: set<nat>) {
    forall d :: d in b.tables <==> d in a.tables || d in D
  }

  // frames of the page tables b has beyond a
  function NewTables(a: Mem, b: Mem): set<nat> {
    set d | d in b.tables && d !in a.tables :: b.tables[d]
  }

  // b has a's page tables, and perhaps others in frames of their own
  ghost predicate TablesExt(a: Mem, b: Mem) {
    && (forall d :: d in a.tables ==> d in b.tables && b.tables[d] == a.tables[d])
    && (forall d, e {:trigger TablesApart(b, d, e)} :: d !in a.tables && e !in a.tables ==> TablesApart(b, d, e))
  }

  // The pages S are mapped, and exactly their frames are taken from the pool; mapping user pages may add
  // page tables, whose frames are exactly what is taken from the kernel pool.
  ghost predicate FramesExt(L: Layout, a: Mem, b: Mem, pf: Pf, S: set<nat>) {
    && MapExt(a, b, S) && TablesExt(a, b) && (pf.Kernel? ==> a.tables == b.tables)
    && Grows(L.Base(pf), a.Pool(pf), b.Pool(pf), FramesOf(b, S))
    && Grows(L.Base(pf.Other()), a.Pool(pf.Other()), b.Pool(pf.Other()), NewTables(a, b))
  }

  // memory a plus the pages S: page-table entries, pool bitmaps and virtual bitmap
  ghost predicate Extends(L: Layout, a: Mem, b: Mem, pf: Pf, S: set<nat>) {
    && FramesExt(L, a, b, pf, S)
    && Grows(L.Start(pf), a.VBits(pf), b.VBits(pf), S)
    && a.VBits(pf.Other()) == b.VBits(pf.Other())
  }

  // equal in everything but the stale frame numbers of entries that are not present
  ghost predicate SameMem(a: Mem, b: Mem) {
    && a.kPool == b.kPool && a.uPool == b.uPool && a.kBits == b.kBits && a.uBits == b.uBits
    && a.tables == b.tables
    && (forall v: nat :: a.Present(v) == b.Present(v))
    && (forall v: nat :: a.Present(v) ==> a.Frame(v) == b.Frame(v))
  }

  // ---------- algebra of extensions ----------

  lemma FramesOfUnion(a: Mem, b: Mem, S: set<nat>, T: set<nat>)
    requires forall u :: u in S ==> a.Frame(u) == b.Frame(u)
    ensures FramesOf(b, S + T) == FramesOf(a, S) + FramesOf(b, T)
  {
    forall f | f in FramesOf(a, S)
      ensures f in FramesOf(b, S + T)
    {
      var u :| u in S && a.Frame(u) == f;
      assert u in S + T && b.Frame(u) == f;
    }
    forall f | f in FramesOf(b, T)
      ensures f in FramesOf(b, S + T)
    {
      var u :| u in T && b.Frame(u) == f;
      assert u in S + T;
    }
  }

  lemma MapCompose(a: Mem, b: Mem, c: Mem, S: set<nat>, T: set<nat>)
    requires MapExt(a, b, S) && MapExt(b, c, T) && S !! T && FramesOf(b, S) !! FramesOf(c, T)
    ensures MapExt(a, c, S + T) && FramesOf(c, S + T) == FramesOf(b, S) + FramesOf(c, T)
  {
    FramesOfUnion(b, c, S, T);
    forall u, w | u in S && w in T
      ensures c.Frame(u) != c.Frame(w)
    {
      assert b.Frame(u) in FramesOf(b, S) && c.Frame(w) in FramesOf(c, T);
    }
  }

  lemma TablesCompose(a: Mem, b: Mem, c: Mem)
    requires TablesExt(a, b) && TablesExt(b, c) && NewTables(a, b) !! NewTables(b, c)
    ensures TablesExt(a, c) && NewTables(a, c) == NewTables(a, b) + NewTables(b, c)
  {
    forall d, e | d !in a.tables && e !in a.tables
      ensures TablesApart(c, d, e)
    {
      assert TablesApart(b, d, e) && (d !in b.tables && e !in b.tables ==> TablesApart(c, d, e));
      assert d in b.tables ==> c.tables[d] in NewTables(a, b);
      assert e in b.tables ==> c.tables[e] in NewTables(a, b);
      assert d in c.tables && d !in b.tables ==> c.tables[d] in NewTables(b, c);
      assert e in c.tables && e !in b.tables ==> c.tables[e] in NewTables(b, c);
    }
    NewTablesUnion(a, b, c);
  }

  lemma NewTablesUnion(a: Mem, b: Mem, c: Mem)
    requires TablesExt(a, b) && TablesExt(b, c)
    ensures NewTables(a, c) == NewTables(a, b) + NewTables(b, c)
  {
    forall f | f in NewTables(a, b)
      ensures f in NewTables(a, c)
    {
      var d :| d in b.tables && d !in a.tables && b.tables[d] == f;
      assert d in c.tables && c.tables[d] == f;
    }
    forall f | f in NewTables(b, c)
      ensures f in NewTables(a, c)
    {
      var d :| d in c.tables && d !in b.tables && c.tables[d] == f;
      assert d !in a.tables;
    }
  }

  lemma FramesCompose(L: Layout, a: Mem, b: Mem, c: Mem, pf: Pf, S: set<nat>, T: set<nat>)
    requires FramesExt(L, a, b, pf, S) && FramesExt(L, b, c, pf, T) && S !! T
    ensures FramesExt(L, a, c, pf, S + T)
  {
    GrowCompose(L.Base(pf), a.Pool(pf), b.Pool(pf), c.Pool(pf), FramesOf(b, S), FramesOf(c, T));
    var o := pf.Other();
    GrowCompose(L.Base(o), a.Pool(o), b.Pool(o), c.Pool(o), NewTables(a, b), NewTables(b, c));
    MapCompose(a, b, c, S, T);
    TablesCompose(a, b, c);
  }

  lemma MapCancel(a: Mem, b: Mem, c: Mem, S: set<nat>, T: set<nat>)
    requires MapExt(a, c, S + T) && MapExt(b, c, T) && S !! T
    ensures MapExt(a, b, S)
    ensures forall u :: u in S ==> b.Frame(u) == c.Frame(u)
    ensures FramesOf(b, S) !! FramesOf(c, T)
  {
    assert forall u :: u in S ==> u in S + T && u !in T;
    assert forall u :: u in T ==> u in S + T;
    assert forall u :: u !in S && u !in T ==> u !in S + T;
  }

  // memories with the same page tables
  lemma NoNewTables(a: Mem, b: Mem)
    requires a.tables == b.tables
    ensures TablesExt(a, b) && NewTables(a, b) == {}
  {
  }

  lemma FramesCancel(L: Layout, a: Mem, b: Mem, c: Mem, pf: Pf, S: set<nat>, T: set<nat>)
    requires FramesExt(L, a, c, pf, S + T) && FramesExt(L, b, c, pf, T) && S !! T && b.tables == c.tables
    ensures FramesExt(L, a, b, pf, S)
  {
    MapCancel(a, b, c, S, T);
    FramesOfUnion(b, c, S, T);
    GrowCancel(L.Base(pf), a.Pool(pf), b.Pool(pf), c.Pool(pf), FramesOf(b, S), FramesOf(c, T));
    NoNewTables(b, c);
    GrowNothing(L.Base(pf.Other()), b.Pool(pf.Other()), c.Pool(pf.Other()));
    assert NewTables(a, b) == NewTables(a, c);
    forall d, e | d !in a.tables && e !in a.tables
      ensures TablesApart(b, d, e)
    {
      assert TablesApart(c, d, e);
    }
  }

  // Extensions add up.
  lemma Compose(L: Layout, a: Mem, b: Mem, c: Mem, pf: Pf, S: set<nat>, T: set<nat>)
    requires Extends(L, a, b, pf, S) && Extends(L, b, c, pf, T)
    ensures S !! T && Extends(L, a, c, pf, S + T)
  {
    GrowCompose(L.Start(pf), a.VBits(pf), b.VBits(pf), c.VBits(pf), S, T);
    FramesCompose(L, a, b, c, pf, S, T);
  }

  // Taking one part of an extension away, page tables kept, leaves the other part.
  lemma Cancel(L: Layout, a: Mem, b: Mem, c: Mem, pf: Pf, S: set<nat>, T: set<nat>)
    requires Extends(L, a, c, pf, S + T) && Extends(L, b, c, pf, T) && S !! T && b.tables == c.tables
    ensures Extends(L, a, b, pf, S)
  {
    FramesCancel(L, a, b, c, pf, S, T);
    GrowCancel(L.Start(pf), a.VBits(pf), b.VBits(pf), c.VBits(pf), S, T);
  }

  // An extension by no page changes nothing but for page tables made in between.
  lemma EmptyExtension(L: Layout, a: Mem, b: Mem, pf: Pf)
    requires Extends(L, a, b, pf, {})
    ensures SameMem(a, b) <==> a.tables == b.tables
  {
    assert FramesOf(b, {}) == {};
    GrowNothing(L.Base(pf), a.Pool(pf), b.Pool(pf));
    GrowNothing(L.Start(pf), a.VBits(pf), b.VBits(pf));
    if a.tables == b.tables {
      NoNewTables(a, b);
      GrowNothing(L.Base(pf.Other()), a.Pool(pf.Other()), b.Pool(pf.Other()));
    }
  }

  lemma NoExtension(L: Layout, m: Mem, pf: Pf)
    ensures Extends(L, m, m, pf, {})
  {
    assert FramesOf(m, {}) == {};
    NoNewTables(m, m);
  }
}
