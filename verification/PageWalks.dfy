/** The page map of Pages, in numbers, stands for page tables in memory, in words: page_table_add and
    page_table_pte_remove do the same to both, and the hardware walk finds the frames the page map tells. */
module PageWalks {
  import opened Bits
  import opened Paging
  import P = Pages

  // ---------- words as numbers ----------

  function Num(x: Word): nat
    decreases x
  {
    if x == 0 then 0 else Half(x); 2 * Num(x >> 1) + if x & 1 == 1 then 1 else 0
  }

  lemma Half(x: Word)
    requires x != 0
    ensures x >> 1 < x
  {
  }

  // number of the page, or of the frame, that holds the address
  function No(a: Word): nat { Num(a >> 12) }

  function Bit(x: Word): nat { if x & 1 == 1 then 1 else 0 }

  lemma NoHalf()
    ensures (0 as Word) >> 1 == 0 && (0 as Word) & 1 == 0
  {
  }

  lemma NumParts(x: Word)
    ensures Num(x) == 2 * Num(x >> 1) + Bit(x)
  {
    NoHalf();
  }

  // a word is told by its low bit and the others
  lemma LowAndHigh(x: Word, y: Word)
    ensures x >> 1 == y >> 1 && Bit(x) == Bit(y) ==> x == y
  {
  }

  lemma {:induction false} NumZero(x: Word)
    ensures Num(x) == 0 ==> x == 0
    decreases x
  {
    if x != 0 {
      Half(x);
      NumZero(x >> 1);
      NumParts(x);
      NoHalf();
      LowAndHigh(x, 0);
    }
  }

  // No two words have the same number.
  lemma {:induction false} NumInjective(x: Word, y: Word)
    ensures Num(x) == Num(y) ==> x == y
    decreases x
  {
    if x == 0 {
      NumZero(y);
    } else {
      Half(x);
      NumInjective(x >> 1, y >> 1);
      NumParts(x);
      NumParts(y);
      LowAndHigh(x, y);
    }
  }

  lemma NumHalf(x: Word, y: Word)
    requires y == x >> 1
    ensures Num(y) == Num(x) / 2
  {
    NumParts(x);
  }

  lemma TwoShifts(x: Word)
    ensures (x >> 1) >> 1 == x >> 2 && (x >> 2) >> 2 == x >> 4 && (x >> 4) >> 4 == x >> 8 && (x >> 8) >> 2 == x >> 10
  {
  }

  lemma NumQuarter(x: Word, y: Word)
    requires y == x >> 2
    ensures Num(y) == Num(x) / 4
  {
    TwoShifts(x);
    NumHalf(x, x >> 1);
    NumHalf(x >> 1, y);
  }

  lemma NumShift4(x: Word, y: Word)
    requires y == x >> 4
    ensures Num(y) == Num(x) / 16
  {
    TwoShifts(x);
    NumQuarter(x, x >> 2);
    NumQuarter(x >> 2, y);
  }

  lemma NumShift8(x: Word, y: Word)
    requires y == x >> 8
    ensures Num(y) == Num(x) / 256
  {
    TwoShifts(x);
    NumShift4(x, x >> 4);
    NumShift4(x >> 4, y);
  }

  lemma NumShift10(x: Word, y: Word)
    requires y == x >> 10
    ensures Num(y) == Num(x) / 1024
  {
    TwoShifts(x);
    NumShift8(x, x >> 8);
    NumQuarter(x >> 8, y);
  }

  lemma DirShift(w: Word)
    ensures DirIndex(w) == (w >> 12) >> 10
  {
  }

  // The directory slot of a page is the number of its address's directory index.
  lemma SlotOfPage(w: Word)
    ensures P.Slot(No(w)) == Num(DirIndex(w))
  {
    DirShift(w);
    NumShift10(w >> 12, DirIndex(w));
    P.SlotIsQuotient(No(w));
  }

  lemma SplitPage(u: Word, w: Word)
    requires u >> 12 == w >> 12
    ensures DirIndex(u) == DirIndex(w) && TabIndex(u) == TabIndex(w)
  {
  }

  lemma JoinPage(u: Word, w: Word)
    requires DirIndex(u) == DirIndex(w) && TabIndex(u) == TabIndex(w)
    ensures u >> 12 == w >> 12
  {
  }

  // Addresses in the same page agree in both indices, and the other way round.
  lemma SameIndices(u: Word, w: Word)
    requires No(u) == No(w)
    ensures DirIndex(u) == DirIndex(w) && TabIndex(u) == TabIndex(w)
  {
    NumInjective(u >> 12, w >> 12);
    SplitPage(u, w);
  }

  lemma SamePage(u: Word, w: Word)
    requires DirIndex(u) == DirIndex(w) && TabIndex(u) == TabIndex(w)
    ensures No(u) == No(w)
  {
    JoinPage(u, w);
  }

  lemma AlignedParts(a: Word)
    requires Aligned(a)
    ensures a == (a >> 12) << 12
  {
  }

  // ---------- the page map in memory ----------

  // pages of the two ranges the memory manager hands out
  predicate Managed(L: P.Layout, v: nat) {
    L.uStart <= v < L.uStart + L.uPages || L.kStart <= v < L.kStart + L.kPages
  }

  // directory entry d tells the page table of slot d
  ghost predicate SlotIs(m: P.Mem, phys: Phys, cr3: Word, d: Word) {
    && (Present(phys(cr3, d)) <==> Num(d) in m.tables)
    && (Num(d) in m.tables ==> No(Frame(phys(cr3, d))) == m.tables[Num(d)])
  }

  // the hardware walk of w tells the frame of its page
  ghost predicate PageIs(m: P.Mem, phys: Phys, cr3: Word, w: Word) {
    && (Walk(phys, cr3, w).Some? <==> m.Present(No(w)))
    && (Walk(phys, cr3, w).Some? ==> No(Walk(phys, cr3, w).value.page) == m.Frame(No(w)))
  }

  ghost predicate Directory(L: P.Layout, m: P.Mem, phys: Phys, cr3: Word) {
    && Recursive(phys, cr3) && TablesApart(phys, cr3) && Aligned(cr3)
    && (No(cr3) < L.kBase || P.Taken(L, m, P.Kernel, No(cr3)))
    && forall d: Word {:trigger SlotIs(m, phys, cr3, d)} :: d != WINDOW ==> SlotIs(m, phys, cr3, d)
  }

  // page tables under cr3 that hold exactly the page map m
  ghost predicate Represents(L: P.Layout, m: P.Mem, phys: Phys, cr3: Word) {
    && Directory(L, m, phys, cr3)
    && forall w: Word {:trigger PageIs(m, phys, cr3, w)} :: Managed(L, No(w)) ==> PageIs(m, phys, cr3, w)
  }

  lemma NumWindow()
    ensures Num(WINDOW) == 1023
  {
    WindowHalves();
    NumHalfOdd(0x3ff, 0x1ff);
    NumHalfOdd(0x1ff, 0xff);
    NumHalfOdd(0xff, 0x7f);
    NumHalfOdd(0x7f, 0x3f);
    NumHalfOdd(0x3f, 0x1f);
    NumHalfOdd(0x1f, 0xf);
    NumHalfOdd(0xf, 0x7);
    NumHalfOdd(0x7, 0x3);
    NumHalfOdd(0x3, 0x1);
    NumHalfOdd(0x1, 0);
  }

  lemma NumHalfOdd(x: Word, y: Word)
    requires x >> 1 == y && x & 1 == 1
    ensures Num(x) == 2 * Num(y) + 1
  {
    NumParts(x);
  }

  lemma WindowHalves()
    ensures (0x3ff as Word) >> 1 == 0x1ff && (0x1ff as Word) >> 1 == 0xff && (0xff as Word) >> 1 == 0x7f
  {
  }

  // a managed page is outside the window and not in the loader's slot 0
  lemma ManagedSlot(L: P.Layout, w: Word)
    requires L.Valid() && Managed(L, No(w))
    ensures DirIndex(w) != WINDOW && Num(DirIndex(w)) == P.Slot(No(w)) != 0
  {
    SlotOfPage(w);
    P.SlotIsQuotient(No(w));
    NumWindow();
  }

  // no two managed pages share a page-table entry
  lemma NotShared(L: P.Layout, m: P.Mem, phys: Phys, cr3: Word, u: Word, w: Word)
    requires L.Valid() && P.TablesOk(L, m) && Directory(L, m, phys, cr3)
    requires Managed(L, No(u)) && Managed(L, No(w)) && SharesEntry(phys, cr3, u, w)
    ensures No(u) == No(w)
  {
    ManagedSlot(L, u);
    ManagedSlot(L, w);
    var d, e := DirIndex(u), DirIndex(w);
    assert SlotIs(m, phys, cr3, d) && SlotIs(m, phys, cr3, e);
    assert P.TablesApart(m, Num(d), Num(e));
    NumInjective(d, e);
    SamePage(u, w);
  }

  // a frame that is free in the kernel pool is no page table in use
  lemma FreshFrame(L: P.Layout, m: P.Mem, phys: Phys, cr3: Word, t: Word)
    requires P.TablesOk(L, m) && Directory(L, m, phys, cr3)
    requires Aligned(t) && No(t) >= L.kBase && !P.Taken(L, m, P.Kernel, No(t))
    ensures FreshTable(phys, cr3, t)
  {
    forall d: Word | Present(phys(cr3, d))
      ensures Frame(phys(cr3, d)) != t
    {
      if d != WINDOW {
        assert SlotIs(m, phys, cr3, d);
      }
    }
  }

  // ---------- page_table_add ----------

  // the page map with page v at frame f, its page table made if it was missing
  ghost predicate AddedTo(L: P.Layout, m: P.Mem, m1: P.Mem, v: nat, f: nat) {
    && P.TablesOk(L, m1)
    && (forall d :: d in m1.tables <==> d in m.tables || d == P.Slot(v))
    && (forall d :: d in m.tables ==> m1.tables[d] == m.tables[d])
    && (forall u: nat :: m1.Present(u) <==> u == v || m.Present(u))
    && (forall u: nat :: u != v && m.Present(u) ==> m1.Frame(u) == m.Frame(u))
    && m1.Frame(v) == f
    && (forall x: nat :: P.Taken(L, m, P.Kernel, x) ==> P.Taken(L, m1, P.Kernel, x))
  }

  lemma AddedEntry(L: P.Layout, m: P.Mem, v: nat, f: nat) returns (m1: P.Mem)
    requires P.TablesOk(L, m) && !m.Present(v) && P.Slot(v) in m.tables
    ensures P.PageTableAdd(L, m, v, f) == P.Edit.Added(m1) && m1.tables == m.tables && AddedTo(L, m, m1, v, f)
  {
    m1 := m.(pt := m.pt[v := P.Pte.Pte(f, true)]);
    forall d, e | P.OwnTable(L, m1, d, e)
      ensures P.TablesApart(m1, d, e)
    {
      assert P.TablesApart(m, d, e);
    }
  }

  lemma NewTableOk(L: P.Layout, m: P.Mem, m1: P.Mem, d: nat, t: nat)
    requires P.TablesOk(L, m) && d !in m.tables && m1.tables == m.tables[d := t]
    requires t >= L.kBase && !P.Taken(L, m, P.Kernel, t) && P.Taken(L, m1, P.Kernel, t)
    requires forall x: nat :: P.Taken(L, m, P.Kernel, x) ==> P.Taken(L, m1, P.Kernel, x)
    ensures P.TablesOk(L, m1)
  {
    forall b, e | P.OwnTable(L, m1, b, e)
      ensures P.TablesApart(m1, b, e)
    {
      assert P.TablesApart(m, b, e);
    }
  }

  lemma AddedWithTable(L: P.Layout, m: P.Mem, v: nat, f: nat) returns (t: nat, m1: P.Mem)
    requires P.PageInv(L, m) && !m.Present(v) && P.Slot(v) !in m.tables && P.Palloc(L, m, P.Kernel).Some?
    ensures P.PageTableAdd(L, m, v, f) == P.Edit.Added(m1) && t == P.Palloc(L, m, P.Kernel).value.0
    ensures t >= L.kBase && !P.Taken(L, m, P.Kernel, t)
    ensures AddedTo(L, m, m1, v, f) && m1.tables[P.Slot(v)] == t
  {
    FirstFit(m.kPool, 1);
    var m0;
    t, m0 := P.Palloc(L, m, P.Kernel).value.0, P.Palloc(L, m, P.Kernel).value.1;
    var m2 := P.WithTable(m0, P.Slot(v), t);
    m1 := m2.(pt := m2.pt[v := P.Pte.Pte(f, true)]);
    forall u: nat | m.Present(u)
      ensures P.Slot(u) != P.Slot(v)
    {
      assert P.Backed(L, m, u);
    }
    assert forall u: nat :: u != v ==> (m1.Present(u) <==> m.Present(u));
    NewTableOk(L, m, m1, P.Slot(v), t);
  }

  // the directory after page_table_add
  ghost predicate NewEntry(phys: Phys, phys1: Phys, cr3: Word, w: Word, table: Word) {
    forall d: Word :: phys1(cr3, d) ==
      if d == DirIndex(w) && !Present(phys(cr3, d)) then table | FLAGS else phys(cr3, d)
  }

  lemma AddDirectory(phys: Phys, cr3: Word, w: Word, frame: Word, table: Word)
    requires Recursive(phys, cr3) && TablesApart(phys, cr3) && DirIndex(w) != WINDOW && Aligned(frame)
    requires !Present(Pde(phys, cr3, w)) ==> FreshTable(phys, cr3, table)
    requires Walk(phys, cr3, w) == None
    ensures PageTableAdd(phys, cr3, w, frame, table).Edited?
    ensures MapsOnly(phys, PageTableAdd(phys, cr3, w, frame, table).m, cr3, w, frame)
    ensures NewEntry(phys, PageTableAdd(phys, cr3, w, frame, table).m, cr3, w, table)
  {
    PageTableAddCorrect(phys, cr3, w, frame, table);
    PdePtrWalk(phys, cr3, w);
    if Present(Pde(phys, cr3, w)) {
      AddToTableSteps(phys, cr3, w, frame);
    } else {
      AddWithTableSteps(phys, cr3, w, frame, table);
      WithTableShape(phys, cr3, w, table);
      NoBits();
      AddToTableSteps(WithTable(phys, cr3, w, table), cr3, w, frame);
    }
  }

  // the directory still tells the page tables
  lemma AddKeepsDirectory(L: P.Layout, m: P.Mem, m1: P.Mem, phys: Phys, phys1: Phys, cr3: Word, w: Word, f: nat, table: Word)
    requires Directory(L, m, phys, cr3) && AddedTo(L, m, m1, No(w), f) && NewEntry(phys, phys1, cr3, w, table)
    requires Recursive(phys1, cr3) && TablesApart(phys1, cr3)
    requires P.Slot(No(w)) !in m.tables ==> Aligned(table) && m1.tables[P.Slot(No(w))] == No(table)
    ensures Directory(L, m1, phys1, cr3)
  {
    SlotOfPage(w);
    forall d: Word | d != WINDOW
      ensures SlotIs(m1, phys1, cr3, d)
    {
      assert SlotIs(m, phys, cr3, d);
      NumInjective(d, DirIndex(w));
      if d == DirIndex(w) && !Present(phys(cr3, d)) {
        EntryFor(table);
      }
    }
  }

  // every managed page is found where the page map has it
  lemma AddKeepsPages(L: P.Layout, m: P.Mem, m1: P.Mem, phys: Phys, phys1: Phys, cr3: Word, w: Word, frame: Word, u: Word)
    requires L.Valid() && Represents(L, m, phys, cr3) && Directory(L, m1, phys1, cr3) && Managed(L, No(w))
    requires AddedTo(L, m, m1, No(w), No(frame)) && MapsOnly(phys, phys1, cr3, w, frame) && Managed(L, No(u))
    ensures PageIs(m1, phys1, cr3, u)
  {
    ManagedSlot(L, u);
    assert PageIs(m, phys, cr3, u);
    if SharesEntry(phys1, cr3, u, w) {
      NotShared(L, m1, phys1, cr3, u, w);
    } else {
      OtherPage(phys1, cr3, u, w);
    }
  }

  // addresses of one mapped page share its entry
  lemma OtherPage(phys: Phys, cr3: Word, u: Word, w: Word)
    requires !SharesEntry(phys, cr3, u, w) && Walk(phys, cr3, w).Some?
    ensures No(u) != No(w)
  {
    if No(u) == No(w) {
      SameIndices(u, w);
    }
  }

  // page_table_add on the page map is page_table_add on the page tables: both fire the assertion exactly
  // when the page is mapped, and otherwise the tables represent the new page map.
  lemma AddRefines(L: P.Layout, m: P.Mem, phys: Phys, cr3: Word, w: Word, frame: Word, table: Word)
    requires L.Valid() && P.PageInv(L, m) && Represents(L, m, phys, cr3) && Managed(L, No(w)) && Aligned(frame)
    requires P.Slot(No(w)) !in m.tables ==>
               P.Palloc(L, m, P.Kernel).Some? && Aligned(table) && No(table) == P.Palloc(L, m, P.Kernel).value.0
    ensures P.PageTableAdd(L, m, No(w), No(frame)).Repeat? <==> PageTableAdd(phys, cr3, w, frame, table).Panic?
    ensures P.PageTableAdd(L, m, No(w), No(frame)).Added? <==> PageTableAdd(phys, cr3, w, frame, table).Edited?
    ensures P.PageTableAdd(L, m, No(w), No(frame)).Added? ==>
              Represents(L, P.PageTableAdd(L, m, No(w), No(frame)).mem, PageTableAdd(phys, cr3, w, frame, table).m, cr3)
  {
    ManagedSlot(L, w);
    assert PageIs(m, phys, cr3, w) && SlotIs(m, phys, cr3, DirIndex(w));
    if m.Present(No(w)) {
      assert P.Backed(L, m, No(w));
      PageTableAddCorrect(phys, cr3, w, frame, table);
    } else {
      var m1, phys1 := AddBoth(L, m, phys, cr3, w, frame, table);
    }
  }

  lemma AddBoth(L: P.Layout, m: P.Mem, phys: Phys, cr3: Word, w: Word, frame: Word, table: Word)
    returns (m1: P.Mem, phys1: Phys)
    requires L.Valid() && P.PageInv(L, m) && Represents(L, m, phys, cr3) && Managed(L, No(w)) && Aligned(frame)
    requires DirIndex(w) != WINDOW && Num(DirIndex(w)) == P.Slot(No(w)) && !m.Present(No(w))
    requires PageIs(m, phys, cr3, w) && SlotIs(m, phys, cr3, DirIndex(w))
    requires P.Slot(No(w)) !in m.tables ==>
               P.Palloc(L, m, P.Kernel).Some? && Aligned(table) && No(table) == P.Palloc(L, m, P.Kernel).value.0
    ensures P.PageTableAdd(L, m, No(w), No(frame)) == P.Edit.Added(m1)
    ensures PageTableAdd(phys, cr3, w, frame, table) == Edited(phys1) && Represents(L, m1, phys1, cr3)
  {
    if P.Slot(No(w)) in m.tables {
      m1 := AddedEntry(L, m, No(w), No(frame));
    } else {
      var t;
      t, m1 := AddedWithTable(L, m, No(w), No(frame));
      FreshFrame(L, m, phys, cr3, table);
    }
    AddDirectory(phys, cr3, w, frame, table);
    phys1 := PageTableAdd(phys, cr3, w, frame, table).m;
    AddKeepsDirectory(L, m, m1, phys, phys1, cr3, w, No(frame), table);
    forall u: Word | Managed(L, No(u))
      ensures PageIs(m1, phys1, cr3, u)
    {
      AddKeepsPages(L, m, m1, phys, phys1, cr3, w, frame, u);
    }
  }

  // ---------- page_table_pte_remove and addr_v2p ----------

  lemma RemoveDirectory(phys: Phys, cr3: Word, w: Word)
    requires Recursive(phys, cr3) && TablesApart(phys, cr3) && DirIndex(w) != WINDOW && Present(Pde(phys, cr3, w))
    ensures PteRemove(phys, cr3, w).Edited? && Unmaps(phys, PteRemove(phys, cr3, w).m, cr3, w)
    ensures forall d: Word :: PteRemove(phys, cr3, w).m(cr3, d) == phys(cr3, d)
  {
    PteRemoveCorrect(phys, cr3, w);
    PteRemoveSteps(phys, cr3, w);
  }

  lemma RemoveKeepsPages(L: P.Layout, m: P.Mem, phys: Phys, phys1: Phys, cr3: Word, w: Word, u: Word)
    requires L.Valid() && P.TablesOk(L, m) && Represents(L, m, phys, cr3) && Managed(L, No(w)) && m.Present(No(w))
    requires Unmaps(phys, phys1, cr3, w) && Managed(L, No(u))
    ensures PageIs(P.PteRemove(m, No(w)), phys1, cr3, u)
  {
    assert PageIs(m, phys, cr3, u) && PageIs(m, phys, cr3, w);
    if SharesEntry(phys, cr3, u, w) {
      NotShared(L, m, phys, cr3, u, w);
    } else {
      OtherPage(phys, cr3, u, w);
    }
  }

  // page_table_pte_remove of a mapped page does the same to the page map and to the page tables.
  lemma RemoveRefines(L: P.Layout, m: P.Mem, phys: Phys, cr3: Word, w: Word)
    requires L.Valid() && P.TablesOk(L, m) && Represents(L, m, phys, cr3) && Managed(L, No(w)) && m.Present(No(w))
    ensures PteRemove(phys, cr3, w).Edited?
    ensures Represents(L, P.PteRemove(m, No(w)), PteRemove(phys, cr3, w).m, cr3)
  {
    ManagedSlot(L, w);
    assert PageIs(m, phys, cr3, w);
    RemoveDirectory(phys, cr3, w);
    var m1, phys1 := P.PteRemove(m, No(w)), PteRemove(phys, cr3, w).m;
    forall d: Word | d != WINDOW
      ensures SlotIs(m1, phys1, cr3, d)
    {
      assert SlotIs(m, phys, cr3, d);
    }
    forall u: Word | Managed(L, No(u))
      ensures PageIs(m1, phys1, cr3, u)
    {
      RemoveKeepsPages(L, m, phys, phys1, cr3, w, u);
    }
  }

  // addr_v2p finds the frame of the page map, at the same offset.
  lemma TranslationRefines(L: P.Layout, m: P.Mem, phys: Phys, cr3: Word, w: Word) returns (a: Address)
    requires Represents(L, m, phys, cr3) && Managed(L, No(w)) && m.Present(No(w))
    ensures AddrV2P(phys, cr3, w) == Some(a.Value()) && No(a.page) == m.Frame(No(w)) && a.offset == Offset(w)
  {
    assert PageIs(m, phys, cr3, w);
    AddrV2PIsWalk(phys, cr3, w);
    WalkParts(phys, cr3, w);
    a := Walk(phys, cr3, w).value;
  }
}
