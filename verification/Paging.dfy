/** Two-level paging edited through the recursive window (kernel/memory.c, create_page_dir), against the
    hardware walk of 32-bit paging (section 4.3 of the Intel 64 and IA-32 Architectures Software
    Developer's Manual, Volume 3A).  Physical memory gives the word at each page and word index. */
module Paging {
  import opened Bits

  type Word = bv32
  type Phys = (Word, Word) -> Word

  const WINDOW: Word := 0x3ff   // directory slot that points at the directory itself
  const FLAGS: Word := 0x7      // PG_US_U | PG_RW_W | PG_P_1

  function Frame(e: Word): Word { e & 0xfffff000 }
  predicate Present(e: Word) { e & 1 == 1 }
  predicate Aligned(a: Word) { a & 0xfff == 0 }
  function DirIndex(v: Word): Word { v >> 22 }
  function TabIndex(v: Word): Word { (v >> 12) & 0x3ff }
  function Offset(v: Word): Word { v & 0xfff }

  // a physical address: page and offset
  datatype Address = Address(page: Word, offset: Word)
  {
    function Value(): Word { page | offset }
    function Index(): Word { offset >> 2 }
  }

  function Set(m: Phys, page: Word, i: Word, w: Word): Phys {
    (p: Word, j: Word) => if p == page && j == i then w else m(p, j)
  }

  // memset of one page to 0
  function Zero(m: Phys, page: Word): Phys {
    (p: Word, j: Word) => if p == page then 0 else m(p, j)
  }

  // ---------- the hardware; cr3 is the page of the directory ----------

  function Pde(m: Phys, cr3: Word, v: Word): Word { m(cr3, DirIndex(v)) }

  // the page-table entry of v, if it has a page table
  function Pte(m: Phys, cr3: Word, v: Word): Word { m(Frame(Pde(m, cr3, v)), TabIndex(v)) }

  function Walk(m: Phys, cr3: Word, v: Word): Option<Address> {
    if !Present(Pde(m, cr3, v)) || !Present(Pte(m, cr3, v)) then None
    else Some(Address(Frame(Pte(m, cr3, v)), Offset(v)))
  }

  // memory accesses through the page tables; None is a page fault
  function Load(m: Phys, cr3: Word, v: Word): Option<Word> {
    match Walk(m, cr3, v) case None => None case Some(a) => Some(m(a.page, a.Index()))
  }

  function Store(m: Phys, cr3: Word, v: Word, w: Word): Option<Phys> {
    match Walk(m, cr3, v) case None => None case Some(a) => Some(Set(m, a.page, a.Index(), w))
  }

  // ---------- memory.c ----------

  function PtePtr(v: Word): Word {
    0xffc00000 + ((v & 0xffc00000) >> 10) + ((v & 0x003ff000) >> 12) * 4
  }

  function PdePtr(v: Word): Word {
    0xfffff000 + ((v & 0xffc00000) >> 22) * 4
  }

  datatype Edit = Edited(m: Phys) | Fault | Panic

  // page_table_add; `table` is what palloc gives when a page table is missing
  function PageTableAdd(m: Phys, cr3: Word, v: Word, frame: Word, table: Word): Edit {
    match Load(m, cr3, PdePtr(v))
    case None => Fault
    case Some(pde) => if Present(pde) then AddToTable(m, cr3, v, frame) else AddWithTable(m, cr3, v, frame, table)
  }

  function AddToTable(m: Phys, cr3: Word, v: Word, frame: Word): Edit {
    match Load(m, cr3, PtePtr(v))
    case None => Fault
    case Some(pte) => if Present(pte) then Panic else Put(m, cr3, v, frame)
  }

  function AddWithTable(m: Phys, cr3: Word, v: Word, frame: Word, table: Word): Edit {
    match Store(m, cr3, PdePtr(v), table | FLAGS)
    case None => Fault
    case Some(m1) =>
      match Walk(m1, cr3, PtePtr(v) & 0xfffff000)
      case None => Fault
      case Some(a) => AddToTable(Zero(m1, a.page), cr3, v, frame)
  }

  function Put(m: Phys, cr3: Word, v: Word, frame: Word): Edit {
    match Store(m, cr3, PtePtr(v), frame | FLAGS) case None => Fault case Some(m1) => Edited(m1)
  }

  // page_table_pte_remove
  function PteRemove(m: Phys, cr3: Word, v: Word): Edit {
    match Load(m, cr3, PtePtr(v))
    case None => Fault
    case Some(pte) => match Store(m, cr3, PtePtr(v), pte & !1) case None => Fault case Some(m1) => Edited(m1)
  }

  // addr_v2p
  function AddrV2P(m: Phys, cr3: Word, v: Word): Option<Word> {
    match Load(m, cr3, PtePtr(v)) case None => None case Some(pte) => Some((pte & 0xfffff000) + (v & 0x00000fff))
  }

  // ---------- address arithmetic ----------

  lemma PtePtrBits(v: Word)
    ensures DirIndex(PtePtr(v)) == WINDOW && TabIndex(PtePtr(v)) == DirIndex(v)
    ensures Offset(PtePtr(v)) >> 2 == TabIndex(v)
  {
  }

  lemma PtePageBits(v: Word)
    ensures DirIndex(PtePtr(v) & 0xfffff000) == WINDOW && TabIndex(PtePtr(v) & 0xfffff000) == DirIndex(v)
  {
  }

  lemma PdePtrBits(v: Word)
    ensures DirIndex(PdePtr(v)) == WINDOW && TabIndex(PdePtr(v)) == WINDOW
    ensures Offset(PdePtr(v)) >> 2 == DirIndex(v)
  {
  }

  lemma FlagBits(a: Word)
    requires a & 0xfff == 0
    ensures (a | 7) & 1 == 1 && (a | 7) & 0xfffff000 == a
  {
  }

  lemma EntryFor(a: Word)
    requires Aligned(a)
    ensures Present(a | FLAGS) && Frame(a | FLAGS) == a
  {
    FlagBits(a);
  }

  lemma ClearP(e: Word)
    ensures !Present(e & !1)
  {
  }

  lemma NoBits()
    ensures !Present(0)
  {
  }

  lemma AddIsOr(e: Word, v: Word)
    ensures (e & 0xfffff000) + (v & 0x00000fff) == Address(Frame(e), Offset(v)).Value()
  {
  }

  // ---------- the window ----------

  // slot 1023 of the directory is present and points at the directory
  ghost predicate Recursive(m: Phys, cr3: Word) {
    Present(m(cr3, WINDOW)) && Frame(m(cr3, WINDOW)) == cr3
  }

  // addresses in the window translate by the directory's own entries
  lemma WindowWalk(m: Phys, cr3: Word, w: Word)
    requires Recursive(m, cr3) && DirIndex(w) == WINDOW
    ensures Walk(m, cr3, w) == if Present(m(cr3, TabIndex(w))) then Some(Address(Frame(m(cr3, TabIndex(w))), Offset(w))) else None
  {
  }

  // The walk of pde_ptr(v) lands on v's own directory entry.
  lemma PdePtrWalk(m: Phys, cr3: Word, v: Word)
    requires Recursive(m, cr3)
    ensures Walk(m, cr3, PdePtr(v)).Some?
    ensures var a := Walk(m, cr3, PdePtr(v)).value; a.page == cr3 && a.Index() == DirIndex(v)
  {
    PdePtrBits(v);
    WindowWalk(m, cr3, PdePtr(v));
  }

  // The walk of pte_ptr(v) lands on v's own page-table entry, and faults exactly when v has no page table.
  lemma PtePtrWalk(m: Phys, cr3: Word, v: Word)
    requires Recursive(m, cr3)
    ensures Walk(m, cr3, PtePtr(v)).Some? <==> Present(Pde(m, cr3, v))
    ensures Walk(m, cr3, PtePtr(v)).Some? ==>
              var a := Walk(m, cr3, PtePtr(v)).value; a.page == Frame(Pde(m, cr3, v)) && a.Index() == TabIndex(v)
  {
    PtePtrBits(v);
    WindowWalk(m, cr3, PtePtr(v));
  }

  lemma PtePageWalk(m: Phys, cr3: Word, v: Word)
    requires Recursive(m, cr3) && Present(Pde(m, cr3, v))
    ensures Walk(m, cr3, PtePtr(v) & 0xfffff000).Some?
    ensures Walk(m, cr3, PtePtr(v) & 0xfffff000).value.page == Frame(Pde(m, cr3, v))
  {
    PtePageBits(v);
    WindowWalk(m, cr3, PtePtr(v) & 0xfffff000);
  }

  lemma LoadPte(m: Phys, cr3: Word, v: Word)
    requires Recursive(m, cr3)
    ensures Load(m, cr3, PtePtr(v)) == if Present(Pde(m, cr3, v)) then Some(Pte(m, cr3, v)) else None
  {
    PtePtrWalk(m, cr3, v);
  }

  lemma ReadPte(m: Phys, cr3: Word, v: Word, pte: Word)
    requires Load(m, cr3, PtePtr(v)) == Some(pte)
    ensures AddrV2P(m, cr3, v) == Some(Address(Frame(pte), Offset(v)).Value())
  {
    AddIsOr(pte, v);
  }

  lemma WalkParts(m: Phys, cr3: Word, v: Word)
    requires Walk(m, cr3, v).Some?
    ensures Present(Pde(m, cr3, v)) && Walk(m, cr3, v).value == Address(Frame(Pte(m, cr3, v)), Offset(v))
  {
  }

  // addr_v2p agrees with the hardware walk on every mapped address.
  lemma AddrV2PIsWalk(m: Phys, cr3: Word, v: Word)
    requires Recursive(m, cr3) && Walk(m, cr3, v).Some?
    ensures AddrV2P(m, cr3, v) == Some(Walk(m, cr3, v).value.Value())
  {
    WalkParts(m, cr3, v);
    LoadPte(m, cr3, v);
    ReadPte(m, cr3, v, Pte(m, cr3, v));
  }

  // ---------- editing a mapping ----------

  // The directory is seen in slot 1023 only: no other slot uses it as a page table.
  ghost predicate TablesApart(m: Phys, cr3: Word) {
    forall d: Word :: d != WINDOW && Present(m(cr3, d)) ==> Frame(m(cr3, d)) != cr3
  }

  // u and v are translated by the same page-table entry
  predicate SharesEntry(m: Phys, cr3: Word, u: Word, v: Word) {
    && Present(Pde(m, cr3, u)) && Present(Pde(m, cr3, v))
    && Frame(Pde(m, cr3, u)) == Frame(Pde(m, cr3, v)) && TabIndex(u) == TabIndex(v)
  }

  // v's page-table entry is set to e
  function WithEntry(m: Phys, cr3: Word, v: Word, e: Word): Phys {
    Set(m, Frame(Pde(m, cr3, v)), TabIndex(v), e)
  }

  function Reads(pde: Word, pte: Word, u: Word): Option<Address> {
    if Present(pde) && Present(pte) then Some(Address(Frame(pte), Offset(u))) else None
  }

  // Setting v's entry leaves the directory alone; the pages sharing the entry read e, no other walk changes.
  lemma EntryWalk(m: Phys, cr3: Word, v: Word, e: Word, u: Word)
    requires TablesApart(m, cr3) && DirIndex(v) != WINDOW && Present(Pde(m, cr3, v))
    ensures Pde(WithEntry(m, cr3, v, e), cr3, u) == Pde(m, cr3, u)
    ensures SharesEntry(WithEntry(m, cr3, v, e), cr3, u, v) == SharesEntry(m, cr3, u, v)
    ensures Walk(WithEntry(m, cr3, v, e), cr3, u) ==
            if SharesEntry(m, cr3, u, v) then Reads(Pde(m, cr3, u), e, u) else Walk(m, cr3, u)
  {
  }

  lemma EntryKeepsShape(m: Phys, cr3: Word, v: Word, e: Word)
    requires Recursive(m, cr3) && TablesApart(m, cr3) && DirIndex(v) != WINDOW && Present(Pde(m, cr3, v))
    ensures Recursive(WithEntry(m, cr3, v, e), cr3) && TablesApart(WithEntry(m, cr3, v, e), cr3)
  {
  }

  // what page_table_add promises: v is translated to the frame, and outside the window exactly the pages
  // that share v's entry are translated differently from before
  ghost predicate MapsOnly(m: Phys, m1: Phys, cr3: Word, v: Word, frame: Word) {
    && Recursive(m1, cr3) && TablesApart(m1, cr3)
    && Walk(m1, cr3, v) == Some(Address(frame, Offset(v)))
    && forall u: Word :: DirIndex(u) != WINDOW ==>
         Walk(m1, cr3, u) == if SharesEntry(m1, cr3, u, v) then Some(Address(frame, Offset(u))) else Walk(m, cr3, u)
  }

  lemma EntryMapsOnly(m: Phys, cr3: Word, v: Word, frame: Word)
    requires Recursive(m, cr3) && TablesApart(m, cr3) && DirIndex(v) != WINDOW && Present(Pde(m, cr3, v))
    requires Aligned(frame)
    ensures MapsOnly(m, WithEntry(m, cr3, v, frame | FLAGS), cr3, v, frame)
  {
    var e := frame | FLAGS;
    var m1 := WithEntry(m, cr3, v, e);
    EntryFor(frame);
    EntryKeepsShape(m, cr3, v, e);
    EntryWalk(m, cr3, v, e, v);
    forall u: Word | DirIndex(u) != WINDOW
      ensures Walk(m1, cr3, u) == if SharesEntry(m1, cr3, u, v) then Some(Address(frame, Offset(u))) else Walk(m, cr3, u)
    {
      EntryWalk(m, cr3, v, e, u);
    }
  }

  // page_table_add when the page table is there: an assertion if v is mapped already, else one entry is set
  lemma AddToTableSteps(m: Phys, cr3: Word, v: Word, frame: Word)
    requires Recursive(m, cr3) && Present(Pde(m, cr3, v))
    ensures AddToTable(m, cr3, v, frame) ==
            if Present(Pte(m, cr3, v)) then Panic else Edited(WithEntry(m, cr3, v, frame | FLAGS))
  {
    PtePtrWalk(m, cr3, v);
  }

  // a page no directory slot uses
  ghost predicate FreshTable(m: Phys, cr3: Word, f: Word) {
    Aligned(f) && f != cr3 && forall d: Word :: Present(m(cr3, d)) ==> Frame(m(cr3, d)) != f
  }

  // memory after the new directory entry is written and the new table cleared through the window
  function WithTable(m: Phys, cr3: Word, v: Word, table: Word): Phys {
    Zero(Set(m, cr3, DirIndex(v), table | FLAGS), table)
  }

  lemma WithTableShape(m: Phys, cr3: Word, v: Word, table: Word)
    requires Recursive(m, cr3) && TablesApart(m, cr3) && FreshTable(m, cr3, table) && DirIndex(v) != WINDOW
    ensures Recursive(WithTable(m, cr3, v, table), cr3) && TablesApart(WithTable(m, cr3, v, table), cr3)
    ensures Present(Pde(WithTable(m, cr3, v, table), cr3, v)) && Pte(WithTable(m, cr3, v, table), cr3, v) == 0
  {
    EntryFor(table);
  }

  // a new, empty page table changes no translation outside the window
  lemma WithTableWalk(m: Phys, cr3: Word, v: Word, table: Word, u: Word)
    requires TablesApart(m, cr3) && FreshTable(m, cr3, table) && !Present(Pde(m, cr3, v)) && DirIndex(u) != WINDOW
    ensures Walk(WithTable(m, cr3, v, table), cr3, u) == Walk(m, cr3, u)
  {
    EntryFor(table);
    NoBits();
  }

  // page_table_add when the page table is missing: the page cleared through the window is the new table
  lemma AddWithTableSteps(m: Phys, cr3: Word, v: Word, frame: Word, table: Word)
    requires Recursive(m, cr3) && Aligned(table) && DirIndex(v) != WINDOW
    ensures AddWithTable(m, cr3, v, frame, table) == AddToTable(WithTable(m, cr3, v, table), cr3, v, frame)
  {
    PdePtrWalk(m, cr3, v);
    var m1 := Set(m, cr3, DirIndex(v), table | FLAGS);
    EntryFor(table);
    PtePageWalk(m1, cr3, v);
  }

  lemma AddMissing(m: Phys, cr3: Word, v: Word, frame: Word, table: Word)
    requires Recursive(m, cr3) && TablesApart(m, cr3) && DirIndex(v) != WINDOW && Aligned(frame)
    requires !Present(Pde(m, cr3, v)) && FreshTable(m, cr3, table)
    ensures AddWithTable(m, cr3, v, frame, table).Edited?
    ensures MapsOnly(m, AddWithTable(m, cr3, v, frame, table).m, cr3, v, frame)
  {
    AddWithTableSteps(m, cr3, v, frame, table);
    var m2 := WithTable(m, cr3, v, table);
    WithTableShape(m, cr3, v, table);
    NoBits();
    AddToTableSteps(m2, cr3, v, frame);
    EntryMapsOnly(m2, cr3, v, frame);
    forall u: Word | DirIndex(u) != WINDOW
      ensures Walk(m2, cr3, u) == Walk(m, cr3, u)
    {
      WithTableWalk(m, cr3, v, table, u);
    }
  }

  // page_table_add fires its assertion exactly when v is mapped already, never faults, and otherwise maps
  // v -- creating and clearing a page table through the window if there is none.
  lemma PageTableAddCorrect(m: Phys, cr3: Word, v: Word, frame: Word, table: Word)
    requires Recursive(m, cr3) && TablesApart(m, cr3) && DirIndex(v) != WINDOW && Aligned(frame)
    requires !Present(Pde(m, cr3, v)) ==> FreshTable(m, cr3, table)
    ensures PageTableAdd(m, cr3, v, frame, table) == Panic <==> Walk(m, cr3, v).Some?
    ensures Walk(m, cr3, v) == None ==> PageTableAdd(m, cr3, v, frame, table).Edited?
    ensures Walk(m, cr3, v) == None ==> MapsOnly(m, PageTableAdd(m, cr3, v, frame, table).m, cr3, v, frame)
  {
    PdePtrWalk(m, cr3, v);
    if Present(Pde(m, cr3, v)) {
      AddToTableSteps(m, cr3, v, frame);
      EntryMapsOnly(m, cr3, v, frame);
    } else {
      AddMissing(m, cr3, v, frame, table);
    }
  }

  // no two directory slots hold the same page table
  ghost predicate TablesDistinct(m: Phys, cr3: Word) {
    forall d: Word, e: Word :: d != e && Present(m(cr3, d)) && Present(m(cr3, e)) ==> Frame(m(cr3, d)) != Frame(m(cr3, e))
  }

  // Under such a directory only v's own page changes.
  lemma OnlyOwnPage(m: Phys, cr3: Word, u: Word, v: Word)
    requires SharesEntry(m, cr3, u, v) && TablesDistinct(m, cr3)
    ensures Frame(u) == Frame(v)
  {
    SamePage(u, v);
  }

  lemma SamePage(u: Word, v: Word)
    ensures DirIndex(u) == DirIndex(v) && TabIndex(u) == TabIndex(v) ==> Frame(u) == Frame(v)
  {
  }

  // The loader's directory is not such: slots 0 and 768 hold the same table, so a kernel page mapped in
  // the first 4 MB above 0xc0000000 also appears 3 GB below.
  lemma LoaderAlias(m: Phys, cr3: Word, v: Word, frame: Word, table: Word)
    requires Recursive(m, cr3) && TablesApart(m, cr3) && Aligned(frame) && Walk(m, cr3, v) == None
    requires 0xc0000000 <= v < 0xc0400000
    requires Present(m(cr3, 0)) && m(cr3, 768) == m(cr3, 0)
    ensures PageTableAdd(m, cr3, v, frame, table).Edited?
    ensures Walk(PageTableAdd(m, cr3, v, frame, table).m, cr3, v - 0xc0000000) == Some(Address(frame, Offset(v)))
  {
    var u := v - 0xc0000000;
    AliasBits(v);
    PageTableAddCorrect(m, cr3, v, frame, table);
    PdePtrWalk(m, cr3, v);
    AddToTableSteps(m, cr3, v, frame);
    EntryWalk(m, cr3, v, frame | FLAGS, u);
  }

  lemma AliasBits(v: Word)
    requires 0xc0000000 <= v < 0xc0400000
    ensures DirIndex(v) == 768 && DirIndex(v - 0xc0000000) == 0
    ensures TabIndex(v - 0xc0000000) == TabIndex(v) && Offset(v - 0xc0000000) == Offset(v)
  {
  }

  ghost predicate Unmaps(m: Phys, m1: Phys, cr3: Word, v: Word) {
    && Recursive(m1, cr3) && TablesApart(m1, cr3)
    && forall u: Word :: Walk(m1, cr3, u) == if SharesEntry(m, cr3, u, v) then None else Walk(m, cr3, u)
  }

  // page_table_pte_remove undoes the mapping: v and the pages sharing its entry are gone, all others stay.
  lemma PteRemoveCorrect(m: Phys, cr3: Word, v: Word)
    requires Recursive(m, cr3) && TablesApart(m, cr3) && DirIndex(v) != WINDOW && Present(Pde(m, cr3, v))
    ensures PteRemove(m, cr3, v).Edited? && Unmaps(m, PteRemove(m, cr3, v).m, cr3, v)
  {
    PteRemoveSteps(m, cr3, v);
    ClearP(Pte(m, cr3, v));
    EntryUnmaps(m, cr3, v, Pte(m, cr3, v) & !1);
  }

  lemma PteRemoveSteps(m: Phys, cr3: Word, v: Word)
    requires Recursive(m, cr3) && Present(Pde(m, cr3, v))
    ensures PteRemove(m, cr3, v) == Edited(WithEntry(m, cr3, v, Pte(m, cr3, v) & !1))
  {
    PtePtrWalk(m, cr3, v);
    PteRemoveAt(m, cr3, v, Walk(m, cr3, PtePtr(v)).value);
  }

  lemma PteRemoveAt(m: Phys, cr3: Word, v: Word, a: Address)
    requires Walk(m, cr3, PtePtr(v)) == Some(a)
    ensures PteRemove(m, cr3, v) == Edited(Set(m, a.page, a.Index(), m(a.page, a.Index()) & !1))
  {
  }

  lemma EntryUnmaps(m: Phys, cr3: Word, v: Word, e: Word)
    requires Recursive(m, cr3) && TablesApart(m, cr3) && DirIndex(v) != WINDOW && Present(Pde(m, cr3, v)) && !Present(e)
    ensures Unmaps(m, WithEntry(m, cr3, v, e), cr3, v)
  {
    EntryKeepsShape(m, cr3, v, e);
    forall u: Word
      ensures Walk(WithEntry(m, cr3, v, e), cr3, u) == if SharesEntry(m, cr3, u, v) then None else Walk(m, cr3, u)
    {
      EntryWalk(m, cr3, v, e, u);
    }
  }

  // ---------- create_page_dir ----------

  // n is no page of the paging structures in use
  ghost predicate Outside(m: Phys, cr3: Word, n: Word) {
    n != cr3 && forall d: Word :: Present(m(cr3, d)) ==> Frame(m(cr3, d)) != n
  }

  // memories that agree but for page n
  ghost predicate SameBut(m: Phys, m1: Phys, n: Word) {
    forall p: Word, i: Word :: p != n ==> m1(p, i) == m(p, i)
  }

  lemma WalkOutside(m: Phys, m1: Phys, cr3: Word, n: Word, u: Word)
    requires Outside(m, cr3, n) && SameBut(m, m1, n)
    ensures Walk(m1, cr3, u) == Walk(m, cr3, u) && Pde(m1, cr3, u) == Pde(m, cr3, u)
  {
  }

  // word i of the page mapped at pd
  lemma WordWalk(m: Phys, cr3: Word, pd: Word, n: Word, i: Word)
    requires Aligned(pd) && Walk(m, cr3, pd) == Some(Address(n, 0)) && i <= 0x3ff
    ensures Walk(m, cr3, pd + i * 4).Some?
    ensures var a := Walk(m, cr3, pd + i * 4).value; a.page == n && a.Index() == i
  {
    WordBits(pd, i);
  }

  lemma WordBits(pd: Word, i: Word)
    requires Aligned(pd) && i <= 0x3ff
    ensures DirIndex(pd + i * 4) == DirIndex(pd) && TabIndex(pd + i * 4) == TabIndex(pd)
    ensures Offset(pd + i * 4) >> 2 == i
  {
  }

  // word i of the directory, read at 0xfffff000
  lemma DirectoryWord(m: Phys, cr3: Word, i: Word)
    requires Recursive(m, cr3) && i <= 0x3ff
    ensures Load(m, cr3, 0xfffff000 + i * 4) == Some(m(cr3, i))
  {
    WindowTop();
    WindowWalk(m, cr3, 0xfffff000);
    WordWalk(m, cr3, 0xfffff000, cr3, i);
  }

  lemma WindowTop()
    ensures DirIndex(0xfffff000) == WINDOW && TabIndex(0xfffff000) == WINDOW && Offset(0xfffff000) == 0
    ensures Aligned(0xfffff000)
  {
  }

  // create_page_dir's situation: the zeroed page n that get_kernel_pages mapped at pd
  ghost predicate PageForDirectory(m: Phys, cr3: Word, pd: Word, n: Word) {
    && Recursive(m, cr3) && Outside(m, cr3, n) && Aligned(pd) && Aligned(n) && Walk(m, cr3, pd) == Some(Address(n, 0))
    && forall i: Word :: m(n, i) == 0
  }

  // entries 768 to i - 1 copied
  ghost predicate Copied(m: Phys, mem: Phys, cr3: Word, n: Word, i: Word) {
    && SameBut(m, mem, n)
    && forall j: Word :: CopiedAt(m, mem, cr3, n, i, j)
  }

  predicate CopiedAt(m: Phys, mem: Phys, cr3: Word, n: Word, i: Word, j: Word) {
    mem(n, j) == if 768 <= j && j < i then m(cr3, j) else 0
  }

  // reading an entry of the directory, and writing a word of the new page, while the copy goes on
  lemma ReadEntry(m: Phys, mem: Phys, cr3: Word, n: Word, i: Word)
    requires Recursive(m, cr3) && Outside(m, cr3, n) && SameBut(m, mem, n) && i <= 0x3ff
    ensures Load(mem, cr3, 0xfffff000 + i * 4) == Some(m(cr3, i))
  {
    DirectoryWord(mem, cr3, i);
  }

  lemma WriteWord(m: Phys, mem: Phys, cr3: Word, pd: Word, n: Word, i: Word, w: Word)
    requires Outside(m, cr3, n) && SameBut(m, mem, n) && i <= 0x3ff
    requires Aligned(pd) && Walk(m, cr3, pd) == Some(Address(n, 0))
    ensures Store(mem, cr3, pd + i * 4, w) == Some(Set(mem, n, i, w))
  {
    WalkOutside(m, mem, cr3, n, pd);
    WordWalk(mem, cr3, pd, n, i);
  }

  lemma CopiedOneMore(m: Phys, mem: Phys, cr3: Word, n: Word, i: Word)
    requires Copied(m, mem, cr3, n, i) && 768 <= i <= 0x3ff
    ensures Copied(m, Set(mem, n, i, m(cr3, i)), cr3, n, i + 1)
  {
    var mem1, next := Set(mem, n, i, m(cr3, i)), i + 1;
    forall j: Word
      ensures CopiedAt(m, mem1, cr3, n, next, j)
    {
      CopiedAtNext(m, mem, cr3, n, i, j);
    }
  }

  lemma CopiedAtNext(m: Phys, mem: Phys, cr3: Word, n: Word, i: Word, j: Word)
    requires CopiedAt(m, mem, cr3, n, i, j) && 768 <= i <= 0x3ff
    ensures CopiedAt(m, Set(mem, n, i, m(cr3, i)), cr3, n, i + 1, j)
  {
    BelowNext(j, i);
  }

  lemma BelowNext(j: Word, i: Word)
    requires i <= 0x3ff
    ensures j < i + 1 <==> j < i || j == i
  {
  }

  // the new directory: no user entries, the kernel's entries of the current one, itself in slot 1023
  ghost predicate NewDirectory(m: Phys, m1: Phys, cr3: Word, n: Word) {
    forall i: Word :: i <= WINDOW ==>
      m1(n, i) == if i == WINDOW then n | FLAGS else if i >= 768 then m(cr3, i) else 0
  }

  // one word of its memcpy
  method CopyWord(ghost m: Phys, mem: Phys, cr3: Word, pd: Word, ghost n: Word, i: Word) returns (mem1: Phys)
    requires PageForDirectory(m, cr3, pd, n) && Copied(m, mem, cr3, n, i) && 768 <= i <= 0x3ff
    ensures Copied(m, mem1, cr3, n, i + 1)
  {
    ReadEntry(m, mem, cr3, n, i);
    var entry := Load(mem, cr3, 0xfffff000 + i * 4).value;
    WriteWord(m, mem, cr3, pd, n, i, entry);
    mem1 := Store(mem, cr3, pd + i * 4, entry).value;
    CopiedOneMore(m, mem, cr3, n, i);
  }

  // create_page_dir
  method CreatePageDir(m: Phys, cr3: Word, pd: Word, ghost n: Word) returns (mem: Phys)
    requires PageForDirectory(m, cr3, pd, n)
    ensures SameBut(m, mem, n) && NewDirectory(m, mem, cr3, n)
  {
    mem := m;
    CopiedNone(m, cr3, n);
    var i: Word := 768;
    while i != 1024
      invariant 768 <= i <= 1024
      invariant Copied(m, mem, cr3, n, i)
      decreases 1024 - i
    {
      mem := CopyWord(m, mem, cr3, pd, n, i);
      i := i + 1;
    }
    SelfAddress(m, mem, cr3, pd, n);
    var phys := AddrV2P(mem, cr3, pd).value;
    WriteWord(m, mem, cr3, pd, n, 1023, phys | FLAGS);
    SelfLinked(m, mem, cr3, n);
    mem := Store(mem, cr3, pd + 1023 * 4, phys | FLAGS).value;
  }

  lemma SelfAddress(m: Phys, mem: Phys, cr3: Word, pd: Word, n: Word)
    requires Recursive(m, cr3) && Outside(m, cr3, n) && SameBut(m, mem, n) && Walk(m, cr3, pd) == Some(Address(n, 0))
    ensures AddrV2P(mem, cr3, pd) == Some(n)
  {
    WalkOutside(m, mem, cr3, n, pd);
    AddrV2PIsWalk(mem, cr3, pd);
    ValueOfPage(n);
  }

  lemma SelfLinked(m: Phys, mem: Phys, cr3: Word, n: Word)
    requires Copied(m, mem, cr3, n, 1024)
    ensures SameBut(m, Set(mem, n, 1023, n | FLAGS), n) && NewDirectory(m, Set(mem, n, 1023, n | FLAGS), cr3, n)
  {
    var mem1 := Set(mem, n, 1023, n | FLAGS);
    forall i: Word | i <= WINDOW
      ensures mem1(n, i) == if i == WINDOW then n | FLAGS else if i >= 768 then m(cr3, i) else 0
    {
      assert CopiedAt(m, mem, cr3, n, 1024, i);
    }
  }

  lemma CopiedNone(m: Phys, cr3: Word, n: Word)
    requires forall i: Word :: m(n, i) == 0
    ensures Copied(m, m, cr3, n, 768)
  {
  }

  lemma ValueOfPage(n: Word)
    ensures Address(n, 0).Value() == n
  {
  }

  lemma DirUpTo(v: Word)
    ensures DirIndex(v) <= WINDOW
  {
  }

  // The new directory translates every kernel address below the window as the current one does, before
  // and after, no user address at all, and carries its own window.
  lemma NewDirectoryWalks(m: Phys, m1: Phys, cr3: Word, n: Word, v: Word)
    requires Outside(m, cr3, n) && Aligned(n) && SameBut(m, m1, n) && NewDirectory(m, m1, cr3, n)
    ensures Recursive(m1, n) && Walk(m1, cr3, v) == Walk(m, cr3, v)
    ensures 768 <= DirIndex(v) < WINDOW ==> Walk(m1, n, v) == Walk(m, cr3, v)
    ensures DirIndex(v) < 768 ==> Walk(m1, n, v) == None
  {
    EntryFor(n);
    NoBits();
    DirUpTo(v);
    WalkOutside(m, m1, cr3, n, v);
  }
}
