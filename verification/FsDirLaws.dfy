/** What sync_dir_entry does in each form of its search, as written above all, and searching after an insertion. */
module FsDirLaws {
  import opened Bits
  import opened Bytes
  import opened FsInode
  import opened FsDir
  import opened FsDirProofs

  // ---------- the forms of the search ----------

  // a direct block is unused or has an unused slot
  ghost predicate DirectRoom(s: Dir)
    requires s.Shape()
  {
    exists at: nat :: at < DIRECT && !Full(s.d, s.inode.sectors[at])
  }

  // the search gets to the first indexed block without having read the table, and takes it for one not in use
  ghost predicate Overwrites(s: Dir, scan: Scan)
    requires s.Shape()
  {
    !scan.load && !(scan.restart && DirectRoom(s))
  }

  // the directory without its index table
  function Cut(s: Dir): (r: Dir)
    requires s.Shape()
    ensures r.Shape()
  {
    s.WithInode(Point(s.inode, 12, 0))
  }

  lemma CutBlocks(s: Dir)
    requires s.Shape()
    ensures Cut(s).Blocks() == Unloaded(s.inode)
    ensures s.inode.sectors[12] == 0 ==> Cut(s) == s
  {
    assert Point(s.inode, 12, 0).sectors[..DIRECT] == s.inode.sectors[..DIRECT];
    assert s.inode.sectors[12] == 0 ==> s.inode.sectors[12 := 0] == s.inode.sectors;
  }

  lemma SameBlock(s: Dir, u: seq<U32>, b: seq<U32>, at: nat, e: Entry)
    requires s.Shape() && |u| == BLOCKS && |b| == BLOCKS && e.Ok() && at < DIRECT && u[at] == b[at] && !Full(s.d, u[at])
    ensures InsertFrom(s, u, at, e) == InsertFrom(s, b, at, e)
  {
    FreeSlotIsFirst(Entries(Read(s.d, u[at])), 0);
  }

  // with room in the direct blocks the table does not matter
  lemma DirectSame(s: Dir, u: seq<U32>, b: seq<U32>, e: Entry)
    requires s.Shape() && |u| == |b| == BLOCKS && e.Ok()
    requires (forall j :: 0 <= j < DIRECT ==> u[j] == b[j]) && exists w: nat :: w < DIRECT && !Full(s.d, u[w])
    ensures InsertFrom(s, u, 0, e) == InsertFrom(s, b, 0, e)
  {
    var at := Walk(s, u, 0, e);
    var other := Walk(s, b, 0, e);
    assert StopsAt(s.d, b, 0, at);
    StopUnique(s.d, b, 0, at, other);
    SameBlock(s, u, b, at, e);
  }

  // Each form either searches the directory's own blocks, or takes a new block for the first indexed one.
  lemma ScanCases(s: Dir, e: Entry, scan: Scan)
    requires s.Shape() && e.Ok()
    ensures !Overwrites(s, scan) ==> SyncDirEntry(s, e, scan) == InsertFrom(s, s.Blocks(), scan.Start(), e)
    ensures Overwrites(s, scan) ==> SyncDirEntry(s, e, scan) == InNewBlock(s, Unloaded(s.inode), DIRECT, e)
  {
    var u := Unloaded(s.inode);
    assert u[DIRECT] == 0;
    if !scan.load && scan.restart {
      if DirectRoom(s) {
        var w: nat :| w < DIRECT && !Full(s.d, s.inode.sectors[w]);
        assert !Full(s.d, u[w]);
        DirectSame(s, u, s.Blocks(), e);
      } else {
        var at := Walk(s, u, 0, e);
        assert forall j :: 0 <= j < DIRECT ==> u[j] == s.inode.sectors[j] && Full(s.d, s.inode.sectors[j]);
        assert StopsAt(s.d, u, 0, DIRECT);
        StopUnique(s.d, u, 0, at, DIRECT);
      }
    }
  }

  // then the table's pointer is overwritten: it is as if the directory had had no table
  lemma CutSame(s: Dir, e: Entry)
    requires s.Shape() && e.Ok() && OneFree(s.bits)
    ensures InNewBlock(s, Unloaded(s.inode), DIRECT, e) == InNewBlock(Cut(s), Cut(s).Blocks(), DIRECT, e)
  {
    CutBlocks(s);
    AllocIff(s);
    var a, lba := AllocFacts(s);
    var a1, lba1 := AllocFacts(Cut(s));
    PointTwice(s.inode, lba);
    PointTwice(s.inode, 0);
    assert Unloaded(Cut(s).inode) == Unloaded(s.inode);
    SameFirstIndexed(a, a1, lba, Unloaded(s.inode), e);
  }

  lemma PointTwice(i: Inode, lba: U32)
    requires Fits(i)
    ensures Point(Point(i, 12, 0), 12, lba) == Point(i, 12, lba)
  {
    assert i.sectors[12 := 0][12 := lba] == i.sectors[12 := lba];
  }

  lemma SameFirstIndexed(a: Dir, a1: Dir, table: U32, blocks: seq<U32>, e: Entry)
    requires a.Shape() && a1 == a.WithInode(Point(a.inode, 12, 0)) && |blocks| == BLOCKS && e.Ok()
    requires a.dataStart <= table < a.dataStart + |a.bits|
    ensures FirstIndexed(a, table, blocks, e) == FirstIndexed(a1, table, blocks, e)
  {
    PointTwice(a.inode, table);
    PointTwice(a.inode, 0);
  }

  lemma CutOk(s: Dir)
    requires DirOk(s)
    ensures DirOk(Cut(s)) && OwnedBy(Cut(s)) <= OwnedBy(s)
  {
    CutBlocks(s);
    var u, b := Unloaded(s.inode), s.Blocks();
    assert forall j :: 0 <= j < BLOCKS && u[j] != 0 ==> j < DIRECT && u[j] == b[j];
    forall x: U32 | x in OwnedBy(Cut(s))
      ensures x in OwnedBy(s)
    {
      var j :| 0 <= j < BLOCKS && u[j] == x;
      assert b[j] == x;
    }
  }

  // ---------- what is inserted ----------

  // the directory the entry goes into
  ghost function Base(s: Dir, scan: Scan): (r: Dir)
    requires s.Shape()
    ensures r.Shape()
  {
    if Overwrites(s, scan) then Cut(s) else s
  }

  // In every form, as written too, a successful sync_dir_entry is an insertion -- into the directory without
  // its index table, if it overwrites that.
  lemma SyncRefines(s: Dir, e: Entry, scan: Scan) returns (more: set<U32>)
    requires DirOk(s) && e.Ok() && SyncDirEntry(s, e, scan).Done?
    ensures DirOk(SyncDirEntry(s, e, scan).s) && Inserted(Base(s, scan), SyncDirEntry(s, e, scan).s, e, more)
  {
    ScanCases(s, e, scan);
    if Overwrites(s, scan) {
      AllocIff(s);
      CutSame(s, e);
      CutOk(s);
      CutBlocks(s);
      more := InsertFromRefines(Cut(s), DIRECT, e);
    } else {
      more := InsertFromRefines(s, scan.Start(), e);
    }
  }

  // what becomes of the listing if the table is overwritten: everything behind the direct blocks is gone, also
  // when there is only the block for the table and the insertion fails
  lemma UnloadedLoses(s: Dir, e: Entry, scan: Scan)
    requires DirOk(s) && e.Ok() && Overwrites(s, scan)
    ensures var r := SyncDirEntry(s, e, scan); var kept := Slots(s.d, s.inode.sectors[..DIRECT]);
            && (r.Done? <==> TwoFree(s.bits))
            && r.s.Listing() == if TwoFree(s.bits) then kept + ([e] + Spare()) else if OneFree(s.bits) then kept else s.Listing()
  {
    var u := Unloaded(s.inode);
    ScanCases(s, e, scan);
    OverwriteDone(s, e);
    if TwoFree(s.bits) {
      var s1, lba, table := TableSteps(s, u, e);
      NewTableListing(s, s1, lba, table, e);
    } else if OneFree(s.bits) {
      FailedTableListing(s, e);
    }
  }

  lemma OverwriteDone(s: Dir, e: Entry)
    requires s.Shape() && e.Ok()
    ensures InNewBlock(s, Unloaded(s.inode), DIRECT, e).Done? <==> TwoFree(s.bits)
    ensures !OneFree(s.bits) ==> InNewBlock(s, Unloaded(s.inode), DIRECT, e) == Failed(s)
  {
    AllocIff(s);
    if Alloc(s).Some? {
      var a, lba := AllocFacts(s);
      AllocTwoIff(s, a, lba, Point(s.inode, 12, lba));
    }
  }

  // the used entries, in order
  function Used(es: seq<Entry>): seq<Entry> {
    if es == [] then [] else (if es[0].Unused() then [] else [es[0]]) + Used(es[1..])
  }

  lemma {:induction false} UsedOf(a: seq<Entry>, b: seq<Entry>)
    ensures Used(a + b) == Used(a) + Used(b)
  {
    if a == [] {
      assert a + b == b;
    } else {
      assert (a + b)[1..] == a[1..] + b;
      UsedOf(a[1..], b);
    }
  }

  lemma {:induction false} UsedBlank(es: seq<Entry>)
    requires forall k :: 0 <= k < |es| ==> es[k].Unused()
    ensures Used(es) == []
  {
    if es != [] {
      UsedBlank(es[1..]);
    }
  }

  // the entries in the blocks of the index table
  function Indexed(s: Dir): seq<Entry>
    requires s.Shape()
  {
    Slots(s.d, TableBlocks(s.d, s.inode))
  }

  lemma ListingSplit(s: Dir)
    requires s.Shape()
    ensures s.Listing() == Slots(s.d, s.inode.sectors[..DIRECT]) + Indexed(s)
    ensures Used(s.Listing()) == Used(Slots(s.d, s.inode.sectors[..DIRECT])) + Used(Indexed(s))
    ensures s.inode.sectors[12] == 0 ==> Indexed(s) == []
  {
    SlotsConcat(s.d, s.inode.sectors[..DIRECT], TableBlocks(s.d, s.inode));
    UsedOf(Slots(s.d, s.inode.sectors[..DIRECT]), Indexed(s));
    if s.inode.sectors[12] == 0 {
      NoSlots(s.d, TableBlocks(s.d, s.inode));
    }
  }

  // As written, and whenever the table is overwritten: the used entries stay, with the new one behind them,
  // exactly if no block is free or there were none behind the direct blocks.
  lemma EntriesStayIff(s: Dir, e: Entry, scan: Scan)
    requires DirOk(s) && e.Ok() && !e.Unused() && Overwrites(s, scan)
    ensures var r := SyncDirEntry(s, e, scan);
            Used(r.s.Listing()) == Used(s.Listing()) + (if r.Done? then [e] else []) <==>
            !OneFree(s.bits) || Used(Indexed(s)) == []
  {
    var r, kept := SyncDirEntry(s, e, scan), Slots(s.d, s.inode.sectors[..DIRECT]);
    UnloadedLoses(s, e, scan);
    ListingSplit(s);
    UsedWith(kept, e);
    StaysIff(Used(kept), Used(Indexed(s)), [e]);
  }

  lemma UsedWith(kept: seq<Entry>, e: Entry)
    requires !e.Unused()
    ensures Used(kept + ([e] + Spare())) == Used(kept) + [e]
  {
    UsedOf(kept, [e] + Spare());
    UsedOf([e], Spare());
    UsedBlank(Spare());
    assert Used([e]) == [e];
  }

  lemma StaysIff<T>(kept: seq<T>, lost: seq<T>, more: seq<T>)
    ensures kept + more == kept + lost + more <==> lost == []
    ensures kept == kept + lost <==> lost == []
    ensures kept + [] == kept && kept + lost + [] == kept + lost
  {
    if lost != [] {
      assert |kept + more| != |kept + lost + more|;
      assert |kept| != |kept + lost|;
    }
  }

  lemma NewTableListing(s: Dir, s1: Dir, lba: U32, table: U32, e: Entry)
    requires DirOk(s) && e.Ok() && s1.Shape() && Took(s, s1, {lba, table}) && lba != table
    requires s1.inode == Grow(Point(s.inode, 12, table))
    requires s1.d == Write(Write(s.d, table, TableSector(Unloaded(s.inode)[12..][0 := lba])), lba, NewBlock(e))
    ensures s1.Listing() == Slots(s.d, s.inode.sectors[..DIRECT]) + ([e] + Spare())
    ensures Indexed(s1) == [e] + Spare()
  {
    var direct := s.inode.sectors[..DIRECT];
    var words := Unloaded(s.inode)[12..][0 := lba];
    TookFresh(s, s1, {lba, table}, OwnedBy(s));
    forall b | b in direct && b != 0
      ensures Read(s1.d, b) == Read(s.d, b)
    {
      assert b in s.Blocks();
      assert b in OwnedBy(s);
    }
    TableReadBack(s1.d, s1.inode, words);
    assert s1.Blocks() == direct + words;
    SlotsConcat(s1.d, direct, words);
    SlotsFrame(s.d, s1.d, direct);
    OneBlockSlots(s1.d, words, lba, e);
  }

  lemma OneBlockSlots(d: Disk, words: seq<U32>, lba: U32, e: Entry)
    requires |words| == 128 && words[0] == lba && lba != 0 && e.Ok() && Read(d, lba) == NewBlock(e)
    requires forall j :: 0 < j < 128 ==> words[j] == 0
    ensures Slots(d, words) == [e] + Spare()
  {
    SlotsHead(d, words);
    NewBlockEntries(e);
    assert forall w :: w in words[1..] ==> w == 0;
    NoSlots(d, words[1..]);
    assert [e] + Spare() + [] == [e] + Spare();
  }

  lemma {:induction false} NoSlots(d: Disk, words: seq<U32>)
    requires forall w :: w in words ==> w == 0
    ensures Slots(d, words) == []
  {
    if words != [] {
      assert words[0] in words && forall w :: w in words[1..] ==> w in words;
      NoSlots(d, words[1..]);
    }
  }

  lemma FailedTableListing(s: Dir, e: Entry)
    requires DirOk(s) && e.Ok() && OneFree(s.bits) && !TwoFree(s.bits)
    ensures InNewBlock(s, Unloaded(s.inode), DIRECT, e).s.Listing() == Slots(s.d, s.inode.sectors[..DIRECT])
  {
    AllocIff(s);
    var a, lba := AllocFacts(s);
    AllocTwoIff(s, a, lba, Point(s.inode, 12, lba));
    var r := InNewBlock(s, Unloaded(s.inode), DIRECT, e).s;
    assert r.d == s.d && r.inode.sectors == s.inode.sectors[12 := 0];
    var zeros := TableBlocks(r.d, r.inode);
    assert r.inode.sectors[..DIRECT] == s.inode.sectors[..DIRECT];
    SlotsConcat(s.d, s.inode.sectors[..DIRECT], zeros);
    NoSlots(s.d, zeros);
    assert Slots(s.d, s.inode.sectors[..DIRECT]) + [] == Slots(s.d, s.inode.sectors[..DIRECT]);
  }

  // ---------- success and failure ----------

  // the walk over the blocks, from one of them on, stops at block `at` and can place an entry there
  ghost predicate EntryFits(s: Dir, from: nat, at: nat)
    requires s.Shape()
  {
    StopsAt(s.d, s.Blocks(), from, at) && Placeable(s, s.Blocks(), at)
  }

  // there is a place for an entry where the form looks for it
  ghost predicate Room(s: Dir, scan: Scan)
    requires s.Shape()
  {
    if Overwrites(s, scan) then TwoFree(s.bits) else exists at: nat :: EntryFits(s, scan.Start(), at)
  }

  // the index table can be had, but not its first block
  ghost predicate HalfTable(s: Dir, scan: Scan)
    requires s.Shape()
  {
    && OneFree(s.bits) && !TwoFree(s.bits)
    && (Overwrites(s, scan) || (StopsAt(s.d, s.Blocks(), scan.Start(), DIRECT) && s.Blocks()[DIRECT] == 0))
  }

  // the directory's inode after an insertion that failed
  ghost function LeftInode(s: Dir, scan: Scan): (i: Inode)
    requires s.Shape()
    ensures Fits(i)
  {
    if Overwrites(s, scan) && OneFree(s.bits) then Point(s.inode, 12, 0) else s.inode
  }

  ghost predicate LeftAsWas(s: Dir, r: Dir, scan: Scan)
    requires s.Shape()
  {
    && r == Dir(s.d, s.bits, r.dbits, LeftInode(s, scan), s.dataStart)
    && |r.dbits| == |s.bits| && (Covers(s.bits, s.dbits) ==> Covers(s.bits, r.dbits))
    && (s.dbits == s.bits ==> (r.dbits == s.dbits <==> !HalfTable(s, scan)))
  }

  // sync_dir_entry succeeds exactly if there is room; otherwise it leaves at most a bit in the bitmap on disk,
  // exactly for half a table -- and, where it overwrites the table, a directory without one.
  lemma SyncOutcome(s: Dir, e: Entry, scan: Scan)
    requires DirOk(s) && e.Ok()
    ensures SyncDirEntry(s, e, scan).Done? <==> Room(s, scan)
    ensures SyncDirEntry(s, e, scan).Failed? ==> LeftAsWas(s, SyncDirEntry(s, e, scan).s, scan)
  {
    ScanCases(s, e, scan);
    if Overwrites(s, scan) {
      OverwriteDone(s, e);
      if OneFree(s.bits) {
        CutSame(s, e);
        CutBlocks(s);
        AllocIff(Cut(s));
        TableOutcome(Cut(s), Cut(s).Blocks(), e);
      }
    } else {
      var at := Walk(s, s.Blocks(), scan.Start(), e);
      InsertOutcome(s, s.Blocks(), scan.Start(), at, e);
      PlacedAt(s, scan, at);
    }
  }

  lemma PlacedAt(s: Dir, scan: Scan, at: nat)
    requires s.Shape() && !Overwrites(s, scan) && StopsAt(s.d, s.Blocks(), scan.Start(), at)
    ensures Room(s, scan) <==> Placeable(s, s.Blocks(), at)
    ensures !Room(s, scan) ==> (HalfTable(s, scan) <==> at == DIRECT && OneFree(s.bits))
  {
    if other: nat :| EntryFits(s, scan.Start(), other) {
      StopUnique(s.d, s.Blocks(), scan.Start(), other, at);
    }
    if StopsAt(s.d, s.Blocks(), scan.Start(), DIRECT) {
      StopUnique(s.d, s.Blocks(), scan.Start(), DIRECT, at);
    }
    if Placeable(s, s.Blocks(), at) {
      assert EntryFits(s, scan.Start(), at);
    }
  }

  // half a table is no room
  lemma HalfFails(s: Dir, scan: Scan)
    requires s.Shape() && HalfTable(s, scan)
    ensures !Room(s, scan)
  {
    if !Overwrites(s, scan) {
      PlacedAt(s, scan, DIRECT);
    }
  }

  // Without the table's pointers, the block index set back or not, the outcome is the corrected one exactly
  // if the table is not overwritten, or there is none and no room before it, or the entry fits nowhere and no
  // block is free.
  lemma UnloadedAgrees(s: Dir, e: Entry, restart: bool)
    requires DirOk(s) && e.Ok()
    ensures SyncDirEntry(s, e, Scan(false, restart)) == SyncDirEntry(s, e, CORRECTED) <==>
            || !Overwrites(s, Scan(false, restart))
            || (s.inode.sectors[12] == 0 && !DirectRoom(s))
            || (!OneFree(s.bits) && forall at: nat :: !EntryFits(s, 0, at))
  {
    ScanCases(s, e, Scan(false, restart));
    CutBlocks(s);
    var at := Walk(s, s.Blocks(), 0, e);
    if Overwrites(s, Scan(false, restart)) {
      OverwriteDone(s, e);
      if s.inode.sectors[12] == 0 && !DirectRoom(s) {
        ScanCases(s, e, Scan(false, true));
      } else if OneFree(s.bits) {
        CorrectedKeepsTable(s, e, at);
        InsertOutcome(s, s.Blocks(), 0, at, e);
        OverwriteMoves(s, e);
      } else {
        LoadedRefuses(s, e, at);
      }
    }
  }

  // the table's pointer changes ...
  lemma OverwriteMoves(s: Dir, e: Entry)
    requires DirOk(s) && e.Ok() && OneFree(s.bits)
    ensures s.inode.sectors[12] != 0 || TwoFree(s.bits) ==>
              InNewBlock(s, Unloaded(s.inode), DIRECT, e).s.inode.sectors[12] != s.inode.sectors[12]
  {
    OverwriteDone(s, e);
    AllocIff(s);
    var a, lba := AllocFacts(s);
    if s.inode.sectors[12] != 0 {
      assert s.inode.sectors[12] in OwnedBy(s);
      assert On(s.dataStart, s.bits, s.inode.sectors[12]) && !On(s.dataStart, s.bits, lba);
    }
  }

  // ... which the corrected code never does to an existing table, nor with room before it
  lemma CorrectedKeepsTable(s: Dir, e: Entry, at: nat)
    requires DirOk(s) && e.Ok() && OneFree(s.bits) && StopsAt(s.d, s.Blocks(), 0, at)
    requires s.inode.sectors[12] != 0 || DirectRoom(s)
    ensures InsertFrom(s, s.Blocks(), at, e).s.inode.sectors[12] == s.inode.sectors[12]
    ensures DirectRoom(s) ==> at < DIRECT
  {
    var blocks := s.Blocks();
    AllocIff(s);
    assert forall j :: 0 <= j < DIRECT ==> blocks[j] == s.inode.sectors[j];
    if at < DIRECT && blocks[at] == 0 {
      var s1, lba := DirectSteps(s, blocks, at, e);
    } else if at < BLOCKS && blocks[at] == 0 {
      var s1, lba := IndexedSteps(s, blocks, at, e);
    } else if at < BLOCKS {
      var s1 := ReuseSteps(s, blocks, at, FreeSlot(Entries(Read(s.d, blocks[at])), 0).value, e);
    }
  }

  // without a free block the corrected code refuses exactly if no slot is left at all
  lemma LoadedRefuses(s: Dir, e: Entry, at: nat)
    requires DirOk(s) && e.Ok() && !OneFree(s.bits) && StopsAt(s.d, s.Blocks(), 0, at)
    ensures InsertFrom(s, s.Blocks(), at, e) == Failed(s) <==> forall k: nat :: !EntryFits(s, 0, k)
  {
    AllocIff(s);
    var blocks := s.Blocks();
    if at < BLOCKS && blocks[at] != 0 {
      var s1 := ReuseSteps(s, blocks, at, FreeSlot(Entries(Read(s.d, blocks[at])), 0).value, e);
      assert EntryFits(s, 0, at);
    } else if k: nat :| EntryFits(s, 0, k) {
      StopUnique(s.d, blocks, 0, at, k);
    }
  }

  // ---------- searching ----------

  // search_dir_entry sees the directory's blocks exactly when there is a table or its buffer happened to
  // be zero behind the direct blocks.
  lemma SearchSeesBlocks(d: Disk, i: Inode, junk: seq<U32>)
    requires Fits(i) && |junk| == 128
    ensures SearchBlocks(d, i, junk) == AllBlocks(d, i) <==> i.sectors[12] != 0 || forall j :: 0 <= j < 128 ==> junk[j] == 0
  {
    var a, b := SearchBlocks(d, i, junk), AllBlocks(d, i);
    if i.sectors[12] == 0 {
      forall j | 0 <= j < 128
        ensures a[12 + j] == junk[j] && b[12 + j] == 0
      {
      }
      if forall j :: 0 <= j < 128 ==> junk[j] == 0 {
        assert a == b;
      }
    }
  }

  // an unused slot never matches
  ghost predicate BlankUnused(es: seq<Entry>, name: seq<Byte>)
    requires |name| <= 15 && forall e :: e in es ==> e.Ok()
  {
    forall k :: 0 <= k < |es| && es[k].Unused() ==> !NameIs(es[k], name)
  }

  lemma {:induction false} FirstMatchNone(es: seq<Entry>, name: seq<Byte>)
    requires |name| <= 15 && (forall e :: e in es ==> e.Ok()) && forall k :: 0 <= k < |es| ==> !NameIs(es[k], name)
    ensures FirstMatch(es, name) == None
  {
    if es != [] {
      FirstMatchNone(es[1..], name);
    }
  }

  // The search after an insertion: other names are found as before, and the inserted one is found -- as
  // the inserted entry if no entry had that name.
  lemma SearchAfterInsert(a: seq<Entry>, b: seq<Entry>, e: Entry, name: seq<Byte>)
    requires 1 <= |name| <= 15 && name[0] != 0 && e.Ok() && (forall x :: x in a ==> x.Ok()) && (forall x :: x in b ==> x.Ok())
    requires InsertedInto(a, b, e) && BlankUnused(a, name)
    ensures !NameIs(e, name) ==> FirstMatch(b, name) == FirstMatch(a, name)
    ensures NameIs(e, name) ==> FirstMatch(b, name).Some?
    ensures NameIs(e, name) && FirstMatch(a, name) == None ==> FirstMatch(b, name) == Some(e)
  {
    if k: nat :| Reused(a, b, e, k) {
      assert a == a[..k] + [a[k]] + a[k + 1..] && b == a[..k] + [e] + a[k + 1..];
      SearchMiddle(a[..k], [a[k]], [e], a[k + 1..], e, name);
    } else {
      var p: nat :| Added(a, b, e, p);
      assert a == a[..p] + [] + a[p..];
      SpareBlank(name);
      FirstMatchConcat([e], Spare(), name);
      SearchMiddle(a[..p], [], [e] + Spare(), a[p..], e, name);
    }
  }

  lemma SearchMiddle(pre: seq<Entry>, m: seq<Entry>, n: seq<Entry>, post: seq<Entry>, e: Entry, name: seq<Byte>)
    requires |name| <= 15 && e.Ok() && (forall x :: x in pre + m + post ==> x.Ok()) && (forall x :: x in pre + n + post ==> x.Ok())
    requires (forall x :: x in m ==> x.Ok()) && (forall x :: x in n ==> x.Ok())
    requires FirstMatch(m, name) == None && FirstMatch(n, name) == if NameIs(e, name) then Some(e) else None
    ensures !NameIs(e, name) ==> FirstMatch(pre + n + post, name) == FirstMatch(pre + m + post, name)
    ensures NameIs(e, name) ==> FirstMatch(pre + n + post, name).Some?
    ensures NameIs(e, name) && FirstMatch(pre + m + post, name) == None ==> FirstMatch(pre + n + post, name) == Some(e)
  {
    Around(pre, m, post, name);
    Around(pre, n, post, name);
  }

  lemma SpareBlank(name: seq<Byte>)
    requires 1 <= |name| <= 15 && name[0] != 0
    ensures FirstMatch(Spare(), name) == None
  {
    assert ZeroEntry().name[..|name|][0] == 0;
    FirstMatchNone(Spare(), name);
  }

  lemma Around(pre: seq<Entry>, mid: seq<Entry>, post: seq<Entry>, name: seq<Byte>)
    requires |name| <= 15 && forall e :: e in pre + mid + post ==> e.Ok()
    ensures forall e :: e in pre || e in mid || e in post ==> e.Ok()
    ensures FirstMatch(pre + mid + post, name) ==
              if FirstMatch(pre, name).Some? then FirstMatch(pre, name)
              else if FirstMatch(mid, name).Some? then FirstMatch(mid, name) else FirstMatch(post, name)
  {
    assert forall e :: e in pre + mid ==> e in pre + mid + post;
    assert forall e :: e in pre ==> e in pre + mid;
    assert forall e :: e in mid ==> e in pre + mid;
    FirstMatchConcat(pre + mid, post, name);
    FirstMatchConcat(pre, mid, name);
  }
}
