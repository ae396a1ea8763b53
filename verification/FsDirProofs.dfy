/** sync_dir_entry refines insertion into the directory's listing. */
module FsDirProofs {
  import opened Bits
  import opened Bytes
  import opened FsInode
  import opened FsDir

  // ---------- entries in a block ----------

  function EntryOf(rec: seq<Byte>): Entry
    requires |rec| == ENTRY
  {
    Entry(rec[..16], WordAt(rec, 16), WordAt(rec, 20))
  }

  lemma EntryOfBytes(e: Entry)
    requires e.Ok()
    ensures EntryOf(EntryBytes(e)) == e
  {
    var rec := EntryBytes(e);
    assert rec[..16] == e.name && rec[16..20] == WordBytes(e.no) && rec[20..24] == WordBytes(e.ftype);
    ValueOfLow(e.no, 4);
    ValueOfLow(e.ftype, 4);
  }

  lemma EntryAtSlice(b: Sector, k: nat)
    requires k < PER_SECTOR
    ensures EntryAt(b, k) == EntryOf(b[ENTRY * k..ENTRY * k + ENTRY])
  {
    var at := ENTRY * k;
    SliceOfSlice(b, at, at + ENTRY, 0, 16);
    SliceOfSlice(b, at, at + ENTRY, 16, 20);
    SliceOfSlice(b, at, at + ENTRY, 20, 24);
  }

  // writing an entry into a block replaces that slot only
  lemma WithEntryAt(b: Sector, k: nat, e: Entry, j: nat)
    requires k < PER_SECTOR && j < PER_SECTOR && e.Ok()
    ensures EntryAt(WithEntry(b, k, e), j) == if j == k then e else EntryAt(b, j)
  {
    SpliceRead(b, ENTRY * k, EntryBytes(e), ENTRY * j, ENTRY);
    EntryAtSlice(WithEntry(b, k, e), j);
    EntryAtSlice(b, j);
    EntryOfBytes(e);
  }

  lemma WithEntryEntries(b: Sector, k: nat, e: Entry)
    requires k < PER_SECTOR && e.Ok()
    ensures Entries(WithEntry(b, k, e)) == Entries(b)[k := e]
  {
    forall j: nat | j < PER_SECTOR
      ensures Entries(WithEntry(b, k, e))[j] == Entries(b)[k := e][j]
    {
      WithEntryAt(b, k, e, j);
    }
  }

  function ZeroEntry(): Entry { Entry(seq(16, _ => 0), 0, 0) }

  // the 20 unused slots behind the first of a fresh block
  function Spare(): (r: seq<Entry>)
    ensures |r| == 20 && forall e :: e in r ==> e.Ok()
  {
    seq(20, _ => ZeroEntry())
  }

  lemma {:induction false} ZeroWord(b: seq<Byte>)
    requires forall i :: 0 <= i < |b| ==> b[i] == 0
    ensures Value(b) == 0
  {
    if b != [] {
      ZeroWord(b[1..]);
    }
  }

  lemma NewBlockEntries(e: Entry)
    requires e.Ok()
    ensures Entries(NewBlock(e)) == [e] + Spare()
  {
    WithEntryEntries(ZeroSector(), 0, e);
    forall j: nat | j < PER_SECTOR
      ensures EntryAt(ZeroSector(), j) == ZeroEntry()
    {
      assert EntryAt(ZeroSector(), j).name == ZeroEntry().name;
      ZeroWord(ZeroSector()[ENTRY * j + 16..ENTRY * j + 20]);
      ZeroWord(ZeroSector()[ENTRY * j + 20..ENTRY * j + 24]);
    }
  }

  // ---------- listings ----------

  lemma {:induction false} SlotsFrame(d: Disk, d1: Disk, blocks: seq<U32>)
    requires forall b :: b in blocks && b != 0 ==> Read(d1, b) == Read(d, b)
    ensures Slots(d1, blocks) == Slots(d, blocks)
  {
    if blocks != [] {
      assert blocks[0] in blocks;
      SlotsFrame(d, d1, blocks[1..]);
    }
  }

  function BlockSlots(d: Disk, b: U32): seq<Entry> { if b == 0 then [] else Entries(Read(d, b)) }

  lemma SlotsSplit(d: Disk, blocks: seq<U32>, idx: nat)
    requires idx < |blocks|
    ensures Slots(d, blocks) == Slots(d, blocks[..idx]) + BlockSlots(d, blocks[idx]) + Slots(d, blocks[idx + 1..])
  {
    var rest := blocks[idx..];
    assert blocks == blocks[..idx] + rest;
    SlotsConcat(d, blocks[..idx], rest);
    SlotsHead(d, rest);
    assert rest[1..] == blocks[idx + 1..];
    SeqAssoc(Slots(d, blocks[..idx]), BlockSlots(d, blocks[idx]), Slots(d, blocks[idx + 1..]));
  }

  lemma SlotsHead(d: Disk, blocks: seq<U32>)
    requires blocks != []
    ensures Slots(d, blocks) == BlockSlots(d, blocks[0]) + Slots(d, blocks[1..])
  {
  }

  lemma SeqAssoc<T>(a: seq<T>, b: seq<T>, c: seq<T>)
    ensures a + (b + c) == a + b + c
  {
  }

  // e takes the unused slot k, or comes with 20 unused slots in a fresh block at position p
  ghost predicate Reused(a: seq<Entry>, b: seq<Entry>, e: Entry, k: nat) {
    k < |a| && a[k].Unused() && b == a[k := e]
  }

  ghost predicate Added(a: seq<Entry>, b: seq<Entry>, e: Entry, p: nat) {
    p <= |a| && b == a[..p] + ([e] + Spare()) + a[p..]
  }

  ghost predicate InsertedInto(a: seq<Entry>, b: seq<Entry>, e: Entry) {
    (exists k: nat :: Reused(a, b, e, k)) || (exists p: nat :: Added(a, b, e, p))
  }

  // no slot before that place is unused
  ghost predicate Foremost(a: seq<Entry>, b: seq<Entry>, e: Entry) {
    || (exists k: nat :: Reused(a, b, e, k) && AllUsed(a[..k]))
    || (exists p: nat :: Added(a, b, e, p) && AllUsed(a[..p]))
  }

  ghost predicate AllUsed(es: seq<Entry>) {
    forall j :: 0 <= j < |es| ==> !es[j].Unused()
  }

  lemma {:induction false} FreeSlotIsFirst(es: seq<Entry>, k: nat)
    requires forall j :: 0 <= j < k && j < |es| ==> !es[j].Unused()
    ensures FreeSlot(es, k).Some? ==>
              FreeSlot(es, k).value < |es| && es[FreeSlot(es, k).value].Unused()
              && forall j :: 0 <= j < FreeSlot(es, k).value ==> !es[j].Unused()
    ensures FreeSlot(es, k) == None ==> AllUsed(es)
    decreases |es| - k
  {
    if k < |es| && !es[k].Unused() {
      FreeSlotIsFirst(es, k + 1);
    }
  }

  // a slot of block idx rewritten
  lemma ReuseListing(d: Disk, d1: Disk, blocks: seq<U32>, idx: nat, k: nat, e: Entry)
    requires idx < |blocks| && blocks[idx] != 0 && blocks[idx] !in blocks[..idx] && blocks[idx] !in blocks[idx + 1..]
    requires e.Ok() && FreeSlot(Entries(Read(d, blocks[idx])), 0) == Some(k)
    requires k < PER_SECTOR && d1 == Write(d, blocks[idx], WithEntry(Read(d, blocks[idx]), k, e))
    ensures Reused(Slots(d, blocks), Slots(d1, blocks), e, |Slots(d, blocks[..idx])| + k)
    ensures AllUsed(Slots(d, blocks[..idx])) ==> AllUsed(Slots(d, blocks)[..|Slots(d, blocks[..idx])| + k])
  {
    var pre, mid, post := Slots(d, blocks[..idx]), Entries(Read(d, blocks[idx])), Slots(d, blocks[idx + 1..]);
    SlotsSplit(d, blocks, idx);
    SlotsSplit(d1, blocks, idx);
    SlotsFrame(d, d1, blocks[..idx]);
    SlotsFrame(d, d1, blocks[idx + 1..]);
    WithEntryEntries(Read(d, blocks[idx]), k, e);
    FreeSlotIsFirst(mid, 0);
    UpdateMiddle(pre, mid, post, k, e);
  }

  lemma UpdateMiddle(pre: seq<Entry>, mid: seq<Entry>, post: seq<Entry>, k: nat, e: Entry)
    requires k < |mid| && mid[k].Unused() && forall j :: 0 <= j < k ==> !mid[j].Unused()
    ensures Reused(pre + mid + post, pre + mid[k := e] + post, e, |pre| + k)
    ensures AllUsed(pre) ==> AllUsed((pre + mid + post)[..|pre| + k])
  {
    assert (pre + mid + post)[|pre| + k := e] == pre + mid[k := e] + post;
  }

  // a fresh block at position idx
  lemma AddListing(d: Disk, d1: Disk, blocks: seq<U32>, idx: nat, lba: U32, e: Entry)
    requires idx < |blocks| && blocks[idx] == 0 && lba != 0 && e.Ok() && Read(d1, lba) == NewBlock(e)
    requires forall b :: b in blocks && b != 0 ==> Read(d1, b) == Read(d, b)
    ensures Added(Slots(d, blocks), Slots(d1, blocks[idx := lba]), e, |Slots(d, blocks[..idx])|)
    ensures Slots(d, blocks)[..|Slots(d, blocks[..idx])|] == Slots(d, blocks[..idx])
  {
    var pre, post := Slots(d, blocks[..idx]), Slots(d, blocks[idx + 1..]);
    SlotsSkip(d, blocks, idx);
    SlotsFrame(d, d1, blocks[..idx]);
    SlotsFrame(d, d1, blocks[idx + 1..]);
    SlotsAround(d1, blocks, idx, lba, e);
    AddMiddle(pre, post, Slots(d, blocks), Slots(d1, blocks[idx := lba]), e);
  }

  lemma SlotsSkip(d: Disk, blocks: seq<U32>, idx: nat)
    requires idx < |blocks| && blocks[idx] == 0
    ensures Slots(d, blocks) == Slots(d, blocks[..idx]) + Slots(d, blocks[idx + 1..])
  {
    SlotsSplit(d, blocks, idx);
    assert Slots(d, blocks[..idx]) + [] == Slots(d, blocks[..idx]);
  }

  lemma SlotsAround(d: Disk, blocks: seq<U32>, idx: nat, lba: U32, e: Entry)
    requires idx < |blocks| && lba != 0 && e.Ok() && Read(d, lba) == NewBlock(e)
    ensures Slots(d, blocks[idx := lba]) == Slots(d, blocks[..idx]) + ([e] + Spare()) + Slots(d, blocks[idx + 1..])
  {
    var blocks1 := blocks[idx := lba];
    SlotsSplit(d, blocks1, idx);
    assert blocks1[..idx] == blocks[..idx] && blocks1[idx + 1..] == blocks[idx + 1..];
    NewBlockEntries(e);
  }

  lemma AddMiddle(pre: seq<Entry>, post: seq<Entry>, a: seq<Entry>, b: seq<Entry>, e: Entry)
    requires a == pre + post && b == pre + ([e] + Spare()) + post
    ensures a[..|pre|] == pre && Added(a, b, e, |pre|)
  {
    assert a[..|pre|] == pre && a[|pre|..] == post;
  }

  // ---------- a well-formed directory ----------

  // no block is used twice, and the index table starts with a block
  ghost predicate Distinct(blocks: seq<U32>, table: U32) {
    && |blocks| == BLOCKS
    && (forall i, j :: 0 <= i < j < BLOCKS && blocks[i] != 0 ==> blocks[i] != blocks[j])
    && (table != 0 ==> table !in blocks && blocks[DIRECT] != 0)
  }

  // every block a directory owns, the index table included
  function Owned(blocks: seq<U32>, table: U32): set<U32> {
    (set x | x in blocks && x != 0) + TableSet(table)
  }

  function TableSet(table: U32): set<U32> { if table == 0 then {} else {table} }

  function OwnedBy(s: Dir): set<U32>
    requires s.Shape()
  {
    Owned(s.Blocks(), s.inode.sectors[12])
  }

  ghost predicate Marked(base: nat, bits: seq<bool>, blocks: set<U32>) {
    forall x: U32 :: x in blocks ==> On(base, bits, x)
  }

  ghost predicate DirOk(s: Dir) {
    s.Shape() && Distinct(s.Blocks(), s.inode.sectors[12]) && Marked(s.dataStart, s.bits, OwnedBy(s))
  }

  // every block taken in memory is marked on disk
  ghost predicate Covers(bits: seq<bool>, dbits: seq<bool>) {
    |bits| == |dbits| && forall i :: 0 <= i < |bits| && bits[i] ==> dbits[i]
  }

  // the bitmaps after the blocks `more` were allocated and synced
  ghost predicate Took(s: Dir, s1: Dir, more: set<U32>) {
    && |s.bits| == |s.dbits| && |s1.bits| == |s1.dbits| && s1.dataStart == s.dataStart && 0 !in more
    && Grows(s.dataStart, s.bits, s1.bits, more)
    && (s.dbits == s.bits ==> s1.dbits == s1.bits)
    && (Covers(s.bits, s.dbits) ==> Covers(s1.bits, s1.dbits))
  }

  // what a successful insertion does: e is in the listing, the inode grew by an entry, the blocks `more`
  // came to the directory and were free before, and no block of anybody else changed
  ghost predicate Inserted(s: Dir, s1: Dir, e: Entry, more: set<U32>) {
    && s.Shape() && s1.Shape() && Took(s, s1, more)
    && InsertedInto(s.Listing(), s1.Listing(), e)
    && s1.inode.no == s.inode.no && s1.inode.size == Grown(s.inode.size)
    && OwnedBy(s1) == OwnedBy(s) + more
    && SameOutside(s.d, s1.d, OwnedBy(s1))
  }

  lemma MakeInserted(s: Dir, s1: Dir, e: Entry, more: set<U32>)
    requires s.Shape() && s1.Shape() && Took(s, s1, more)
    requires InsertedInto(s.Listing(), s1.Listing(), e)
    requires s1.inode.no == s.inode.no && s1.inode.size == Grown(s.inode.size)
    requires OwnedBy(s1) == OwnedBy(s) + more && SameOutside(s.d, s1.d, OwnedBy(s1))
    ensures Inserted(s, s1, e, more)
  {
  }

  ghost predicate SameOutside(d: Disk, d1: Disk, blocks: set<U32>) {
    forall lba: U32 :: lba !in blocks ==> Read(d1, lba) == Read(d, lba)
  }

  // block_bitmap_alloc and bitmap_sync
  lemma AllocFacts(s: Dir) returns (s1: Dir, lba: U32)
    requires s.Shape() && Alloc(s).Some?
    ensures Alloc(s) == Some((lba, s1)) && Took(s, s1, {lba}) && s.dataStart <= lba < s.dataStart + |s1.bits|
    ensures s1 == Dir(s.d, s1.bits, s1.dbits, s.inode, s.dataStart)
    ensures SetRun(s1.bits, lba - s.dataStart, 1, false) == s.bits
    ensures forall i :: 0 <= i < |s.bits| && i != lba - s.dataStart && s1.dbits[i] != s.dbits[i] ==> s1.dbits[i] == s.bits[i]
    ensures lba - s.dataStart < |s1.dbits| && s1.dbits[lba - s.dataStart] && !s.bits[lba - s.dataStart]
  {
    FirstFit(s.bits, 1);
    lba := Alloc(s).value.0;
    s1 := Alloc(s).value.1;
    ScanThenSet(s.bits, 1);
    if s.dbits == s.bits {
      assert s1.dbits == s1.bits;
    }
  }

  // ---------- the cases of an insertion ----------

  // the index table in d1 is the one in d
  lemma TableSame(d: Disk, i: Inode, d1: Disk, i1: Inode)
    requires Fits(i) && Fits(i1) && i1.sectors[12] == i.sectors[12]
    requires i.sectors[12] != 0 ==> Read(d1, i.sectors[12]) == Read(d, i.sectors[12])
    ensures TableBlocks(d1, i1) == TableBlocks(d, i)
  {
  }

  // an unused slot of block idx
  lemma CaseReuse(s: Dir, s1: Dir, blocks: seq<U32>, idx: nat, k: nat, e: Entry)
    requires DirOk(s) && blocks == s.Blocks() && e.Ok() && idx < BLOCKS && blocks[idx] != 0 && k < PER_SECTOR
    requires FreeSlot(Entries(Read(s.d, blocks[idx])), 0) == Some(k)
    requires ReuseLeft(s, s1, blocks[idx], k, e)
    ensures DirOk(s1) && Inserted(s, s1, e, {})
    ensures AllUsed(Slots(s.d, blocks[..idx])) ==> Foremost(s.Listing(), s1.Listing(), e)
  {
    ReuseBlocks(s, s1, blocks, idx, k, e);
    ReuseInto(s, s1, blocks, idx, k, e);
    ReuseTook(s, s1);
    MakeInserted(s, s1, e, {});
  }

  lemma ReuseInto(s: Dir, s1: Dir, blocks: seq<U32>, idx: nat, k: nat, e: Entry)
    requires s.Shape() && blocks == s.Blocks() && Distinct(blocks, s.inode.sectors[12]) && e.Ok() && idx < BLOCKS
    requires blocks[idx] != 0 && k < PER_SECTOR && s1.Shape() && s1.Blocks() == blocks
    requires FreeSlot(Entries(Read(s.d, blocks[idx])), 0) == Some(k)
    requires ReuseLeft(s, s1, blocks[idx], k, e)
    ensures InsertedInto(s.Listing(), s1.Listing(), e)
    ensures AllUsed(Slots(s.d, blocks[..idx])) ==> Foremost(s.Listing(), s1.Listing(), e)
    ensures s1.inode.no == s.inode.no && s1.inode.size == Grown(s.inode.size)
  {
    OnceIn(blocks, s.inode.sectors[12], idx);
    ReuseListing(s.d, s1.d, blocks, idx, k, e);
  }

  ghost predicate ReuseLeft(s: Dir, s1: Dir, lba: U32, k: nat, e: Entry)
    requires e.Ok() && k < PER_SECTOR
  {
    && s1.inode == Grow(s.inode) && s1.bits == s.bits && s1.dbits == s.dbits && s1.dataStart == s.dataStart
    && s1.d == Write(s.d, lba, WithEntry(Read(s.d, lba), k, e))
  }

  lemma ReuseTook(s: Dir, s1: Dir)
    requires s.Shape() && s1.bits == s.bits && s1.dbits == s.dbits && s1.dataStart == s.dataStart
    ensures Took(s, s1, {})
  {
  }

  lemma ReuseBlocks(s: Dir, s1: Dir, blocks: seq<U32>, idx: nat, k: nat, e: Entry)
    requires DirOk(s) && blocks == s.Blocks() && e.Ok() && idx < BLOCKS && blocks[idx] != 0 && k < PER_SECTOR
    requires ReuseLeft(s, s1, blocks[idx], k, e)
    ensures s1.Shape() && s1.Blocks() == blocks && DirOk(s1) && SameOutside(s.d, s1.d, OwnedBy(s1))
  {
    OwnedHas(blocks, s.inode.sectors[12], idx);
    TableSame(s.d, s.inode, s1.d, s1.inode);
  }

  lemma ReuseSteps(s: Dir, blocks: seq<U32>, idx: nat, k: nat, e: Entry) returns (s1: Dir)
    requires s.Shape() && |blocks| == BLOCKS && e.Ok() && idx < BLOCKS && blocks[idx] != 0
    requires FreeSlot(Entries(Read(s.d, blocks[idx])), 0) == Some(k)
    ensures k < PER_SECTOR && InsertFrom(s, blocks, idx, e) == Done(s1) && s1.Shape()
    ensures ReuseLeft(s, s1, blocks[idx], k, e)
  {
    FreeSlotIsFirst(Entries(Read(s.d, blocks[idx])), 0);
    s1 := InsertFrom(s, blocks, idx, e).s;
  }

  lemma OwnedHas(blocks: seq<U32>, table: U32, idx: nat)
    requires Distinct(blocks, table) && idx < BLOCKS && blocks[idx] != 0
    ensures blocks[idx] in Owned(blocks, table) && table != blocks[idx]
  {
  }

  lemma OnceIn(blocks: seq<U32>, table: U32, idx: nat)
    requires Distinct(blocks, table) && idx < BLOCKS && blocks[idx] != 0
    ensures blocks[idx] !in blocks[..idx] && blocks[idx] !in blocks[idx + 1..]
  {
    forall j | 0 <= j < idx
      ensures blocks[j] != blocks[idx]
    {
      if blocks[j] != 0 {
        assert blocks[j] != blocks[idx];
      }
    }
  }

  // ---------- a new block ----------

  // block idx, so far unused, becomes lba; table1 is the index table afterwards, and more is what was allocated
  ghost predicate Adds(blocks: seq<U32>, table: U32, table1: U32, idx: nat, lba: U32, more: set<U32>) {
    && Distinct(blocks, table) && idx < BLOCKS && blocks[idx] == 0 && lba in more && 0 !in more
    && more !! Owned(blocks, table)
    && (if table1 == table then more == {lba} && (table != 0 ==> idx != DIRECT)
        else table == 0 && idx == DIRECT && more == {lba, table1} && lba != table1)
  }

  lemma AddsOwned(blocks: seq<U32>, table: U32, table1: U32, idx: nat, lba: U32, more: set<U32>)
    requires Adds(blocks, table, table1, idx, lba, more)
    ensures lba != 0 && Owned(blocks[idx := lba], table1) == Owned(blocks, table) + more
  {
    var blocks1 := blocks[idx := lba];
    forall x: U32
      ensures x in blocks1 && x != 0 <==> (x in blocks && x != 0) || x == lba
    {
      if x in blocks && x != 0 {
        var j :| 0 <= j < BLOCKS && blocks[j] == x;
        assert blocks1[j] == x;
      }
      assert blocks1[idx] == lba;
    }
  }

  lemma AddsDistinct(blocks: seq<U32>, table: U32, table1: U32, idx: nat, lba: U32, more: set<U32>)
    requires Adds(blocks, table, table1, idx, lba, more)
    ensures Distinct(blocks[idx := lba], table1)
  {
    var blocks1 := blocks[idx := lba];
    forall i | 0 <= i < BLOCKS && i != idx
      ensures blocks1[i] == blocks[i] && blocks[i] !in more && (table1 != 0 ==> blocks[i] != table1)
    {
      assert blocks[i] in blocks;
      assert blocks[i] != 0 ==> blocks[i] in Owned(blocks, table);
    }
    if table1 != 0 {
      assert table1 == table ==> table in Owned(blocks, table);
      assert lba != table1;
    }
  }

  // bits on in the map are none of the newly taken
  lemma TookFresh(s: Dir, s1: Dir, more: set<U32>, blocks: set<U32>)
    requires Took(s, s1, more) && Marked(s.dataStart, s.bits, blocks)
    ensures more !! blocks && Marked(s1.dataStart, s1.bits, blocks + more)
  {
    forall x: U32 | x in more
      ensures x !in blocks
    {
      assert !On(s.dataStart, s.bits, x);
    }
  }

  lemma AddedListing(d: Disk, d1: Disk, blocks: seq<U32>, table: U32, table1: U32, idx: nat, lba: U32, more: set<U32>, e: Entry)
    requires Adds(blocks, table, table1, idx, lba, more) && e.Ok()
    requires Read(d1, lba) == NewBlock(e) && SameOutside(d, d1, more + TableSet(table1))
    ensures InsertedInto(Slots(d, blocks), Slots(d1, blocks[idx := lba]), e)
    ensures AllUsed(Slots(d, blocks[..idx])) ==> Foremost(Slots(d, blocks), Slots(d1, blocks[idx := lba]), e)
  {
    forall b | b in blocks && b != 0
      ensures Read(d1, b) == Read(d, b)
    {
      assert b in Owned(blocks, table);
      assert b !in more + TableSet(table1);
    }
    AddListing(d, d1, blocks, idx, lba, e);
  }

  // the fields that a new block and perhaps a new table leave
  ghost predicate NewBlockLeft(s: Dir, s1: Dir, blocks: seq<U32>, idx: nat, lba: U32, e: Entry, more: set<U32>) {
    && s.Shape() && blocks == s.Blocks() && e.Ok() && idx < BLOCKS
    && s1.Shape() && Took(s, s1, more) && s1.Blocks() == blocks[idx := lba]
    && Adds(blocks, s.inode.sectors[12], s1.inode.sectors[12], idx, lba, more)
    && Read(s1.d, lba) == NewBlock(e) && SameOutside(s.d, s1.d, more + TableSet(s1.inode.sectors[12]))
    && s1.inode.no == s.inode.no && s1.inode.size == Grown(s.inode.size)
  }

  lemma MakeNewBlockLeft(s: Dir, s1: Dir, blocks: seq<U32>, idx: nat, lba: U32, e: Entry, more: set<U32>)
    requires s.Shape() && blocks == s.Blocks() && e.Ok() && idx < BLOCKS
    requires s1.Shape() && Took(s, s1, more) && s1.Blocks() == blocks[idx := lba]
    requires Adds(blocks, s.inode.sectors[12], s1.inode.sectors[12], idx, lba, more)
    requires Read(s1.d, lba) == NewBlock(e) && SameOutside(s.d, s1.d, more + TableSet(s1.inode.sectors[12]))
    requires s1.inode.no == s.inode.no && s1.inode.size == Grown(s.inode.size)
    ensures NewBlockLeft(s, s1, blocks, idx, lba, e, more)
  {
  }

  // written outside the directory's blocks: the new block, and the table if there is one
  lemma WroteTwo(d: Disk, d1: Disk, table: U32, t: Sector, lba: U32, b: Sector, more: set<U32>)
    requires table != 0 && lba in more && lba != table && d1 == Write(Write(d, table, t), lba, b)
    ensures SameOutside(d, d1, more + TableSet(table)) && Read(d1, lba) == b && Read(d1, table) == t
  {
  }

  lemma NewBlockOk(s: Dir, s1: Dir, blocks: seq<U32>, idx: nat, lba: U32, e: Entry, more: set<U32>)
    requires NewBlockLeft(s, s1, blocks, idx, lba, e, more) && DirOk(s)
    ensures DirOk(s1)
  {
    var table, table1 := s.inode.sectors[12], s1.inode.sectors[12];
    AddsOwned(blocks, table, table1, idx, lba, more);
    AddsDistinct(blocks, table, table1, idx, lba, more);
    TookFresh(s, s1, more, Owned(blocks, table));
  }

  lemma NewBlockInserted(s: Dir, s1: Dir, blocks: seq<U32>, idx: nat, lba: U32, e: Entry, more: set<U32>)
    requires NewBlockLeft(s, s1, blocks, idx, lba, e, more)
    ensures Inserted(s, s1, e, more)
    ensures AllUsed(Slots(s.d, blocks[..idx])) ==> Foremost(s.Listing(), s1.Listing(), e)
  {
    var table, table1 := s.inode.sectors[12], s1.inode.sectors[12];
    AddsOwned(blocks, table, table1, idx, lba, more);
    AddedListing(s.d, s1.d, blocks, table, table1, idx, lba, more, e);
    OutsideMore(s.d, s1.d, blocks, table1, idx, lba, more, Owned(blocks, table));
    MakeInserted(s, s1, e, more);
  }

  lemma OutsideMore(d: Disk, d1: Disk, blocks: seq<U32>, table1: U32, idx: nat, lba: U32, more: set<U32>, before: set<U32>)
    requires idx < |blocks| && SameOutside(d, d1, more + TableSet(table1))
    requires Owned(blocks[idx := lba], table1) == before + more
    ensures SameOutside(d, d1, Owned(blocks[idx := lba], table1))
  {
    assert more + TableSet(table1) <= Owned(blocks[idx := lba], table1);
  }

  // ---------- the three kinds of new block ----------

  // a direct block
  lemma DirectSteps(s: Dir, blocks: seq<U32>, idx: nat, e: Entry) returns (s1: Dir, lba: U32)
    requires s.Shape() && |blocks| == BLOCKS && e.Ok() && idx < DIRECT && Alloc(s).Some?
    ensures InNewBlock(s, blocks, idx, e) == Done(s1) && s1.Shape() && Took(s, s1, {lba})
    ensures s1.inode == Grow(Point(s.inode, idx, lba)) && s1.d == Write(s.d, lba, NewBlock(e))
  {
    var a;
    a, lba := AllocFacts(s);
    s1 := InNewBlock(s, blocks, idx, e).s;
  }

  lemma DirectLeft(s: Dir, s1: Dir, blocks: seq<U32>, idx: nat, lba: U32, e: Entry)
    requires DirOk(s) && blocks == s.Blocks() && e.Ok() && idx < DIRECT && blocks[idx] == 0
    requires s1.Shape() && Took(s, s1, {lba})
    requires s1.inode == Grow(Point(s.inode, idx, lba)) && s1.d == Write(s.d, lba, NewBlock(e))
    ensures NewBlockLeft(s, s1, blocks, idx, lba, e, {lba})
  {
    var table := s.inode.sectors[12];
    TookFresh(s, s1, {lba}, Owned(blocks, table));
    assert table != 0 ==> table in Owned(blocks, table);
    TableSame(s.d, s.inode, s1.d, s1.inode);
    assert s1.Blocks() == blocks[idx := lba];
    MakeNewBlockLeft(s, s1, blocks, idx, lba, e, {lba});
  }

  // the words written as the index table are read back
  lemma TableReadBack(d: Disk, i: Inode, words: seq<U32>)
    requires Fits(i) && i.sectors[12] != 0 && |words| == 128 && Read(d, i.sectors[12]) == TableSector(words)
    ensures TableBlocks(d, i) == words
  {
    DecodeEncode(words);
  }

  // a further index block
  lemma IndexedSteps(s: Dir, blocks: seq<U32>, idx: nat, e: Entry) returns (s1: Dir, lba: U32)
    requires s.Shape() && |blocks| == BLOCKS && e.Ok() && DIRECT < idx < BLOCKS && Alloc(s).Some?
    ensures InNewBlock(s, blocks, idx, e) == Done(s1) && s1.Shape() && Took(s, s1, {lba}) && s1.inode == Grow(s.inode)
    ensures s1.d == Write(Write(s.d, s.inode.sectors[12], TableSector(blocks[12..][idx - 12 := lba])), lba, NewBlock(e))
  {
    var a;
    a, lba := AllocFacts(s);
    s1 := InNewBlock(s, blocks, idx, e).s;
  }

  lemma IndexedLeft(s: Dir, s1: Dir, blocks: seq<U32>, idx: nat, lba: U32, e: Entry)
    requires DirOk(s) && blocks == s.Blocks() && e.Ok() && DIRECT < idx < BLOCKS && blocks[idx] == 0 && s.inode.sectors[12] != 0
    requires s1.Shape() && Took(s, s1, {lba}) && s1.inode == Grow(s.inode)
    requires s1.d == Write(Write(s.d, s.inode.sectors[12], TableSector(blocks[12..][idx - 12 := lba])), lba, NewBlock(e))
    ensures NewBlockLeft(s, s1, blocks, idx, lba, e, {lba})
  {
    var table := s.inode.sectors[12];
    TookFresh(s, s1, {lba}, Owned(blocks, table));
    assert table in Owned(blocks, table);
    WroteTwo(s.d, s1.d, table, TableSector(blocks[12..][idx - 12 := lba]), lba, NewBlock(e), {lba});
    IndexedBlocks(s, s1, blocks, idx, lba, e);
    MakeNewBlockLeft(s, s1, blocks, idx, lba, e, {lba});
  }

  lemma IndexedBlocks(s: Dir, s1: Dir, blocks: seq<U32>, idx: nat, lba: U32, e: Entry)
    requires s.Shape() && s1.Shape() && blocks == s.Blocks() && e.Ok() && DIRECT <= idx < BLOCKS
    requires s1.inode.sectors[..12] == s.inode.sectors[..12] && s1.inode.sectors[12] !in {0, lba}
    requires s1.d == Write(Write(s.d, s1.inode.sectors[12], TableSector(blocks[12..][idx - 12 := lba])), lba, NewBlock(e))
    ensures s1.Blocks() == blocks[idx := lba]
  {
    var words := blocks[12..][idx - 12 := lba];
    TableReadBack(s1.d, s1.inode, words);
    assert blocks[..12] == s.inode.sectors[..12];
    assert blocks[..12] + words == blocks[idx := lba];
  }

  // the first index block, with its table
  lemma TableSteps(s: Dir, blocks: seq<U32>, e: Entry) returns (s1: Dir, lba: U32, table: U32)
    requires s.Shape() && |blocks| == BLOCKS && e.Ok() && InNewBlock(s, blocks, DIRECT, e).Done?
    ensures InNewBlock(s, blocks, DIRECT, e) == Done(s1) && s1.Shape() && Took(s, s1, {lba, table}) && lba != table
    ensures s1.inode == Grow(Point(s.inode, 12, table))
    ensures s1.d == Write(Write(s.d, table, TableSector(blocks[12..][0 := lba])), lba, NewBlock(e))
  {
    var a, b;
    a, table := AllocFacts(s);
    b, lba := AllocFacts(a.WithInode(Point(s.inode, 12, table)));
    TookTwice(s, a.WithInode(Point(s.inode, 12, table)), b, table, lba);
    s1 := InNewBlock(s, blocks, DIRECT, e).s;
    assert s1.bits == b.bits && s1.dbits == b.dbits;
  }

  lemma TookTwice(s: Dir, a: Dir, b: Dir, x: U32, y: U32)
    requires Took(s, a, {x}) && Took(a, b, {y})
    ensures x != y && Took(s, b, {y, x})
  {
    GrowCompose(s.dataStart, s.bits, a.bits, b.bits, {x}, {y});
    assert On(s.dataStart, a.bits, x);
    assert {x} + {y} == {y, x};
  }

  lemma TableLeft(s: Dir, s1: Dir, blocks: seq<U32>, lba: U32, table: U32, e: Entry)
    requires DirOk(s) && blocks == s.Blocks() && e.Ok() && blocks[DIRECT] == 0
    requires s1.Shape() && Took(s, s1, {lba, table}) && lba != table && s1.inode == Grow(Point(s.inode, 12, table))
    requires s1.d == Write(Write(s.d, table, TableSector(blocks[12..][0 := lba])), lba, NewBlock(e))
    ensures NewBlockLeft(s, s1, blocks, DIRECT, lba, e, {lba, table})
  {
    TookFresh(s, s1, {lba, table}, Owned(blocks, s.inode.sectors[12]));
    WroteTwo(s.d, s1.d, table, TableSector(blocks[12..][0 := lba]), lba, NewBlock(e), {lba, table});
    IndexedBlocks(s, s1, blocks, DIRECT, lba, e);
    MakeNewBlockLeft(s, s1, blocks, DIRECT, lba, e, {lba, table});
  }

  lemma CaseNewBlock(s: Dir, blocks: seq<U32>, idx: nat, e: Entry) returns (s1: Dir, more: set<U32>)
    requires DirOk(s) && blocks == s.Blocks() && e.Ok() && idx < BLOCKS && blocks[idx] == 0
    requires idx > DIRECT ==> s.inode.sectors[12] != 0
    requires InNewBlock(s, blocks, idx, e).Done?
    ensures InNewBlock(s, blocks, idx, e) == Done(s1) && DirOk(s1) && Inserted(s, s1, e, more)
    ensures AllUsed(Slots(s.d, blocks[..idx])) ==> Foremost(s.Listing(), s1.Listing(), e)
  {
    var lba, table;
    if idx < DIRECT {
      s1, lba := DirectSteps(s, blocks, idx, e);
      more := {lba};
      DirectLeft(s, s1, blocks, idx, lba, e);
    } else if idx == DIRECT {
      s1, lba, table := TableSteps(s, blocks, e);
      more := {lba, table};
      TableLeft(s, s1, blocks, lba, table, e);
    } else {
      s1, lba := IndexedSteps(s, blocks, idx, e);
      more := {lba};
      IndexedLeft(s, s1, blocks, idx, lba, e);
    }
    NewBlockOk(s, s1, blocks, idx, lba, e, more);
    NewBlockInserted(s, s1, blocks, idx, lba, e, more);
  }

  // ---------- the whole of sync_dir_entry ----------

  lemma SlotsGrow(d: Disk, blocks: seq<U32>, idx: nat)
    requires idx < |blocks|
    ensures Slots(d, blocks[..idx + 1]) == Slots(d, blocks[..idx]) + BlockSlots(d, blocks[idx])
  {
    var last := [blocks[idx]];
    assert blocks[..idx + 1] == blocks[..idx] + last;
    SlotsConcat(d, blocks[..idx], last);
    SlotsHead(d, last);
    assert last[1..] == [];
  }

  // a block in use without an unused slot
  ghost predicate Full(d: Disk, b: U32) { b != 0 && FreeSlot(Entries(Read(d, b)), 0) == None }

  // the block where the loop stops, from block `from` on: the first that is not full
  ghost predicate StopsAt(d: Disk, blocks: seq<U32>, from: nat, at: nat) {
    && from <= at <= |blocks| && (forall j :: from <= j < at ==> Full(d, blocks[j]))
    && (at < |blocks| ==> !Full(d, blocks[at]))
  }

  lemma StopUnique(d: Disk, blocks: seq<U32>, from: nat, a: nat, b: nat)
    requires StopsAt(d, blocks, from, a) && StopsAt(d, blocks, from, b)
    ensures a == b
  {
  }

  lemma {:induction false} Walk(s: Dir, blocks: seq<U32>, from: nat, e: Entry) returns (at: nat)
    requires s.Shape() && |blocks| == BLOCKS && from <= BLOCKS && e.Ok()
    ensures StopsAt(s.d, blocks, from, at) && InsertFrom(s, blocks, from, e) == InsertFrom(s, blocks, at, e)
    decreases BLOCKS - from
  {
    at := from;
    if from < BLOCKS && Full(s.d, blocks[from]) {
      at := Walk(s, blocks, from + 1, e);
    }
  }

  lemma {:induction false} FullSlots(d: Disk, blocks: seq<U32>, at: nat)
    requires at <= |blocks| && forall j :: 0 <= j < at ==> Full(d, blocks[j])
    ensures AllUsed(Slots(d, blocks[..at]))
  {
    if at > 0 {
      FullSlots(d, blocks, at - 1);
      SlotsGrow(d, blocks, at - 1);
      assert blocks[..at - 1 + 1] == blocks[..at];
      FreeSlotIsFirst(Entries(Read(d, blocks[at - 1])), 0);
    }
  }

  // Whatever block the search starts at: if it sees the directory's blocks and succeeds, the entry is inserted.
  lemma InsertFromRefines(s: Dir, from: nat, e: Entry) returns (more: set<U32>)
    requires DirOk(s) && e.Ok() && from <= DIRECT && InsertFrom(s, s.Blocks(), from, e).Done?
    ensures var s1 := InsertFrom(s, s.Blocks(), from, e).s;
            DirOk(s1) && Inserted(s, s1, e, more) && (from == 0 ==> Foremost(s.Listing(), s1.Listing(), e))
  {
    var blocks := s.Blocks();
    var at := Walk(s, blocks, from, e);
    if from == 0 {
      FullSlots(s.d, blocks, at);
    }
    var s1;
    if blocks[at] == 0 {
      assert at > DIRECT ==> Full(s.d, blocks[DIRECT]);
      s1, more := CaseNewBlock(s, blocks, at, e);
    } else {
      var k := FreeSlot(Entries(Read(s.d, blocks[at])), 0).value;
      more := {};
      s1 := ReuseSteps(s, blocks, at, k, e);
      CaseReuse(s, s1, blocks, at, k, e);
    }
  }

  // With the index table read and the block index set back, a successful sync_dir_entry inserts exactly the
  // given entry, at the first place there is.
  lemma InsertRefines(s: Dir, e: Entry) returns (more: set<U32>)
    requires DirOk(s) && e.Ok() && SyncDirEntry(s, e, CORRECTED).Done?
    ensures var s1 := SyncDirEntry(s, e, CORRECTED).s;
            DirOk(s1) && Inserted(s, s1, e, more) && Foremost(s.Listing(), s1.Listing(), e)
  {
    more := InsertFromRefines(s, 0, e);
  }

  // at least one block, at least two blocks free
  ghost predicate OneFree(bits: seq<bool>) { exists i :: 0 <= i < |bits| && !bits[i] }
  ghost predicate TwoFree(bits: seq<bool>) { exists i, j :: 0 <= i < j < |bits| && !bits[i] && !bits[j] }

  lemma AllocIff(s: Dir)
    requires s.Shape()
    ensures Alloc(s).Some? <==> OneFree(s.bits)
  {
    FirstFit(s.bits, 1);
    if Alloc(s).Some? {
      var k := Fit(s.bits, 1).value;
      assert !s.bits[k];
    }
    if i :| 0 <= i < |s.bits| && !s.bits[i] {
      assert ClearRun(s.bits, i, 1);
    }
  }

  lemma OneMore(bits: seq<bool>, k: nat)
    requires k < |bits| && !bits[k]
    ensures OneFree(SetRun(bits, k, 1, true)) <==> TwoFree(bits)
  {
    var after := SetRun(bits, k, 1, true);
    if i, j :| 0 <= i < j < |bits| && !bits[i] && !bits[j] {
      assert !after[if i == k then j else i];
    }
    if x :| 0 <= x < |after| && !after[x] {
      var i, j := if x < k then x else k, if x < k then k else x;
      assert 0 <= i < j < |bits| && !bits[i] && !bits[j];
    }
  }

  lemma AllocBits(s: Dir, a: Dir, lba: U32)
    requires s.Shape() && Alloc(s) == Some((lba, a))
    ensures s.dataStart <= lba < s.dataStart + |s.bits| && !s.bits[lba - s.dataStart]
    ensures a.bits == SetRun(s.bits, lba - s.dataStart, 1, true)
  {
    FirstFit(s.bits, 1);
  }

  lemma AllocTwoIff(s: Dir, a: Dir, lba: U32, i: Inode)
    requires s.Shape() && a.Shape() && Alloc(s) == Some((lba, a)) && Fits(i)
    ensures Alloc(a.WithInode(i)).Some? <==> TwoFree(s.bits)
  {
    AllocBits(s, a, lba);
    AllocIff(a.WithInode(i));
    OneMore(s.bits, lba - s.dataStart);
  }

  // whether a listing walk that stops at block `at` can place an entry there
  ghost predicate Placeable(s: Dir, blocks: seq<U32>, at: nat) {
    && at < |blocks|
    && (blocks[at] == 0 ==> if at == DIRECT then TwoFree(s.bits) else OneFree(s.bits))
  }

  // It fails exactly when all blocks from there on are full, or the free blocks it needs do not exist: two for
  // the first indexed entry, one for any other new block.  Then memory is as before, and so is the bitmap on
  // disk but for one case: the index table had been allocated and synced before its first block was refused.
  lemma InsertOutcome(s: Dir, blocks: seq<U32>, from: nat, at: nat, e: Entry)
    requires s.Shape() && |blocks| == BLOCKS && e.Ok() && StopsAt(s.d, blocks, from, at)
    requires s.inode.sectors[12] != 0 ==> blocks[DIRECT] != 0
    ensures InsertFrom(s, blocks, from, e).Done? <==> Placeable(s, blocks, at)
    ensures InsertFrom(s, blocks, from, e).Failed? ==>
              var r := InsertFrom(s, blocks, from, e).s;
              && r == Dir(s.d, s.bits, r.dbits, s.inode, s.dataStart)
              && |r.dbits| == |s.bits| && (Covers(s.bits, s.dbits) ==> Covers(s.bits, r.dbits))
              && (s.dbits == s.bits ==> (r.dbits == s.dbits <==> !(at == DIRECT && OneFree(s.bits))))
  {
    var here := Walk(s, blocks, from, e);
    StopUnique(s.d, blocks, from, at, here);
    if at < BLOCKS && blocks[at] == 0 {
      AllocIff(s);
      if Alloc(s).Some? && at == DIRECT {
        TableOutcome(s, blocks, e);
      }
    } else if at < BLOCKS {
      var s1 := ReuseSteps(s, blocks, at, FreeSlot(Entries(Read(s.d, blocks[at])), 0).value, e);
    }
  }

  lemma TableOutcome(s: Dir, blocks: seq<U32>, e: Entry)
    requires s.Shape() && |blocks| == BLOCKS && e.Ok() && Alloc(s).Some? && s.inode.sectors[12] == 0
    ensures InNewBlock(s, blocks, DIRECT, e).Done? <==> TwoFree(s.bits)
    ensures InNewBlock(s, blocks, DIRECT, e).Failed? ==>
              var r := InNewBlock(s, blocks, DIRECT, e).s;
              && r == Dir(s.d, s.bits, r.dbits, s.inode, s.dataStart)
              && |r.dbits| == |s.bits| && (Covers(s.bits, s.dbits) ==> Covers(s.bits, r.dbits))
              && (s.dbits == s.bits ==> r.dbits != s.dbits)
  {
    var a, lba := AllocFacts(s);
    AllocTwoIff(s, a, lba, Point(s.inode, 12, lba));
    assert Point(Point(s.inode, 12, lba), 12, 0) == s.inode;
  }
}
