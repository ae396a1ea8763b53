/** Directories of fs/dir.c: entries in the blocks an inode points at, 12 directly and 128 through an
    index table; search_dir_entry and sync_dir_entry as functions on the state they touch. */
module FsDir {
  import opened Bits
  import opened Bytes
  import opened FsInode

  const ENTRY: nat := 24        // sizeof(struct dir_entry)
  const PER_SECTOR: nat := 21
  const DIRECT: nat := 12
  const BLOCKS: nat := 140

  // struct dir_entry; type 0 is FT_UNKNOWN, an unused slot
  datatype Entry = Entry(name: seq<Byte>, no: U32, ftype: U32)
  {
    predicate Ok() { |name| == 16 }
    predicate Unused() { ftype == 0 }
  }

  function EntryBytes(e: Entry): (b: seq<Byte>)
    requires e.Ok()
    ensures |b| == ENTRY
  {
    e.name + WordBytes(e.no) + WordBytes(e.ftype)
  }

  function EntryAt(b: Sector, k: nat): (e: Entry)
    requires k < PER_SECTOR
    ensures e.Ok()
  {
    Entry(b[ENTRY * k..ENTRY * k + 16], WordAt(b, ENTRY * k + 16), WordAt(b, ENTRY * k + 20))
  }

  function Entries(b: Sector): (es: seq<Entry>)
    ensures |es| == PER_SECTOR
  {
    seq(PER_SECTOR, k requires 0 <= k < PER_SECTOR => EntryAt(b, k))
  }

  function ZeroSector(): (b: Sector)
    ensures forall i :: 0 <= i < 512 ==> b[i] == 0
  {
    seq(512, _ => 0)
  }

  // !strcmp(filename, name) for a name of at most 15 bytes without a zero byte
  predicate NameIs(e: Entry, name: seq<Byte>)
    requires e.Ok() && |name| <= 15
  {
    e.name[..|name|] == name && e.name[|name|] == 0
  }

  // the pointers of the index table; without a table there are none
  function TableBlocks(d: Disk, i: Inode): (r: seq<U32>)
    requires Fits(i)
    ensures |r| == 128
  {
    if i.sectors[12] == 0 then seq(128, _ => 0) else Decode(Read(d, i.sectors[12]), 0, 128)
  }

  function AllBlocks(d: Disk, i: Inode): (r: seq<U32>)
    requires Fits(i)
    ensures |r| == BLOCKS
  {
    i.sectors[..DIRECT] + TableBlocks(d, i)
  }

  // the entries of all blocks in order, used or not
  function Slots(d: Disk, blocks: seq<U32>): (r: seq<Entry>)
    ensures forall e :: e in r ==> e.Ok()
  {
    if blocks == [] then []
    else (if blocks[0] == 0 then [] else Entries(Read(d, blocks[0]))) + Slots(d, blocks[1..])
  }

  // the first entry of that name
  function FirstMatch(slots: seq<Entry>, name: seq<Byte>): Option<Entry>
    requires |name| <= 15 && forall e :: e in slots ==> e.Ok()
  {
    if slots == [] then None
    else if NameIs(slots[0], name) then Some(slots[0])
    else FirstMatch(slots[1..], name)
  }

  // ---------- sync_dir_entry ----------

  // what it touches: the disk's data blocks, the block bitmap in memory and on disk, the directory's inode
  datatype Dir = Dir(d: Disk, bits: seq<bool>, dbits: seq<bool>, inode: Inode, dataStart: nat)
  {
    predicate Shape() {
      Fits(inode) && |bits| == |dbits| && 0 < dataStart && dataStart + |bits| < 0x1_0000_0000
    }
    function WithInode(i: Inode): Dir { Dir(d, bits, dbits, i, dataStart) }
    function Blocks(): seq<U32>
      requires Shape()
    {
      AllBlocks(d, inode)
    }
    function Listing(): seq<Entry>
      requires Shape()
    {
      Slots(d, Blocks())
    }
  }

  // bit at which the bitmap sector of bit i starts
  function SectorStart(i: nat): (lo: nat)
    ensures lo <= i < lo + 4096
  {
    i - i % 4096
  }

  // bitmap_sync: the bitmap sector with that bit goes to disk
  function SyncBits(bits: seq<bool>, dbits: seq<bool>, i: nat): seq<bool>
    requires |bits| == |dbits|
  {
    var lo := SectorStart(i);
    seq(|dbits|, j requires 0 <= j < |dbits| => if lo <= j < lo + 4096 then bits[j] else dbits[j])
  }

  // what no step changes
  predicate Same(s: Dir, s1: Dir) {
    s1.inode.no == s.inode.no && s1.dataStart == s.dataStart && |s1.bits| == |s.bits|
  }

  // block_bitmap_alloc followed by bitmap_sync
  function Alloc(s: Dir): (r: Option<(U32, Dir)>)
    requires s.Shape()
    ensures r.Some? ==> r.value.1.Shape() && Same(s, r.value.1) && s.dataStart <= r.value.0 < s.dataStart + |s.bits|
  {
    match Fit(s.bits, 1)
    case None => None
    case Some(i) =>
      if i >= |s.bits| then None
      else
        var bits := SetRun(s.bits, i, 1, true);
        Some((s.dataStart + i, Dir(s.d, bits, SyncBits(bits, s.dbits, i), s.inode, s.dataStart)))
  }

  // a block with e in slot k, a fresh block with e in its first slot, and an index table
  function WithEntry(b: Sector, k: nat, e: Entry): Sector
    requires k < PER_SECTOR && e.Ok()
  {
    Splice(b, ENTRY * k, EntryBytes(e))
  }

  function NewBlock(e: Entry): Sector
    requires e.Ok()
  {
    WithEntry(ZeroSector(), 0, e)
  }

  function TableSector(words: seq<U32>): Sector
    requires |words| == 128
  {
    Encode(words)
  }

  // ide_write of one sector
  function Write(d: Disk, lba: nat, b: Sector): Disk { d[lba := b] }

  datatype Outcome = Done(s: Dir) | Failed(s: Dir)

  // i_size after another entry, a uint32_t
  function Grown(size: U32): U32 {
    if size + ENTRY < 0x1_0000_0000 then size + ENTRY else size + ENTRY - 0x1_0000_0000
  }

  function Grow(i: Inode): Inode { Inode(i.no, Grown(i.size), i.sectors) }

  function Point(i: Inode, idx: nat, lba: U32): (r: Inode)
    requires Fits(i) && idx < 13
    ensures Fits(r)
  {
    Inode(i.no, i.size, i.sectors[idx := lba])
  }

  // the entry goes into a fresh block
  function WriteNew(s: Dir, lba: U32, e: Entry): (r: Outcome)
    requires s.Shape() && e.Ok()
    ensures r.Done? && r.s.Shape() && Same(s, r.s)
  {
    Done(Dir(Write(s.d, lba, NewBlock(e)), s.bits, s.dbits, Grow(s.inode), s.dataStart))
  }

  function WriteTable(s: Dir, words: seq<U32>): (r: Dir)
    requires s.Shape() && |words| == 128
    ensures r.Shape() && Same(s, r)
  {
    Dir(Write(s.d, s.inode.sectors[12], TableSector(words)), s.bits, s.dbits, s.inode, s.dataStart)
  }

  // the first index block needs the table as well; if it cannot be had, the table's bit is cleared in
  // memory but not on disk
  function FirstIndexed(s1: Dir, table: U32, blocks: seq<U32>, e: Entry): (r: Outcome)
    requires s1.Shape() && |blocks| == BLOCKS && e.Ok() && s1.dataStart <= table < s1.dataStart + |s1.bits|
    ensures r.s.Shape() && Same(s1, r.s)
  {
    var a := Alloc(s1.WithInode(Point(s1.inode, 12, table)));
    if a.None? then NoFirstBlock(s1, table)
    else WriteNew(WriteTable(a.value.1, blocks[12..][0 := a.value.0]), a.value.0, e)
  }

  function NoFirstBlock(s1: Dir, table: U32): (r: Outcome)
    requires s1.Shape() && s1.dataStart <= table
    ensures r.s.Shape() && Same(s1, r.s)
  {
    Failed(Dir(s1.d, SetRun(s1.bits, table - s1.dataStart, 1, false), s1.dbits, Point(s1.inode, 12, 0), s1.dataStart))
  }

  // block idx is not in use: allocate it
  function InNewBlock(s: Dir, blocks: seq<U32>, idx: nat, e: Entry): (r: Outcome)
    requires s.Shape() && |blocks| == BLOCKS && idx < BLOCKS && e.Ok()
    ensures r.s.Shape() && Same(s, r.s)
  {
    var a := Alloc(s);
    if a.None? then Failed(s) else WithBlock(a.value.1, a.value.0, blocks, idx, e)
  }

  // what is done with the block lba that was allocated
  function WithBlock(s1: Dir, lba: U32, blocks: seq<U32>, idx: nat, e: Entry): (r: Outcome)
    requires s1.Shape() && |blocks| == BLOCKS && idx < BLOCKS && e.Ok() && s1.dataStart <= lba < s1.dataStart + |s1.bits|
    ensures r.s.Shape() && Same(s1, r.s)
  {
    if idx < DIRECT then WriteNew(s1.WithInode(Point(s1.inode, idx, lba)), lba, e)
    else if idx == DIRECT then FirstIndexed(s1, lba, blocks, e)
    else WriteNew(WriteTable(s1, blocks[12..][idx - 12 := lba]), lba, e)
  }

  // first unused slot of a block
  function FreeSlot(es: seq<Entry>, k: nat): Option<nat>
    decreases |es| - k
  {
    if k >= |es| then None else if es[k].Unused() then Some(k) else FreeSlot(es, k + 1)
  }

  // a block in use: the entry goes into its first unused slot
  function Reuse(s: Dir, lba: U32, e: Entry): (r: Option<Dir>)
    requires s.Shape() && e.Ok()
    ensures r.Some? ==> r.value.Shape() && Same(s, r.value)
  {
    var b := Read(s.d, lba);
    match FreeSlot(Entries(b), 0)
    case None => None
    case Some(k) =>
      if k >= PER_SECTOR then None
      else Some(Dir(Write(s.d, lba, WithEntry(b, k, e)), s.bits, s.dbits, Grow(s.inode), s.dataStart))
  }

  // the loop over the blocks
  function InsertFrom(s: Dir, blocks: seq<U32>, idx: nat, e: Entry): (r: Outcome)
    requires s.Shape() && |blocks| == BLOCKS && idx <= BLOCKS && e.Ok()
    ensures r.s.Shape() && Same(s, r.s)
    decreases BLOCKS - idx
  {
    if idx == BLOCKS then Failed(s)
    else if blocks[idx] == 0 then InNewBlock(s, blocks, idx, e)
    else match Reuse(s, blocks[idx], e)
      case None => InsertFrom(s, blocks, idx + 1, e)
      case Some(s1) => Done(s1)
  }

  /** What sync_dir_entry looks at: load reads the index table into its local array, restart sets the block index
      back to 0 behind the loop that copies the direct pointers.  The source does neither, so that its search
      starts at the first indexed block, of which it sees no pointer. */
  datatype Scan = Scan(load: bool, restart: bool)
  {
    function Start(): nat { if restart then 0 else DIRECT }
  }

  const WRITTEN := Scan(false, false)
  const CORRECTED := Scan(true, true)

  // the blocks of an inode without those in the index table
  function Unloaded(i: Inode): (r: seq<U32>)
    requires Fits(i)
    ensures |r| == BLOCKS
  {
    i.sectors[..DIRECT] + seq(128, _ => 0)
  }

  // sync_dir_entry's local array
  function Scanned(d: Disk, i: Inode, scan: Scan): (r: seq<U32>)
    requires Fits(i)
    ensures |r| == BLOCKS
  {
    if scan.load then AllBlocks(d, i) else Unloaded(i)
  }

  // sync_dir_entry
  function SyncDirEntry(s: Dir, e: Entry, scan: Scan): (r: Outcome)
    requires s.Shape() && e.Ok()
    ensures r.s.Shape() && Same(s, r.s)
  {
    InsertFrom(s, Scanned(s.d, s.inode, scan), scan.Start(), e)
  }

  // ---------- searching ----------

  lemma {:induction false} FirstMatchIsFirst(slots: seq<Entry>, name: seq<Byte>)
    requires |name| <= 15 && forall e :: e in slots ==> e.Ok()
    ensures FirstMatch(slots, name).Some? <==> exists e :: e in slots && NameIs(e, name)
    ensures FirstMatch(slots, name).Some? ==>
              exists k :: 0 <= k < |slots| && slots[k] == FirstMatch(slots, name).value && NameIs(slots[k], name)
                          && forall j :: 0 <= j < k ==> !NameIs(slots[j], name)
  {
    if slots != [] && !NameIs(slots[0], name) {
      FirstMatchIsFirst(slots[1..], name);
      if FirstMatch(slots, name).Some? {
        var k :| 0 <= k < |slots[1..]| && slots[1..][k] == FirstMatch(slots[1..], name).value && NameIs(slots[1..][k], name)
                 && forall j :: 0 <= j < k ==> !NameIs(slots[1..][j], name);
        assert slots[k + 1] == slots[1..][k];
        forall j | 0 <= j < k + 1
          ensures !NameIs(slots[j], name)
        {
          assert j > 0 ==> slots[j] == slots[1..][j - 1];
        }
      }
    }
  }

  lemma {:induction false} FirstMatchConcat(a: seq<Entry>, b: seq<Entry>, name: seq<Byte>)
    requires |name| <= 15 && (forall e :: e in a ==> e.Ok()) && (forall e :: e in b ==> e.Ok())
    ensures FirstMatch(a + b, name) == if FirstMatch(a, name).Some? then FirstMatch(a, name) else FirstMatch(b, name)
  {
    if a == [] {
      assert a + b == b;
    } else {
      assert (a + b)[1..] == a[1..] + b;
      FirstMatchConcat(a[1..], b, name);
    }
  }

  lemma {:induction false} SlotsConcat(d: Disk, x: seq<U32>, y: seq<U32>)
    ensures Slots(d, x + y) == Slots(d, x) + Slots(d, y)
  {
    if x == [] {
      assert x + y == y;
    } else {
      assert (x + y)[1..] == x[1..] + y;
      SlotsConcat(d, x[1..], y);
    }
  }

  // the blocks search_dir_entry walks: without an index table, what its buffer held before
  function SearchBlocks(d: Disk, i: Inode, junk: seq<U32>): (r: seq<U32>)
    requires Fits(i) && |junk| == 128
    ensures |r| == BLOCKS
  {
    i.sectors[..DIRECT] + if i.sectors[12] == 0 then junk else Decode(Read(d, i.sectors[12]), 0, 128)
  }

  // what sys_malloc gives search_dir_entry for its array of block pointers: nothing, or memory with some contents
  datatype Scratch = NoMemory | Memory(junk: seq<U32>)
  {
    predicate Ok() { Memory? ==> |junk| == 128 }
  }

  // what search_dir_entry finds; without memory, nothing
  function Searched(d: Disk, i: Inode, name: seq<Byte>, scratch: Scratch): Option<Entry>
    requires Fits(i) && scratch.Ok() && |name| <= 15
  {
    match scratch
    case NoMemory => None
    case Memory(junk) => FirstMatch(Slots(d, SearchBlocks(d, i, junk)), name)
  }

  // the loop that copies the direct pointers, which leaves the block index at 12
  method CopyDirect(i: Inode, before: seq<U32>) returns (allBlock: seq<U32>, blockIdx: nat)
    requires Fits(i) && |before| == BLOCKS
    ensures blockIdx == DIRECT && allBlock == i.sectors[..DIRECT] + before[DIRECT..]
  {
    allBlock, blockIdx := before, 0;
    while blockIdx < DIRECT
      invariant 0 <= blockIdx <= DIRECT && allBlock == i.sectors[..blockIdx] + before[blockIdx..]
    {
      allBlock := allBlock[blockIdx := i.sectors[blockIdx]];
      blockIdx := blockIdx + 1;
    }
  }

  // search_dir_entry
  method SearchDirEntry(d: Disk, i: Inode, name: seq<Byte>, scratch: Scratch) returns (r: Option<Entry>)
    requires Fits(i) && scratch.Ok() && |name| <= 15
    ensures r == Searched(d, i, name, scratch)
  {
    if scratch.NoMemory? {
      return None;
    }
    var allBlock, blockIdx := CopyDirect(i, seq(DIRECT, _ => 0) + scratch.junk);
    blockIdx := 0;
    if i.sectors[12] != 0 {
      allBlock := allBlock[..DIRECT] + Decode(Read(d, i.sectors[12]), 0, 128);
    }
    assert allBlock == SearchBlocks(d, i, scratch.junk);
    r := SearchBlockList(d, allBlock, name);
  }

  // its loop over the blocks
  method SearchBlockList(d: Disk, allBlock: seq<U32>, name: seq<Byte>) returns (r: Option<Entry>)
    requires |allBlock| == BLOCKS && |name| <= 15
    ensures r == FirstMatch(Slots(d, allBlock), name)
  {
    var blockIdx := 0;
    while blockIdx < BLOCKS
      invariant 0 <= blockIdx <= BLOCKS
      invariant FirstMatch(Slots(d, allBlock), name) == FirstMatch(Slots(d, allBlock[blockIdx..]), name)
      decreases BLOCKS - blockIdx
    {
      ghost var rest := allBlock[blockIdx..];
      assert rest[1..] == allBlock[blockIdx + 1..];
      if allBlock[blockIdx] == 0 {
        assert Slots(d, rest) == Slots(d, rest[1..]);
        blockIdx := blockIdx + 1;
        continue;
      }
      var found := SearchBlock(Read(d, allBlock[blockIdx]), name);
      FirstMatchConcat(Entries(Read(d, allBlock[blockIdx])), Slots(d, rest[1..]), name);
      if found != None {
        return found;
      }
      blockIdx := blockIdx + 1;
    }
    r := None;
  }

  // its inner loop over one sector
  method SearchBlock(b: Sector, name: seq<Byte>) returns (r: Option<Entry>)
    requires |name| <= 15
    ensures r == FirstMatch(Entries(b), name)
  {
    var k := 0;
    while k < PER_SECTOR
      invariant 0 <= k <= PER_SECTOR
      invariant FirstMatch(Entries(b), name) == FirstMatch(Entries(b)[k..], name)
    {
      assert Entries(b)[k..][0] == EntryAt(b, k) && Entries(b)[k..][1..] == Entries(b)[k + 1..];
      if NameIs(EntryAt(b, k), name) {
        return Some(EntryAt(b, k));
      }
      k := k + 1;
    }
    r := None;
  }
}
