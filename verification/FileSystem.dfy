/** The file system's code as it works on its state in place: fs/file.c, sync_dir_entry of fs/dir.c, and the
    inode cache of fs/inode.c.  Every method is proved against the function of the same name. */
module FileSystemModel {
  import opened Bits
  import opened Bytes
  import opened FsInode
  import opened FsDir
  import FsDirProofs
  import opened FsFile
  import opened FsFileKeeps
  import opened FsCache
  import FsOpen
  import opened FsPath

  function WithDir(fs: Fs, p: nat, s: Dir): Fs
    requires p < |fs.open|
  {
    Fs(s.d, s.bits, s.dbits, fs.ibits, fs.idbits, fs.table, fs.open[p := OpenInode(s.inode, fs.open[p].cnt)],
       fs.files, fs.fds, fs.bufs, fs.dataStart)
  }

  class FileSystem {
    var d: Disk
    var bits: seq<bool>
    var dbits: seq<bool>
    var ibits: seq<bool>
    var idbits: seq<bool>
    var table: seq<Inode>
    var open: seq<OpenInode>
    const files: array<File>
    const fds: array<int>
    var bufs: nat
    const dataStart: nat

    constructor (fs: Fs)
      requires fs.Shape()
      ensures fresh(files) && fresh(fds) && State() == fs
    {
      d, bits, dbits, ibits, idbits := fs.d, fs.bits, fs.dbits, fs.ibits, fs.idbits;
      table, open, bufs, dataStart := fs.table, fs.open, fs.bufs, fs.dataStart;
      files := new File[MAX_FILES](k requires 0 <= k < MAX_FILES => fs.files[k]);
      fds := new int[MAX_FDS](k requires 0 <= k < MAX_FDS => fs.fds[k]);
      new;
      assert files[..] == fs.files && fds[..] == fs.fds;
    }

    ghost function State(): Fs
      reads this, files, fds
    {
      Fs(d, bits, dbits, ibits, idbits, table, open, files[..], fds[..], bufs, dataStart)
    }

    // what sync_dir_entry sees of the directory that is open as element p
    ghost function DirState(p: nat): Dir
      requires p < |open|
      reads this
    {
      Dir(d, bits, dbits, open[p].inode, dataStart)
    }

    // block_bitmap_alloc
    method BlockBitmapAlloc() returns (lba: Option<U32>)
      requires 0 < dataStart && dataStart + |bits| < 0x1_0000_0000
      modifies this`bits
      ensures lba == None <==> Fit(old(bits), 1) == None
      ensures lba == None ==> bits == old(bits)
      ensures lba.Some? ==> dataStart <= lba.value < dataStart + |bits| && Fit(old(bits), 1) == Some(lba.value - dataStart)
                            && bits == SetRun(old(bits), lba.value - dataStart, 1, true)
    {
      FirstFit(bits, 1);
      var bitIdx := Fit(bits, 1);
      if bitIdx == None {
        return None;
      }
      bits := SetRun(bits, bitIdx.value, 1, true);
      lba := Some(dataStart + bitIdx.value);
    }

    // bitmap_sync for the block bitmap and for the inode bitmap: the sector of bits that has bitIdx in it is
    // on disk as it is in memory, and no other bit on disk changes
    method BlockBitmapSync(bitIdx: nat)
      requires bitIdx < |bits| == |dbits|
      modifies this`dbits
      ensures |dbits| == |bits| && dbits == SyncBits(bits, old(dbits), bitIdx)
      ensures forall j :: 0 <= j < |bits| ==> dbits[j] == if j / 4096 == bitIdx / 4096 then bits[j] else old(dbits)[j]
    {
      dbits := SyncSector(bits, dbits, bitIdx);
    }

    method InodeBitmapSync(bitIdx: nat)
      requires bitIdx < |ibits| == |idbits|
      modifies this`idbits
      ensures |idbits| == |ibits| && idbits == SyncBits(ibits, old(idbits), bitIdx)
      ensures forall j :: 0 <= j < |ibits| ==> idbits[j] == if j / 4096 == bitIdx / 4096 then ibits[j] else old(idbits)[j]
    {
      idbits := SyncSector(ibits, idbits, bitIdx);
    }

    // ide_write of one sector of a bitmap
    static method SyncSector(inMem: seq<bool>, onDisk: seq<bool>, bitIdx: nat) returns (r: seq<bool>)
      requires bitIdx < |inMem| == |onDisk|
      ensures |r| == |inMem| && r == SyncBits(inMem, onDisk, bitIdx)
      ensures forall j :: 0 <= j < |inMem| ==> r[j] == if j / 4096 == bitIdx / 4096 then inMem[j] else onDisk[j]
    {
      var offSec := bitIdx / 4096;
      var lo := offSec * 4096;
      var hi := if lo + 4096 <= |inMem| then lo + 4096 else |inMem|;
      r := onDisk[..lo] + inMem[lo..hi] + onDisk[hi..];
    }

    // assignments to fields of the directory's inode
    method SetSector(p: nat, idx: nat, lba: U32)
      requires p < |open| && Fits(open[p].inode) && idx < 13
      modifies this`open
      ensures open == old(open)[p := OpenInode(Point(old(open)[p].inode, idx, lba), old(open)[p].cnt)]
    {
      open := open[p := OpenInode(Point(open[p].inode, idx, lba), open[p].cnt)];
    }

    method AddEntrySize(p: nat)
      requires p < |open| && Fits(open[p].inode)
      modifies this`open
      ensures open == old(open)[p := OpenInode(Grow(old(open)[p].inode), old(open)[p].cnt)]
    {
      open := open[p := OpenInode(Grow(open[p].inode), open[p].cnt)];
    }

    // the loop over the entries of one block
    method FindUnused(ioBuf: Sector) returns (k: Option<nat>)
      ensures k == FreeSlot(Entries(ioBuf), 0)
    {
      var dirEntryIdx := 0;
      while dirEntryIdx < PER_SECTOR
        invariant 0 <= dirEntryIdx <= PER_SECTOR
        invariant FreeSlot(Entries(ioBuf), 0) == FreeSlot(Entries(ioBuf), dirEntryIdx)
      {
        if EntryAt(ioBuf, dirEntryIdx).Unused() {
          return Some(dirEntryIdx);
        }
        dirEntryIdx := dirEntryIdx + 1;
      }
      k := None;
    }

    // block_bitmap_alloc with the bitmap_sync that follows it everywhere
    method AllocSynced(ghost p: nat) returns (lba: Option<U32>)
      requires p < |open| && DirState(p).Shape()
      modifies this`bits, this`dbits
      ensures DirState(p).Shape()
      ensures lba == None ==> Alloc(old(DirState(p))) == None && DirState(p) == old(DirState(p))
      ensures lba.Some? ==> Alloc(old(DirState(p))) == Some((lba.value, DirState(p)))
      ensures lba.Some? ==> dataStart <= lba.value < dataStart + |bits|
    {
      lba := BlockBitmapAlloc();
      if lba.Some? {
        BlockBitmapSync(lba.value - dataStart);
      }
    }

    // the new entry in the first slot of a fresh block
    method WriteNewEntry(p: nat, lba: U32, e: Entry)
      requires p < |open| && DirState(p).Shape() && e.Ok()
      modifies this`d, this`open
      ensures |open| == old(|open|) && open == old(open)[p := OpenInode(open[p].inode, old(open)[p].cnt)]
      ensures Done(DirState(p)) == WriteNew(old(DirState(p)), lba, e)
    {
      d := Write(d, lba, NewBlock(e));
      AddEntrySize(p);
    }

    // sync_dir_entry's branch for a block not in use; allBlock is its local array
    method NewDirBlock(p: nat, allBlock: seq<U32>, idx: nat, e: Entry) returns (ok: bool)
      requires p < |open| && DirState(p).Shape() && |allBlock| == BLOCKS && idx < BLOCKS && e.Ok()
      modifies this`d, this`bits, this`dbits, this`open
      ensures |open| == old(|open|) && open == old(open)[p := OpenInode(open[p].inode, old(open)[p].cnt)]
      ensures ok <==> InNewBlock(old(DirState(p)), allBlock, idx, e).Done?
      ensures DirState(p) == InNewBlock(old(DirState(p)), allBlock, idx, e).s
    {
      var blockLba := AllocSynced(p);
      if blockLba == None {
        return false;
      }
      if idx < DIRECT {
        SetSector(p, idx, blockLba.value);
        WriteNewEntry(p, blockLba.value, e);
        ok := true;
      } else if idx == DIRECT {
        ok := FirstTableBlock(p, blockLba.value, allBlock, e);
      } else {
        var blocks := allBlock[idx := blockLba.value];
        assert blocks[12..] == allBlock[12..][idx - 12 := blockLba.value];
        d := Write(d, open[p].inode.sectors[12], TableSector(blocks[12..]));
        WriteNewEntry(p, blockLba.value, e);
        ok := true;
      }
    }

    // its part for the first indexed block; table is the block allocated for the index table
    method FirstTableBlock(p: nat, table: U32, allBlock: seq<U32>, e: Entry) returns (ok: bool)
      requires p < |open| && DirState(p).Shape() && |allBlock| == BLOCKS && e.Ok()
      requires dataStart <= table < dataStart + |bits|
      modifies this`d, this`bits, this`dbits, this`open
      ensures |open| == old(|open|) && open == old(open)[p := OpenInode(open[p].inode, old(open)[p].cnt)]
      ensures ok <==> FirstIndexed(old(DirState(p)), table, allBlock, e).Done?
      ensures DirState(p) == FirstIndexed(old(DirState(p)), table, allBlock, e).s
    {
      SetSector(p, 12, table);
      assert DirState(p) == old(DirState(p)).WithInode(Point(old(DirState(p)).inode, 12, table));
      var blockLba := AllocSynced(p);
      if blockLba == None {
        bits := SetRun(bits, table - dataStart, 1, false);
        SetSector(p, 12, 0);
        assert open[p].inode == Point(old(DirState(p)).inode, 12, 0);
        return false;
      }
      var blocks := allBlock[12 := blockLba.value];
      assert blocks[12..] == allBlock[12..][0 := blockLba.value];
      d := Write(d, open[p].inode.sectors[12], TableSector(blocks[12..]));
      WriteNewEntry(p, blockLba.value, e);
      ok := true;
    }

    // sync_dir_entry's part for a block in use: the entry goes into the first unused slot, if there is one
    method UseBlock(p: nat, lba: U32, e: Entry) returns (ok: bool)
      requires p < |open| && DirState(p).Shape() && e.Ok()
      modifies this`d, this`open
      ensures |open| == old(|open|) && open == old(open)[p := OpenInode(open[p].inode, old(open)[p].cnt)]
      ensures ok <==> Reuse(old(DirState(p)), lba, e).Some?
      ensures DirState(p) == if ok then Reuse(old(DirState(p)), lba, e).value else old(DirState(p))
    {
      var ioBuf := Read(d, lba);
      var k := FindUnused(ioBuf);
      FsDirProofs.FreeSlotIsFirst(Entries(ioBuf), 0);
      ok := k.Some?;
      if ok {
        d := Write(d, lba, WithEntry(ioBuf, k.value, e));
        AddEntrySize(p);
      }
    }

    // its local array of block pointers, and the block index behind the loop that fills it
    method LoadBlocks(i: Inode, scan: Scan) returns (allBlock: seq<U32>, blockIdx: nat)
      requires Fits(i)
      ensures allBlock == Scanned(d, i, scan) && blockIdx == scan.Start()
    {
      allBlock, blockIdx := CopyDirect(i, seq(BLOCKS, _ => 0));
      assert seq<U32>(BLOCKS, _ => 0)[DIRECT..] == seq(128, _ => 0);
      if scan.load && i.sectors[12] != 0 {
        allBlock := allBlock[..DIRECT] + Decode(Read(d, i.sectors[12]), 0, 128);
      }
      if scan.restart {
        blockIdx := 0;
      }
    }

    // sync_dir_entry; None is its assertion on the directory's size
    method SyncEntry(p: nat, e: Entry, scan: Scan) returns (r: Option<bool>)
      requires p < |open| && DirState(p).Shape() && e.Ok()
      modifies this`d, this`bits, this`dbits, this`open
      ensures |open| == old(|open|) && open == old(open)[p := OpenInode(open[p].inode, old(open)[p].cnt)]
      ensures r == None <==> !WholeEntries(old(open)[p].inode)
      ensures r == None ==> DirState(p) == old(DirState(p))
      ensures r.Some? ==> (r.value <==> SyncDirEntry(old(DirState(p)), e, scan).Done?)
      ensures r.Some? ==> DirState(p) == SyncDirEntry(old(DirState(p)), e, scan).s
    {
      var dirSize := open[p].inode.size;
      if dirSize % ENTRY != 0 {
        return None;
      }
      var ok := InsertEntry(p, e, scan);
      r := Some(ok);
    }

    // sync_dir_entry behind its assertion
    method InsertEntry(p: nat, e: Entry, scan: Scan) returns (ok: bool)
      requires p < |open| && DirState(p).Shape() && e.Ok()
      modifies this`d, this`bits, this`dbits, this`open
      ensures |open| == old(|open|) && open == old(open)[p := OpenInode(open[p].inode, old(open)[p].cnt)]
      ensures ok <==> SyncDirEntry(old(DirState(p)), e, scan).Done?
      ensures DirState(p) == SyncDirEntry(old(DirState(p)), e, scan).s
    {
      ghost var s := DirState(p);
      var allBlock, blockIdx := LoadBlocks(open[p].inode, scan);
      ghost var result := InsertFrom(s, allBlock, blockIdx, e);
      while blockIdx < BLOCKS
        invariant 0 <= blockIdx <= BLOCKS && open == old(open) && DirState(p) == s
        invariant result == InsertFrom(s, allBlock, blockIdx, e)
      {
        if allBlock[blockIdx] == 0 {
          ok := NewDirBlock(p, allBlock, blockIdx, e);
          return;
        }
        ok := UseBlock(p, allBlock[blockIdx], e);
        if ok {
          return;
        }
        blockIdx := blockIdx + 1;
      }
      ok := false;
    }

    // ---------- file_create ----------

    // inode_bitmap_alloc; tail are the bits behind the bitmap's own sector
    method InodeBitmapAlloc(tail: seq<bool>) returns (no: Option<nat>)
      modifies this`ibits
      ensures no == Fit(old(ibits) + tail, 1) && |ibits| == old(|ibits|)
      ensures no == None || no.value >= |ibits| ==> ibits == old(ibits)
      ensures no.Some? && no.value < |ibits| ==> ibits == SetRun(old(ibits), no.value, 1, true)
                                                  && SetRun(ibits, no.value, 1, false) == old(ibits)
    {
      LongScan(ibits, tail);
      no := Fit(ibits + tail, 1);
      if no.Some? && no.value < |ibits| {
        ScanThenSet(ibits, 1);
        ibits := SetRun(ibits, no.value, 1, true);
      }
    }

    // get_free_slot_in_global
    method GetFreeSlot() returns (f: Option<nat>)
      ensures f == FreeFile(files[..], 3)
      ensures f.Some? ==> 3 <= f.value < files.Length
    {
      var fdIdx := 3;
      while fdIdx < files.Length
        invariant 3 <= fdIdx && FreeFile(files[..], 3) == FreeFile(files[..], fdIdx)
      {
        if files[fdIdx].inode == None {
          return Some(fdIdx);
        }
        fdIdx := fdIdx + 1;
      }
      f := None;
    }

    // pcb_fd_install
    method PcbFdInstall(globalFdIdx: nat) returns (fd: int)
      requires fds.Length == MAX_FDS
      modifies fds
      ensures fds[..] == Installed(old(fds[..]), globalFdIdx) && fd == InstalledAt(old(fds[..]))
    {
      var localFdIdx := 3;
      while localFdIdx < MAX_FDS
        invariant 3 <= localFdIdx <= MAX_FDS && fds[..] == old(fds[..])
        invariant FreeFd(fds[..], 3) == FreeFd(fds[..], localFdIdx)
      {
        if fds[localFdIdx] == -1 {
          fds[localFdIdx] := globalFdIdx;
          return localFdIdx;
        }
        localFdIdx := localFdIdx + 1;
      }
      fd := -1;
    }

    // inode_sync, on the records of the inode table
    method InodeSync(i: Inode, narrow: bool)
      requires |table| == INODE_CNT && i.no < INODE_CNT
      modifies this`table
      ensures table == old(table)[Target(i.no, narrow) := i]
    {
      table := table[Target(i.no, narrow) := i];
    }

    // everything goes to disk, and the inode is opened; s1 is what sync_dir_entry left of the state fs
    method CommitFile(p: nat, no: nat, f: nat, narrow: bool, ghost fs: Fs, ghost s1: Dir) returns (fd: int)
      requires fs.Shape() && p < |fs.open| && no < |fs.ibits| && f < MAX_FILES
      requires Fits(s1.inode) && s1.inode.no == fs.open[p].inode.no && s1.dataStart == fs.dataStart
      requires State() == WithDir(Entering(fs, no, f), p, s1)
      modifies this`table, this`idbits, this`open, this`bufs, fds
      ensures (State(), fd) == Commit(fs, p, s1, no, f, narrow)
    {
      InodeSync(open[p].inode, narrow);
      InodeSync(NewInode(no), narrow);
      InodeBitmapSync(no);
      open := [OpenInode(NewInode(no), 1)] + open;
      bufs := bufs - 1;
      fd := PcbFdInstall(f);
    }

    // file_create from its call of sync_dir_entry on; fs is the state file_create was called in, and r what
    // sync_dir_entry does
    method EnterFile(p: nat, name: seq<Byte>, no: nat, f: nat, form: Form, ghost fs: Fs)
        returns (done: Option<bool>, fd: int, ghost r: Outcome)
      requires fs.Shape() && p < |fs.open| && |name| <= 15 && no < |fs.ibits| && f < MAX_FILES
      requires State() == Entering(fs, no, f)
      modifies this, fds
      ensures r == Insertion(fs, p, name, no, form.scan) && (done == None <==> !WholeEntries(fs.open[p].inode))
      ensures done == None ==> State() == Entering(fs, no, f) && fd == STOPPED
      ensures done.Some? ==> done.value == r.Done?
      ensures done == Some(true) ==> (State(), fd) == Commit(fs, p, r.s, no, f, form.narrow)
      ensures done == Some(false) ==> State() == WithDir(Entering(fs, no, f), p, r.s)
    {
      r := Insertion(fs, p, name, no, form.scan);
      assert DirState(p) == View(fs, fs.open[p].inode);
      done := SyncEntry(p, EntryFor(name, no), form.scan);
      if done == None {
        assert open == fs.open;
        return None, STOPPED, r;
      }
      assert State() == WithDir(Entering(fs, no, f), p, r.s);
      if done.value {
        fd := CommitFile(p, no, f, form.narrow, fs, r.s);
      } else {
        fd := -1;
      }
    }

    // the rollback label of file_create
    method Rollback(rollbackStep: nat, fdIdx: Option<nat>, no: nat)
      requires no < |ibits| && bufs > 0 && (rollbackStep >= 3 ==> fdIdx.Some? && fdIdx.value < files.Length)
      modifies this`ibits, this`bufs, files
      ensures ibits == SetRun(old(ibits), no, 1, false) && bufs == old(bufs) - 1
      ensures files[..] == if rollbackStep >= 3 then old(files[..])[fdIdx.value := NoFile()] else old(files[..])
    {
      if rollbackStep >= 3 {
        files[fdIdx.value] := NoFile();
      }
      ibits := SetRun(ibits, no, 1, false);
      bufs := bufs - 1;
    }

    // file_create; buf and node say whether its two sys_malloc succeed
    method FileCreate(p: nat, name: seq<Byte>, buf: bool, node: bool, form: Form) returns (fd: int)
      requires State().Shape() && p < |open| && |name| <= 15
      modifies this, files, fds
      ensures (State(), fd) == FsFile.FileCreate(old(State()), p, name, buf, node, form)
    {
      ghost var fs := State();
      if !buf {
        return -1;
      }
      bufs := bufs + 1;
      var rollbackStep := 0;
      var iNo := InodeBitmapAlloc(form.tail);
      if iNo == None {
        return -1;
      }
      if iNo.value >= |ibits| {
        return OVERRUN;
      }
      var no := iNo.value;
      var fdIdx := None;
      label body: {
        if !node {
          rollbackStep := 1;
          break body;
        }
        fdIdx := GetFreeSlot();
        if fdIdx == None {
          rollbackStep := 2;
          break body;
        }
        files[fdIdx.value] := File(0, FT_REGULAR, Some(no));
        var done;
        ghost var r;
        done, fd, r := EnterFile(p, name, no, fdIdx.value, form, fs);
        if done != Some(false) {
          return;
        }
        rollbackStep := 3;
      }
      Rollback(rollbackStep, fdIdx, no);
      assert rollbackStep >= 3 ==> files[..] == fs.files[fdIdx.value := NoFile()];
      fd := -1;
    }

    // ---------- the inode cache ----------

    // the walk over open_inodes
    method FindOpen(no: nat) returns (k: Option<nat>)
      ensures k == Find(open, no, 0)
      ensures k.Some? ==> k.value < |open|
    {
      var elem := 0;
      while elem < |open|
        invariant 0 <= elem <= |open| && Find(open, no, 0) == Find(open, no, elem)
      {
        if open[elem].inode.no == no {
          return Some(elem);
        }
        elem := elem + 1;
      }
      k := None;
    }

    // inode_open
    method InodeOpen(no: nat)
      requires |table| == INODE_CNT && no < INODE_CNT
      modifies this`open
      ensures open == Opened(old(open), no, table[no])
    {
      var k := FindOpen(no);
      if k.Some? {
        open := open[k.value := OpenInode(open[k.value].inode, open[k.value].cnt + 1)];
      } else {
        open := [OpenInode(table[no], 1)] + open;
      }
    }

    // inode_close of an inode that is on the list
    method InodeClose(no: nat)
      requires Opens(open, no) > 0
      modifies this`open
      ensures open == Closed(old(open), no)
    {
      FindIsFirst(open, no, 0);
      var k := FindOpen(no);
      var cnt := open[k.value].cnt - 1;
      if cnt == 0 {
        open := open[..k.value] + open[k.value + 1..];
      } else {
        open := open[k.value := OpenInode(open[k.value].inode, cnt)];
      }
    }

    // ---------- sys_open ----------

    // dir_open and dir_close
    method DirOpen(no: nat) returns (h: FsOpen.Handle)
      requires |table| == INODE_CNT && no < INODE_CNT
      modifies this`open
      ensures open == Opened(old(open), no, table[no]) && h == FsOpen.Opened(no)
    {
      InodeOpen(no);
      h := FsOpen.Opened(no);
    }

    method DirClose(h: FsOpen.Handle)
      requires h.Opened? ==> Opens(open, h.no) > 0
      modifies this`open
      ensures open == FsOpen.DirClose(old(open), h)
    {
      if h.Opened? {
        InodeClose(h.no);
      }
    }

    // search_dir_entry in an open directory; scratch is what it gets for its block pointers
    method SearchDir(h: FsOpen.Handle, name: Name, scratch: Scratch, ghost fs: Fs) returns (e: Option<Entry>)
      requires fs.Shape() && State() == WithOpen(fs, open) && Cached(fs, open, h) && |name| <= NAME_MAX && scratch.Ok()
      ensures h.No() < INODE_CNT && e == FsOpen.Answer(fs, h.No(), name, scratch)
    {
      FindIsFirst(open, h.No(), 0);
      var k := FindOpen(h.No());
      assert ElementOk(fs, open[k.value]);
      e := SearchDirEntry(d, open[k.value].inode, name, scratch);
    }

    // one directory is closed and another opened, as search_file does on its way; fs is the state it started in
    method ChangeDir(h: FsOpen.Handle, no: nat, ghost fs: Fs) returns (h1: FsOpen.Handle)
      requires fs.Shape() && State() == WithOpen(fs, open) && Cached(fs, open, h)
      requires no < INODE_CNT && Live(fs, no) && fs.table[no].no == no
      modifies this`open
      ensures State() == WithOpen(fs, open) && Cached(fs, open, h1) && h1 == FsOpen.Opened(no)
      ensures open == FsOpen.DirOpen(fs, FsOpen.DirClose(old(open), h), no)
    {
      StillCached(fs, open, h, no);
      DirClose(h);
      h1 := DirOpen(no);
    }

    // one component of search_file's path: looked up, and entered if it is a directory
    method WalkTurn(h: FsOpen.Handle, name: Name, scratch: Scratch, ghost fs: Fs, ghost D: set<nat>)
        returns (e: Option<Entry>, h1: FsOpen.Handle)
      requires OnWalk(fs, h, D) && 1 <= |name| <= NAME_MAX && name[0] != 0 && scratch.Ok()
      requires FsOpen.Answer(fs, h.No(), name, scratch) == FsOpen.Known(fs, h.No(), name, scratch)
      modifies this`open
      ensures OnWalk(fs, h1, D) && e == FsOpen.Known(fs, h.No(), name, scratch)
      ensures if e.Some? && e.value.ftype == FT_DIRECTORY
              then h1 == FsOpen.Opened(e.value.no) && open == FsOpen.DirOpen(fs, FsOpen.DirClose(old(open), h), e.value.no)
              else h1 == h && open == old(open)
    {
      h1 := h;
      e := SearchDir(h, name, scratch, fs);
      if e.Some? && e.value.ftype == FT_DIRECTORY {
        assert FsOpen.Listed(e.value, D);
        h1 := ChangeDir(h, e.value.no, fs);
      }
    }

    // the state of a walk through the directories D, at h; fs is the state it started in
    ghost predicate OnWalk(fs: Fs, h: FsOpen.Handle, D: set<nat>)
      reads this, files, fds
    {
      && fs.Shape() && State() == WithOpen(fs, open) && Cached(fs, open, h) && h.No() in D
      && FsOpen.Tree(fs, D) && AllLive(fs, D)
    }

    // search_file notes a component; its assertion on the length of what it has noted holds
    method Record(ghost path: seq<Byte>, searched: seq<Name>, name: Name, ghost rest: seq<Name>) returns (r: seq<Name>)
      requires path != [] && path[0] == SLASH && !FsOpen.PathTooLong(path)
      requires searched + rest == Components(path) && rest != [] && rest[0] == name
      ensures |Joined(searched)| < FsOpen.MAX_PATH
      ensures r == searched + [name] && r + rest[1..] == Components(path)
    {
      assert Components(path)[..|searched|] == searched;
      FsOpen.SearchedFits(path, |searched|);
      r := searched + [name];
    }

    // the loop of search_file; mem is what its searches get for their block pointers
    method WalkPath(path: seq<Byte>, junk: U32, mem: seq<Scratch>, ghost fs: Fs, ghost D: set<nat>) returns (r: FsOpen.Search)
      requires OnWalk(fs, FsOpen.Root, D) && FsOpen.Resolvable(fs, path, mem)
      requires path != [] && path[0] == SLASH && !FsOpen.PathTooLong(path)
      modifies this`open
      ensures State() == WithOpen(fs, open)
      ensures (open, r) == FsOpen.Walk(fs, old(open), FsOpen.Root, 0, junk, Components(path), mem, [])
    {
      ghost var result := FsOpen.Walk(fs, open, FsOpen.Root, 0, junk, Components(path), mem, []);
      var parentDir, parentInodeNo, last, searched := FsOpen.Root, 0, junk, [];
      var subPath, name := NextName(Some(path));
      var left := mem;
      ghost var rest := Components(path);
      while name != []
        invariant OnWalk(fs, parentDir, D) && parentInodeNo in D
        invariant FsOpen.Names(rest) && rest == Left(subPath, name) && searched + rest == Components(path)
        invariant FsOpen.Supplied(rest, left) && FsOpen.Guided(fs, parentDir.No(), rest, left)
        invariant result == FsOpen.Walk(fs, open, parentDir, parentInodeNo, last, rest, left, searched)
        decreases |rest|
      {
        assert name == rest[0] && name in rest && left[0] in left;
        FsOpen.StepListed(fs, parentDir.No(), rest, left, D);
        searched := Record(path, searched, name, rest);
        var e, entered := WalkTurn(parentDir, name, left[0], fs, D);
        if e == None {
          return FsOpen.Search(-1, 0, parentDir, searched);
        }
        if e.value.ftype == FT_REGULAR {
          return FsOpen.Search(e.value.no, FT_REGULAR, parentDir, searched);
        }
        if e.value.ftype == FT_DIRECTORY {
          parentInodeNo := parentDir.No();
        }
        parentDir, last := entered, e.value.no;
        subPath, name := NextName(subPath);
        rest, left := rest[1..], left[1..];
      }
      parentDir := ChangeDir(parentDir, parentInodeNo, fs);
      r := FsOpen.Search(last, FT_DIRECTORY, parentDir, searched);
    }

    // search_file; None is its assertion on the path's length
    method SearchFile(path: seq<Byte>, junk: U32, mem: seq<Scratch>, ghost D: set<nat>) returns (r: Option<FsOpen.Search>)
      requires FsOk(State(), D) && 0 in D && Opens(open, 0) > 0 && FsOpen.Resolvable(State(), path, mem)
      requires path != [] && path[0] == SLASH
      modifies this`open
      ensures State() == WithOpen(old(State()), open)
      ensures r == None <==> FsOpen.SearchFile(old(State()), old(open), path, junk, mem) == None
      ensures r == None ==> open == old(open)
      ensures r.Some? ==> FsOpen.SearchFile(old(State()), old(open), path, junk, mem) == Some((open, r.value))
    {
      ghost var fs := State();
      assert WithOpen(fs, open) == fs;
      if FsOpen.IsRootPath(path) {
        return Some(FsOpen.Search(0, FT_DIRECTORY, FsOpen.Root, []));
      }
      if |path| >= FsOpen.MAX_PATH {
        return None;
      }
      OpenElements(fs);
      FsOpen.IsTree(fs, D);
      var found := WalkPath(path, junk, mem, fs, D);
      r := Some(found);
    }

    // strrchr(path, '/') + 1
    method LastName(path: seq<Byte>) returns (name: Name)
      requires path != [] && path[0] == SLASH && path[|path| - 1] != SLASH
      ensures Components(path) != [] && name == FsOpen.Last(Components(path))
    {
      var i := |path|;
      while path[i - 1] != SLASH
        invariant 1 <= i <= |path| && SLASH !in path[i..]
        decreases i
      {
        i := i - 1;
      }
      name := path[i..];
      LastComponent(path[..i - 1], name);
      assert path == path[..i - 1] + ([SLASH] + name);
    }

    // path_depth_cnt of what search_file recorded
    method SearchDepth(searched: seq<Name>, junk: Byte, ghost cs: seq<Name>) returns (depth: nat)
      requires FsOpen.Names(cs) && searched != [] && forall c :: c in cs ==> SLASH !in c
      requires forall c :: c in searched ==> c in cs
      ensures depth == |searched|
    {
      JoinedComponents(searched);
      depth := PathDepthCnt(Joined(searched), junk);
    }

    // file_create in the directory that was found, and its close
    method CreateAndClose(h: FsOpen.Handle, name: Name, buf: bool, node: bool, form: Form, ghost D: set<nat>)
        returns (fd: int)
      requires FsOk(State(), D) && |name| <= NAME_MAX && Opens(open, h.No()) > 0
      modifies this, files, fds
      ensures (State(), fd) == FsOpen.CreateAndClose(old(State()), h, name, buf, node, form)
    {
      FindIsFirst(open, h.No(), 0);
      var p := FindOpen(h.No());
      FsOpen.StillOpen(State(), p.value, name, buf, node, form, D);
      fd := FileCreate(p.value, name, buf, node, form);
      if fd in {STOPPED, OVERRUN} {
        return;
      }
      DirClose(h);
    }

    // sys_open once search_file has returned r
    method Conclude(r: FsOpen.Search, depth: nat, name: Name, creat: bool, junk: Byte, buf: bool, node: bool, form: Form,
                    ghost fs: Fs, ghost cs: seq<Name>, ghost D: set<nat>) returns (fd: int)
      requires fs.Shape() && State() == WithOpen(fs, open) && FsOpen.HandleOk(fs, open, r.parent, D) && |name| <= NAME_MAX
      requires Opens(open, r.parent.No()) > 0
      requires FsOpen.Names(cs) && (forall c :: c in cs ==> SLASH !in c) && (forall c :: c in r.searched ==> c in cs)
      requires r.ftype != FT_DIRECTORY ==> r.searched != []
      modifies this, files, fds
      ensures (State(), fd) == FsOpen.Conclude(fs, old(open), r, depth, name, creat, buf, node, form)
    {
      if r.ftype == FT_DIRECTORY {
        DirClose(r.parent);
        return -1;
      }
      var searchDepth := SearchDepth(r.searched, junk, cs);
      if searchDepth != depth || (r.no == -1 && !creat) || (r.no != -1 && creat) {
        DirClose(r.parent);
        return -1;
      }
      if creat {
        fd := CreateAndClose(r.parent, name, buf, node, form, D);
      } else {
        fd := -1;
      }
    }

    // sys_open; the junk values are what its uninitialised buffers hold, mem what its searches get for theirs
    method SysOpen(path: seq<Byte>, flags: nat, junk: U32, junk0: Byte, junk1: Byte, mem: seq<Scratch>, buf: bool, node: bool,
                   form: Form, ghost D: set<nat>) returns (fd: int)
      requires FsOk(State(), D) && 0 in D && Opens(open, 0) > 0
      requires path != [] && path[0] == SLASH && FsOpen.Resolvable(State(), path, mem)
      modifies this, files, fds
      ensures path[|path| - 1] == SLASH ==> State() == old(State()) && fd == -1
      ensures path[|path| - 1] != SLASH ==> Components(path) != []
      ensures path[|path| - 1] != SLASH ==>
                (State(), fd) == FsOpen.SysOpen(old(State()), path, junk, mem, flags, buf, node, form)
    {
      if path[|path| - 1] == SLASH {
        return -1;
      }
      var name := LastName(path);
      if flags > 7 {
        return STOPPED;
      }
      ghost var fs := State();
      var depth := PathDepthCnt(path, junk0);
      var found := SearchFile(path, junk, mem, D);
      if found == None {
        return STOPPED;
      }
      var r := found.value;
      forall c | c in r.searched
        ensures c in Components(path)
      {
        if !FsOpen.IsRootPath(path) {
          FsOpen.WalkSearched(fs, fs.open, FsOpen.Root, 0, junk, Components(path), mem, [], c);
        }
      }
      FsOpen.SearchCounts(fs, path, junk, mem, D);
      if !FsOpen.IsRootPath(path) {
        FsOpen.WalkNames(fs, fs.open, FsOpen.Root, 0, junk, Components(path), mem, []);
      }
      fd := Conclude(r, depth, name, FsOpen.Creat(flags), junk1, buf, node, form, fs, Components(path), D);
    }
  }

  // the list of open inodes is in step with the records, and holds the directory of h and, besides, the root's
  ghost predicate Cached(fs: Fs, open: seq<OpenInode>, h: FsOpen.Handle)
    requires fs.Shape()
  {
    && NoRepeats(open) && ElementsOk(fs, open)
    && Opens(open, 0) > FsOpen.Holds(h, 0) && (h.Opened? ==> Opens(open, h.no) > 0)
  }

  ghost predicate AllLive(fs: Fs, D: set<nat>)
    requires fs.Shape()
  {
    forall n :: n in D ==> Live(fs, n) && fs.table[n].no == n
  }

  lemma StillCached(fs: Fs, open: seq<OpenInode>, h: FsOpen.Handle, no: nat)
    requires fs.Shape() && Cached(fs, open, h) && no < INODE_CNT && Live(fs, no) && fs.table[no].no == no
    ensures Cached(fs, FsOpen.DirOpen(fs, FsOpen.DirClose(open, h), no), FsOpen.Opened(no))
  {
    var closed := FsOpen.DirClose(open, h);
    if h.Opened? {
      CloseCounts(open, h.no);
      ClosedElements(fs, open, h.no);
    }
    OpenCounts(closed, no, fs.table[no]);
    OpenedElements(fs, closed, no);
  }
}
