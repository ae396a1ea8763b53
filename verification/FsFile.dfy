/** file_create (fs/file.c) and the state it works on: the directory's blocks, both bitmaps in memory and on
    disk, the inode table, the open inodes, and the two file tables. */
module FsFile {
  import opened Bits
  import opened Bytes
  import opened FsInode
  import opened FsDir
  import opened FsDirProofs

  const MAX_FILES: nat := 32      // MAX_FILE_OPEN
  const MAX_FDS: nat := 8         // MAX_FILES_OPEN_PER_PROC
  const FT_REGULAR: U32 := 1
  const FT_DIRECTORY: U32 := 2

  // an element of open_inodes with its i_open_cnts
  datatype OpenInode = OpenInode(inode: Inode, cnt: nat)

  // struct file; the inode pointer is named by the inode's number
  datatype File = File(pos: U32, flag: U32, inode: Option<U32>)

  function NoFile(): File { File(0, 0, None) }

  /** d: the disk outside the bitmaps and the inode table; bits, dbits: block bitmap in memory and on disk;
      ibits, idbits: inode bitmap likewise; table: the inode table's records; bufs: io buffers not freed. */
  datatype Fs = Fs(d: Disk, bits: seq<bool>, dbits: seq<bool>, ibits: seq<bool>, idbits: seq<bool>,
                   table: seq<Inode>, open: seq<OpenInode>, files: seq<File>, fds: seq<int>, bufs: nat, dataStart: nat)
  {
    predicate Shape() {
      && |bits| == |dbits| && 0 < dataStart && dataStart + |bits| < 0x1_0000_0000
      && |ibits| == |idbits| && |ibits| <= INODE_CNT && |table| == INODE_CNT && |files| == MAX_FILES && |fds| == MAX_FDS
      && (forall n :: 0 <= n < INODE_CNT ==> Fits(table[n]))
      && (forall k :: 0 <= k < |open| ==> Fits(open[k].inode) && open[k].inode.no < INODE_CNT)
    }
  }

  // the fields that sync_dir_entry works on, for a directory's inode
  function View(fs: Fs, i: Inode): Dir { Dir(fs.d, fs.bits, fs.dbits, i, fs.dataStart) }

  function NewInode(no: U32): (i: Inode)
    ensures Fits(i)
  {
    Inode(no, 0, seq(13, _ => 0))
  }

  // create_dir_entry on a zeroed entry, for names of at most 15 bytes
  function EntryFor(name: seq<Byte>, no: U32): (e: Entry)
    requires |name| <= 15
    ensures e.Ok()
  {
    Entry(name + seq(16 - |name|, _ => 0), no, FT_REGULAR)
  }

  // get_free_slot_in_global, from slot k on
  function FreeFile(files: seq<File>, k: nat): Option<nat>
    decreases |files| - k
  {
    if k >= |files| then None else if files[k].inode == None then Some(k) else FreeFile(files, k + 1)
  }

  // pcb_fd_install, from slot k on
  function FreeFd(fds: seq<int>, k: nat): Option<nat>
    decreases |fds| - k
  {
    if k >= |fds| then None else if fds[k] == -1 then Some(k) else FreeFd(fds, k + 1)
  }

  function InstalledAt(fds: seq<int>): int {
    match FreeFd(fds, 3)
    case None => -1
    case Some(k) => k
  }

  function Installed(fds: seq<int>, f: nat): (r: seq<int>)
    ensures |r| == |fds|
  {
    var k := InstalledAt(fds);
    if 0 <= k < |fds| then fds[k := f] else fds
  }

  /** The forms of the source that are parameters: scan is sync_dir_entry's; narrow passes the inode number through
      a uint8_t in inode_sync, as the source does; tail are the bits that the inode bitmap has in memory behind
      its own sector, because mount_partition gives it the block bitmap's length. */
  datatype Form = Form(scan: Scan, narrow: bool, tail: seq<bool>)

  // everything sync_dir_entry succeeded for goes to disk, and the new inode is opened
  function Commit(fs: Fs, p: nat, s1: Dir, no: nat, f: nat, narrow: bool): (r: (Fs, int))
    requires fs.Shape() && p < |fs.open| && Fits(s1.inode) && no < |fs.ibits| && f < MAX_FILES
  {
    var ibits := SetRun(fs.ibits, no, 1, true);
    var parent := fs.open[p];
    (Fs(s1.d, s1.bits, s1.dbits, ibits, SyncBits(ibits, fs.idbits, no),
        fs.table[Target(parent.inode.no, narrow) := s1.inode][Target(no, narrow) := NewInode(no)],
        [OpenInode(NewInode(no), 1)] + fs.open[p := OpenInode(s1.inode, parent.cnt)],
        fs.files[f := File(0, FT_REGULAR, Some(no))], Installed(fs.fds, f), fs.bufs, fs.dataStart),
     InstalledAt(fs.fds))
  }

  // sync_dir_entry as called by file_create
  function Insertion(fs: Fs, p: nat, name: seq<Byte>, no: U32, scan: Scan): (r: Outcome)
    requires fs.Shape() && p < |fs.open| && |name| <= 15
    ensures r.s.Shape() && r.s.inode.no == fs.open[p].inode.no && r.s.dataStart == fs.dataStart
  {
    SyncDirEntry(View(fs, fs.open[p].inode), EntryFor(name, no), scan)
  }

  // rollback of a failed insertion
  function RolledBack(fs: Fs, p: nat, s1: Dir, f: nat): Fs
    requires p < |fs.open| && f < |fs.files|
  {
    Fs(s1.d, s1.bits, s1.dbits, fs.ibits, fs.idbits, fs.table, fs.open[p := OpenInode(s1.inode, fs.open[p].cnt)],
       fs.files[f := NoFile()], fs.fds, fs.bufs, fs.dataStart)
  }

  // the descriptor of a call in which an assertion stopped the kernel
  const STOPPED: int := -2

  // and of one that was given an inode number from behind the inode table, where the model ends
  const OVERRUN: int := -3

  // sync_dir_entry's assertion: the directory's size is that of whole entries
  predicate WholeEntries(i: Inode) { i.size % ENTRY == 0 }

  // the state in which file_create calls sync_dir_entry
  function Entering(fs: Fs, no: U32, f: nat): Fs
    requires f < |fs.files|
  {
    Fs(fs.d, fs.bits, fs.dbits, SetRun(fs.ibits, no, 1, true), fs.idbits, fs.table, fs.open,
       fs.files[f := File(0, FT_REGULAR, Some(no))], fs.fds, fs.bufs + 1, fs.dataStart)
  }

  // file_create once it has inode number no and slot f of the file table
  function CreateIn(fs: Fs, p: nat, name: seq<Byte>, no: U32, f: nat, form: Form): (r: (Fs, int))
    requires fs.Shape() && p < |fs.open| && |name| <= 15 && no < |fs.ibits| && f < MAX_FILES
  {
    if !WholeEntries(fs.open[p].inode) then (Entering(fs, no, f), STOPPED)
    else
      var r := Insertion(fs, p, name, no, form.scan);
      if r.Done? then Commit(fs, p, r.s, no, f, form.narrow) else (RolledBack(fs, p, r.s, f), -1)
  }

  // file_create in the directory that is open as element p; buf and node say whether the two sys_malloc succeed
  function FileCreate(fs: Fs, p: nat, name: seq<Byte>, buf: bool, node: bool, form: Form): (r: (Fs, int))
    requires fs.Shape() && p < |fs.open| && |name| <= 15
  {
    var no, f := Fit(fs.ibits + form.tail, 1), FreeFile(fs.files, 3);
    if !buf then (fs, -1)
    else if no.None? then (Leftover(fs, fs.dbits, fs.bufs + 1), -1)
    else if no.value >= |fs.ibits| then (Leftover(fs, fs.dbits, fs.bufs + 1), OVERRUN)
    else if !node || f.None? || f.value >= MAX_FILES then (fs, -1)
    else CreateIn(fs, p, name, no.value, f.value, form)
  }

  // the state with another block bitmap on disk and other io buffers
  function Leftover(fs: Fs, dbits: seq<bool>, bufs: nat): Fs {
    Fs(fs.d, fs.bits, dbits, fs.ibits, fs.idbits, fs.table, fs.open, fs.files, fs.fds, bufs, fs.dataStart)
  }

  // ---------- consistency ----------

  function UsedCount(es: seq<Entry>): nat {
    if es == [] then 0 else (if es[0].Unused() then 0 else 1) + UsedCount(es[1..])
  }

  predicate Live(fs: Fs, n: nat) { n < |fs.ibits| && fs.ibits[n] }

  // the blocks of inode n
  function OwnedBlocks(fs: Fs, n: nat): set<U32>
    requires fs.Shape() && n < INODE_CNT
  {
    OwnedBy(View(fs, fs.table[n]))
  }

  function EntriesOf(fs: Fs, n: nat): (es: seq<Entry>)
    requires fs.Shape() && n < INODE_CNT
    ensures forall e :: e in es ==> e.Ok()
  {
    View(fs, fs.table[n]).Listing()
  }

  // used blocks of every live inode are marked, in the data region, and its own
  ghost predicate BlocksOk(fs: Fs) {
    && fs.Shape()
    && (forall n: nat :: Live(fs, n) ==> fs.table[n].no == n && DirOk(View(fs, fs.table[n])))
    && (forall m: nat, n: nat :: Live(fs, m) && Live(fs, n) && m != n ==> OwnedBlocks(fs, m) !! OwnedBlocks(fs, n))
  }

  // a used entry names a live inode, as a file or a directory of D; an unused one has no name
  ghost predicate EntryOk(fs: Fs, e: Entry, D: set<nat>) {
    if e.Unused() then |e.name| > 0 && e.name[0] == 0
    else Live(fs, e.no) && e.ftype in {FT_REGULAR, FT_DIRECTORY} && (e.ftype == FT_DIRECTORY ==> e.no in D)
  }

  ghost predicate EntriesOk(fs: Fs, es: seq<Entry>, D: set<nat>) {
    forall e :: e in es ==> EntryOk(fs, e, D)
  }

  ghost predicate DirectoryOk(fs: Fs, n: nat, D: set<nat>)
    requires fs.Shape() && n < INODE_CNT
  {
    fs.table[n].size == ENTRY * UsedCount(EntriesOf(fs, n)) && EntriesOk(fs, EntriesOf(fs, n), D)
  }

  ghost predicate DirectoriesOk(fs: Fs, D: set<nat>)
    requires fs.Shape()
  {
    forall n :: n in D ==> Live(fs, n) && DirectoryOk(fs, n, D)
  }

  // each inode is open at most once, is live, and is the same in memory and on disk
  ghost predicate OpenOk(fs: Fs)
    requires fs.Shape()
  {
    && (forall j, k :: 0 <= j < k < |fs.open| ==> fs.open[j].inode.no != fs.open[k].inode.no)
    && (forall k :: 0 <= k < |fs.open| ==> OpenAt(fs, k))
  }

  ghost predicate OpenAt(fs: Fs, k: nat)
    requires fs.Shape() && k < |fs.open|
  {
    var o := fs.open[k];
    Live(fs, o.inode.no) && fs.table[o.inode.no] == o.inode && o.cnt > 0
  }

  // on disk every block taken in memory is marked, and the inode bitmap is that in memory
  ghost predicate MapsOk(fs: Fs)
    requires fs.Shape()
  {
    fs.idbits == fs.ibits && Covers(fs.bits, fs.dbits)
  }

  // a free slot of the file table is zero
  ghost predicate FilesOk(fs: Fs)
    requires fs.Shape()
  {
    forall f :: 3 <= f < MAX_FILES && fs.files[f].inode == None ==> fs.files[f] == NoFile()
  }

  ghost predicate FsOk(fs: Fs, D: set<nat>) {
    BlocksOk(fs) && DirectoriesOk(fs, D) && OpenOk(fs) && MapsOk(fs) && FilesOk(fs)
  }
}
