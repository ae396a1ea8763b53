/** The consistency of the file system over file_create. */
module FsFileKeeps {
  import opened Bits
  import opened Bytes
  import opened FsInode
  import opened FsDir
  import opened FsDirProofs
  import opened FsDirLaws
  import opened FsFile
  import opened FsFileProofs

  // what a committed creation leaves: par is the directory's inode, s1 its fields afterwards, no the new inode
  ghost predicate Committed(fs: Fs, fs1: Fs, par: nat, s1: Dir, no: nat) {
    && fs.Shape() && fs1.Shape() && par < INODE_CNT && no < |fs.ibits| && !Live(fs, no)
    && fs1.d == s1.d && fs1.bits == s1.bits && fs1.dbits == s1.dbits && fs1.dataStart == s1.dataStart
    && (forall n: nat :: n < INODE_CNT ==>
          fs1.table[n] == if n == no then NewInode(no) else if n == par then s1.inode else fs.table[n])
    && (forall n: nat :: Live(fs1, n) <==> Live(fs, n) || n == no)
  }

  ghost predicate DirInserted(fs: Fs, par: nat, s1: Dir, e: Entry, more: set<U32>) {
    fs.Shape() && par < INODE_CNT && Inserted(View(fs, fs.table[par]), s1, e, more) && DirOk(s1)
  }

  // inode n after the commit
  lemma InodeAfter(fs: Fs, fs1: Fs, par: nat, s1: Dir, no: nat, e: Entry, more: set<U32>, n: nat)
    requires BlocksOk(fs) && Live(fs, par) && Committed(fs, fs1, par, s1, no) && DirInserted(fs, par, s1, e, more)
    requires Live(fs1, n)
    ensures fs1.table[n].no == n && DirOk(View(fs1, fs1.table[n]))
    ensures OwnedBlocks(fs1, n) == if n == no then {} else if n == par then OwnedBy(s1) else OwnedBlocks(fs, n)
    ensures n != par ==> OwnedBlocks(fs1, n) !! OwnedBy(s1)
  {
    var s := View(fs, fs.table[par]);
    if n == no {
      BlankOk(s1, no);
      assert View(fs1, fs1.table[n]) == SeenBy(s1, NewInode(no));
    } else if n == par {
      assert View(fs1, fs1.table[n]) == s1;
    } else {
      assert OwnedBlocks(fs, n) !! OwnedBlocks(fs, par);
      OtherView(s, s1, e, more, fs.table[n]);
      OtherOk(s, s1, e, more, fs.table[n]);
      assert View(fs1, fs1.table[n]) == SeenBy(s1, fs.table[n]);
    }
  }

  lemma BlocksAfter(fs: Fs, fs1: Fs, par: nat, s1: Dir, no: nat, e: Entry, more: set<U32>)
    requires BlocksOk(fs) && Live(fs, par) && Committed(fs, fs1, par, s1, no) && DirInserted(fs, par, s1, e, more)
    ensures BlocksOk(fs1)
  {
    forall n: nat | Live(fs1, n)
      ensures fs1.table[n].no == n && DirOk(View(fs1, fs1.table[n]))
    {
      InodeAfter(fs, fs1, par, s1, no, e, more, n);
    }
    forall m: nat, n: nat | Live(fs1, m) && Live(fs1, n) && m != n
      ensures OwnedBlocks(fs1, m) !! OwnedBlocks(fs1, n)
    {
      InodeAfter(fs, fs1, par, s1, no, e, more, m);
      InodeAfter(fs, fs1, par, s1, no, e, more, n);
    }
  }

  // the listing of directory n after the commit
  lemma ListingAfter(fs: Fs, fs1: Fs, par: nat, s1: Dir, no: nat, e: Entry, more: set<U32>, n: nat)
    requires BlocksOk(fs) && Live(fs, par) && Committed(fs, fs1, par, s1, no) && DirInserted(fs, par, s1, e, more)
    requires Live(fs, n)
    ensures n == par ==> InsertedInto(EntriesOf(fs, par), EntriesOf(fs1, par), e)
    ensures n != par ==> EntriesOf(fs1, n) == EntriesOf(fs, n) && fs1.table[n] == fs.table[n]
  {
    if n == par {
      assert View(fs1, fs1.table[n]) == s1;
    } else {
      assert OwnedBlocks(fs, n) !! OwnedBlocks(fs, par);
      OtherView(View(fs, fs.table[par]), s1, e, more, fs.table[n]);
      assert View(fs1, fs1.table[n]) == SeenBy(s1, fs.table[n]);
    }
  }

  // entries that were fine stay fine, and so is the new one
  lemma EntriesAfter(fs: Fs, fs1: Fs, es: seq<Entry>, es1: seq<Entry>, e: Entry, D: set<nat>)
    requires EntriesOk(fs, es, D) && InsertedInto(es, es1, e) && e.ftype == FT_REGULAR
    requires forall n: nat :: Live(fs1, n) <==> Live(fs, n) || n == e.no
    ensures EntriesOk(fs1, es1, D) && UsedCount(es1) == UsedCount(es) + 1
  {
    UsedAfterInsert(es, es1, e);
    forall x | x in es1
      ensures EntryOk(fs1, x, D)
    {
      MembersAfterInsert(es, es1, e, x);
    }
  }

  // the directory itself
  lemma ParentAfter(fs: Fs, fs1: Fs, par: nat, s1: Dir, e: Entry, more: set<U32>, D: set<nat>)
    requires BlocksOk(fs) && Live(fs, par) && DirectoryOk(fs, par, D) && e.ftype == FT_REGULAR
    requires Committed(fs, fs1, par, s1, e.no) && DirInserted(fs, par, s1, e, more)
    ensures DirectoryOk(fs1, par, D)
  {
    ListingAfter(fs, fs1, par, s1, e.no, e, more, par);
    EntriesAfter(fs, fs1, EntriesOf(fs, par), EntriesOf(fs1, par), e, D);
    SizeFitsAt(fs, par);
    SizeGrew(fs, fs1, par, s1, e, more);
    NoWrap(fs.table[par].size, UsedCount(EntriesOf(fs, par)));
  }

  lemma SizeFitsAt(fs: Fs, n: nat)
    requires fs.Shape() && n < INODE_CNT
    ensures ENTRY * (UsedCount(EntriesOf(fs, n)) + 1) < 0x1_0000_0000
  {
    SizeFits(View(fs, fs.table[n]));
  }

  lemma SizeGrew(fs: Fs, fs1: Fs, par: nat, s1: Dir, e: Entry, more: set<U32>)
    requires Live(fs, par) && Committed(fs, fs1, par, s1, e.no) && DirInserted(fs, par, s1, e, more)
    ensures fs1.table[par].size == Grown(fs.table[par].size)
  {
    assert fs1.table[par] == s1.inode;
  }

  lemma NoWrap(size: U32, used: nat)
    requires size == ENTRY * used && ENTRY * (used + 1) < 0x1_0000_0000
    ensures Grown(size) == ENTRY * (used + 1)
  {
  }

  // another directory
  lemma OtherAfter(fs: Fs, fs1: Fs, par: nat, s1: Dir, e: Entry, more: set<U32>, D: set<nat>, n: nat)
    requires BlocksOk(fs) && Live(fs, par) && Live(fs, n) && n != par && DirectoryOk(fs, n, D)
    requires Committed(fs, fs1, par, s1, e.no) && DirInserted(fs, par, s1, e, more)
    ensures DirectoryOk(fs1, n, D)
  {
    ListingAfter(fs, fs1, par, s1, e.no, e, more, n);
  }

  lemma DirectoriesAfter(fs: Fs, fs1: Fs, par: nat, s1: Dir, e: Entry, more: set<U32>, D: set<nat>)
    requires BlocksOk(fs) && DirectoriesOk(fs, D) && par in D && e.ftype == FT_REGULAR
    requires Committed(fs, fs1, par, s1, e.no) && DirInserted(fs, par, s1, e, more)
    ensures DirectoriesOk(fs1, D)
  {
    forall n | n in D
      ensures Live(fs1, n) && DirectoryOk(fs1, n, D)
    {
      if n == par {
        ParentAfter(fs, fs1, par, s1, e, more, D);
      } else {
        OtherAfter(fs, fs1, par, s1, e, more, D, n);
      }
    }
  }

  // ---------- the other parts of a commit ----------

  lemma SyncWhole(bits: seq<bool>, dbits: seq<bool>, i: nat)
    requires |bits| == |dbits| <= 4096 && i < |bits|
    ensures SyncBits(bits, dbits, i) == bits
  {
    assert SectorStart(i) == 0;
  }

  lemma CommitShape(fs: Fs, p: nat, s1: Dir, no: nat, f: nat, narrow: bool)
    requires fs.Shape() && p < |fs.open| && s1.Shape() && s1.inode.no == fs.open[p].inode.no && s1.dataStart == fs.dataStart
    requires no < |fs.ibits| && 3 <= f < MAX_FILES
    ensures Commit(fs, p, s1, no, f, narrow).0.Shape()
  {
  }

  lemma CommitIsCommitted(fs: Fs, p: nat, s1: Dir, no: nat, f: nat, narrow: bool)
    requires fs.Shape() && p < |fs.open| && s1.Shape() && s1.inode.no == fs.open[p].inode.no && s1.dataStart == fs.dataStart
    requires no < |fs.ibits| && !fs.ibits[no] && 3 <= f < MAX_FILES && Live(fs, fs.open[p].inode.no)
    requires narrow ==> no < 256 && s1.inode.no < 256
    ensures Committed(fs, Commit(fs, p, s1, no, f, narrow).0, s1.inode.no, s1, no)
  {
    CommitShape(fs, p, s1, no, f, narrow);
  }

  lemma OpenAfter(fs: Fs, fs1: Fs, p: nat, s1: Dir, no: nat)
    requires fs.Shape() && OpenOk(fs) && p < |fs.open| && Committed(fs, fs1, fs.open[p].inode.no, s1, no)
    requires s1.inode.no == fs.open[p].inode.no
    requires fs1.open == [OpenInode(NewInode(no), 1)] + fs.open[p := OpenInode(s1.inode, fs.open[p].cnt)]
    ensures OpenOk(fs1)
  {
    forall k: nat | k < |fs1.open|
      ensures fs1.open[k].inode.no == (if k == 0 then no else fs.open[k - 1].inode.no) && OpenAt(fs1, k)
    {
      if k > 0 {
        assert OpenAt(fs, k - 1);
        if k - 1 != p {
          assert fs.open[k - 1].inode.no != fs.open[p].inode.no;
        }
      }
    }
    forall j, k | 0 <= j < k < |fs1.open|
      ensures fs1.open[j].inode.no != fs1.open[k].inode.no
    {
      assert OpenAt(fs, k - 1);
    }
  }

  lemma InodeMapAfter(fs: Fs, no: nat)
    requires fs.Shape() && fs.idbits == fs.ibits && no < |fs.ibits|
    ensures var ibits := SetRun(fs.ibits, no, 1, true); SyncBits(ibits, fs.idbits, no) == ibits
  {
    var ibits := SetRun(fs.ibits, no, 1, true);
    SyncWhole(ibits, fs.idbits, no);
  }

  // the fields of a commit that are lists and tables in memory
  ghost predicate Entered(fs: Fs, fs1: Fs, p: nat, s1: Dir, no: U32, f: nat)
    requires p < |fs.open| && f < |fs.files|
  {
    && fs1.open == [OpenInode(NewInode(no), 1)] + fs.open[p := OpenInode(s1.inode, fs.open[p].cnt)]
    && fs1.files == fs.files[f := File(0, FT_REGULAR, Some(no))]
    && fs1.idbits == fs1.ibits
  }

  lemma CommitParts(fs: Fs, p: nat, s1: Dir, no: U32, f: nat, narrow: bool) returns (fs1: Fs)
    requires fs.Shape() && fs.idbits == fs.ibits && p < |fs.open| && s1.Shape() && s1.inode.no == fs.open[p].inode.no
    requires s1.dataStart == fs.dataStart
    requires no < |fs.ibits| && !fs.ibits[no] && 3 <= f < MAX_FILES && Live(fs, fs.open[p].inode.no)
    ensures fs1 == Commit(fs, p, s1, no, f, narrow).0 && fs1.Shape() && Entered(fs, fs1, p, s1, no, f)
    ensures !narrow || (no < 256 && s1.inode.no < 256) ==> Committed(fs, fs1, s1.inode.no, s1, no)
    ensures narrow && no >= 256 ==> fs1.table[no % 256].no == no
    ensures narrow && no < 256 <= s1.inode.no ==> fs1.table[s1.inode.no] == fs.table[s1.inode.no]
    ensures forall n: nat :: Live(fs1, n) <==> Live(fs, n) || n == no
  {
    fs1 := Commit(fs, p, s1, no, f, narrow).0;
    CommitShape(fs, p, s1, no, f, narrow);
    InodeMapAfter(fs, no);
    if !narrow || (no < 256 && s1.inode.no < 256) {
      CommitIsCommitted(fs, p, s1, no, f, narrow);
    }
  }

  // a successful creation with inode numbers that reach their own records
  lemma CommitKeeps(fs: Fs, fs1: Fs, p: nat, s1: Dir, e: Entry, more: set<U32>, f: nat, D: set<nat>)
    requires FsOk(fs, D) && p < |fs.open| && fs.open[p].inode.no in D && 3 <= f < MAX_FILES
    requires e.ftype == FT_REGULAR && s1.inode.no == fs.open[p].inode.no
    requires Committed(fs, fs1, s1.inode.no, s1, e.no) && DirInserted(fs, s1.inode.no, s1, e, more)
    requires Entered(fs, fs1, p, s1, e.no, f)
    ensures FsOk(fs1, D)
  {
    BlocksAfter(fs, fs1, s1.inode.no, s1, e.no, e, more);
    DirectoriesAfter(fs, fs1, s1.inode.no, s1, e, more, D);
    OpenAfter(fs, fs1, p, s1, e.no);
    MapsAfter(fs, fs1, s1, e, more);
    FilesAfter(fs, fs1, p, s1, e.no, f);
  }

  lemma MapsAfter(fs: Fs, fs1: Fs, s1: Dir, e: Entry, more: set<U32>)
    requires fs.Shape() && MapsOk(fs) && Committed(fs, fs1, s1.inode.no, s1, e.no)
    requires DirInserted(fs, s1.inode.no, s1, e, more) && fs1.idbits == fs1.ibits
    ensures MapsOk(fs1)
  {
  }

  lemma FilesAfter(fs: Fs, fs1: Fs, p: nat, s1: Dir, no: U32, f: nat)
    requires fs.Shape() && fs1.Shape() && FilesOk(fs) && p < |fs.open| && 3 <= f < MAX_FILES && Entered(fs, fs1, p, s1, no, f)
    ensures FilesOk(fs1)
  {
  }

  // ---------- file_create ----------

  lemma {:induction false} FreeFileIsFirst(files: seq<File>, k: nat)
    ensures FreeFile(files, k).Some? <==> exists j :: k <= j < |files| && files[j].inode == None
    ensures FreeFile(files, k).Some? ==>
              k <= FreeFile(files, k).value < |files| && files[FreeFile(files, k).value].inode == None
              && forall j :: k <= j < FreeFile(files, k).value ==> files[j].inode != None
    decreases |files| - k
  {
    if k < |files| && files[k].inode != None {
      FreeFileIsFirst(files, k + 1);
    }
  }

  lemma {:induction false} FreeFdIsFirst(fds: seq<int>, k: nat)
    ensures FreeFd(fds, k).Some? <==> exists j :: k <= j < |fds| && fds[j] == -1
    ensures FreeFd(fds, k).Some? ==>
              k <= FreeFd(fds, k).value < |fds| && fds[FreeFd(fds, k).value] == -1
              && forall j :: k <= j < FreeFd(fds, k).value ==> fds[j] != -1
    decreases |fds| - k
  {
    if k < |fds| && fds[k] != -1 {
      FreeFdIsFirst(fds, k + 1);
    }
  }

  ghost predicate InodeFree(fs: Fs) { OneFree(fs.ibits) }

  ghost predicate FileFree(fs: Fs) { exists k :: 3 <= k < |fs.files| && fs.files[k].inode == None }

  // file_create gets to sync_dir_entry
  ghost predicate Gets(fs: Fs, buf: bool, node: bool) { buf && node && InodeFree(fs) && FileFree(fs) }

  // it is given an inode number from behind the inode table
  ghost predicate Overruns(fs: Fs, buf: bool, form: Form) { buf && !InodeFree(fs) && OneFree(form.tail) }

  lemma ScanIff(bits: seq<bool>)
    ensures Fit(bits, 1).Some? <==> OneFree(bits)
    ensures Fit(bits, 1).Some? ==> Fit(bits, 1).value < |bits|
  {
    FirstFit(bits, 1);
    if Fit(bits, 1).Some? {
      var k := Fit(bits, 1).value;
      assert !bits[k];
    }
    if i :| 0 <= i < |bits| && !bits[i] {
      assert ClearRun(bits, i, 1);
    }
  }

  // The inode bitmap as mounted hands out the same number as its first sector alone, exactly while an inode is
  // free; then it fails, exactly unless a bit behind that sector is clear.
  lemma LongScan(ibits: seq<bool>, tail: seq<bool>)
    ensures var no := Fit(ibits + tail, 1);
            && (OneFree(ibits) <==> no.Some? && no.value < |ibits|)
            && (OneFree(ibits) ==> no == Fit(ibits, 1))
            && (!OneFree(ibits) ==> (no.Some? <==> OneFree(tail)))
  {
    var all := ibits + tail;
    ScanIff(all);
    ScanIff(ibits);
    if OneFree(ibits) {
      var no := Fit(ibits, 1).value;
      FirstClear(ibits, no);
      forall n | 0 <= n < no
        ensures !ClearRun(all, n, 1)
      {
        assert all[n];
      }
      FitUnique(all, 1, no);
    } else {
      if j :| 0 <= j < |tail| && !tail[j] {
        assert !all[|ibits| + j];
      }
      if k :| 0 <= k < |all| && !all[k] {
        assert k >= |ibits| && !tail[k - |ibits|];
      }
      if Fit(all, 1).Some? {
        FirstClear(all, Fit(all, 1).value);
      }
    }
  }

  lemma FirstClear(bits: seq<bool>, no: nat)
    requires Fit(bits, 1) == Some(no)
    ensures no < |bits| && !bits[no] && forall n :: 0 <= n < no ==> bits[n]
  {
    FirstFit(bits, 1);
    forall n | 0 <= n < no
      ensures bits[n]
    {
      assert !ClearRun(bits, n, 1);
    }
  }

  // the creation gets through: no is the new inode, f the slot in the file table
  ghost predicate Creates(fs: Fs, p: nat, name: seq<Byte>, buf: bool, node: bool, form: Form, no: U32, f: nat)
    requires fs.Shape() && p < |fs.open| && |name| <= 15
  {
    && buf && node && Fit(fs.ibits, 1) == Some(no) && no < |fs.ibits| && FreeFile(fs.files, 3) == Some(f) && f < MAX_FILES
    && WholeEntries(fs.open[p].inode) && Insertion(fs, p, name, no, form.scan).Done?
  }

  // what file_create returns then
  lemma CreationIsCommit(fs: Fs, p: nat, name: seq<Byte>, buf: bool, node: bool, form: Form, no: U32, f: nat) returns (s1: Dir)
    requires fs.Shape() && p < |fs.open| && |name| <= 15 && Creates(fs, p, name, buf, node, form, no, f)
    ensures s1 == Insertion(fs, p, name, no, form.scan).s && s1.Shape()
    ensures FileCreate(fs, p, name, buf, node, form) == Commit(fs, p, s1, no, f, form.narrow)
    ensures 3 <= f && !fs.ibits[no] && forall n :: 0 <= n < no ==> fs.ibits[n]
  {
    s1 := Insertion(fs, p, name, no, form.scan).s;
    FreeFileIsFirst(fs.files, 3);
    FirstClear(fs.ibits, no);
    ScanIff(fs.ibits);
    LongScan(fs.ibits, form.tail);
    assert FileCreate(fs, p, name, buf, node, form) == CreateIn(fs, p, name, no, f, form);
  }

  // ---------- when a creation keeps the file system consistent ----------

  // inode_sync reaches the records of the directory and of the new inode
  ghost predicate NumbersReach(fs: Fs, p: nat, narrow: bool)
    requires p < |fs.open|
  {
    narrow ==> fs.open[p].inode.no < 256 && forall no :: Fit(fs.ibits, 1) == Some(no) ==> no < 256
  }

  // an overwritten index table had no used entry, and there was none if its first block cannot be had
  ghost predicate Spares(s: Dir, scan: Scan)
    requires s.Shape()
  {
    Overwrites(s, scan) ==>
      if TwoFree(s.bits) then Used(Indexed(s)) == [] else OneFree(s.bits) ==> s.inode.sectors[12] == 0
  }

  // the form of the source does what it should for this creation
  ghost predicate Sound(fs: Fs, p: nat, buf: bool, node: bool, form: Form)
    requires fs.Shape() && p < |fs.open|
  {
    var s := View(fs, fs.open[p].inode);
    Gets(fs, buf, node) ==> Spares(s, form.scan) && (Room(s, form.scan) ==> NumbersReach(fs, p, form.narrow))
  }

  // the state with another inode of the directory in memory, and on disk as well
  function WithParent(fs: Fs, p: nat, i: Inode): Fs
    requires p < |fs.open|
  {
    Fs(fs.d, fs.bits, fs.dbits, fs.ibits, fs.idbits, fs.table, fs.open[p := OpenInode(i, fs.open[p].cnt)], fs.files, fs.fds,
       fs.bufs, fs.dataStart)
  }

  function Replaced(fs: Fs, p: nat, i: Inode): Fs
    requires p < |fs.open| && i.no < |fs.table|
  {
    Fs(fs.d, fs.bits, fs.dbits, fs.ibits, fs.idbits, fs.table[i.no := i], fs.open[p := OpenInode(i, fs.open[p].cnt)], fs.files,
       fs.fds, fs.bufs, fs.dataStart)
  }

  // a directory without used entries behind its direct blocks may lose its index table
  lemma CutKeeps(fs: Fs, p: nat, D: set<nat>) returns (fs1: Fs)
    requires FsOk(fs, D) && p < |fs.open| && fs.open[p].inode.no in D && Used(Indexed(View(fs, fs.open[p].inode))) == []
    ensures fs1 == Replaced(fs, p, Cut(View(fs, fs.open[p].inode)).inode) && FsOk(fs1, D)
  {
    var par := fs.open[p].inode.no;
    var s := View(fs, fs.open[p].inode);
    assert OpenAt(fs, p) && fs.table[par] == fs.open[p].inode;
    fs1 := Replaced(fs, p, Cut(s).inode);
    assert fs1.Shape();
    assert forall n: nat :: Live(fs1, n) <==> Live(fs, n);
    assert forall n: nat :: n < INODE_CNT ==> View(fs1, fs1.table[n]) == if n == par then Cut(s) else View(fs, fs.table[n]);
    CutBlocksOk(fs, fs1, par, s);
    CutDirectory(fs, fs1, par, s, D);
    CutOpen(fs, fs1, p, Cut(s).inode);
  }

  lemma CutBlocksOk(fs: Fs, fs1: Fs, par: nat, s: Dir)
    requires BlocksOk(fs) && fs1.Shape() && Live(fs, par) && s == View(fs, fs.table[par])
    requires forall n: nat :: n < INODE_CNT ==> View(fs1, fs1.table[n]) == if n == par then Cut(s) else View(fs, fs.table[n])
    requires forall n: nat :: Live(fs1, n) <==> Live(fs, n)
    ensures BlocksOk(fs1)
  {
    CutOk(s);
    forall n: nat | Live(fs, n)
      ensures fs1.table[n].no == n && DirOk(View(fs1, fs1.table[n])) && OwnedBlocks(fs1, n) <= OwnedBlocks(fs, n)
    {
      assert View(fs1, fs1.table[n]).inode == fs1.table[n];
    }
  }

  lemma CutOpen(fs: Fs, fs1: Fs, p: nat, i: Inode)
    requires fs.Shape() && fs1.Shape() && OpenOk(fs) && p < |fs.open| && i.no == fs.open[p].inode.no < |fs.table|
    requires fs1 == Replaced(fs, p, i)
    ensures OpenOk(fs1)
  {
    forall k: nat | k < |fs.open|
      ensures fs1.open[k].inode.no == fs.open[k].inode.no && OpenAt(fs1, k)
    {
      assert OpenAt(fs, k) && OpenAt(fs, p);
      if k != p {
        assert fs.open[k].inode.no != fs.open[p].inode.no;
      }
    }
  }

  lemma CutDirectory(fs: Fs, fs1: Fs, par: nat, s: Dir, D: set<nat>)
    requires fs.Shape() && fs1.Shape() && DirectoriesOk(fs, D) && par in D && par < INODE_CNT && s == View(fs, fs.table[par])
    requires Used(Indexed(s)) == [] && View(fs1, fs1.table[par]) == Cut(s)
    requires forall n: nat :: n < INODE_CNT && n != par ==> View(fs1, fs1.table[n]) == View(fs, fs.table[n])
    requires forall n: nat :: Live(fs1, n) <==> Live(fs, n)
    ensures DirectoriesOk(fs1, D)
  {
    CutListing(s);
    forall n | n in D
      ensures Live(fs1, n) && DirectoryOk(fs1, n, D)
    {
      assert DirectoryOk(fs, n, D);
      if n == par {
        assert fs1.table[par].size == s.inode.size;
      } else {
        assert fs1.table[n] == View(fs1, fs1.table[n]).inode == fs.table[n];
      }
    }
  }

  lemma CutListing(s: Dir)
    requires s.Shape()
    ensures UsedCount(Cut(s).Listing()) + |Used(Indexed(s))| == UsedCount(s.Listing())
    ensures forall x :: x in Cut(s).Listing() ==> x in s.Listing()
  {
    var direct := s.inode.sectors[..DIRECT];
    ListingSplit(s);
    ListingSplit(Cut(s));
    assert Cut(s).inode.sectors[..DIRECT] == direct;
    assert Cut(s).Listing() == Slots(s.d, direct);
    CountsUsed(s.Listing());
    CountsUsed(Cut(s).Listing());
  }

  // the directory's own inode or the new one cannot be written to its record
  lemma NarrowBreaks(fs: Fs, fs1: Fs, p: nat, s1: Dir, no: U32, f: nat, D: set<nat>)
    requires fs.Shape() && fs1.Shape() && p < |fs.open| && f < MAX_FILES && Entered(fs, fs1, p, s1, no, f)
    requires s1.inode.no == fs.open[p].inode.no && s1.inode.size == Grown(fs.open[p].inode.size)
    requires fs.table[s1.inode.no] == fs.open[p].inode
    requires no >= 256 ==> fs1.table[no % 256].no == no && Live(fs1, no % 256)
    requires no < 256 ==> fs1.table[s1.inode.no] == fs.table[s1.inode.no]
    ensures !FsOk(fs1, D)
  {
    if no < 256 {
      assert fs1.open[p + 1].inode == s1.inode;
      assert Grown(fs.open[p].inode.size) != fs.open[p].inode.size;
      assert !OpenAt(fs1, p + 1);
    }
  }

  // used entries were lost, but the size counts them
  lemma LossBreaks(fs: Fs, fs1: Fs, par: nat, s1: Dir, e: Entry, more: set<U32>, D: set<nat>)
    requires fs.Shape() && fs1.Shape() && par in D && par < INODE_CNT && DirectoryOk(fs, par, D) && fs1.table[par] == s1.inode
    requires Inserted(Cut(View(fs, fs.table[par])), s1, e, more) && !e.Unused() && View(fs1, s1.inode) == s1
    requires Used(Indexed(View(fs, fs.table[par]))) != []
    ensures !FsOk(fs1, D)
  {
    var s := View(fs, fs.table[par]);
    CutListing(s);
    UsedAfterInsert(Cut(s).Listing(), s1.Listing(), e);
    SizeFits(s);
    NoWrap(s.inode.size, UsedCount(s.Listing()));
    assert EntriesOf(fs1, par) == s1.Listing();
    assert !DirectoryOk(fs1, par, D);
  }

  lemma CommitIff(fs: Fs, p: nat, s1: Dir, e: Entry, more: set<U32>, f: nat, form: Form, D: set<nat>)
    requires FsOk(fs, D) && p < |fs.open| && fs.open[p].inode.no in D && 3 <= f < MAX_FILES && e.ftype == FT_REGULAR
    requires Fit(fs.ibits, 1) == Some(e.no) && e.no < |fs.ibits| && !fs.ibits[e.no] && forall n :: 0 <= n < e.no ==> fs.ibits[n]
    requires Inserted(Base(View(fs, fs.open[p].inode), form.scan), s1, e, more) && DirOk(s1)
    ensures FsOk(Commit(fs, p, s1, e.no, f, form.narrow).0, D) <==>
            && NumbersReach(fs, p, form.narrow)
            && (Overwrites(View(fs, fs.open[p].inode), form.scan) ==> Used(Indexed(View(fs, fs.open[p].inode))) == [])
  {
    assert OpenAt(fs, p);
    var s := View(fs, fs.open[p].inode);
    var fs1 := CommitParts(fs, p, s1, e.no, f, form.narrow);
    if !NumbersReach(fs, p, form.narrow) {
      NarrowBreaks(fs, fs1, p, s1, e.no, f, D);
    } else if !Overwrites(s, form.scan) {
      CommitKeeps(fs, fs1, p, s1, e, more, f, D);
    } else if Used(Indexed(s)) == [] {
      CommitCut(fs, fs1, p, s1, e, more, f, form.narrow, D);
    } else {
      LossBreaks(fs, fs1, s1.inode.no, s1, e, more, D);
    }
  }

  // a commit overwrites what was replaced
  lemma CommitSame(fs: Fs, fs1: Fs, p: nat, i: Inode, s1: Dir, no: nat, f: nat, narrow: bool)
    requires fs.Shape() && fs1.Shape() && p < |fs.open| && f < MAX_FILES && i.no < INODE_CNT && fs1 == Replaced(fs, p, i)
    requires Fits(s1.inode) && s1.inode.no == fs.open[p].inode.no == i.no && no < |fs.ibits|
    requires narrow ==> s1.inode.no < 256
    ensures Commit(fs1, p, s1, no, f, narrow) == Commit(fs, p, s1, no, f, narrow)
  {
    assert fs1.open[p := OpenInode(s1.inode, fs1.open[p].cnt)] == fs.open[p := OpenInode(s1.inode, fs.open[p].cnt)];
    assert fs1.table[s1.inode.no := s1.inode] == fs.table[s1.inode.no := s1.inode];
  }

  lemma CommitCut(fs: Fs, fs1: Fs, p: nat, s1: Dir, e: Entry, more: set<U32>, f: nat, narrow: bool, D: set<nat>)
    requires FsOk(fs, D) && p < |fs.open| && fs.open[p].inode.no in D && 3 <= f < MAX_FILES && e.ftype == FT_REGULAR
    requires e.no < |fs.ibits| && !fs.ibits[e.no] && (narrow ==> e.no < 256 && fs.open[p].inode.no < 256)
    requires Inserted(Cut(View(fs, fs.open[p].inode)), s1, e, more) && DirOk(s1)
    requires Used(Indexed(View(fs, fs.open[p].inode))) == [] && fs1 == Commit(fs, p, s1, e.no, f, narrow).0
    ensures FsOk(fs1, D)
  {
    assert OpenAt(fs, p);
    var cut := CutKeeps(fs, p, D);
    assert OpenAt(cut, p);
    var fs2 := CommitParts(cut, p, s1, e.no, f, narrow);
    CommitSame(fs, cut, p, Cut(View(fs, fs.open[p].inode)).inode, s1, e.no, f, narrow);
    CommitKeeps(cut, fs1, p, s1, e, more, f, D);
  }

  // file_create gets through exactly if memory, an inode, a file slot and room for the entry are there.
  lemma CreatesIff(fs: Fs, p: nat, name: seq<Byte>, buf: bool, node: bool, form: Form, D: set<nat>)
    requires FsOk(fs, D) && p < |fs.open| && |name| <= 15
    ensures (exists no: U32, f: nat :: Creates(fs, p, name, buf, node, form, no, f)) <==>
            Gets(fs, buf, node) && WholeEntries(fs.open[p].inode) && Room(View(fs, fs.open[p].inode), form.scan)
  {
    ScanIff(fs.ibits);
    FreeFileIsFirst(fs.files, 3);
    if InodeFree(fs) && FileFree(fs) {
      var no, f := Fit(fs.ibits, 1).value, FreeFile(fs.files, 3).value;
      assert OpenAt(fs, p);
      SyncOutcome(View(fs, fs.open[p].inode), EntryFor(name, no), form.scan);
      if buf && node && WholeEntries(fs.open[p].inode) && Room(View(fs, fs.open[p].inode), form.scan) {
        assert Creates(fs, p, name, buf, node, form, no, f);
      }
    }
  }

  // A creation, whether it gets through or not, leaves the file system consistent exactly if it is sound: it
  // overwrites no index table that matters, and the numbers it passes through eight bits are below 256.
  lemma CreationKeepsIff(fs: Fs, p: nat, name: seq<Byte>, buf: bool, node: bool, form: Form, D: set<nat>)
    requires FsOk(fs, D) && p < |fs.open| && |name| <= 15 && fs.open[p].inode.no in D
    ensures FsOk(FileCreate(fs, p, name, buf, node, form).0, D) <==> Sound(fs, p, buf, node, form)
  {
    NeverStops(fs, p, D);
    CreatesIff(fs, p, name, buf, node, form, D);
    if no: U32, f: nat :| Creates(fs, p, name, buf, node, form, no, f) {
      var s1 := CreationIsCommit(fs, p, name, buf, node, form, no, f);
      assert OpenAt(fs, p);
      var s := View(fs, fs.open[p].inode);
      var more := SyncRefines(s, EntryFor(name, no), form.scan);
      CommitIff(fs, p, s1, EntryFor(name, no), more, f, form, D);
    } else {
      var dbits := CreationUndone(fs, p, name, buf, node, form, D);
      UndoneIff(fs, p, buf, node, form, dbits, D);
    }
  }

  lemma UndoneIff(fs: Fs, p: nat, buf: bool, node: bool, form: Form, dbits: seq<bool>, D: set<nat>)
    requires FsOk(fs, D) && p < |fs.open| && |dbits| == |fs.bits| && Covers(fs.bits, dbits)
    requires Gets(fs, buf, node) ==> !Room(View(fs, fs.open[p].inode), form.scan)
    ensures FsOk(Leftover(Undone(fs, p, buf, node, form.scan), dbits, fs.bufs + if buf && !InodeFree(fs) then 1 else 0), D)
            <==> Sound(fs, p, buf, node, form)
  {
    var s := View(fs, fs.open[p].inode);
    var left := LeftInode(s, form.scan);
    if Gets(fs, buf, node) && Overwrites(s, form.scan) && OneFree(s.bits) && s.inode.sectors[12] != 0 {
      var fs1 := Leftover(WithParent(fs, p, left), dbits, fs.bufs);
      assert OpenAt(fs, p) && left.sectors[12] == 0;
      assert fs1.Shape() ==> !OpenAt(fs1, p);
    } else {
      CutBlocks(s);
      assert Undone(fs, p, buf, node, form.scan) == fs by {
        assert fs.open[p := OpenInode(fs.open[p].inode, fs.open[p].cnt)] == fs.open;
      }
      LeftoverOk(fs, dbits, fs.bufs + if buf && !InodeFree(fs) then 1 else 0, D);
    }
  }

  // As written, a creation that got through in a directory is the last: the next one in it breaks the
  // consistency, exactly if it gets to sync_dir_entry and a block is free.
  lemma OncePerDirectory(fs: Fs, p: nat, name: seq<Byte>, form: Form, D: set<nat>, no: U32, f: nat, buf: bool, node: bool)
    requires FsOk(fs, D) && p < |fs.open| && |name| <= 15 && fs.open[p].inode.no in D && form.scan == WRITTEN
    requires Creates(fs, p, name, true, true, form, no, f) && FsOk(FileCreate(fs, p, name, true, true, form).0, D)
    ensures var fs1 := FileCreate(fs, p, name, true, true, form).0;
            && p + 1 < |fs1.open| && fs1.open[p + 1].inode.no == fs.open[p].inode.no
            && (Sound(fs1, p + 1, buf, node, form) <==> !(Gets(fs1, buf, node) && OneFree(fs1.bits)))
  {
    var s1 := CreationIsCommit(fs, p, name, true, true, form, no, f);
    assert OpenAt(fs, p);
    var s, e := View(fs, fs.open[p].inode), EntryFor(name, no);
    FirstIsIndexed(s, e);
    var fs1 := CommitParts(fs, p, s1, no, f, form.narrow);
    assert fs1.open[p + 1].inode == s1.inode && View(fs1, s1.inode) == s1;
    NotAgain(fs1, p + 1, e, form, buf, node);
  }

  // a directory with used entries behind its direct blocks
  lemma NotAgain(fs: Fs, p: nat, e: Entry, form: Form, buf: bool, node: bool)
    requires fs.Shape() && p < |fs.open| && form.scan == WRITTEN && !e.Unused() && fs.open[p].inode.sectors[12] != 0
    requires Indexed(View(fs, fs.open[p].inode)) == [e] + Spare()
    ensures Sound(fs, p, buf, node, form) <==> !(Gets(fs, buf, node) && OneFree(fs.bits))
  {
    assert Used([e] + Spare())[0] == e;
    assert TwoFree(fs.bits) ==> OneFree(fs.bits);
  }

  lemma FirstIsIndexed(s: Dir, e: Entry)
    requires DirOk(s) && e.Ok() && SyncDirEntry(s, e, WRITTEN).Done?
    ensures var s1 := SyncDirEntry(s, e, WRITTEN).s; s1.inode.sectors[12] != 0 && Indexed(s1) == [e] + Spare()
  {
    ScanCases(s, e, WRITTEN);
    var s1, lba, table := TableSteps(s, Unloaded(s.inode), e);
    NewTableListing(s, s1, lba, table, e);
  }

  // ---------- creations that stop or fail ----------

  // The assertion on the directory's size stops the kernel exactly if file_create gets there and the size is
  // not that of whole entries ...
  lemma StopsIff(fs: Fs, p: nat, name: seq<Byte>, buf: bool, node: bool, form: Form)
    requires fs.Shape() && p < |fs.open| && |name| <= 15
    ensures FileCreate(fs, p, name, buf, node, form).1 == STOPPED <==>
            Gets(fs, buf, node) && !WholeEntries(fs.open[p].inode)
  {
    LongScan(fs.ibits, form.tail);
    FreeFileIsFirst(fs.files, 3);
    if Gets(fs, buf, node) {
      CreateStopsIff(fs, p, name, Fit(fs.ibits, 1).value, FreeFile(fs.files, 3).value, form);
    }
  }

  // It hands out an inode number from behind the table exactly if no inode is free and a bit there is clear.
  lemma OverrunIff(fs: Fs, p: nat, name: seq<Byte>, buf: bool, node: bool, form: Form)
    requires fs.Shape() && p < |fs.open| && |name| <= 15
    ensures FileCreate(fs, p, name, buf, node, form).1 == OVERRUN <==> Overruns(fs, buf, form)
  {
    LongScan(fs.ibits, form.tail);
    FreeFileIsFirst(fs.files, 3);
    if Gets(fs, buf, node) && WholeEntries(fs.open[p].inode) {
      var no, f := Fit(fs.ibits, 1).value, FreeFile(fs.files, 3).value;
      CommitFd(fs, p, Insertion(fs, p, name, no, form.scan).s, no, f, form.narrow);
    }
  }

  lemma CreateStopsIff(fs: Fs, p: nat, name: seq<Byte>, no: U32, f: nat, form: Form)
    requires fs.Shape() && p < |fs.open| && |name| <= 15 && no < |fs.ibits| && f < MAX_FILES
    ensures CreateIn(fs, p, name, no, f, form).1 == STOPPED <==> !WholeEntries(fs.open[p].inode)
  {
    if WholeEntries(fs.open[p].inode) {
      var r := Insertion(fs, p, name, no, form.scan);
      CommitFd(fs, p, r.s, no, f, form.narrow);
    }
  }

  lemma CommitFd(fs: Fs, p: nat, s1: Dir, no: nat, f: nat, narrow: bool)
    requires fs.Shape() && p < |fs.open| && Fits(s1.inode) && no < |fs.ibits| && f < MAX_FILES
    ensures Commit(fs, p, s1, no, f, narrow).1 == InstalledAt(fs.fds) >= -1
  {
  }

  // ... which no directory of a consistent file system is.
  lemma NeverStops(fs: Fs, p: nat, D: set<nat>)
    requires FsOk(fs, D) && p < |fs.open| && fs.open[p].inode.no in D
    ensures WholeEntries(fs.open[p].inode)
  {
    var n := fs.open[p].inode.no;
    assert OpenAt(fs, p) && DirectoryOk(fs, n, D);
    TimesEntry(fs.table[n].size, UsedCount(EntriesOf(fs, n)));
  }

  lemma TimesEntry(size: nat, used: nat)
    requires size == ENTRY * used
    ensures size % ENTRY == 0
  {
  }

  // the state before, with the directory in memory as a failed sync_dir_entry leaves it
  ghost function Undone(fs: Fs, p: nat, buf: bool, node: bool, scan: Scan): Fs
    requires fs.Shape() && p < |fs.open|
  {
    if Gets(fs, buf, node) then WithParent(fs, p, LeftInode(View(fs, fs.open[p].inode), scan)) else fs
  }

  // A creation that fails returns -1 and restores bitmaps, file table and directory -- but for an overwritten
  // index table, which the directory has lost.  What may stay behind besides is the io buffer, exactly when no
  // inode was free, and the index table's bit in the bitmap on disk, exactly when its first block could not be
  // had.
  lemma CreationUndone(fs: Fs, p: nat, name: seq<Byte>, buf: bool, node: bool, form: Form, D: set<nat>)
      returns (dbits: seq<bool>)
    requires FsOk(fs, D) && p < |fs.open| && |name| <= 15
    requires WholeEntries(fs.open[p].inode) && !exists no: U32, f: nat :: Creates(fs, p, name, buf, node, form, no, f)
    ensures FileCreate(fs, p, name, buf, node, form)
            == (Leftover(Undone(fs, p, buf, node, form.scan), dbits, fs.bufs + if buf && !InodeFree(fs) then 1 else 0),
                if Overruns(fs, buf, form) then OVERRUN else -1)
    ensures |dbits| == |fs.bits| && (Covers(fs.bits, fs.dbits) ==> Covers(fs.bits, dbits))
    ensures fs.dbits == fs.bits ==> (dbits == fs.dbits <==>
                                     !(Gets(fs, buf, node) && HalfTable(View(fs, fs.open[p].inode), form.scan)))
  {
    ScanIff(fs.ibits);
    LongScan(fs.ibits, form.tail);
    FreeFileIsFirst(fs.files, 3);
    dbits := fs.dbits;
    if Gets(fs, buf, node) {
      var no, f := Fit(fs.ibits, 1).value, FreeFile(fs.files, 3).value;
      assert OpenAt(fs, p);
      SyncOutcome(View(fs, fs.open[p].inode), EntryFor(name, no), form.scan);
      assert !Creates(fs, p, name, buf, node, form, no, f);
      dbits := Insertion(fs, p, name, no, form.scan).s.dbits;
      FailedResult(fs, p, name, form, no, f, dbits, LeftInode(View(fs, fs.open[p].inode), form.scan));
    }
  }

  lemma FailedResult(fs: Fs, p: nat, name: seq<Byte>, form: Form, no: U32, f: nat, dbits: seq<bool>, i: Inode)
    requires fs.Shape() && FilesOk(fs) && p < |fs.open| && |name| <= 15 && WholeEntries(fs.open[p].inode)
    requires Fit(fs.ibits + form.tail, 1) == Some(no) && no < |fs.ibits| && FreeFile(fs.files, 3) == Some(f) && 3 <= f < MAX_FILES
    requires fs.files[f].inode == None
    requires Insertion(fs, p, name, no, form.scan) == Failed(Dir(fs.d, fs.bits, dbits, i, fs.dataStart))
    ensures FileCreate(fs, p, name, true, true, form) == (Leftover(WithParent(fs, p, i), dbits, fs.bufs), -1)
  {
    assert fs.files[f := NoFile()] == fs.files;
  }

  // file_create returns -1 exactly if it does not get through or finds no descriptor, when the file stays
  // created; nothing is left behind exactly if it has no io buffer, or has an inode and no room for the entry,
  // not even for half a table.
  lemma FailureIff(fs: Fs, p: nat, name: seq<Byte>, buf: bool, node: bool, form: Form, D: set<nat>)
    requires FsOk(fs, D) && p < |fs.open| && |name| <= 15 && fs.open[p].inode.no in D && fs.dbits == fs.bits
    ensures var r := FileCreate(fs, p, name, buf, node, form); var s := View(fs, fs.open[p].inode);
            && (r.1 == -1 <==> !Overruns(fs, buf, form)
                               && (Gets(fs, buf, node) && Room(s, form.scan) ==> forall k :: 3 <= k < |fs.fds| ==> fs.fds[k] != -1))
            && (r == (fs, -1) <==> !buf || (InodeFree(fs) && (Gets(fs, buf, node) ==> !Room(s, form.scan) && !HalfTable(s, form.scan))))
  {
    NeverStops(fs, p, D);
    CreatesIff(fs, p, name, buf, node, form, D);
    FreeFdIsFirst(fs.fds, 3);
    var s := View(fs, fs.open[p].inode);
    if no: U32, f: nat :| Creates(fs, p, name, buf, node, form, no, f) {
      var s1 := CreationIsCommit(fs, p, name, buf, node, form, no, f);
      assert Commit(fs, p, s1, no, f, form.narrow).0.ibits[no];
    } else {
      var dbits := CreationUndone(fs, p, name, buf, node, form, D);
      if Gets(fs, buf, node) && !HalfTable(s, form.scan) {
        assert Overwrites(s, form.scan) ==> !OneFree(s.bits);
        assert fs.open[p := OpenInode(fs.open[p].inode, fs.open[p].cnt)] == fs.open;
      }
    }
  }

  // The block bitmap on disk is the one in memory after any creation, if it was before, exactly unless the
  // creation got an index table and no block for it.
  lemma CreationDisk(fs: Fs, p: nat, name: seq<Byte>, buf: bool, node: bool, form: Form, D: set<nat>)
    requires FsOk(fs, D) && p < |fs.open| && |name| <= 15
    requires WholeEntries(fs.open[p].inode) && fs.dbits == fs.bits
    ensures var r := FileCreate(fs, p, name, buf, node, form).0;
            r.dbits == r.bits <==> !(Gets(fs, buf, node) && HalfTable(View(fs, fs.open[p].inode), form.scan))
  {
    CreatesIff(fs, p, name, buf, node, form, D);
    if no: U32, f: nat :| Creates(fs, p, name, buf, node, form, no, f) {
      var s := View(fs, fs.open[p].inode);
      var s1 := CreationIsCommit(fs, p, name, buf, node, form, no, f);
      assert OpenAt(fs, p);
      var more := SyncRefines(s, EntryFor(name, no), form.scan);
      if HalfTable(s, form.scan) {
        HalfFails(s, form.scan);
      }
    } else {
      var dbits := CreationUndone(fs, p, name, buf, node, form, D);
    }
  }

  lemma LeftoverOk(fs: Fs, dbits: seq<bool>, bufs: nat, D: set<nat>)
    requires FsOk(fs, D) && |dbits| == |fs.bits| && Covers(fs.bits, dbits)
    ensures FsOk(Leftover(fs, dbits, bufs), D)
  {
    var fs1 := Leftover(fs, dbits, bufs);
    assert forall n: nat :: Live(fs1, n) <==> Live(fs, n);
    forall n: nat | n < INODE_CNT
      ensures View(fs1, fs.table[n]).Blocks() == View(fs, fs.table[n]).Blocks()
      ensures OwnedBlocks(fs1, n) == OwnedBlocks(fs, n) && EntriesOf(fs1, n) == EntriesOf(fs, n)
    {
    }
    assert BlocksOk(fs1);
    assert DirectoriesOk(fs1, D);
    assert forall k :: 0 <= k < |fs.open| && OpenAt(fs, k) ==> OpenAt(fs1, k);
  }
}
