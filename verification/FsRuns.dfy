/** Runs that start with a freshly mounted partition: where the blocks of its inodes lie, and what becomes of the
    second file created as written. */
module FsRuns {
  import opened Bits
  import opened Bytes
  import opened FsInode
  import opened FsDir
  import opened FsDirProofs
  import opened FsDirLaws
  import opened FsFile
  import opened FsFileKeeps
  import opened FsCache
  import opened FsMount
  import F = FsFormat

  // ---------- the data region ----------

  // no free block, and no block of a live inode, lies at sector `limit` or behind it
  ghost predicate Inside(fs: Fs, limit: nat)
    requires fs.Shape()
  {
    FreeInside(fs.dataStart, fs.bits, limit) && forall n: nat :: Live(fs, n) ==> Below(OwnedBlocks(fs, n), limit)
  }

  ghost predicate FreeInside(base: nat, bits: seq<bool>, limit: nat) {
    forall x: nat :: base <= x < base + |bits| && !On(base, bits, x) ==> x < limit
  }

  ghost predicate Below(blocks: set<U32>, limit: nat) { forall x: U32 :: x in blocks ==> x < limit }

  // blocks newly taken were free, and what stays free was
  lemma TookInside(s: Dir, s1: Dir, more: set<U32>, limit: nat)
    requires Took(s, s1, more) && FreeInside(s.dataStart, s.bits, limit)
    ensures FreeInside(s1.dataStart, s1.bits, limit) && Below(more, limit)
  {
  }

  // after a commit, in a directory whose entries all stay
  lemma CommittedInside(fs: Fs, fs1: Fs, par: nat, s1: Dir, no: nat, e: Entry, more: set<U32>, limit: nat)
    requires BlocksOk(fs) && Live(fs, par) && Committed(fs, fs1, par, s1, no) && DirInserted(fs, par, s1, e, more)
    requires Inside(fs, limit)
    ensures Inside(fs1, limit)
  {
    TookInside(View(fs, fs.table[par]), s1, more, limit);
    forall n: nat | Live(fs1, n)
      ensures Below(OwnedBlocks(fs1, n), limit)
    {
      InodeAfter(fs, fs1, par, s1, no, e, more, n);
      assert n == par ==> OwnedBy(s1) == OwnedBlocks(fs, par) + more;
    }
  }

  lemma CutInside(fs: Fs, p: nat, D: set<nat>, limit: nat) returns (fs1: Fs)
    requires FsOk(fs, D) && p < |fs.open| && fs.open[p].inode.no in D && Used(Indexed(View(fs, fs.open[p].inode))) == []
    requires Inside(fs, limit)
    ensures fs1 == Replaced(fs, p, Cut(View(fs, fs.open[p].inode)).inode) && FsOk(fs1, D) && Inside(fs1, limit)
  {
    assert OpenAt(fs, p);
    var s := View(fs, fs.open[p].inode);
    fs1 := CutKeeps(fs, p, D);
    CutOk(s);
    forall n: nat | Live(fs1, n)
      ensures Below(OwnedBlocks(fs1, n), limit)
    {
      assert Live(fs, n);
      assert View(fs1, fs1.table[n]) == if n == fs.open[p].inode.no then Cut(s) else View(fs, fs.table[n]);
    }
  }

  lemma CommitInside(fs: Fs, p: nat, s1: Dir, e: Entry, more: set<U32>, f: nat, form: Form, D: set<nat>, limit: nat)
    requires FsOk(fs, D) && p < |fs.open| && fs.open[p].inode.no in D && 3 <= f < MAX_FILES
    requires e.no < |fs.ibits| && !fs.ibits[e.no] && (form.narrow ==> e.no < 256 && fs.open[p].inode.no < 256)
    requires Inserted(Base(View(fs, fs.open[p].inode), form.scan), s1, e, more) && DirOk(s1) && Inside(fs, limit)
    requires Overwrites(View(fs, fs.open[p].inode), form.scan) ==> Used(Indexed(View(fs, fs.open[p].inode))) == []
    ensures Commit(fs, p, s1, e.no, f, form.narrow).0.Shape() && Inside(Commit(fs, p, s1, e.no, f, form.narrow).0, limit)
  {
    assert OpenAt(fs, p);
    var fs1 := CommitParts(fs, p, s1, e.no, f, form.narrow);
    if Overwrites(View(fs, fs.open[p].inode), form.scan) {
      var cut := CutInside(fs, p, D, limit);
      assert OpenAt(cut, p);
      var fs2 := CommitParts(cut, p, s1, e.no, f, form.narrow);
      CommitSame(fs, cut, p, Cut(View(fs, fs.open[p].inode)).inode, s1, e.no, f, form.narrow);
      CommittedInside(cut, fs1, s1.inode.no, s1, e.no, e, more, limit);
    } else {
      CommittedInside(fs, fs1, s1.inode.no, s1, e.no, e, more, limit);
    }
  }

  lemma CreatedInside(fs: Fs, p: nat, name: seq<Byte>, form: Form, D: set<nat>, no: U32, f: nat, limit: nat)
    requires FsOk(fs, D) && p < |fs.open| && |name| <= 15 && fs.open[p].inode.no in D && Inside(fs, limit)
    requires Creates(fs, p, name, true, true, form, no, f) && NumbersReach(fs, p, form.narrow)
    requires Overwrites(View(fs, fs.open[p].inode), form.scan) ==> Used(Indexed(View(fs, fs.open[p].inode))) == []
    ensures FileCreate(fs, p, name, true, true, form).0.Shape() && Inside(FileCreate(fs, p, name, true, true, form).0, limit)
  {
    var s1 := CreationIsCommit(fs, p, name, true, true, form, no, f);
    assert OpenAt(fs, p);
    var more := SyncRefines(View(fs, fs.open[p].inode), EntryFor(name, no), form.scan);
    CommitInside(fs, p, s1, EntryFor(name, no), more, f, form, D, limit);
  }

  // a creation that failed and left the directory as it was
  lemma UndoneInside(fs: Fs, p: nat, buf: bool, node: bool, form: Form, dbits: seq<bool>, bufs: nat, limit: nat)
    requires fs.Shape() && p < |fs.open| && Inside(fs, limit) && |dbits| == |fs.bits| && fs.open[p].inode.no < INODE_CNT
    ensures var fs1 := Leftover(Undone(fs, p, buf, node, form.scan), dbits, bufs); fs1.Shape() && Inside(fs1, limit)
  {
    var fs1 := Leftover(Undone(fs, p, buf, node, form.scan), dbits, bufs);
    assert LeftInode(View(fs, fs.open[p].inode), form.scan).no == fs.open[p].inode.no;
    SameInside(fs, fs1, limit);
  }

  lemma CreateInside(fs: Fs, p: nat, name: seq<Byte>, buf: bool, node: bool, form: Form, D: set<nat>, limit: nat)
    requires FsOk(fs, D) && p < |fs.open| && |name| <= 15 && fs.open[p].inode.no in D
    requires Sound(fs, p, buf, node, form) && Inside(fs, limit)
    ensures FileCreate(fs, p, name, buf, node, form).0.Shape() && Inside(FileCreate(fs, p, name, buf, node, form).0, limit)
  {
    NeverStops(fs, p, D);
    CreatesIff(fs, p, name, buf, node, form, D);
    if no: U32, f: nat :| Creates(fs, p, name, buf, node, form, no, f) {
      CreatedInside(fs, p, name, form, D, no, f, limit);
    } else {
      var dbits := CreationUndone(fs, p, name, buf, node, form, D);
      UndoneInside(fs, p, buf, node, form, dbits, fs.bufs + if buf && !InodeFree(fs) then 1 else 0, limit);
    }
  }

  // states with the same data blocks, block bitmap and records
  lemma SameInside(fs: Fs, fs1: Fs, limit: nat)
    requires fs.Shape() && fs1.Shape() && Inside(fs, limit) && fs1.d == fs.d && fs1.bits == fs.bits && fs1.dataStart == fs.dataStart
    requires fs1.table == fs.table && fs1.ibits == fs.ibits
    ensures Inside(fs1, limit)
  {
    forall n: nat | Live(fs1, n)
      ensures Below(OwnedBlocks(fs1, n), limit)
    {
      assert Live(fs, n) && View(fs1, fs1.table[n]).Blocks() == View(fs, fs.table[n]).Blocks();
    }
  }

  lemma StepInside(fs: Fs, ev: Event, form: Form, D: set<nat>, limit: nat)
    requires FsOk(fs, D) && Enabled(fs, D, ev) && SoundEvent(fs, ev, form) && Inside(fs, limit)
    ensures Step(fs, ev, form).Shape() && Inside(Step(fs, ev, form), limit)
  {
    StepKeeps(fs, ev, form, D);
    if ev.Create? {
      FindIsFirst(fs.open, ev.par, 0);
      CreateInside(fs, Find(fs.open, ev.par, 0).value, ev.name, ev.buf, ev.node, form, D, limit);
    } else {
      SameInside(fs, Step(fs, ev, form), limit);
    }
  }

  lemma {:induction false} RunInside(D: set<nat>, form: Form, states: seq<Fs>, evs: seq<Event>, k: nat, limit: nat)
    requires IsRun(D, form, states, evs) && FsOk(states[0], D) && Inside(states[0], limit)
    requires k <= |evs| && SoundUpTo(form, states, evs, k)
    ensures FsOk(states[k], D) && Inside(states[k], limit)
  {
    RunKeeps(D, form, states, evs, k);
    if k > 0 {
      RunInside(D, form, states, evs, k - 1, limit);
      assert StepOf(D, form, states[k - 1], evs[k - 1], states[k]) && SoundAt(form, states[k - 1], evs[k - 1]);
      StepInside(states[k - 1], evs[k - 1], form, D, limit);
    }
  }

  lemma MountedInside(start: nat, secCnt: nat, strict: bool, d0: Disk, records: seq<Inode>, fds: seq<int>,
                      junk: seq<bool>, stale: seq<bool>, limit: nat)
    requires Mountable(start, secCnt, records, fds, junk, stale)
    requires FreeInside(F.Format(start, secCnt).dataStart, BlockMap(start, secCnt, strict, junk), limit)
    requires F.Format(start, secCnt).dataStart < limit && F.BitLen(secCnt) >= 8
    ensures F.Format(start, secCnt).dataStart < 0x1_0000_0000
    ensures var fs := Mounted(start, secCnt, strict, d0, records, fds, junk, stale); fs.Shape() && Inside(fs, limit)
  {
    var fs := Mounted(start, secCnt, strict, d0, records, fds, junk, stale);
    MountIsJust(start, secCnt, strict, d0, records, fds, junk, stale);
    RootOk(View(fs, fs.table[0]), fs.dataStart);
  }

  // blocks of live inodes lie in the data region before `limit`
  ghost predicate DataInside(fs: Fs, limit: nat)
    requires fs.Shape()
  {
    forall n: nat, x: U32 :: Live(fs, n) && x in OwnedBlocks(fs, n) ==> fs.dataStart <= x < limit
  }

  lemma InsideData(fs: Fs, D: set<nat>, limit: nat)
    requires FsOk(fs, D) && Inside(fs, limit)
    ensures DataInside(fs, limit)
  {
    forall n: nat, x: U32 | Live(fs, n) && x in OwnedBlocks(fs, n)
      ensures fs.dataStart <= x < limit
    {
      assert Below(OwnedBlocks(fs, n), limit);
      assert On(fs.dataStart, fs.bits, x);
    }
  }

  // Over every sound run from a consistent fresh partition on, in any form, every block of every live inode lies
  // in the data region and inside the partition, whenever every bit that is free at first stands for such a
  // sector -- F.AllocInsideIff says when.
  lemma DataStaysInside(start: nat, secCnt: nat, strict: bool, d0: Disk, records: seq<Inode>, fds: seq<int>,
                        junk: seq<bool>, stale: seq<bool>, form: Form, states: seq<Fs>, evs: seq<Event>, k: nat)
    requires Mountable(start, secCnt, records, fds, junk, stale) && F.AllocsInside(start, secCnt, strict)
    requires F.BitLen(secCnt) >= 8 && JunkCovers(start, secCnt, junk, stale)
    requires F.Format(start, secCnt).dataStart < 0x1_0000_0000
    requires IsRun({0}, form, states, evs) && states[0] == Mounted(start, secCnt, strict, d0, records, fds, junk, stale)
    requires k <= |evs| && SoundUpTo(form, states, evs, k)
    ensures states[k].Shape() && DataInside(states[k], start + secCnt)
  {
    F.RegionsFit(start, secCnt);
    MountEstablishes(start, secCnt, strict, d0, records, fds, junk, stale);
    MountedInside(start, secCnt, strict, d0, records, fds, junk, stale, start + secCnt);
    RunInside({0}, form, states, evs, k, start + secCnt);
    InsideData(states[k], {0}, start + secCnt);
  }

  // sector up to which a fresh block bitmap has free bits
  function FreeEnd(start: nat, secCnt: nat, strict: bool): nat
    requires secCnt >= F.USED
  {
    F.Format(start, secCnt).dataStart + F.BitLen(secCnt) + if strict then 0 else 1
  }

  // With fewer than 256 bitmap sectors and at least 8 data blocks they stay among the data blocks that the bitmap
  // is for, with the strict padding bound; as written they may reach the sector behind these.
  lemma DataStaysBelow(start: nat, secCnt: nat, strict: bool, d0: Disk, records: seq<Inode>, fds: seq<int>,
                       junk: seq<bool>, stale: seq<bool>, form: Form, states: seq<Fs>, evs: seq<Event>, k: nat)
    requires Mountable(start, secCnt, records, fds, junk, stale) && F.Format(start, secCnt).blockMapSects < 256 && F.BitLen(secCnt) >= 8
    requires F.Format(start, secCnt).dataStart < 0x1_0000_0000
    requires IsRun({0}, form, states, evs) && states[0] == Mounted(start, secCnt, strict, d0, records, fds, junk, stale)
    requires k <= |evs| && SoundUpTo(form, states, evs, k)
    ensures states[k].Shape() && DataInside(states[k], FreeEnd(start, secCnt, strict))
    ensures FreeEnd(start, secCnt, true) <= start + secCnt && FreeEnd(start, secCnt, false) <= start + secCnt + 1
  {
    var limit := FreeEnd(start, secCnt, strict);
    F.RegionsFit(start, secCnt);
    MountEstablishes(start, secCnt, strict, d0, records, fds, junk, stale);
    PaddedInside(start, secCnt, strict, junk, F.Format(start, secCnt).dataStart);
    MountedInside(start, secCnt, strict, d0, records, fds, junk, stale, limit);
    RunInside({0}, form, states, evs, k, limit);
    InsideData(states[k], {0}, limit);
  }

  lemma PaddedInside(start: nat, secCnt: nat, strict: bool, junk: seq<bool>, base: nat)
    requires secCnt >= F.USED && F.Format(start, secCnt).blockMapSects < 256 && base == F.Format(start, secCnt).dataStart
    requires |junk| == F.Format(start, secCnt).blockMapSects * F.BITS_PER_SECTOR
    ensures FreeInside(base, BlockMap(start, secCnt, strict, junk), FreeEnd(start, secCnt, strict))
  {
    forall x: nat | base <= x < base + |junk| && !On(base, BlockMap(start, secCnt, strict, junk), x)
      ensures x < FreeEnd(start, secCnt, strict)
    {
      assert !F.PaddedBit(F.BitLen(secCnt), strict, x - base);
    }
  }

  // ---------- two files, as written ----------

  // An insertion as written with two free blocks: the listing is that of the direct blocks with the entry behind it.
  lemma WrittenInsertion(s: Dir, e: Entry) returns (s1: Dir, more: set<U32>)
    requires DirOk(s) && e.Ok() && TwoFree(s.bits)
    ensures SyncDirEntry(s, e, WRITTEN) == Done(s1) && s1.Shape() && Took(s, s1, more) && |more| == 2
    ensures s1.inode.no == s.inode.no && s1.inode.size == Grown(s.inode.size)
    ensures s1.Listing() == Slots(s.d, s.inode.sectors[..DIRECT]) + ([e] + Spare())
    ensures Slots(s1.d, s1.inode.sectors[..DIRECT]) == Slots(s.d, s.inode.sectors[..DIRECT])
  {
    ScanCases(s, e, WRITTEN);
    OverwriteDone(s, e);
    var lba, table;
    s1, lba, table := TableSteps(s, Unloaded(s.inode), e);
    more := {lba, table};
    NewTableListing(s, s1, lba, table, e);
    ListingSplit(s1);
    SuffixCancel(Slots(s1.d, s1.inode.sectors[..DIRECT]), Slots(s.d, s.inode.sectors[..DIRECT]), [e] + Spare());
  }

  lemma SuffixCancel<T>(a: seq<T>, b: seq<T>, c: seq<T>)
    requires a + c == b + c
    ensures a == b
  {
    assert |a| == |b|;
    assert a == (a + c)[..|a|] && b == (b + c)[..|b|];
  }

  // what a creation as written with two free blocks does: s1 is the directory afterwards
  ghost predicate Wrote(fs: Fs, fs1: Fs, p: nat, s1: Dir, name: seq<Byte>, no: U32, f: nat, more: set<U32>)
    requires |name| <= 15
  {
    && fs.Shape() && fs1.Shape() && p < |fs.open| && f < MAX_FILES && fs.open[p].inode.no < INODE_CNT
    && Entered(fs, fs1, p, s1, no, f) && fs1.ibits == SetRun(fs.ibits, no, 1, true)
    && fs1.table[fs.open[p].inode.no] == s1.inode && View(fs1, s1.inode) == s1 && s1.Shape()
    && s1.inode.no == fs.open[p].inode.no && s1.inode.size == Grown(fs.open[p].inode.size)
    && Took(View(fs, fs.open[p].inode), s1, more) && |more| == 2
    && s1.Listing() == Slots(fs.d, fs.open[p].inode.sectors[..DIRECT]) + ([EntryFor(name, no)] + Spare())
    && Slots(s1.d, s1.inode.sectors[..DIRECT]) == Slots(fs.d, fs.open[p].inode.sectors[..DIRECT])
  }

  lemma WrittenCreation(fs: Fs, p: nat, name: seq<Byte>, form: Form, D: set<nat>, no: U32, f: nat) returns (fs1: Fs, s1: Dir, more: set<U32>)
    requires FsOk(fs, D) && p < |fs.open| && |name| <= 15 && fs.open[p].inode.no in D && form.scan == WRITTEN
    requires Fit(fs.ibits, 1) == Some(no) && FreeFile(fs.files, 3) == Some(f) && f < MAX_FILES && TwoFree(fs.bits)
    requires NumbersReach(fs, p, form.narrow)
    ensures no < |fs.ibits| && Creates(fs, p, name, true, true, form, no, f)
    ensures fs1 == FileCreate(fs, p, name, true, true, form).0 && Wrote(fs, fs1, p, s1, name, no, f, more)
    ensures s1.inode.sectors[12] != 0 && Indexed(s1) == [EntryFor(name, no)] + Spare()
  {
    assert OpenAt(fs, p);
    NeverStops(fs, p, D);
    FirstClear(fs.ibits, no);
    s1, more := WrittenInsertion(View(fs, fs.open[p].inode), EntryFor(name, no));
    FirstIsIndexed(View(fs, fs.open[p].inode), EntryFor(name, no));
    var s2 := CreationIsCommit(fs, p, name, true, true, form, no, f);
    fs1 := CommitParts(fs, p, s1, no, f, form.narrow);
  }

  // four free blocks leave two
  lemma TwoLeft(s: Dir, s1: Dir, more: set<U32>)
    requires Took(s, s1, more) && |more| == 2 && |s.bits| > 4 && !s.bits[1] && !s.bits[2] && !s.bits[3] && !s.bits[4]
    ensures TwoFree(s1.bits)
  {
    var b := s.dataStart;
    TakenIff(s, s1, more, 1);
    TakenIff(s, s1, more, 2);
    TakenIff(s, s1, more, 3);
    TakenIff(s, s1, more, 4);
    AtMostTwo(more, b + 1, b + 2, b + 3);
    AtMostTwo(more, b + 1, b + 2, b + 4);
    AtMostTwo(more, b + 1, b + 3, b + 4);
    AtMostTwo(more, b + 2, b + 3, b + 4);
    assert exists i, j :: 0 <= i < j < |s1.bits| && !s1.bits[i] && !s1.bits[j];
  }

  lemma TakenIff(s: Dir, s1: Dir, more: set<U32>, i: nat)
    requires Took(s, s1, more) && i < |s.bits| && !s.bits[i]
    ensures i < |s1.bits| && (s1.bits[i] <==> s.dataStart + i in more)
  {
    assert On(s.dataStart, s1.bits, s.dataStart + i) <==> On(s.dataStart, s.bits, s.dataStart + i) || s.dataStart + i in more;
  }

  lemma AtMostTwo(s: set<U32>, x: nat, y: nat, z: nat)
    requires |s| == 2 && x < y < z
    ensures !(x in s && y in s && z in s)
  {
    if x in s && y in s && z in s {
      SubsetSize({x as int, y, z}, s);
    }
  }

  lemma NextNumber(bits: seq<bool>, no: nat)
    requires no < |bits| && forall i :: 0 <= i <= no ==> (bits[i] <==> i < no)
    ensures Fit(bits, 1) == Some(no)
  {
    forall n | 0 <= n < no
      ensures !ClearRun(bits, n, 1)
    {
      assert bits[n];
    }
    FitUnique(bits, 1, no);
  }

  // a root directory whose direct blocks list es, and what file_create will find for the next file
  ghost predicate AtRoot(fs: Fs, p: nat, no: U32, f: nat, es: seq<Entry>) {
    && fs.Shape() && p < |fs.open| && fs.open[p].inode.no == 0 && fs.open[p].inode.size == ENTRY * (no + 1)
    && Slots(fs.d, fs.open[p].inode.sectors[..DIRECT]) == es
    && Fit(fs.ibits, 1) == Some(no) && FreeFile(fs.files, 3) == Some(f) && f < MAX_FILES
  }

  lemma FreshRoot(fs: Fs)
    requires JustMounted(fs) && |fs.ibits| > 1
    ensures AtRoot(fs, 0, 1, 3, Entries(RootBlock())) && Used(Indexed(View(fs, fs.open[0].inode))) == []
  {
    var s := View(fs, fs.table[0]);
    RootListing(fs.d, fs.table[0], fs.dataStart);
    ListingSplit(s);
    assert Slots(fs.d, s.inode.sectors[..DIRECT]) + [] == Slots(fs.d, s.inode.sectors[..DIRECT]);
    assert forall n: nat :: n < |fs.ibits| ==> (fs.ibits[n] <==> Live(fs, n));
    NextNumber(fs.ibits, 1);
    FirstSlot(fs.files, 3);
  }

  lemma NextRoot(fs: Fs, fs1: Fs, p: nat, s1: Dir, name: seq<Byte>, no: U32, f: nat, more: set<U32>, es: seq<Entry>)
    requires AtRoot(fs, p, no, f, es) && |name| <= 15 && Wrote(fs, fs1, p, s1, name, no, f, more) && FilesUpTo(fs, no, f) && no < 256
    ensures AtRoot(fs1, p + 1, no + 1, f + 1, es) && fs1.open[p + 1].inode == s1.inode
  {
    assert fs1.open[p + 1] == OpenInode(s1.inode, fs.open[p].cnt);
    NumberAfter(fs.ibits, no);
    SlotAfter(fs.files, f, File(0, FT_REGULAR, Some(no)));
    SizeAfter(fs.open[p].inode.size, no);
  }

  lemma NumberAfter(bits: seq<bool>, no: nat)
    requires no + 1 < |bits| && forall n :: 0 <= n <= no + 1 ==> (bits[n] <==> n < no)
    ensures Fit(SetRun(bits, no, 1, true), 1) == Some(no + 1)
  {
    NextNumber(SetRun(bits, no, 1, true), no + 1);
  }

  lemma SlotAfter(files: seq<File>, f: nat, file: File)
    requires 3 <= f && f + 1 < |files| && (forall j :: 3 <= j <= f + 1 ==> (files[j].inode != None <==> j < f)) && file.inode.Some?
    ensures FreeFile(files[f := file], 3) == Some(f + 1)
  {
    FirstSlot(files[f := file], f + 1);
  }

  lemma SizeAfter(size: U32, no: nat)
    requires no < 256 && size == ENTRY * (no + 1)
    ensures Grown(size) == ENTRY * (no + 1 + 1)
  {
  }

  // the bitmaps and the file table, with one file less or more
  ghost predicate FilesUpTo(fs: Fs, no: U32, f: nat) {
    && fs.Shape() && no + 1 < |fs.ibits| && (forall n :: 0 <= n <= no + 1 ==> (fs.ibits[n] <==> n < no))
    && 3 <= f && f + 1 < MAX_FILES && forall j :: 3 <= j <= f + 1 ==> (fs.files[j].inode != None <==> j < f)
  }

  lemma FirstFile(fs: Fs, name: seq<Byte>, form: Form, es: seq<Entry>) returns (a: Fs, s1: Dir)
    requires FsOk(fs, {0}) && AtRoot(fs, 0, 1, 3, es) && FilesUpTo(fs, 1, 3) && form.scan == WRITTEN && |name| <= 15
    requires |fs.bits| > 4 && !fs.bits[1] && !fs.bits[2] && !fs.bits[3] && !fs.bits[4]
    requires Used(Indexed(View(fs, fs.open[0].inode))) == []
    ensures a == FileCreate(fs, 0, name, true, true, form).0 && FsOk(a, {0}) && AtRoot(a, 1, 2, 4, es) && TwoFree(a.bits)
    ensures s1.Shape() && s1 == View(a, a.open[1].inode) && s1.inode == a.table[0] && Indexed(s1) == [EntryFor(name, 1)] + Spare()
  {
    var more;
    TwoOf(fs.bits);
    a, s1, more := WrittenCreation(fs, 0, name, form, {0}, 1, 3);
    FirstKeeps(fs, name, form, es);
    TwoLeft(View(fs, fs.open[0].inode), s1, more);
    NextRoot(fs, a, 0, s1, name, 1, 3, more, es);
  }

  lemma TwoOf(bits: seq<bool>)
    requires |bits| > 4 && !bits[1] && !bits[2]
    ensures TwoFree(bits)
  {
  }

  lemma FirstKeeps(fs: Fs, name: seq<Byte>, form: Form, es: seq<Entry>)
    requires FsOk(fs, {0}) && AtRoot(fs, 0, 1, 3, es) && |name| <= 15 && Used(Indexed(View(fs, fs.open[0].inode))) == [] && TwoFree(fs.bits)
    ensures FsOk(FileCreate(fs, 0, name, true, true, form).0, {0})
  {
    CreationKeepsIff(fs, 0, name, true, true, form, {0});
  }

  // slot f is the first free one
  lemma FirstSlot(files: seq<File>, f: nat)
    requires 3 <= f < |files| && files[f].inode == None && forall j :: 3 <= j < f ==> files[j].inode != None
    ensures FreeFile(files, 3) == Some(f)
  {
    FreeFileIsFirst(files, 3);
  }

  lemma SecondFile(a: Fs, name: seq<Byte>, form: Form, es: seq<Entry>) returns (b: Fs)
    requires FsOk(a, {0}) && AtRoot(a, 1, 2, 4, es) && TwoFree(a.bits) && form.scan == WRITTEN && |name| <= 15
    requires Used(Indexed(View(a, a.open[1].inode))) != []
    ensures b == FileCreate(a, 1, name, true, true, form).0 && b.Shape() && !FsOk(b, {0})
    ensures EntriesOf(b, 0) == es + ([EntryFor(name, 2)] + Spare()) && b.table[0].size == 4 * ENTRY
  {
    var s1, more;
    b, s1, more := WrittenCreation(a, 1, name, form, {0}, 2, 4);
    SecondBreaks(a, name, form, es);
  }

  lemma SecondBreaks(a: Fs, name: seq<Byte>, form: Form, es: seq<Entry>)
    requires FsOk(a, {0}) && AtRoot(a, 1, 2, 4, es) && TwoFree(a.bits) && form.scan == WRITTEN && |name| <= 15
    requires Used(Indexed(View(a, a.open[1].inode))) != []
    ensures !FsOk(FileCreate(a, 1, name, true, true, form).0, {0})
  {
    FreeFileIsFirst(a.files, 3);
    ScanIff(a.ibits);
    CreationKeepsIff(a, 1, name, true, true, form, {0});
    assert !Spares(View(a, a.open[1].inode), form.scan);
  }

  // On every fresh partition with four free blocks: as written, the second file created in the root directory
  // takes the first one's entry with it, and leaves a directory whose size counts four entries where three are.
  lemma SecondFileLosesFirst(fs: Fs, name1: seq<Byte>, name2: seq<Byte>, form: Form) returns (a: Fs, b: Fs)
    requires JustMounted(fs) && FsOk(fs, {0}) && |fs.ibits| > 2 && form.scan == WRITTEN && |name1| <= 15 && |name2| <= 15
    requires |fs.bits| > 4 && !fs.bits[1] && !fs.bits[2] && !fs.bits[3] && !fs.bits[4]
    ensures a == FileCreate(fs, 0, name1, true, true, form).0 && FsOk(a, {0}) && |a.open| > 1
    ensures b == FileCreate(a, 1, name2, true, true, form).0 && b.Shape() && !FsOk(b, {0})
    ensures EntryFor(name1, 1) in EntriesOf(a, 0) && EntryFor(name1, 1) !in EntriesOf(b, 0)
    ensures EntriesOf(b, 0) == Entries(RootBlock()) + ([EntryFor(name2, 2)] + Spare()) && b.table[0].size == 4 * ENTRY
  {
    var s1;
    var es := Entries(RootBlock());
    FreshRoot(fs);
    FreshFiles(fs);
    a, s1 := FirstFile(fs, name1, form, es);
    assert Used([EntryFor(name1, 1)] + Spare())[0] == EntryFor(name1, 1);
    b := SecondFile(a, name2, form, es);
    ListingSplit(s1);
    InListing(EntriesOf(a, 0), EntriesOf(b, 0), EntryFor(name1, 1), EntryFor(name2, 2));
  }

  lemma FreshFiles(fs: Fs)
    requires JustMounted(fs) && |fs.ibits| > 2
    ensures FilesUpTo(fs, 1, 3)
  {
    assert forall n: nat :: n < |fs.ibits| ==> (fs.ibits[n] <==> Live(fs, n));
  }

  lemma InListing(a: seq<Entry>, b: seq<Entry>, e1: Entry, e2: Entry)
    requires a == Entries(RootBlock()) + ([e1] + Spare()) && b == Entries(RootBlock()) + ([e2] + Spare())
    requires e1.no == 1 && e2.no == 2
    ensures e1 in a && e1 !in b
  {
    RootEntries();
    assert a[PER_SECTOR] == e1;
    forall k | 0 <= k < |b|
      ensures b[k].no != 1
    {
      assert k < 2 ==> b[k] == Entries(RootBlock())[k];
      assert 2 <= k < PER_SECTOR ==> b[k] == Entries(RootBlock())[k];
      assert k == PER_SECTOR ==> b[k] == e2;
      assert k > PER_SECTOR ==> b[k] == Spare()[k - PER_SECTOR - 1];
    }
  }

  // One such partition, of 10000 sectors, as the source formats and mounts it.
  lemma SecondFileExample(d0: Disk, records: seq<Inode>, fds: seq<int>, bits: seq<bool>, tail: seq<bool>) returns (fs: Fs, a: Fs, b: Fs)
    requires Mountable(2048, 10000, records, fds, bits, bits)
    ensures F.Format(2048, 10000).dataStart < 0x1_0000_0000 && fs == Mounted(2048, 10000, false, d0, records, fds, bits, bits)
    ensures FsOk(fs, {0}) && |fs.open| > 0
    ensures a == FileCreate(fs, 0, [97], true, true, Form(WRITTEN, true, tail)).0 && FsOk(a, {0}) && |a.open| > 1
    ensures b == FileCreate(a, 1, [98], true, true, Form(WRITTEN, true, tail)).0 && !FsOk(b, {0})
  {
    MountIsJust(2048, 10000, false, d0, records, fds, bits, bits);
    MountEstablishes(2048, 10000, false, d0, records, fds, bits, bits);
    fs := Mounted(2048, 10000, false, d0, records, fds, bits, bits);
    a, b := SecondFileLosesFirst(fs, [97], [98], Form(WRITTEN, true, tail));
  }
}
