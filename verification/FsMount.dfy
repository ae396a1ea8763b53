/** The state partition_format, mount_partition and open_root_dir (fs/fs.c, fs/dir.c) start the file system with. */
module FsMount {
  import opened Bits
  import opened Bytes
  import opened FsInode
  import opened FsDir
  import opened FsDirProofs
  import opened FsDirLaws
  import opened FsFile
  import opened FsFileProofs
  import F = FsFormat

  const DOT: Byte := 46

  function Dot(): (e: Entry)
    ensures e.Ok()
  {
    Entry([DOT] + seq(15, _ => 0), 0, FT_DIRECTORY)
  }

  function DotDot(): (e: Entry)
    ensures e.Ok()
  {
    Entry([DOT, DOT] + seq(14, _ => 0), 0, FT_DIRECTORY)
  }

  // the root directory's first block
  function RootBlock(): Sector { WithEntry(WithEntry(ZeroSector(), 0, Dot()), 1, DotDot()) }

  function RootInode(dataStart: U32): (i: Inode)
    ensures Fits(i)
  {
    Inode(0, 2 * ENTRY, [dataStart] + seq(12, _ => 0))
  }

  // the block bitmap once formatted, whole sectors of bits; in the sectors that are not transferred it is junk
  function BlockMap(start: nat, secCnt: nat, strict: bool, junk: seq<bool>): (bits: seq<bool>)
    requires secCnt >= F.USED
    ensures |bits| == |junk|
  {
    seq(|junk|, i requires 0 <= i < |junk| => F.MapBit(start, secCnt, strict, junk, i))
  }

  // bits in the sectors that are not transferred: what memory has taken, the disk has marked
  predicate JunkCovers(start: nat, secCnt: nat, junk: seq<bool>, stale: seq<bool>)
    requires secCnt >= F.USED && |junk| == |stale|
  {
    var cnt := F.SectorsWritten(F.Format(start, secCnt).blockMapSects);
    forall i :: cnt * F.BITS_PER_SECTOR <= i < |junk| && junk[i] ==> stale[i]
  }

  function InodeMap(): (bits: seq<bool>)
    ensures |bits| == INODE_CNT && forall i :: 0 <= i < INODE_CNT ==> (bits[i] <==> i == 0)
  {
    seq(INODE_CNT, i => i == 0)
  }

  function NoFiles(): (files: seq<File>)
    ensures |files| == MAX_FILES && forall f :: 0 <= f < MAX_FILES ==> files[f] == NoFile()
  {
    seq(MAX_FILES, _ => NoFile())
  }

  /** d0, records and stale: what the disk held before formatting -- most inode records are not overwritten;
      junk: what mount_partition's buffer held.  strict is the padding loop with the corrected bound. */
  function Mounted(start: nat, secCnt: nat, strict: bool, d0: Disk, records: seq<Inode>, fds: seq<int>,
                   junk: seq<bool>, stale: seq<bool>): Fs
    requires secCnt >= F.USED && |records| == INODE_CNT && F.Format(start, secCnt).dataStart < 0x1_0000_0000
  {
    var sb := F.Format(start, secCnt);
    var root := RootInode(sb.dataStart);
    Fs(Write(d0, sb.dataStart, RootBlock()), BlockMap(start, secCnt, strict, junk), BlockMap(start, secCnt, strict, stale),
       InodeMap(), InodeMap(), records[0 := root], [OpenInode(root, 1)], NoFiles(), fds, 0, sb.dataStart)
  }

  lemma RootEntries()
    ensures TwoDots(Entries(RootBlock()))
  {
    WithEntryEntries(ZeroSector(), 0, Dot());
    WithEntryEntries(WithEntry(ZeroSector(), 0, Dot()), 1, DotDot());
    NewBlockEntries(Dot());
    assert Entries(NewBlock(Dot())) == Entries(WithEntry(ZeroSector(), 0, Dot()));
    forall k | 2 <= k < PER_SECTOR
      ensures Entries(RootBlock())[k] == ZeroEntry()
    {
      assert ([Dot()] + Spare())[k] == Spare()[k - 1];
    }
  }

  lemma RootListing(d: Disk, root: Inode, dataStart: U32)
    requires dataStart != 0 && root == RootInode(dataStart) && Read(d, dataStart) == RootBlock()
    ensures AllBlocks(d, root)[0] == dataStart && forall j :: 0 < j < BLOCKS ==> AllBlocks(d, root)[j] == 0
    ensures Slots(d, AllBlocks(d, root)) == Entries(RootBlock())
  {
    var blocks := AllBlocks(d, root);
    RootBlocks(d, root, dataStart);
    SlotsHead(d, blocks);
    NoSlots(d, blocks[1..]);
    assert BlockSlots(d, dataStart) + [] == BlockSlots(d, dataStart);
  }

  lemma RootBlocks(d: Disk, root: Inode, dataStart: U32)
    requires root == RootInode(dataStart)
    ensures AllBlocks(d, root)[0] == dataStart && forall j :: 0 < j < BLOCKS ==> AllBlocks(d, root)[j] == 0
  {
  }

  // the two entries of the root directory, both of the root itself
  ghost predicate TwoDots(es: seq<Entry>) {
    |es| == PER_SECTOR && es[0] == Dot() && es[1] == DotDot() && forall k :: 2 <= k < PER_SECTOR ==> es[k] == ZeroEntry()
  }

  lemma RootCount(es: seq<Entry>)
    requires TwoDots(es)
    ensures UsedCount(es) == 2
  {
    assert es == [es[0]] + [es[1]] + es[2..];
    UsedAround([es[0]], [es[1]], es[2..]);
    NoneUsed(es[2..]);
  }

  lemma RootEntriesOk(fs: Fs, es: seq<Entry>)
    requires TwoDots(es) && Live(fs, 0)
    ensures EntriesOk(fs, es, {0})
  {
  }

  // the root directory is well-formed exactly if its block is marked
  lemma RootOk(s: Dir, dataStart: U32)
    requires s.Shape() && s.dataStart == dataStart && s.inode == RootInode(dataStart) && Read(s.d, dataStart) == RootBlock()
    ensures OwnedBy(s) == {dataStart} && (DirOk(s) <==> On(dataStart, s.bits, dataStart))
  {
    RootListing(s.d, s.inode, dataStart);
    var blocks := s.Blocks();
    assert blocks[0] in blocks;
    assert forall x :: x in blocks ==> x == 0 || x == dataStart;
    assert dataStart in OwnedBy(s);
  }

  // the fields of a file system that has just been formatted and mounted
  ghost predicate JustMounted(fs: Fs) {
    && fs.Shape() && fs.table[0] == RootInode(fs.dataStart) && Read(fs.d, fs.dataStart) == RootBlock()
    && (forall n: nat :: Live(fs, n) <==> n == 0)
    && fs.open == [OpenInode(RootInode(fs.dataStart), 1)] && fs.files == NoFiles()
    && fs.ibits == fs.idbits
  }

  lemma MountedBlocks(fs: Fs)
    requires JustMounted(fs)
    ensures BlocksOk(fs) <==> On(fs.dataStart, fs.bits, fs.dataStart)
  {
    var root := RootInode(fs.dataStart);
    assert Live(fs, 0) && View(fs, fs.table[0]) == View(fs, root);
    RootOk(View(fs, root), fs.dataStart);
  }

  lemma MountedRest(fs: Fs)
    requires JustMounted(fs)
    ensures DirectoriesOk(fs, {0}) && OpenOk(fs) && FilesOk(fs)
  {
    RootDirectory(fs, RootInode(fs.dataStart));
    assert OpenAt(fs, 0);
  }

  // it is consistent exactly if the root directory's block is marked and the bitmap in memory covered on disk
  lemma MountedIff(fs: Fs)
    requires JustMounted(fs)
    ensures FsOk(fs, {0}) <==> On(fs.dataStart, fs.bits, fs.dataStart) && Covers(fs.bits, fs.dbits)
  {
    MountedBlocks(fs);
    MountedRest(fs);
  }

  // a partition that can be formatted and mounted, with any contents of its inode table
  predicate Mountable(start: nat, secCnt: nat, records: seq<Inode>, fds: seq<int>, junk: seq<bool>, stale: seq<bool>) {
    && secCnt >= F.USED && |records| == INODE_CNT && (forall n :: 0 <= n < INODE_CNT ==> Fits(records[n])) && |fds| == MAX_FDS
    && start + secCnt + 8192 < 0x1_0000_0000 && F.SectorsWritten(F.Format(start, secCnt).blockMapSects) > 0
    && |junk| == |stale| == F.Format(start, secCnt).blockMapSects * F.BITS_PER_SECTOR
  }

  // Formatting and mounting, unless they stop at the bitmap, establish consistency exactly when there are at
  // least 8 data blocks -- with fewer, the padding loop frees the root directory's own block -- and the part
  // of the bitmap that is not transferred happens to be covered; below 256 sectors there is no such part.
  lemma MountEstablishes(start: nat, secCnt: nat, strict: bool, d0: Disk, records: seq<Inode>, fds: seq<int>,
                         junk: seq<bool>, stale: seq<bool>)
    requires Mountable(start, secCnt, records, fds, junk, stale)
    ensures F.Format(start, secCnt).dataStart < 0x1_0000_0000
    ensures FsOk(Mounted(start, secCnt, strict, d0, records, fds, junk, stale), {0}) <==>
            F.BitLen(secCnt) >= 8 && JunkCovers(start, secCnt, junk, stale)
    ensures F.Format(start, secCnt).blockMapSects < 256 ==> JunkCovers(start, secCnt, junk, stale)
  {
    MountIsJust(start, secCnt, strict, d0, records, fds, junk, stale);
    var fs := Mounted(start, secCnt, strict, d0, records, fds, junk, stale);
    RootMarked(start, secCnt, strict, junk, fs);
    MapsCover(start, secCnt, strict, junk, stale);
    WholeTransfer(start, secCnt, junk, stale);
    MountedIff(fs);
  }

  lemma WholeTransfer(start: nat, secCnt: nat, junk: seq<bool>, stale: seq<bool>)
    requires secCnt >= F.USED && |junk| == |stale| == F.Format(start, secCnt).blockMapSects * F.BITS_PER_SECTOR
    ensures F.Format(start, secCnt).blockMapSects < 256 ==> JunkCovers(start, secCnt, junk, stale)
  {
  }

  lemma MountIsJust(start: nat, secCnt: nat, strict: bool, d0: Disk, records: seq<Inode>, fds: seq<int>,
                    junk: seq<bool>, stale: seq<bool>)
    requires Mountable(start, secCnt, records, fds, junk, stale)
    ensures F.Format(start, secCnt).dataStart < 0x1_0000_0000 && F.BitLen(secCnt) > 0 && |junk| > 0
    ensures JustMounted(Mounted(start, secCnt, strict, d0, records, fds, junk, stale))
  {
    F.RegionsFit(start, secCnt);
  }

  lemma RootMarked(start: nat, secCnt: nat, strict: bool, junk: seq<bool>, fs: Fs)
    requires secCnt >= F.USED && fs.dataStart == F.Format(start, secCnt).dataStart && |junk| > 0
    requires F.SectorsWritten(F.Format(start, secCnt).blockMapSects) > 0
    requires fs.bits == BlockMap(start, secCnt, strict, junk) && F.BitLen(secCnt) > 0
    ensures On(fs.dataStart, fs.bits, fs.dataStart) <==> F.BitLen(secCnt) >= 8
  {
  }

  lemma MapsCover(start: nat, secCnt: nat, strict: bool, junk: seq<bool>, stale: seq<bool>)
    requires secCnt >= F.USED && |junk| == |stale|
    ensures Covers(BlockMap(start, secCnt, strict, junk), BlockMap(start, secCnt, strict, stale)) <==>
            JunkCovers(start, secCnt, junk, stale)
  {
    var bits, dbits := BlockMap(start, secCnt, strict, junk), BlockMap(start, secCnt, strict, stale);
    var written := F.SectorsWritten(F.Format(start, secCnt).blockMapSects) * F.BITS_PER_SECTOR;
    assert forall i :: written <= i < |junk| ==> bits[i] == junk[i] && dbits[i] == stale[i];
    assert forall i :: 0 <= i < |junk| && i < written ==> bits[i] == dbits[i];
  }

  lemma RootDirectory(fs: Fs, root: Inode)
    requires fs.Shape() && fs.table[0] == root && root == RootInode(fs.dataStart) && Read(fs.d, fs.dataStart) == RootBlock()
    requires Live(fs, 0)
    ensures DirectoryOk(fs, 0, {0})
  {
    RootListing(fs.d, root, fs.dataStart);
    RootEntries();
    var es := EntriesOf(fs, 0);
    RootCount(es);
    RootEntriesOk(fs, es);
  }
}
