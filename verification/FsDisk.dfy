/** One disk under the whole file system: where the super block's layout puts the data blocks, the two bitmaps and the
    inode table, and what each of the kernel's sector writes does to the state of FsFile. */
module FsDisk {
  import opened Bits
  import opened Bytes
  import opened FsInode
  import opened FsDir
  import opened FsFile
  import F = FsFormat

  // ---------- bitmaps in sectors ----------

  // the number with those bits, lowest first
  function BitsValue(bits: seq<bool>): (v: nat)
    ensures v < Power(|bits|)
  {
    if bits == [] then 0 else (if bits[0] then 1 else 0) + 2 * BitsValue(bits[1..])
  }

  function Power(n: nat): nat { if n == 0 then 1 else 2 * Power(n - 1) }

  // bit j of a number
  predicate BitIn(v: nat, j: nat) { if j == 0 then v % 2 == 1 else BitIn(v / 2, j - 1) }

  lemma {:induction false} BitInValue(bits: seq<bool>, j: nat)
    requires j < |bits|
    ensures BitIn(BitsValue(bits), j) == bits[j]
  {
    var v := BitsValue(bits);
    Halves(if bits[0] then 1 else 0, BitsValue(bits[1..]));
    assert v % 2 == (if bits[0] then 1 else 0) && v / 2 == BitsValue(bits[1..]);
    if j > 0 {
      BitInValue(bits[1..], j - 1);
      assert BitIn(v, j) == BitIn(v / 2, j - 1);
    }
  }

  lemma Halves(low: nat, high: nat)
    requires low < 2
    ensures (low + 2 * high) / 2 == high && (low + 2 * high) % 2 == low
  {
  }

  function EightBits(bits: seq<bool>): Byte
    requires |bits| == 8
  {
    assert Power(8) == 256 by {
      assert Power(4) == 16;
    }
    BitsValue(bits)
  }

  // 4096 bits of a bitmap as they lie in a sector
  function MapSector(bits: seq<bool>): Sector
    requires |bits| == 4096
  {
    seq(512, k requires 0 <= k < 512 => EightBits(bits[8 * k..8 * k + 8]))
  }

  // bit i of the bitmap that starts at sector lba
  predicate DiskBit(d: Disk, lba: nat, i: nat) { BitIn(Read(d, lba + i / 4096)[i % 4096 / 8], i % 8) }

  // the first n bits of that bitmap
  function MapOf(d: Disk, lba: nat, n: nat): (bits: seq<bool>)
    ensures |bits| == n
  {
    seq(n, i requires 0 <= i < n => DiskBit(d, lba, i))
  }

  lemma SectorBit(bits: seq<bool>, i: nat)
    requires |bits| == 4096 && i < 4096
    ensures BitIn(MapSector(bits)[i / 8], i % 8) == bits[i]
  {
    BitInValue(bits[8 * (i / 8)..8 * (i / 8) + 8], i % 8);
  }

  // Writing the sector with bit i of a bitmap in memory is what bitmap_sync promises for the bitmap on disk.
  lemma MapWritten(d: Disk, lba: nat, bits: seq<bool>, dbits: seq<bool>, i: nat)
    requires i < |bits| == |dbits| && |bits| % 4096 == 0 && dbits == MapOf(d, lba, |bits|)
    ensures SectorStart(i) + 4096 <= |bits|
    ensures MapOf(Write(d, lba + i / 4096, MapSector(bits[SectorStart(i)..SectorStart(i) + 4096])), lba, |bits|)
            == SyncBits(bits, dbits, i)
  {
    var lo := SectorStart(i);
    var d1 := Write(d, lba + i / 4096, MapSector(bits[lo..lo + 4096]));
    forall j: nat | j < |bits|
      ensures DiskBit(d1, lba, j) == SyncBits(bits, dbits, i)[j]
    {
      BitWritten(d, lba, bits, i, j);
      assert DiskBit(d, lba, j) == dbits[j];
    }
  }

  lemma BitWritten(d: Disk, lba: nat, bits: seq<bool>, i: nat, j: nat)
    requires i < |bits| && j < |bits| && SectorStart(i) + 4096 <= |bits|
    ensures DiskBit(Write(d, lba + i / 4096, MapSector(bits[SectorStart(i)..SectorStart(i) + 4096])), lba, j)
            == if SectorStart(i) <= j < SectorStart(i) + 4096 then bits[j] else DiskBit(d, lba, j)
  {
    var lo := SectorStart(i);
    var part := bits[lo..lo + 4096];
    var d1 := Write(d, lba + i / 4096, MapSector(part));
    if lo <= j < lo + 4096 {
      var k := j % 4096;
      assert j / 4096 == i / 4096 && k == j - lo && k % 8 == j % 8 && part[k] == bits[j];
      assert Read(d1, lba + j / 4096) == MapSector(part);
      SectorBit(part, k);
    } else {
      assert j / 4096 != i / 4096;
      assert Read(d1, lba + j / 4096) == Read(d, lba + j / 4096);
    }
  }

  lemma MapSame(d: Disk, d1: Disk, lba: nat, n: nat)
    requires forall l: nat :: lba <= l <= lba + n / 4096 && l < lba + DivUp(n) ==> Read(d1, l) == Read(d, l)
    ensures MapOf(d1, lba, n) == MapOf(d, lba, n)
  {
    forall i: nat | i < n
      ensures DiskBit(d1, lba, i) == DiskBit(d, lba, i)
    {
      assert Read(d1, lba + i / 4096) == Read(d, lba + i / 4096);
    }
  }

  // sectors of a bitmap of n bits
  function DivUp(n: nat): nat { (n + 4095) / 4096 }

  // ---------- the state on one disk ----------

  // the regions follow one another, as partition_format lays them out
  predicate LaidOut(sb: F.SuperBlock) {
    && sb.inodeMapLba == sb.blockMapLba + sb.blockMapSects && sb.inodeTableLba == sb.inodeMapLba + 1
    && sb.dataStart == sb.inodeTableLba + TABLE_SECTS && sb.blockMapLba > 0
  }

  // what the disk holds is the state's part that is on disk
  ghost predicate Stores(disk: Disk, sb: F.SuperBlock, fs: Fs) {
    && fs.Shape() && LaidOut(sb) && fs.dataStart == sb.dataStart
    && |fs.bits| == sb.blockMapSects * 4096 && |fs.ibits| == 4096
    && fs.dbits == MapOf(disk, sb.blockMapLba, |fs.bits|) && fs.idbits == MapOf(disk, sb.inodeMapLba, 4096)
    && fs.table == TableOf(disk, sb.inodeTableLba)
    && forall l: nat :: sb.dataStart <= l ==> Read(fs.d, l) == Read(disk, l)
  }

  // a formatted partition is laid out like this
  lemma FormatLaysOut(start: nat, secCnt: nat)
    requires secCnt >= F.USED
    ensures LaidOut(F.Format(start, secCnt))
  {
    F.RegionsFit(start, secCnt);
  }

  function WithData(fs: Fs, d: Disk): Fs {
    Fs(d, fs.bits, fs.dbits, fs.ibits, fs.idbits, fs.table, fs.open, fs.files, fs.fds, fs.bufs, fs.dataStart)
  }

  function WithBlockMap(fs: Fs, dbits: seq<bool>): Fs {
    Fs(fs.d, fs.bits, dbits, fs.ibits, fs.idbits, fs.table, fs.open, fs.files, fs.fds, fs.bufs, fs.dataStart)
  }

  function WithInodeMap(fs: Fs, idbits: seq<bool>): Fs {
    Fs(fs.d, fs.bits, fs.dbits, fs.ibits, idbits, fs.table, fs.open, fs.files, fs.fds, fs.bufs, fs.dataStart)
  }

  function WithTable(fs: Fs, table: seq<Inode>): Fs {
    Fs(fs.d, fs.bits, fs.dbits, fs.ibits, fs.idbits, table, fs.open, fs.files, fs.fds, fs.bufs, fs.dataStart)
  }

  lemma TableSame(d: Disk, d1: Disk, lba: nat)
    requires forall l: nat :: lba <= l < lba + TABLE_SECTS ==> Read(d1, l) == Read(d, l)
    ensures TableOf(d1, lba) == TableOf(d, lba)
  {
    forall n: nat | n < INODE_CNT
      ensures RecordAt(d1, lba, n) == RecordAt(d, lba, n)
    {
      var a, b := RecordAt(d1, lba, n), RecordAt(d, lba, n);
      forall j: nat | j < INODE_SIZE
        ensures a[j] == b[j]
      {
        var k := n * INODE_SIZE + j;
        InTable(n, j);
        assert Read(d1, lba + k / SECTOR) == Read(d, lba + k / SECTOR);
        assert a[j] == TableByte(d1, lba, k) && b[j] == TableByte(d, lba, k);
      }
    }
  }

  lemma InTable(n: nat, j: nat)
    requires n < INODE_CNT && j < INODE_SIZE
    ensures (n * INODE_SIZE + j) / SECTOR < TABLE_SECTS
  {
  }

  // A write to the data region changes neither bitmap and no inode record.
  lemma DataWrite(disk: Disk, sb: F.SuperBlock, fs: Fs, lba: nat, b: Sector)
    requires Stores(disk, sb, fs) && sb.dataStart <= lba
    ensures Stores(Write(disk, lba, b), sb, WithData(fs, Write(fs.d, lba, b)))
  {
    var disk1 := Write(disk, lba, b);
    MapSame(disk, disk1, sb.blockMapLba, |fs.bits|);
    MapSame(disk, disk1, sb.inodeMapLba, 4096);
    TableSame(disk, disk1, sb.inodeTableLba);
    forall l: nat | sb.dataStart <= l
      ensures Read(Write(fs.d, lba, b), l) == Read(disk1, l)
    {
      assert Read(fs.d, l) == Read(disk, l);
    }
  }

  // bitmap_sync of the block bitmap changes no data, no inode record and not the inode bitmap ...
  lemma BlockMapWrite(disk: Disk, sb: F.SuperBlock, fs: Fs, i: nat)
    requires Stores(disk, sb, fs) && i < |fs.bits|
    ensures SectorStart(i) + 4096 <= |fs.bits|
    ensures Stores(Write(disk, sb.blockMapLba + i / 4096, MapSector(fs.bits[SectorStart(i)..SectorStart(i) + 4096])), sb,
                   WithBlockMap(fs, SyncBits(fs.bits, fs.dbits, i)))
  {
    MapWritten(disk, sb.blockMapLba, fs.bits, fs.dbits, i);
    var disk1 := Write(disk, sb.blockMapLba + i / 4096, MapSector(fs.bits[SectorStart(i)..SectorStart(i) + 4096]));
    assert i / 4096 < sb.blockMapSects;
    MapSame(disk, disk1, sb.inodeMapLba, 4096);
    TableSame(disk, disk1, sb.inodeTableLba);
  }

  // ... and that of the inode bitmap, which has one sector, nothing else either.
  lemma InodeMapWrite(disk: Disk, sb: F.SuperBlock, fs: Fs, i: nat)
    requires Stores(disk, sb, fs) && i < |fs.ibits|
    ensures SectorStart(i) == 0
    ensures Stores(Write(disk, sb.inodeMapLba, MapSector(fs.ibits)), sb, WithInodeMap(fs, SyncBits(fs.ibits, fs.idbits, i)))
  {
    MapWritten(disk, sb.inodeMapLba, fs.ibits, fs.idbits, i);
    assert fs.ibits[0..4096] == fs.ibits;
    var disk1 := Write(disk, sb.inodeMapLba, MapSector(fs.ibits));
    MapSame(disk, disk1, sb.blockMapLba, |fs.bits|);
    TableSame(disk, disk1, sb.inodeTableLba);
  }

  // inode_sync changes one record of the table, and nothing else.
  lemma RecordWrite(disk: Disk, sb: F.SuperBlock, fs: Fs, i: Inode, narrow: bool)
    requires Stores(disk, sb, fs) && Fits(i) && i.no < INODE_CNT
    ensures Stores(PutRecord(disk, sb.inodeTableLba, Target(i.no, narrow), i), sb, WithTable(fs, fs.table[Target(i.no, narrow) := i]))
  {
    var disk1 := PutRecord(disk, sb.inodeTableLba, Target(i.no, narrow), i);
    PutRecordSyncs(disk, sb.inodeTableLba, Target(i.no, narrow), i);
    SyncIsUpdate(disk, disk1, sb.inodeTableLba, i, narrow);
    MapSame(disk, disk1, sb.blockMapLba, |fs.bits|);
    MapSame(disk, disk1, sb.inodeMapLba, 4096);
  }

  // the state in which sync_dir_entry has succeeded and the new inode's bit is set, in memory only
  function BeforeCommit(fs: Fs, s1: Dir, no: nat): Fs {
    Fs(s1.d, s1.bits, s1.dbits, SetRun(fs.ibits, no, 1, true), fs.idbits, fs.table, fs.open, fs.files, fs.fds, fs.bufs, fs.dataStart)
  }

  // file_create's three writes behind sync_dir_entry -- both inodes' records and the inode bitmap's sector -- leave
  // on disk what the model's commit says.
  lemma CommitOnDisk(disk: Disk, sb: F.SuperBlock, fs: Fs, p: nat, s1: Dir, no: nat, f: nat, narrow: bool)
    requires fs.Shape() && p < |fs.open| && Fits(s1.inode) && s1.inode.no == fs.open[p].inode.no && no < |fs.ibits| && f < MAX_FILES
    requires s1.dataStart == fs.dataStart && Stores(disk, sb, BeforeCommit(fs, s1, no))
    ensures var d1 := PutRecord(disk, sb.inodeTableLba, Target(s1.inode.no, narrow), s1.inode);
            var d2 := PutRecord(d1, sb.inodeTableLba, Target(no, narrow), NewInode(no));
            Stores(Write(d2, sb.inodeMapLba, MapSector(SetRun(fs.ibits, no, 1, true))), sb, Commit(fs, p, s1, no, f, narrow).0)
  {
    var fs0 := BeforeCommit(fs, s1, no);
    var d1 := PutRecord(disk, sb.inodeTableLba, Target(s1.inode.no, narrow), s1.inode);
    RecordWrite(disk, sb, fs0, s1.inode, narrow);
    var fs1 := WithTable(fs0, fs0.table[Target(s1.inode.no, narrow) := s1.inode]);
    var d2 := PutRecord(d1, sb.inodeTableLba, Target(no, narrow), NewInode(no));
    RecordWrite(d1, sb, fs1, NewInode(no), narrow);
    var fs2 := WithTable(fs1, fs1.table[Target(no, narrow) := NewInode(no)]);
    InodeMapWrite(d2, sb, fs2, no);
  }
}
