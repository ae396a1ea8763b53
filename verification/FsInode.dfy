/** The on-disk inode table of fs/inode.c: 76-byte records, read and written through one or two sectors. */
module FsInode {
  import opened Bytes

  const SECTOR: nat := 512
  const INODE_SIZE: nat := 76       // sizeof(struct inode)
  const INODE_CNT: nat := 4096      // MAX_FILES_PER_PART
  const TABLE_SECTS: nat := 608

  type Sector = s: seq<Byte> | |s| == 512 witness seq(512, _ => 0)
  type Disk = map<nat, Sector>

  // ide_read of one sector
  function Read(d: Disk, lba: nat): Sector { if lba in d then d[lba] else seq(512, _ => 0) }

  // struct inode: what is kept on disk, and what only means something in memory
  datatype Inode = Inode(no: U32, size: U32, sectors: seq<U32>)
  datatype InMemory = InMemory(inode: Inode, openCnts: U32, writeDeny: U32, prev: U32, next: U32)

  predicate Fits(i: Inode) { |i.sectors| == 13 }

  // the 19 words of the structure, in order
  function Words(m: InMemory): (ws: seq<U32>)
    requires Fits(m.inode)
    ensures |ws| == 19
  {
    [m.inode.no, m.inode.size, m.openCnts, m.writeDeny] + m.inode.sectors + [m.prev, m.next]
  }

  // what inode_sync writes: the three members that only matter in memory are cleared
  function Record(i: Inode): (b: seq<Byte>)
    requires Fits(i)
    ensures |b| == INODE_SIZE
  {
    Encode(Words(InMemory(i, 0, 0, 0, 0)))
  }

  function Parse(b: seq<Byte>): (i: Inode)
    requires |b| == INODE_SIZE
    ensures Fits(i)
  {
    var ws := Decode(b, 0, 19);
    Inode(ws[0], ws[1], ws[4..17])
  }

  // The persistent fields survive being written and read.
  lemma ParseRecord(i: Inode)
    requires Fits(i)
    ensures Parse(Record(i)) == i
  {
    DecodeEncode(Words(InMemory(i, 0, 0, 0, 0)));
  }

  // ---------- inode_locate ----------

  datatype Position = Position(twoSec: bool, lba: nat, off: nat)

  function Locate(tableLba: nat, no: nat): Position {
    var off := no * INODE_SIZE;
    Position(SECTOR - off % SECTOR < INODE_SIZE, tableLba + off / SECTOR, off % SECTOR)
  }

  // bytes of the access made for a position
  function Span(p: Position): nat { if p.twoSec then 2 * SECTOR else SECTOR }

  // For each of the 4096 inodes the one or two sectors cover its record, and stay inside the table's 608.
  lemma LocateCovers(tableLba: nat, no: nat)
    requires no < INODE_CNT
    ensures var p := Locate(tableLba, no);
            && (p.lba - tableLba) * SECTOR + p.off == no * INODE_SIZE
            && p.off + INODE_SIZE <= Span(p)
            && tableLba <= p.lba && p.lba + Span(p) / SECTOR <= tableLba + TABLE_SECTS
  {
  }

  // Records of different inodes do not overlap.
  lemma RecordsApart(a: nat, b: nat)
    requires a < b < INODE_CNT
    ensures a * INODE_SIZE + INODE_SIZE <= b * INODE_SIZE <= TABLE_SECTS * SECTOR - INODE_SIZE
  {
  }

  // ---------- the table as bytes ----------

  // byte k of the table that starts at sector lba
  function TableByte(d: Disk, lba: nat, k: nat): Byte {
    Read(d, lba + k / SECTOR)[k % SECTOR]
  }

  function RecordAt(d: Disk, lba: nat, no: nat): (b: seq<Byte>)
    ensures |b| == INODE_SIZE
  {
    seq<Byte>(INODE_SIZE, j requires 0 <= j < INODE_SIZE => TableByte(d, lba, no * INODE_SIZE + j))
  }

  // the sectors an access reads, as one buffer
  function ReadSpan(d: Disk, p: Position): (b: seq<Byte>)
    ensures |b| == Span(p)
  {
    if p.twoSec then Read(d, p.lba) + Read(d, p.lba + 1) else Read(d, p.lba)
  }

  lemma SpanByte(d: Disk, tableLba: nat, p: Position, j: nat)
    requires tableLba <= p.lba && j < Span(p)
    ensures ReadSpan(d, p)[j] == TableByte(d, tableLba, (p.lba - tableLba) * SECTOR + j)
  {
    var k := (p.lba - tableLba) * SECTOR + j;
    if j < SECTOR {
      assert k / SECTOR == p.lba - tableLba && k % SECTOR == j;
    } else {
      assert k / SECTOR == p.lba - tableLba + 1 && k % SECTOR == j - SECTOR;
    }
  }

  // the table slot inode_sync writes; with narrow the number goes through the uint8_t of the source
  function Target(no: nat, narrow: bool): nat { if narrow then no % 256 else no }

  // slot no now holds i's record and no byte of the table outside it changed
  ghost predicate Synced(d: Disk, d1: Disk, lba: nat, no: nat, i: Inode)
    requires Fits(i)
  {
    && RecordAt(d1, lba, no) == Record(i)
    && forall k: nat :: !(no * INODE_SIZE <= k < (no + 1) * INODE_SIZE) ==> TableByte(d1, lba, k) == TableByte(d, lba, k)
  }

  // A cold inode_open after inode_sync finds the persistent fields, and no other inode's record changed --
  // as written for the numbers below 256; above, the record of the inode stays what it was and that of
  // the number modulo 256 is lost.
  lemma SyncThenOpen(d: Disk, d1: Disk, lba: nat, i: Inode, narrow: bool)
    requires Fits(i) && i.no < INODE_CNT && Synced(d, d1, lba, Target(i.no, narrow), i)
    ensures Parse(RecordAt(d1, lba, i.no)) == if !narrow || i.no < 256 then i else Parse(RecordAt(d, lba, i.no))
    ensures Parse(RecordAt(d1, lba, Target(i.no, narrow))) == i
    ensures forall n: nat :: n != Target(i.no, narrow) ==> RecordAt(d1, lba, n) == RecordAt(d, lba, n)
  {
    ParseRecord(i);
    var t := Target(i.no, narrow);
    assert RecordAt(d1, lba, t) == Record(i);
    if t != i.no {
      OtherRecord(d, d1, lba, i, t, i.no);
    }
    forall n: nat | n != Target(i.no, narrow)
      ensures RecordAt(d1, lba, n) == RecordAt(d, lba, n)
    {
      OtherRecord(d, d1, lba, i, Target(i.no, narrow), n);
    }
  }

  lemma OtherRecord(d: Disk, d1: Disk, lba: nat, i: Inode, no: nat, n: nat)
    requires Fits(i) && Synced(d, d1, lba, no, i) && n != no
    ensures RecordAt(d1, lba, n) == RecordAt(d, lba, n)
  {
    var a, b := RecordAt(d1, lba, n), RecordAt(d, lba, n);
    forall j: nat | j < INODE_SIZE
      ensures a[j] == b[j]
    {
      var k := n * INODE_SIZE + j;
      assert !(no * INODE_SIZE <= k < (no + 1) * INODE_SIZE);
    }
  }

  // the table as records
  function TableOf(d: Disk, lba: nat): (t: seq<Inode>)
    ensures |t| == INODE_CNT
  {
    seq(INODE_CNT, n requires 0 <= n < INODE_CNT => Parse(RecordAt(d, lba, n)))
  }

  // On records, inode_sync is the update of one element.
  lemma SyncIsUpdate(d: Disk, d1: Disk, lba: nat, i: Inode, narrow: bool)
    requires Fits(i) && i.no < INODE_CNT && Synced(d, d1, lba, Target(i.no, narrow), i)
    ensures TableOf(d1, lba) == TableOf(d, lba)[Target(i.no, narrow) := i]
  {
    SyncThenOpen(d, d1, lba, i, narrow);
  }

  // the disk after the read-modify-write of slot no: one or two sectors
  function PutRecord(d: Disk, tableLba: nat, no: nat, i: Inode): Disk
    requires Fits(i) && no < INODE_CNT
  {
    var p := Locate(tableLba, no);
    LocateCovers(tableLba, no);
    var buf := Splice(ReadSpan(d, p), p.off, Record(i));
    if p.twoSec then d[p.lba := buf[..SECTOR]][p.lba + 1 := buf[SECTOR..]] else d[p.lba := buf]
  }

  // It changes that slot alone, and no sector outside the table.
  lemma PutRecordSyncs(d: Disk, tableLba: nat, no: nat, i: Inode)
    requires Fits(i) && no < INODE_CNT
    ensures var d1 := PutRecord(d, tableLba, no, i);
            && Synced(d, d1, tableLba, no, i)
            && forall l: nat :: l < tableLba || tableLba + TABLE_SECTS <= l ==> Read(d1, l) == Read(d, l)
  {
    var p := Locate(tableLba, no);
    LocateCovers(tableLba, no);
    var buf := Splice(ReadSpan(d, p), p.off, Record(i));
    Written(d, PutRecord(d, tableLba, no, i), tableLba, no, p, Record(i), buf);
  }

  class InodeTable {
    var disk: Disk
    const tableLba: nat

    constructor (disk: Disk, tableLba: nat)
      ensures this.disk == disk && this.tableLba == tableLba
    {
      this.disk, this.tableLba := disk, tableLba;
    }

    // inode_sync
    method Sync(i: Inode, narrow: bool)
      requires Fits(i) && i.no < INODE_CNT
      modifies this
      ensures disk == PutRecord(old(disk), tableLba, Target(i.no, narrow), i)
      ensures Synced(old(disk), disk, tableLba, Target(i.no, narrow), i)
      ensures forall l: nat :: l < tableLba || tableLba + TABLE_SECTS <= l ==> Read(disk, l) == Read(old(disk), l)
    {
      var no := Target(i.no, narrow);
      var p := Locate(tableLba, no);
      LocateCovers(tableLba, no);
      var buf := Splice(ReadSpan(disk, p), p.off, Record(i));
      if p.twoSec {
        disk := disk[p.lba := buf[..SECTOR]][p.lba + 1 := buf[SECTOR..]];
      } else {
        disk := disk[p.lba := buf];
      }
      PutRecordSyncs(old(disk), tableLba, no, i);
    }

    // inode_open of an inode that is not cached
    method OpenCold(no: nat) returns (i: Inode)
      requires no < INODE_CNT
      ensures i == Parse(RecordAt(disk, tableLba, no))
    {
      var p := Locate(tableLba, no);
      LocateCovers(tableLba, no);
      var buf := ReadSpan(disk, p);
      forall j | 0 <= j < INODE_SIZE
        ensures buf[p.off + j] == RecordAt(disk, tableLba, no)[j]
      {
        SpanByte(disk, tableLba, p, p.off + j);
      }
      assert buf[p.off..p.off + INODE_SIZE] == RecordAt(disk, tableLba, no);
      i := Parse(buf[p.off..p.off + INODE_SIZE]);
    }
  }

  // what the read-modify-write of one access leaves in the table
  lemma Written(d: Disk, d1: Disk, tableLba: nat, no: nat, p: Position, rec: seq<Byte>, buf: seq<Byte>)
    requires no < INODE_CNT && p == Locate(tableLba, no) && |rec| == INODE_SIZE
    requires p.off + INODE_SIZE <= Span(p) && buf == Splice(ReadSpan(d, p), p.off, rec)
    requires d1 == if p.twoSec then d[p.lba := buf[..SECTOR]][p.lba + 1 := buf[SECTOR..]] else d[p.lba := buf]
    ensures RecordAt(d1, tableLba, no) == rec
    ensures forall k: nat :: !(no * INODE_SIZE <= k < (no + 1) * INODE_SIZE) ==>
              TableByte(d1, tableLba, k) == TableByte(d, tableLba, k)
  {
    assert ReadSpan(d1, p) == buf;
    forall j: nat | j < INODE_SIZE
      ensures RecordAt(d1, tableLba, no)[j] == rec[j]
    {
      SpanByte(d1, tableLba, p, p.off + j);
      assert buf[p.off + j] == rec[j];
    }
    forall k: nat | !(no * INODE_SIZE <= k < (no + 1) * INODE_SIZE)
      ensures TableByte(d1, tableLba, k) == TableByte(d, tableLba, k)
    {
      OtherByte(d, d1, tableLba, no, p, rec, buf, k);
    }
  }

  lemma OtherByte(d: Disk, d1: Disk, tableLba: nat, no: nat, p: Position, rec: seq<Byte>, buf: seq<Byte>, k: nat)
    requires no < INODE_CNT && p == Locate(tableLba, no) && |rec| == INODE_SIZE
    requires p.off + INODE_SIZE <= Span(p) && buf == Splice(ReadSpan(d, p), p.off, rec)
    requires d1 == if p.twoSec then d[p.lba := buf[..SECTOR]][p.lba + 1 := buf[SECTOR..]] else d[p.lba := buf]
    requires !(no * INODE_SIZE <= k < (no + 1) * INODE_SIZE)
    ensures TableByte(d1, tableLba, k) == TableByte(d, tableLba, k)
  {
    var first := p.lba - tableLba;
    var j := k - first * SECTOR;
    if 0 <= j < Span(p) {
      assert ReadSpan(d1, p) == buf;
      SpanByte(d, tableLba, p, j);
      SpanByte(d1, tableLba, p, j);
      assert buf[j] == ReadSpan(d, p)[j];
    } else {
      assert tableLba + k / SECTOR != p.lba && (p.twoSec ==> tableLba + k / SECTOR != p.lba + 1);
    }
  }
}
