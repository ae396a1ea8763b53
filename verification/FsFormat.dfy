/** partition_format (fs/fs.c): where the regions of a file system lie, and which bits of the block bitmap
    it leaves free. */
module FsFormat {
  import opened BitmapModel

  const SECTOR: nat := 512
  const BITS_PER_SECTOR: nat := 4096
  const INODE_MAP_SECTS: nat := 1
  const INODE_TABLE_SECTS: nat := 608
  const USED: nat := 611   // boot sector, super block, inode bitmap, inode table

  function DivUp(x: nat, step: nat): nat
    requires step > 0
  {
    (x + step - 1) / step
  }

  datatype SuperBlock = SuperBlock(
    start: nat, secCnt: nat, blockMapLba: nat, blockMapSects: nat, inodeMapLba: nat, inodeMapSects: nat,
    inodeTableLba: nat, inodeTableSects: nat, dataStart: nat)

  // bitmap sectors as first computed, from all free sectors
  function MapSects(secCnt: nat): nat
    requires secCnt >= USED
  {
    DivUp(secCnt - USED, BITS_PER_SECTOR)
  }

  // block_bitmap_bit_len: data blocks the bitmap is for
  function BitLen(secCnt: nat): nat
    requires secCnt >= USED
  {
    secCnt - USED - MapSects(secCnt)
  }

  function Format(start: nat, secCnt: nat): SuperBlock
    requires secCnt >= USED
  {
    var mapSects := DivUp(BitLen(secCnt), BITS_PER_SECTOR);
    var blockMap := start + 2;
    var inodeMap := blockMap + mapSects;
    var inodeTable := inodeMap + INODE_MAP_SECTS;
    SuperBlock(start, secCnt, blockMap, mapSects, inodeMap, INODE_MAP_SECTS, inodeTable, INODE_TABLE_SECTS,
               inodeTable + INODE_TABLE_SECTS)
  }

  // The regions follow one another behind the super block, the bitmap has a bit for each data block, and
  // the data blocks end inside the partition, which the second computation of the bitmap's size shortens
  // by at most one sector while there are no more than 4096 * 4096 free sectors.
  lemma RegionsFit(start: nat, secCnt: nat)
    requires secCnt >= USED
    ensures var sb := Format(start, secCnt);
            && sb.blockMapLba == start + 2 && sb.inodeMapLba == sb.blockMapLba + sb.blockMapSects
            && sb.inodeTableLba == sb.inodeMapLba + 1 && sb.dataStart == sb.inodeTableLba + 608
            && BitLen(secCnt) <= sb.blockMapSects * BITS_PER_SECTOR
            && sb.dataStart + BitLen(secCnt) == start + secCnt - (MapSects(secCnt) - sb.blockMapSects)
            && sb.dataStart + BitLen(secCnt) <= start + secCnt
            && (secCnt - USED <= 4096 * 4096 ==> start + secCnt - 1 <= sb.dataStart + BitLen(secCnt))
  {
  }

  // ---------- the padding of the block bitmap ----------

  // a bit of the bitmap partition_format writes; strict is the padding loop with `<` for `<=`
  predicate PaddedBit(bitLen: nat, strict: bool, i: nat) {
    (i == 0 && bitLen >= 8) || i > bitLen || (strict && i == bitLen)
  }

  // bits of the bitmap up to the end of the padded sector
  predicate Padded(bytes: seq<bv8>, bitLen: nat, strict: bool, byteCnt: nat)
    requires byteCnt <= |bytes|
  {
    forall i :: 0 <= i < 8 * byteCnt ==> (BitsOf(bytes)[i] <==> PaddedBit(bitLen, strict, i))
  }

  // the byte in which the data blocks end, after k turns of the clearing loop
  function EdgeByte(k: nat): bv8
    requires k <= 8
  {
    if k == 0 then 0xff else EdgeByte(k - 1) & !Mask(k - 1)
  }

  lemma {:induction false} EdgeBits(k: nat, j: nat)
    requires k <= 8 && j < 8
    ensures BitOf(EdgeByte(k), j) <==> j >= k
  {
    if k == 0 {
      FullByte(0xff);
    } else {
      EdgeBits(k - 1, j);
      SetInByteBit(EdgeByte(k - 1), k - 1, false, j);
    }
  }

  lemma ZeroByte(j: nat)
    requires j < 8
    ensures !BitOf(0, j) && (BitOf(1, j) <==> j == 0)
  {
  }

  // what the three phases leave in byte b
  function PaddedByte(bitLen: nat, strict: bool, b: nat): bv8 {
    var edge := bitLen / 8;
    if b < edge then (if b == 0 then 1 else 0)
    else if b == edge then EdgeByte(bitLen % 8 + if strict then 0 else 1)
    else 0xff
  }

  lemma PaddedByteBits(bitLen: nat, strict: bool, b: nat, j: nat)
    requires j < 8
    ensures BitOf(PaddedByte(bitLen, strict, b), j) <==> PaddedBit(bitLen, strict, 8 * b + j)
  {
    ZeroByte(j);
    FullByte(0xff);
    EdgeBits(bitLen % 8 + if strict then 0 else 1, j);
  }

  // memset
  method Memset(buf: array<bv8>, off: nat, value: bv8, size: nat)
    requires off + size <= buf.Length
    modifies buf
    ensures forall b :: 0 <= b < buf.Length ==> buf[b] == if off <= b < off + size then value else old(buf[b])
  {
    for j := 0 to size
      invariant forall b :: 0 <= b < buf.Length ==> buf[b] == if off <= b < off + j then value else old(buf[b])
    {
      buf[off + j] := value;
    }
  }

  // the loop that frees the bits of the byte in which the data blocks end
  method FreeEdge(buf: array<bv8>, lastByte: nat, turns: nat)
    requires lastByte < buf.Length && buf[lastByte] == 0xff && turns <= 8
    modifies buf
    ensures forall b :: 0 <= b < buf.Length ==> buf[b] == if b == lastByte then EdgeByte(turns) else old(buf[b])
  {
    var bitIdx := 0;
    while bitIdx < turns
      invariant 0 <= bitIdx <= turns
      invariant forall b :: 0 <= b < buf.Length ==> buf[b] == if b == lastByte then EdgeByte(bitIdx) else old(buf[b])
    {
      buf[lastByte] := buf[lastByte] & !Mask(bitIdx);
      bitIdx := bitIdx + 1;
    }
  }

  // the block bitmap part of partition_format on its zeroed buffer
  method FillBlockBitmap(buf: array<bv8>, bitLen: nat, strict: bool)
    requires forall b :: 0 <= b < buf.Length ==> buf[b] == 0
    requires bitLen / 8 + SECTOR - bitLen / 8 % SECTOR <= buf.Length
    modifies buf
    ensures Padded(buf[..], bitLen, strict, bitLen / 8 + SECTOR - bitLen / 8 % SECTOR)
  {
    buf[0] := buf[0] | 1;
    var lastByte, lastBit := bitLen / 8, bitLen % 8;
    var lastSize := SECTOR - lastByte % SECTOR;
    Memset(buf, lastByte, 0xff, lastSize);
    FreeEdge(buf, lastByte, lastBit + if strict then 0 else 1);
    BytesPadded(buf[..], bitLen, strict, lastByte + lastSize);
  }

  lemma BytesPadded(bytes: seq<bv8>, bitLen: nat, strict: bool, byteCnt: nat)
    requires byteCnt <= |bytes|
    requires forall b :: 0 <= b < byteCnt ==> bytes[b] == PaddedByte(bitLen, strict, b)
    ensures Padded(bytes, bitLen, strict, byteCnt)
  {
    forall i | 0 <= i < 8 * byteCnt
      ensures BitsOf(bytes)[i] <==> PaddedBit(bitLen, strict, i)
    {
      PaddedByteBits(bitLen, strict, i / 8, i % 8);
    }
  }

  // ---------- counts that are too narrow ----------

  // ide_write and ide_read take the number of sectors as a uint8_t, and assert that it is not 0
  function SectorsWritten(cnt: nat): nat { cnt % 256 }

  // ---------- what block_bitmap_alloc can hand out ----------

  // bit i of the block bitmap once it is formatted and mounted: in the sectors that were not transferred it is
  // what was there before
  predicate MapBit(start: nat, secCnt: nat, strict: bool, junk: seq<bool>, i: nat)
    requires secCnt >= USED && i < |junk|
  {
    if i < SectorsWritten(Format(start, secCnt).blockMapSects) * BITS_PER_SECTOR then PaddedBit(BitLen(secCnt), strict, i)
    else junk[i]
  }

  // Unless the assertion on a count of 0 stops formatting, the bitmap that is mounted is the one formatted,
  // whatever disk and memory held before, exactly if it has fewer than 256 sectors.
  lemma BitmapTransfer(start: nat, secCnt: nat, strict: bool)
    requires secCnt >= USED
    ensures (forall junk: seq<bool>, i: nat :: |junk| == Format(start, secCnt).blockMapSects * BITS_PER_SECTOR && i < |junk| ==>
               (MapBit(start, secCnt, strict, junk, i) <==> PaddedBit(BitLen(secCnt), strict, i)))
            <==> Format(start, secCnt).blockMapSects < 256
  {
    var cnt := Format(start, secCnt).blockMapSects;
    if cnt >= 256 {
      var at := SectorsWritten(cnt) * BITS_PER_SECTOR;
      var junk := seq(cnt * BITS_PER_SECTOR, _ => !PaddedBit(BitLen(secCnt), strict, at));
      assert at < |junk| && !(MapBit(start, secCnt, strict, junk, at) <==> PaddedBit(BitLen(secCnt), strict, at));
    }
  }

  // every free bit of the bitmap stands for a sector inside the partition, whatever was there before
  ghost predicate AllocsInside(start: nat, secCnt: nat, strict: bool)
    requires secCnt >= USED
  {
    var sb := Format(start, secCnt);
    forall junk: seq<bool>, i: nat ::
      |junk| == sb.blockMapSects * BITS_PER_SECTOR && i < |junk| && !MapBit(start, secCnt, strict, junk, i) ==>
        sb.dataStart + i < start + secCnt
  }

  // As written the padding loop frees one bit too many, and its sector is the first behind the partition
  // -- unless the bitmap turned out one sector shorter than first computed, or the data blocks fill it to
  // the last bit.  With the strict bound no such sector is ever handed out.  A bitmap of more than 256
  // sectors loses its padding in either form, and is safe only if it has no bits behind the partition.
  lemma AllocInsideIff(start: nat, secCnt: nat, strict: bool)
    requires secCnt >= USED && SectorsWritten(Format(start, secCnt).blockMapSects) > 0
    ensures var sb := Format(start, secCnt);
            AllocsInside(start, secCnt, strict) <==>
              if sb.blockMapSects < 256 then
                strict || sb.blockMapSects < MapSects(secCnt) || BitLen(secCnt) % BITS_PER_SECTOR == 0
              else sb.dataStart + sb.blockMapSects * BITS_PER_SECTOR <= start + secCnt
  {
    RegionsFit(start, secCnt);
    var sb := Format(start, secCnt);
    if sb.blockMapSects < 256 {
      NarrowMap(start, secCnt, strict);
    } else {
      WideMap(start, secCnt, strict);
    }
  }

  lemma NarrowMap(start: nat, secCnt: nat, strict: bool)
    requires secCnt >= USED && Format(start, secCnt).blockMapSects < 256
    ensures AllocsInside(start, secCnt, strict) <==>
            strict || Format(start, secCnt).blockMapSects < MapSects(secCnt) || BitLen(secCnt) % BITS_PER_SECTOR == 0
  {
    RegionsFit(start, secCnt);
    var sb := Format(start, secCnt);
    var n, size := BitLen(secCnt), sb.blockMapSects * BITS_PER_SECTOR;
    assert forall junk: seq<bool>, i: nat :: |junk| == size && i < size ==>
      MapBit(start, secCnt, strict, junk, i) == PaddedBit(n, strict, i);
    if !strict && sb.blockMapSects == MapSects(secCnt) && n % BITS_PER_SECTOR != 0 {
      assert n < size && !PaddedBit(n, strict, n) && sb.dataStart + n == start + secCnt;
      var junk := seq(size, _ => false);
      assert |junk| == size && !MapBit(start, secCnt, strict, junk, n);
    }
  }

  lemma WideMap(start: nat, secCnt: nat, strict: bool)
    requires secCnt >= USED && Format(start, secCnt).blockMapSects > 256
    ensures AllocsInside(start, secCnt, strict) <==>
            Format(start, secCnt).dataStart + Format(start, secCnt).blockMapSects * BITS_PER_SECTOR <= start + secCnt
  {
    var sb := Format(start, secCnt);
    var size := sb.blockMapSects * BITS_PER_SECTOR;
    if sb.dataStart + size > start + secCnt {
      var junk := seq(size, _ => false);
      assert |junk| == size && !MapBit(start, secCnt, strict, junk, size - 1);
    }
  }

  // A partition as sdb1 might be for which it happens.
  lemma PaddingExample()
    ensures !AllocsInside(2048, 10000, false)
  {
    AllocInsideIff(2048, 10000, false);
  }

  // The root directory's block is marked as taken exactly when there are at least 8 data blocks.
  lemma RootBlockTaken(secCnt: nat, strict: bool)
    requires secCnt >= USED && BitLen(secCnt) > 0
    ensures PaddedBit(BitLen(secCnt), strict, 0) <==> BitLen(secCnt) >= 8
  {
  }

  // The buffer, sized by the largest region, holds the padded bitmap while that is below 608 sectors.
  lemma BufferHoldsBitmap(start: nat, secCnt: nat)
    requires secCnt >= USED && Format(start, secCnt).blockMapSects < INODE_TABLE_SECTS
    ensures BitLen(secCnt) / 8 + SECTOR - BitLen(secCnt) / 8 % SECTOR <= INODE_TABLE_SECTS * SECTOR
  {
  }

  // Of the inode table only the first 96 sectors are cleared: the whole record of inode no is among them
  // exactly for the numbers below 646.
  lemma InodeTableCleared(no: nat)
    ensures SectorsWritten(INODE_TABLE_SECTS) == 96
    ensures (no + 1) * 76 <= SectorsWritten(INODE_TABLE_SECTS) * SECTOR <==> no < 646
  {
  }

  // mount_partition gives the inode bitmap the block bitmap's length: right exactly up to 4096 data blocks.
  lemma MountedInodeMap(start: nat, secCnt: nat)
    requires secCnt >= USED && BitLen(secCnt) > 0
    ensures Format(start, secCnt).blockMapSects * SECTOR == INODE_MAP_SECTS * SECTOR <==> BitLen(secCnt) <= BITS_PER_SECTOR
  {
  }
}
