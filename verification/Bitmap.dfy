/** The byte-array bitmap of lib/kernel/bitmap.c, refined to a sequence of booleans. */
module BitmapModel {
  import opened Bits

  // BITMAP_MASK << k
  function Mask(k: nat): bv8
    requires k < 8
  {
    if k == 0 then 0x01 else if k == 1 then 0x02 else if k == 2 then 0x04 else if k == 3 then 0x08
    else if k == 4 then 0x10 else if k == 5 then 0x20 else if k == 6 then 0x40 else 0x80
  }

  predicate BitOf(b: bv8, k: nat)
    requires k < 8
  {
    b & Mask(k) != 0
  }

  function BitsOf(bytes: seq<bv8>): (r: seq<bool>) {
    seq(8 * |bytes|, i requires 0 <= i < 8 * |bytes| => BitOf(bytes[i / 8], i % 8))
  }

  // A byte is 0xff, the value the first loop of the scan skips, exactly when its eight bits are set.
  lemma FullByte(b: bv8)
    ensures b == 0xff <==> forall k :: 0 <= k < 8 ==> BitOf(b, k)
  {
    if forall k :: 0 <= k < 8 ==> BitOf(b, k) {
      assert BitOf(b, 0) && BitOf(b, 1) && BitOf(b, 2) && BitOf(b, 3);
      assert BitOf(b, 4) && BitOf(b, 5) && BitOf(b, 6) && BitOf(b, 7);
      assert b == 0xff;
    }
  }

  // the byte `bitmap_set` stores back
  function SetInByte(b: bv8, j: nat, value: bool): bv8
    requires j < 8
  {
    if value then b | Mask(j) else b & !Mask(j)
  }

  // Or-ing a mask in, and masking its complement out, change one bit and no other.
  lemma SetInByteBit(b: bv8, j: nat, value: bool, k: nat)
    requires j < 8 && k < 8
    ensures BitOf(SetInByte(b, j, value), k) == if k == j then value else BitOf(b, k)
  {
  }

  datatype ScanOutcome = Found(start: nat) | NotFound | Halted

  // What `bitmap_scan` computes as written.  `asserts` says whether ASSERT is compiled in (NDEBUG not
  // defined) and `past` is the bit that lies just behind the map in memory.
  function ScanResult(bits: seq<bool>, cnt: nat, asserts: bool, past: bool): ScanOutcome {
    match Fit(if asserts || cnt == 1 then bits else bits + [past], cnt)
    case Some(s) => Found(s)
    case None => if asserts then Halted else NotFound
  }

  // the result the function's comment promises
  function Promised(bits: seq<bool>, cnt: nat): ScanOutcome {
    match Fit(bits, cnt)
    case Some(s) => Found(s)
    case None => NotFound
  }

  // Compiled with ASSERT, the scan keeps its promise exactly when a run exists: it never returns -1.
  lemma ScanWithAsserts(bits: seq<bool>, cnt: nat, past: bool)
    requires cnt >= 1
    ensures ScanResult(bits, cnt, true, past) == Promised(bits, cnt) <==> exists s :: ClearRun(bits, s, cnt)
    ensures ScanResult(bits, cnt, true, past) != NotFound
  {
    FirstFit(bits, cnt);
  }

  // Compiled without ASSERT, the scan keeps its promise unless the map ends in cnt - 1 clear bits, holds
  // no run of cnt, and the byte behind it happens to start with a clear bit.
  lemma ScanWithoutAsserts(bits: seq<bool>, cnt: nat, past: bool)
    requires cnt >= 1
    ensures ScanResult(bits, cnt, false, past) == Promised(bits, cnt) <==>
            cnt == 1 || past || !ClearRun(bits, |bits| + 1 - cnt, cnt - 1) || exists s :: ClearRun(bits, s, cnt)
  {
    FirstFit(bits, cnt);
    if cnt >= 2 {
      var more := bits + [past];
      FirstFit(more, cnt);
      forall s | ClearRun(bits, s, cnt)
        ensures ClearRun(more, s, cnt)
      {
      }
      RunsOfLonger(bits, cnt, past);
      if Fit(bits, cnt).Some? {
        FitUnique(more, cnt, Fit(bits, cnt).value);
      } else if past || !ClearRun(bits, |bits| + 1 - cnt, cnt - 1) {
        FitNone(more, cnt);
      } else {
        assert ClearRun(more, |bits| + 1 - cnt, cnt);
      }
    }
  }

  lemma RunsOfLonger(bits: seq<bool>, cnt: nat, past: bool)
    requires cnt >= 2
    ensures forall s :: ClearRun(bits + [past], s, cnt) ==>
              ClearRun(bits, s, cnt) || (s == |bits| + 1 - cnt && !past && ClearRun(bits, s, cnt - 1))
  {
    var more := bits + [past];
    forall s | ClearRun(more, s, cnt)
      ensures ClearRun(bits, s, cnt) || (s == |bits| + 1 - cnt && !past && ClearRun(bits, s, cnt - 1))
    {
      assert forall i :: s <= i < s + cnt && i < |bits| ==> bits[i] == more[i];
      if s + cnt > |bits| {
        assert !more[|bits|];
      }
    }
  }

  // A run reported by the build without ASSERT that reaches outside the map.
  lemma ScanRunsPastTheEnd()
    ensures ScanResult([true, true, true, true, true, true, true, false], 2, false, false) == Found(7)
    ensures Promised([true, true, true, true, true, true, true, false], 2) == NotFound
  {
    var bits := [true, true, true, true, true, true, true, false];
    var more := bits + [false];
    assert ClearRun(more, 7, 2);
    TakenPrefix(more, 7, 2);
    TakenPrefix(bits, 7, 2);
    FitUnique(more, 2, 7);
    FitNone(bits, 2);
  }

  // no run starts in a stretch of taken units
  lemma TakenPrefix(bits: seq<bool>, n: nat, cnt: nat)
    requires n <= |bits| && cnt >= 1
    requires forall i :: 0 <= i < n ==> bits[i]
    ensures forall s :: s < n ==> !ClearRun(bits, s, cnt)
    ensures n == |bits| ==> forall s :: !ClearRun(bits, s, cnt)
  {
    forall s | ClearRun(bits, s, cnt)
      ensures s >= n && n < |bits|
    {
      assert !bits[s];
    }
  }

  // writing one byte back with one bit changed updates that bit of the map
  lemma ByteUpdate(bytes: seq<bv8>, byteIdx: nat, bitOdd: nat, value: bool)
    requires byteIdx < |bytes| && bitOdd < 8
    ensures BitsOf(bytes[byteIdx := SetInByte(bytes[byteIdx], bitOdd, value)]) ==
            BitsOf(bytes)[8 * byteIdx + bitOdd := value]
  {
    var after := bytes[byteIdx := SetInByte(bytes[byteIdx], bitOdd, value)];
    var expected := BitsOf(bytes)[8 * byteIdx + bitOdd := value];
    forall i: nat | i < |expected|
      ensures BitsOf(after)[i] == expected[i]
    {
      BitAfterUpdate(bytes, byteIdx, bitOdd, value, i / 8, i % 8);
      assert i == 8 * (i / 8) + i % 8;
    }
  }

  lemma BitAfterUpdate(bytes: seq<bv8>, byteIdx: nat, bitOdd: nat, value: bool, i: nat, k: nat)
    requires byteIdx < |bytes| && bitOdd < 8 && i < |bytes| && k < 8
    ensures BitOf(bytes[byteIdx := SetInByte(bytes[byteIdx], bitOdd, value)][i], k) ==
            if i == byteIdx && k == bitOdd then value else BitOf(bytes[i], k)
  {
    SetInByteBit(bytes[byteIdx], bitOdd, value, k);
  }

  class Bitmap {
    const bytes: array<bv8>  // btmp_bits, of btmp_bytes_len bytes

    ghost function Bits(): (r: seq<bool>)
      reads bytes
      ensures |r| == 8 * bytes.Length
    {
      BitsOf(bytes[..])
    }

    constructor (bytes: array<bv8>)
      ensures this.bytes == bytes
    {
      this.bytes := bytes;
    }

    // bitmap_init
    method Init()
      modifies bytes
      ensures forall i :: 0 <= i < |Bits()| ==> !Bits()[i]
    {
      for i := 0 to bytes.Length
        invariant forall k :: 0 <= k < i ==> bytes[k] == 0
      {
        bytes[i] := 0;
      }
    }

    // bitmap_scan_test
    method Test(bitIdx: nat) returns (r: bool)
      requires bitIdx < 8 * bytes.Length
      ensures r == Bits()[bitIdx]
    {
      r := bytes[bitIdx / 8] & Mask(bitIdx % 8) != 0;
    }

    // bitmap_set
    method Set(bitIdx: nat, value: bool)
      requires bitIdx < 8 * bytes.Length
      modifies bytes
      ensures Bits() == old(Bits())[bitIdx := value]
    {
      var byteIdx, bitOdd := bitIdx / 8, bitIdx % 8;
      ghost var before := bytes[..];
      StoreBit(byteIdx, bitOdd, value);
      assert bytes[..] == before[byteIdx := SetInByte(before[byteIdx], bitOdd, value)];
      ByteUpdate(before, byteIdx, bitOdd, value);
    }

    // the read-modify-write of one byte at the end of bitmap_set
    method StoreBit(byteIdx: nat, bitOdd: nat, value: bool)
      requires byteIdx < bytes.Length && bitOdd < 8
      modifies bytes
      ensures bytes[byteIdx] == SetInByte(old(bytes[byteIdx]), bitOdd, value)
      ensures forall i :: 0 <= i < bytes.Length && i != byteIdx ==> bytes[i] == old(bytes[i])
    {
      if value {
        bytes[byteIdx] := bytes[byteIdx] | Mask(bitOdd);
      } else {
        bytes[byteIdx] := bytes[byteIdx] & !Mask(bitOdd);
      }
    }

    // first loop of bitmap_scan: skip the bytes equal to 0xff
    method SkipFullBytes() returns (idxByte: nat)
      ensures idxByte <= bytes.Length
      ensures forall i :: 0 <= i < 8 * idxByte ==> Bits()[i]
      ensures idxByte < bytes.Length ==> bytes[idxByte] != 0xff
    {
      idxByte := 0;
      while idxByte < bytes.Length && bytes[idxByte] == 0xff
        invariant idxByte <= bytes.Length
        invariant forall i :: 0 <= i < 8 * idxByte ==> Bits()[i]
      {
        FullByte(bytes[idxByte]);
        assert forall i :: 8 * idxByte <= i < 8 * (idxByte + 1) ==> i / 8 == idxByte && Bits()[i];
        idxByte := idxByte + 1;
      }
    }

    // second loop of bitmap_scan: the first clear bit of that byte
    method FirstClearIn(idxByte: nat) returns (idxBit: nat)
      requires idxByte < bytes.Length && bytes[idxByte] != 0xff
      ensures idxBit < 8 && !BitOf(bytes[idxByte], idxBit)
      ensures forall k :: 0 <= k < idxBit ==> BitOf(bytes[idxByte], k)
    {
      FullByte(bytes[idxByte]);
      idxBit := 0;
      while idxBit < 8 && bytes[idxByte] & Mask(idxBit) != 0
        invariant idxBit <= 8
        invariant forall k :: 0 <= k < idxBit ==> BitOf(bytes[idxByte], k)
      {
        idxBit := idxBit + 1;
      }
    }

    // first two loops of bitmap_scan: the first clear bit
    method FirstClear() returns (start: nat)
      ensures start <= 8 * bytes.Length
      ensures forall i :: 0 <= i < start ==> Bits()[i]
      ensures start < 8 * bytes.Length ==> !Bits()[start]
    {
      var idxByte := SkipFullBytes();
      if idxByte == bytes.Length {
        return 8 * idxByte;
      }
      var idxBit := FirstClearIn(idxByte);
      start := 8 * idxByte + idxBit;
      assert start / 8 == idxByte && start % 8 == idxBit;
      forall i | 8 * idxByte <= i < start
        ensures Bits()[i]
      {
        assert i / 8 == idxByte && BitOf(bytes[idxByte], i % 8);
      }
    }

    // bitmap_scan
    method Scan(cnt: nat, asserts: bool, past: bool) returns (r: ScanOutcome)
      requires cnt >= 1
      ensures r == ScanResult(Bits(), cnt, asserts, past)
    {
      var start := FirstClear();
      if start == 8 * bytes.Length {
        AllTaken(Bits(), cnt, past);
        return if asserts then Halted else NotFound;
      }
      TakenPrefix(Bits(), start, cnt);
      if cnt == 1 {
        assert ClearRun(Bits(), start, 1);
        FitUnique(Bits(), 1, start);
        return Found(start);
      }
      r := CountRuns(start, cnt, asserts, past);
    }

    // last loop of bitmap_scan: count clear bits behind the first one
    method CountRuns(start: nat, cnt: nat, asserts: bool, past: bool) returns (r: ScanOutcome)
      requires cnt >= 2 && start < 8 * bytes.Length
      requires !Bits()[start] && forall i :: 0 <= i < start ==> Bits()[i]
      ensures r == ScanResult(Bits(), cnt, asserts, past)
    {
      ghost var bits, more := Bits(), Bits() + [past];
      var total := 8 * bytes.Length;
      TakenPrefix(more, start, cnt);
      var bitLeft := total - start;
      var nextBit := start + 1;
      var count := 1;
      while bitLeft > 0
        invariant 0 <= bitLeft && nextBit == total + 1 - bitLeft
        invariant Counted(more, nextBit, count, cnt)
        invariant nextBit > total ==> !asserts
      {
        bitLeft := bitLeft - 1;
        var taken := past;
        if nextBit < total {
          taken := Test(nextBit);
        } else if asserts {
          HaltsHere(bits, past, cnt);
          return Halted;
        }
        assert taken == more[nextBit];
        ghost var before := count;
        count := if !taken then count + 1 else 0;
        CountOne(more, nextBit, before, cnt, count);
        if count == cnt {
          FitInside(bits, past, cnt, nextBit - cnt + 1, asserts);
          return Found(nextBit - cnt + 1);
        }
        nextBit := nextBit + 1;
      }
      NoneCounted(bits, past, nextBit, count, cnt);
      return NotFound;
    }
  }

  // the three ways out of the counting loop
  lemma NoneCounted(bits: seq<bool>, past: bool, next: nat, count: nat, cnt: nat)
    requires cnt >= 2 && next == |bits| + 1 && Counted(bits + [past], next, count, cnt)
    ensures ScanResult(bits, cnt, false, past) == NotFound
  {
    var more := bits + [past];
    assert forall s :: s <= |more| ==> s + cnt <= next || !ClearRun(more, s, cnt);
    FitNone(more, cnt);
  }

  lemma HaltsHere(bits: seq<bool>, past: bool, cnt: nat)
    requires cnt >= 2 && forall s :: s + cnt <= |bits| ==> !ClearRun(bits + [past], s, cnt)
    ensures ScanResult(bits, cnt, true, past) == Halted
  {
    OnlyInside(bits, past, cnt);
    FitNone(bits, cnt);
  }

  lemma AllTaken(bits: seq<bool>, cnt: nat, past: bool)
    requires cnt >= 1 && forall i :: 0 <= i < |bits| ==> bits[i]
    ensures forall asserts :: ScanResult(bits, cnt, asserts, past) == if asserts then Halted else NotFound
  {
    TakenPrefix(bits, |bits|, cnt);
    FitNone(bits, cnt);
    if cnt >= 2 {
      RunsOfLonger(bits, cnt, past);
      TakenPrefix(bits, |bits|, cnt - 1);
      FitNone(bits + [past], cnt);
    }
  }

  // count clear bits end just before next, maximally, and no run of cnt ends at or before that point
  ghost predicate Counted(more: seq<bool>, next: nat, count: nat, cnt: nat) {
    && next <= |more| && count < cnt && count <= next
    && ClearRun(more, next - count, count)
    && (next == count || more[next - count - 1])
    && forall s :: s + cnt <= next ==> !ClearRun(more, s, cnt)
  }

  // one turn of the counting loop
  lemma CountOne(more: seq<bool>, next: nat, count: nat, cnt: nat, count1: nat)
    requires cnt >= 1 && next < |more| && Counted(more, next, count, cnt) && count1 == if more[next] then 0 else count + 1
    ensures count1 < cnt ==> Counted(more, next + 1, count1, cnt)
    ensures count1 == cnt ==> ClearRun(more, next + 1 - cnt, cnt)
    ensures count1 <= cnt && forall s :: s < next + 1 - cnt ==> !ClearRun(more, s, cnt)
  {
    if more[next] {
      forall s | s + cnt == next + 1
        ensures !ClearRun(more, s, cnt)
      {
        assert s <= next < s + cnt;
      }
    } else if count + 1 < cnt {
      forall s | s + cnt == next + 1 && 0 <= s
        ensures !ClearRun(more, s, cnt)
      {
        assert s <= next - count - 1 < s + cnt;
      }
    }
  }

  lemma OnlyInside(bits: seq<bool>, past: bool, cnt: nat)
    requires forall s :: s + cnt <= |bits| ==> !ClearRun(bits + [past], s, cnt)
    ensures forall s :: 0 <= s <= |bits| ==> !ClearRun(bits, s, cnt)
  {
    forall s | ClearRun(bits, s, cnt)
      ensures ClearRun(bits + [past], s, cnt)
    {
    }
  }

  lemma FitInside(bits: seq<bool>, past: bool, cnt: nat, r: nat, asserts: bool)
    requires cnt >= 2 && ClearRun(bits + [past], r, cnt)
    requires forall s :: s < r ==> !ClearRun(bits + [past], s, cnt)
    requires asserts ==> r + cnt <= |bits|
    ensures ScanResult(bits, cnt, asserts, past) == Found(r)
  {
    if asserts {
      assert forall i :: r <= i < r + cnt ==> (bits + [past])[i] == bits[i];
      forall s | 0 <= s < r
        ensures !ClearRun(bits, s, cnt)
      {
        if ClearRun(bits, s, cnt) {
          assert ClearRun(bits + [past], s, cnt);
        }
      }
      FitUnique(bits, cnt, r);
    } else {
      FitUnique(bits + [past], cnt, r);
    }
  }
}
