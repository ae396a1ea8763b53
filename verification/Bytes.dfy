/** Records in byte buffers: little-endian 32-bit words, and writing a record into a buffer. */
module Bytes {
  type Byte = x: int | 0 <= x < 256

  type U32 = x: int | 0 <= x < 0x1_0000_0000

  // the number whose bytes, lowest first, are b
  function Value(b: seq<Byte>): (w: nat)
    ensures |b| == 1 ==> w < 0x100
    ensures |b| == 2 ==> w < 0x1_0000
    ensures |b| == 3 ==> w < 0x100_0000
    ensures |b| == 4 ==> w < 0x1_0000_0000
  {
    if b == [] then 0 else b[0] + 0x100 * Value(b[1..])
  }

  // the word stored at byte offset off
  function WordAt(b: seq<Byte>, off: nat): U32
    requires off + 4 <= |b|
  {
    Value(b[off..off + 4])
  }

  // the n low bytes of w, lowest first
  function LowBytes(w: nat, n: nat): (b: seq<Byte>)
    ensures |b| == n
  {
    if n == 0 then [] else [w % 0x100] + LowBytes(w / 0x100, n - 1)
  }

  function WordBytes(w: U32): (b: seq<Byte>)
    ensures |b| == 4
  {
    LowBytes(w, 4)
  }

  // a uint32_t array in memory
  function Encode(ws: seq<U32>): (b: seq<Byte>)
    ensures |b| == 4 * |ws|
  {
    if ws == [] then [] else WordBytes(ws[0]) + Encode(ws[1..])
  }

  // n words read from offset off on
  function Decode(b: seq<Byte>, off: nat, n: nat): (ws: seq<U32>)
    requires off + 4 * n <= |b|
    ensures |ws| == n
  {
    seq(n, i requires 0 <= i < n => WordAt(b, off + 4 * i))
  }

  lemma {:induction false} ValueOfLow(w: nat, n: nat)
    requires n <= 4 && (n == 0 ==> w == 0) && (n == 1 ==> w < 0x100) && (n == 2 ==> w < 0x1_0000)
    requires (n == 3 ==> w < 0x100_0000) && (n == 4 ==> w < 0x1_0000_0000)
    ensures Value(LowBytes(w, n)) == w
  {
    if n > 0 {
      ValueOfLow(w / 0x100, n - 1);
      assert LowBytes(w, n)[1..] == LowBytes(w / 0x100, n - 1);
    }
  }

  lemma {:induction false} EncodedWord(ws: seq<U32>, i: nat)
    requires i < |ws|
    ensures Encode(ws)[4 * i..4 * i + 4] == WordBytes(ws[i])
  {
    if i > 0 {
      EncodedWord(ws[1..], i - 1);
      assert Encode(ws)[4 * i..4 * i + 4] == Encode(ws[1..])[4 * (i - 1)..4 * (i - 1) + 4];
    }
  }

  lemma EncodedWordAt(ws: seq<U32>, i: nat)
    requires i < |ws|
    ensures WordAt(Encode(ws), 4 * i) == ws[i]
  {
    EncodedWord(ws, i);
    ValueOfLow(ws[i], 4);
  }

  // Decoding what was encoded gives the words back.
  lemma DecodeEncode(ws: seq<U32>)
    ensures Decode(Encode(ws), 0, |ws|) == ws
  {
    var b := Encode(ws);
    var back := Decode(b, 0, |ws|);
    forall i: nat | i < |ws|
      ensures back[i] == ws[i]
    {
      EncodedWordAt(ws, i);
      assert back[i] == WordAt(b, 4 * i);
    }
  }

  lemma SliceOfSlice<T>(b: seq<T>, lo: nat, hi: nat, x: nat, y: nat)
    requires lo <= hi <= |b| && x <= y <= hi - lo
    ensures b[lo..hi][x..y] == b[lo + x..lo + y]
  {
    var l, r := b[lo..hi][x..y], b[lo + x..lo + y];
    forall i | 0 <= i < |l|
      ensures l[i] == r[i]
    {
    }
  }

  // memcpy of a record into a buffer
  function Splice(b: seq<Byte>, off: nat, rec: seq<Byte>): (r: seq<Byte>)
    requires off + |rec| <= |b|
    ensures |r| == |b|
  {
    b[..off] + rec + b[off + |rec|..]
  }

  // A record is read back from where it was written, and records elsewhere are untouched.
  lemma SpliceRead(b: seq<Byte>, off: nat, rec: seq<Byte>, o: nat, n: nat)
    requires off + |rec| <= |b| && o + n <= |b|
    ensures o == off && n == |rec| ==> Splice(b, off, rec)[o..o + n] == rec
    ensures o + n <= off || off + |rec| <= o ==> Splice(b, off, rec)[o..o + n] == b[o..o + n]
  {
  }
}
