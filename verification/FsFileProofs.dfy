/** file_create keeps the file system consistent, and undoes itself when it fails. */
module FsFileProofs {
  import opened Bytes
  import opened FsInode
  import opened FsDir
  import opened FsDirProofs
  import opened FsDirLaws
  import opened FsFile

  // ---------- counting used entries ----------

  lemma {:induction false} UsedConcat(a: seq<Entry>, b: seq<Entry>)
    ensures UsedCount(a + b) == UsedCount(a) + UsedCount(b)
  {
    if a == [] {
      assert a + b == b;
    } else {
      assert (a + b)[1..] == a[1..] + b;
      UsedConcat(a[1..], b);
    }
  }

  lemma {:induction false} NoneUsed(a: seq<Entry>)
    requires forall k :: 0 <= k < |a| ==> a[k].Unused()
    ensures UsedCount(a) == 0
  {
    if a != [] {
      NoneUsed(a[1..]);
    }
  }

  lemma {:induction false} CountsUsed(es: seq<Entry>)
    ensures UsedCount(es) == |Used(es)|
  {
    if es != [] {
      CountsUsed(es[1..]);
    }
  }

  // An insertion adds one used entry.
  lemma UsedAfterInsert(a: seq<Entry>, b: seq<Entry>, e: Entry)
    requires InsertedInto(a, b, e) && !e.Unused()
    ensures UsedCount(b) == UsedCount(a) + 1
  {
    if k: nat :| Reused(a, b, e, k) {
      UsedUpdate(a, k, e);
    } else {
      var p: nat :| Added(a, b, e, p);
      assert a == a[..p] + [] + a[p..];
      UsedAround(a[..p], [], a[p..]);
      UsedAround(a[..p], [e] + Spare(), a[p..]);
      UsedConcat([e], Spare());
      NoneUsed(Spare());
    }
  }

  lemma UsedUpdate(a: seq<Entry>, k: nat, e: Entry)
    requires k < |a| && a[k].Unused() && !e.Unused()
    ensures UsedCount(a[k := e]) == UsedCount(a) + 1
  {
    assert a == a[..k] + [a[k]] + a[k + 1..] && a[k := e] == a[..k] + [e] + a[k + 1..];
    UsedAround(a[..k], [a[k]], a[k + 1..]);
    UsedAround(a[..k], [e], a[k + 1..]);
  }

  lemma UsedAround(pre: seq<Entry>, mid: seq<Entry>, post: seq<Entry>)
    ensures UsedCount(pre + mid + post) == UsedCount(pre) + UsedCount(mid) + UsedCount(post)
  {
    UsedConcat(pre + mid, post);
    UsedConcat(pre, mid);
  }

  // what is in the listing after an insertion was there before, is the new entry, or is blank
  lemma MembersAfterInsert(a: seq<Entry>, b: seq<Entry>, e: Entry, x: Entry)
    requires InsertedInto(a, b, e) && x in b
    ensures x in a || x == e || x == ZeroEntry()
  {
    if k: nat :| Reused(a, b, e, k) {
      var j :| 0 <= j < |b| && b[j] == x;
      assert j != k ==> a[j] == x;
    } else {
      var p: nat :| Added(a, b, e, p);
      assert x in a[..p] || x in [e] || x in Spare() || x in a[p..];
    }
  }

  lemma {:induction false} UsedBound(es: seq<Entry>)
    ensures UsedCount(es) <= |es|
  {
    if es != [] {
      UsedBound(es[1..]);
    }
  }

  lemma {:induction false} SlotsBound(d: Disk, blocks: seq<U32>)
    ensures |Slots(d, blocks)| <= PER_SECTOR * |blocks|
  {
    if blocks != [] {
      SlotsBound(d, blocks[1..]);
    }
  }

  // a directory's size never wraps around
  lemma SizeFits(s: Dir)
    requires s.Shape()
    ensures ENTRY * (UsedCount(s.Listing()) + 1) < 0x1_0000_0000
  {
    UsedBound(s.Listing());
    SlotsBound(s.d, s.Blocks());
  }

  // ---------- the other inodes ----------

  // what an inode of the same file system sees of its blocks
  function SeenBy(s: Dir, i: Inode): Dir { Dir(s.d, s.bits, s.dbits, i, s.dataStart) }

  // blocks and listing depend on the owned sectors only
  lemma ViewFrame(d: Disk, d1: Disk, i: Inode, blocks: seq<U32>)
    requires Fits(i) && blocks == AllBlocks(d, i)
    requires forall b :: b in Owned(blocks, i.sectors[12]) ==> Read(d1, b) == Read(d, b)
    ensures AllBlocks(d1, i) == blocks && Slots(d1, blocks) == Slots(d, blocks)
  {
    if i.sectors[12] != 0 {
      assert i.sectors[12] in Owned(blocks, i.sectors[12]);
    }
    TableSame(d, i, d1, i);
    forall b | b in blocks && b != 0
      ensures Read(d1, b) == Read(d, b)
    {
      assert b in Owned(blocks, i.sectors[12]);
    }
    SlotsFrame(d, d1, blocks);
  }

  lemma ApartAfter(s: Dir, s1: Dir, e: Entry, more: set<U32>, own: set<U32>)
    requires Inserted(s, s1, e, more) && Marked(s.dataStart, s.bits, own) && own !! OwnedBy(s)
    ensures own !! OwnedBy(s1) && Marked(s1.dataStart, s1.bits, own)
    ensures forall b :: b in own ==> Read(s1.d, b) == Read(s.d, b)
  {
    TookFresh(s, s1, more, own);
    assert own !! OwnedBy(s) + more;
  }

  // An insertion leaves the blocks and the listing of an inode that shares no block with the directory.
  lemma OtherView(s: Dir, s1: Dir, e: Entry, more: set<U32>, i: Inode)
    requires Inserted(s, s1, e, more) && DirOk(SeenBy(s, i)) && OwnedBy(SeenBy(s, i)) !! OwnedBy(s)
    ensures SeenBy(s1, i).Shape() && SeenBy(s1, i).Blocks() == SeenBy(s, i).Blocks()
    ensures SeenBy(s1, i).Listing() == SeenBy(s, i).Listing()
    ensures OwnedBy(SeenBy(s1, i)) == OwnedBy(SeenBy(s, i)) && OwnedBy(SeenBy(s1, i)) !! OwnedBy(s1)
  {
    ApartAfter(s, s1, e, more, OwnedBy(SeenBy(s, i)));
    ViewFrame(s.d, s1.d, i, SeenBy(s, i).Blocks());
  }

  lemma OtherOk(s: Dir, s1: Dir, e: Entry, more: set<U32>, i: Inode)
    requires Inserted(s, s1, e, more) && DirOk(SeenBy(s, i)) && OwnedBy(SeenBy(s, i)) !! OwnedBy(s)
    ensures DirOk(SeenBy(s1, i))
  {
    OtherView(s, s1, e, more, i);
    ApartAfter(s, s1, e, more, OwnedBy(SeenBy(s, i)));
  }

  // a new inode has no blocks
  lemma BlankOk(s: Dir, no: U32)
    requires s.Shape()
    ensures SeenBy(s, NewInode(no)).Shape() && OwnedBy(SeenBy(s, NewInode(no))) == {} && DirOk(SeenBy(s, NewInode(no)))
  {
    var v := SeenBy(s, NewInode(no));
    assert forall x :: x in v.Blocks() ==> x == 0;
  }
}
