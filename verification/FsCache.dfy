/** The cache of open inodes (inode_open, inode_close in fs/inode.c), and runs of opens, closes and creations. */
module FsCache {
  import opened Bits
  import opened Bytes
  import opened FsInode
  import opened FsDir
  import opened FsDirLaws
  import opened FsFile
  import opened FsFileKeeps

  // position of inode no in open_inodes, from k on
  function Find(open: seq<OpenInode>, no: nat, k: nat): Option<nat>
    decreases |open| - k
  {
    if k >= |open| then None else if open[k].inode.no == no then Some(k) else Find(open, no, k + 1)
  }

  function WithOpen(fs: Fs, open: seq<OpenInode>): Fs {
    Fs(fs.d, fs.bits, fs.dbits, fs.ibits, fs.idbits, fs.table, open, fs.files, fs.fds, fs.bufs, fs.dataStart)
  }

  function Opened(open: seq<OpenInode>, no: nat, cold: Inode): seq<OpenInode> {
    match Find(open, no, 0)
    case Some(k) => if k < |open| then open[k := OpenInode(open[k].inode, open[k].cnt + 1)] else open
    case None => [OpenInode(cold, 1)] + open
  }

  // the last close takes the inode off the list
  function Closed(open: seq<OpenInode>, no: nat): seq<OpenInode> {
    match Find(open, no, 0)
    case None => open
    case Some(k) =>
      if k >= |open| then open
      else if open[k].cnt <= 1 then open[..k] + open[k + 1..]
      else open[k := OpenInode(open[k].inode, open[k].cnt - 1)]
  }

  function InodeOpen(fs: Fs, no: nat): Fs
    requires fs.Shape() && no < INODE_CNT
  {
    WithOpen(fs, Opened(fs.open, no, fs.table[no]))
  }

  function InodeClose(fs: Fs, no: nat): Fs { WithOpen(fs, Closed(fs.open, no)) }

  // i_open_cnts of inode no, 0 if it is not open
  function Opens(open: seq<OpenInode>, no: nat): nat {
    match Find(open, no, 0)
    case None => 0
    case Some(k) => if k < |open| then open[k].cnt else 0
  }

  ghost predicate NoRepeats(open: seq<OpenInode>) {
    forall j, k :: 0 <= j < k < |open| ==> open[j].inode.no != open[k].inode.no
  }

  lemma {:induction false} FindIsFirst(open: seq<OpenInode>, no: nat, k: nat)
    ensures Find(open, no, k).Some? ==>
              k <= Find(open, no, k).value < |open| && open[Find(open, no, k).value].inode.no == no
              && forall j :: k <= j < Find(open, no, k).value ==> open[j].inode.no != no
    ensures Find(open, no, k) == None ==> forall j :: k <= j < |open| ==> open[j].inode.no != no
    decreases |open| - k
  {
    if k < |open| && open[k].inode.no != no {
      FindIsFirst(open, no, k + 1);
    }
  }

  lemma FindAt(open: seq<OpenInode>, no: nat, k: nat)
    requires NoRepeats(open) && k < |open| && open[k].inode.no == no
    ensures Find(open, no, 0) == Some(k)
  {
    FindIsFirst(open, no, 0);
  }

  lemma FindNone(open: seq<OpenInode>, no: nat)
    requires forall j :: 0 <= j < |open| ==> open[j].inode.no != no
    ensures Find(open, no, 0) == None && Opens(open, no) == 0
  {
    FindIsFirst(open, no, 0);
  }

  // the counter of no in a list that has it at k
  lemma OpensAt(open: seq<OpenInode>, no: nat, k: nat)
    requires NoRepeats(open) && k < |open| && open[k].inode.no == no
    ensures Opens(open, no) == open[k].cnt
  {
    FindAt(open, no, k);
  }

  // Lists whose elements other than no's are the same have the same counters for the other numbers.
  lemma {:induction false} OpensSame(a: seq<OpenInode>, b: seq<OpenInode>, no: nat, n: nat)
    requires NoRepeats(a) && NoRepeats(b) && n != no
    requires forall k :: 0 <= k < |a| && a[k].inode.no != no ==> a[k] in b
    requires forall k :: 0 <= k < |b| && b[k].inode.no != no ==> b[k] in a
    ensures Opens(a, n) == Opens(b, n)
  {
    FindIsFirst(a, n, 0);
    FindIsFirst(b, n, 0);
    if Find(a, n, 0).Some? {
      var k := Find(a, n, 0).value;
      assert a[k] in b;
      var j :| 0 <= j < |b| && b[j] == a[k];
      OpensAt(b, n, j);
    } else {
      forall k | 0 <= k < |b|
        ensures b[k].inode.no != n
      {
        assert b[k].inode.no == no || b[k] in a;
      }
      FindNone(b, n);
    }
  }

  // An open adds one to the inode's counter and to no other, and keeps one object per inode; an inode that
  // is open already keeps its object.
  lemma {:induction false} OpenCounts(open: seq<OpenInode>, no: nat, cold: Inode)
    requires NoRepeats(open) && cold.no == no
    ensures NoRepeats(Opened(open, no, cold))
    ensures forall n: nat :: Opens(Opened(open, no, cold), n) == Opens(open, n) + if n == no then 1 else 0
    ensures forall k :: 0 <= k < |open| ==> exists j :: 0 <= j < |Opened(open, no, cold)| && Opened(open, no, cold)[j].inode == open[k].inode
  {
    var after := Opened(open, no, cold);
    FindIsFirst(open, no, 0);
    var k := if Find(open, no, 0).Some? then Find(open, no, 0).value else 0;
    if Find(open, no, 0).Some? {
      OpensAt(open, no, k);
      forall j | 0 <= j < |open|
        ensures exists i :: 0 <= i < |after| && after[i].inode == open[j].inode
      {
        assert after[j].inode == open[j].inode;
      }
    } else {
      FindNone(open, no);
      forall j | 0 <= j < |open|
        ensures after[j + 1] == open[j]
      {
      }
    }
    OpensAt(after, no, k);
    forall n: nat | n != no
      ensures Opens(after, n) == Opens(open, n)
    {
      OpensSame(open, after, no, n);
    }
  }

  // A close takes one from the inode's counter and from no other; at zero the object is gone.
  lemma {:induction false} CloseCounts(open: seq<OpenInode>, no: nat)
    requires NoRepeats(open) && Opens(open, no) > 0
    ensures NoRepeats(Closed(open, no))
    ensures forall n: nat :: Opens(Closed(open, no), n) == Opens(open, n) - if n == no then 1 else 0
    ensures Opens(open, no) == 1 <==> Find(Closed(open, no), no, 0) == None
  {
    var after := Closed(open, no);
    FindIsFirst(open, no, 0);
    var k := Find(open, no, 0).value;
    if open[k].cnt <= 1 {
      assert forall j :: 0 <= j < |after| ==> after[j] == open[if j < k then j else j + 1];
      FindNone(after, no);
      forall j | 0 <= j < |open| && j != k
        ensures open[j] in after
      {
        assert open[j] == after[if j < k then j else j - 1];
      }
    } else {
      OpensAt(after, no, k);
      FindAt(after, no, k);
      forall j | 0 <= j < |open| && j != k
        ensures open[j] in after && after[j] in open
      {
        assert open[j] == after[j];
      }
    }
    forall n: nat | n != no
      ensures Opens(after, n) == Opens(open, n)
    {
      OpensSame(open, after, no, n);
    }
  }

  // ---------- consistency over a run ----------

  datatype Event =
    | Open(no: nat)
    | Close(no: nat)
    | Create(par: nat, name: seq<Byte>, buf: bool, node: bool)

  // callers open live inodes, close what they opened, and create in directories they have open
  ghost predicate Enabled(fs: Fs, D: set<nat>, ev: Event)
    requires fs.Shape()
  {
    match ev
    case Open(no) => Live(fs, no)
    case Close(no) => Opens(fs.open, no) > 0
    case Create(par, name, _, _) => par in D && |name| <= 15 && Opens(fs.open, par) > 0
  }

  function Step(fs: Fs, ev: Event, form: Form): Fs
    requires fs.Shape()
  {
    match ev
    case Open(no) => if no < INODE_CNT then InodeOpen(fs, no) else fs
    case Close(no) => InodeClose(fs, no)
    case Create(par, name, buf, node) =>
      match Find(fs.open, par, 0)
      case None => fs
      case Some(p) => if p < |fs.open| && |name| <= 15 then FileCreate(fs, p, name, buf, node, form).0 else fs
  }

  // lists with the same numbers, or without some, keep the rest of the consistency
  lemma ListOk(fs: Fs, open: seq<OpenInode>, D: set<nat>)
    requires FsOk(fs, D) && NoRepeats(open)
    requires forall k :: 0 <= k < |open| ==> ElementOk(fs, open[k])
    ensures FsOk(WithOpen(fs, open), D)
  {
    var fs1 := WithOpen(fs, open);
    assert fs1.Shape();
    assert forall n: nat :: Live(fs1, n) <==> Live(fs, n);
    assert forall n: nat :: n < INODE_CNT ==> View(fs1, fs1.table[n]) == View(fs, fs.table[n]);
    assert forall n: nat :: n < INODE_CNT ==> OwnedBlocks(fs1, n) == OwnedBlocks(fs, n) && EntriesOf(fs1, n) == EntriesOf(fs, n);
    assert BlocksOk(fs1);
    forall n | n in D
      ensures Live(fs1, n) && DirectoryOk(fs1, n, D)
    {
      assert DirectoryOk(fs, n, D);
    }
    forall k: nat | k < |open|
      ensures OpenAt(fs1, k)
    {
      assert ElementOk(fs, open[k]);
    }
  }

  ghost predicate ElementOk(fs: Fs, o: OpenInode)
    requires fs.Shape()
  {
    o.inode.no < INODE_CNT && Live(fs, o.inode.no) && fs.table[o.inode.no] == o.inode && o.cnt > 0
  }

  ghost predicate ElementsOk(fs: Fs, open: seq<OpenInode>)
    requires fs.Shape()
  {
    forall k :: 0 <= k < |open| ==> ElementOk(fs, open[k])
  }

  lemma OpenElements(fs: Fs)
    requires fs.Shape() && OpenOk(fs)
    ensures ElementsOk(fs, fs.open) && NoRepeats(fs.open)
  {
    forall k: nat | k < |fs.open|
      ensures ElementOk(fs, fs.open[k])
    {
      assert OpenAt(fs, k);
    }
  }

  lemma OpenedElements(fs: Fs, open: seq<OpenInode>, no: nat)
    requires fs.Shape() && ElementsOk(fs, open) && no < INODE_CNT && Live(fs, no) && fs.table[no].no == no
    ensures ElementsOk(fs, Opened(open, no, fs.table[no]))
  {
    FindIsFirst(open, no, 0);
  }

  lemma ClosedElements(fs: Fs, open: seq<OpenInode>, no: nat)
    requires fs.Shape() && ElementsOk(fs, open)
    ensures ElementsOk(fs, Closed(open, no))
  {
    FindIsFirst(open, no, 0);
  }

  lemma OpenKeeps(fs: Fs, no: nat, D: set<nat>)
    requires FsOk(fs, D) && Live(fs, no)
    ensures FsOk(InodeOpen(fs, no), D)
  {
    OpenElements(fs);
    OpenCounts(fs.open, no, fs.table[no]);
    OpenedElements(fs, fs.open, no);
    ListOk(fs, Opened(fs.open, no, fs.table[no]), D);
  }

  lemma CloseKeeps(fs: Fs, no: nat, D: set<nat>)
    requires FsOk(fs, D) && Opens(fs.open, no) > 0
    ensures FsOk(InodeClose(fs, no), D)
  {
    OpenElements(fs);
    CloseCounts(fs.open, no);
    ClosedElements(fs, fs.open, no);
    ListOk(fs, Closed(fs.open, no), D);
  }

  // ---------- creations ----------

  lemma EnterCounts(open: seq<OpenInode>, open1: seq<OpenInode>, p: nat, i: Inode, no: U32)
    requires NoRepeats(open) && p < |open| && i.no == open[p].inode.no && forall k :: 0 <= k < |open| ==> open[k].inode.no != no
    requires open1 == [OpenInode(NewInode(no), 1)] + open[p := OpenInode(i, open[p].cnt)]
    ensures NoRepeats(open1)
    ensures forall n: nat :: Opens(open1, n) == Opens(open, n) + if n == no then 1 else 0
  {
    assert forall k :: 0 <= k < |open| ==> open1[k + 1].inode.no == open[k].inode.no && open1[k + 1].cnt == open[k].cnt;
    FindNone(open, no);
    OpensAt(open1, no, 0);
    forall n: nat | n != no
      ensures Opens(open1, n) == Opens(open, n)
    {
      FindIsFirst(open, n, 0);
      if Find(open, n, 0).Some? {
        OpensAt(open1, n, Find(open, n, 0).value + 1);
      } else {
        FindNone(open1, n);
      }
    }
  }

  // a successful creation opens the new inode and nothing else
  lemma CommitCounts(fs: Fs, p: nat, s1: Dir, no: U32, f: nat, narrow: bool)
    requires fs.Shape() && OpenOk(fs) && MapsOk(fs) && p < |fs.open| && s1.Shape() && s1.inode.no == fs.open[p].inode.no
    requires s1.dataStart == fs.dataStart && no < |fs.ibits| && !fs.ibits[no] && 3 <= f < MAX_FILES
    ensures forall n: nat :: Live(Commit(fs, p, s1, no, f, narrow).0, n) <==> Live(fs, n) || n == no
    ensures forall n: nat :: Opens(Commit(fs, p, s1, no, f, narrow).0.open, n) == Opens(fs.open, n) + if n == no then 1 else 0
  {
    assert OpenAt(fs, p);
    var fs1 := CommitParts(fs, p, s1, no, f, narrow);
    OpenElements(fs);
    forall k | 0 <= k < |fs.open|
      ensures fs.open[k].inode.no != no
    {
      assert ElementOk(fs, fs.open[k]);
    }
    EnterCounts(fs.open, fs1.open, p, s1.inode, no);
  }

  // change of inode n's counter by an event
  function Change(fs: Fs, ev: Event, form: Form, n: nat): int
    requires fs.Shape()
  {
    match ev
    case Open(no) => if n == no then 1 else 0
    case Close(no) => if n == no then -1 else 0
    case Create(_, _, _, _) => if !Live(fs, n) && Live(Step(fs, ev, form), n) then 1 else 0
  }

  lemma CreateCounts(fs: Fs, p: nat, name: seq<Byte>, buf: bool, node: bool, form: Form, D: set<nat>, n: nat)
    requires FsOk(fs, D) && p < |fs.open| && |name| <= 15 && fs.open[p].inode.no in D
    ensures var fs1 := FileCreate(fs, p, name, buf, node, form).0;
            Opens(fs1.open, n) == Opens(fs.open, n) + if !Live(fs, n) && Live(fs1, n) then 1 else 0
  {
    NeverStops(fs, p, D);
    if no: U32, f: nat :| Creates(fs, p, name, buf, node, form, no, f) {
      var s1 := CreationIsCommit(fs, p, name, buf, node, form, no, f);
      CommitCounts(fs, p, s1, no, f, form.narrow);
    } else {
      var dbits := CreationUndone(fs, p, name, buf, node, form, D);
      OpenElements(fs);
      SameCounts(fs.open, FileCreate(fs, p, name, buf, node, form).0.open, n);
    }
  }

  // counters depend on numbers and counts only
  lemma SameCounts(open: seq<OpenInode>, open1: seq<OpenInode>, n: nat)
    requires |open1| == |open| && NoRepeats(open)
    requires forall k :: 0 <= k < |open| ==> open1[k].inode.no == open[k].inode.no && open1[k].cnt == open[k].cnt
    ensures Opens(open1, n) == Opens(open, n)
  {
    FindIsFirst(open, n, 0);
    if Find(open, n, 0).Some? {
      OpensAt(open1, n, Find(open, n, 0).value);
    } else {
      FindNone(open1, n);
    }
  }

  // an event that is a creation happens where the form of the source is sound
  ghost predicate SoundEvent(fs: Fs, ev: Event, form: Form)
    requires fs.Shape()
  {
    ev.Create? ==> forall p :: Find(fs.open, ev.par, 0) == Some(p) && p < |fs.open| ==> Sound(fs, p, ev.buf, ev.node, form)
  }

  // Whatever the form, an event keeps the file system consistent exactly if it is sound ...
  lemma StepKeeps(fs: Fs, ev: Event, form: Form, D: set<nat>)
    requires FsOk(fs, D) && Enabled(fs, D, ev)
    ensures FsOk(Step(fs, ev, form), D) <==> SoundEvent(fs, ev, form)
  {
    match ev
    case Open(no) => OpenKeeps(fs, no, D);
    case Close(no) => CloseKeeps(fs, no, D);
    case Create(par, name, buf, node) =>
      FindIsFirst(fs.open, par, 0);
      var p := Find(fs.open, par, 0).value;
      CreationKeepsIff(fs, p, name, buf, node, form, D);
      assert SoundEvent(fs, ev, form) <==> Sound(fs, p, buf, node, form);
  }

  // ... and it changes the counters as it says, sound or not.
  lemma StepCounts(fs: Fs, ev: Event, form: Form, D: set<nat>, n: nat)
    requires FsOk(fs, D) && Enabled(fs, D, ev)
    ensures Opens(Step(fs, ev, form).open, n) == Opens(fs.open, n) + Change(fs, ev, form, n)
  {
    OpenElements(fs);
    match ev
    case Open(no) => OpenCounts(fs.open, no, fs.table[no]);
    case Close(no) => CloseCounts(fs.open, no);
    case Create(par, name, buf, node) =>
      FindIsFirst(fs.open, par, 0);
      CreateCounts(fs, Find(fs.open, par, 0).value, name, buf, node, form, D, n);
  }

  // ---------- runs ----------

  // a run ends where an inode number from behind the table is handed out
  ghost predicate StepOf(D: set<nat>, form: Form, a: Fs, ev: Event, b: Fs) {
    a.Shape() && Enabled(a, D, ev) && !(ev.Create? && Overruns(a, ev.buf, form)) && b == Step(a, ev, form)
  }

  ghost predicate IsRun(D: set<nat>, form: Form, states: seq<Fs>, evs: seq<Event>) {
    |states| == |evs| + 1 && forall k :: 0 <= k < |evs| ==> StepOf(D, form, states[k], evs[k], states[k + 1])
  }

  ghost predicate SoundAt(form: Form, a: Fs, ev: Event) { a.Shape() && SoundEvent(a, ev, form) }

  // the first k events are sound
  ghost predicate SoundUpTo(form: Form, states: seq<Fs>, evs: seq<Event>, k: nat)
    requires k <= |evs| <= |states|
  {
    forall j :: 0 <= j < k ==> SoundAt(form, states[j], evs[j])
  }

  // opens and creations minus closes of inode n in the first k events
  ghost function Outstanding(states: seq<Fs>, evs: seq<Event>, form: Form, n: nat, k: nat): int
    requires k <= |evs| < |states| && forall j :: 0 <= j < |evs| ==> states[j].Shape()
  {
    if k == 0 then 0 else Outstanding(states, evs, form, n, k - 1) + Change(states[k - 1], evs[k - 1], form, n)
  }

  lemma RunShapes(D: set<nat>, form: Form, states: seq<Fs>, evs: seq<Event>)
    requires IsRun(D, form, states, evs)
    ensures forall j :: 0 <= j < |evs| ==> states[j].Shape()
  {
    forall j | 0 <= j < |evs|
      ensures states[j].Shape()
    {
      assert StepOf(D, form, states[j], evs[j], states[j + 1]);
    }
  }

  lemma RunStep(D: set<nat>, form: Form, states: seq<Fs>, evs: seq<Event>, k: nat)
    requires IsRun(D, form, states, evs) && k < |evs| && FsOk(states[k], D)
    ensures FsOk(states[k + 1], D) <==> SoundAt(form, states[k], evs[k])
  {
    assert StepOf(D, form, states[k], evs[k], states[k + 1]);
    StepKeeps(states[k], evs[k], form, D);
  }

  lemma {:induction false} RunKeeps(D: set<nat>, form: Form, states: seq<Fs>, evs: seq<Event>, k: nat)
    requires IsRun(D, form, states, evs) && FsOk(states[0], D) && k <= |evs| && SoundUpTo(form, states, evs, k)
    ensures FsOk(states[k], D)
  {
    if k > 0 {
      RunKeeps(D, form, states, evs, k - 1);
      RunStep(D, form, states, evs, k - 1);
    }
  }

  lemma {:induction false} RunCounts(D: set<nat>, form: Form, states: seq<Fs>, evs: seq<Event>, n: nat, k: nat)
    requires IsRun(D, form, states, evs) && FsOk(states[0], D) && k <= |evs| && SoundUpTo(form, states, evs, k)
    requires forall j :: 0 <= j < |evs| ==> states[j].Shape()
    ensures Opens(states[k].open, n) == Opens(states[0].open, n) + Outstanding(states, evs, form, n, k)
  {
    if k > 0 {
      RunCounts(D, form, states, evs, n, k - 1);
      RunKeeps(D, form, states, evs, k - 1);
      assert StepOf(D, form, states[k - 1], evs[k - 1], states[k]);
      StepCounts(states[k - 1], evs[k - 1], form, D, n);
    }
  }

  // A run of opens, closes and creations, in any form, is consistent throughout -- every inode has one object at
  // most, equal to its record on disk -- exactly if all its creations are sound; then each counter is the number
  // of outstanding opens.
  lemma RunsAreConsistent(D: set<nat>, form: Form, states: seq<Fs>, evs: seq<Event>)
    requires IsRun(D, form, states, evs) && FsOk(states[0], D)
    ensures forall j :: 0 <= j < |evs| ==> states[j].Shape()
    ensures (forall k :: 0 <= k <= |evs| ==> FsOk(states[k], D)) <==> SoundUpTo(form, states, evs, |evs|)
    ensures SoundUpTo(form, states, evs, |evs|) ==>
              forall n: nat :: Opens(states[|evs|].open, n) == Opens(states[0].open, n) + Outstanding(states, evs, form, n, |evs|)
  {
    RunShapes(D, form, states, evs);
    if SoundUpTo(form, states, evs, |evs|) {
      forall k | 0 <= k <= |evs|
        ensures FsOk(states[k], D)
      {
        RunKeeps(D, form, states, evs, k);
      }
      forall n: nat
        ensures Opens(states[|evs|].open, n) == Opens(states[0].open, n) + Outstanding(states, evs, form, n, |evs|)
      {
        RunCounts(D, form, states, evs, n, |evs|);
      }
    } else if forall k :: 0 <= k <= |evs| ==> FsOk(states[k], D) {
      forall k | 0 <= k < |evs|
        ensures SoundAt(form, states[k], evs[k])
      {
        RunStep(D, form, states, evs, k);
      }
    }
  }

  // the event is a creation that gets an index table and no block for it
  ghost predicate HalfEvent(fs: Fs, ev: Event, form: Form)
    requires fs.Shape()
  {
    && ev.Create? && Gets(fs, ev.buf, ev.node)
    && exists p: nat :: Find(fs.open, ev.par, 0) == Some(p) && p < |fs.open| && HalfTable(View(fs, fs.open[p].inode), form.scan)
  }

  // One event leaves the block bitmaps in memory and on disk equal exactly if it is not such a one.
  lemma StepExact(fs: Fs, ev: Event, form: Form, D: set<nat>)
    requires FsOk(fs, D) && Enabled(fs, D, ev) && fs.dbits == fs.bits
    ensures Step(fs, ev, form).dbits == Step(fs, ev, form).bits <==> !HalfEvent(fs, ev, form)
  {
    if ev.Create? {
      FindIsFirst(fs.open, ev.par, 0);
      var p := Find(fs.open, ev.par, 0).value;
      NeverStops(fs, p, D);
      CreationDisk(fs, p, ev.name, ev.buf, ev.node, form, D);
    }
  }

  // So they are equal all along a run without one.
  lemma {:induction false} RunExact(D: set<nat>, form: Form, states: seq<Fs>, evs: seq<Event>, k: nat)
    requires IsRun(D, form, states, evs) && FsOk(states[0], D) && k <= |evs| && states[0].dbits == states[0].bits
    requires SoundUpTo(form, states, evs, k)
    requires forall j :: 0 <= j < |evs| ==> states[j].Shape() && !HalfEvent(states[j], evs[j], form)
    ensures states[k].dbits == states[k].bits
  {
    if k > 0 {
      RunExact(D, form, states, evs, k - 1);
      RunKeeps(D, form, states, evs, k - 1);
      assert StepOf(D, form, states[k - 1], evs[k - 1], states[k]);
      StepExact(states[k - 1], evs[k - 1], form, D);
    }
  }

  // the source with the block index set back, the table read and the number not narrowed
  predicate Repaired(form: Form) { form.scan == CORRECTED && !form.narrow }

  lemma RepairedSound(fs: Fs, ev: Event, form: Form)
    requires fs.Shape() && Repaired(form)
    ensures SoundEvent(fs, ev, form)
  {
  }

  // Then every run is consistent without further condition.
  lemma RepairedRuns(D: set<nat>, form: Form, states: seq<Fs>, evs: seq<Event>, k: nat)
    requires IsRun(D, form, states, evs) && FsOk(states[0], D) && Repaired(form) && k <= |evs|
    ensures FsOk(states[k], D)
  {
    RunShapes(D, form, states, evs);
    forall j | 0 <= j < k
      ensures SoundAt(form, states[j], evs[j])
    {
      RepairedSound(states[j], evs[j], form);
    }
    RunKeeps(D, form, states, evs, k);
  }

  // An inode closed for the last time comes back from disk as it was.
  lemma ReopenedSame(fs: Fs, no: nat, D: set<nat>)
    requires FsOk(fs, D) && Opens(fs.open, no) == 1
    ensures no < INODE_CNT && Find(InodeClose(fs, no).open, no, 0) == None
    ensures Find(fs.open, no, 0).Some? && Find(fs.open, no, 0).value < |fs.open|
    ensures InodeOpen(InodeClose(fs, no), no).open[0] == fs.open[Find(fs.open, no, 0).value]
  {
    OpenElements(fs);
    FindIsFirst(fs.open, no, 0);
    var k := Find(fs.open, no, 0).value;
    assert ElementOk(fs, fs.open[k]);
    CloseCounts(fs.open, no);
    assert fs.open[k] == OpenInode(fs.table[no], 1);
  }
}
