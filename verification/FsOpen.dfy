/** search_file and sys_open (fs/fs.c): walking a path through the directories, and what the walk does to
    the cache of open inodes. */
module FsOpen {
  import opened Bits
  import opened Bytes
  import opened FsInode
  import opened FsDir
  import opened FsDirLaws
  import opened FsFile
  import opened FsFileKeeps
  import opened FsCache
  import opened FsPath

  // struct dir: the static root directory, or one from dir_open
  datatype Handle = Root | Opened(no: nat)
  {
    function No(): nat { if Root? then 0 else no }
  }

  // dir_open and dir_close on the list of open inodes
  function DirOpen(fs: Fs, open: seq<OpenInode>, no: nat): seq<OpenInode>
    requires fs.Shape()
  {
    if no < INODE_CNT then FsCache.Opened(open, no, fs.table[no]) else open
  }

  function DirClose(open: seq<OpenInode>, h: Handle): seq<OpenInode> {
    if h.Root? then open else Closed(open, h.no)
  }

  // what the blocks of the directory with that inode list under a name
  function Lookup(fs: Fs, no: nat, name: Name): Option<Entry>
    requires fs.Shape() && |name| <= NAME_MAX
  {
    if no < INODE_CNT then FirstMatch(EntriesOf(fs, no), name) else None
  }

  // what search_dir_entry answers
  function Answer(fs: Fs, no: nat, name: Name, scratch: Scratch): Option<Entry>
    requires fs.Shape() && |name| <= NAME_MAX && scratch.Ok()
  {
    if no < INODE_CNT then Searched(fs.d, fs.table[no], name, scratch) else None
  }

  // what it should answer with the memory it gets
  function Known(fs: Fs, no: nat, name: Name, scratch: Scratch): Option<Entry>
    requires fs.Shape() && |name| <= NAME_MAX
  {
    if scratch.NoMemory? then None else Lookup(fs, no, name)
  }

  // It does so whenever the directory has an index table, or its memory happened to be zero.
  lemma AnswerIsKnown(fs: Fs, no: nat, name: Name, scratch: Scratch)
    requires fs.Shape() && |name| <= NAME_MAX && scratch.Ok() && no < INODE_CNT
    requires scratch.Memory? ==> fs.table[no].sectors[12] != 0 || forall j :: 0 <= j < 128 ==> scratch.junk[j] == 0
    ensures Answer(fs, no, name, scratch) == Known(fs, no, name, scratch)
  {
    if scratch.Memory? {
      SearchSeesBlocks(fs.d, fs.table[no], scratch.junk);
    }
  }

  // what search_file returns and records: no is -1 if nothing was found
  datatype Search = Search(no: int, ftype: U32, parent: Handle, searched: seq<Name>)

  predicate Names(cs: seq<Name>) { forall c :: c in cs ==> 1 <= |c| <= NAME_MAX && c[0] != 0 }

  // memory for a search each
  predicate Supplied(cs: seq<Name>, mem: seq<Scratch>) { |mem| == |cs| && forall s :: s in mem ==> s.Ok() }

  // the first k searches get memory
  predicate Granted(mem: seq<Scratch>, k: nat)
    requires k <= |mem|
  {
    forall j :: 0 <= j < k ==> mem[j].Memory?
  }

  // no search on the way is misled by what its memory held
  predicate Guided(fs: Fs, dir: nat, cs: seq<Name>, mem: seq<Scratch>)
    requires fs.Shape() && Names(cs) && Supplied(cs, mem)
    decreases |cs|
  {
    cs == [] ||
    var e := Known(fs, dir, cs[0], mem[0]);
    && Answer(fs, dir, cs[0], mem[0]) == e
    && (e.Some? && e.value.ftype == FT_DIRECTORY ==> Guided(fs, e.value.no, cs[1..], mem[1..]))
  }

  // the loop of search_file: h is the current directory, up the inode number of the one before, last the
  // number in the entry found last
  function Walk(fs: Fs, open: seq<OpenInode>, h: Handle, up: nat, last: U32, cs: seq<Name>, mem: seq<Scratch>, searched: seq<Name>)
      : (r: (seq<OpenInode>, Search))
    requires fs.Shape() && Names(cs) && Supplied(cs, mem)
    decreases |cs|
  {
    if cs == [] then (DirOpen(fs, DirClose(open, h), up), Search(last, FT_DIRECTORY, Opened(up), searched))
    else
      var found := Answer(fs, h.No(), cs[0], mem[0]);
      var now := searched + [cs[0]];
      if found == None then (open, Search(-1, 0, h, now))
      else if found.value.ftype == FT_DIRECTORY then
        Walk(fs, DirOpen(fs, DirClose(open, h), found.value.no), Opened(found.value.no), h.No(), found.value.no,
             cs[1..], mem[1..], now)
      else if found.value.ftype == FT_REGULAR then (open, Search(found.value.no, FT_REGULAR, h, now))
      else Walk(fs, open, h, up, found.value.no, cs[1..], mem[1..], now)
  }

  // a walk that does not end in a directory has recorded something
  lemma {:induction false} WalkNames(fs: Fs, open: seq<OpenInode>, h: Handle, up: nat, last: U32, cs: seq<Name>, mem: seq<Scratch>,
                                     searched: seq<Name>)
    requires fs.Shape() && Names(cs) && Supplied(cs, mem)
    ensures var r := Walk(fs, open, h, up, last, cs, mem, searched).1; r.ftype == FT_DIRECTORY || |r.searched| > |searched|
    decreases |cs|
  {
    if cs != [] {
      var found := Answer(fs, h.No(), cs[0], mem[0]);
      var now := searched + [cs[0]];
      if found.Some? && found.value.ftype == FT_DIRECTORY {
        WalkNames(fs, DirOpen(fs, DirClose(open, h), found.value.no), Opened(found.value.no), h.No(), found.value.no,
                  cs[1..], mem[1..], now);
      } else if found.Some? && found.value.ftype != FT_REGULAR {
        WalkNames(fs, open, h, up, found.value.no, cs[1..], mem[1..], now);
      }
    }
  }

  // only components are recorded
  lemma {:induction false} WalkSearched(fs: Fs, open: seq<OpenInode>, h: Handle, up: nat, last: U32, cs: seq<Name>, mem: seq<Scratch>,
                                        searched: seq<Name>, c: Name)
    requires fs.Shape() && Names(cs) && Supplied(cs, mem) && c in Walk(fs, open, h, up, last, cs, mem, searched).1.searched
    ensures c in searched || c in cs
    decreases |cs|
  {
    if cs != [] {
      var found := Answer(fs, h.No(), cs[0], mem[0]);
      var now := searched + [cs[0]];
      if found.Some? && found.value.ftype == FT_DIRECTORY {
        WalkSearched(fs, DirOpen(fs, DirClose(open, h), found.value.no), Opened(found.value.no), h.No(), found.value.no,
                     cs[1..], mem[1..], now, c);
      } else if found.Some? && found.value.ftype != FT_REGULAR {
        WalkSearched(fs, open, h, up, found.value.no, cs[1..], mem[1..], now, c);
      }
    }
  }

  const MAX_PATH: nat := 512   // MAX_PATH_LEN

  predicate IsRootPath(path: seq<Byte>) { path in {[SLASH], [SLASH, 46], [SLASH, 46, 46]} }

  // search_file's assertion on the path's length fires
  predicate PathTooLong(path: seq<Byte>) { !IsRootPath(path) && |path| >= MAX_PATH }

  // search_file; None is that assertion, and junk the uninitialised entry number it returns for a path
  // without components
  function SearchFile(fs: Fs, open: seq<OpenInode>, path: seq<Byte>, junk: U32, mem: seq<Scratch>)
      : (r: Option<(seq<OpenInode>, Search)>)
    requires fs.Shape() && Names(Components(path)) && Supplied(Components(path), mem)
  {
    if IsRootPath(path) then Some((open, Search(0, FT_DIRECTORY, Root, [])))
    else if |path| >= MAX_PATH then None
    else Some(Walk(fs, open, Root, 0, junk, Components(path), mem, []))
  }

  // Its other assertion, on the length of what it has recorded, never fires: at every turn that is no longer
  // than the path.
  lemma SearchedFits(path: seq<Byte>, k: nat)
    requires path != [] && path[0] == SLASH && !PathTooLong(path) && k <= |Components(path)|
    ensures |Joined(Components(path)[..k])| < MAX_PATH
  {
    JoinedLength(path);
    JoinedPrefix(Components(path), k);
  }

  // what sys_open does after the search: refuse and close the directory, leave it open, or create in it
  datatype Decision = Refuse | Leave | CreateHere

  function Decide(r: Search, depth: nat, creat: bool): Decision {
    if r.ftype == FT_DIRECTORY || |r.searched| != depth then Refuse
    else if r.no == -1 then (if creat then CreateHere else Refuse)
    else if creat then Refuse else Leave
  }

  // ---------- the abstract tree ----------

  // inode of the directory reached from dir through cs
  function DirAt(fs: Fs, dir: nat, cs: seq<Name>): Option<nat>
    requires fs.Shape() && Names(cs)
    decreases |cs|
  {
    if cs == [] then Some(dir)
    else
      var e := Lookup(fs, dir, cs[0]);
      if e.Some? && e.value.ftype == FT_DIRECTORY then DirAt(fs, e.value.no, cs[1..]) else None
  }

  // what a directory of D lists under a name is a file, or again a directory of D
  ghost predicate Tree(fs: Fs, D: set<nat>)
    requires fs.Shape()
  {
    forall n: nat, name: Name :: n in D && 1 <= |name| <= NAME_MAX && name[0] != 0 && Lookup(fs, n, name).Some? ==>
      Listed(Lookup(fs, n, name).value, D)
  }

  predicate Listed(e: Entry, D: set<nat>) { e.ftype == FT_REGULAR || (e.ftype == FT_DIRECTORY && e.no in D) }

  // A consistent file system is such a tree.
  lemma IsTree(fs: Fs, D: set<nat>)
    requires FsOk(fs, D)
    ensures Tree(fs, D)
  {
    forall n: nat, name: Name | n in D && 1 <= |name| <= NAME_MAX && name[0] != 0 && Lookup(fs, n, name).Some?
      ensures Listed(Lookup(fs, n, name).value, D)
    {
      FoundIsListed(fs, n, name, D);
    }
  }

  lemma FoundIsListed(fs: Fs, n: nat, name: Name, D: set<nat>)
    requires FsOk(fs, D) && n in D && 1 <= |name| <= NAME_MAX && name[0] != 0 && Lookup(fs, n, name).Some?
    ensures Listed(Lookup(fs, n, name).value, D)
  {
    assert DirectoryOk(fs, n, D);
    var es := EntriesOf(fs, n);
    FirstMatchIsFirst(es, name);
    var k :| 0 <= k < |es| && es[k] == FirstMatch(es, name).value && NameIs(es[k], name);
    assert EntryOk(fs, es[k], D);
    assert es[k].name[..|name|][0] == es[k].name[0];
  }

  // a name a guided walk looks up leads to a file or a directory of the tree
  lemma StepListed(fs: Fs, dir: nat, cs: seq<Name>, mem: seq<Scratch>, D: set<nat>)
    requires fs.Shape() && Names(cs) && Supplied(cs, mem) && cs != [] && Tree(fs, D) && dir in D && Guided(fs, dir, cs, mem)
    ensures Answer(fs, dir, cs[0], mem[0]).Some? ==> mem[0].Memory? && Listed(Answer(fs, dir, cs[0], mem[0]).value, D)
    ensures Names(cs[1..]) && Supplied(cs[1..], mem[1..])
  {
    assert cs[0] in cs;
  }

  // the walk reports a directory exactly if all components are directories and all searches get memory, and
  // then has recorded them all
  lemma {:induction false} WalkEnds(fs: Fs, open: seq<OpenInode>, h: Handle, up: nat, last: U32, cs: seq<Name>, mem: seq<Scratch>,
      searched: seq<Name>, D: set<nat>)
    requires fs.Shape() && Names(cs) && Supplied(cs, mem) && Tree(fs, D) && h.No() in D && Guided(fs, h.No(), cs, mem)
    ensures var r := Walk(fs, open, h, up, last, cs, mem, searched).1;
            && (r.ftype == FT_DIRECTORY <==> DirAt(fs, h.No(), cs).Some? && Granted(mem, |cs|))
            && (r.ftype == FT_DIRECTORY ==> |r.searched| == |searched| + |cs|)
            && |r.searched| <= |searched| + |cs|
    decreases |cs|
  {
    if cs != [] {
      StepListed(fs, h.No(), cs, mem, D);
      GrantedSplit(mem, |cs|);
      var found := Answer(fs, h.No(), cs[0], mem[0]);
      if found.Some? && found.value.ftype == FT_DIRECTORY {
        WalkEnds(fs, DirOpen(fs, DirClose(open, h), found.value.no), Opened(found.value.no), h.No(), found.value.no, cs[1..], mem[1..],
                 searched + [cs[0]], D);
      }
    }
  }

  lemma GrantedSplit(mem: seq<Scratch>, k: nat)
    requires 0 < k <= |mem|
    ensures Granted(mem, k) <==> mem[0].Memory? && Granted(mem[1..], k - 1)
  {
    if mem[0].Memory? && Granted(mem[1..], k - 1) {
      assert forall j :: 0 < j < k ==> mem[j] == mem[1..][j - 1];
    }
    if Granted(mem, k) {
      assert forall j :: 0 <= j < k - 1 ==> mem[1..][j] == mem[j + 1];
    }
  }

  // it records all components exactly if all before the last are directories whose searches get memory
  lemma {:induction false} WalkReaches(fs: Fs, open: seq<OpenInode>, h: Handle, up: nat, last: U32, cs: seq<Name>, mem: seq<Scratch>,
      searched: seq<Name>, D: set<nat>)
    requires fs.Shape() && Names(cs) && Supplied(cs, mem) && cs != [] && Tree(fs, D) && h.No() in D && Guided(fs, h.No(), cs, mem)
    ensures |Walk(fs, open, h, up, last, cs, mem, searched).1.searched| == |searched| + |cs|
            <==> DirAt(fs, h.No(), Front(cs)).Some? && Granted(mem, |cs| - 1)
    decreases |cs|
  {
    WalkEnds(fs, open, h, up, last, cs, mem, searched, D);
    StepListed(fs, h.No(), cs, mem, D);
    var found := Answer(fs, h.No(), cs[0], mem[0]);
    if |cs| == 1 {
      assert Front(cs) == [] && cs[1..] == [];
    } else {
      GrantedSplit(mem, |cs| - 1);
      assert Front(cs)[0] == cs[0] && Front(cs)[1..] == Front(cs[1..]);
      if found.Some? && found.value.ftype == FT_DIRECTORY {
        WalkReaches(fs, DirOpen(fs, DirClose(open, h), found.value.no), Opened(found.value.no), h.No(), found.value.no, cs[1..],
                    mem[1..], searched + [cs[0]], D);
      }
    }
  }

  // one component that is a directory
  lemma WalkInto(fs: Fs, open: seq<OpenInode>, h: Handle, up: nat, last: U32, cs: seq<Name>, mem: seq<Scratch>, searched: seq<Name>,
                 e: Entry) returns (next: seq<OpenInode>)
    requires fs.Shape() && Names(cs) && Supplied(cs, mem) && cs != []
    requires Answer(fs, h.No(), cs[0], mem[0]) == Some(e) && e.ftype == FT_DIRECTORY
    ensures Names(cs[1..]) && Supplied(cs[1..], mem[1..])
    ensures Walk(fs, open, h, up, last, cs, mem, searched)
            == Walk(fs, next, Opened(e.no), h.No(), e.no, cs[1..], mem[1..], searched + [cs[0]])
  {
    next := DirOpen(fs, DirClose(open, h), e.no);
  }

  lemma DirAtInto(fs: Fs, dir: nat, cs: seq<Name>, e: Entry)
    requires fs.Shape() && Names(cs) && |cs| >= 2 && Lookup(fs, dir, cs[0]) == Some(e) && e.ftype == FT_DIRECTORY
    ensures Names(cs[1..]) && DirAt(fs, dir, Front(cs)) == DirAt(fs, e.no, Front(cs[1..])) && Last(cs) == Last(cs[1..])
  {
    assert Front(cs)[0] == cs[0] && Front(cs)[1..] == Front(cs[1..]);
  }

  // a walk that ends at its first component
  lemma WalkOne(fs: Fs, open: seq<OpenInode>, h: Handle, up: nat, last: U32, cs: seq<Name>, mem: seq<Scratch>,
      searched: seq<Name>, D: set<nat>)
    requires fs.Shape() && Names(cs) && Supplied(cs, mem) && cs != [] && Tree(fs, D) && h.No() in D && Guided(fs, h.No(), cs, mem)
    requires Answer(fs, h.No(), cs[0], mem[0]).Some? ==> Answer(fs, h.No(), cs[0], mem[0]).value.ftype != FT_DIRECTORY
    ensures var r := Walk(fs, open, h, up, last, cs, mem, searched).1;
            && r.parent == h && |r.searched| == |searched| + 1
            && r.no == match Known(fs, h.No(), cs[0], mem[0]) case None => -1 case Some(e) => e.no
  {
    StepListed(fs, h.No(), cs, mem, D);
  }

  // then, if the last component is no directory, it reports what that one is
  lemma {:induction false} WalkReports(fs: Fs, open: seq<OpenInode>, h: Handle, up: nat, last: U32, cs: seq<Name>, mem: seq<Scratch>,
      searched: seq<Name>, D: set<nat>)
    requires fs.Shape() && Names(cs) && Supplied(cs, mem) && cs != [] && Tree(fs, D) && h.No() in D && Guided(fs, h.No(), cs, mem)
    requires Walk(fs, open, h, up, last, cs, mem, searched).1.ftype != FT_DIRECTORY
    requires |Walk(fs, open, h, up, last, cs, mem, searched).1.searched| == |searched| + |cs|
    ensures var r := Walk(fs, open, h, up, last, cs, mem, searched).1;
            && DirAt(fs, h.No(), Front(cs)) == Some(r.parent.No())
            && r.no == match Known(fs, r.parent.No(), Last(cs), mem[|cs| - 1]) case None => -1 case Some(e) => e.no
    decreases |cs|
  {
    StepListed(fs, h.No(), cs, mem, D);
    var found := Answer(fs, h.No(), cs[0], mem[0]);
    if found.Some? && found.value.ftype == FT_DIRECTORY {
      var next := WalkInto(fs, open, h, up, last, cs, mem, searched, found.value);
      if |cs| > 1 {
        DirAtInto(fs, h.No(), cs, found.value);
        WalkReports(fs, next, Opened(found.value.no), h.No(), found.value.no, cs[1..], mem[1..], searched + [cs[0]], D);
        assert mem[1..][|cs| - 2] == mem[|cs| - 1];
      }
    } else {
      WalkOne(fs, open, h, up, last, cs, mem, searched, D);
      assert Front(cs) == [];
    }
  }

  // The walk agrees with the recursive lookup, as far as its searches get memory: it ends in a directory exactly
  // if all components are directories; it reaches the last component exactly if all before it are, and then
  // reports what the last one is in the directory they lead to -- or that it is not there, without memory.
  lemma WalkResolves(fs: Fs, open: seq<OpenInode>, h: Handle, up: nat, last: U32, cs: seq<Name>, mem: seq<Scratch>,
      searched: seq<Name>, D: set<nat>)
    requires fs.Shape() && Names(cs) && Supplied(cs, mem) && cs != [] && Tree(fs, D) && h.No() in D && Guided(fs, h.No(), cs, mem)
    ensures var r := Walk(fs, open, h, up, last, cs, mem, searched).1;
            && (r.ftype == FT_DIRECTORY <==> DirAt(fs, h.No(), cs).Some? && Granted(mem, |cs|))
            && (|r.searched| == |searched| + |cs| <==> DirAt(fs, h.No(), Front(cs)).Some? && Granted(mem, |cs| - 1))
            && (r.ftype != FT_DIRECTORY && |r.searched| == |searched| + |cs| ==>
                  && DirAt(fs, h.No(), Front(cs)) == Some(r.parent.No())
                  && r.no == match Known(fs, r.parent.No(), Last(cs), mem[|cs| - 1]) case None => -1 case Some(e) => e.no)
  {
    var r := Walk(fs, open, h, up, last, cs, mem, searched).1;
    WalkEnds(fs, open, h, up, last, cs, mem, searched, D);
    WalkReaches(fs, open, h, up, last, cs, mem, searched, D);
    if r.ftype != FT_DIRECTORY && |r.searched| == |searched| + |cs| {
      WalkReports(fs, open, h, up, last, cs, mem, searched, D);
    }
  }

  function Front(cs: seq<Name>): seq<Name>
    requires cs != []
  {
    cs[..|cs| - 1]
  }

  function Last(cs: seq<Name>): Name
    requires cs != []
  {
    cs[|cs| - 1]
  }

  // the search gets to file_create
  predicate CreatesAt(found: Option<(seq<OpenInode>, Search)>, depth: nat, creat: bool) {
    found.Some? && Decide(found.value.1, depth, creat).CreateHere?
  }

  // sys_open with O_CREAT gets to file_create exactly if the path is shorter than 512 bytes and not one of the
  // root's own names, all components but the last lead through directories whose searches get memory, and the
  // last is not there -- or its search gets no memory, when it is created although it may be there.
  lemma OpenCreatesIff(fs: Fs, open: seq<OpenInode>, path: seq<Byte>, junk: U32, mem: seq<Scratch>, creat: bool, D: set<nat>)
    requires FsOk(fs, D) && 0 in D && Names(Components(path)) && Components(path) != [] && Supplied(Components(path), mem)
    requires Guided(fs, 0, Components(path), mem)
    ensures var found := SearchFile(fs, open, path, junk, mem); var cs := Components(path); var at := DirAt(fs, 0, Front(cs));
            && (found == None <==> PathTooLong(path))
            && (CreatesAt(found, |cs|, creat) <==>
                  && creat && !IsRootPath(path) && !PathTooLong(path) && at.Some? && Granted(mem, |cs| - 1)
                  && (Lookup(fs, at.value, Last(cs)) == None || mem[|cs| - 1].NoMemory?))
            && (CreatesAt(found, |cs|, creat) ==> at == Some(found.value.1.parent.No()))
  {
    if !IsRootPath(path) && !PathTooLong(path) {
      IsTree(fs, D);
      WalkCreatesIff(fs, open, junk, Components(path), mem, creat, D);
    }
  }

  // the same of a walk from the root directory
  lemma WalkCreatesIff(fs: Fs, open: seq<OpenInode>, junk: U32, cs: seq<Name>, mem: seq<Scratch>, creat: bool, D: set<nat>)
    requires fs.Shape() && Tree(fs, D) && 0 in D && Names(cs) && cs != [] && Supplied(cs, mem) && Guided(fs, 0, cs, mem)
    ensures var r := Walk(fs, open, Root, 0, junk, cs, mem, []).1; var at := DirAt(fs, 0, Front(cs));
            && (Decide(r, |cs|, creat).CreateHere? <==>
                  creat && at.Some? && Granted(mem, |cs| - 1) && (Lookup(fs, at.value, Last(cs)) == None || mem[|cs| - 1].NoMemory?))
            && (Decide(r, |cs|, creat).CreateHere? ==> at == Some(r.parent.No()))
  {
    WalkResolves(fs, open, Root, 0, junk, cs, mem, [], D);
    DirAtLast(fs, 0, cs);
    GrantedLast(mem);
  }

  lemma GrantedLast(mem: seq<Scratch>)
    requires mem != []
    ensures Granted(mem, |mem|) <==> Granted(mem, |mem| - 1) && mem[|mem| - 1].Memory?
  {
  }

  // a path leads to a directory if all but its last component do, and that is one
  lemma {:induction false} DirAtLast(fs: Fs, dir: nat, cs: seq<Name>)
    requires fs.Shape() && Names(cs) && cs != []
    ensures DirAt(fs, dir, cs).Some? <==>
            DirAt(fs, dir, Front(cs)).Some?
            && Lookup(fs, DirAt(fs, dir, Front(cs)).value, Last(cs)).Some?
            && Lookup(fs, DirAt(fs, dir, Front(cs)).value, Last(cs)).value.ftype == FT_DIRECTORY
    decreases |cs|
  {
    if |cs| == 1 {
      assert cs[1..] == [] && Front(cs) == [];
    } else {
      var e := Lookup(fs, dir, cs[0]);
      assert Front(cs)[1..] == Front(cs[1..]) && Last(cs) == Last(cs[1..]) && Front(cs)[0] == cs[0];
      if e.Some? && e.value.ftype == FT_DIRECTORY {
        DirAtLast(fs, e.value.no, cs[1..]);
      }
    }
  }

  // ---------- the opens of a walk ----------

  // the list of open inodes fits the file system, and the handle's directory is one of D and open
  ghost predicate HandleOk(fs: Fs, open: seq<OpenInode>, h: Handle, D: set<nat>) {
    FsOk(WithOpen(fs, open), D) && h.No() in D && (h.Opened? ==> Opens(open, h.no) > 0)
  }

  function Holds(h: Handle, n: nat): nat { if h == Opened(n) then 1 else 0 }

  lemma CloseHandle(fs: Fs, open: seq<OpenInode>, h: Handle, D: set<nat>)
    requires HandleOk(fs, open, h, D)
    ensures FsOk(WithOpen(fs, DirClose(open, h)), D)
    ensures forall n: nat :: Opens(DirClose(open, h), n) == Opens(open, n) - Holds(h, n)
  {
    if h.Opened? {
      var fs1 := WithOpen(fs, open);
      OpenElements(fs1);
      CloseCounts(open, h.no);
      CloseKeeps(fs1, h.no, D);
      assert InodeClose(fs1, h.no) == WithOpen(fs, DirClose(open, h));
    }
  }

  lemma OpenHandle(fs: Fs, open: seq<OpenInode>, no: nat, D: set<nat>)
    requires fs.Shape() && FsOk(WithOpen(fs, open), D) && no in D
    ensures HandleOk(fs, DirOpen(fs, open, no), Opened(no), D)
    ensures forall n: nat :: Opens(DirOpen(fs, open, no), n) == Opens(open, n) + Holds(Opened(no), n)
  {
    var fs1 := WithOpen(fs, open);
    assert Live(fs1, no) && fs1.table[no].no == no;
    OpenElements(fs1);
    OpenCounts(open, no, fs.table[no]);
    OpenKeeps(fs1, no, D);
    assert InodeOpen(fs1, no) == WithOpen(fs, DirOpen(fs, open, no));
  }

  lemma ChangeHandle(fs: Fs, open: seq<OpenInode>, h: Handle, no: nat, D: set<nat>)
    requires fs.Shape() && HandleOk(fs, open, h, D) && no in D
    ensures no < INODE_CNT && HandleOk(fs, DirOpen(fs, DirClose(open, h), no), Opened(no), D)
    ensures forall n: nat :: Opens(DirOpen(fs, DirClose(open, h), no), n) == Opens(open, n) - Holds(h, n) + Holds(Opened(no), n)
  {
    CloseHandle(fs, open, h, D);
    OpenHandle(fs, DirClose(open, h), no, D);
    assert Live(WithOpen(fs, open), no);
  }

  // what a guided search finds is a file or a directory of D
  lemma FoundInD(fs: Fs, open: seq<OpenInode>, no: nat, name: Name, D: set<nat>)
    requires fs.Shape() && FsOk(WithOpen(fs, open), D) && no in D && 1 <= |name| <= NAME_MAX && name[0] != 0
    requires Lookup(fs, no, name).Some?
    ensures Listed(Lookup(fs, no, name).value, D)
  {
    var fs1 := WithOpen(fs, open);
    assert View(fs1, fs1.table[no]) == View(fs, fs.table[no]) by {
      assert DirectoryOk(fs1, no, D);
    }
    FoundIsListed(fs1, no, name, D);
  }

  // The walk gives up the directory it comes from and holds the one it reports, and no other count changes.
  lemma {:induction false} WalkCounts(fs: Fs, open: seq<OpenInode>, h: Handle, up: nat, last: U32, cs: seq<Name>, mem: seq<Scratch>,
      searched: seq<Name>, D: set<nat>)
    requires fs.Shape() && Names(cs) && Supplied(cs, mem) && HandleOk(fs, open, h, D) && up in D && Guided(fs, h.No(), cs, mem)
    ensures var r := Walk(fs, open, h, up, last, cs, mem, searched);
            && HandleOk(fs, r.0, r.1.parent, D)
            && forall n: nat :: Opens(r.0, n) == Opens(open, n) - Holds(h, n) + Holds(r.1.parent, n)
    decreases |cs|
  {
    if cs == [] {
      ChangeHandle(fs, open, h, up, D);
    } else {
      var found := Answer(fs, h.No(), cs[0], mem[0]);
      var now := searched + [cs[0]];
      if found.Some? {
        assert cs[0] in cs;
        FoundInD(fs, open, h.No(), cs[0], D);
        if found.value.ftype == FT_DIRECTORY {
          ChangeHandle(fs, open, h, found.value.no, D);
          WalkCounts(fs, DirOpen(fs, DirClose(open, h), found.value.no), Opened(found.value.no), h.No(), found.value.no,
                     cs[1..], mem[1..], now, D);
        }
      }
    }
  }

  // ---------- sys_open ----------

  // file_create in the directory that was found, and its close
  function CreateAndClose(fs: Fs, h: Handle, name: Name, buf: bool, node: bool, form: Form): (r: (Fs, int))
    requires fs.Shape() && |name| <= NAME_MAX
  {
    var p := Find(fs.open, h.No(), 0);
    if p.None? || p.value >= |fs.open| then (fs, -1)
    else
      var made := FileCreate(fs, p.value, name, buf, node, form);
      if made.1 in {STOPPED, OVERRUN} then made else (WithOpen(made.0, DirClose(made.0.open, h)), made.1)
  }

  // sys_open once search_file has returned r, with this list of open inodes
  function Conclude(fs: Fs, open: seq<OpenInode>, r: Search, depth: nat, name: Name, creat: bool, buf: bool, node: bool, form: Form)
      : (res: (Fs, int))
    requires fs.Shape() && |name| <= NAME_MAX
  {
    var fs1 := WithOpen(fs, open);
    match Decide(r, depth, creat)
    case Refuse => (WithOpen(fs, DirClose(open, r.parent)), -1)
    case Leave => (fs1, -1)
    case CreateHere => if fs1.Shape() then CreateAndClose(fs1, r.parent, name, buf, node, form) else (fs1, -1)
  }

  // flags & O_CREAT
  predicate Creat(flags: nat) { flags / 4 % 2 == 1 }

  // sys_open of a path that does not end in a slash
  function SysOpen(fs: Fs, path: seq<Byte>, junk: U32, mem: seq<Scratch>, flags: nat, buf: bool, node: bool, form: Form): (r: (Fs, int))
    requires fs.Shape() && Names(Components(path)) && Components(path) != [] && Supplied(Components(path), mem)
  {
    var cs := Components(path);
    if flags > 7 then (fs, STOPPED)
    else
      match SearchFile(fs, fs.open, path, junk, mem)
      case None => (fs, STOPPED)
      case Some((open, r)) => Conclude(fs, open, r, |cs|, Last(cs), Creat(flags), buf, node, form)
  }

  // a path for sys_open, and memory for its searches that does not mislead them
  ghost predicate Resolvable(fs: Fs, path: seq<Byte>, mem: seq<Scratch>)
    requires fs.Shape()
  {
    && Names(Components(path)) && Supplied(Components(path), mem) && Guided(fs, 0, Components(path), mem)
  }

  lemma SearchCounts(fs: Fs, path: seq<Byte>, junk: U32, mem: seq<Scratch>, D: set<nat>)
    requires FsOk(fs, D) && 0 in D && Resolvable(fs, path, mem) && !PathTooLong(path)
    ensures var r := SearchFile(fs, fs.open, path, junk, mem).value;
            && HandleOk(fs, r.0, r.1.parent, D)
            && forall n: nat :: Opens(r.0, n) == Opens(fs.open, n) + Holds(r.1.parent, n)
  {
    assert WithOpen(fs, fs.open) == fs;
    if !IsRootPath(path) {
      WalkCounts(fs, fs.open, Root, 0, junk, Components(path), mem, [], D);
    }
  }

  // where the form of the source is sound for a creation in directory h
  ghost predicate SoundAt(fs: Fs, h: Handle, buf: bool, node: bool, form: Form)
    requires fs.Shape()
  {
    forall p: nat :: Find(fs.open, h.No(), 0) == Some(p) && p < |fs.open| ==> Sound(fs, p, buf, node, form)
  }

  // what a creation and the close of its directory add to the counts: the new inode, minus the directory
  lemma CreateCloseCounts(fs: Fs, h: Handle, name: Name, buf: bool, node: bool, form: Form, D: set<nat>)
    requires FsOk(fs, D) && |name| <= NAME_MAX && HandleOk(fs, fs.open, h, D) && Opens(fs.open, h.No()) > 0
    requires SoundAt(fs, h, buf, node, form)
    ensures var r := CreateAndClose(fs, h, name, buf, node, form);
            && r.1 != STOPPED && (r.1 == OVERRUN <==> Overruns(fs, buf, form))
            && (r.1 != OVERRUN ==> FsOk(r.0, D) && forall n: nat ::
                  Opens(r.0.open, n) == Opens(fs.open, n) - Holds(h, n) + if !Live(fs, n) && Live(r.0, n) then 1 else 0)
  {
    FindIsFirst(fs.open, h.No(), 0);
    var p := Find(fs.open, h.No(), 0).value;
    var made := CreatedCounts(fs, p, name, buf, node, form, D);
    if !Overruns(fs, buf, form) {
      assert WithOpen(made, made.open) == made;
      CloseHandle(made, made.open, h, D);
    }
  }

  lemma CreatedCounts(fs: Fs, p: nat, name: Name, buf: bool, node: bool, form: Form, D: set<nat>) returns (made: Fs)
    requires FsOk(fs, D) && p < |fs.open| && |name| <= NAME_MAX && fs.open[p].inode.no in D && Sound(fs, p, buf, node, form)
    ensures made == FileCreate(fs, p, name, buf, node, form).0 && FsOk(made, D)
    ensures FileCreate(fs, p, name, buf, node, form).1 != STOPPED
    ensures FileCreate(fs, p, name, buf, node, form).1 == OVERRUN <==> Overruns(fs, buf, form)
    ensures forall n: nat :: Opens(made.open, n) == Opens(fs.open, n) + if !Live(fs, n) && Live(made, n) then 1 else 0
  {
    made := FileCreate(fs, p, name, buf, node, form).0;
    NeverStops(fs, p, D);
    StopsIff(fs, p, name, buf, node, form);
    OverrunIff(fs, p, name, buf, node, form);
    CreationKeepsIff(fs, p, name, buf, node, form, D);
    forall n: nat
      ensures Opens(made.open, n) == Opens(fs.open, n) + if !Live(fs, n) && Live(made, n) then 1 else 0
    {
      CreateCounts(fs, p, name, buf, node, form, D, n);
    }
  }

  // The one way out of sys_open that keeps a directory open: the file was found, without O_CREAT.
  ghost predicate LeavesOpen(fs: Fs, path: seq<Byte>, junk: U32, mem: seq<Scratch>, flags: nat)
    requires fs.Shape() && Resolvable(fs, path, mem) && !PathTooLong(path)
  {
    Decide(SearchFile(fs, fs.open, path, junk, mem).value.1, |Components(path)|, Creat(flags)).Leave?
  }

  lemma ConcludeCounts(fs: Fs, open: seq<OpenInode>, r: Search, depth: nat, name: Name, creat: bool, buf: bool, node: bool,
                       form: Form, D: set<nat>)
    requires fs.Shape() && HandleOk(fs, open, r.parent, D) && Opens(open, r.parent.No()) > 0 && |name| <= NAME_MAX
    requires Decide(r, depth, creat).CreateHere? ==> SoundAt(WithOpen(fs, open), r.parent, buf, node, form)
    ensures var res := Conclude(fs, open, r, depth, name, creat, buf, node, form);
            && res.1 != STOPPED && (res.1 == OVERRUN <==> Decide(r, depth, creat).CreateHere? && Overruns(fs, buf, form))
            && (res.1 != OVERRUN ==> FsOk(res.0, D) && forall n: nat ::
                  Opens(res.0.open, n) == Opens(open, n)
                                          - (if Decide(r, depth, creat).Leave? then 0 else Holds(r.parent, n))
                                          + (if !Live(fs, n) && Live(res.0, n) then 1 else 0))
  {
    match Decide(r, depth, creat)
    case Refuse => CloseHandle(fs, open, r.parent, D);
    case Leave =>
    case CreateHere =>
      var fs1 := WithOpen(fs, open);
      assert WithOpen(fs1, fs1.open) == fs1;
      CreateCloseCounts(fs1, r.parent, name, buf, node, form, D);
  }

  // sys_open gets to file_create
  ghost predicate Reaches(fs: Fs, path: seq<Byte>, junk: U32, mem: seq<Scratch>, flags: nat)
    requires fs.Shape() && Resolvable(fs, path, mem) && !PathTooLong(path)
  {
    CreatesAt(SearchFile(fs, fs.open, path, junk, mem), |Components(path)|, Creat(flags))
  }

  // then the form of the source is sound for the directory search_file ends in
  ghost predicate SoundOpen(fs: Fs, path: seq<Byte>, junk: U32, mem: seq<Scratch>, flags: nat, buf: bool, node: bool, form: Form)
    requires fs.Shape() && Resolvable(fs, path, mem) && !PathTooLong(path)
  {
    var r := SearchFile(fs, fs.open, path, junk, mem).value;
    Reaches(fs, path, junk, mem, flags) ==> WithOpen(fs, r.0).Shape() && SoundAt(WithOpen(fs, r.0), r.1.parent, buf, node, form)
  }

  // An assertion stops sys_open exactly if its flags are none of the eight or the path is too long.
  // Otherwise, where the form of the source is sound, sys_open keeps the file system consistent, unless it hands
  // out an inode number from behind the table; it opens the inode it creates, and leaves one open too many of
  // the file's directory exactly if the file is found without O_CREAT and the directory is not the root's own
  // structure.
  lemma SysOpenBalanced(fs: Fs, path: seq<Byte>, junk: U32, mem: seq<Scratch>, flags: nat, buf: bool, node: bool, form: Form, D: set<nat>)
    requires FsOk(fs, D) && 0 in D && Opens(fs.open, 0) > 0 && Resolvable(fs, path, mem) && Components(path) != []
    requires !PathTooLong(path) ==> SoundOpen(fs, path, junk, mem, flags, buf, node, form)
    ensures SysOpen(fs, path, junk, mem, flags, buf, node, form).1 == STOPPED <==> flags > 7 || PathTooLong(path)
    ensures flags > 7 || PathTooLong(path) ==> SysOpen(fs, path, junk, mem, flags, buf, node, form).0 == fs
    ensures flags <= 7 && !PathTooLong(path) ==>
              var r := SysOpen(fs, path, junk, mem, flags, buf, node, form);
              var parent := SearchFile(fs, fs.open, path, junk, mem).value.1.parent;
              && (r.1 == OVERRUN <==> Reaches(fs, path, junk, mem, flags) && Overruns(fs, buf, form))
              && (r.1 != OVERRUN ==> FsOk(r.0, D) && forall n: nat ::
                    Opens(r.0.open, n) == Opens(fs.open, n)
                                          + (if LeavesOpen(fs, path, junk, mem, flags) then Holds(parent, n) else 0)
                                          + (if !Live(fs, n) && Live(r.0, n) then 1 else 0))
  {
    if flags <= 7 && !PathTooLong(path) {
      SearchCounts(fs, path, junk, mem, D);
      var open, r := OpenConcludes(fs, path, junk, mem, flags, buf, node, form);
      ConcludeCounts(fs, open, r, |Components(path)|, Last(Components(path)), Creat(flags), buf, node, form, D);
    }
  }

  lemma OpenConcludes(fs: Fs, path: seq<Byte>, junk: U32, mem: seq<Scratch>, flags: nat, buf: bool, node: bool, form: Form)
      returns (open: seq<OpenInode>, r: Search)
    requires fs.Shape() && Names(Components(path)) && Components(path) != [] && Supplied(Components(path), mem)
    requires flags <= 7 && !PathTooLong(path)
    ensures SearchFile(fs, fs.open, path, junk, mem) == Some((open, r))
    ensures var cs := Components(path);
            SysOpen(fs, path, junk, mem, flags, buf, node, form) == Conclude(fs, open, r, |cs|, Last(cs), Creat(flags), buf, node, form)
  {
    var found := SearchFile(fs, fs.open, path, junk, mem).value;
    open, r := found.0, found.1;
  }

  // in whatever form, file_create leaves its directory open
  lemma StillOpen(fs: Fs, p: nat, name: Name, buf: bool, node: bool, form: Form, D: set<nat>)
    requires FsOk(fs, D) && p < |fs.open| && |name| <= NAME_MAX
    ensures Opens(FileCreate(fs, p, name, buf, node, form).0.open, fs.open[p].inode.no) > 0
  {
    OpenElements(fs);
    var par := fs.open[p].inode.no;
    assert ElementOk(fs, fs.open[p]);
    OpensAt(fs.open, par, p);
    var no, f := Fit(fs.ibits + form.tail, 1), FreeFile(fs.files, 3);
    if buf && node && no.Some? && no.value < |fs.ibits| && f.Some? && f.value < MAX_FILES {
      FreeFileIsFirst(fs.files, 3);
      FirstClear(fs.ibits + form.tail, no.value);
      var r := Insertion(fs, p, name, no.value, form.scan);
      if r.Done? {
        CommitCounts(fs, p, r.s, no.value, f.value, form.narrow);
      } else {
        var open1 := RolledBack(fs, p, r.s, f.value).open;
        assert forall k :: 0 <= k < |open1| ==> open1[k].inode.no == fs.open[k].inode.no;
        OpensAt(open1, par, p);
      }
    }
  }
}
