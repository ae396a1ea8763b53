/** kernel/memory.c in its own form: the pools, bitmaps, page table and heap lists are fields changed step
    by step by the loops of the source.  Each method is proved equal to its function in Pages or Heap. */
module KernelMemoryModel {
  import opened Bits
  import opened Pages
  import opened PagesProofs
  import opened Heap
  import opened HeapProofs
  import H = Heap

  // how a call ends: a value, the NULL return, an ASSERT, or frame 0 used as a page table
  datatype Status = Ok(value: nat) | Failure | Panic | Stray

  function Shift(o: Outcome, k: nat): Outcome {
    match o case Failed(m, j) => Failed(m, j + k) case other => other
  }

  lemma ShiftLater(o: Outcome, k: nat)
    ensures Shift(Later(o), k) == Shift(o, k + 1)
  {
  }

  // one turn of malloc_page's loop that gets frame f
  lemma LoopTurn(L: Layout, m: Mem, pf: Pf, v: nat, n: nat, f: nat, added: Edit, r: Outcome) returns (later: Outcome)
    requires n > 0 && Palloc(L, m, pf).Some? && Palloc(L, m, pf).value.0 == f && Loops(L, m, pf, v, n, r)
    requires added == PageTableAdd(L, Palloc(L, m, pf).value.1, v, f)
    ensures added.Repeat? ==> r == Halted
    ensures added.NoTable? ==> r == WildTable
    ensures added.Added? ==> r == Later(later) && Loops(L, added.mem, pf, v + 1, n - 1, later)
  {
    later := if added.Added? then MapPages(L, added.mem, pf, v + 1, n - 1) else r;
  }

  ghost predicate Freeing(L: Layout, m: Mem, userBranch: bool, v: nat, n: nat, r: Outcome) {
    r == FreePages(L, m, userBranch, v, n)
  }

  // one turn of mfree_page's loop that frees frame f
  lemma FreeTurn(L: Layout, m: Mem, m1: Mem, userBranch: bool, v: nat, n: nat, f: nat, r: Outcome)
    requires n > 0 && Freeing(L, m, userBranch, v, n, r) && f == m.Frame(v) && Pfree(L, m, f) == Some(m1)
    requires if userBranch then f >= L.uBase else L.kBase <= f < L.uBase
    ensures Freeing(L, PteRemove(m1, v), userBranch, v + 1, n - 1, r)
  {
  }

  class KernelMemory {
    const L: Layout
    const pf: Pf  // the pool whose heap this is
    var kPool: seq<bool>
    var uPool: seq<bool>
    var kBits: seq<bool>
    var uBits: seq<bool>
    var tables: map<nat, nat>    // frames of the page tables, by directory slot
    var pt: map<nat, Pte>        // their entries
    var free: seq<seq<nat>>      // free_list of the seven descriptors
    var arenas: map<nat, Arena>  // the headers written at the start of arena pages
    ghost var live: map<nat, nat>
    var held: nat                // lock depth beyond the one at the start

    ghost function Memory(): Mem
      reads this
    {
      Mem(kPool, uPool, kBits, uBits, tables, pt)
    }

    ghost function State(): Heap
      reads this
    {
      Heap(free, arenas, live, Memory(), held)
    }

    function Pool(p: Pf): seq<bool>
      reads this
    {
      if p.Kernel? then kPool else uPool
    }

    function VBits(p: Pf): seq<bool>
      reads this
    {
      if p.Kernel? then kBits else uBits
    }

    // block_init: no block and no arena, on whatever the memory is
    constructor (L: Layout, pf: Pf, m: Mem)
      ensures this.L == L && this.pf == pf && State() == Heap(seq(CLASSES, _ => []), map[], map[], m, 0)
      ensures PageInv(L, m) ==> HeapInv(L, pf, State())
    {
      this.L, this.pf := L, pf;
      kPool, uPool, kBits, uBits, tables, pt := m.kPool, m.uPool, m.kBits, m.uBits, m.tables, m.pt;
      free, arenas, live, held := seq(CLASSES, _ => []), map[], map[], 0;
    }

    method SetPoolBit(p: Pf, i: nat, value: bool)
      requires i < |Pool(p)|
      modifies this`kPool, this`uPool
      ensures Memory() == old(Memory()).WithPool(p, old(Pool(p))[i := value])
    {
      if p.Kernel? {
        kPool := kPool[i := value];
      } else {
        uPool := uPool[i := value];
      }
    }

    method SetVBit(p: Pf, i: nat, value: bool)
      requires i < |VBits(p)|
      modifies this`kBits, this`uBits
      ensures Memory() == old(Memory()).WithVBits(p, old(VBits(p))[i := value])
    {
      if p.Kernel? {
        kBits := kBits[i := value];
      } else {
        uBits := uBits[i := value];
      }
    }

    // the marking loops of vaddr_get and vaddr_remove
    method MarkRun(p: Pf, start: nat, n: nat, value: bool)
      requires start + n <= |VBits(p)|
      modifies this`kBits, this`uBits
      ensures Memory() == old(Memory()).WithVBits(p, SetRun(old(VBits(p)), start, n, value))
    {
      var cnt := 0;
      assert SetRun(VBits(p), start, 0, value) == VBits(p);
      while cnt < n
        invariant cnt <= n
        invariant Memory() == old(Memory()).WithVBits(p, SetRun(old(VBits(p)), start, cnt, value))
      {
        SetVBit(p, start + cnt, value);
        cnt := cnt + 1;
        assert SetRun(old(VBits(p)), start, cnt, value) ==
               SetRun(old(VBits(p)), start, cnt - 1, value)[start + cnt - 1 := value];
      }
    }

    // palloc
    method PhysAlloc(p: Pf) returns (r: Option<nat>)
      modifies this`kPool, this`uPool
      ensures match Palloc(L, old(Memory()), p)
              case None => r == None && Memory() == old(Memory())
              case Some((f, m)) => r == Some(f) && Memory() == m
    {
      var bitIdx := Fit(Pool(p), 1);
      if bitIdx == None {
        return None;
      }
      FirstFit(Pool(p), 1);
      SetPoolBit(p, bitIdx.value, true);
      assert SetRun(old(Pool(p)), bitIdx.value, 1, true) == old(Pool(p))[bitIdx.value := true];
      r := Some(L.Base(p) + bitIdx.value);
    }

    // page_table_add
    method AddMapping(v: nat, f: nat) returns (r: Edit)
      modifies this`kPool, this`uPool, this`tables, this`pt
      ensures match PageTableAdd(L, old(Memory()), v, f)
              case Added(m) => r == Added(m) && Memory() == m
              case other => r == other
    {
      if Slot(v) !in tables {
        var t := PhysAlloc(Kernel);
        if t == None {
          return NoTable;
        }
        tables := tables[Slot(v) := t.value];
        pt := map u | u in pt && Slot(u) != Slot(v) :: pt[u];  // memset
      }
      if v in pt && pt[v].present {
        return Repeat;
      }
      pt := pt[v := Pte(f, true)];
      r := Added(Mem(kPool, uPool, kBits, uBits, tables, pt));
    }

    // one turn of the loop of malloc_page, cnt pages before its end; None if the loop goes on
    method MapOne(p: Pf, v: nat, ghost cnt: nat, ghost rest: Outcome) returns (r: Option<Status>, ghost later: Outcome)
      requires cnt > 0 && Loops(L, Memory(), p, v, cnt, rest)
      modifies this`kPool, this`uPool, this`tables, this`pt
      ensures r == None ==> rest == Later(later) && Loops(L, Memory(), p, v + 1, cnt - 1, later)
      ensures r.Some? ==> (|| (r == Some(Failure) && rest == Failed(Memory(), 0))
                           || (r == Some(Panic) && rest == Halted) || (r == Some(Stray) && rest == WildTable))
    {
      ghost var m := Memory();
      var f := PhysAlloc(p);
      if f == None {
        return Some(Failure), rest;
      }
      var added := AddMapping(v, f.value);
      later := LoopTurn(L, m, p, v, cnt, f.value, added, rest);
      r := if added.Repeat? then Some(Panic) else if added.NoTable? then Some(Stray) else None;
    }

    // the loop of malloc_page
    method MapRun(p: Pf, start: nat, n: nat) returns (r: Status)
      modifies this`kPool, this`uPool, this`tables, this`pt
      ensures match MapPages(L, old(Memory()), p, start, n)
              case Done(m) => r == Ok(start) && Memory() == m
              case Failed(m, _) => r == Failure && Memory() == m
              case Halted => r == Panic
              case WildTable => r == Stray
    {
      var v, cnt := start, n;
      ghost var rest, done := MapPages(L, Memory(), p, start, n), 0;
      ghost var all := rest;
      while cnt != 0
        invariant 0 <= cnt <= n && v == start + n - cnt && done == n - cnt
        invariant Loops(L, Memory(), p, v, cnt, rest) && all == Shift(rest, done)
        decreases cnt
      {
        var ends, later := MapOne(p, v, cnt, rest);
        if ends.Some? {
          return ends.value;
        }
        ShiftLater(later, done);
        v, cnt, rest, done := v + 1, cnt - 1, later, done + 1;
      }
      r := Ok(start);
    }

    // malloc_page
    method MallocPages(p: Pf, n: nat) returns (r: Status)
      modifies this`kPool, this`uPool, this`kBits, this`uBits, this`tables, this`pt
      ensures match MallocPage(L, old(Memory()), p, n)
              case Got(v, m) => r == Ok(v) && Memory() == m
              case NoPages(m, _) => r == Failure && Memory() == m
              case PageHalt => r == Panic
              case PageWild => r == Stray
    {
      if n == 0 || n >= 3840 {
        return Panic;
      }
      var bitIdx := Fit(VBits(p), n);
      if bitIdx == None {
        return Failure;
      }
      FirstFit(VBits(p), n);
      MarkRun(p, bitIdx.value, n, true);
      var start := L.Start(p) + bitIdx.value;
      if p.User? && start >= 0xbffff {
        return Panic;
      }
      r := MapRun(p, start, n);
    }

    // pfree
    method PhysFree(f: nat) returns (ok: bool)
      modifies this`kPool, this`uPool
      ensures ok == Pfree(L, old(Memory()), f).Some?
      ensures ok ==> Memory() == Pfree(L, old(Memory()), f).value
    {
      var p := if f >= L.uBase then User else Kernel;
      if !(L.Base(p) <= f < L.Base(p) + |Pool(p)|) {
        return false;
      }
      SetPoolBit(p, f - L.Base(p), false);
      assert SetRun(old(Pool(p)), f - L.Base(p), 1, false) == old(Pool(p))[f - L.Base(p) := false];
      ok := true;
    }

    // mfree_page
    method MFreePages(p: Pf, start: nat, n: nat) returns (ok: bool)
      modifies this`kPool, this`uPool, this`kBits, this`uBits, this`pt
      ensures ok == MFreePage(L, old(Memory()), p, start, n).Done?
      ensures ok ==> Memory() == MFreePage(L, old(Memory()), p, start, n).mem
    {
      var f := if start in pt then pt[start].frame else 0;  // addr_v2p
      if n == 0 || f < 0x102 {
        return false;
      }
      var userBranch := f >= L.uBase;
      var v, cnt := start, 0;
      ghost var all, left := FreePages(L, Memory(), userBranch, start, n), n;
      while cnt < n
        invariant cnt <= n && v == start + cnt && left == n - cnt
        invariant Freeing(L, Memory(), userBranch, v, left, all)
        invariant kBits == old(kBits) && uBits == old(uBits)
      {
        ghost var m := Memory();
        f := if v in pt then pt[v].frame else 0;
        if (if userBranch then f < L.uBase else !(L.kBase <= f < L.uBase)) {
          return false;
        }
        var freed := PhysFree(f);
        if !freed {
          return false;
        }
        FreeTurn(L, m, Memory(), userBranch, v, left, f, all);
        pt := pt[v := (if v in pt then pt[v] else Pte(0, false)).(present := false)];
        v, cnt, left := v + 1, cnt + 1, left - 1;
      }
      if !(L.Start(p) <= start && start + n <= L.Start(p) + |VBits(p)|) {
        return false;
      }
      MarkRun(p, start - L.Start(p), n, false);
      ok := true;
    }

    // sys_malloc's search for the block size
    method FindClass(size: nat) returns (c: nat)
      ensures c == ClassFor(size, 0) && c <= CLASSES
    {
      c := 0;
      while c < CLASSES
        invariant c <= CLASSES && ClassFor(size, 0) == ClassFor(size, c)
      {
        if size <= BlockSize(c) {
          break;
        }
        c := c + 1;
      }
    }

    // sys_malloc's new arena, cut into blocks that are appended to the empty list one by one; the
    // assertion that a block is not on the list yet never fires
    method CutArena(p: nat, c: nat)
      requires c < CLASSES && |free| == CLASSES && free[c] == []
      modifies this`free, this`arenas
      ensures free == old(free)[c := Blocks(p, c)]
      ensures arenas == old(arenas)[p := Arena(c, false, PerArena(c))]
    {
      arenas := arenas[p := Arena(c, false, PerArena(c))];
      BlocksFacts(p, c);
      var blockIdx := 0;
      while blockIdx < PerArena(c)
        invariant blockIdx <= PerArena(c) && |free| == CLASSES
        invariant free == old(free)[c := Blocks(p, c)[..blockIdx]]
        invariant arenas == old(arenas)[p := Arena(c, false, PerArena(c))]
      {
        var b := BlockAddr(p, c, blockIdx);
        assert b == Blocks(p, c)[blockIdx];
        assert b !in free[c];
        assert Blocks(p, c)[..blockIdx + 1] == Blocks(p, c)[..blockIdx] + [b];
        free := free[c := free[c] + [b]];
        blockIdx := blockIdx + 1;
      }
      assert Blocks(p, c)[..PerArena(c)] == Blocks(p, c);
    }

    // sys_malloc above 1024 bytes
    method MallocLarge(size: nat) returns (r: Status)
      modifies this
      ensures match LargeAlloc(L, pf, old(State()), size)
              case Ptr(b, h) => r == Ok(b) && State() == h
              case Null(h) => r == Failure && State() == h
              case Stop => r == Panic
              case Wild => r == Stray
    {
      ghost var h := State();
      held := held + 1;  // lock_acquire
      var pageCnt := LargePages(size);  // DIV_ROUND_UP
      LargeBy(L, pf, h, size, MallocPage(L, h.mem, pf, pageCnt));
      var got := MallocPages(pf, pageCnt);
      match got {
        case Ok(p) =>
          arenas := arenas[p := Arena(0, true, pageCnt)];
          live := live[p * PAGE + HEADER := size];
          return Ok(p * PAGE + HEADER);  // the lock stays held
        case Failure =>
          held := held - 1;
          return Failure;
        case Panic =>
          return Panic;
        case Stray =>
          return Stray;
      }
    }

    // sys_malloc
    method SysMalloc(size: nat) returns (r: Status)
      requires |free| == CLASSES
      modifies this
      ensures match H.SysMalloc(L, pf, old(State()), size)
              case Ptr(b, h) => r == Ok(b) && State() == h
              case Null(h) => r == Failure && State() == h
              case Stop => r == Panic
              case Wild => r == Stray
    {
      if !(0 < size < L.PoolBytes(pf)) {
        return Failure;
      }
      if size > 1024 {
        r := MallocLarge(size);
        return;
      }
      r := MallocSmall(size);
    }

    method MallocSmall(size: nat) returns (r: Status)
      requires |free| == CLASSES && 0 < size < L.PoolBytes(pf) && size <= 1024
      modifies this
      ensures match H.SysMalloc(L, pf, old(State()), size)
              case Ptr(b, h) => r == Ok(b) && State() == h
              case Null(h) => r == Failure && State() == h
              case Stop => r == Panic
              case Wild => r == Stray
    {
      var c := FindClass(size);
      ClassForFits(size);
      if free[c] == [] {
        var got := MallocPages(pf, 1);
        match got {
          case Ok(p) => CutArena(p, c);
          case Failure => return Failure;
          case Panic => return Panic;
          case Stray => return Stray;
        }
      }
      if free[c] == [] || ArenaOf(free[c][0]) !in arenas || arenas[ArenaOf(free[c][0])].cnt == 0 {
        return Panic;
      }
      r := TakeFirst(c, size);
    }

    // list_pop and --cnt
    method TakeFirst(c: nat, ghost size: nat) returns (r: Status)
      requires c < |free| && free[c] != [] && ArenaOf(free[c][0]) in arenas && arenas[ArenaOf(free[c][0])].cnt >= 1
      modifies this`free, this`arenas, this`live
      ensures r == Ok(old(free)[c][0]) && State() == Pop(old(State()), c, size)
    {
      var b := free[c][0];
      free := free[c := free[c][1..]];
      var a := ArenaOf(b);
      arenas := arenas[a := arenas[a].(cnt := arenas[a].cnt - 1)];
      live := live[b := size];
      r := Ok(b);
    }

    // sys_free's loop over the blocks of an arena that is free altogether
    method UnlinkArena(p: nat, c: nat) returns (ok: bool)
      requires c < CLASSES && |free| == CLASSES
      modifies this`free
      ensures ok == Unlink(old(free)[c], Blocks(p, c)).Some?
      ensures ok ==> free == old(free)[c := Unlink(old(free)[c], Blocks(p, c)).value]
    {
      ghost var blocks := Blocks(p, c);
      assert blocks[0..] == blocks && free == free[c := free[c]];
      var blockIdx := 0;
      while blockIdx < PerArena(c)
        invariant blockIdx <= PerArena(c) && |free| == CLASSES && free == old(free)[c := free[c]]
        invariant Unlink(old(free)[c], blocks) == Unlink(free[c], blocks[blockIdx..])
      {
        var b := BlockAddr(p, c, blockIdx);
        assert blocks[blockIdx..][0] == b && blocks[blockIdx..][1..] == blocks[blockIdx + 1..];
        if b !in free[c] {
          return false;
        }
        free := free[c := Drop(free[c], {b})];  // list_remove
        blockIdx := blockIdx + 1;
      }
      ok := true;
    }

    // sys_free
    method SysFree(b: nat) returns (ok: bool)
      requires |free| == CLASSES
      modifies this
      ensures ok == H.SysFree(L, pf, old(State()), b).Some?
      ensures ok ==> State() == H.SysFree(L, pf, old(State()), b).value
    {
      var p := ArenaOf(b);
      if p !in arenas || (pf.Kernel? && p < L.kStart) {
        return false;
      }
      if arenas[p].large {
        live := live - {b};
        ok := FreeArena(p);
        return;
      }
      if arenas[p].cls >= CLASSES {
        return false;
      }
      var c := arenas[p].cls;
      PutBack(b);
      if arenas[p].cnt != PerArena(c) {
        return true;
      }
      ok := UnlinkArena(p, c);
      if ok {
        ok := FreeArena(p);
      }
    }

    // mfree_page of a whole arena
    method FreeArena(p: nat) returns (ok: bool)
      requires p in arenas
      modifies this`kPool, this`uPool, this`kBits, this`uBits, this`pt, this`arenas
      ensures ok == ReleaseArena(L, pf, old(State()), p).Some?
      ensures ok ==> State() == ReleaseArena(L, pf, old(State()), p).value
    {
      ok := MFreePages(pf, p, arenas[p].Span());
      arenas := arenas - {p};
    }

    // list_append and ++cnt
    method PutBack(b: nat)
      requires ArenaOf(b) in arenas && arenas[ArenaOf(b)].cls < |free|
      modifies this`free, this`arenas, this`live
      ensures State() == Push(old(State()), b)
    {
      var p := ArenaOf(b);
      var c := arenas[p].cls;
      free := free[c := free[c] + [b]];
      arenas := arenas[p := arenas[p].(cnt := arenas[p].cnt + 1)];
      live := live - {b};
    }
  }
}
