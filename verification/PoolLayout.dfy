/** mem_pool_init: how the memory is divided, with the 16-bit page counts and the byte-wise bitmaps of the
    source. */
module PoolLayout {
  import opened Bits
  import opened Pages

  const PAGE: nat := 4096
  const USED: nat := 0x200000             // 256 page tables and the low megabyte
  const BITMAP_BASE: nat := 0xc009a000    // MEM_BITMAP_BASE
  const MAIN_PCB: nat := 0xc009e000       // page of the main thread's stack and task_struct
  const K_HEAP_PAGE: nat := 0xc0100       // K_HEAP_START / 4096
  const USER_PAGE: nat := 0x8048          // USER_VADDR_START / 4096
  const WINDOW_PAGE: nat := 0xffc00       // first page of the recursive window

  // a uint16_t assignment
  function U16(x: nat): nat { x % 0x10000 }

  function FreePages(allMem: nat): nat
    requires allMem >= USED
  {
    (allMem - USED) / PAGE
  }

  function AllFree(allMem: nat): nat
    requires allMem >= USED
  {
    U16(FreePages(allMem))
  }

  function KernelFree(allMem: nat): nat
    requires allMem >= USED
  {
    U16(AllFree(allMem) / 2)
  }

  function UserFree(allMem: nat): nat
    requires allMem >= USED
  {
    U16(AllFree(allMem) - KernelFree(allMem))
  }

  // bitmap lengths in bytes
  function KernelMapLen(allMem: nat): nat
    requires allMem >= USED
  {
    KernelFree(allMem) / 8
  }

  function UserMapLen(allMem: nat): nat
    requires allMem >= USED
  {
    UserFree(allMem) / 8
  }

  // bytes of the bitmap of a user process (create_user_vaddr_bitmap)
  const USER_MAP_LEN: nat := (0xc0000 - USER_PAGE) / 8

  // the pools and ranges set up, in pages
  function PoolInit(allMem: nat): Layout
    requires allMem >= USED
  {
    Layout(USED / PAGE, 8 * KernelMapLen(allMem), USED / PAGE + KernelFree(allMem), 8 * UserMapLen(allMem),
           K_HEAP_PAGE, 8 * KernelMapLen(allMem), USER_PAGE, 8 * USER_MAP_LEN,
           KernelFree(allMem) * PAGE, UserFree(allMem) * PAGE)
  }

  // the counts, without the casts that change nothing
  lemma Shares(allMem: nat)
    requires USED <= allMem <= 0xffff_ffff
    ensures AllFree(allMem) < 0x10000 && AllFree(allMem) * PAGE <= allMem - USED
    ensures KernelFree(allMem) + UserFree(allMem) == AllFree(allMem) && KernelFree(allMem) <= 0x7fff
    ensures 8 * KernelMapLen(allMem) <= KernelFree(allMem) && 8 * UserMapLen(allMem) <= UserFree(allMem)
  {
    assert AllFree(allMem) <= FreePages(allMem);
    assert FreePages(allMem) * PAGE <= allMem - USED;
  }

  // For every memory size of 2 MB up to 4 GB: the pools are disjoint and inside the memory, the virtual
  // ranges are disjoint and end below the recursive window.
  lemma PoolsFit(allMem: nat)
    requires USED <= allMem <= 0xffff_ffff
    ensures PoolInit(allMem).Valid()
    ensures (PoolInit(allMem).uBase + PoolInit(allMem).uFrames) * PAGE <= allMem
    ensures PoolInit(allMem).kBase + PoolInit(allMem).kFrames <= PoolInit(allMem).uBase
    ensures PoolInit(allMem).kStart + PoolInit(allMem).kPages <= WINDOW_PAGE
    ensures PoolInit(allMem).uStart + PoolInit(allMem).uPages == 0xc0000
  {
    Shares(allMem);
  }

  // The three bitmaps follow one another from MEM_BITMAP_BASE on and end below the main thread's page.
  lemma BitmapsFit(allMem: nat)
    requires USED <= allMem <= 0xffff_ffff
    ensures BITMAP_BASE + KernelMapLen(allMem) + UserMapLen(allMem) + KernelMapLen(allMem) < MAIN_PCB
  {
  }

  // The pools cover the free memory, but for at most 14 pages that fill no bitmap byte, exactly when it has
  // fewer than 65536 pages: from 258 MB on the 16-bit count drops memory.
  lemma PoolsCover(allMem: nat)
    requires USED <= allMem <= 0xffff_ffff
    ensures FreePages(allMem) - 14 <= PoolInit(allMem).kFrames + PoolInit(allMem).uFrames <==> FreePages(allMem) < 0x10000
  {
    if FreePages(allMem) >= 0x10000 {
      assert AllFree(allMem) <= FreePages(allMem) - 0x10000;
    }
  }

  // pfree gives a frame back to the pool palloc took it from.
  lemma PfreeUndoesPalloc(allMem: nat, m: Mem, pf: Pf)
    requires USED <= allMem <= 0xffff_ffff && Sized(PoolInit(allMem), m)
    requires Palloc(PoolInit(allMem), m, pf).Some?
    ensures var (f, m1) := Palloc(PoolInit(allMem), m, pf).value;
            && !Taken(PoolInit(allMem), m, pf, f) && Taken(PoolInit(allMem), m1, pf, f)
            && Pfree(PoolInit(allMem), m1, f) == Some(m)
  {
    var L := PoolInit(allMem);
    PoolsFit(allMem);
    var i := Fit(m.Pool(pf), 1).value;
    ScanThenSet(m.Pool(pf), 1);
    var (f, m1) := Palloc(L, m, pf).value;
    assert SetRun(m1.Pool(pf), i, 1, false) == m.Pool(pf);
  }

  // ---------- the memory at the start ----------

  const KERNEL_SLOT: nat := 768   // directory slot of 0xc0000000

  predicate LoaderSlot(d: nat) { d == 0 || KERNEL_SLOT <= d < 1023 }

  // the loader's page tables follow the page directory at 1 MB; slot 0 shares the first with slot 768
  function LoaderTables(): map<nat, nat> {
    map d: nat | d < 1023 && LoaderSlot(d) :: 0x101 + if d == 0 then 0 else d - KERNEL_SLOT
  }

  // mem_pool_init: every bitmap clear, and no page of the managed ranges mapped
  function BootMem(allMem: nat): Mem
    requires allMem >= USED
  {
    var L := PoolInit(allMem);
    Mem(seq(L.kFrames, _ => false), seq(L.uFrames, _ => false), seq(L.kPages, _ => false), seq(L.uPages, _ => false),
        LoaderTables(), map[])
  }

  // The memory manager starts consistent, and its kernel range has all its page tables.
  lemma BootIsConsistent(allMem: nat)
    requires USED <= allMem <= 0xffff_ffff
    ensures PageInv(PoolInit(allMem), BootMem(allMem))
  {
    PoolsFit(allMem);
    var L, m := PoolInit(allMem), BootMem(allMem);
    forall v: nat | L.kStart <= v < L.kStart + L.kPages
      ensures Slot(v) in m.tables
    {
      SlotIsQuotient(v);
    }
  }

  // what create_page_dir gives a new process: the kernel's page tables, and pages of the kernel only;
  // its own virtual bitmap is clear
  function ProcessMem(L: Layout, m: Mem): Mem {
    m.(uBits := seq(L.uPages, _ => false),
       tables := map d | d in m.tables && d >= KERNEL_SLOT :: m.tables[d],
       pt := map v | v in m.pt && v >= L.kStart :: m.pt[v])
  }

  // It starts consistent too, and every page it maps needs a new page table first.
  lemma ProcessIsConsistent(allMem: nat, m: Mem, v: nat)
    requires USED <= allMem <= 0xffff_ffff && PageInv(PoolInit(allMem), m)
    ensures PageInv(PoolInit(allMem), ProcessMem(PoolInit(allMem), m))
    ensures v < PoolInit(allMem).uStart + PoolInit(allMem).uPages ==> Slot(v) !in ProcessMem(PoolInit(allMem), m).tables
  {
    var L := PoolInit(allMem);
    var n := ProcessMem(L, m);
    PoolsFit(allMem);
    SlotIsQuotient(v);
    forall w: nat | w >= L.kStart
      ensures Slot(w) >= KERNEL_SLOT
    {
      SlotIsQuotient(w);
    }
    forall w: nat | n.Present(w)
      ensures Backed(L, n, w)
    {
      assert Backed(L, m, w);
      assert IsTable(n, n.Frame(w)) ==> IsTable(m, m.Frame(w));
    }
    forall u: nat, w: nat
      ensures FramesApart(n, u, w)
    {
      assert FramesApart(m, u, w);
    }
    forall d, e | OwnTable(L, n, d, e)
      ensures TablesApart(n, d, e)
    {
      assert TablesApart(m, d, e);
    }
  }
}
