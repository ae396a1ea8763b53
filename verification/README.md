# Verification of the kernel's memory manager, file system and threads

Hongbai-os is a small x86 kernel.  Three of its parts keep state that must stay consistent however long the
kernel runs; this project models them in Dafny and proves what they promise.

* **Memory manager** (`Bits`, `Bitmap`, `IntrusiveList`, `PoolLayout`, `Pages`, `PagesProofs`, `Paging`,
  `PageWalks`, `Heap`, `HeapProofs`, `HeapRuns`, `HeapPair`, `KernelMemory`): the bitmaps of frames and virtual pages, page
  tables made on demand and edited through the recursive window, and the arena heap with its free lists.
  `Pages` has page numbers and a map of page tables, `Paging` the words in memory and the hardware walk;
  `PageWalks` proves that the former stands for the latter.  `HeapPair` runs the kernel's heap and a process's
  on one memory.
* **File system** (`Bytes`, `FsFormat`, `FsInode`, `FsDir`, `FsDirProofs`, `FsDirLaws`, `FsFile`,
  `FsFileProofs`, `FsFileKeeps`, `FsCache`, `FsMount`, `FsRuns`, `FsDisk`, `FsPath`, `FsOpen`, `FileSystem`):
  the layout of a fresh partition, the inode table, directories with an index table, file creation with
  rollback, the cache of open inodes, and path resolution.  Data blocks, bitmaps and inode records are parts of
  the state; `FsDisk` puts them on one disk, a map from sector numbers to 512-byte sectors.
* **Threads** (`Threads`, `ThreadsSafety`, `ThreadsLaws`, `ThreadsFairness`, `KernelThreads`, `RingWaiting`,
  `RingBuffer`): scheduler, semaphore, re-entrant lock, clock handler and the keyboard's ring buffer with any
  number of consumers and producers, as atomic steps of interleaved threads.  A stretch with interrupts off is
  one step; blocking ends it; starting a thread takes three.

Code that changes state in place appears twice: as a function on a value that holds the whole state, and as a
class whose methods have the source's loops and assignments and are proved to compute that function.  The
theorems -- invariants over every run, refinement, round trips, conservation -- are about the function.  An
ASSERT or PANIC of the source that its callers could run into is a result of its own (`None`, `Panic`, `Stop`,
`Halted`, `PageHalt`, `STOPPED`), so "no assertion fires" is part of what is proved; the assertions that are
not are listed at the end.  Conditions for success and failure are told from the state before the call.

Where the code departs from its evident intent, the model keeps the code, a lemma gives the exact condition
under which it does what it should, and later results say which form they use:

* `bitmap_scan` is modelled with and without its assertion, and with the bit behind the map it probes
  (`ScanWithAsserts`, `ScanWithoutAsserts`).  Its callers use the promised first fit, with -1 for "none".
* `thread_yield` is modelled as written (`YieldLoses`, `LostForever`) and with the missing `list_append`;
  the other results over runs use the latter.
* `sys_malloc` keeps its lock after a large request (`LockBalance`), and a failed `malloc_page` keeps what it
  had reserved (`Conservation`, `StuckForever`).  Both are modelled as written.
* `page_table_add` takes the frame of a missing page table from the kernel pool, never gives it back and does
  not check for NULL: frame 0 becomes the page table then (`Wild`, `TableMissed`), and memory is restored only
  up to page tables (`MallocThenFree`, `Conservation`).
* `sync_dir_entry` leaves its block index at 12 behind the loop that copies the direct pointers, and does not
  read an existing index table: every call takes two new blocks and overwrites the pointer to the table, so that
  a second file in a directory takes the first one's entry with it (`ScanCases`, `UnloadedLoses`,
  `SecondFileLosesFirst`).  `Scan` says whether the table is read (`load`) and whether the index is set back
  (`restart`); `WRITTEN` does neither, `CORRECTED` both.  Results about creations and runs hold for every form
  and give the exact condition (`CreationKeepsIff`, `RunsAreConsistent`).
* `inode_sync` narrows the inode number to eight bits; the flag `narrow` says whether it does.
* `partition_format` frees one padding bit too many, clears 96 of the 608 sectors of the inode table, writes
  a block bitmap of more than 256 sectors in part only, and `mount_partition` gives the inode bitmap the block
  bitmap's length; `AllocInsideIff`, `InodeTableCleared`, `BitmapTransfer` and `MountedInodeMap` state each
  condition.
* An inode bitmap as long as the block bitmap can hand out numbers from behind the inode table; the bits there
  are the parameter `tail`, and the result is `OVERRUN` (`LongScan`, `OverrunIff`).
* `search_dir_entry` reads uninitialised memory when there is no index table (`SearchSeesBlocks`), and answers
  "not found" when it gets none (`OpenCreatesIff`); `path_depth_cnt` reads such memory when there is no component
  (`PathDepthCnt`).  The contents are parameters.
* `file_create` returns -1 also when it has created the file but finds no descriptor (`FailureIff`).
* `search_file` stops the kernel for a path of 512 bytes or more (`OpenCreatesIff`).
* `ioq_getchar` and `ioq_putchar` test the buffer before they wait for the lock and sleep holding it: a thread
  may sleep beside what it waits for (`StepPrompt`), and a consumer and a producer may stop each other for good
  (`Deadlock`, `DeadForever`).
* The loader maps slots 0 and 768 of the directory to the same page table (`LoaderAlias`).

`dafny verify dfyconfig.toml` checks the whole project.

## Model

| member | source | states |
|---|---|---|
| `Bits.FirstFit` | `Hongbai-os/lib/kernel/bitmap.c:25-76` | first fit: the search succeeds iff a run of cnt clear bits exists, and then returns the least start of one |
| `Bits.FitUnique` | `Hongbai-os/lib/kernel/bitmap.c:68-75` | being a clear run with no clear run before it determines the result of the search |
| `Bits.ScanThenSet` | `Hongbai-os/kernel/memory.c:51-62` | scan-then-set as its callers do it: exactly the found run changes, no bit of it was taken, and clearing it gives the old map back |
| `BitmapModel.SetInByteBit` | `Hongbai-os/lib/kernel/bitmap.c:86-93` | or-ing a mask in and masking its complement out change one bit of the byte and no other |
| `BitmapModel.FullByte` | `Hongbai-os/lib/kernel/bitmap.c:31-34` | a byte equals 0xff iff all of its eight bits are set, so the skipped bytes hold no free bit |
| `BitmapModel.ScanWithAsserts` | `Hongbai-os/lib/kernel/bitmap.c:35-40` | compiled with ASSERT, bitmap_scan keeps its promise iff a run exists: it never returns -1 |
| `BitmapModel.ScanWithoutAsserts` | `Hongbai-os/lib/kernel/bitmap.c:53-75` | compiled without ASSERT, it keeps its promise iff the map does not end in cnt - 1 clear bits followed by a clear bit behind the map while holding no run of cnt (or cnt is 1) |
| `BitmapModel.ScanRunsPastTheEnd` | `Hongbai-os/lib/kernel/bitmap.c:58-74` | a concrete map for which the run reported reaches behind the map |
| `BitmapModel.Bitmap.Init` | `Hongbai-os/lib/kernel/bitmap.c:8-12` | bitmap_init leaves every bit clear |
| `BitmapModel.Bitmap.Test` | `Hongbai-os/lib/kernel/bitmap.c:15-22` | bitmap_scan_test returns the bit of the sequence the bytes stand for |
| `BitmapModel.Bitmap.Set` | `Hongbai-os/lib/kernel/bitmap.c:79-94` | bitmap_set updates that one bit of the sequence, in place in the byte array |
| `BitmapModel.Bitmap.StoreBit` | `Hongbai-os/lib/kernel/bitmap.c:84-93` | the read-modify-write changes one bit of one byte; every other byte stays |
| `BitmapModel.Bitmap.SkipFullBytes` | `Hongbai-os/lib/kernel/bitmap.c:28-34` | all bits skipped are set, and the byte stopped at is not full |
| `BitmapModel.Bitmap.FirstClearIn` | `Hongbai-os/lib/kernel/bitmap.c:43-47` | the first clear bit of a byte that is not full |
| `BitmapModel.Bitmap.FirstClear` | `Hongbai-os/lib/kernel/bitmap.c:28-48` | the least clear bit of the map, or the end if there is none |
| `BitmapModel.Bitmap.CountRuns` | `Hongbai-os/lib/kernel/bitmap.c:53-75` | the counting loop finds the first run of cnt >= 2, reading the bit behind the map when ASSERT is off |
| `BitmapModel.Bitmap.Scan` | `Hongbai-os/lib/kernel/bitmap.c:25-76` | bitmap_scan over the bytes computes the result the two theorems above speak about |
| `IntrusiveList.List.constructor` | `Hongbai-os/lib/kernel/list.c:6-13` | list_init links the two sentinels to an empty list |
| `IntrusiveList.List.InsertBefore` | `Hongbai-os/lib/kernel/list.c:16-28` | rewriting four pointers inserts the node at that position of the list and keeps all links |
| `IntrusiveList.List.Push` | `Hongbai-os/lib/kernel/list.c:31-35` | the node becomes the first element |
| `IntrusiveList.List.Append` | `Hongbai-os/lib/kernel/list.c:38-42` | the node becomes the last element |
| `IntrusiveList.List.Remove` | `Hongbai-os/lib/kernel/list.c:45-54` | from the node alone, exactly that node leaves the list; its own links are left behind |
| `IntrusiveList.List.Pop` | `Hongbai-os/lib/kernel/list.c:57-65` | the first element is returned and taken off |
| `IntrusiveList.List.Find` | `Hongbai-os/lib/kernel/list.c:68-81` | elem_find is membership |
| `IntrusiveList.List.Len` | `Hongbai-os/lib/kernel/list.c:108-119` | list_len counts the elements |
| `IntrusiveList.List.IsEmpty` | `Hongbai-os/lib/kernel/list.c:122-125` | list_empty tests for no elements |
| `IntrusiveList.WithoutDistinct` | `Hongbai-os/lib/kernel/list.c:45-54` | without duplicates, removal by node and re-insertion at its place are inverse, and no other element goes |
| `PoolLayout.PoolsFit` | `Hongbai-os/kernel/memory.c:241-309` | for every memory size from 2 MB to 4 GB, with the 16-bit and divide-by-8 truncations: pools disjoint and inside real memory, virtual ranges disjoint, kernel range below the recursive window |
| `PoolLayout.BitmapsFit` | `Hongbai-os/kernel/memory.c:253-305` | the three bitmaps at MEM_BITMAP_BASE end below the main thread's page |
| `PoolLayout.PoolsCover` | `Hongbai-os/kernel/memory.c:249-262` | the pools cover all free pages but at most 14 iff there are fewer than 65536 of them: from 258 MB on memory is dropped |
| `PoolLayout.PfreeUndoesPalloc` | `Hongbai-os/kernel/memory.c:449-464` | pfree gives a frame back to the pool palloc took it from and restores the memory |
| `PoolLayout.BootIsConsistent` | `Hongbai-os/kernel/memory.c:241-309` | with the loader's page tables and every bitmap clear, the memory manager starts in the page-map invariant |
| `PoolLayout.ProcessIsConsistent` | `Hongbai-os/userprog/process.c:70-87` | a new process starts in it too, with the kernel's page tables and none for its own range |
| `PagesProofs.TurnWithTable` | `Hongbai-os/kernel/memory.c:133-142` | a page whose page table is missing takes a frame of its pool and one of the kernel pool, and both are taken before and distinct from all others |
| `PagesProofs.MapPagesExtends` | `Hongbai-os/kernel/memory.c:159-168` | the mapping loop never trips over a present entry; it maps as many pages of the run as the pool has frames for, making the page tables that are missing, unless the kernel pool has none left for one of these |
| `Pages.Compose` | `Hongbai-os/kernel/memory.c:147-170` | extensions of a memory by disjoint sets of pages, and by the page tables made for them, add up |
| `Pages.Cancel` | `Hongbai-os/kernel/memory.c:500-546` | taking one part of an extension away, page tables kept, leaves the extension by the other part |
| `Pages.EmptyExtension` | `Hongbai-os/kernel/memory.c:500-546` | an extension by no page is the same memory -- both bitmaps, the pools, the page tables and their present entries -- iff no page table was made |
| `PagesProofs.MallocPageCorrect` | `Hongbai-os/kernel/memory.c:147-170` | which of its four ends malloc_page takes is told by the state before: an assertion iff the count is 0 or from 3840 on or the user bound fires, the unchecked NULL of palloc iff the frames for page tables run out first, success iff there is a run and a frame for every page and every missing page table; success adds exactly n fresh pages and those tables, failure leaves the run reserved and a prefix mapped; the page-map invariant is kept |
| `PagesProofs.KernelHasTables` | `Hongbai-os/kernel/memory.c:133-142` | for kernel pages no page table is ever missing |
| `PagesProofs.InvFrames` | `Hongbai-os/kernel/memory.c:115-143` | present entries map distinct pages to distinct taken frames, and page tables are taken frames that no page is mapped to, while pages are added |
| `PagesProofs.FreePagesShrinks` | `Hongbai-os/kernel/memory.c:511-543` | the freeing loop fires no assertion and releases exactly the frames of the run |
| `PagesProofs.MFreePageCorrect` | `Hongbai-os/kernel/memory.c:500-546` | mfree_page of present pages fires no assertion, keeps the invariant, gives no page table back, and leaves the memory that the freed pages extended |
| `PagesProofs.MallocThenFree` | `Hongbai-os/kernel/memory.c:147-170` | freeing what malloc_page returned restores the memory iff every page of the run had its page table before; for kernel pages always |
| `Heap.ClassForFits` | `Hongbai-os/kernel/memory.c:404-411` | the class search returns the smallest class that is big enough |
| `Heap.BlockFacts` | `Hongbai-os/kernel/memory.c:338-348` | block2arena undoes arena2block, and each block lies between the header and the end of its page |
| `Heap.BlocksApart` | `Hongbai-os/kernel/memory.c:338-341` | blocks of an arena do not overlap |
| `HeapProofs.RefillKeeps` | `Hongbai-os/kernel/memory.c:412-437` | a new arena puts exactly its blocks on the empty list and takes one fresh page |
| `HeapProofs.LargeAllocated` | `Hongbai-os/kernel/memory.c:382-401` | a large request that is served adds one arena of fresh pages, keeps the heap invariant, and keeps the lock |
| `HeapProofs.FailureKeeps` | `Hongbai-os/kernel/memory.c:162-165` | a failed malloc_page, leak included, leaves the heap consistent |
| `HeapProofs.SysMallocCorrect` | `Hongbai-os/kernel/memory.c:351-446` | how sys_malloc ends is told by the state before: a pointer iff there is a free block, or a run of pages with frames for them and their page tables; the pointer is new, big enough and from that block or those pages; NULL changes no list and no live pointer, and no memory unless frames run short; the heap invariant is kept |
| `HeapRuns.PushKeeps` | `Hongbai-os/kernel/memory.c:581-583` | a freed block goes back on its class's list, where it was not, its arena counts its free blocks again, and the heap invariant holds but for that arena being perhaps full |
| `HeapRuns.UnlinkAll` | `Hongbai-os/kernel/memory.c:585-591` | the unlinking loop finds every block of the arena and takes exactly these off the list |
| `HeapRuns.SysFreeCorrect` | `Hongbai-os/kernel/memory.c:549-597` | sys_free of a live pointer fires no assertion, keeps the invariant, ends exactly that allocation, and gives whole pages back |
| `HeapRuns.LiveDisjoint` | `Hongbai-os/kernel/memory.c:338-446` | two live allocations never overlap |
| `HeapRuns.LiveClearOfHeaders` | `Hongbai-os/kernel/memory.c:338-446` | no live allocation touches an arena header |
| `HeapRuns.StepKeeps` | `Hongbai-os/kernel/memory.c:351-597` | one allowed call, of either kind, succeeds and keeps the heap invariant; the memory changes by the pages the heap comes to own or gives up and the page tables made, or by a leak, and which it is the state before tells |
| `HeapRuns.RunsAreSafe` | `Hongbai-os/kernel/memory.c:351-597` | no run of sys_malloc and sys_free of live pointers stops, and the heap invariant holds after it |
| `HeapRuns.LockBalance` | `Hongbai-os/kernel/memory.c:381-394` | over a run the pool lock is left held once per large request that could be served, and is balanced iff there was none |
| `HeapRuns.NothingLive` | `Hongbai-os/kernel/memory.c:579-593` | when no allocation is live, all free lists are empty and there is no arena |
| `HeapRuns.Conservation` | `Hongbai-os/kernel/memory.c:351-597` | a run that ends with nothing live ends with empty lists; the memory is that at the start but for page tables iff no request in it ran short of frames, and altogether iff, besides, none needed a page table |
| `HeapRuns.TablesAlong` | `Hongbai-os/kernel/memory.c:133-142` | over a run without a leak the page tables only grow, and stay as they are iff no request needed one |
| `HeapRuns.KernelConservation` | `Hongbai-os/kernel/memory.c:351-597` | for the kernel's heap, whose pages never lack a page table, the memory is that at the start iff no request ran short of frames |
| `HeapPair.PairStepKeeps` | `Hongbai-os/kernel/memory.c:351-597` | a call of the kernel's heap or of a process's keeps the invariants of both on their common memory, whatever page tables it takes from the kernel pool |
| `HeapPair.PairRunsAreSafe` | `Hongbai-os/kernel/memory.c:351-597` | the same over every interleaving of their calls |
| `HeapPair.HeapsDisjoint` | `Hongbai-os/kernel/memory.c:241-309` | allocations of the kernel and of the process never overlap |
| `HeapRuns.StuckForever` | `Hongbai-os/kernel/memory.c:162-165` | a page reserved by a failed malloc_page is never given back by any later run |
| `HeapRuns.LeakIsFinal` | `Hongbai-os/kernel/memory.c:162-165` | after such a failure no run restores the memory |
| `KernelMemoryModel.KernelMemory.PhysAlloc` | `Hongbai-os/kernel/memory.c:101-112` | palloc in place equals its function: the first free frame, or none |
| `KernelMemoryModel.KernelMemory.constructor` | `Hongbai-os/kernel/memory.c:312-326` | block_init on a consistent memory gives a consistent, empty heap |
| `KernelMemoryModel.KernelMemory.AddMapping` | `Hongbai-os/kernel/memory.c:115-143` | page_table_add in place, a missing page table made and cleared first |
| `KernelMemoryModel.KernelMemory.MapOne` | `Hongbai-os/kernel/memory.c:161-167` | one turn of that loop |
| `KernelMemoryModel.KernelMemory.MapRun` | `Hongbai-os/kernel/memory.c:159-168` | the loop of malloc_page in place |
| `KernelMemoryModel.KernelMemory.MallocPages` | `Hongbai-os/kernel/memory.c:147-170` | malloc_page in place |
| `KernelMemoryModel.KernelMemory.PhysFree` | `Hongbai-os/kernel/memory.c:449-464` | pfree in place |
| `KernelMemoryModel.KernelMemory.MFreePages` | `Hongbai-os/kernel/memory.c:500-546` | mfree_page in place |
| `KernelMemoryModel.KernelMemory.MarkRun` | `Hongbai-os/kernel/memory.c:57-61` | the marking loops of vaddr_get and vaddr_remove set exactly the run |
| `KernelMemoryModel.KernelMemory.FindClass` | `Hongbai-os/kernel/memory.c:405-411` | the loop that looks for the block size |
| `KernelMemoryModel.KernelMemory.CutArena` | `Hongbai-os/kernel/memory.c:428-435` | the new arena's blocks are appended one by one; the assertion that a block is not on the list yet never fires |
| `KernelMemoryModel.KernelMemory.MallocLarge` | `Hongbai-os/kernel/memory.c:382-401` | the branch for more than 1024 bytes in place |
| `KernelMemoryModel.KernelMemory.MallocSmall` | `Hongbai-os/kernel/memory.c:402-445` | the branch for small blocks in place |
| `KernelMemoryModel.KernelMemory.TakeFirst` | `Hongbai-os/kernel/memory.c:439-442` | list_pop and the decrement of the arena's count |
| `KernelMemoryModel.KernelMemory.SysMalloc` | `Hongbai-os/kernel/memory.c:351-446` | sys_malloc in place equals the function the heap theorems are about |
| `KernelMemoryModel.KernelMemory.UnlinkArena` | `Hongbai-os/kernel/memory.c:585-591` | the loop over the blocks of an arena that is free altogether |
| `KernelMemoryModel.KernelMemory.FreeArena` | `Hongbai-os/kernel/memory.c:576-592` | mfree_page of a whole arena |
| `KernelMemoryModel.KernelMemory.SysFree` | `Hongbai-os/kernel/memory.c:549-597` | sys_free in place equals the function the heap theorems are about |
| `Paging.PdePtrWalk` | `Hongbai-os/kernel/memory.c:94-98` | with slot 1023 pointing at the directory, the hardware walk of pde_ptr(v) lands on v's own directory entry |
| `Paging.PtePtrWalk` | `Hongbai-os/kernel/memory.c:87-91` | the walk of pte_ptr(v) lands on v's own page-table entry, and faults iff v has no page table |
| `Paging.AddrV2PIsWalk` | `Hongbai-os/kernel/memory.c:233-238` | addr_v2p equals the hardware walk on every mapped address |
| `Paging.EntryWalk` | `Hongbai-os/kernel/memory.c:126-127` | writing v's entry changes the walk of exactly the pages that share it |
| `Paging.WithTableWalk` | `Hongbai-os/kernel/memory.c:137-139` | a new page table, cleared through the window, changes no walk outside the window |
| `Paging.PageTableAddCorrect` | `Hongbai-os/kernel/memory.c:115-143` | page_table_add panics iff v is mapped already, never faults, and otherwise v walks to the frame while every page not sharing its entry walks as before |
| `Paging.OnlyOwnPage` | `Hongbai-os/kernel/memory.c:115-143` | when no two directory slots hold the same table, only v's own page shares its entry |
| `Paging.LoaderAlias` | `Hongbai-os/root/loader.S:212-214` | the loader's directory is not like that: slots 0 and 768 share a table, so a kernel page mapped in the first 4 MB also appears 3 GB below |
| `Paging.PteRemoveCorrect` | `Hongbai-os/kernel/memory.c:467-472` | page_table_pte_remove makes v and the pages sharing its entry fault and leaves every other walk |
| `Paging.CopyWord` | `Hongbai-os/userprog/process.c:81` | one word of the copy through the windows leaves the words below it in place |
| `Paging.CreatePageDir` | `Hongbai-os/userprog/process.c:70-87` | create_page_dir writes only its new page: no user entries, the kernel's entries, and itself in slot 1023 |
| `Paging.NewDirectoryWalks` | `Hongbai-os/userprog/process.c:79-84` | the new directory walks as the current one on every kernel address outside slot 1023, faults on every user address, and the current one is unchanged |
| `PageWalks.SlotOfPage` | `Hongbai-os/kernel/memory.c:94-98` | the directory slot of a page number is the number of its address's directory index |
| `PageWalks.NotShared` | `Hongbai-os/kernel/memory.c:115-143` | under page tables that represent a consistent page map no two pages the memory manager hands out share an entry |
| `PageWalks.AddRefines` | `Hongbai-os/kernel/memory.c:115-143` | page_table_add on the page map is page_table_add on the words in memory: both panic iff the page is mapped, and otherwise the hardware walk of every managed address finds the frame of the new page map |
| `PageWalks.RemoveRefines` | `Hongbai-os/kernel/memory.c:467-472` | so is page_table_pte_remove |
| `PageWalks.TranslationRefines` | `Hongbai-os/kernel/memory.c:233-238` | addr_v2p finds the frame of the page map, at the same offset |
| `ThreadsSafety.BootOk` | `Hongbai-os/thread/thread.c:214-224` | thread_init establishes the invariant |
| `ThreadsSafety.ScheduleOk` | `Hongbai-os/thread/thread.c:138-163` | schedule fires no assertion and leaves exactly one running thread, off the ready list |
| `ThreadsSafety.StepKeeps` | `Hongbai-os/thread/thread.c:109-211` | no step of any thread and no clock interrupt, also between the two list_append of thread_start, fires an assertion or leaves the invariant: the ready list is exactly the READY threads without duplicates, one thread is RUNNING and not on it, waiters are BLOCKED |
| `ThreadsSafety.RunsAreSafe` | `Hongbai-os/thread/thread.c:109-211` | the same over every run |
| `ThreadsLaws.MutualExclusion` | `Hongbai-os/thread/sync.c:25-67` | in every reachable state the semaphore's value plus the number of threads inside is 1 |
| `ThreadsLaws.NoLostWakeup` | `Hongbai-os/thread/sync.c:30-62` | if the value is 1 and threads wait, a popped waiter is ready or running and on its way back into the loop |
| `ThreadsLaws.NestingCounts` | `Hongbai-os/thread/sync.c:72-102` | over any run a thread's nesting in a lock grows by its acquires less its releases |
| `ThreadsLaws.RepeatCountsNesting` | `Hongbai-os/thread/sync.c:74-102` | from boot on, for every thread however it came into being, holder_repeat_nr of the holder is the number of acquires it owes a release; a thread owing none is not the holder |
| `ThreadsLaws.NewcomerCounts` | `Hongbai-os/thread/sync.c:72-102` | the same from any consistent state on, for threads started in the run |
| `ThreadsLaws.OneList` | `Hongbai-os/thread/sync.c:31-62` | a thread's general_tag is on at most one of the ready list and all waiter lists |
| `ThreadsLaws.AllListed` | `Hongbai-os/thread/thread.c:119-134` | in every reachable state thread_all_list holds every thread once, but for those whose creator is between the two list_append of thread_start |
| `ThreadsLaws.IdleIsBlocked` | `Hongbai-os/thread/thread.c:153-156` | when schedule finds nothing ready, the idle thread is BLOCKED as thread_unblock asserts |
| `ThreadsLaws.YieldLoses` | `Hongbai-os/thread/thread.c:203-211` | thread_yield as written always leaves the caller READY, not running and on no list |
| `ThreadsLaws.LostForever` | `Hongbai-os/device/timer.c:64-71` | no run ever gets such a thread back, whether other threads yield as written or repaired, so ticks_to_sleep never ends |
| `ThreadsFairness.StepCloser` | `Hongbai-os/thread/thread.c:138-163` | one step without an unblock dispatches the thread at index i or brings it closer by the clock ticks it took |
| `ThreadsFairness.BoundedWaiting` | `Hongbai-os/device/timer.c:33-49` | without an unblock, the thread at index i runs before as many clock interrupts as the sum of ticks + 1 over the running thread and those ahead |
| `ThreadsFairness.TicksWithinPriority` | `Hongbai-os/thread/thread.c:148` | ticks never exceed priority, in any run |
| `KernelThreadsModel.Cpu.constructor` | `Hongbai-os/thread/thread.c:214-224` | thread_init in place builds the boot state, which satisfies the invariant |
| `KernelThreadsModel.Cpu.ThreadUnblock` | `Hongbai-os/thread/thread.c:182-200` | thread_unblock in place, failing where its assertions do |
| `KernelThreadsModel.Cpu.Reschedule` | `Hongbai-os/thread/thread.c:138-163` | schedule in place; switch_to makes the chosen thread current |
| `KernelThreadsModel.Cpu.ThreadBlock` | `Hongbai-os/thread/thread.c:167-179` | thread_block in place |
| `KernelThreadsModel.Cpu.ThreadYield` | `Hongbai-os/thread/thread.c:203-211` | thread_yield in place, as written or with the missing list_append |
| `KernelThreadsModel.Cpu.ThreadStart` | `Hongbai-os/thread/thread.c:116-117` | thread_start puts the new thread on the ready list |
| `KernelThreadsModel.Cpu.ThreadList` | `Hongbai-os/thread/thread.c:119-120` | and into the list of all threads, failing where its assertion does |
| `KernelThreadsModel.Cpu.TimerHandler` | `Hongbai-os/device/timer.c:33-49` | the clock handler in place |
| `KernelThreadsModel.Cpu.SemaDown` | `Hongbai-os/thread/sync.c:25-48` | sema_down in place up to where it blocks or is over |
| `KernelThreadsModel.Cpu.SemaUp` | `Hongbai-os/thread/sync.c:53-67` | sema_up in place |
| `RingBuffer.PutCell` | `Hongbai-os/device/ioqueue.c:86-87` | storing at head appends to the buffered bytes |
| `RingBuffer.GetCell` | `Hongbai-os/device/ioqueue.c:65-66` | moving tail takes the oldest byte |
| `RingBuffer.FullAndEmpty` | `Hongbai-os/device/ioqueue.c:22-33` | ioq_full and ioq_empty hold iff 63 or 0 bytes are buffered |
| `RingBuffer.IoQueue.constructor` | `Hongbai-os/device/ioqueue.c:8-13` | ioqueue_init gives an empty queue nobody waits at |
| `RingBuffer.IoQueue.IoqWait` | `Hongbai-os/device/ioqueue.c:38-43` | ioq_wait registers its caller, failing where its assertion does |
| `RingBuffer.IoQueue.GetTurn` | `Hongbai-os/device/ioqueue.c:59-71` | a turn of ioq_getchar on the cells is that of the machine: it takes the oldest byte and wakes the producer, or waits for the lock or in ioq_wait |
| `RingBuffer.IoQueue.PutTurn` | `Hongbai-os/device/ioqueue.c:80-91` | a turn of ioq_putchar likewise: it appends the byte and wakes the consumer, or waits |
| `RingBuffer.IoQueue.StoreByte` | `Hongbai-os/device/ioqueue.c:86-91` | the byte is appended and the registered consumer woken |
| `RingBuffer.IoQueue.Resume` | `Hongbai-os/device/ioqueue.c:61-63` | a woken thread releases the lock and tests again |
| `RingBuffer.IoQueue.KeyboardPut` | `Hongbai-os/device/keyboard.c:213-217` | the keyboard drops a byte iff the buffer is full, and never sleeps |
| `RingWaiting.OneSleeper` | `Hongbai-os/device/ioqueue.c:38-43` | at most one thread is registered, on either side |
| `RingWaiting.StepKeeps` | `Hongbai-os/device/ioqueue.c:38-92` | for any number of consumers, producers and keys, no step fires an assertion of ioq_wait or thread_unblock; the bytes put are the bytes got followed by those buffered, which are at most 63; the one sleeper holds the lock |
| `RingWaiting.RunsKeep` | `Hongbai-os/device/ioqueue.c:38-92` | the same over every run |
| `RingWaiting.StepPrompt` | `Hongbai-os/device/ioqueue.c:59-92` | a step makes a thread sleep for nothing -- a consumer on a filled buffer, a producer on one with room -- iff it hands the lock to one whose reason to wait has gone meanwhile |
| `RingWaiting.OneThreadPrompt` | `Hongbai-os/device/ioqueue.c:56-72` | a single thread beside the keyboard sleeps only with reason, in every run |
| `RingWaiting.TwoConsumersSleepOnData` | `Hongbai-os/device/ioqueue.c:59-64` | with two consumers one may sleep beside a buffered byte: a concrete run |
| `RingWaiting.DeadForever` | `Hongbai-os/device/ioqueue.c:59-92` | where a producer sleeps and all others queue for its lock, no thread ever moves again, whatever keys are typed |
| `RingWaiting.Deadlock` | `Hongbai-os/device/ioqueue.c:59-92` | one consumer and one producer can get there, with the buffer empty: a concrete run |
| `Bytes.DecodeEncode` | `Hongbai-os/fs/dir.c:54-58` | words written to a sector are read back |
| `Bytes.SpliceRead` | `Hongbai-os/fs/inode.c:72` | a record copied into a buffer is read back, and bytes elsewhere stay |
| `FsInode.LocateCovers` | `Hongbai-os/fs/inode.c:22-45` | for all 4096 inodes the one or two sectors cover the 76-byte record and stay inside the table's 608 sectors |
| `FsInode.RecordsApart` | `Hongbai-os/fs/inode.c:28` | records of different inodes do not overlap |
| `FsInode.ParseRecord` | `Hongbai-os/fs/inode.c:56-62` | the persistent fields survive being written and read |
| `FsInode.SyncThenOpen` | `Hongbai-os/fs/inode.c:48-132` | a cold inode_open after inode_sync returns the same persistent fields and no other record changed, as written iff the number is below 256; above, the record modulo 256 is overwritten instead |
| `FsInode.SyncIsUpdate` | `Hongbai-os/fs/inode.c:48-81` | on records, inode_sync is the update of one element of the table |
| `FsInode.InodeTable.Sync` | `Hongbai-os/fs/inode.c:48-81` | the read-modify-write of one or two sectors puts the record in its slot and changes no other byte of the table and no sector outside it |
| `FsInode.InodeTable.OpenCold` | `Hongbai-os/fs/inode.c:101-125` | inode_open of an inode not cached returns what its record says |
| `FsFormat.RegionsFit` | `Hongbai-os/fs/fs.c:72-104` | super block, block bitmap, inode bitmap, inode table and data are consecutive; the bitmap has room for all data blocks; the data end inside the partition, at most one sector early up to 4096 * 4096 free sectors |
| `FsFormat.FillBlockBitmap` | `Hongbai-os/fs/fs.c:135-149` | the buffer loops leave exactly the intended padding pattern, byte by byte |
| `FsFormat.FreeEdge` | `Hongbai-os/fs/fs.c:144-149` | the clearing loop frees the bits of the edge byte up to its bound |
| `FsFormat.BitmapTransfer` | `Hongbai-os/fs/fs.c:150` | with ide_write's and ide_read's 8-bit count the bitmap that is mounted is the one formatted, whatever disk and memory held before, iff it has fewer than 256 sectors |
| `FsFormat.AllocInsideIff` | `Hongbai-os/fs/fs.c:145-150` | block_bitmap_alloc stays inside the partition, for a bitmap below 256 sectors, iff the padding loop's bound is strict, or the bitmap came out a sector shorter, or the data fill it exactly; for a larger one, whose end is never written, iff it has no bit behind the partition |
| `FsFormat.PaddingExample` | `Hongbai-os/fs/fs.c:145` | a partition of 10000 sectors from which a sector behind the end is handed out |
| `FsFormat.RootBlockTaken` | `Hongbai-os/fs/fs.c:136-149` | the root directory's block is marked iff there are at least 8 data blocks |
| `FsFormat.BufferHoldsBitmap` | `Hongbai-os/fs/fs.c:129-133` | the buffer holds the padded bitmap while that is below 608 sectors |
| `FsFormat.InodeTableCleared` | `Hongbai-os/fs/fs.c:167` | of the 608 sectors of the inode table 96 are written; the whole record is among them iff the number is below 646 |
| `FsFormat.MountedInodeMap` | `Hongbai-os/fs/fs.c:60` | the inode bitmap's length is right iff there are at most 4096 data blocks |
| `FsMount.MountedIff` | `Hongbai-os/fs/fs.c:160-184` | a file system just mounted is consistent iff its root block is marked and the disk marks what memory has taken |
| `FsMount.MountEstablishes` | `Hongbai-os/fs/fs.c:72-189` | formatting and mounting establish the consistency of the file system iff there are at least 8 data blocks and the part of the bitmap the 8-bit count leaves out, none below 256 sectors, happens to be covered |
| `FsRuns.DataStaysInside` | `Hongbai-os/fs/file.c:74-84` | over every sound run from a fresh partition on, in any form of the code, each block of each live inode lies in the data region inside the partition, whenever the formatted bitmap is one of those AllocInsideIff describes |
| `FsRuns.DataStaysBelow` | `Hongbai-os/fs/fs.c:145-149` | with fewer than 256 bitmap sectors they stay among the data blocks the bitmap is for with the strict padding bound, and one sector behind these at most with the bound as written |
| `FsRuns.SecondFileLosesFirst` | `Hongbai-os/fs/dir.c:137-150` | on every fresh partition with four free blocks: as written, the first file created in the root directory is fine; the second takes the first one's entry with it and leaves i_size at four entries with three used |
| `FsRuns.SecondFileExample` | `Hongbai-os/fs/dir.c:137-150` | such a partition, of 10000 sectors, with everything as written |
| `FsDisk.FormatLaysOut` | `Hongbai-os/fs/fs.c:95-104` | partition_format lays the regions out like this |
| `FsDisk.DataWrite` | `Hongbai-os/fs/dir.c:208` | on one disk laid out by the super block, a write to the data region changes neither bitmap and no inode record |
| `FsDisk.BlockMapWrite` | `Hongbai-os/fs/file.c:100-105` | writing the 512 bytes of a block bitmap sector makes those 4096 bits the ones in memory and changes no other bit, no data and no record |
| `FsDisk.InodeMapWrite` | `Hongbai-os/fs/file.c:95-105` | the same for the one sector of the inode bitmap |
| `FsDisk.RecordWrite` | `Hongbai-os/fs/inode.c:48-81` | inode_sync changes one record and neither bitmap nor data |
| `FsDisk.CommitOnDisk` | `Hongbai-os/fs/file.c:164-171` | the three writes that file_create makes behind sync_dir_entry leave on the disk what the model's commit says |
| `FsDirProofs.WithEntryEntries` | `Hongbai-os/fs/dir.c:219-220` | writing an entry into a block replaces that slot and no other |
| `FsDirProofs.InsertRefines` | `Hongbai-os/fs/dir.c:126-233` | with the index table read and the block index set back, a successful sync_dir_entry puts exactly the entry into the listing, at the first place there is, keeps all others, grows i_size by one entry, takes only free blocks, and changes no sector outside the directory |
| `FsDirProofs.InsertFromRefines` | `Hongbai-os/fs/dir.c:150-232` | the same, but for the place, from whatever block up to the first indexed one the search starts |
| `FsDirProofs.InsertOutcome` | `Hongbai-os/fs/dir.c:150-232` | success iff, from the block the search starts at, there is an unused slot before the first missing block or enough free blocks (two for the first indexed block); failure restores memory, and the bitmap on disk but for a half-made index table |
| `FsDirLaws.UnloadedAgrees` | `Hongbai-os/fs/dir.c:136-150` | without reading the index table, the block index set back or not, the outcome is the corrected one iff the search does not overwrite the table, or there is none and no room before it, or the entry fits nowhere and no block is free |
| `FsDirLaws.ScanCases` | `Hongbai-os/fs/dir.c:137-153` | sync_dir_entry as written, whose block index is 12 when the search starts, takes two new blocks whatever the directory holds; with the index set back only it does so iff no direct block has room; otherwise it searches the directory's own blocks |
| `FsDirLaws.SyncRefines` | `Hongbai-os/fs/dir.c:126-233` | in every form, as written too, a success is an insertion of exactly the entry: into the directory without its index table if that is overwritten, into the directory itself otherwise |
| `FsDirLaws.EntriesStayIff` | `Hongbai-os/fs/dir.c:150-195` | as written, all used entries stay, the new one behind them, iff no block is free or none lies behind the direct blocks |
| `FsDirLaws.UnloadedLoses` | `Hongbai-os/fs/dir.c:172-209` | when it overwrites the table, as the source always does, it succeeds iff two blocks are free, and the listing is afterwards that of the direct blocks with the new entry and 20 unused slots behind it; with one free block it fails and the indexed entries are gone as well |
| `FsDirLaws.SyncOutcome` | `Hongbai-os/fs/dir.c:126-233` | in every form, as written too: success iff there is room where that form looks, failure restores bitmaps and blocks, the bitmap on disk iff no half-made table is left, and the inode but for an overwritten table |
| `FsDirLaws.SearchSeesBlocks` | `Hongbai-os/fs/dir.c:38-58` | search_dir_entry sees the directory's blocks iff there is an index table or its buffer happened to be zero |
| `FsDirLaws.SearchAfterInsert` | `Hongbai-os/fs/dir.c:65-95` | after any insertion the name is found, as the inserted entry if it was absent, and every other name as before |
| `FsDir.FirstMatchIsFirst` | `Hongbai-os/fs/dir.c:74-90` | the search succeeds iff an entry has the name, and returns the first |
| `FsDir.SearchDirEntry` | `Hongbai-os/fs/dir.c:31-99` | search_dir_entry returns the first match over the blocks it sees, and without memory for their pointers nothing |
| `FsDir.CopyDirect` | `Hongbai-os/fs/dir.c:137-144` | the loop that copies the direct pointers leaves the block index at 12 |
| `FsDir.SearchBlockList` | `Hongbai-os/fs/dir.c:66-95` | its loop over the blocks |
| `FsDir.SearchBlock` | `Hongbai-os/fs/dir.c:74-90` | the loop over one sector |
| `FsFileProofs.OtherView` | `Hongbai-os/fs/dir.c:147-230` | an insertion in any form leaves blocks and listing of every inode that shares no block with the directory |
| `FsFileProofs.UsedAfterInsert` | `Hongbai-os/fs/dir.c:206` | an insertion in any form adds one used entry to the listing it goes into |
| `FsFileProofs.SizeFits` | `Hongbai-os/fs/dir.c:206` | a directory's i_size never wraps around |
| `FsFileKeeps.CreationKeepsIff` | `Hongbai-os/fs/file.c:109-193` | for every form of the code and every way out of it: file_create leaves a consistent file system iff, when it gets to sync_dir_entry, that overwrites no index table with used entries (nor any table when only one block is free), and the inode numbers inode_sync narrows are below 256 when it succeeds |
| `FsFileKeeps.OncePerDirectory` | `Hongbai-os/fs/dir.c:137-150` | as written a directory takes one file: the next creation in it breaks the consistency iff it gets to sync_dir_entry and a block is free |
| `FsFileKeeps.FailureIff` | `Hongbai-os/fs/file.c:37-58` | file_create returns -1 iff it does not get through or no descriptor is free, when the file is created nevertheless; and it leaves nothing behind iff it has no io buffer, or an inode is free and there is room neither for the entry nor for half a table |
| `FsFileKeeps.LongScan` | `Hongbai-os/fs/fs.c:60` | the inode bitmap with the block bitmap's length hands out the number its own sector would as long as an inode is free; then it fails iff no bit behind that sector is clear |
| `FsFileKeeps.OverrunIff` | `Hongbai-os/fs/file.c:61-71` | a number from behind the inode table is handed out iff no inode is free and such a bit is clear |
| `FsFileKeeps.CreatesIff` | `Hongbai-os/fs/file.c:109-162` | file_create gets through iff memory, an inode, a file slot and room for the entry are there -- as written, two free blocks -- and the directory's size is that of whole entries |
| `FsFileKeeps.StopsIff` | `Hongbai-os/fs/dir.c:132` | the assertion on the directory's size stops the kernel iff file_create gets to it and the size is not a multiple of 24 |
| `FsFileKeeps.NeverStops` | `Hongbai-os/fs/dir.c:132` | which it is for every open directory of a consistent file system |
| `FsFileKeeps.CreationDisk` | `Hongbai-os/fs/file.c:109-193` | after any creation the block bitmap on disk equals that in memory, if it did before, iff the creation was not left with an index table and no block for it |
| `FsFileKeeps.CreationUndone` | `Hongbai-os/fs/file.c:180-192` | a failed creation returns -1 and restores bitmaps, file table, open inodes and directory exactly, but for an overwritten index table; the io buffer stays allocated iff no inode was free, the bitmap on disk differs iff the index table was half made |
| `FsFileKeeps.LeftoverOk` | `Hongbai-os/fs/file.c:180-192` | what a failure leaves behind is a consistent file system |
| `FsFileKeeps.FreeFileIsFirst` | `Hongbai-os/fs/file.c:15-33` | get_free_slot_in_global returns the first free slot, and fails iff there is none |
| `FsFileKeeps.FreeFdIsFirst` | `Hongbai-os/fs/file.c:37-58` | pcb_fd_install takes the first free descriptor, and fails iff there is none |
| `FsCache.OpenCounts` | `Hongbai-os/fs/inode.c:84-132` | inode_open adds one to that inode's count and no other, keeps one object per inode, and an open inode keeps its object |
| `FsCache.CloseCounts` | `Hongbai-os/fs/inode.c:135-149` | inode_close takes one off that count; the object leaves the list iff it was the last |
| `FsCache.ReopenedSame` | `Hongbai-os/fs/inode.c:100-131` | an inode closed for the last time comes back from disk as it was |
| `FsCache.StepKeeps` | `Hongbai-os/fs/file.c:109-193` | an open or close always keeps the file system consistent, a creation in any form iff it is sound as CreationKeepsIff says |
| `FsCache.StepCounts` | `Hongbai-os/fs/inode.c:84-149` | every event changes the open counts by exactly what it does, sound or not |
| `FsCache.RunsAreConsistent` | `Hongbai-os/fs/inode.c:84-149` | a run in any form is consistent throughout iff all its creations are sound, and then each i_open_cnts is the number of outstanding opens |
| `FsCache.RepairedRuns` | `Hongbai-os/fs/file.c:109-193` | with the block index set back, the table read and the inode number not narrowed every run is consistent |
| `FsCache.StepExact` | `Hongbai-os/fs/file.c:109-193` | one event of a run keeps the block bitmaps equal iff it is not such a creation |
| `FsCache.RunExact` | `Hongbai-os/fs/file.c:109-193` | so they are equal all along a run without one |
| `FsPath.PathParser` | `Hongbai-os/fs/fs.c:265-287` | path_paser's pointer loops skip slashes and take the next component |
| `FsPath.ParsedComponents` | `Hongbai-os/fs/fs.c:265-287` | repeated calls yield exactly the non-empty components in order |
| `FsPath.NextName` | `Hongbai-os/fs/fs.c:345-349` | the next component is parsed if there is a sub-path |
| `FsPath.PathDepthCnt` | `Hongbai-os/fs/fs.c:290-307` | path_depth_cnt is the number of components, but for a path without any, where its uninitialised buffer may make it 1 |
| `FsPath.JoinedComponents` | `Hongbai-os/fs/fs.c:339-340` | the path search_file records has the components it was made of |
| `FsPath.JoinedLength` | `Hongbai-os/fs/fs.c:339-340` | and is no longer than the path |
| `FsPath.LastComponent` | `Hongbai-os/fs/fs.c:434` | the name behind the last slash is the last component |
| `FsOpen.IsTree` | `Hongbai-os/fs/fs.c:343-364` | in a consistent file system every name a directory lists is a file or again a directory, so search_file never falls through both of its branches |
| `FsOpen.WalkResolves` | `Hongbai-os/fs/fs.c:333-375` | search_file agrees with the recursive lookup as far as its searches get memory that does not mislead them: a directory iff all components are, the last component reached iff all before it are directories, and then what it is, or "not there" without memory |
| `FsOpen.AnswerIsKnown` | `Hongbai-os/fs/dir.c:38-58` | a search is not misled by what its memory held if the directory has an index table or that was zero |
| `FsOpen.SearchedFits` | `Hongbai-os/fs/fs.c:336` | the assertion on the length of the recorded path never fires for a path below 512 bytes |
| `FsOpen.OpenCreatesIff` | `Hongbai-os/fs/fs.c:379-441` | search_file's assertion on the path's length fires iff that is 512 bytes or more and the path none of the root's own names; with O_CREAT file_create is reached iff it does not, all components but the last lead through directories whose searches get memory, the path is none of those names, and the last is absent or its search gets no memory, when a file that is there is created again |
| `FsOpen.WalkCounts` | `Hongbai-os/fs/fs.c:351-373` | search_file gives up each directory it leaves and holds the one it reports; no other count changes |
| `FsOpen.SysOpenBalanced` | `Hongbai-os/fs/fs.c:379-441` | an assertion stops sys_open iff the flags are above 7 or the path is too long; it hands out an inode number from behind the table iff it gets to file_create with none free; otherwise, where the creation it gets to is sound, it keeps the file system consistent, opens the inode it creates, and leaves a directory open iff the file was found without O_CREAT |
| `FileSystemModel.FileSystem.BlockBitmapAlloc` | `Hongbai-os/fs/file.c:74-84` | the first free block is marked and its address returned, or nothing changes |
| `FileSystemModel.FileSystem.SyncSector` | `Hongbai-os/fs/file.c:91-105` | the 4096 bits of the bitmap sector with that bit are on disk as in memory, and no other bit on disk changes |
| `FileSystemModel.FileSystem.FindUnused` | `Hongbai-os/fs/dir.c:213-227` | the loop over the entries of one block finds the first unused slot |
| `FileSystemModel.FileSystem.UseBlock` | `Hongbai-os/fs/dir.c:211-227` | an unused slot of the block gets the entry, or nothing changes |
| `FileSystemModel.FileSystem.FirstTableBlock` | `Hongbai-os/fs/dir.c:172-196` | the first indexed block with its table, and the undoing when it cannot be had |
| `FileSystemModel.FileSystem.NewDirBlock` | `Hongbai-os/fs/dir.c:150-208` | the branch for a block not in use |
| `FileSystemModel.FileSystem.LoadBlocks` | `Hongbai-os/fs/dir.c:137-144` | the local array of block pointers and the block index behind the loop that fills it, 12 as written |
| `FileSystemModel.FileSystem.SyncEntry` | `Hongbai-os/fs/dir.c:126-233` | sync_dir_entry in place equals the function the directory theorems are about, behind its assertion on the directory's size |
| `FileSystemModel.FileSystem.InodeBitmapAlloc` | `Hongbai-os/fs/file.c:61-71` | the first free inode number is taken, and clearing it again restores the bitmap; behind the bitmap's own sector the number is that of the mounted bitmap |
| `FileSystemModel.FileSystem.GetFreeSlot` | `Hongbai-os/fs/file.c:15-33` | the loop over file_table |
| `FileSystemModel.FileSystem.PcbFdInstall` | `Hongbai-os/fs/file.c:37-58` | the loop over fd_table |
| `FileSystemModel.FileSystem.EnterFile` | `Hongbai-os/fs/file.c:155-177` | sync_dir_entry, the two inode_sync, bitmap_sync, list_push and pcb_fd_install in order |
| `FileSystemModel.FileSystem.CommitFile` | `Hongbai-os/fs/file.c:164-177` | everything goes to disk and the inode is opened |
| `FileSystemModel.FileSystem.Rollback` | `Hongbai-os/fs/file.c:180-191` | the cases of the rollback label fall through: slot cleared, inode bit cleared, buffer freed |
| `FileSystemModel.FileSystem.FileCreate` | `Hongbai-os/fs/file.c:109-193` | file_create in place with its rollback label equals the function the consistency theorems are about |
| `FileSystemModel.FileSystem.InodeOpen` | `Hongbai-os/fs/inode.c:84-132` | inode_open in place with its list walk |
| `FileSystemModel.FileSystem.InodeClose` | `Hongbai-os/fs/inode.c:135-149` | inode_close in place |
| `FileSystemModel.FileSystem.SearchDir` | `Hongbai-os/fs/dir.c:31-99` | search_dir_entry in an open directory gives its answer, whatever memory it gets |
| `FileSystemModel.FileSystem.ChangeDir` | `Hongbai-os/fs/fs.c:353-356` | closing one directory and opening the next |
| `FileSystemModel.FileSystem.WalkTurn` | `Hongbai-os/fs/fs.c:343-358` | one component is looked up, and entered if it is a directory |
| `FileSystemModel.FileSystem.Record` | `Hongbai-os/fs/fs.c:336-340` | a component is noted; the assertion before it holds |
| `FileSystemModel.FileSystem.WalkPath` | `Hongbai-os/fs/fs.c:333-375` | the loop of search_file equals the walk the path theorems are about |
| `FileSystemModel.FileSystem.SearchFile` | `Hongbai-os/fs/fs.c:310-376` | search_file in place equals its function |
| `FileSystemModel.FileSystem.LastName` | `Hongbai-os/fs/fs.c:434` | strrchr + 1 finds the last component |
| `FileSystemModel.FileSystem.Conclude` | `Hongbai-os/fs/fs.c:396-440` | sys_open after the search |
| `FileSystemModel.FileSystem.SysOpen` | `Hongbai-os/fs/fs.c:379-441` | sys_open in place equals its function |

## Left out

- Boot code, context switch, interrupt entry, GDT, IDT and TSS: hardware effects; `switch_to` makes the chosen thread current and `invlpg` does nothing.
- IDE ports, device polling, partition scanning and the disk's semaphore: the disk is a map of sectors, and the file system runs as one thread; the driver's bound of 80 MB on sector numbers is not asserted.
- Console, `printf`, the keyboard's decoding table and system-call stubs.
- `kernel_thread`, `thread_create` and process start: stack images and function pointers; the current thread is a field.
- Contents of allocated memory, and with them the swapped arguments of the block-clearing `memset` in `sys_malloc`.
- `get_a_page`, which returns with the lock held on failure, and `get_user_page`.
- What happens once frame 0 is used as a page table: the result `Wild` ends a run.
- Locks inside the memory manager and the file system: the heap counts how often its pool lock is kept, the interleavings of lock code are those of `Threads`.
- One process at a time beside the kernel: page tables, frames and virtual pages of other processes are taken bits of the pools.
- Reading, writing, deleting and opening existing files, and making directories: the kernel does not implement them.
- Failures of `sys_malloc` other than the two in `file_create` and that of the block pointers in `search_dir_entry`: the code does not check them or calls PANIC.
- Assertions on arguments that are never NULL, on interrupts being off, on inode numbers, which are below 4096 in every state the model has, on the sectors of an inode's record, which `FsInode.LocateCovers` gives, and on the bit of a block just allocated.
- Names of 16 bytes, which the kernel leaves unterminated, and components longer than 15 bytes, which overflow its buffers; paths without a leading slash, for which `sys_open` dereferences a null pointer.
- 32-bit wrap-around of `i_open_cnts`, of tick counters and of the lock's nesting count, which are unbounded here; the semaphore's value never exceeds 1.
- What happens once an inode number from behind the inode table is handed out: the result `OVERRUN` ends a run.
- A search of `search_file` that is misled by what its memory held, as `FsDirLaws.SearchSeesBlocks` and `FsOpen.AnswerIsKnown` bound it: it may read any sector as directory entries, and the results about whole walks are for memory that does not mislead.
- Linked lists and byte-wise bitmaps inside the larger models: `IntrusiveList.List` and `BitmapModel.Bitmap` are verified by themselves, and free lists, ready list, waiters and `open_inodes` are sequences, bitmaps sequences of bits.
- `file_create` as a whole on one disk: `FsDisk` relates each of its writes, and those behind `sync_dir_entry` together, to the state; the class keeps data sectors, bitmaps and records in fields of their own.
- ThreadsSafety.StepKeeps: each `elem_find` of `thread_start`, which runs with interrupts on, is one step with the `list_append` behind it; a new thread belongs to the state from the first of them on, its status is set before.
- RingWaiting.StepKeeps: any thread that queues for the lock may get it when it is free, where the semaphore wakes the one that waited longest.
- Paging.CreatePageDir: starts from the page `get_kernel_pages` has mapped and cleared; its failure return is a plain NULL.
- FsMount.MountEstablishes: formatting stops at a block bitmap of a multiple of 256 sectors, by the assertion of `ide_write` on its 8-bit count, and leaves nothing to mount.
- FileSystemModel.FileSystem.InodeOpen: the inode table is a sequence of records here; `FsInode.SyncIsUpdate` relates it to the sectors.
- FileSystemModel.FileSystem.SysOpen: the open flags but `O_CREAT` are only checked to be at most 7; the code ignores them.
- FileSystemModel.FileSystem.WalkTurn: for memory of the search that does not mislead it.
