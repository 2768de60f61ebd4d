# IGNIS, verified

A Dafny model of the IGNIS x86-64 kernel's memory managers, scheduler and the stateful structures above them, with
proofs of what they keep over whole runs. `dafny verify dfyconfig.toml` checks everything.

| modules | what they cover |
|---|---|
| `Bits`, `Tiling`, `BuddySpec`, `BuddyProofs`, `NodeLists`, `Bitmap`, `Buddy` | the buddy allocator: intrusive free lists, allocation bits and order bytes |
| `Pmm`, `PageTables`, `Vmm`, `BootTables`, `VmmRuns`, `Regions` | the physical page allocator, the four-level page tables, the tables boot leaves, and the memory both allocators manage |
| `SchedSpec`, `SchedProofs`, `SchedRuns`, `SchedLaws`, `Scheduler` | tasks, the ready and sleep queues, ticks, sleeping, reaping, the task table |
| `SlabSpec`, `SlabProofs`, `Slab`, `KmallocSpec`, `KmallocProofs`, `KmallocLaws` | slab caches in both unlink orders, and kmalloc over slab and buddy |
| `FsSpec`, `FsProofs`, `Vfs` | the RAM file system tree and path resolution |
| `Driver`, `Tty`, `Vga` | driver initialisation, the terminal ring buffer, the dirty-line screen cache |

Code that changes state in place is a class: list nodes and tasks are indices into arrays of links (`next`, `prev`,
heads), which the methods rewrite link by link. Each method is proved equal to a function on values (`Alloc`, `Free`,
`Tick`, `Create`, ...), and the laws are proved of those functions, so they hold of the methods too. The system's own
notion of "a run" is a sequence of calls; each call or timer tick is one atomic step.

## What the proofs found

- Buddy: blocks are not aligned to their order, because carving starts after the side tables, yet tiling, disjointness
  and complete coalescing hold over every run. `buddy_free` keeps them exactly when the page is not strictly inside a
  live block (`BuddyProofs.FreeKeepsInvIff`).
- `kmalloc` does not refuse requests above 8 MB less its header: it hands out a block that is too small
  (`KmallocProofs.BigFitsIff`). `kmalloc_pages` does refuse.
- Slab caches: `slab_alloc` and `slab_free` store the slab's new state before the unlink reads it. As written, a cache
  never gets a second slab, and once its slab is used up every allocation fails until an object is freed
  (`Slab.OrdersDiffer`). `slab_cache_shrink` ends exactly on caches without a slab or with all objects back; when it
  ends, the partial and full lists the slab has been on still lead to the freed block (`Slab.SlabCache.ShrinkEnds`).
  With the unlink under the old state the three lists are right in every run.
- `kfree` of a slab object gives it back exactly when the word 16 bytes before it, which belongs to the neighbouring
  object, is not the header's magic number; otherwise the object is lost and nothing else changes
  (`KmallocProofs.KfreeObject`).
- `pmm_free_page` frees nothing, whatever 64-bit address it is given. `pmm_init` marks the first 4 MB of the pages it
  manages, none of which overlaps the regions it means to reserve.
- `kernel_entry.asm` means to remove the identity mapping by clearing the word at 0x1000, where the top-level table is
  not; the mapping stays (`BootTables.IdentityStays`), and the kernel relies on it to reach its own tables
  (`BootTables.TablesReachable`).
- `vmm_map_page` maps its page and leaves all others alone exactly when the page-directory entry on the way is not a
  2 MB page (`PageTables.MapIffNonHuge`). Otherwise it overwrites a word of the mapped frame and reports success. That
  is so for every address below 128 MB and for the whole direct map of boot. The first frame handed out for a table after
  boot, at 8 MB, lies there, so that mapping one direct-map address after the first page has been mapped takes that
  page's mapping away (`VmmRuns.FirstMappingLost`).
- Both page allocators manage the memory from 64 MB on: no frame is handed out by both exactly as long as
  `pmm_alloc_page` has pages below that (`Regions.LowPagesFirst`).
- The scheduler's invariant survives a call exactly when the idle task does not block and is not destroyed while queued,
  and `scheduler_add_task` gets a task that is neither current nor queued (`SchedProofs.StepKeepsIff`). Wake times that
  wrap around wake the sleeper at once and do no other harm.
- File names of 64 characters and more are stored cut short: the new node cannot be found by its own path
  (`FsProofs.LongNamesLost`) and hides a node stored under the same name (`FsProofs.CreatePathEffect`) until it is deleted
  (`FsProofs.DeletePathEffect`). `ramfs_write` of an empty buffer drops the old contents and reports no memory. Deleting
  a directory that is not empty leaves the nodes below it allocated for good.
- A typed newline lets `tty_read` complete exactly when the buffer has room for it or holds a line already
  (`Tty.NewlineCompletesIff`); with 256 other characters buffered only a backspace helps.
- `vga_driver_clear` leaves the hardware screen as it was. `vga_driver_backspace(n)` erases n + 1 cells.

## Model

| member | source | states |
|---|---|---|
| `Bits.BuddyInvolution` | mm/allocators/buddy.c:20-24 | the XOR buddy of the buddy is the block, and the two lie exactly one block apart, aligned or not |
| `Bits.PowerOfTwoTest` | mm/allocators/buddy.c:149-216 | the size test of buddy_init accepts exactly the powers of two |
| `Tiling.TilingConserves` | mm/allocators/buddy.c:328-345 | blocks that tile an interval hold exactly as many pages as it has |
| `BuddyProofs.SplitClosedForm` | mm/allocators/buddy.c:66-97 | recursive splitting fails exactly when every higher list is empty; otherwise it halves the head of the lowest non-empty list down to the order, leaving one block in each list between |
| `BuddyProofs.AllocBestFit` | mm/allocators/buddy.c:236-271 | allocation fails iff no block of that order or above is free, and then changes nothing; otherwise it takes the last part of the head of the smallest sufficient list and leaves one remainder per order between |
| `BuddyProofs.AllocKeepsInv` | mm/allocators/buddy.c:236-271 | allocation keeps tiling, agreement of lists, bits and orders, and coalescing; the block returned is new |
| `BuddyProofs.TryMergeKeeps` | mm/allocators/buddy.c:100-147 | merging upwards restores coalescing after one block was added, and keeps the tiling |
| `BuddyProofs.FreeKeepsInv` | mm/allocators/buddy.c:278-316 | freeing a live block reads back its own order, keeps the invariant and removes exactly that block from the live ones |
| `BuddyProofs.FreeOutsideLive` | mm/allocators/buddy.c:278-316 | freeing a page that no live block covers changes nothing |
| `BuddyProofs.FreeKeepsInvIff` | mm/allocators/buddy.c:278-316 | buddy_free keeps the invariant if and only if the page starts a live block or lies outside all of them |
| `BuddyProofs.InitInv` | mm/allocators/buddy.c:149-216 | carving after the side tables leaves a tiling with at most one block per order below the top, hence no mergeable pair |
| `BuddyProofs.RunKeepsInv` | mm/allocators/buddy.c:236-316 | the invariant over every legal run of allocations and frees |
| `BuddyProofs.FreePagesConserved` | mm/allocators/buddy.c:328-345 | free pages + metadata pages + live pages = all pages |
| `BuddyProofs.EveryRun` | mm/allocators/buddy.c:149-345 | from buddy_init, every legal run keeps tiling, table agreement and complete coalescing, and free memory is the region less metadata less the live blocks |
| `BuddySpec.MetaPages` | mm/allocators/buddy.c:174-186 | the fewest pages that hold a bit and a byte per page of the region |
| `BuddyProofs.FreeAfterInit` | mm/allocators/buddy.c:149-201 | free memory after buddy_init, in bytes: the most whole pages that leave room for a bit and a byte per page |
| `BuddyProofs.KernelFreeAfterInit` | kernel.c:80 | 67088384 bytes for the kernel's 64 MB |
| `BuddyProofs.AllocTakesPages` | mm/allocators/buddy.c:236-271 | an allocation lowers the free pages by exactly its block |
| `BuddyProofs.FreeGivesPages` | mm/allocators/buddy.c:278-316 | freeing a live block raises them by exactly that |
| `NodeLists.NodeLists.Add` | mm/allocators/buddy.c:52-63 | linking an unlisted node at a head pushes it on that list and leaves every other list alone |
| `NodeLists.NodeLists.Remove` | mm/allocators/buddy.c:41-49 | unlinking a node, wherever it is, removes it from its list and leaves every other list alone |
| `NodeLists.NodeLists.Find` | mm/allocators/buddy.c:100-147 | the walk finds the buddy iff it is on the list |
| `Bitmap.Bitmap.Set` | mm/allocators/buddy.c:27-29 | the byte update sets that bit and no other |
| `Bitmap.Bitmap.Clear` | mm/allocators/buddy.c:32-34 | the byte update clears that bit and no other |
| `Bitmap.Bitmap.Test` | mm/allocators/buddy.c:37-39 | the bit test reads the bit |
| `Buddy.BuddyAllocator.constructor` | mm/allocators/buddy.c:149-216 | the allocator buddy_init leaves is valid, with the initial carving and nothing live |
| `Buddy.BuddyInit` | mm/allocators/buddy.c:149-216 | result codes: unaligned arguments, sizes that are no power of two, success |
| `Buddy.BuddyAllocator.CarveRegion` | mm/allocators/buddy.c:189-201 | the nested carving loops compute the initial free lists |
| `Buddy.BuddyAllocator.SplitBlock` | mm/allocators/buddy.c:66-97 | the in-place recursive split equals the split on values and leaves the lists untouched when it fails |
| `Buddy.BuddyAllocator.TryMergeBlock` | mm/allocators/buddy.c:100-147 | the in-place recursive merge equals the merge on values |
| `Buddy.BuddyAllocator.Mark` | mm/allocators/buddy.c:260-268 | the marking loop sets the bits and orders of exactly the block's pages |
| `Buddy.BuddyAllocator.AllocOrder` | mm/allocators/buddy.c:236-271 | the in-place allocation equals the one on values, records the block as live, and keeps the object valid; 0 iff it fails |
| `Buddy.BuddyAllocator.FreeAddr` | mm/allocators/buddy.c:278-316 | the in-place free equals the one on values for every address, and leaves a valid allocator iff the address is ignored, starts a live block or lies outside all of them |
| `Buddy.BuddyAllocator.GetFreeMemory` | mm/allocators/buddy.c:328-345 | the list-counting loop returns region less metadata less live blocks |
| `Buddy.GetOrderForSize` | mm/allocators/buddy.c:218-229 | no smaller order's block holds that many bytes; the block covers the request iff it is at most 8 MB; sizes that wrap around get order 0 |
| `Pmm.Pmm.constructor` | mm/pmm.c:38-83 | pmm_init marks pages 0 to 1023 and no others |
| `Pmm.Pmm.AllocPage` | mm/pmm.c:85-97 | the lowest free page, marked; 0 iff all are used; the counter stays exact |
| `Pmm.Pmm.AllocPages` | mm/pmm.c:119-147 | the lowest run of free pages, marked; 0 iff there is none or none is asked for |
| `Pmm.Pmm.FindRun` | mm/pmm.c:127-145 | the one-pass scan finds the lowest run iff there is one |
| `Pmm.Pmm.FreePage` | mm/pmm.c:99-117 | no 64-bit address changes the bitmap or the counter |
| `Pmm.Pmm.MarkRegionUsed` | mm/pmm.c:155-181 | marks exactly the pages from the rounded start to the (shifted) rounded end, in 64-bit arithmetic; the counter stays exact |
| `Pmm.RegionMarking` | mm/pmm.c:155-181 | for all 64-bit arguments, marking covers exactly the managed pages the region shares a byte with iff a stated condition on its ends holds |
| `Pmm.InitReservesWrongPages` | mm/pmm.c:38-83 | the four reserved regions mark pages 0 to 1023, none of which overlaps them |
| `Regions.SharedFrames` | kernel.c:80 | the buddy allocator's region is exactly the page allocator's pages from 15360 on |
| `Regions.LowPagesFirst` | mm/pmm.c:85-97 | pmm_alloc_page stays out of that region iff a page below 15360 is free |
| `Regions.HandsOutBuddyTables` | mm/pmm.c:85-97 | when none is, the next page it hands out holds the buddy allocator's own tables |
| `PageTables.SamePageIffIndices` | mm/vmm.c:9-12 | the four table indices identify exactly the 4 KB page |
| `PageTables.WriteLocal` | mm/vmm.c:131-159 | changing one table entry changes no walk that does not read it |
| `PageTables.InstallTable` | mm/vmm.c:52-92 | linking a zeroed fresh frame in an absent slot keeps every table on one path and changes no walk |
| `PageTables.WriteLeaf` | mm/vmm.c:94-101 | writing a lowest-level slot changes exactly the walk to that page |
| `PageTables.MapIffNonHuge` | mm/vmm.c:40-101 | the written entry ends the walk to the page and no other walk changes iff the path has no 2 MB page |
| `PageTables.HugeMissesTables` | mm/vmm.c:40-101 | with a 2 MB page whose frame holds no table, no walk changes at all |
| `PageTables.HugeHitsTable` | mm/vmm.c:40-101 | with a 2 MB page whose frame is a page table, the page in that slot of the table is remapped instead |
| `VmmRuns.DirectMapReachesFirstFrame` | mm/vmm.c:40-101 | mapping a direct-map address at 8 MB overwrites a word of the first frame that pmm_alloc_page returns after boot |
| `VmmRuns.FirstMappingLost` | mm/vmm.c:40-101 | from boot: the first page mapped that needs a table gets that frame for it, at whatever level, and one such call then unmaps the page |
| `Vmm.FrameInjective` | mm/pmm.c:34-36 | distinct page numbers have distinct, page-aligned frames |
| `Vmm.FrameIsPageAddress` | mm/pmm.c:34-36 | the frame word of a page stands for the address that the page allocator returns |
| `Vmm.Vmm.AllocFrame` | mm/vmm.c:52-92 | the lowest free frame, which is no table yet; none iff the page allocator is exhausted |
| `Vmm.Vmm.GetOrCreate` | mm/vmm.c:52-92 | follows or creates one level with the lowest free frame; no walk changes, and it fails iff the slot is absent and memory exhausted |
| `Vmm.Vmm.EnsureTables` | mm/vmm.c:52-92 | all three levels exist afterwards iff enough pages were free; upper entries that were there are kept, new ones are present and writable with no other flag; no walk changes even when it gives up midway |
| `Vmm.Vmm.MapPage` | mm/vmm.c:40-101 | result codes exactly; off 2 MB pages, success puts the address and all flags in the page's entry, opens missing levels writable and changes no other walk; on a 2 MB page the word overwritten; on failure no walk changes |
| `Vmm.MappingTranslates` | mm/vmm.c:40-159 | then every address of the page translates by the new entry and all others, 2 MB ones included, as before |
| `Vmm.MappedToFrame` | mm/memory_layout.h:146-148 | with PRESENT set and flags outside the address field the page translates to its frame plus offset; without PRESENT it stays unmapped |
| `Vmm.Vmm.UnmapPage` | mm/vmm.c:103-129 | result codes exactly; off 2 MB pages only the page's own translations go; on a 2 MB page the word zeroed |
| `Vmm.Vmm.MapThenUnmap` | mm/vmm.c:40-129 | mapping an unmapped page and unmapping it restores every translation |
| `VmmRuns.Boot` | mm/pmm.c:38-83 | the page allocator of pmm_init, with 1024 pages used and page 1024 next, and the boot tables meet what map and unmap rely on |
| `VmmRuns.RunFromBoot` | mm/vmm.c:18-159 | over every run from boot off the 2 MB pages, every page's entry, flags included, is that of a plain map that every successful call updates; vmm_get_physical agrees with it, and get_table keeps reaching every frame |
| `VmmRuns.ZeroIsAmbiguous` | mm/vmm.c:131-159 | vmm_get_physical returns 0 exactly for unmapped addresses and for physical address 0 |
| `BootTables.BootTree` | boot/boot.asm:57-119 | the boot tables, identity mapping included, satisfy the tree invariant that map and unmap keep |
| `BootTables.IdentityStays` | boot/kernel_entry.asm:9-10 | clearing the word at 0x1000 removes the identity entry iff the top-level table lies there; where link.ld places it, nothing changes |
| `BootTables.IdentityMap` | boot/boot.asm:88-97 | every address below 128 MB translates to itself, by a 2 MB page |
| `BootTables.TablesReachable` | mm/vmm.c:18-25 | get_table reaches every frame below 128 MB |
| `BootTables.DirectMap` | mm/memory_layout.h:108-111 | through the boot tables, the direct-map address of every byte below 128 MB translates to that byte |
| `SchedProofs.ExactlyOnePlace` | scheduler/task.c:322-541 | every live task is current, ready, sleeping, or in no queue, exactly one of these, and its state says which |
| `SchedProofs.WakeKeeps` | scheduler/task.c:392-427 | waking keeps the queues disjoint, duplicate-free and consistent with the states, even when the task that just went to sleep is woken at once |
| `SchedProofs.ReapKeeps` | scheduler/task.c:50-77 | reaping keeps the invariant: it never takes the current or a queued task, and the size stays exact |
| `SchedProofs.SwitchKeeps` | scheduler/task.c:374-473 | the switch restores "one running task, with a full slice" iff the idle task has not left the running state |
| `SchedProofs.TickKeeps` | scheduler/task.c:429-473 | so does a whole tick, from every state in which it is called |
| `SchedProofs.EntryEntering` | scheduler/task.c:475-541 | yield, block, exit and sleep call the tick in such a state, and only a blocking idle task has left the running state |
| `SchedProofs.CreateKeeps` | scheduler/task.c:197-270 | creation takes the lowest free slot, preserves every entry even when the table grows, and leaves the task in no queue |
| `SchedProofs.EnqueueKeeps` | scheduler/task.c:322-336 | adding a task keeps the invariant iff it is neither current nor queued |
| `SchedProofs.DestroyKeeps` | scheduler/task.c:272-316 | destroying a task keeps the invariant unless it is the idle task in the ready queue |
| `SchedProofs.StepKeepsIff` | scheduler/task.c:25-541 | a call or tick keeps the invariant iff the caller keeps to the rules the code does not test |
| `SchedProofs.BootInv` | scheduler/task.c:136-184 | the state after task_init and scheduler_init satisfies it |
| `SchedProofs.RunKeeps` | scheduler/task.c:25-541 | the invariant over every run; idle is always current or ready |
| `SchedLaws.TickInSlice` | scheduler/task.c:429-473 | a timer tick within the slice keeps the current task, takes one off its slice, adds one to its runtime and changes no other record but those of woken and reaped tasks |
| `SchedLaws.TickEndsSlice` | scheduler/task.c:429-473 | the tick that uses up the slice runs the head of the queue with a full slice and puts the outgoing task at the tail; with nothing ready idle goes on |
| `SchedLaws.KeepsProcessor` | scheduler/task.c:429-473 | over every run with fewer timer ticks than its slice, a task that makes no call keeps the processor and is charged each tick |
| `SchedLaws.FullSlice` | scheduler/task.c:429-473 | a task switched to stays current through nine timer ticks, and the tenth takes the processor away exactly when another task is ready |
| `SchedLaws.CallerAfter` | scheduler/task.c:475-541 | after yield, block, exit or sleep the head of the queue runs, and the caller is ready at the tail, blocked, terminated, or asleep until its wake time |
| `SchedLaws.WakeInOrder` | scheduler/task.c:392-427 | due sleepers join the ready queue, and the others stay, in the order of the sleep queue |
| `SchedLaws.AddedIsReady` | scheduler/task.c:322-336 | an added task is ready at the tail; nothing else changes |
| `SchedLaws.UnblockedIsReady` | scheduler/task.c:497-505 | so is a blocked task that is unblocked; any other is left alone |
| `SchedLaws.DestroyedIsGone` | scheduler/task.c:272-316 | a destroyed task is gone from table and queues, which keep the order of the others |
| `SchedLaws.CreateSucceeds` | scheduler/task.c:197-270 | creation succeeds iff there is memory for the task and a free slot or memory for a table twice as large; the task is new and has a full slice |
| `SchedLaws.BootState` | scheduler/task.c:136-184 | eight slots, the idle task running in slot 0, empty queues |
| `SchedRuns.StepProgress` | scheduler/task.c:322-484 | 10 times the position plus the current slice never grows for a waiting task, and shrinks at every tick, until it runs |
| `SchedRuns.BoundedWait` | scheduler/task.c:429-473 | a task at position k of the ready queue runs within 10 (k + 1) ticks, whatever else happens short of its destruction |
| `SchedRuns.WakeConserves` | scheduler/task.c:392-427 | waking loses and duplicates no task and leaves no expired sleeper |
| `SchedRuns.SleepIsExact` | scheduler/task.c:507-541 | a sleeper leaves the queue exactly at a tick at or after its wake time or when destroyed; its wake time never changes |
| `SchedRuns.SleepersSleep` | scheduler/task.c:507-541 | a task that calls task_sleep is asleep afterwards iff its wake time has not wrapped around |
| `SchedRuns.NoOverdueSleeper` | scheduler/task.c:429-432 | after every tick all sleepers have wake times in the future |
| `SchedRuns.StepReaps` | scheduler/task.c:434-439 | a terminated task goes exactly at the tick that completes the period or when destroyed; every other tick brings that one closer |
| `SchedRuns.ReapedInTime` | scheduler/task.c:434-439 | every terminated task leaves the table within 100 ticks, unless it is enqueued again |
| `Scheduler.Scheduler.constructor` | scheduler/task.c:136-184 | the object starts in the boot state |
| `Scheduler.Scheduler.AddTask` | scheduler/task.c:322-336 | the tail append marks the task ready, extends the ready queue by it and leaves the sleep queue, which shares the links, alone |
| `Scheduler.Scheduler.StartTask` | scheduler/task.c:322-336 | scheduler_add_task of a task that is neither current nor queued is the add step |
| `Scheduler.Scheduler.RemoveTask` | scheduler/task.c:338-372 | the search and unlink remove the task from the ready queue if it is there, and nothing else |
| `Scheduler.Scheduler.CheckSleeping` | scheduler/task.c:392-427 | the in-place walk, which unlinks while it appends, equals waking on values |
| `Scheduler.Scheduler.ReapTerminated` | scheduler/task.c:50-77 | the loop clears exactly the terminated slots other than the current one and keeps the count |
| `Scheduler.Scheduler.SwitchTask` | scheduler/task.c:374-473 | the dequeue, requeue and switch equal the switch on values |
| `Scheduler.Scheduler.SchedulerTick` | scheduler/task.c:429-473 | the in-place tick equals the tick on values and leaves a valid scheduler iff the idle task has not left the running state |
| `Scheduler.Scheduler.OnTimer` | scheduler/task.c:429-473 | a timer interrupt is one tick step |
| `Scheduler.Scheduler.TaskYield` | scheduler/task.c:475-484 | task_yield is the yield step |
| `Scheduler.Scheduler.TaskBlock` | scheduler/task.c:486-495 | task_block is the block step, and keeps the scheduler valid iff the caller is not the idle task |
| `Scheduler.Scheduler.TaskUnblock` | scheduler/task.c:497-505 | task_unblock enqueues a blocked task and ignores others |
| `Scheduler.Scheduler.TaskSleep` | scheduler/task.c:507-541 | task_sleep is the sleep step, with the sleep queue's push at the head |
| `Scheduler.Scheduler.TaskExit` | scheduler/task.c:25-48 | task_exit is the exit step; the idle task goes on halting |
| `Scheduler.Scheduler.TaskDestroy` | scheduler/task.c:272-316 | task_destroy takes the task out of both queues and the table, and keeps the scheduler valid unless that is the queued idle task; the current task is refused |
| `Scheduler.Scheduler.FindFreeSlot` | scheduler/task.c:86-134 | the lowest free slot, doubling the table when it is full and memory allows |
| `Scheduler.Scheduler.TaskCreate` | scheduler/task.c:197-270 | task_create is the create step, failures included |
| `SlabSpec.AlignSize` | mm/allocators/slab.c:26-28 | the least multiple of 8 that is large enough |
| `SlabSpec.SlabOrder` | mm/allocators/slab.c:31-43 | the smallest order up to 3 whose block fits eight objects, or 2 |
| `SlabSpec.ObjectsPerSlab` | mm/allocators/slab.c:193-238 | as many objects as fit behind the header, and no fewer |
| `SlabProofs.AllocKeeps` | mm/allocators/slab.c:283-334 | unlinking under the old state: every slab stays on the list its free count dictates; allocation fails iff nothing is free and no slab can be had |
| `SlabProofs.AllocTakesOne` | mm/allocators/slab.c:283-391 | allocation takes one object from one slab and touches no other; freeing it at once restores the slabs exactly |
| `SlabProofs.FreeKeeps` | mm/allocators/slab.c:336-391 | freeing a live object keeps the invariant |
| `SlabProofs.PicksUsedFirst` | mm/allocators/slab.c:283-305 | allocation turns to a partly used slab if there is one, then to an empty one, and takes a new one only when all are full |
| `SlabProofs.FreePutsFirst` | mm/allocators/slab.c:336-391 | a freed object is first on its slab's free list, and no other slab changes |
| `SlabProofs.FreshObjectAt` | mm/allocators/slab.c:125-135 | a new slab's free list holds its objects one object size apart, last first |
| `SlabProofs.RunKeeps` | mm/allocators/slab.c:283-391 | the three-list invariant over every run, with the unlink under the old state |
| `Slab.RepairedSlabCache.SlabAlloc` | mm/allocators/slab.c:283-334 | in place, with the unlink under the old state, equals allocation on values |
| `Slab.RepairedSlabCache.FindSlab` | mm/allocators/slab.c:336-366 | the search over the three lists finds the owning slab iff there is one |
| `Slab.RepairedSlabCache.SlabFree` | mm/allocators/slab.c:336-391 | in place, with the unlink under the old state, equals freeing on values; unknown addresses are ignored |
| `Slab.BuildFreeList` | mm/allocators/slab.c:102-140 | the loop of allocate_slab lists every object once, last first |
| `Slab.SlabCache.Relist` | mm/allocators/slab.c:46-99 | as written: unlinking under the new state leaves every other head the slab was on pointing to it |
| `Slab.SlabCache.SlabAlloc` | mm/allocators/slab.c:283-334 | as written: never more than one slab, whatever memory is at hand |
| `Slab.SlabCache.SlabFree` | mm/allocators/slab.c:336-391 | as written: a live object is found through the stale head and pushed back; addresses outside the slab are ignored |
| `Slab.SlabCache.ShrinkRound` | mm/allocators/slab.c:393-407 | one round of slab_cache_shrink as written, whatever words buddy_free leaves in the slab's links |
| `Slab.SlabCache.ShrinkEnds` | mm/allocators/slab.c:393-407 | the loop ends iff the cache has no slab or all n objects are back; when it ends only the empty list's head has been cleared |
| `Slab.ShrinkNeverEnds` | mm/allocators/slab.c:143-163 | on a cache in use no number of rounds ends it |
| `Slab.WrittenExhausts` | mm/allocators/slab.c:283-334 | as written, the k-th allocation returns the k-th object of the first slab's free list and leaves the rest |
| `Slab.OrdersDiffer` | mm/allocators/slab.c:311-323 | after the same allocations from a new cache, the next one fails as written whatever memory is offered, until a free, and succeeds with the repaired order |
| `KmallocProofs.BigFitsIff` | mm/allocators/kmalloc.c:50-79 | the block for a large request, wrapping ones included, holds it and the header iff the two are at most 8 MB |
| `KmallocProofs.UsableIff` | mm/allocators/kmalloc.c:50-79 | a live allocation can use all it asked for iff it is not such a large request |
| `KmallocProofs.SearchFinds` | mm/allocators/slab.c:482-525 | the search of slab_kfree finds the class of every object of every slab |
| `KmallocProofs.MallocKeeps` | mm/allocators/kmalloc.c:50-79 | kmalloc keeps the invariant, and a pointer it returns is a new allocation of the requested size |
| `KmallocProofs.SlabFails` | mm/allocators/slab.c:283-334 | exactly when a slab request fails |
| `KmallocProofs.MallocFails` | mm/allocators/kmalloc.c:50-79 | a failed kmalloc changes nothing; a large one fails iff no sufficient block is free |
| `KmallocLaws.SmallSucceeds` | mm/allocators/slab.c:459-470 | kmalloc of at most 4096 bytes fails iff the cache of the smallest sufficient class is missing, cannot get its slab or is used up; otherwise it hands out an object of that class; zero bytes are refused |
| `KmallocLaws.BootServes` | mm/allocators/slab.c:165-191 | from 17 pages on, boot creates every cache and every request of 1 to 4096 bytes then succeeds |
| `KmallocLaws.BigOrderLeast` | mm/allocators/kmalloc.c:58-66 | a large request gets the smallest block that holds it and the header |
| `KmallocLaws.CallocIsMalloc` | mm/allocators/kmalloc.c:101-116 | kcalloc is kmalloc of the product, or nothing when that does not fit in 64 bits |
| `KmallocLaws.PagesSucceed` | mm/allocators/kmalloc.c:163-186 | kmalloc_pages fails iff none or more than 2048 pages are asked for or no block of the smallest sufficient order is free; otherwise it hands out a block of that order |
| `KmallocLaws.PagesGivenBack` | mm/allocators/kmalloc.c:188-196 | kfree_pages gives back exactly the block of the run |
| `KmallocProofs.CallocGuard` | mm/allocators/kmalloc.c:101-107 | the division test rejects exactly the products that do not fit in 64 bits |
| `KmallocProofs.OrderForPages` | mm/allocators/kmalloc.c:163-178 | smallest sufficient order, or refusal iff more than 2048 pages are asked for |
| `KmallocProofs.MallocPagesKeeps` | mm/allocators/kmalloc.c:163-186 | kmalloc_pages keeps the invariant and returns a new run of that many pages |
| `KmallocProofs.KfreeObjectKeeps` | mm/allocators/kmalloc.c:81-99 | freeing a live object keeps the invariant, whatever the word before it reads |
| `KmallocProofs.KfreeObject` | mm/allocators/kmalloc.c:81-99 | the object returns to its slab iff that word is not the magic number; otherwise it is lost and nothing else changes |
| `KmallocProofs.KfreeBigKeeps` | mm/allocators/kmalloc.c:81-99 | freeing a large block through its header gives back exactly that block |
| `KmallocProofs.LiveDisjoint` | mm/allocators/kmalloc.c:50-79 | no two live allocations share a usable byte |
| `KmallocProofs.LiveAvoidsInternal` | mm/allocators/kmalloc.c:50-79 | no usable byte of a live allocation belongs to side tables, slab or block headers, cache structures, free blocks or free objects |
| `KmallocProofs.BootInv` | mm/allocators/slab.c:165-191 | the state after buddy_init and slab_init satisfies the invariant, for every region size |
| `KmallocProofs.EveryRun` | mm/allocators/kmalloc.c:50-196 | over every interleaving of kmalloc, kcalloc, kfree, kmalloc_pages and kfree_pages from boot, for every 64-bit size, both hold, and all bytes asked for are usable iff the request was at most 8 MB less the header |
| `KmallocProofs.SlabAllocIsWritten` | mm/allocators/slab.c:283-334 | the slab allocation used here, first slab included, is the one SlabCache performs as written |
| `KmallocProofs.SlabFreeIsWritten` | mm/allocators/slab.c:482-525 | so is the free |
| `FsProofs.ResolveNormal` | fs/vfs.c:81-134 | resolving a normalised path follows its components from the root |
| `FsProofs.SplitPath` | fs/vfs.c:136-165 | basename and dirname take a normalised path apart |
| `FsProofs.ResolveByParts` | fs/vfs.c:81-165 | resolving a path is looking up its basename in its resolved dirname |
| `FsProofs.UniquePath` | fs/vfs.c:81-134 | a node is reached by one path only |
| `FsProofs.CreateLookup` | fs/filesystems/ramfs.c:164-210 | creation changes the lookup of one name in one directory |
| `FsProofs.CreateKeepsIff` | fs/filesystems/ramfs.c:164-210 | sibling names stay different iff the name as stored was not taken |
| `FsProofs.CreateResolves` | fs/filesystems/ramfs.c:164-210 | the new name as stored leads to the new node, nothing lies below it, and no other list of names is affected |
| `FsProofs.DeleteResolves` | fs/filesystems/ramfs.c:212-242 | the lists of names through the node lead where they would from a sibling it hid, if any, and nowhere otherwise; no other is affected |
| `FsProofs.CreatePathEffect` | fs/vfs.c:186-211 | result codes exactly; success makes the path as stored resolve to the new node, hides what was below a node of that stored name, and changes no other path; sibling names stay different iff there was none |
| `FsProofs.ShortNamesKept` | fs/vfs.c:186-211 | with at most 63 characters that is this path, and no other path changes |
| `FsProofs.DeletePathEffect` | fs/vfs.c:213-217 | result codes exactly; the same for paths, in every tree |
| `FsProofs.DeletedPathsGone` | fs/vfs.c:213-217 | while sibling names are different, exactly the paths through the node stop resolving |
| `FsProofs.LongNamesLost` | fs/filesystems/ramfs.c:184-185 | a created node is found under its name iff that is at most 63 characters long |
| `FsProofs.WriteResolves` | fs/filesystems/ramfs.c:134-162 | writing changes no resolution |
| `FsProofs.WriteResult` | fs/filesystems/ramfs.c:134-162 | result codes exactly; a directory is left alone, a file that cannot be given the new contents reads as empty, and nothing else changes |
| `FsProofs.WriteThenRead` | fs/filesystems/ramfs.c:114-162 | what was written is read back up to the size asked for, and other files keep their contents |
| `FsProofs.ContentsKept` | fs/filesystems/ramfs.c:164-242 | a new file is empty, and creation and deletion keep the contents of all files |
| `FsProofs.RunKeeps` | fs/vfs.c:186-217 | over every run of creations and deletions the tree stays a tree, and sibling names stay different while they fit the field |
| `Vfs.BasenameOf` | fs/vfs.c:136-144 | the scan returns what follows the last slash |
| `Vfs.DirnameOf` | fs/vfs.c:146-165 | the scan returns what precedes the last slash, or the root |
| `Vfs.RamFs.constructor` | fs/filesystems/ramfs.c:30-59 | an empty root directory |
| `Vfs.RamFs.Readdir` | fs/filesystems/ramfs.c:244-263 | the walk returns the child at that index, or the right error |
| `Vfs.RamFs.ResolvePath` | fs/vfs.c:81-134 | the component loop over readdir equals resolution on values, for every string, and never returns a node given back |
| `Vfs.RamFs.NodeCreate` | fs/filesystems/ramfs.c:164-210 | linking at the head of the sibling list equals creation on values, for every name |
| `Vfs.RamFs.NodeDelete` | fs/filesystems/ramfs.c:212-242 | the search for the predecessor and unlink equal deletion on values; the node's memory is given back, and no node that can be reached has been |
| `Vfs.RamFs.CreateAt` | fs/vfs.c:186-211 | equals creation by path on values |
| `Vfs.RamFs.DeleteAt` | fs/vfs.c:213-217 | equals deletion by path on values |
| `Vfs.RamFs.WriteNode` | fs/filesystems/ramfs.c:134-162 | the copy replaces the contents; result code and byte count for directories, empty buffers and missing memory |
| `Vfs.RamFs.ReadNode` | fs/filesystems/ramfs.c:114-132 | the copy returns the first bytes of the contents |
| `Driver.BuildQueue` | drivers/driver.c:137-154 | the in-place insertion sort yields the stable priority-sorted permutation |
| `Driver.MetExactly` | drivers/driver.c:102-120 | a dependency is met iff there is none or the driver it names is initialised or enabled |
| `Driver.ClosedIsComplete` | drivers/driver.c:156-220 | once no pass finds work, everything in the least fixpoint has been attempted |
| `Driver.LeftOverCause` | drivers/driver.c:102-120 | a driver left over has a missing, failed or disabled driver on its dependency chain, or the chain runs into a cycle |
| `Driver.Registry.Register` | drivers/driver.c:20-42 | result codes exactly; a new driver is appended uninitialised |
| `Driver.Registry.Attempt` | drivers/driver.c:168-212 | attempts a driver iff it is uninitialised and its dependency is met, records the outcome, and changes no other driver |
| `Driver.Registry.Pass` | drivers/driver.c:156-220 | a pass attempts in queue order, only drivers whose dependency has succeeded and at least all that were due when it began, and leaves nothing to do when it counts none |
| `Driver.Registry.InitAll` | drivers/driver.c:123-233 | statuses end at the least fixpoint; exactly its drivers are attempted, once each, every one after its dependency succeeded and in priority order within each pass; at most n of the 2n passes are used |
| `Tty.Tty.InputChar` | tty/tty.c:24-63 | the ring refines a bounded deque: append unless full, drop the last on backspace; a newline wakes the waiting reader |
| `Tty.Tty.HasLine` | tty/tty.c:73-95 | the scan finds a newline iff one is buffered |
| `Tty.Tty.ReadLine` | tty/tty.c:96-122 | returns and removes the prefix through the first newline, or size - 1 characters |
| `Tty.Tty.Read` | tty/tty.c:65-122 | one check of the reader is the protocol's read step: it blocks, or reads a line |
| `Tty.NeverBlockedWithLine` | scheduler/task.c:486-505 | over every run the reader is never blocked while a newline is buffered |
| `Tty.ReadIsPrefix` | tty/tty.c:65-122 | a completed read is a prefix of the buffer that ends at the first newline or is cut by the size |
| `Tty.BackspaceUndoes` | tty/tty.c:24-47 | a backspace takes back the last character typed; a full buffer takes none |
| `Tty.LineArrives` | tty/tty.c:24-122 | a line typed to an idle terminal is exactly what the next read returns, and nothing is left over |
| `Tty.NewlineCompletesIff` | tty/tty.c:41-63 | a typed newline lets the next read complete iff the buffer has room or holds a line |
| `Tty.FullBufferTrap` | tty/tty.c:24-63 | with a full buffer that has no newline, no read completes until a backspace |
| `Vga.Vga.constructor` | io/vga.c:41-50 | a blank buffer over whatever the screen showed |
| `Vga.Vga.Refresh` | io/vga.c:71-89 | if a refresh is due, the whole screen shows the window afterwards; if not, nothing changes |
| `Vga.Vga.MarkLineDirty` | io/vga.c:95-103 | marks the line's flag iff the line is in the window |
| `Vga.Vga.Clear` | io/vga.c:52-69 | blanks the buffer and leaves the screen, which then agrees iff it was blank already |
| `Vga.ScrollAfter` | io/vga.c:105-169 | the scroll offset stays in range, the cursor's line never lies past the window, and lies in it iff the line written to is not above it |
| `Vga.CellDecodes` | io/vga.c:105-120 | a cell holds the character and the two colours; a negative character overwrites both |
| `Vga.CursorMoves` | io/vga.c:105-150 | a newline goes to the first column of the next line, any other character to the next cell, and past the buffer everything moves up a line |
| `Vga.WindowMoves` | io/vga.c:127-160 | the window moves only with a shift, or as far as it must to show the cursor's line |
| `Vga.TextMoves` | io/vga.c:105-150 | every cell after one character |
| `Vga.Vga.ShiftUp` | io/vga.c:105-169 | the overlapping in-place copy shifts the buffer by a line and blanks the last |
| `Vga.Vga.PutC` | io/vga.c:105-169 | text, cursor and scroll exactly; the whole screen shows the window afterwards; clean lines always agree |
| `Vga.Vga.SetColor` | io/vga.c:180-182 | changes the colour of later cells only |
| `Vga.Vga.Backspace` | io/vga.c:188-209 | blanks count + 1 cells up to the start of the buffer, none for a negative count, and the screen still agrees |

## Left out

- Addresses are unbounded naturals (page indices inside a region); regions that wrap around 2^64 are not modelled.
- Task and node pointers are table slots and indices; every call is atomic, so preemption inside a call is not modelled, and task_switch is the change of the current task. Pointers passed in are to live tasks.
- Buddy.BuddyAllocator.FreeAddr: a free from inside a live block that clears bits past the end of the side tables is not modelled, because it writes to memory outside them.
- VmmRuns.RunFromBoot: excludes the addresses of 2 MB pages, where vmm_map_page does not keep its promise; `PageTables.MapIffNonHuge` states that this is exact.
- VmmRuns.Boot: the boot tables are taken to lie between 1 MB and 4 MB, where link.ld puts the boot data.
- Scheduler.Scheduler.StartTask: scheduler_add_task of a current or queued task would tie the shared links in a knot; `SchedProofs.EnqueueKeeps` states that exactly these break the invariant.
- SchedRuns.SleepIsExact: a sleeper's own call to task_sleep is `SchedRuns.SleepersSleep`, where wake times that wrap around are treated.
- Slab.RepairedSlabCache.SlabFree: frees live objects or unknown addresses; a double free or a pointer into the middle of an object is not modelled.
- Slab.SlabCache.SlabFree: a double free, which makes the free list cyclic, and a pointer into the middle of an object are not modelled.
- Slab.SlabCache.ShrinkRound: a write through a link that buddy_free has overwritten goes to another free block and is not modelled.
- KmallocProofs.EveryRun: clients free what they hold and leave the header of a large block alone.
- kmalloc.c and slab_kfree are modelled on values over the allocators proved in place: no class of their own, and the per-slab free list threaded through the objects is a sequence of addresses.
- Data contents of allocated memory (the zeroing of kcalloc, slab constructors) are not modelled.
- Vfs.RamFs.NodeDelete: which bytes kfree gives back is not modelled, only that the node is.
- Paths of 256 characters and more overrun the path buffers of vfs.c; the model has no such limit. The index of vfs_dirname, uninitialised in the code, starts at 0.
- Driver initialisation functions are an oracle of outcomes, one per driver, independent of the order of calls.
- tty echo, and more than one reader, are not modelled.
- pmm_mark_region_free, pmm_free_pages, vmm_alloc_page, vmm_free_page, driver_unregister, slab_cache_destroy and task_get_by_name are single loops or compositions of modelled calls, with no invariant of their own.
- krealloc, vfs_mount, vfs_unmount, vfs_copy_file, the legacy heap and statistics counters are not part of this model.
- Assembly, interrupts, ATA, NVMe, PCI, serial, PIT and keyboard drivers, the shell and all printing are not part of this model.
