# A verified model of the dmos kernel core

dmos is a small 32-bit x86 kernel. This project models four parts of it in Dafny and
proves what each is for:

* **Virtual memory** (`src/kernel/mem.c`, `lib/bitmap.c`, `include/mmu.h`, `include/mem.h`, and
  `copy_args` of `task.c`). Directories, page tables and user pages are frames of one RAM,
  handed out by one bitmap. Non-aliasing is proved, not assumed: an ownership map gives every
  frame of every address space exactly one owner, over all runs.
* **Scheduler and blocking primitives** (`src/kernel/task.c`, `lib/list.c`, `mutex.c`, `sem.c`).
  A state machine whose steps are the kernel entries, proved over all runs, and the same
  entries on intrusive linked lists, proved to take those steps.
* **Terminal output** (`src/kernel/dev/tty/tty.c`, `console.c`). Any number of writers, one
  semaphore, a ring buffer and a mutex-protected drain, over all interleavings; and the
  row/column console, proved to implement a terminal with one linear cursor position. Control
  sequences are those of section 5.4 of ECMA-48 (CUB, CUF, CUP, ED, SGR: sections 8.3.18,
  8.3.20, 8.3.21, 8.3.39 and 8.3.117), with 0-based positions.
* **Integer printing** (`k_itoa` of `src/kernel/lib/klib.c`).

Each imperative part comes in two layers. Classes with fields, arrays and linked nodes follow
the source's loops and updates in place (`Bitmaps.Bitmap`, `MemKernel`, `Lists`, `TaskKernel`,
`SyncKernel`, `Kernels`, `Fifo`, `Consoles`, the methods of `Itoa`). Their methods are proved equal to
functions on values (`Mem`, `DataCopy`, `ArgSources`, `Sched`, `Sync`, `Terminal`), and the
theorems are about those functions. `dafny verify dfyconfig.toml` checks the whole project
(Dafny 4.11).

## Reading guide

| module | contents |
|---|---|
| `Options`, `Paging`, `Bitmaps`, `Mem`, `Bytes`, `DataCopy`, `Args`, `ArgSources`, `ExecArgs` | the memory operations as functions, and the byte-packed bitmap |
| `MapProofs` | the two-level table refines a flat page map |
| `Ownership`, `Frames`, `Growth`, `Spaces`, `Copying`, `Budget`, `Heap`, `MemRuns`, `CleanRuns` | one owner per frame, over every run; when operations succeed; copy and destroy undo each other |
| `KernelTable` | the page table the kernel boots with, for any number of free frames |
| `Leaks`, `StrayCopies` | where frames leak and bytes go to frame 0, and exactly when |
| `MemKernel` | `mem.c` and `copy_args` as they run, in place |
| `Sync`, `Sched`, `SchedSteps`, `SchedProofs`, `SchedRuns` | mutex and semaphore histories, the scheduler's state machine, what each entry and a whole turn do, its invariant, its runs |
| `Lists`, `TaskKernel`, `SyncKernel`, `Kernels` | the same on linked nodes, and all of it together under the scheduler's invariant |
| `Fifo`, `Tty`, `TtyProofs`, `TtyLoads`, `TtyStops`, `TtyDeadlock` | the output pipeline |
| `Terminal`, `Sequences`, `Consoles`, `Screens` | the linear terminal, what characters and control sequences do to it, the console that implements it, and what the pipeline puts on it |
| `Itoa` | integer printing |

## Where the code falls short of its evident intent

The model does what the code does. Where a property fails, one member gives the failing input
and another the exact condition under which the property holds.

* `bitmap_alloc_nbits` never examines the last of n >= 2 bits: `Bitmaps.AllocTwoOverlaps`,
  `Bitmaps.AllocManyIsRightIff`.
* A `memory_create_map` that finds no frame for a table leaves the data frame just allocated
  marked and unowned; the clean-up call names a virtual address and so frees nothing
  (`Growth.FreeHighIsNoop`): `Leaks.SbrkLeaks`, `Leaks.CopyLeaks`, `MemRuns.StepShort`.
* `memory_alloc_for_page_dir` reports success when it runs out of data frames, so `sys_sbrk` can
  move the heap end over unmapped pages: `Heap.SbrkOverrun`, `Heap.SbrkCovers`.
* `memory_create_map` overwrites a present entry, whose frame is then lost: `Leaks.OverwriteLeaks`,
  `MemRuns.StepKeepsOwnership`.
* `memory_get_paddr` ignores the present bit of the page: `StrayCopies.LetterGoesAstray`,
  `StrayCopies.PaddrTellsIff`, `StrayCopies.HitsFrameZeroIff`.
* `copy_args` indexes the pointer table by physical address across a page boundary:
  `ExecArgs.LastArgumentIsLost`, `ExecArgs.ExecDeliversIff`.
* `sys_sleep` for less than a tick loses its caller: `SchedProofs.ShortSleepLosesTask`,
  `SchedProofs.SleepKeepsTaskIff`.
* A newline takes two permits, one after the other, before anything is drained, so 512 writers
  of newlines can deadlock: `TtyDeadlock.NewlinesDeadlock`, `TtyDeadlock.DeadlockIff`.
* CSI H and f do not clamp: `Consoles.CursorLeavesScreen`, `Consoles.Console.WriteChar`.
* `k_itoa` prints negative numbers wrongly in bases other than ten: `Itoa.NegativeHexIsWrong`,
  `Itoa.PrintThenParse`.

In `task_time_tick` the guard `&ready_list.count > 0` tests an address, so it is always true, and
the first dispatch can suspend the rest of the handler; `Sched` splits the tick there.

## Model

| member | source | states |
|---|---|---|
| `Paging.Down2` | src/kernel/include/mem.h:42-44 | masking rounds a word down to the nearest page boundary |
| `Paging.Up2` | src/kernel/include/mem.h:45-47 | rounds up to the nearest page boundary, except that the last page of the address space wraps to 0 |
| `Paging.PdeIndex` | src/kernel/include/mmu.h:65-68 | the shift is the page number divided by 1024 |
| `Paging.PteIndex` | src/kernel/include/mmu.h:76-78 | the shift and mask are the page number modulo 1024 |
| `Paging.PermOf` | src/kernel/include/mmu.h:85-87 | the masked permissions are the entry modulo 512 |
| `Paging.MakePteFields` | src/kernel/mem.c:126 | or-ing address, permissions and present bit keeps the frame field and the flag bits apart |
| `Paging.MakePdeFields` | src/kernel/mem.c:103 | a new directory entry is the table's frame with the three flags |
| `Paging.EntryFields` | src/kernel/include/mmu.h:22-58 | frame, permissions and present bit are read back from the word |
| `Bitmaps.Bitmap.constructor` | src/kernel/lib/bitmap.c:4-14 | every bit of the packed bytes has the initial value |
| `Bitmaps.Bitmap.GetBit` | src/kernel/lib/bitmap.c:17-20 | reads the abstract bit from its byte |
| `Bitmaps.StoreBitUnpacks` | src/kernel/lib/bitmap.c:31-35 | a masked store in a byte changes that one abstract bit and no other |
| `Bitmaps.Bitmap.SetBits` | src/kernel/lib/bitmap.c:29-37 | sets exactly the bits of the range, clipped at the end of the bitmap |
| `Bitmaps.Bitmap.AllocNbits` | src/kernel/lib/bitmap.c:41-68 | the nested search finds the lowest start whose first max(1, n-1) bits have the wanted value, then sets the n bits from there; or -1 |
| `Bitmaps.FirstRun` | src/kernel/lib/bitmap.c:45-67 | the result is a run, no earlier start is one, and -1 means there is none |
| `Bitmaps.AllocOne` | src/kernel/lib/bitmap.c:41-68 | a one-bit allocation takes the lowest clear bit, fails exactly when none is clear, and freeing restores the bitmap |
| `Bitmaps.AllocManyIsRightIff` | src/kernel/lib/bitmap.c:41-68 | for n >= 2 index and bits are those of a correct allocator (lowest n clear bits in a row) if and only if the lowest n-1 clear bits in a row, if any, are followed by another clear bit |
| `Bitmaps.AllocTwoOverlaps` | src/kernel/lib/bitmap.c:54-62 | two bits are handed out although the second was already taken |
| `MapProofs.AllocFacts` | src/kernel/mem.c:21-34 | addr_alloc_page marks the lowest free frame and nothing else, and fails exactly when no frame is free |
| `MapProofs.SetEntry` | src/kernel/mem.c:118-126 | storing one entry changes the flat map at that page only |
| `MapProofs.AddTableEntries` | src/kernel/mem.c:99-107 | inserting a fresh zeroed table changes the flat map nowhere |
| `MapProofs.MapPageFacts` | src/kernel/mem.c:88-126 | one round succeeds if and only if the table exists or a frame is free; success changes one entry, failure nothing |
| `MapProofs.CreateMapRefines` | src/kernel/mem.c:113-132 | memory_create_map as a change of the flat map, with the exact prefix of pages mapped when it fails, and with 32-bit wrap-around |
| `Bytes.CreateMapTranslates` | src/kernel/mem.c:88-132 | after success each address of the range translates to paddr plus its offset with the given permissions, every other address translates as before |
| `Ownership.OneOwner` | src/kernel/mem.c:190-342 | under the invariant two references to one frame are the same reference, and the frame is marked and not the kernel's |
| `Ownership.OwnedDir` | src/kernel/mem.c:88-110 | ownership makes the tables of a directory distinct frames in use, none of them the directory itself |
| `Ownership.NewPageOwned` | src/kernel/mem.c:221-228 | mapping a fresh page, with or without a fresh table, keeps one owner per frame |
| `Ownership.DataWrite` | src/kernel/mem.c:331 | writing a data frame changes no address space's flat map |
| `Growth.AllocMapGrows` | src/kernel/mem.c:214-229 | one round of the allocation loop in its three outcomes: page mapped, nothing changed, or exactly one frame leaked |
| `Growth.FreeHighIsNoop` | src/kernel/mem.c:222-226 | the clean-up call with a user virtual address frees no frame |
| `Growth.AllocPagesShort` | src/kernel/mem.c:208-232 | the call fails for want of a table if and only if the pages, with their costs, use up the free frames but one just where two are needed |
| `Growth.AllocPagesGrows` | src/kernel/mem.c:208-232 | the first c pages are mapped to frames that were free, all of them exactly on success; other spaces keep maps and contents; nothing leaks, except one frame exactly when the free frames, counted before the call, run out at a page that needs a table |
| `Spaces.CreateUvmOwned` | src/kernel/mem.c:190-205 | a new space has an empty user half and the kernel half shared, in a frame that was free; failure only when no frame is free |
| `Spaces.DestroyFrees` | src/kernel/mem.c:281-300 | for any directory: no memory is written, and exactly the directory, its user tables and their pages are unmarked |
| `Spaces.DestroyOwned` | src/kernel/mem.c:281-300 | destroying an owned space frees exactly its frames, keeps the other spaces and ownership, and neither adds nor removes leaks |
| `Copying.CopyUvmCopies` | src/kernel/mem.c:303-342 | success gives the same mapped pages, the same low nine permission bits and equal bytes in frames that were free, kernel half shared, source and other spaces unchanged; failure restores the bitmap exactly, or all but one frame |
| `Copying.CopyThenDestroy` | src/kernel/mem.c:281-342 | destroying a successful copy restores the bitmap exactly and leaves every older space's map and contents unchanged |
| `Budget.AllocPagesSucceeds` | src/kernel/mem.c:208-232 | the whole range is mapped if and only if the free frames cover its pages and missing tables, and that many are used |
| `Budget.CopyUvmSucceeds` | src/kernel/mem.c:303-342 | the copy succeeds if and only if the free frames cover directory, pages and tables of the source, and fails for want of a table, leaking one frame, if and only if they run out at a page whose table is missing |
| `Budget.PagesCostTwoCalls` | src/kernel/mem.c:208-232 | a range allocated in two calls costs as many frames as in one |
| `Heap.SbrkCall` | src/kernel/mem.c:369-409 | sys_sbrk allocates exactly the pages between the old and the new rounded heap end, and none when they agree |
| `Heap.SbrkGrows` | src/kernel/mem.c:369-409 | with enough frames the previous end is returned and those pages are mapped, each once, none overwritten |
| `Heap.SbrkRunGrows` | src/kernel/mem.c:369-409 | over any run of nonnegative increments call k returns the end left by the calls before it, and the pages between first and last rounded end are mapped once each |
| `Heap.DataFramesCount` | src/kernel/mem.c:208-232 | c grown pages occupy c distinct data frames |
| `Heap.SbrkCovers` | src/kernel/mem.c:397-408 | the pages up to the new end are all mapped if and only if enough frames were free before the call |
| `Heap.SbrkOverrun` | src/kernel/mem.c:215-219 | with no frame left sbrk reports success and leaves the page unmapped |
| `MemRuns.StepKeepsOwnership` | src/kernel/mem.c:190-409 | every operation keeps one owner per frame; marked frames are exactly the owned and the kernel's afterwards if and only if they were before, the frames are not short of a table, and none of the pages that find frames was mapped |
| `MemRuns.StepShort` | src/kernel/mem.c:190-409 | for every operation, a table allocation fails if and only if the frame counts before the call say so |
| `MemRuns.RunKeepsOwnership` | src/kernel/mem.c:190-409 | the same over every run of create, allocate, grow, copy, destroy and kernel pages: exact at the end if and only if exact at the start and no operation began short of a table or mapped over a mapped page |
| `MemRuns.RunOneOwner` | src/kernel/mem.c:190-409 | after every run no two references of any spaces share a frame |
| `CleanRuns.RunKeepsClean` | src/kernel/mem.c:190-409 | over every run, user entries that are not present are empty in every space |
| `MemRuns.BootEstablishes` | src/kernel/mem.c:135-187 | memory_init establishes the invariant for any list of kernel regions |
| `KernelTable.RowPages` | src/kernel/mem.c:150-154 | a row has the pages from the one of vstart to the last that begins below vend, and none if that is half the address space or more |
| `KernelTable.FittingIsMost` | src/kernel/mem.c:64-132 | of the pages of a row as many are mapped as there are free frames for the tables they lack, so all of them exactly when the frames cover every directory entry touched |
| `KernelTable.RowMaps` | src/kernel/mem.c:88-132 | memory_create_map maps that many pages of the range, leaves a table at exactly the entries they touch, and takes one frame for each new one |
| `KernelTable.KernelTableMaps` | src/kernel/mem.c:135-157 | with any number of free frames, each page of the kernel directory has the entry of the last row that got to it, and its old entry if none did |
| `KernelTable.PlanIsWhole` | src/kernel/mem.c:148-157 | every row is mapped whole if and only if a free frame is there for each missing table of the entries all rows touch |
| `KernelTable.KernelTableTranslates` | src/kernel/mem.c:135-157 | with frames enough, every address of a row translates to pstart plus its offset with the row's permissions, also where rows overlap, and every other entry is as before |
| `KernelTable.KernelIdentity` | src/kernel/mem.c:135-183 | the page table the kernel boots with: an address of text, data, display or memory up to 128 MB translates to itself, read-only in the text, if and only if its 4 MB come before the free frames run out; nothing else is mapped |
| `Leaks.OrphanIsLeak` | src/kernel/mem.c:221-226 | a marked frame that no space refers to is a leak under every account of ownership |
| `Leaks.SbrkLeaks` | src/kernel/mem.c:397-403 | a machine with one free frame on which sbrk of a page fails and leaves that frame marked and unreferenced, all other memory unchanged |
| `Leaks.CopyLeaks` | src/kernel/mem.c:322-340 | a machine with two free frames on which a copy fails, is undone, and leaves one frame marked and unowned |
| `Leaks.OverwriteLeaks` | src/kernel/mem.c:122-126 | allocating a page that is mapped succeeds and leaves its old frame marked and unowned |
| `Bytes.GetPaddrMapped` | src/kernel/mem.c:270-278 | on a mapped page memory_get_paddr is the translation of the flat map |
| `Bytes.PutByteFacts` | src/kernel/mem.c:359 | a byte stored through a translation changes one byte of the page's own frame and no space's map |
| `Bytes.PutByteReads` | src/kernel/mem.c:359 | seen through the directory exactly that one address changes |
| `DataCopy.CopyUvmDataRefines` | src/kernel/mem.c:345-366 | the page-split loop succeeds and equals storing the bytes one by one, for any offset and size |
| `DataCopy.CopyUvmDataCopies` | src/kernel/mem.c:345-366 | byte to+k reads as source byte k, and no other byte of RAM changes |
| `StrayCopies.PaddrTellsIff` | src/kernel/mem.c:270-278 | memory_get_paddr is 0 exactly for an unmapped address if and only if the page is mapped, or has no table, or has an empty entry and the address is page-aligned |
| `StrayCopies.CopyDetects` | src/kernel/mem.c:345-366 | for any destination: success means a mapped range, unless the first page is unmapped with a table, the start is unaligned and the rest is mapped; low memory is written in exactly that case of the first page |
| `StrayCopies.HitsFrameZeroIff` | src/kernel/mem.c:349-359 | a source byte that differs from frame 0 changes frame 0 if and only if the first page is unmapped, has a table, and the start is unaligned |
| `StrayCopies.LetterGoesAstray` | src/kernel/mem.c:349-359 | a machine on which a byte copied to an unmapped page is reported as copied and is found in frame 0 |
| `Args.StringsStored` | src/kernel/task.c:554-562 | with the table in consecutive frames the loop puts every string and its pointer in place and writes nothing before them |
| `Args.CopyArgsDelivers` | src/kernel/task.c:544-568 | with the table in consecutive frames, reading argc, the table and each string back gives the original list, every pointer its string's address, and the null pointer |
| `ArgSources.OtherSpaceApart` | src/kernel/task.c:554-559 | user memory of another space shares no frame with the argument block, because no frame has two owners |
| `ArgSources.CopyArgsRefines` | src/kernel/task.c:544-568 | the loop as coded, with k_strlen and memory_copy_uvm_data on argv's pointers, succeeds and equals the copy of the strings they lead to, wherever the table's pages are, when sources and tables are apart from the frames written |
| `ExecArgs.ExecDeliversArgs` | src/kernel/task.c:544-568 | arguments in the old program's user memory are all read back by the new program when the table lies in consecutive frames, and no space's map changes |
| `ExecArgs.ExecDeliversIff` | src/kernel/task.c:544-568 | for every argument list the call succeeds, and the program finds all of its arguments and the null pointer if and only if the table's pages lie in consecutive frames (slots out of place not holding the right word by chance) |
| `ExecArgs.SlotStaysWrong` | src/kernel/task.c:552-563 | a slot out of place that is wrong before the call is wrong after it, also where the frames hit are other pages of the block |
| `ExecArgs.LastArgumentIsLost` | src/kernel/task.c:544-568 | a machine with a running program whose 1022 arguments are copied with success, and of which the new program does not find the last |
| `MemKernel.MemoryManager.constructor` | src/kernel/mem.c:10-18 | no frame is marked and all memory, the kernel directory included, is clear |
| `MemKernel.MemoryManager.AllocRange` | src/kernel/mem.c:21-34 | for any number of pages: the address and the marks that bitmap_alloc_nbits gives |
| `MemKernel.MemoryManager.AllocPage` | src/kernel/mem.c:21-34 | address of the lowest free frame, marked; 0 if there is none |
| `MemKernel.MemoryManager.FreePage` | src/kernel/mem.c:37-44 | the bits are cleared at an index computed in 32-bit arithmetic |
| `MemKernel.MemoryManager.FindEntry` | src/kernel/mem.c:88-110 | the table found or created and zeroed in place, as `Mem.FindPte` says |
| `MemKernel.MemoryManager.CreateMapping` | src/kernel/mem.c:113-132 | the loop leaves memory and bitmap as `Mem.CreateMap` says, on failure too |
| `MemKernel.MemoryManager.MapKernelRegions` | src/kernel/mem.c:135-157 | the kernel's regions are mapped in place as `Mem.CreateKernelTable` says; which pages that is, `KernelTable.KernelTableMaps` says |
| `MemKernel.MemoryManager.CreateSpace` | src/kernel/mem.c:190-205 | clearing and copying the kernel half in place gives `Mem.CreateUvm` |
| `MemKernel.MemoryManager.AllocForPageDir` | src/kernel/mem.c:208-232 | the loop gives `Mem.AllocForDir`, with the return value 0 also when out of data frames |
| `MemKernel.MemoryManager.DestroySpace` | src/kernel/mem.c:281-300 | the nested loops give `Mem.DestroyUvm` |
| `MemKernel.MemoryManager.CopySpace` | src/kernel/mem.c:303-342 | the nested loops with their failure exit give `Mem.CopyUvm` |
| `MemKernel.MemoryManager.PaddrOf` | src/kernel/mem.c:270-278 | the table walk gives `Bytes.GetPaddr` |
| `MemKernel.MemoryManager.ClearFrame` | src/kernel/lib/klib.c:89-96 | the byte loop of k_memset leaves a zero page |
| `MemKernel.MemoryManager.CopyFrame` | src/kernel/lib/klib.c:77-86 | the byte loop of k_memcpy leaves an equal page, also when source and destination coincide |
| `MemKernel.MemoryManager.CopyBytes` | src/kernel/lib/klib.c:77-86 | the byte loop of k_memcpy to physical memory gives `DataCopy.MemCpy` |
| `MemKernel.MemoryManager.CopyData` | src/kernel/mem.c:345-366 | the page-split loop gives `DataCopy.CopyUvmData` |
| `MemKernel.MemoryManager.StringLength` | src/kernel/lib/klib.c:63-75 | k_strlen is the length of the string read through the active directory, 0 for a null pointer |
| `MemKernel.MemoryManager.CopyArguments` | src/kernel/task.c:544-568 | the loop gives `ArgSources.CopyArgsFrom` |
| `MemKernel.MemoryManager.Grow` | src/kernel/mem.c:369-409 | memory, heap end and result are those of `Mem.Sbrk` |
| `Sync.MutexFollowsHistory` | src/kernel/mutex.c:11-51 | after any possible history the count is the owner's unmatched locks, the mutex is idle exactly when nobody has any, and owner and waiters stand in arrival order without repetition |
| `Sync.WaiterLeavesAsOwner` | src/kernel/mutex.c:30-51 | a waiter leaves the line only as the owner, with count 1, and only from its head |
| `Sync.SemFollowsHistory` | src/kernel/sem.c:9-36 | initial + notifies = count + granted waits, grants are the oldest waits, a positive count means no waiters |
| `Sync.GrantsGrow` | src/kernel/sem.c:9-36 | no grant is lost or given twice, and a notify with waiters grants exactly one |
| `SchedProofs.StepKeepsInv` | src/kernel/task.c:223-349 | every kernel entry keeps each live task on exactly one list, idle on none, and the running task at the head of the ready list or idle if that is empty |
| `SchedProofs.RunKeepsInv` | src/kernel/task.c:223-349 | the same over every run |
| `SchedProofs.InitialInv` | src/kernel/task.c:144-211 | the first task running alone satisfies the invariant |
| `SchedProofs.OnExactlyOne` | src/kernel/task.c:223-349 | under the invariant a live task is on exactly one of the ready, sleep and wait lists, any other on none |
| `SchedProofs.ExitedStaysOut` | src/kernel/task.c:673-678 | an exited task is never current and never on a list again, in any run |
| `SchedProofs.ScanInv` | src/kernel/task.c:306-319 | the sleep-list scan keeps the invariant |
| `SchedProofs.SleepKeepsTaskIff` | src/kernel/task.c:323-342 | sys_sleep leaves its caller on a list if and only if it asks for at least one tick |
| `SchedProofs.ShortSleepBreaks` | src/kernel/task.c:336-338 | after a sleep below one tick no assignment of tasks to lists satisfies the invariant |
| `SchedProofs.ShortSleepLosesTask` | src/kernel/task.c:336-338 | a sleep of five milliseconds leaves its caller on no list |
| `SchedRuns.StepShortensWait` | src/kernel/task.c:244-304 | no step adds to the slice ticks ahead of a waiting ready task, and each tick takes one away |
| `SchedRuns.RunsWithinTicks` | src/kernel/task.c:244-304 | a ready task runs within as many ticks as the slices ahead of it sum to |
| `SchedRuns.BoundedWaiting` | src/kernel/task.c:244-304 | with k tasks ahead of it a ready task runs within 10 * k ticks, under any mix of other steps |
| `SchedRuns.StillAsleep` | src/kernel/task.c:306-316 | after fewer scans than its ticks a sleeper still sleeps, with that many fewer ticks |
| `SchedRuns.SleepIsExact` | src/kernel/task.c:306-349 | a sleep of n ticks ends with exactly the n-th scan |
| `SchedRuns.RunMutex` | src/kernel/mutex.c:11-51 | in every run each mutex is what its history of calls says |
| `SchedRuns.LockReturnsAsOwner` | src/kernel/mutex.c:11-51 | a caller blocked in mutex_lock becomes ready only as the owner, from the head of the line |
| `SchedRuns.RunSem` | src/kernel/sem.c:9-36 | in every run each semaphore is what its history of calls says |
| `SchedRuns.NotifyWakesOldest` | src/kernel/sem.c:22-36 | a notify makes the oldest waiter ready and leaves the count |
| `SchedSteps.YieldRotates` | src/kernel/task.c:244-260 | sys_yield of a task that is not alone puts it at the end and runs the second in line; of one alone it changes nothing |
| `SchedSteps.TickCounts` | src/kernel/task.c:292-304 | a tick takes one of at most ten; with the last one the task gets ten again, goes to the end and the second in line runs |
| `SchedSteps.SleepQueues` | src/kernel/task.c:323-343 | from ten milliseconds on the caller joins the end of the sleep list with ms / 10 ticks, below that no list, and the second in line runs |
| `SchedSteps.ExitLeaves` | src/kernel/task.c:673-678 | the caller leaves the ready list for good and the second in line runs |
| `SchedSteps.StartAppends` | src/kernel/task.c:133-140 | the new task is last in line and the caller keeps running |
| `SchedSteps.LockTakesOrWaits` | src/kernel/mutex.c:11-28 | a free mutex is taken, the owner's count grows, anybody else waits at the end and the second in line runs |
| `SchedSteps.UnlockHandsOver` | src/kernel/mutex.c:30-51 | the last unlock frees the mutex or hands it to the first in line, who becomes ready while the caller keeps running |
| `SchedSteps.WaitTakesOrWaits` | src/kernel/sem.c:9-20 | a unit is taken, or the caller waits at the end and the second in line runs |
| `SchedSteps.NotifyGrants` | src/kernel/sem.c:22-36 | the first in line becomes ready, and the count grows only if there is none |
| `SchedSteps.ScanWakesInOrder` | src/kernel/task.c:306-319 | every sleeper has one tick less; those due join the ready list, those left stay, both in the order of the sleep list |
| `SchedSteps.RunKeepsTurn` | src/kernel/task.c:244-304 | in any run of fewer ticks than its slice has left, the running task keeps the processor unless it yields, sleeps, exits or blocks |
| `SchedSteps.FullTurn` | src/kernel/task.c:292-304 | a task that a tick put at the end has ten ticks when it runs again: it keeps the processor through any nine, and the tenth puts it at the end if it is not alone |
| `Lists.List.constructor` | src/kernel/lib/list.c:3-6 | an empty, well-linked list |
| `Lists.List.InsertFirst` | src/kernel/lib/list.c:8-20 | the links stand for the node followed by the old sequence |
| `Lists.List.InsertLast` | src/kernel/lib/list.c:22-34 | the links stand for the old sequence followed by the node |
| `Lists.List.DeleteFirst` | src/kernel/lib/list.c:37-56 | the head is returned unlinked, the rest stays; null on an empty list |
| `Lists.List.Delete` | src/kernel/lib/list.c:58-77 | the node is unlinked from any position, the others keep their order |
| `TaskKernel.Scheduler.MakeReady` | src/kernel/task.c:223-231 | the run node is appended to the ready list, except for idle |
| `TaskKernel.Scheduler.Block` | src/kernel/task.c:234-241 | the run node leaves the ready list |
| `TaskKernel.Scheduler.Begin` | src/kernel/task.c:133-140 | a created task becomes live and ready, as `Sched.Start` says |
| `TaskKernel.Scheduler.YieldCpu` | src/kernel/task.c:244-260 | the lists and the current task are those of `Sched.Yield`, which `SchedSteps.YieldRotates` spells out |
| `TaskKernel.Scheduler.NextToRun` | src/kernel/task.c:263-271 | the head of the ready list, or idle |
| `TaskKernel.Scheduler.Switch` | src/kernel/task.c:274-289 | the current task becomes the one to run next |
| `TaskKernel.Scheduler.TickHead` | src/kernel/task.c:292-304 | the slice counter and the rotation are those of `Sched.Tick`, which `SchedSteps.TickCounts` spells out |
| `TaskKernel.Scheduler.SleepFor` | src/kernel/task.c:323-343 | the lists and counters are those of `Sched.Sleep`, also below one tick |
| `TaskKernel.Scheduler.ExitCurrent` | src/kernel/task.c:673-678 | the caller becomes a zombie and leaves the ready list, and the next task runs, as `Sched.Exit` says |
| `TaskKernel.Scheduler.ScanSleepers` | src/kernel/task.c:306-319 | the loop that unlinks while it walks leaves exactly the sleepers with more than one tick, in order and decremented, and appends the rest to ready in sleep order |
| `SyncKernel.MutexObj.constructor` | src/kernel/mutex.c:5-9 | a free mutex |
| `SyncKernel.MutexObj.Acquire` | src/kernel/mutex.c:11-28 | owner, count and linked wait list change as `Sync.LockMutex` says, together with the scheduler's lists, and the wait list stays fit for the next call |
| `SyncKernel.MutexObj.Release` | src/kernel/mutex.c:30-51 | the same for `Sync.UnlockMutex`, with hand-over to the first waiter |
| `SyncKernel.SemObj.constructor` | src/kernel/sem.c:4-7 | a semaphore with the initial count |
| `SyncKernel.SemObj.Down` | src/kernel/sem.c:9-20 | count, wait list and scheduler change as a wait call, and the wait list stays fit for the next call |
| `SyncKernel.SemObj.Up` | src/kernel/sem.c:22-36 | count, wait list and scheduler change as a notify call, and the wait list stays fit for the next call |
| `Kernels.Kernel.constructor` | src/kernel/task.c:144-207 | the booted objects satisfy the scheduler's invariant |
| `Kernels.Kernel.CurrentRuns` | src/kernel/task.c:234-241 | the invariant puts the running task's run node on the ready list, as list_delete needs |
| `Kernels.Kernel.WaitOk` | src/kernel/mutex.c:11-51 | the invariant makes every wait list a list of wait nodes of tasks that are on no run list, the running task not among them |
| `Kernels.Kernel.Tick` | src/kernel/task.c:292-304 | the linked kernel takes the step of `Sched.Next`, spelled out by `SchedSteps.TickCounts`, and keeps the invariant |
| `Kernels.Kernel.Scan` | src/kernel/task.c:306-319 | the same for the rest of the timer interrupt |
| `Kernels.Kernel.Yield` | src/kernel/task.c:244-260 | the same for sys_yield, spelled out by `SchedSteps.YieldRotates` |
| `Kernels.Kernel.Sleep` | src/kernel/task.c:323-343 | the same for sys_sleep of a tick or more; below a tick the step is taken and no account of places satisfies the invariant any more |
| `Kernels.Kernel.Exit` | src/kernel/task.c:673-678 | the same for sys_exit |
| `Kernels.Kernel.StartTask` | src/kernel/task.c:133-140 | the same for task_start |
| `Kernels.Kernel.Lock` | src/kernel/mutex.c:11-28 | the same for mutex_lock on any of the mutexes, the other wait lists untouched |
| `Kernels.Kernel.Unlock` | src/kernel/mutex.c:30-51 | the same for mutex_unlock |
| `Kernels.Kernel.WaitFor` | src/kernel/sem.c:9-20 | the same for sem_wait |
| `Kernels.Kernel.Notify` | src/kernel/sem.c:22-36 | the same for sem_notify |
| `Fifo.TtyFifo.constructor` | src/kernel/dev/tty/tty.c:22-28 | an empty ring |
| `Fifo.TtyFifo.Get` | src/kernel/dev/tty/tty.c:30-44 | takes the oldest character, fails exactly on an empty ring |
| `Fifo.TtyFifo.Put` | src/kernel/dev/tty/tty.c:46-61 | appends, fails exactly on a full ring |
| `Tty.OpenedInv` | src/kernel/dev/tty/tty.c:63-83 | a freshly opened terminal satisfies the pipeline's invariant |
| `TtyProofs.StepKeepsInv` | src/kernel/dev/tty/tty.c:85-121 | every step of every writer keeps: count + permits + buffered + popped but not notified = 512, no failed put, one popper, order, and each queue exactly the tasks blocked on it |
| `TtyProofs.PipelineInvariant` | src/kernel/dev/tty/console.c:348-388 | the same over every interleaving of any number of writers |
| `TtyProofs.PermitMeansRoom` | src/kernel/dev/tty/tty.c:101-112 | a writer with a permit finds room in the buffer, so its put does not fail |
| `TtyLoads.CountIsFree` | src/kernel/dev/tty/tty.c:85-121 | the free permits are 512 minus what the writers have outstanding |
| `TtyLoads.PermitAvailable` | src/kernel/dev/tty/tty.c:101-108 | with at most 256 writers a writer about to wait finds a permit |
| `TtyLoads.WritersNeverBlock` | src/kernel/dev/tty/tty.c:85-121 | with at most 256 writers sem_wait never blocks, in any interleaving |
| `TtyStops.StuckMeansDone` | src/kernel/dev/tty/tty.c:85-121 | unless 512 of the texts contain a newline, a state in which nobody can move has everybody done: no deadlock and no lost wakeup |
| `TtyLoads.EverythingIsShown` | src/kernel/dev/tty/tty.c:85-121 | once all writers are done the console got every character in put order, and each writer's share is its whole text with newlines expanded |
| `TtyStops.StoppedRunIsShown` | src/kernel/dev/tty/tty.c:85-121 | unless 512 of the texts contain a newline, every run that cannot go on has shown each writer's whole text |
| `TtyStops.RunReached` | src/kernel/dev/tty/tty.c:85-121 | over every run a writer waiting for a place for anything but a newline has nothing in the buffer |
| `Screens.ScreenIsFeed` | src/kernel/dev/tty/console.c:348-388 | in every run the display is the linear terminal fed with the characters shown, in put order, for streams within the limits |
| `Screens.StoppedRunOnScreen` | src/kernel/dev/tty/console.c:348-388 | after a run that cannot go on the display is the cleared terminal fed with what was shown, of which each writer's part is its whole text |
| `Screens.PlainTextsOnScreen` | src/kernel/dev/tty/console.c:269-293 | for texts without ESC that holds in every interleaving, with nothing asked of the stream |
| `TtyDeadlock.WritersDeadlock` | src/kernel/dev/tty/tty.c:97-119 | for any texts of which 512 contain a newline there is a run after which nobody can move and somebody is not done |
| `TtyDeadlock.DeadlockIff` | src/kernel/dev/tty/tty.c:85-121 | over all texts: some run deadlocks if and only if at least 512 of the texts contain a newline |
| `TtyDeadlock.NewlinesDeadlock` | src/kernel/dev/tty/tty.c:100-108 | 512 writers of one newline each can deadlock |
| `Terminal.EmitStaysOnScreen` | src/kernel/dev/tty/console.c:269-346 | one character within the limits keeps both cursors on the screen |
| `Terminal.FeedStaysOnScreen` | src/kernel/dev/tty/console.c:348-388 | any stream within the limits leaves both cursors on the screen |
| `Terminal.TextLands` | src/kernel/dev/tty/console.c:97-109 | n printable characters fill exactly the next n cells |
| `Terminal.EraseUndoesChar` | src/kernel/dev/tty/console.c:111-117 | erase-back after a character returns the cursor and blanks that one cell, on the last cell after the screen has scrolled |
| `Sequences.NewlineFacts` | src/kernel/dev/tty/console.c:163-174 | a newline moves to column 0 of the next row; on the last row every line moves up and a blank one appears |
| `Sequences.PrintableFacts` | src/kernel/dev/tty/console.c:97-109 | a printable character fills the cell at the cursor, which moves on; on the last cell every line then moves up |
| `Sequences.ControlFacts` | src/kernel/dev/tty/console.c:269-293 | carriage return, backspace and delete act on the one cursor, and any other unprintable character does nothing |
| `Sequences.EscapeFacts` | src/kernel/dev/tty/console.c:295-315 | ESC 7 saves the cursor, ESC 8 goes to the saved one, and ESC with any other character but [ does nothing |
| `Sequences.RestoreReturns` | src/kernel/dev/tty/console.c:230-240 | saving, any text without ESC, and restoring leaves the cursor where it was |
| `Sequences.ParamsRead` | src/kernel/dev/tty/console.c:317-324 | one to ten decimal parameters separated by semicolons are read as the numbers they write, and the rest are 0 |
| `Sequences.ColumnMoves` | src/kernel/dev/tty/console.c:177-199 | ESC [ n D and ESC [ n C move n columns, or one for 0, left and right in the same row, stopping at the margins, and change nothing else |
| `Sequences.CursorPlaced` | src/kernel/dev/tty/console.c:242-251 | ESC [ r ; c H or f goes to that row and column, ESC [ r H to that row in the same column |
| `Sequences.ScreenErased` | src/kernel/dev/tty/console.c:253-264 | ESC [ 2 J blanks all cells in the current colours and homes the cursor, and another first parameter does nothing |
| `Sequences.ColoursSet` | src/kernel/dev/tty/console.c:207-226 | ESC [ .. m leaves each colour as the last parameter that sets it says, and changes nothing else |
| `Sequences.OthersIgnored` | src/kernel/dev/tty/console.c:317-346 | any other final character only ends the sequence |
| `Consoles.Console.constructor` | src/kernel/dev/tty/console.c:133-161 | a screen other than the first: cleared, both cursors at the origin |
| `Consoles.Console.Kept` | src/kernel/dev/tty/console.c:133-161 | the first screen: the display is kept and both cursors are where the hardware cursor is |
| `Consoles.Console.EraseRows` | src/kernel/dev/tty/console.c:40-51 | exactly the cells of the rows become blank |
| `Consoles.Console.CopyUp` | src/kernel/lib/klib.c:77-86 | the ascending overlapping copy is an exact shift |
| `Consoles.Console.ScrollUp` | src/kernel/dev/tty/console.c:53-63 | any number of lines up with as many blank last lines; the cursor moves one line |
| `Consoles.Console.Forward` | src/kernel/dev/tty/console.c:65-77 | n single steps of the linear position, scrolling at the end |
| `Consoles.Console.Backward` | src/kernel/dev/tty/console.c:79-95 | the linear position shrinks by n, stopping at the origin; -1 if it did not move |
| `Consoles.Console.ShowChar` | src/kernel/dev/tty/console.c:97-109 | the cell at the cursor gets the character and the cursor advances |
| `Consoles.Console.Rubout` | src/kernel/dev/tty/console.c:111-117 | the previous cell is blanked and the display never scrolls |
| `Consoles.Console.NextRow` | src/kernel/dev/tty/console.c:163-174 | start of the next line, scrolling at the end: `Terminal.NewLine`, pinned by `Sequences.NewlineFacts` |
| `Consoles.Console.SetFontStyle` | src/kernel/dev/tty/console.c:207-226 | the parameters act one after the other as SGR |
| `Consoles.Console.MoveLeft` | src/kernel/dev/tty/console.c:177-185 | CUB, stopping at the left margin |
| `Consoles.Console.MoveRight` | src/kernel/dev/tty/console.c:187-199 | CUF, stopping at the right margin |
| `Consoles.Console.MoveCursor` | src/kernel/dev/tty/console.c:242-251 | row and column become the parameters, whatever they are; the cursor is on the screen afterwards if and only if the parameters used are a position on it |
| `Consoles.Console.EraseInDisplay` | src/kernel/dev/tty/console.c:253-264 | ED 2 blanks the screen and homes the cursor, anything else or no parameter does nothing |
| `Consoles.Console.WriteNormal` | src/kernel/dev/tty/console.c:269-293 | rows and columns change as the linear terminal does, which `Sequences.NewlineFacts`, `PrintableFacts` and `ControlFacts` spell out |
| `Consoles.Console.WriteEsc` | src/kernel/dev/tty/console.c:295-315 | save, restore, start of a sequence, or back to normal |
| `Consoles.Console.WriteSquare` | src/kernel/dev/tty/console.c:317-346 | digits, separators and final characters as the linear terminal does (`Sequences.ParamsRead`, `ColumnMoves`, `CursorPlaced`, `ScreenErased`, `ColoursSet`); the console stays on its screen if and only if the sequence is within the limits |
| `Consoles.Console.WriteChar` | src/kernel/dev/tty/console.c:364-378 | any character in any state does what the linear terminal does, and both cursors stay on the screen if and only if the character is within the limits |
| `Consoles.Console.Drain` | src/kernel/dev/tty/console.c:348-388 | for a stream within the limits the ring is emptied, the terminal is fed its contents in order, and both cursors stay on the screen |
| `Consoles.CursorLeavesScreen` | src/kernel/dev/tty/console.c:242-251 | ESC [ 9 9 H puts the cursor of any console in row 99, outside the display |
| `Itoa.PrintThenParse` | src/kernel/lib/klib.c:112-142 | the text denotes the number if and only if it is nonnegative or the base is ten |
| `Itoa.NoLeadingZero` | src/kernel/lib/klib.c:112-142 | no leading zero except for zero itself |
| `Itoa.BackwardsReversed` | src/kernel/lib/klib.c:125-141 | the digits as produced, reversed, are the number's digits |
| `Itoa.NegativeHexIsWrong` | src/kernel/lib/klib.c:121-133 | -18 in base 16 prints as 21 without a sign |
| `Itoa.PutDigits` | src/kernel/lib/klib.c:125-129 | the mirrored table gives the digits of the absolute value, least significant first |
| `Itoa.ReverseRange` | src/kernel/lib/klib.c:133-141 | the swapping loop reverses the range and leaves the rest |
| `Itoa.KItoa` | src/kernel/lib/klib.c:112-142 | the buffer holds the text and its NUL for every 32-bit number, or an empty text for another base |

## Left out

- Port I/O, interrupt controller and timer set-up, descriptor tables, disk, keyboard, boot loader and assembly: hardware effects. Interrupt protection is step atomicity and a task switch is a change of the current task.
- ELF loading, sys_open, sys_read, the device, file and descriptor tables, syscall dispatch: short scans and plumbing that would only add easy members.
- sys_fork and task_uninit: they replace a directory without freeing it and free a stack by the wrong pointer, so frame conservation is stated for the operations of mem.c.
- memory_free_page for a user address: not called by the modelled code; the kernel-page case is `MemRuns.GivePage`.
- tty_read and the keyboard side of a terminal: a failed put is ignored there, so semaphore and buffer need not agree.
- klog, k_vsprint and the other string helpers; the shell and the C library headers.
- The allocator's mutex: each allocator call is one atomic method.
- The accessed and dirty bits that hardware sets in entries, and the translation cache: entries change only by the kernel's stores.
- Physical memory at or above 2 GB: managed frames lie below MEMORY_TASK_BASE, where the kernel reaches them at their own address; the kernel maps 128 MB.
- Heap.SbrkGrows: increments are nonnegative and the new end leaves the last page of the address space free; negative increments are excluded by the source's commented-out assertion.
- MemKernel.MemoryManager.Grow: the signed sum of offset and increment wraps around, as compiled code does where the language leaves it undefined.
- MemRuns.RunKeepsOwnership: memory_copy_uvm is called on the active directory, as sys_fork does.
- MemKernel.MemoryManager.CopyArguments: argv's pointers are given as a sequence, and the pointer table is word-aligned, as the stack layout makes it.
- MemKernel.MemoryManager.StringLength: a string without a NUL ends at the top of the address space instead of wrapping.
- TaskKernel.Scheduler.MakeReady: the state field of a task tells only created, live and exited tasks apart; running, ready and sleeping are told by the lists.
- Kernels.Kernel.StartTask: the tasks are those of a fixed table; creating and reusing task slots is not modelled.
- SchedProofs.StepKeepsInv: sleeps are of at least one tick; `SchedProofs.SleepKeepsTaskIff` says what happens below that.
- Tty.OpenedInv: the semaphore and the buffer hold 512, and every text is written with newline expansion on, as tty_open sets it.
- Consoles.Console.WriteSquare: at most ten parameters where they are used and no overflow of an int; outside these the source writes past an array or has no defined result.
- Consoles.Console.Drain: the stream is within the limits throughout; after the first sequence beyond them, which `Consoles.Console.WriteChar` covers, the source writes outside the display.
- Consoles.Console.CopyUp: display cells are copied whole, where the source copies their bytes in the same order.
- MapProofs.AllocFacts: one page, as every caller in the kernel asks for; `MemKernel.MemoryManager.AllocRange` covers other counts.
- Itoa.KItoa: the buffer is long enough for the text, as the source demands of its callers.
