# Verified model of the kernel's scheduler, address spaces and heap

This project models three parts of a small 32-bit x86 kernel and proves what they promise.

1. **Scheduler.** Tasks, the ready and sleep queues, semaphores and mutexes. `SchedModel` is the
   step machine: one step per public operation, since each runs between `enter_critical` and
   `leave_critical` and does nothing after `schedule()`. `StepLaws` says what each step does to the
   queues by positions; `SchedInv`, `Fairness`, `SleepRuns`, `SliceRuns`, `SemRuns`, `MutexRuns` and
   `WaitFrames` prove properties of all its runs. `LinkQueue` is the
   intrusive circular list on the heap, and `Kernel` (module `KernelHeap`) is the C code itself:
   objects, links and fields changed in place, each operation proved equal to its step.
2. **Pages.** `Bitmap`, `BitmapInit` and `PagePool` are the packed page bitmap. `PhysMem` is
   physical memory, an array of 2^32 bytes with little-endian words. `Paging` and `Spaces` say what
   an address space is: a directory, tables and pages, each in its own frame, that memory holds in
   the format of 32-bit paging (section 4.3 of the Intel 64 and IA-32 SDM, volume 3A); `Recycled`
   and `Growth` are the same for tables in frames that still hold what they held before, and `Flags`
   the flag bits of the entries written.
   `AddressSpace`, `Teardown` and `Fork` are the operations, in place on memory and bitmap,
   `MapSteps` the functions they are proved against, and `MemoryBoot` the state they start from.
   `VirtualMap`, `ForkExact`, `Lifecycle` and `UserCopy` say what they mean for a process, and
   `ForkWitness` is a scenario from power-on.
3. **Kernel heap.** `KmallocModel` is the heap as values, `KmallocHeaders` the packed 17-byte
   headers in memory, and `Kmalloc` the C code, write by write.

`Seqs` and `Frames` hold facts about sequences and about counting frames.

Check everything with `dafny verify dfyconfig.toml`.

## How to read the model

- `Enabled` and `Fine` say what the code asks of its callers and nothing else: the idle task does
  not block, a semaphore or mutex exists, a signed counter is not at its largest value (one more is
  undefined in C), a heap request does not wrap to an accepted total, and one that makes a new region
  finds a list that is not empty and leaves room for a second header (`KmallocModel.GrowthKeepsIff`).
- A wait queue is `SemQueue(i)` or `MutexQueue(i)`; `At(s, p, pl)` says that task `p` is linked into
  queue `pl`.
- `Snap` is physical memory with the set of pages marked used. `InPlace(s, sp)` says that every
  table and page of the space `sp` is present in memory, that the user half of its directory has
  no other table, that no frame is used twice and that all of them are marked used. Page tables
  are not cleared, so the other entries of a table may hold anything: a stale entry is a present
  one that the space has no page for. `Resident(s, sp)` says that those entries are all zero.
  Every operation asks for `InPlace` only.
- `Owned(sp)` is the set of frames of a space, `Structure(sp)` those the page walk reads. `AllocStep`
  and `CreateStep` are the new state and result of `alloc_vpages` and `create_pde`; `FreeFrames` is
  what `alloc_pages` can hand out, lowest first.
- Where the code falls short of what it seems to be for, the exact condition is proved, and an input
  on which it fails:

| what fails | exact condition | input |
|---|---|---|
| bitmap_init frees only usable pages | `BitmapInit.InitExactIff`, and `RegionExactIff` for one region | `BitmapInit.NarrowRegionSpills`: a region of two pages inside one byte of the map |
| its fills keep to the map | `BitmapInit.FitsMapIff` | `BitmapInit.HighRegionLeavesMap`: memory above 4 GiB |
| every usable page can be handed out | `BitmapInit.AllReachedIff` with `MemoryBoot.HandedOutIff`: each region ends within the total of all sizes | `BitmapInit.HoleCutsTheTop`: a hole that the table does not list; `FourGigabytesAreNone` |
| a semaphore owes each grant a notify | `SemRuns.SemGrantsExactly`: a count of at least zero | `SemRuns.NegativeCountGrantsEarly`: every negative count |
| a successful alloc_vpages has mapped all its pages | `MapSteps.SuccessMapsIff`: it was not refused, or they all were mapped before | `VirtualMap.HalfMappedRequest`: only the first page is mapped; `StaleWordRefuses`: a recycled word at the first entry; `RepeatedCall`: made once more after running out of memory |
| it maps nothing else | `VirtualMap.NothingElseIff`: the frame of a new table is below 4096 at the entries not written; `CallExactIff` for the space | `VirtualMap.DirtyTableMaps`: any word from 4096 up maps a page |
| it only adds to a space | `MapSteps.OnlyAddsIff`: refused, or no target page mapped | `VirtualMap.OverlappingRequest` with `MapSteps.OverwriteLeaks`: the mapped page's frame is leaked |
| its writes stay in the table | `VirtualMap.EntriesInTableIff` | `VirtualMap.CrossingRequest`; `MapSteps.CrossingOverwrites` is what then becomes of the frame behind |
| it covers the bytes asked for | `VirtualMap.CoversIff` | `VirtualMap.UnalignedRequest`: 4096 bytes from the middle of a page |
| a size of zero asks for nothing | never: `MapSteps.NoPagesTakesAll` | the same: it takes every free frame |
| a forked child maps what its parent maps | `ForkExact.CloneExactIff`: parent and recycled words reach alike | `ForkWitness.ForkAfterBoot`: a word left by a process that has exited |
| releasing a space gives back what it took, and no more | `Lifecycle.LifeOf`: no stale entry leads to a frame in use, and one leads to each frame lost by overwriting | `VirtualMap.OverlappingRequest` for the one half, `ForkWitness.ForkAfterBoot` for the other |
| the exit of a forked child restores the bitmap | `Lifecycle.ForkAndRelease`: no odd recycled word leads to a frame in use | `ForkWitness.ForkAfterBoot`: it frees a page of the parent |
| user copies reach the pages of the range | `UserCopy.LandsInPagesIff`: the range is mapped | `UserCopy.UnmappedWalk`: the walk answers with zero or an offset into page zero |
| an accepted heap request has room | `KmallocModel.TotalExactIff`: the sum did not wrap | `KmallocModel.WrappedRequest` |
| growth keeps the regions partitioned | `KmallocModel.GrowTilesIff` and `GrowthKeepsIff`: room for the rest's header | `KmallocModel.NoRoomRequest` |
| growth puts the rest on the list | `KmallocModel.GrowthKeepsIff`: the list is not empty | `KmallocModel.EmptyListRequest`; `Kmalloc.Allocator.ExtendEmpty` is what the code then writes |

- Comments and code disagree in `source/kernel/task.c`: the comment in `copy_from_user_n` gives user
  space as 1 to 4 GiB, but its signed comparison refuses everything from 2 GiB up; the comment in
  `copy_to_user_n` says 2 to 4 GiB, but it accepts 1 GiB and up. The second comparison in both can
  never be true. The model follows the code.

## Model

| member | source | states |
|---|---|---|
| SchedModel.WakeAll | source/kernel/task.c:142-153 | the walk over the sleep queue touches only tasks and queues, and the ready queue only grows at its tail |
| SchedInv.MoveKeeps | source/kernel/task.c:106-129 | moving a node keeps every task in exactly one queue and relocates that task alone |
| SchedInv.PickIsReady | source/kernel/sched.c:17-39 | the ready queue is never empty when the scheduler looks, and the task picked is a ready one: neither a queue head nor the idle fallback is ever returned |
| SchedInv.PickExact | source/kernel/sched.c:17-39 | a running task is followed by the one behind it in the ready queue, the last by the first; a task that runs no more by the first |
| SchedInv.WakeAllKeeps | source/kernel/task.c:142-153 | waking any number of sleepers during the walk keeps the queues exact |
| SchedInv.TickUnscheduled | source/kernel/task.c:132-157 | a tick schedules from a state with the running task ready and new arrivals only behind it |
| SchedInv.HandOffUnscheduled | source/kernel/ipc.c:93-110 | a full release makes the first waiter ready and owner before it schedules |
| SchedInv.StepKeepsInv | source/kernel/task.c:97-178 | every operation keeps the global invariant: each task in exactly one queue, once, in the state the queue means; counters and wait queues agree; an owner exists exactly while locked |
| SchedInv.Boot | source/kernel/init.c:47-60 | the state after boot meets the invariant: tasks 0 and 1 ready in this order with slices of 10, the idle task running |
| SchedInv.Run | source/kernel/ipc.c:20-114 | every possible run ends in a state that meets the invariant |
| SchedInv.ReachableQueues | source/kernel/task.c:97-178 | in every state a booted kernel can reach, a task is linked into ready, sleep or a wait queue exactly when it is running, asleep or waiting, and into only one; running task and idle task are ready |
| Fairness.StepFalls | source/kernel/sched.c:17-39 | every scheduling decision that does not pick a given ready task lowers position times n plus scan distance, and nothing else raises it |
| Fairness.RunsWithin | source/kernel/sched.c:17-39 | a ready task runs before the scheduler has decided more often than the measure |
| Fairness.BoundedWaiting | source/kernel/sched.c:17-39 | with at most n tasks, a ready task becomes the running one within n*n - 1 decisions, over every interleaving of every operation |
| SleepRuns.WakeAllExact | source/kernel/task.c:142-153 | although the list changes under the walk, it leaves the sleepers with time left in order and appends the woken ones to ready in sleep order |
| SleepRuns.TickWoken | source/kernel/task.c:132-157 | the same, for the walk inside a tick |
| SleepRuns.TickExact | source/kernel/task.c:132-157 | one tick, by the position of the running task: from its last tick it goes behind all other ready tasks with a slice of 10, else it stays with one less; then come the sleepers in their last tick, in order; the others stay asleep in order; whoever then follows the running task runs, and nothing else changes |
| SleepRuns.SleeperWakesExactly | source/kernel/task.c:132-157 | over any run, a sleeper with k ticks left stays asleep for k - 1 ticks and is ready after the k-th |
| SleepRuns.SleepIsExact | source/kernel/task.c:172-178 | sys_sleep(ms) of at least ten milliseconds wakes its caller on exactly tick ms/10 |
| StepLaws.YieldExact | source/kernel/task.c:160-169 | a yield puts the running task behind all other ready tasks, and the first of them runs; nothing else changes |
| StepLaws.SleepExact | source/kernel/task.c:172-178 | with ten milliseconds or more the caller goes to the tail of the sleep queue with ms/10 ticks and the first ready task runs; with less the next task runs and nobody sleeps |
| StepLaws.SemWaitExact | source/kernel/ipc.c:20-37 | a wait takes one off a positive count, or puts the caller at the tail of the wait queue and runs the first ready task |
| StepLaws.SemNotifyExact | source/kernel/ipc.c:39-58 | a notify puts the first waiter at the ready tail and goes on to whoever follows the caller, or adds one to the count |
| StepLaws.MutexLockExact | source/kernel/ipc.c:67-86 | a lock is taken, taken once more, or waited for at the tail of its queue |
| StepLaws.MutexUnlockExact | source/kernel/ipc.c:88-114 | an unlock is ignored, counts down, gives the mutex up, or hands it to the first waiter, locked once, at the ready tail |
| SliceRuns.SliceCounts | source/kernel/task.c:132-140 | after any run the slice of a task is 10 less the ticks it was charged, modulo ten |
| SliceRuns.TenthTickMoves | source/kernel/task.c:132-140 | over any run the ticks that find a task running move it to the ready tail exactly when they make up, with those charged before, a multiple of ten |
| SliceRuns.EveryTenthTick | source/kernel/task.c:132-140 | from its creation on a task is moved by every tenth tick charged to it and by no other |
| SliceRuns.SpawnExact | source/kernel/task.c:63-103 | a new task is the last ready one with a slice of 10; nothing else changes |
| SemRuns.SemStep | source/kernel/ipc.c:20-58 | one operation keeps the books of a semaphore |
| SemRuns.SemConservation | source/kernel/ipc.c:14-58 | over any run waiters are granted in arrival order, grants and the count balance notifies, and a positive count means nobody waits |
| SemRuns.SemGrantsExactly | source/kernel/ipc.c:14-58 | with an initial count of at least zero, exactly the first count + notifies waits are granted: none is lost and none invented |
| SemRuns.NegativeCountGrantsEarly | source/kernel/ipc.c:14-58 | with a negative initial count one wait and one notify already grant |
| SemRuns.InitStep | source/kernel/ipc.c:14-18 | a new semaphore has the count given and no waiters; nothing else changes |
| MutexRuns.MutexStep | source/kernel/ipc.c:67-114 | what one operation does to owner, lock_times and waiters |
| MutexRuns.LockTimesExact | source/kernel/ipc.c:60-114 | over any run lock_times is the owner's locks minus its unlocks, it is positive exactly when there is an owner, and waiters mean a held lock |
| MutexRuns.MutexIsFifo | source/kernel/ipc.c:67-114 | over any run the tasks that acquire the mutex are, in order, those that asked for it |
| MutexRuns.WaiterOwnsInTurn | source/kernel/ipc.c:88-114 | the waiter at position k becomes owner at exactly the (k+1)-th full release |
| MutexRuns.ResumesAsOwner | source/kernel/ipc.c:67-86 | a waiting task that runs again owns the mutex, locked once |
| MutexRuns.BlockedLockResumesAsOwner | source/kernel/ipc.c:67-86 | a mutex_lock that blocks returns only to the owner |
| MutexRuns.InitStep | source/kernel/ipc.c:60-65 | a new mutex is free with no owner and no waiters; nothing else changes |
| MutexRuns.NewMutexCounts | source/kernel/ipc.c:60-114 | from mutex_init on, over any run, the locks a task holds are its granted locks minus its unlocks alone, and the mutex is acquired in the order of the requests |
| MutexRuns.FirstLockAcquires | source/kernel/ipc.c:60-86 | the first lock after mutex_init is granted at once, whoever asks and whatever came before, and changes nothing else |
| WaitFrames.OthersSame | source/kernel/ipc.c:20-114 | operations on one semaphore or mutex leave every other one and its waiters alone |
| WaitFrames.ReleaseTakesFirst | source/kernel/ipc.c:45-54 | a wake-up takes the first waiter and no other |
| LinkQueue.QueueEmpty | source/include/queue.h:19-21 | the test on the links answers whether the list is empty |
| LinkQueue.QueueInsertHead | source/lib/queue.c:10-17 | prepends to the list of that head; every other list on the heap is unchanged |
| LinkQueue.QueueInsertTail | source/lib/queue.c:20-27 | appends; every other list is unchanged |
| LinkQueue.QueueRemove | source/lib/queue.c:30-38 | takes the node out of whichever list holds it and leaves it linked to itself; every other list is unchanged |
| LinkQueue.Requeue | source/kernel/task.c:138-139 | remove then insert moves one node to the tail of another list |
| KernelHeap.Kernel.constructor | source/kernel/init.c:47-60 | the objects after boot represent the boot state |
| KernelHeap.Kernel.PickNextTask | source/kernel/sched.c:17-39 | following the links yields the task the model picks |
| KernelHeap.Kernel.ScheduleNext | source/kernel/sched.c:73-88 | the running task becomes the one picked |
| KernelHeap.Kernel.TaskSleep | source/kernel/task.c:106-119 | sets the counter and moves the node to the sleep queue |
| KernelHeap.Kernel.TaskWakeup | source/kernel/task.c:122-129 | moves the node from the sleep queue to the ready tail |
| KernelHeap.Kernel.TaskTick | source/kernel/task.c:132-157 | on the heap, with the list changing under iteration, equals the model's tick, which `TickExact` explains |
| KernelHeap.Kernel.TaskYield | source/kernel/task.c:160-169 | equals the model's yield, which `YieldExact` explains |
| KernelHeap.Kernel.SysSleep | source/kernel/task.c:172-178 | equals the model's sleep |
| KernelHeap.Kernel.SemWait | source/kernel/ipc.c:20-37 | equals the model's wait |
| KernelHeap.Kernel.SemNotify | source/kernel/ipc.c:39-58 | equals the model's notify |
| KernelHeap.Kernel.MutexLock | source/kernel/ipc.c:67-86 | equals the model's lock |
| KernelHeap.Kernel.MutexUnlock | source/kernel/ipc.c:88-114 | equals the model's unlock with its hand-over |
| KernelHeap.Kernel.NewSemaphore | source/kernel/ipc.c:14-18 | equals the model's initialisation |
| KernelHeap.Kernel.NewMutex | source/kernel/ipc.c:60-65 | equals the model's initialisation, which leaves the mutex free (`MutexRuns.InitStep`) |
| KernelHeap.Kernel.Spawn | source/kernel/task.c:63-103 | a new task is queued at the ready tail |
| Bitmap.PutBitExact | source/mm/bitmap.c:33-37 | or-ing or masking one bit of a byte changes that bit only |
| Bitmap.StoreBit | source/mm/bitmap.c:23-46 | storing that byte changes one bit of the whole map |
| Bitmap.FirstFit | source/mm/bitmap.c:116-135 | the least free run below the limit, or -1 exactly when there is none |
| Bitmap.FirstFitUnique | source/mm/bitmap.c:116-135 | whatever is a least free run is that one |
| Bitmap.BitMap.SetBytes | source/mm/bitmap.c:13-20 | sets or clears whole bytes and no other bit |
| Bitmap.BitMap.SetBits | source/mm/bitmap.c:23-46 | writes exactly count consecutive bits, upwards or downwards (at least one: it is a do-while) |
| Bitmap.BitMap.GetBit | source/mm/bitmap.c:49-52 | reads the bit of a page |
| Bitmap.BitMap.AllocBits | source/mm/bitmap.c:116-135 | returns the least run of count clear bits and sets exactly those; -1 with nothing changed exactly when there is none |
| Bitmap.BitMap.FreeBits | source/mm/bitmap.c:137-141 | clears exactly the bits of count pages |
| BitmapInit.ClearRegion | source/mm/bitmap.c:82-107 | the upward, middle and downward fills of one region clear exactly the pages `Clears` names |
| BitmapInit.Init | source/mm/bitmap.c:55-114 | afterwards a bit is clear exactly when some scanned region clears it; the length covers the 32-bit total of all sizes, and not a page more, if and only if the total plus 4095 fits 32 bits, and is zero otherwise |
| BitmapInit.RegionExactIff | source/mm/bitmap.c:82-107 | the fills clear exactly the wholly usable pages of a region if and only if the region reaches a byte boundary of the map |
| BitmapInit.UsableNeverLost | source/mm/bitmap.c:55-114 | whatever the table, no wholly usable page stays marked used |
| BitmapInit.InitExact | source/mm/bitmap.c:55-114 | for tables whose counted regions reach a byte boundary, a page is free exactly when it lies wholly in a scanned usable region above the kernel |
| BitmapInit.InitExactIff | source/mm/bitmap.c:55-114 | for every table, the free pages are exactly the wholly usable ones if and only if each page some region overreaches to is wholly usable in another |
| BitmapInit.NarrowRegionSpills | source/mm/bitmap.c:90-107 | a region of two pages inside one byte frees the whole byte's pages |
| BitmapInit.FitsMapIff | source/mm/bitmap.c:82-107 | the fills of a region keep to the map if and only if each is empty or ends at 4 GiB; a region that ends within 4 GiB always does |
| BitmapInit.HighRegionLeavesMap | source/mm/bitmap.c:82-107 | a region above 4 GiB clears pages that the map has no byte for |
| BitmapInit.AllReachedIff | source/mm/bitmap.c:113 | every wholly usable page lies below the map's length if and only if each scanned region with a whole page ends there |
| BitmapInit.HoleCutsTheTop | source/mm/bitmap.c:60-113 | a machine of 128 MiB with an unlisted hole: 80 usable pages at the top are never handed out |
| BitmapInit.PartOfAPageCounts | source/mm/bitmap.c:60-113 | a total of 0x7F9FC00 bytes gives a length of 0x7FA0, and 96 usable pages at the top are never handed out |
| BitmapInit.FourGigabytesAreNone | source/mm/bitmap.c:60-113 | a total of exactly 4 GiB, or one that rounds up to it, makes the length zero |
| BitmapInit.KernelReserved | source/include/bitmap.h:14 | no page below 0x600000, so neither page zero nor the kernel's page directory, is ever freed |
| MemoryBoot.BootMemory | source/mm/bitmap.c:55-114 | after bitmap_init the machine and the page pool meet the invariants everything else starts from |
| MemoryBoot.HandedOutIff | source/mm/page.c:23-36 | a free page is handed out by some number of calls of alloc_pages(1) if and only if it lies below the map's length |
| PagePool.AllocPages | source/mm/page.c:23-36 | a run's address, or zero when there is none |
| PagePool.FreePages | source/mm/page.c:39-44 | exactly the pages of the run become free |
| PagePool.TakeKeeps | source/mm/page.c:23-36 | a new extent is disjoint from the live ones and from the reserved pages and lies in [1, nbits) |
| PagePool.GiveKeeps | source/mm/page.c:39-44 | freeing an extent leaves exactly the others in use |
| PagePool.PoolRunKeeps | source/mm/page.c:23-44 | over every run of allocations and matching frees, the set bits are exactly the reserved pages and the live extents; when none is live the bitmap is as at the start |
| PagePool.TakeGiveRestores | source/mm/page.c:23-44 | freeing right after allocating restores the bitmap |
| PhysMem.KMemset | source/lib/string.c:9-19 | fills exactly the range; a null pointer or a size that is not positive does nothing |
| PhysMem.KMemcpy | source/lib/string.c:21-33 | copies byte by byte from the lowest; a null pointer or a size that is not positive does nothing |
| PhysMem.CopyDisjoint | source/lib/string.c:21-33 | between ranges that do not overlap, that is a copy |
| Paging.Indices | source/include/page.h:105-115 | directory and table index are quotient and remainder of the page number, and align_down with the offset gives the address back |
| Paging.MapsSame | source/mm/page.c:47-82 | writes outside a space's tables keep it |
| Paging.InMemorySame | source/mm/page.c:47-82 | the same whatever its other entries hold |
| Paging.WalkLeads | source/kernel/task.c:180-194 | the page walk finds every page of the space, whatever else its tables hold |
| Paging.WalkElsewhere | source/kernel/task.c:180-194 | on every other page with a table it answers with what the entry holds, and without a table with zero |
| Paging.WalkFinds | source/kernel/task.c:180-194 | the page walk finds every page of the space |
| Paging.InMemoryMapped | source/kernel/task.c:180-194 | the page walk translates a user address past page zero if and only if the space has its page or the entry holds a word that leads there |
| Paging.MappedExactly | source/kernel/task.c:180-194 | when those words are zero, exactly when the space has its page |
| Paging.WalkSame | source/kernel/task.c:180-194 | writes outside a space's tables leave every user translation the same |
| Spaces.AddTableMaps | source/mm/page.c:53-61 | entering a frame that reads as zero adds an empty table |
| Spaces.AddTableMapsIff | source/mm/page.c:53-61 | it does so if and only if the frame reads as zero |
| Spaces.AddPageMaps | source/mm/page.c:70-78 | writing an empty entry maps that page and changes no other |
| Growth.EnterPage | source/mm/page.c:70-78 | with the bitmap: entering a page, mapped before or not, gives it a frame that was free and gives up the one it had; the entries without a page are as before |
| Recycled.CarriesMapsIff | source/mm/page.c:53-61 | tables in recycled frames are exactly the space if and only if the frames were zero where the space has no page |
| Recycled.CarriesMapped | source/kernel/task.c:180-194 | with such tables the page walk translates an address if and only if the space has its page or the stale word leads past page zero |
| Growth.GrowTable | source/mm/page.c:53-61 | with the bitmap: a new table is one frame gained, which was free, and its entries hold what the frame held |
| Growth.GrowPage | source/mm/page.c:70-78 | any number of pages entered one after the other: the space gained frames that were free and gave up those it overwrote |
| Frames.OwnedCount | source/mm/page.c:47-82 | a space owns one frame per table and page, and its directory |
| Frames.GainedCount | source/mm/page.c:47-82 | frames gained were free, and are all that were once memory is exhausted |
| MapSteps.AllocMeaning | source/mm/page.c:47-82 | what one call comes to, whatever the frames hold: as many of the pages asked for as there are frames are entered, with frames that were free; pages mapped before give up theirs; it succeeds exactly when it is refused or there are enough frames |
| MapSteps.OverwriteLeaks | source/mm/page.c:70-78 | the frame of an overwritten page stays marked used and is in the space no more; nothing else is given up |
| MapSteps.OnlyAddsIff | source/mm/page.c:47-82 | a call only adds to the space if and only if it is refused or no page it enters was mapped |
| MapSteps.SuccessMapsIff | source/mm/page.c:66-81 | after a call that reports success all pages asked for are in the space if and only if it was not refused or they all were in it before |
| MapSteps.RawIsStep | source/mm/page.c:47-82 | a request that keeps within one table writes the entries of its pages in order |
| MapSteps.RawWrites | source/mm/page.c:70-78 | the loop, wherever its entries lie: the k-th one leads to the k-th free frame with the flags 0x227, no other byte changes, and it runs out of memory exactly when there are fewer frames than rounds |
| MapSteps.CrossingOverwrites | source/mm/page.c:70-78 | the entries past the end of a table are the first words of the frame behind it |
| MapSteps.NoPagesTakesAll | source/mm/page.c:51-78 | a size that counts as no page, such as zero, takes every free frame and reports failure |
| Flags.CallFlags | source/mm/page.c:60-76 | after any call the entry of each page entered, and the directory entry of a table made, reads its frame with the flags 0x227: present, writable, user, accessed, copy-on-write, not dirty |
| AddressSpace.Machine.TableFor | source/mm/page.c:53-64 | the table of a slot, made when the slot is empty, whatever its frame held |
| AddressSpace.Machine.FindEntry | source/mm/page.c:49-68 | where the first entry lies, and that the call is refused exactly when the word there is present and clean, be it an entry or what a recycled frame held |
| AddressSpace.Machine.MapPage | source/mm/page.c:70-76 | the next free frame is entered at an address, whatever was there |
| AddressSpace.Machine.EnterAll | source/mm/page.c:70-78 | the do-while equals the recursive reference, also for a count of zero |
| AddressSpace.Machine.AllocVpages | source/mm/page.c:47-82 | memory, bitmap and result are those of `RawStep` for every request and whatever the frames hold; within one table those of `AllocStep`, which mean what `AllocMeaning` says |
| AddressSpace.CreateMeaning | source/mm/page.c:119-143 | the lowest free frame with the kernel half copied and an empty user half, or zero with nothing changed exactly when no frame is free |
| AddressSpace.Machine.CreatePde | source/mm/page.c:119-143 | memory, bitmap and result are those of `CreateStep` |
| AddressSpace.Machine.Translate | source/kernel/task.c:180-194 | the page walk on memory |
| VirtualMap.CallMeaning | source/mm/page.c:47-82 | by the page walk, for every user address and whatever the frames hold: the entered pages lead to frames that were free; in a new table an address not entered is mapped exactly when the recycled word leads past page zero; every other translation is unchanged, and its byte but in page tables |
| VirtualMap.NothingElseIff | source/mm/page.c:53-61 | nothing but the entered pages becomes mapped if and only if the frame of a new table is below 4096 at the entries not written |
| VirtualMap.CallExactIff | source/mm/page.c:47-82 | a call keeps the space exactly in memory if and only if those words are zero |
| VirtualMap.RefusedEntersNothing | source/mm/page.c:66-68 | a refused request reports success and leaves the pages as they are |
| VirtualMap.RepeatedCall | source/mm/page.c:47-82 | making a request once more, for any number of pages in that table, changes neither memory nor bitmap nor space; it returns 0 exactly when the first call did or had entered a page, and -9 otherwise |
| VirtualMap.ReenteredIff | source/mm/page.c:66-78 | a request whose first page is mapped enters pages if and only if bit 6 of its entry is set and a frame is free |
| VirtualMap.HalfMappedRequest | source/mm/page.c:66-68 | two pages of which only the first is mapped: success, and the second is not mapped |
| VirtualMap.StaleWordRefuses | source/mm/page.c:53-68 | a present clean word in the recycled frame: success, a frame taken, and no page entered |
| VirtualMap.PagesDistinct | source/mm/page.c:47-82 | different addresses translate to different physical bytes |
| VirtualMap.EntriesInTableIff | source/mm/page.c:63-78 | the entries written stay in the table if and only if index + count is at most 1024 |
| VirtualMap.CrossingRequest | source/mm/page.c:70-78 | two pages from the last entry of a table: the second entry lies in the frame behind it |
| VirtualMap.CoversIff | source/mm/page.c:51 | the pages entered cover the bytes asked for if and only if they fit with the offset of the first in its page |
| VirtualMap.CountExact | source/mm/page.c:51 | the pages counted for a size are the least that hold as many bytes |
| VirtualMap.RoundsExact | source/mm/page.c:51-78 | in 32 bits the loop runs as often, but through all 32-bit integers if and only if the size is zero or above 0xFFFFF000 |
| VirtualMap.UnalignedRequest | source/kernel/task.c:196-202 | a segment of 4096 bytes at an unaligned address lies in two pages and gets one |
| VirtualMap.OverlappingRequest | source/mm/page.c:66-78 | a request that starts on an unmapped page and reaches a mapped one loses exactly that page's frame |
| VirtualMap.DirtyTableMaps | source/mm/page.c:53-61 | a frame linked as a table maps a page for each word from 4096 up that it held |
| VirtualMap.ExecveStack | source/kernel/task.c:595 | the stack request of sys_execve meets that bound exactly, at slot 1023, entries 523 to 1023 |
| Teardown.DestroyPde | source/mm/page.c:146-171 | frees every frame of the space and every frame that a stale entry leads to, be it in use elsewhere, nothing else; writes only its tables, where the user half of the directory and each present entry then read zero and all others are unchanged |
| Fork.ClonePage | source/kernel/task.c:498-513 | what one present entry leads to is copied to a frame that was free, the next in order; it fails exactly when the entry is there and no frame is free |
| Fork.CloneTable | source/kernel/task.c:483-514 | one table copied with its pages, or out of memory at a page that is missing |
| Fork.DistoryMemory | source/kernel/task.c:455-475 | what it frees: the frames behind the odd words at the first table's entry, taken with its flags for an address, and no byte is written |
| Fork.MisfreedExact | source/kernel/task.c:455-475 | in a partial child with its first table in frame t for slot i they are the frames behind the odd words i to 1023 behind address t * 4096 + 0x227, none of them aligned |
| Fork.CopyMemory | source/kernel/task.c:477-517 | the child gets the parent's tables and a page for each present entry in frames of its own, taken in order, all its entries with the flags 0x227; it succeeds exactly when there is a free frame for each; otherwise all frames that were free hold part of a copy, less those that distory_memory frees |
| Fork.ForkIsolation | source/kernel/task.c:477-517 | whatever the free frames held: each address whose entry in the parent leads to a settled frame translates in the child to the same byte, in a frame that was free; the parent's translations are all unchanged, and those bytes |
| Fork.PagesInherit | source/kernel/task.c:477-517 | so it is for every page of the parent's space |
| Fork.MappedInherit | source/kernel/task.c:477-517 | and for every address a parent maps that has no stale entries |
| Fork.ChildPagesDistinct | source/kernel/task.c:477-517 | different pages of the child lie in different frames |
| ForkExact.ChildMaps | source/kernel/task.c:477-517 | the child maps an address if and only if the parent's entry is present, or the recycled word of its page leads past page zero |
| ForkExact.CloneExactIff | source/kernel/task.c:477-517 | the child's space is exactly in memory if and only if the frames that first fit picks for its tables are zero wherever the parent has no present entry; the mapped addresses are the same if and only if parent and recycled words reach alike, which for a parent without stale entries is that the recycled ones are below 4096 |
| ForkExact.RecycledStale | source/kernel/task.c:483-514 | the child's stale entries lead to the frames behind the odd recycled words |
| ForkExact.StaleEntryPossible | source/kernel/task.c:483-497 | for every parent with a table that is not full some content of a free frame makes the child map more |
| ForkExact.DirtyAfterExit | source/mm/page.c:146-171 | a process that leaves one non-zero word in a page leaves a free frame that is not zero |
| ForkExact.ForkAfterExit | source/kernel/task.c:477-517 | destroy_pde of one process, then create_pde and copy_memory for another: when the first one's data lies in the frame taken for a table, the child maps a page its parent does not |
| ForkWitness.FreshMap | source/mm/page.c:47-82 | on a machine with zeroed free frames a request gets the next frames in order |
| ForkWitness.LeaveData | source/kernel/task.c:327-347 | a process receives a word at an address of its second page |
| ForkWitness.ForkAfterBoot | source/kernel/task.c:477-517 | from bitmap_init on zeroed memory through create_pde, alloc_vpages, copy_to_user and destroy_pde: the child maps a page that its parent does not, and its exit frees a page that its parent maps |
| Lifecycle.BuiltMapped | source/mm/page.c:47-82 | a call of alloc_vpages, successful, refused or out of memory, keeps the account of frames: what is used was used before, is the space's, or was lost by overwriting; stale entries hold what their frames held at the start |
| Lifecycle.LeaksNothingIff | source/mm/page.c:47-82 | a run of calls loses no frame if and only if each is refused or enters only pages that are not mapped |
| Lifecycle.Released | source/mm/page.c:146-171 | after the release the bitmap is as before, with the lost frames used and those behind stale entries free; it is restored if and only if the latter were not in use and include the former |
| Lifecycle.ReleasedTables | source/mm/page.c:146-171 | no entry of a released table is present, and when memory held exactly the space its table frames read as zero |
| Lifecycle.ReleasedTableAgain | source/mm/page.c:47-171 | so a later call that makes one of them a table is not refused and has mapped all its pages if it succeeds; when memory held exactly the released space it maps nothing else and keeps the new space exact |
| Lifecycle.MapAndRelease | source/mm/page.c:47-171 | so it is for create_pde, any run of alloc_vpages calls, repeated, refused or out of memory, and destroy_pde, whatever the free frames held; no frame in use before is written |
| Lifecycle.ForkAndRelease | source/kernel/task.c:477-517 | create_pde, copy_memory and destroy_pde succeed exactly when there is a frame for the directory, each table and each present entry; the bitmap then lacks the frames behind odd recycled words, so it is restored if and only if none was in use, and the parent keeps its frames if and only if none was its own |
| UserCopy.ChunkTo | source/kernel/task.c:334-344 | one chunk, which does not cross a page, is its bytes one at a time |
| UserCopy.ChunkFrom | source/kernel/task.c:306-316 | the same for reading |
| UserCopy.UnmappedWalk | source/kernel/task.c:180-194 | on a page of the range that is not mapped the walk answers with zero, or with the offset when there is a table |
| UserCopy.LandToByte | source/kernel/task.c:327-347 | each byte of the buffer is at the place where it lands, for any range |
| UserCopy.LandToElsewhere | source/kernel/task.c:327-347 | and every byte of memory where none lands is unchanged |
| UserCopy.LandsInPagesIff | source/kernel/task.c:327-347 | every byte lands in a page of the space if and only if the range is mapped |
| UserCopy.LandToIsFlat | source/kernel/task.c:327-347 | over a mapped range the bytes land where the page walk leads |
| UserCopy.WriteExact | source/kernel/task.c:327-347 | a write puts the buffer's bytes at the translations of its range, in order, and leaves every other byte of memory alone |
| UserCopy.LandFromByte | source/kernel/task.c:299-319 | a read puts into the buffer, in order, the bytes from where they land; a byte that lands nowhere leaves the buffer as it was |
| UserCopy.CopyToUserN | source/kernel/task.c:327-347 | the page-chunked loop equals the byte-by-byte copy to where each byte lands, mapped or not; over a mapped range that is the copy through the page walk; -1 exactly below 1 GiB |
| UserCopy.CopyFromUserN | source/kernel/task.c:299-319 | the same for reading; -1 exactly outside [1 GiB, 2 GiB) |
| UserCopy.RoundTrip | source/kernel/task.c:299-347 | writing then reading back gives the original bytes |
| UserCopy.WriteThenRead | source/kernel/task.c:299-347 | the two calls in a row are accepted exactly from 1 GiB and below 2 GiB and then, over a mapped range, return the bytes written |
| UserCopy.ForkedWritesStayApart | source/kernel/task.c:477-517 | what a forked child writes to the pages it was given the parent never reads |
| KmallocModel.TotalExactIff | source/mm/memory.c:28-37 | an accepted request gets room for header and payload exactly when the sum did not wrap |
| KmallocModel.WrappedRequest | source/mm/memory.c:28-37 | a request of 0xFFFFFFF7 bytes is accepted with a total smaller than a header |
| KmallocModel.FitIndex | source/mm/memory.c:39-77 | the first block on the list that is large enough, with all before it too small |
| KmallocModel.SplitTiles | source/mm/memory.c:46-59 | cutting a free block keeps the partition of the regions |
| KmallocModel.TakeKeeps | source/mm/memory.c:61-73 | taking a block off the list keeps partition and list exact |
| KmallocModel.GrowKeeps | source/mm/memory.c:79-102 | a new region cut in two keeps partition and list exact |
| KmallocModel.GrowTilesIff | source/mm/memory.c:84-102 | a new region is partitioned if and only if the rest has room for a header |
| KmallocModel.FreshInv | source/mm/memory.c:14-25 | mem_init establishes the invariant |
| KmallocModel.StepKeeps | source/mm/memory.c:28-105 | every request keeps it: headers and payloads partition every 32 KiB region, and the list holds exactly the free blocks, each once |
| KmallocModel.StepGrants | source/mm/memory.c:28-105 | a success is a block that was not allocated with at least the bytes asked for; all that is allocated stays; it fails exactly when the size is refused or nothing fits and no region can be had, with nothing changed |
| KmallocModel.FromListExact | source/mm/memory.c:39-77 | a request of n bytes gets the first free block of at least n + 17 bytes; the block is cut exactly when more than n + 34 bytes long, and the rest takes its place on the list |
| KmallocModel.FromRegionExact | source/mm/memory.c:79-104 | when no block fits, eight pages in a row become a block of n + 17 bytes and a last free block of the rest of 32768 |
| KmallocModel.RunGrantsApart | source/mm/memory.c:28-105 | over any run no two payloads overlap, each lies behind a header inside one region, and the invariant holds at the end |
| KmallocModel.GrowthKeepsIff | source/mm/memory.c:79-104 | a request that makes a region leaves the regions partitioned and exactly the free blocks on the list if and only if the list is not empty and the rest has room for a header |
| KmallocModel.EmptyListRequest | source/mm/memory.c:28-105 | right after mem_init a request of 32751 bytes empties the list, and every later request that makes a region finds no list |
| KmallocModel.NoRoomRequest | source/mm/memory.c:28-105 | right after mem_init requests of 100 and 32740 bytes put a header behind the region |
| KmallocHeaders.WordPut | source/include/memory.h:19-26 | storing one field of one header changes that field of that header only |
| KmallocHeaders.BlockBytes | source/include/memory.h:11-26 | in memory a block starts with 0xAA99BB88 or, if free, 0x88BB99AA, then its size, and at byte 8 whether it heads its region |
| KmallocHeaders.LinkBytes | source/include/memory.h:19-26 | at bytes 9 and 13 of a free block are the free blocks before and behind it, zero for none |
| KmallocHeaders.SplitRecorded | source/mm/memory.c:46-59 | the links and fields written by a cut represent the new heap |
| KmallocHeaders.TakeRecorded | source/mm/memory.c:61-73 | so do those written when a block leaves the list |
| KmallocHeaders.GrowRecorded | source/mm/memory.c:84-102 | so do those written for a new region |
| Kmalloc.Allocator.constructor | source/mm/memory.c:14-25 | memory holds one free block of a whole region |
| Kmalloc.Allocator.Find | source/mm/memory.c:39-77 | following the links finds the first fit |
| Kmalloc.Allocator.Cut | source/mm/memory.c:46-59 | equals the model's split |
| Kmalloc.Allocator.Unlink | source/mm/memory.c:61-73 | equals the model's removal |
| Kmalloc.Allocator.Extend | source/mm/memory.c:79-102 | equals the model's growth |
| Kmalloc.Allocator.ExtendEmpty | source/mm/memory.c:84-102 | with an empty list, write by write: the region is partitioned, the list head stays null and the rest is free and on no list |
| Kmalloc.Allocator.KMalloc | source/mm/memory.c:28-105 | pointer, heap and bitmap are the model's; only headers are written, and no allocated payload changes |

## Left out

- BitmapInit.Init: a counted region whose fills leave the map is excluded (`FitsMapIff`); the code then writes past the map.
- AddressSpace.Machine.AllocVpages: the address lies in the user half, and the entries written end below 4 GiB.
- MapSteps.AllocMeaning: the request keeps within one table; for others `RawWrites` and `CrossingOverwrites` say what is written, and the space has no meaning any more.
- Lifecycle.MapAndRelease: each call keeps within one table.
- UserCopy.CopyToUserN: the range and the kernel's buffer end within 4 GiB, the buffer is not at address zero, for which `kmemcpy` does nothing, and on pages of the range that are not mapped no stale word leads anywhere.
- UserCopy.CopyFromUserN: the same, and the kernel's buffer lies outside the page tables.
- UserCopy.WriteThenRead: both buffers lie outside the frames of the space.
- Kmalloc.Allocator.KMalloc: asks for `Fine`: no wrapped total of 8 to 16, and no growth with an empty free list or without room for the rest's header. On growth the code writes one word through a null pointer; the model has that write at bytes 9 to 12 of memory, where it touches no allocator state, and does not say what is in these bytes afterwards.
- Kmalloc.Allocator.ExtendEmpty: the word that the code finds through the null pointer and writes through must not lie in a header.
- Kmalloc.Allocator.constructor: asks for eight free pages in a row, since the result of `alloc_pages` is not checked.
- KernelHeap.Kernel.Spawn: the task is running at once. The code queues it as TASK_CREATED and sets the state later; after a failed fork it stays queued as TASK_ZOMBIE. Neither state is in the model.
- `kfree`: merging drops or cycles list nodes, so the partition is not a property of it.
- `free_vpages`: it frees one entry too many and clears directory entry zero.
- The context switch is `current := next`; register save and restore, CR3 loads, TLB invalidation, port I/O, interrupt controllers, boot and loader are not modelled.
- The boot phase in which `current` is null, and the mutex inside `alloc_pages` and `free_pages`: those calls are atomic here.
- The bitmap is an object of its own rather than bytes at 0x10400 of physical memory, and kernel addresses are physical addresses. In a process that holds below 1 GiB only, since `create_pde` copies the 256 directory entries of the lower gigabyte; frames above it are out of the kernel's reach there.
- The list of all tasks, file and device tables, the ELF loader, argument and environment copying, the time of day, and string helpers other than `kmemset` and `kmemcpy`.
- `source/fs/ext2.c` and `source/fs/buffer.c`: allocation and lookup do not agree there, so there is no refinement to prove.
- `source/lib/list.c`: `list_insert` is unused and the rest repeats the queues.
