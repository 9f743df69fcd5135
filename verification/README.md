# The RT-Thread kernel, verified

RT-Thread's kernel keeps its state in linked structures that many functions change in place: three
memory allocators, wait lists and ready lists, a skip list of timers, and the objects threads use to
talk to each other.  This project models that code in Dafny and proves what it is supposed to keep.

| files | what they model |
|---|---|
| `tiling`, `smallheap`, `heapruns` | the small-memory heap of `mem.c`, whole runs of it, and the tiling of an arena by blocks that it shares with `memheap.c` |
| `payload` | the bytes of an arena whose blocks carry their headers, for both heaps |
| `memheap` | the memheap allocator of `memheap.c`: an address ring and a free ring through the same headers |
| `zoneindex`, `pages`, `slab`, `division` | the slab allocator of `slab.c`: page runs, chunk sizes, zones |
| `rings` | the intrusive lists of `rtservice.h`, on link memory |
| `timerqueue`, `timer` | hard timers: the timed model, and the skip list on wrapping 32-bit ticks that implements it |
| `ipclist`, `mailbox`, `messagequeue`, `mutex`, `event` | the IPC objects of `ipc.c` as concurrent protocols |
| `bits`, `scheduler`, `dispatcher` | the ready set and the thread operations: the state machine, and the links and bit words that implement it |
| `regions` | the same thread operations one interrupt-disabled region at a time |
| `kservice` | `rt_memset`, `rt_memcpy`, `rt_memmove` on one byte-addressed memory |
| `pwm` | the quantisation of the PWM driver |
| `lists` | sequences without duplicates |
| `hiding` | how large invariants are kept out of proofs that only hand them on |

## How it is built

Code that runs with interrupts disabled cannot be interleaved with anything, so in the models of `ipc.c`
each such region is one step of a state machine, a function on an abstract state.  A thread that gives up the processor
inside an operation leaves a program counter behind and continues in a later step, with any steps of
other threads in between.  Theorems about runs quantify over every sequence of enabled steps.  Beside
the state machine stands a class with the fields the C code has; each of its methods is proved to take
exactly one step of the state machine, or one operation of the allocator.

`Scheduler` takes the operations of `thread.c` as whole steps.  Some of them are more than one region, or
test the state of a thread before they disable interrupts: `SchedulerRegions` splits them, proves exactly
which regions can break the ready set and when, and carries the theorem over to every interleaving of
regions in which nobody else moves a thread that is being resumed or suspended.  IPC objects call
rt_thread_resume and rt_thread_suspend with interrupts disabled already, where they are undisturbed.

The links of the lists are a matter of their own.  `Rings` proves what the assignments of
`rt_list_insert_after`, `rt_list_insert_before` and `rt_list_remove` do to link memory that holds many
rings at once; `MemHeap`, `Dispatcher` and the message queue work on links throughout.  Wait lists of
the IPC objects, timer rows, zone lists and page runs are sequences.

Addresses are offsets or numbers; 32-bit sizes, counters and ticks are natural numbers with the
wrap-around written out wherever the C code can wrap.  Ghost clocks and deadlines that never wrap give
the timers their meaning.

## What is assumed

- A caller releases or resizes only memory that is live.
- An allocator call is atomic.  The heap semaphore gives that for most of them; `rt_realloc` in `mem.c` and in
  `memheap.c` releases it before it allocates, copies and frees, and `rt_malloc` in `slab.c` releases it while it
  takes pages, so for those calls it is an assumption that no other call comes in between.
- The limits of an arena fit in 32 bits.
- Priorities and places in a wait list: `rt_thread_control`, or a boost through another mutex, may change
  any priority at any time, and no list is sorted again.  The run theorems about inheritance, about order of service and
  about the order of wait lists are for runs whose changes fit, as the predicates `Fitting` and `KeepsPlace` of each IPC
  module say, and each is shown to be the exact condition for one step; no other theorem about IPC objects depends on priorities.
- In runs of a mutex no thread takes it 256 times without a release (`Mutex.NestingWraps` shows why).
- A slab heap has at least one page, does not begin at address 0, and ends below 2^32.
- The idle thread stays READY once the scheduler runs.
- No signal is delivered to a waiting thread, and the application does not itself resume, delete or
  detach a thread that waits in an IPC object.
- `rt_timer_start` is not interrupted by a tick, timer callbacks leave the timer list alone, a periodic
  timer has a period of at least one tick, and every period is below half the tick range, as the assertion
  on line 323 of `timer.c` demands.
- The timer clock of the PWM driver is between 1 and 999 MHz.

## Where the code does less than it says

- `rt_realloc` in `mem.c` cuts a block in place without comparing the new free block with `lfree`
  (lines 472-498).  `SmallHeapRuns.ShrinkHidesFreeBlock` gives a run after which a request is refused
  although a free block could serve it; `SmallHeap.ShrinkKeepsLowestExactly` says exactly when the cut is harmless.
- `rt_malloc` in `mem.c` stops its search one block early: the last block is never taken when it fits exactly
  (`SmallHeap.NoFitExactly`), so a new heap never hands out all of its bytes (`SmallHeapRuns.WholeArenaIsRefused`).
- In an arena of less than twelve bytes the bound of that search wraps and the search of a small request does not end
  (`SmallHeap.TinyArenaNeverEnds`).
- `rt_malloc` and `rt_memheap_alloc` promise at least `size` bytes.  `RT_ALIGN` wraps from 2^32 - 3 on, and such a request is
  answered with a block of twelve (`SmallHeap.WantHoldsExactly`, `MemHeap.WantHoldsExactly`,
  `SmallHeapRuns.HugeRequestWraps`); the same sizes make `rt_realloc` release the block, and `rt_memheap_realloc` cut it to
  twelve bytes.
- `rt_memheap_realloc` adds `RT_MEMHEAP_MINIALLOC` to the new size without a check; `MemHeap.GrowFitsExactly`
  says exactly when the comparison still means what it says, `MemHeap.GrowWraps` gives a size for which it does not, and
  `MemHeap.Heap.Realloc` and `MemHeap.Heap.GrowWrapped` say what becomes of the heap: the block is lost from the address ring.
- The comment at the head of `slab.c` promises that all allocations of a power of two are aligned to their
  size.  `Slab.PowerOfTwoAlignedExactly` and `Slab.LargeAlignedExactly` give the exact conditions, for chunks and for
  pages; `Slab.LargeChunksMayBeUnaligned` and `Slab.LargePagesMayBeUnaligned` give an allocation of each kind that is not.
- `rt_mutex_take` does not check the 8-bit counter of nested takes (`Mutex.NestedTakeExactly`, `Mutex.NestingWraps`).
  Handing a mutex over in FIFO order can leave a more urgent waiter behind a less urgent owner
  (`Mutex.HandOverInheritsExactly`, `Mutex.FifoHandOverInverts`).  A waiter that times out can leave the owner boosted
  (`Mutex.TimeoutKeepsBoostExactly`, `Mutex.TimeoutLeavesBoost`).  A change of priority can break inheritance and the order
  of the wait list (`Mutex.SetPrioExactly`, `Mutex.OwnerMadeLessUrgent`); mailboxes, message queues and event sets do not
  sort their wait lists again either (`Mailbox.StepRanksExactly`, `MessageQueue.StepRanksExactly`, `Event.StepRanksExactly`).
- Two contexts that resume one thread at the same time can leave it READY and in no ring
  (`SchedulerRegions.RegionKeepsExactly`, `SchedulerRegions.ResumedTwice`).
- `rt_scheduler_lock_nest` is a signed 16-bit counter, not the unsigned one of the comment on line 379 of `scheduler.c`
  (`Scheduler.CriticalNestsExactly`).
- `rt_memcpy` is wrong for some memory whenever the target starts inside the source, and only then
  (`MemoryRoutines.MemcpyRightExactly`).
- `drv_pwm_get` multiplies in 32 bits; the round-trip theorems give the exact condition under which that is harmless, and
  `Pwm.LongPeriodOverflows` a request for which it is not.

## Model

| member | source | states |
|---|---|---|
| SmallHeapRuns.AfterAnyRun | rt-thread/src/mem.c:205-258 | after any sequence of malloc, realloc and free the blocks tile the arena up to heap_end and no two neighbours are free; if no step cut a block in place, a request within bounds fails exactly when the only free block with room is the last one and fits exactly (the search bound is strict) |
| SmallHeapRuns.StepKeepsInv | rt-thread/src/mem.c:273-611 | every operation keeps the tiling, the coalescing and `lfree` a free block or heap_end; every operation but the in-place shrink keeps `lfree` the lowest free block |
| SmallHeapRuns.ShrinkHidesFreeBlock | rt-thread/src/mem.c:472-498 | a run, allocate 96 of 100 bytes and shrink to 12, after which `lfree` is not the lowest free block and a request that a free block could serve is refused |
| SmallHeapRuns.Serve | rt-thread/src/mem.c:273-611 | every operation of the heap on its links is the step of the run model, null pointers and pointers outside the arena included |
| SmallHeapRuns.ReallocIsStep | rt-thread/src/mem.c:422-511 | what rt_realloc is proved to leave behind is what the run model says |
| SmallHeapRuns.MallocIsStep | rt-thread/src/mem.c:273-411 | what rt_malloc is proved to leave behind is what the run model says |
| SmallHeapRuns.MallocExactly | rt-thread/src/mem.c:290-411 | a request that the size checks and the search admit turns exactly the lowest admitted block into a used one, cut exactly when the rest has room for a header and MIN_SIZE_ALIGNED; every other used block stays; a refused request changes nothing |
| SmallHeapRuns.WholeArenaIsRefused | rt-thread/src/mem.c:306-307 | a new heap of any size refuses a request for all of its bytes |
| SmallHeapRuns.HugeRequestWraps | rt-thread/src/mem.c:290-301 | a request of 2^32 - 1 bytes on a new heap is answered with a block of twelve |
| SmallHeapRuns.FirstFitIsFound | rt-thread/src/mem.c:306-388 | the lowest block the search admits is the block the run model takes |
| SmallHeap.NoFitExactly | rt-thread/src/mem.c:306-307 | with `lfree` lowest, the search finds nothing exactly when every free block with room is the last block and fits exactly |
| SmallHeap.TakenExactly | rt-thread/src/mem.c:317-372 | a free block is cut exactly when the rest has room for a header and MIN_SIZE_ALIGNED; the rest is then the free block right behind; every other used block stays |
| SmallHeap.LfreeTakenExactly | rt-thread/src/mem.c:382-392 | taking the block at lfree moves lfree to the next free block or heap_end; taking another leaves it |
| SmallHeap.LfreeFreedExactly | rt-thread/src/mem.c:157-195 | after a release lfree is the free block that contains the lower of the old lfree and the released block |
| SmallHeap.ReallocStaysExactly | rt-thread/src/mem.c:459-508 | a live block stays where it is exactly when the size is the same or so much smaller that a block can be cut off, and then exactly its length changes; null exactly when it must move and nothing fits, and then nothing changes |
| SmallHeap.ReallocMovesExactly | rt-thread/src/mem.c:500-508 | otherwise it moves to the lowest admitted block, wasting less than a header and MIN_SIZE_ALIGNED, the old block is no longer used, and every other used block stays |
| SmallHeap.ShrinkKeepsLowestExactly | rt-thread/src/mem.c:472-498 | an in-place shrink keeps `lfree` lowest if and only if `lfree` was below the block or was the free block right behind it |
| SmallHeap.FreeUndoesMalloc | rt-thread/src/mem.c:549-611 | freeing a block right after it was allocated gives back the identical tiling |
| SmallHeap.MergeLinked | rt-thread/src/mem.c:168-181 | absorbing the next block leaves next and prev describing the merged tiling |
| SmallHeap.SplitLinked | rt-thread/src/mem.c:330-349 | cutting a block leaves next and prev describing the cut tiling |
| SmallHeap.PlugLowest | rt-thread/src/mem.c:157-195 | while `lfree` is lowest, plugging holes never moves it |
| SmallHeap.MoveKeeps | rt-thread/src/mem.c:500-508 | allocate, copy, free: the first min(old, new) bytes arrive and no other live payload byte changes |
| SmallHeap.UsedBytesAtMost | rt-thread/src/mem.c:351-367 | the footprint of the used blocks is bounded by the arena, so used_mem does not overflow |
| SmallHeap.Heap.constructor | rt-thread/src/mem.c:205-258 | one free block from offset 0 to heap_end, lfree at it, used_mem 0, in an arena of any size; it is a heap that works from 12 bytes on |
| SmallHeap.Heap.PlugHoles | rt-thread/src/mem.c:157-195 | the block is merged with its free neighbours, forward first; links, lfree and all live payloads stay right |
| SmallHeap.Heap.Malloc | rt-thread/src/mem.c:273-411 | null exactly as the size checks and the search say; otherwise the lowest admitted block is used: its payload is the rounded request with the rest a free block right behind it, or, when the rest has no room for a header and MIN_SIZE_ALIGNED, the whole block; every other used block stays, lfree, used_mem and max_mem move accordingly, and no live payload byte changes |
| SmallHeap.WantHoldsExactly | rt-thread/src/mem.c:290-301 | rounding a request up keeps it exactly when it does not wrap |
| SmallHeap.TinyArenaNeverEnds | rt-thread/src/mem.c:306-308 | in an arena of less than 12 bytes the search bound wraps, and after any number of rounds the loop of a request that passed the size check goes on |
| SmallHeap.Heap.Search | rt-thread/src/mem.c:306-388 | walking next from lfree up to the strict bound finds the lowest admitted block or there is none |
| SmallHeap.Heap.Free | rt-thread/src/mem.c:549-611 | a live block is released and plugged, lfree moves down to it if it is lower, other payloads stay; null and pointers outside the arena change nothing |
| SmallHeap.Heap.Realloc | rt-thread/src/mem.c:422-511 | the whole new tiling and lfree on each of its paths (too large, zero, null, outside, same size, cut in place, moved), and the contents kept |
| Tiling.FreedKeepsTiling | rt-thread/src/mem.c:590-610 | releasing a used block keeps the tiling and the coalescing, lowers the used total by its length, and gains one header for each merge |
| Tiling.CutBackKeepsTiling | rt-thread/src/mem.c:472-498 | cutting a used block keeps the tiling and the coalescing and gives the difference back |
| Tiling.TakenSplit | rt-thread/src/mem.c:326-351 | using the front of a free block keeps the tiling and the coalescing and moves exactly its length to the used total |
| Tiling.PlugRestores | rt-thread/src/mem.c:157-195 | if only the pairs around a free block may be both free, plugging it restores coalescing |
| Tiling.UsedDetermine | rt-thread/src/mem.c:157-195 | a coalesced tiling is determined by its used blocks: two heaps with the same live blocks are the same |
| Tiling.FreedUsed | rt-thread/src/mem.c:590-610 | a release ends the use of exactly that block, whatever is merged around it |
| Tiling.CutBackUsed | rt-thread/src/mem.c:472-498 | a cut shortens exactly that used block |
| MemHeap.FreedMatches | rt-thread/src/memheap.c:505-605 | after a release the exact new free list holds exactly the free blocks of the address ring |
| MemHeap.TakenMatches | rt-thread/src/memheap.c:198-235 | after a split allocation the remainder replaces the block on the free ring, which again holds exactly the free blocks |
| MemHeap.CutBackMatches | rt-thread/src/memheap.c:442-495 | after a shrink the remainder is on the free ring and a free right neighbour has left it |
| MemHeap.GrownMatches | rt-thread/src/memheap.c:360-411 | after growing in place the moved free header replaces the old one on the free ring |
| MemHeap.GrownTotals | rt-thread/src/memheap.c:360-411 | growing in place lowers the free total by exactly the bytes gained |
| MemHeap.GrowFitsExactly | rt-thread/src/memheap.c:360 | the comparison for growing in place means what it says if and only if newsize + RT_MEMHEAP_MINIALLOC does not wrap in 32 bits |
| MemHeap.GrowWraps | rt-thread/src/memheap.c:360 | a live block of 12 bytes in front of a free one and a size of 2^32 - 4 for which the comparison lets the wrapped size through |
| MemHeap.TakenExactly | rt-thread/src/memheap.c:195-260 | a free block is cut exactly when the rest has room for a header and RT_MEMHEAP_MINIALLOC; every other used block stays |
| MemHeap.AllocExactly | rt-thread/src/memheap.c:162-282 | the first block of the free stack with room is used and leaves the stack; what is cut off goes on top; the others keep their places |
| MemHeap.FreedListExactly | rt-thread/src/memheap.c:545-601 | a release pushes the block unless its left neighbour absorbs it, and takes out a free right neighbour |
| MemHeap.ReleasedServesNext | rt-thread/src/memheap.c:588-601 | last in, first out: a block released beside a used left neighbour serves the next request it has room for |
| MemHeap.ReallocStaysExactly | rt-thread/src/memheap.c:331-502 | a live block stays where it is exactly when it need not grow or the free block behind it leaves more than RT_MEMHEAP_MINIALLOC, with exactly its length changed; null exactly when it must move and no allocation is possible |
| MemHeap.ReallocMovesExactly | rt-thread/src/memheap.c:415-429 | otherwise it moves to the first block of the free stack with room, the old block is no longer used, and every other used block stays |
| MemHeap.Heap.GrowWrapped | rt-thread/src/memheap.c:360-411 | the wrapped size puts the new header into the header of the block itself: no tiling that the address ring describes has the block any more |
| MemHeap.WantHoldsExactly | rt-thread/src/memheap.c:157-160 | rounding a request up keeps it exactly when it does not wrap |
| MemHeap.MoveKeeps | rt-thread/src/memheap.c:419-424 | allocate, copy, free: the first min(old, new) bytes arrive and no other live payload byte changes |
| Payload.ClearKeeps | rt-thread/src/memheap.c:213-235 | writing a header outside the payload of every live block keeps every payload |
| MemHeap.FreeUndoesAlloc | rt-thread/src/memheap.c:505-605 | freeing a block right after it was allocated gives back the identical tiling |
| MemHeap.Heap.constructor | rt-thread/src/memheap.c:60-131 | one free block, on both rings, and the used tail that closes the address ring |
| MemHeap.Heap.Alloc | rt-thread/src/memheap.c:148-291 | null exactly when the request reaches available_size or no free block has room; otherwise the first block on the free stack with room is taken, the exact new tiling and free stack, flags, available_size and the bytes of the written headers, no live payload disturbed; the block holds the request exactly when the size is at most 2^32 - 4 |
| MemHeap.Heap.Free | rt-thread/src/memheap.c:505-605 | the block is merged left and right, the exact new free stack and available_size, and the headers it writes disturb no payload of another live block |
| MemHeap.Heap.Realloc | rt-thread/src/memheap.c:294-502 | for every size the whole new tiling and free stack on each path (zero, null, grown in place, moved, cut, left alone), the first min(old, new) bytes and every other payload kept; the heap stays valid exactly when the size does not wrap the test for growing in front of a free block, and otherwise the block is lost from the address ring |
| MemHeap.Heap.ReleaseLinks | rt-thread/src/memheap.c:545-601 | merge left, merge right, push if nothing was merged left: the exact new free list, in order, and available_size |
| MemHeap.Heap.FreeUnlink | rt-thread/src/memheap.c:225-229 | a block leaves the free ring, every other one keeps its place, and the header bytes written disturb no live payload |
| Rings.LinkRing | rt-thread/include/rtservice.h:58-65 | linking a fresh node behind the i-th node of a ring gives the ring with the node inserted there, in both directions |
| Rings.UnlinkRing | rt-thread/include/rtservice.h:86-92 | unlinking a node gives the ring without it |
| Rings.LinkFamily | rt-thread/include/rtservice.h:58-80 | linking a fresh node into one ring keeps every ring of the same link memory, and no node is in two |
| Rings.UnlinkFamily | rt-thread/include/rtservice.h:86-92 | unlinking keeps every ring, and the node is in none |
| Rings.RemoveUndoesInsert | rt-thread/include/rtservice.h:58-92 | taking a node out right after inserting it restores every link |
| Rings.RemoveAloneIsNoop | rt-thread/include/rtservice.h:86-92 | removing a node that is in no list changes no link |
| Rings.Links.InsertAfter | rt-thread/include/rtservice.h:58-65 | the four assignments are the linking of the ring theorem |
| Rings.Links.InsertBefore | rt-thread/include/rtservice.h:73-80 | inserting before a node is linking behind its predecessor |
| Rings.Links.Remove | rt-thread/include/rtservice.h:86-92 | the assignments are the unlinking, and the node ends linked to itself |
| Rings.Links.IsEmpty | rt-thread/include/rtservice.h:98-101 | true exactly for a ring of the head alone |
| Rings.Links.Len | rt-thread/include/rtservice.h:107-118 | the number of nodes behind the head |
| TimerQueue.StartFiresAfterDelay | rt-thread/src/timer.c:296-396 | a timer started at tick s with delay d is called first at s + d, or at s + 1 if d is 0; a periodic one at s + k*d; never earlier; over every run of other events |
| TimerQueue.OneShotFiresOnTime | rt-thread/src/timer.c:494-553 | a one-shot timer is called exactly at its deadline, or at the next tick if that is now, and once |
| TimerQueue.PeriodicFiresOnTime | rt-thread/src/timer.c:494-553 | a periodic timer is called exactly at D, D+d, D+2d, ... until touched |
| TimerQueue.NotQueuedNeverFires | rt-thread/src/timer.c:422-447 | a timer that is not queued is not called until it is started |
| TimerQueue.StoppedNeverFires | rt-thread/src/timer.c:422-447 | a stopped timer, queued or not, due or not, is never called until it is touched again, over every run of other events |
| TimerQueue.StartAndStopExactly | rt-thread/src/timer.c:296-447 | a stop takes exactly that timer out of the queue and a start puts exactly that one in, due its period from now |
| TimerQueue.OthersStayInOrder | rt-thread/src/timer.c:296-553 | timers that a step does not concern keep their deadlines and their order among each other |
| TimerQueue.EqualsInStartOrder | rt-thread/src/timer.c:359-366 | of two timers with equal deadlines the one started first stands first |
| TimerQueue.TickExactly | rt-thread/src/timer.c:507-547 | the timers called are the front of the queue; a periodic one is due its period from this tick again |
| TimerQueue.KindTakesEffect | rt-thread/src/timer.c:475-481 | a queued timer made one-shot is called once more; made periodic, at D, D+d, D+2d, ... |
| TimerQueue.FiredExactly | rt-thread/src/timer.c:507-547 | one check calls exactly the due timers, each once, in deadline order |
| TimerQueue.TickKeepsValid | rt-thread/src/timer.c:494-553 | after a check no due timer is left in the list, and nothing else was lost |
| TimerQueue.StepKeepsValid | rt-thread/src/timer.c:296-553 | start, stop, tick and control keep the list ordered and every deadline within half the tick range |
| TimerQueue.InsertSorted | rt-thread/src/timer.c:342-370 | insertion behind equal deadlines keeps the order |
| Timers.SubOrders | rt-thread/src/timer.c:359-366 | the wrapped comparison of two timeouts is the comparison of the real deadlines when they are less than half the range apart |
| Timers.SubExpires | rt-thread/src/timer.c:516 | the wrapped expiry test is the real one, before and after the tick counter wraps |
| Timers.TickAtIsModulo | rt-thread/src/clock.c:69-75 | the tick counter is the real time modulo 2^32 |
| Timers.InsertRowsOk | rt-thread/src/timer.c:376-391 | linking a timer into a suffix of the rows keeps every upper row the subsequence of the bottom row that its members select |
| Timers.MinusRowsOk | rt-thread/src/timer.c:121-129 | removing a timer from every row keeps this too |
| Timers.StepDown | rt-thread/src/timer.c:342-370 | the search may start in the next row at the node of the same timer: nothing due later is skipped |
| Timers.TimerSystem.StartTimer | rt-thread/src/timer.c:296-412 | for any number of rows the bottom row becomes stable linear insertion by deadline |
| Timers.TimerSystem.FindHeads | rt-thread/src/timer.c:342-370 | in every row the descent finds the place of linear search |
| Timers.TimerSystem.LinkRows | rt-thread/src/timer.c:376-391 | the timer is linked into the bottom row and, as the insert counter allows, into a run of rows above |
| Timers.TimerSystem.RemoveRows | rt-thread/src/timer.c:121-129 | the timer leaves every row |
| Timers.TimerSystem.StartNow | rt-thread/src/timer.c:296-412 | equals the start step of the timed model |
| Timers.TimerSystem.StopTimer | rt-thread/src/timer.c:422-447 | the timer is in no row and not activated afterwards, and the queue is the stop step; fails exactly when the timer is not running |
| Timers.TimerSystem.Check | rt-thread/src/timer.c:494-553 | the calls made, their order, and the queue after the check |
| Timers.TimerSystem.Tick | rt-thread/src/clock.c:69-91 | advancing the wrapped tick and checking equals the tick step of the timed model: exactly the due timers are called and none that is due is left |
| Timers.TimerSystem.ValidAbs | rt-thread/src/timer.c:296-396 | the skip list with its ticks is a state of the timed model, so every theorem about that model applies |
| Timers.TimerSystem.Init | rt-thread/src/timer.c:80-105 | a timer that is not running gets its period and kind |
| Timers.TimerSystem.SetTicks | rt-thread/src/timer.c:471-473 | equals the set-time step |
| Timers.TimerSystem.MakePeriodic | rt-thread/src/timer.c:479-481 | equals the set-periodic step |
| Timers.TimerSystem.MakeOneShot | rt-thread/src/timer.c:475-477 | equals the set-one-shot step |
| IpcList.FindSpot | rt-thread/src/ipc.c:96-114 | the search loop stops before the first less urgent thread |
| IpcList.SuspendByUrgency | rt-thread/src/ipc.c:92-118 | with RT_IPC_FLAG_PRIO the wait list stays ordered by urgency |
| IpcList.SpotBehindEquals | rt-thread/src/ipc.c:96-118 | a newcomer stands behind every thread of its own priority |
| IpcList.SuspendInTurn | rt-thread/src/ipc.c:78-121 | a newcomer is linked in at its turn, whatever the flag |
| IpcList.BetweenTurnsExactly | rt-thread/src/thread.c:574-617 | when a waiter changes its priority, its two neighbours decide whether the list stays in order of service |
| IpcList.SuspendNoDup | rt-thread/src/ipc.c:78-121 | a thread is on the list once |
| IpcList.HeadIsNext | rt-thread/src/ipc.c:132-147 | in a list in order of service the head is exactly the thread that is served before all the others |
| Mailbox.NoLostWakeupEver | rt-thread/src/ipc.c:1438-1710 | in every interleaving from rt_mb_init: with no resumed thread still on its way, receivers wait only on an empty mailbox and senders only on a full one |
| Mailbox.StepKeepsInv | rt-thread/src/ipc.c:1438-1754 | send, receive, re-check, timeout, change of priority and reset keep: suspended receivers imply at most as many mails as receivers woken and not yet re-checked, and the same for senders and free slots |
| Mailbox.RunKeepsInv | rt-thread/src/ipc.c:1438-1754 | the same over whole runs |
| Mailbox.StepRanksExactly | rt-thread/src/ipc.c:78-121 | with RT_IPC_FLAG_PRIO a step keeps both wait lists ordered by priority exactly when it does not move a waiter past a neighbour by changing its priority |
| Mailbox.RunRanks | rt-thread/src/ipc.c:78-121 | the lists stay ordered over every run whose changes of priority fit |
| Mailbox.FifoConservation | rt-thread/src/ipc.c:1438-1710 | stored then sent equals received then still stored, in order, over every interleaving without reset |
| Mailbox.SendExactly | rt-thread/src/ipc.c:1459-1557 | a send stores its mail exactly when there is room, is refused exactly when there is none and it may not wait, and waits otherwise; the mails, both lists and the state of every thread afterwards |
| Mailbox.RecvExactly | rt-thread/src/ipc.c:1607-1710 | a receive takes the oldest mail exactly when there is one, is refused exactly when there is none and it may not wait, and waits otherwise; the mails, both lists and the state of every thread afterwards |
| Mailbox.OthersExactly | rt-thread/src/ipc.c:1722-1754 | a timeout ends one wait, a reset all waits and empties the mailbox, a change of priority changes that priority; nothing else |
| Mailbox.WokenInTurnEver | rt-thread/src/ipc.c:78-147 | after every interleaving a send wakes exactly the receiver, and a receive exactly the sender, that is served before all the others: first come with RT_IPC_FLAG_FIFO, most urgent and then first come with RT_IPC_FLAG_PRIO |
| Mailbox.StepServesExactly | rt-thread/src/ipc.c:78-147 | a step keeps both lists in order of service exactly when it does not move a waiter past a neighbour by changing its priority |
| Mailbox.StoreAppends | rt-thread/src/ipc.c:1531-1538 | writing the slot at in_offset appends to the ring-buffer contents, around the end of the pool |
| Mailbox.MailboxObject.Put | rt-thread/src/ipc.c:1531-1538 | the stored mails become the old ones and the new one |
| Mailbox.MailboxObject.Get | rt-thread/src/ipc.c:1679-1687 | the oldest mail is handed out and the rest stays |
| Mailbox.MailboxObject.SendPass | rt-thread/src/ipc.c:1438-1557 | one pass equals the send step of the protocol |
| Mailbox.MailboxObject.RecvPass | rt-thread/src/ipc.c:1586-1710 | one pass equals the receive step |
| Mailbox.MailboxObject.ResetMailbox | rt-thread/src/ipc.c:1722-1754 | equals the reset step: every waiter returns, the mailbox is empty |
| Mailbox.MailboxObject.ThreadTimeout | rt-thread/src/thread.c:732-754 | equals the timeout step |
| MessageQueue.RunIsDeque | rt-thread/src/ipc.c:1960-2319 | every interleaving of the regions is a run of one deque of whole messages: send appends, urgent prepends, receive pops, reset empties |
| MessageQueue.StepOnMessages | rt-thread/src/ipc.c:1960-2319 | each step does to the queued messages what its deque operation does; filling a node does not show |
| MessageQueue.StepKeepsInv | rt-thread/src/ipc.c:1960-2319 | every step, changes of priority included, keeps the pool partitioned among queue, free list and threads holding a node, the wakeup bound, and the message sizes |
| MessageQueue.RunKeepsInv | rt-thread/src/ipc.c:1960-2319 | the same over whole runs |
| MessageQueue.StepRanksExactly | rt-thread/src/ipc.c:78-121 | with RT_IPC_FLAG_PRIO a step keeps the wait list ordered exactly when it does not move a waiter past a neighbour by changing its priority |
| MessageQueue.RunRanks | rt-thread/src/ipc.c:78-121 | the list stays ordered over every run whose changes of priority fit |
| MessageQueue.HeldNodeIsStable | rt-thread/src/ipc.c:1990-2004 | between its two regions a thread keeps its node and nobody writes to it, whatever the others do |
| MessageQueue.SendAppendsBuffer | rt-thread/src/ipc.c:1960-2036 | whatever happens between filling and linking, the linked message starts with the bytes of the buffer |
| MessageQueue.ReceiveDeliversFront | rt-thread/src/ipc.c:2135-2263 | however long the receiver is preempted, it copies out the first bytes of the message that was at the front |
| MessageQueue.PoolCount | rt-thread/src/ipc.c:1777-1824 | queued messages, free nodes and threads holding a node add up to max_msgs |
| MessageQueue.SendRefusedExactly | rt-thread/src/ipc.c:1980-1989 | a send is refused as full exactly when queued messages and nodes in hand use up the pool |
| MessageQueue.AllocExactly | rt-thread/src/ipc.c:1971-1994 | a send is too long exactly beyond msg_size, full exactly when queued messages and nodes in hand use up the pool, and otherwise holds a free node with its own buffer and its own end of the queue |
| MessageQueue.FillExactly | rt-thread/src/ipc.c:1996-1999 | byte by byte: the buffer replaces the first bytes of that node and of no other |
| MessageQueue.SendDelivers | rt-thread/src/ipc.c:1960-2120 | a whole rt_mq_send or rt_mq_urgent that is not refused, whatever the others do between its regions, adds one message that starts with its buffer, at its end of the queue, and leaves the others |
| MessageQueue.LinkExactly | rt-thread/src/ipc.c:2001-2036 | the node goes to its end of the queue, the sender is done, the first receiver is woken, nothing else changes |
| MessageQueue.RecvExactly | rt-thread/src/ipc.c:2156-2247 | a receive takes the front exactly when a message is queued, is refused exactly when none is and it may not wait, and waits otherwise |
| MessageQueue.CopyReleaseExactly | rt-thread/src/ipc.c:2249-2258 | the smaller of the size asked for and msg_size bytes of the node are handed out; the node goes back to the free list |
| MessageQueue.OthersExactly | rt-thread/src/ipc.c:2276-2322 | a timeout ends one wait; a reset ends all and frees every queued message; nothing else changes |
| MessageQueue.WokenInTurnEver | rt-thread/src/ipc.c:78-147 | after every interleaving a linked message wakes exactly the receiver that is served before all the others |
| MessageQueue.StepServesExactly | rt-thread/src/ipc.c:78-147 | a step keeps the list in order of service exactly when it does not move a waiter past a neighbour by changing its priority |
| MessageQueue.StoredSizeExactly | rt-thread/src/ipc.c:1802-1804 | msg_size is the request rounded up to a word, exactly as long as that fits 16 bits |
| MessageQueue.ChainAppend | rt-thread/src/ipc.c:2003-2014 | linking behind the tail extends the chain |
| MessageQueue.MessageQueueObject.constructor | rt-thread/src/ipc.c:1777-1824 | the loop leaves every node on the free list, last one first; sizes are kept in 16 bits |
| MessageQueue.MessageQueueObject.AllocPass | rt-thread/src/ipc.c:1960-1994 | equals the first region of a send |
| MessageQueue.MessageQueueObject.FillNode | rt-thread/src/ipc.c:1996-1999 | equals the fill step |
| MessageQueue.MessageQueueObject.LinkTail | rt-thread/src/ipc.c:2001-2036 | equals the second region of rt_mq_send |
| MessageQueue.MessageQueueObject.LinkHead | rt-thread/src/ipc.c:2089-2120 | equals the second region of rt_mq_urgent |
| MessageQueue.MessageQueueObject.RecvPass | rt-thread/src/ipc.c:2135-2247 | equals the first region of rt_mq_recv |
| MessageQueue.MessageQueueObject.CopyOut | rt-thread/src/ipc.c:2249-2250 | hands out the first bytes of the message, at most the message size |
| MessageQueue.MessageQueueObject.ReleasePass | rt-thread/src/ipc.c:2252-2258 | equals the second region of rt_mq_recv |
| MessageQueue.MessageQueueObject.ReleaseQueue | rt-thread/src/ipc.c:2293-2311 | the loop moves every queued node to the free list, so the free list is the reversed queue and then the old one |
| MessageQueue.MessageQueueObject.ResetQueue | rt-thread/src/ipc.c:2276-2322 | equals the reset step |
| Mutex.MutualExclusion | rt-thread/src/ipc.c:650-877 | in every interleaving at most one thread is inside the mutex, and then it is not free |
| Mutex.NoInversionEver | rt-thread/src/ipc.c:717-724 | with RT_IPC_FLAG_PRIO no waiter is ever kept waiting by a less urgent owner, in every run whose changes of priority fit: the owner stays as urgent as its waiters, a waiter stays behind the owner and between its neighbours |
| Mutex.ReleaseRestoresPriority | rt-thread/src/ipc.c:824-835 | ownership ends exactly at the release that balances the takes, and that release gives back the priority the thread had when it became the owner |
| Mutex.StepKeepsInv | rt-thread/src/ipc.c:650-877 | value 1 iff no owner iff hold 0; waiters imply an owner; nesting depth is hold: every step keeps this, priority changes of anybody included, except exactly the 256th nested take |
| Mutex.StepInheritsExactly | rt-thread/src/ipc.c:650-877 | with RT_IPC_FLAG_PRIO a step keeps the list ordered by priority and the owner as urgent as every waiter exactly when it is not an unfitting change of priority |
| Mutex.SetPrioExactly | rt-thread/src/thread.c:574-617 | whatever the flag, the owner may be given priority p exactly if no waiter is more urgent, and a waiter exactly if the owner is no less urgent; an ordered list stays ordered exactly if the neighbours allow p |
| Mutex.OwnerMadeLessUrgent | rt-thread/src/thread.c:574-617 | a run: take, wait, owner set to a less urgent priority; the waiter is then kept waiting by a less urgent owner |
| Mutex.TimeoutKeepsBoostExactly | rt-thread/src/ipc.c:717-724 | a timeout leaves the owner at a justified priority exactly when that is its own or that of a waiter who stays |
| Mutex.StepBoostExactly | rt-thread/src/ipc.c:650-877 | for every step, exactly when the priority of the owner stays justified |
| Mutex.ServedInTurnEver | rt-thread/src/ipc.c:78-121 | in every run the waiters stand in the order in which they will be served: by arrival with RT_IPC_FLAG_FIFO, by priority and then by arrival with RT_IPC_FLAG_PRIO, through hand-overs and timeouts |
| Mutex.StepServesExactly | rt-thread/src/ipc.c:650-877 | a step keeps that order exactly when it does not move a waiter past a neighbour by changing its priority |
| Mutex.FifoHandOverInverts | rt-thread/src/ipc.c:837-866 | a run of four steps with RT_IPC_FLAG_FIFO after which a thread at priority 5 waits for an owner at priority 10 |
| Mutex.NestingWraps | rt-thread/src/ipc.c:677-681 | 255 takes by one thread are counted, and the 256th leaves it the owner of a mutex with hold 0 |
| Mutex.NestedTakeExactly | rt-thread/src/ipc.c:677-681 | a nested take keeps the invariant exactly while the 8-bit counter does not wrap |
| Mutex.HandOverInheritsExactly | rt-thread/src/ipc.c:837-866 | a hand-over keeps inheritance exactly when no remaining waiter is more urgent than the first one |
| Mutex.TimeoutLeavesBoost | rt-thread/src/ipc.c:717-724 | a run of two takes and a timeout from rt_mutex_init, after which the owner keeps a priority that nobody justifies |
| Mutex.OwnedRun | rt-thread/src/ipc.c:650-877 | during one ownership hold counts takes minus releases and original_priority stays fixed |
| Mutex.TakeExactly | rt-thread/src/ipc.c:677-775 | a take succeeds exactly when the mutex is free or the caller owns it, exactly when the caller owns it afterwards, and exactly when its depth grew by one; it times out, changing nothing, exactly when another owns it and it may not wait, and otherwise waits and lends the owner its priority |
| Mutex.ReleaseExactly | rt-thread/src/ipc.c:804-877 | a release by the owner takes one level off; at the last one the old priority comes back and the mutex goes to the first waiter, or is free; by anybody else it fails and changes nothing |
| Mutex.HandedToFirst | rt-thread/src/ipc.c:837-866 | the new owner is served before every waiter that stays |
| Mutex.OthersExactly | rt-thread/src/ipc.c:717-724 | a timeout takes that waiter off the list and a change of priority changes that priority; nothing else |
| Mutex.MutexObject.TakePass | rt-thread/src/ipc.c:650-775 | equals the take step |
| Mutex.MutexObject.ReleasePass | rt-thread/src/ipc.c:786-877 | equals the release step |
| Mutex.MutexObject.HandOver | rt-thread/src/ipc.c:837-866 | the first waiter becomes the owner, or the mutex becomes free |
| Event.NoSatisfiedWaiterEver | rt-thread/src/ipc.c:1025-1233 | in every interleaving a thread is suspended only while the event set does not meet its request |
| Event.WokenGetsWhatItAsked | rt-thread/src/ipc.c:1060-1095 | a woken thread returns bits of its request that were set together when it was woken: all of them for AND, at least one for OR |
| Event.ScanLeavesNoneSatisfied | rt-thread/src/ipc.c:1051-1095 | after the walk no remaining waiter is satisfied by what is left of the set |
| Event.ScanGrants | rt-thread/src/ipc.c:1051-1095 | each woken thread was satisfied at its turn and received its request or the set part of it; later threads see the set without what earlier ones cleared |
| Event.ClearedOnce | rt-thread/src/ipc.c:1086-1088 | two threads woken by one send never both receive a bit that the first of them clears |
| Event.SendExactly | rt-thread/src/ipc.c:1046-1095 | every bit that was set or is sent is set afterwards, unless a thread woken by this send asked to clear and received it; with nobody woken the set is exactly the union |
| Event.SendLeavesOthers | rt-thread/src/ipc.c:1051-1095 | a send changes the state and the record of no thread but those it wakes |
| Event.RecvExactly | rt-thread/src/ipc.c:1150-1217 | a receive succeeds exactly when the set meets its request, gets exactly the requested bits that are set, and takes out exactly its request if it clears and nothing otherwise; else it is refused or waits |
| Event.SatExactly | rt-thread/src/ipc.c:1062-1081 | the conditions for AND and OR, and what is received, bit by bit |
| Event.ScanTurn | rt-thread/src/ipc.c:1051-1095 | the k-th waiter is woken exactly if its condition holds for the set that the waiters before it leave |
| Event.ScanLoses | rt-thread/src/ipc.c:1086-1088 | a bit leaves the set exactly through a woken thread that clears and received it |
| Event.OthersExactly | rt-thread/src/ipc.c:1218-1273 | a woken thread returns what its record says; a timeout changes no bit and a reset clears all |
| Event.WalkedInTurnEver | rt-thread/src/ipc.c:78-121 | after every interleaving the walk meets the waiters in the order of service |
| Event.StepServesExactly | rt-thread/src/ipc.c:78-121 | a step keeps that order exactly when it does not move a waiter past a neighbour by changing its priority |
| Event.StepKeepsInv | rt-thread/src/ipc.c:1025-1273 | send, receive, finish, timeout, change of priority and reset keep the invariant |
| Event.StepRanksExactly | rt-thread/src/ipc.c:78-121 | with RT_IPC_FLAG_PRIO a step keeps the wait list ordered exactly when it does not move a waiter past a neighbour by changing its priority |
| Event.RunRanks | rt-thread/src/ipc.c:78-121 | the list stays ordered over every run whose changes of priority fit |
| Event.EventObject.Deliver | rt-thread/src/ipc.c:1051-1095 | the walk over the shrinking list equals the recursive pass |
| Event.EventObject.SendPass | rt-thread/src/ipc.c:1025-1107 | equals the send step |
| Event.EventObject.RecvPass | rt-thread/src/ipc.c:1123-1217 | equals the receive step |
| Event.EventObject.FinishRecv | rt-thread/src/ipc.c:1218-1232 | equals the finish step |
| Event.EventObject.ResetEvent | rt-thread/src/ipc.c:1245-1273 | equals the reset step |
| Bits.LowestBitIsLowest | rt-thread/src/kservice.c:1243-1261 | the byte table gives the lowest set bit for every byte |
| Bits.FfsIsMostUrgent | rt-thread/src/kservice.c:1273-1287 | __rt_ffs returns one more than the lowest set bit |
| Bits.GroupSet | rt-thread/src/scheduler.c:313 | or-ing in number_mask adds exactly that priority to the ready group |
| Bits.GroupCleared | rt-thread/src/scheduler.c:360 | and-ing with its complement removes exactly that priority |
| Scheduler.ReadySetEver | rt-thread/src/scheduler.c:280-366 | in every run of whole operations: bit p is set iff ring p is not empty; a thread is in the ring of its current priority iff it is READY; no thread is in two rings |
| Scheduler.StepKeepsInv | rt-thread/src/thread.c:81-754 | startup, suspend, wait, resume, timeout, yield, priority change, exit, schedule, critical sections and ticks, each undisturbed, keep this |
| SchedulerRegions.ReadySetEver | rt-thread/src/thread.c:689-723 | the same over every interleaving of single regions in which nobody else moves a thread that is being resumed or suspended |
| SchedulerRegions.RegionKeepsExactly | rt-thread/src/thread.c:646-723 | of all regions only the two of rt_thread_resume can break the invariant, and exactly when the thread has become READY, or been linked into a list, since the test outside |
| SchedulerRegions.RegionKeeps | rt-thread/src/thread.c:646-723 | under that condition on the others every region keeps the invariant, and what an open resume or suspend has found stays true |
| SchedulerRegions.ResumeUndisturbed | rt-thread/src/thread.c:689-723 | test, unlink and insert without interference are the resume step |
| SchedulerRegions.ResumedTwice | rt-thread/src/thread.c:699-719 | two contexts that resume one suspended thread, both testing before either unlinks: the second takes the READY thread out of its ring |
| Scheduler.CriticalNestsExactly | rt-thread/src/scheduler.c:371-414 | an exit after n nested enters opens the scheduler for the outermost one only, exactly while n is at most 0x8000: the counter is 16 bits and signed |
| Scheduler.ScheduleKeeps | rt-thread/src/scheduler.c:185-271 | with the lock open the thread that runs is READY, no READY thread is more urgent, and it is first in line among equals |
| Scheduler.RoundRobin | rt-thread/src/clock.c:69-88 | a thread with others ahead of it in the most urgent ring runs after exactly the ticks those have left of their slices, and they stand behind it in order |
| Scheduler.SliceRuns | rt-thread/src/clock.c:76-87 | the running thread keeps the processor for exactly the ticks left of its slice, then has a full slice and the next in line runs |
| Scheduler.YieldRotates | rt-thread/src/thread.c:450-484 | a yield puts the running thread behind its equals and runs the next of them |
| Scheduler.RemoveKeeps | rt-thread/src/scheduler.c:326-366 | removing a thread keeps the bitmap exact for every other ring |
| Scheduler.InsertKeeps | rt-thread/src/scheduler.c:280-317 | inserting a thread that is in no ring keeps the whole invariant |
| Scheduler.ChangePrioExactly | rt-thread/src/thread.c:574-617 | a READY thread leaves its ring and stands last in the ring of its new priority, all other threads keep their places; any other thread only gets the priority |
| Scheduler.InsertRemoveExactly | rt-thread/src/scheduler.c:280-366 | inserting appends the thread behind its equals, removing closes the gap, and no other thread moves |
| Scheduler.ResumeExactly | rt-thread/src/thread.c:689-723 | a suspended thread leaves its wait list and stands last among its equals; any other thread stays as it is |
| Scheduler.TimeoutExactly | rt-thread/src/thread.c:732-754 | the same, and then the scheduler is called |
| Scheduler.SuspendExactly | rt-thread/src/thread.c:646-679 | a READY thread leaves its ring, to the place in the wait list it was given; any other thread stays as it is |
| Scheduler.StartupExactly | rt-thread/src/thread.c:265-297 | a new thread gets its first priority, stands last among its equals, and the scheduler is called |
| Scheduler.ExitExactly | rt-thread/src/thread.c:81-116 | the thread leaves its ring, closed, to the front of the defunct list unless it is static, and the scheduler is called |
| Scheduler.YieldExactly | rt-thread/src/thread.c:450-484 | with the lock open or closed, the running thread moves behind its equals, if it has any, and the scheduler is called |
| Scheduler.CriticalExactly | rt-thread/src/scheduler.c:371-414 | sections nest one by one, and leaving the outermost one opens the scheduler and calls it |
| Lists.UnlinkMid | rt-thread/include/rtservice.h:86-92 | taking a thread out of a list keeps the order of the others |
| Dispatcher.LinkIn | rt-thread/include/rtservice.h:58-80 | linking a thread node keeps every list of the link memory and every loose node |
| Dispatcher.TakeOut | rt-thread/include/rtservice.h:86-92 | unlinking a thread node from whatever list it is in keeps every list and leaves it loose |
| Dispatcher.AloneInList | rt-thread/src/thread.c:462-463 | tlist.next != tlist.prev exactly when the list has at least two threads |
| Dispatcher.SchedulerObject.constructor | rt-thread/src/scheduler.c:114-141 | all rings are empty |
| Dispatcher.SchedulerObject.InsertThread | rt-thread/src/scheduler.c:280-317 | equals the insert step, on links and bits |
| Dispatcher.SchedulerObject.RemoveThread | rt-thread/src/scheduler.c:326-366 | equals the remove step |
| Dispatcher.SchedulerObject.Reschedule | rt-thread/src/scheduler.c:185-271 | equals the schedule step, through __rt_ffs and the head of the ring |
| Dispatcher.SchedulerObject.StartScheduler | rt-thread/src/scheduler.c:148-173 | runs the head of the most urgent ring |
| Dispatcher.SchedulerObject.SuspendThread | rt-thread/src/thread.c:646-679 | equals the suspend step; fails exactly when the thread is not READY |
| Dispatcher.SchedulerObject.SuspendBefore | rt-thread/src/ipc.c:78-121 | suspends and links into a wait list at the place found |
| Dispatcher.SchedulerObject.ResumeThread | rt-thread/src/thread.c:689-723 | equals the resume step; fails exactly when the thread is not suspended |
| Dispatcher.SchedulerObject.ThreadTimeout | rt-thread/src/thread.c:732-754 | equals resume and schedule |
| Dispatcher.SchedulerObject.ChangePriority | rt-thread/src/thread.c:574-617 | equals the priority step: a ready thread changes ring |
| Dispatcher.SchedulerObject.YieldThread | rt-thread/src/thread.c:450-484 | equals the yield step |
| Dispatcher.SchedulerObject.ExitThread | rt-thread/src/thread.c:81-116 | equals the exit step |
| Dispatcher.SchedulerObject.StartThread | rt-thread/src/thread.c:265-297 | equals the startup step |
| Dispatcher.SchedulerObject.CreateThread | rt-thread/src/thread.c:118-160 | the node is a list of its own and the thread is in no ring |
| Dispatcher.SchedulerObject.NewWaitList | rt-thread/src/ipc.c:59-65 | a new wait list is an empty ring of the same link memory |
| Dispatcher.SchedulerObject.EnterCriticalSection | rt-thread/src/scheduler.c:371-386 | equals the enter step, on the 16-bit counter |
| Dispatcher.SchedulerObject.ExitCriticalSection | rt-thread/src/scheduler.c:392-414 | equals the exit step: it schedules when the counter is no longer positive |
| Dispatcher.SchedulerObject.TimeSlice | rt-thread/src/clock.c:76-87 | equals the slice part of a clock tick |
| MemoryRoutines.Memset | rt-thread/src/kservice.c:126-196 | the range is set to the low byte of c and nothing else changes, for every length and alignment |
| MemoryRoutines.Memcpy | rt-thread/src/kservice.c:209-280 | for every length, alignment and overlap the result is the byte-wise forward copy; if the target does not start inside the source it is the old source |
| MemoryRoutines.Memmove | rt-thread/src/kservice.c:293-312 | the target holds the old source bytes for every overlap |
| MemoryRoutines.MemcpyRightExactly | rt-thread/src/kservice.c:209-280 | the forward copy yields the old source for every memory if and only if the target does not start inside the source |
| MemoryRoutines.OverlapGoesWrong | rt-thread/src/kservice.c:209-280 | for every target inside the source, a memory for which the copy is wrong |
| MemoryRoutines.ForwardAt | rt-thread/src/kservice.c:271-272 | byte by byte, what an overlapping forward copy leaves: the first dst - src bytes repeated |
| MemoryRoutines.CopyWord | rt-thread/src/kservice.c:249-264 | a word copied between word-aligned addresses is four byte steps, whatever the overlap |
| MemoryRoutines.FillWord | rt-thread/src/kservice.c:154-179 | a stored word of equal bytes is four byte steps |
| MemoryRoutines.BackwardIsCopy | rt-thread/src/kservice.c:297-304 | copying downwards to a higher address yields the old source |
| Pages.FreeIsUntaken | rt-thread/src/slab.c:236-334 | over every run the free pages are exactly the heap pages nobody holds, and when all are given back the list is the one run it started as |
| Pages.StepKeepsInv | rt-thread/src/slab.c:236-322 | allocating and freeing keep the list ordered, disjoint and coalesced and its pages exact |
| Pages.ReleaseUndoesAlloc | rt-thread/src/slab.c:272-322 | freeing a run just allocated restores the identical list |
| Pages.Canonical | rt-thread/src/slab.c:272-322 | one set of pages has only one ordered, coalesced list |
| Pages.AllocFailsExactly | rt-thread/src/slab.c:236-270 | null exactly when there are no npages free pages in a row |
| Pages.AllocLowestRow | rt-thread/src/slab.c:236-270 | the pages handed out are the lowest free ones in a row |
| Pages.AllocTakes | rt-thread/src/slab.c:244-262 | an allocation takes exactly its pages out of the free ones, and they were free |
| Pages.ReleaseAdds | rt-thread/src/slab.c:286-317 | a release adds exactly its pages |
| Pages.ReleaseKeeps | rt-thread/src/slab.c:286-317 | a release keeps the list ordered and never leaves adjacent runs |
| Pages.PageHeap.AllocPages | rt-thread/src/slab.c:236-270 | the pointer loop equals the list function |
| Pages.PageHeap.ReleasePages | rt-thread/src/slab.c:272-322 | the pointer loop equals the list function, on each of its merge cases |
| ZoneIndex.Zoneindex | rt-thread/src/slab.c:401-459 | the branches compute the chunk size and zone number of the step table, and leave sizes from 16384 on alone |
| ZoneIndex.IndexFits | rt-thread/src/slab.c:401-459 | the zone number is below 72 and determines the chunk size |
| ZoneIndex.ChunkHolds | rt-thread/src/slab.c:401-459 | the chunk holds the request and wastes less than one step, at most an eighth from 128 bytes on |
| ZoneIndex.SameZoneSameChunk | rt-thread/src/slab.c:401-459 | two requests share a zone number exactly when they get the same chunk size |
| ZoneIndex.ChunkIsStable | rt-thread/src/slab.c:716-718 | a request of a chunk size gets that chunk size, so rt_realloc recognises it |
| ZoneIndex.StaysExactly | rt-thread/src/slab.c:716-718 | rt_realloc finds its block to be of the right chunk size exactly when the new size is above the next smaller chunk size and not above its own |
| Slab.CountsEver | rt-thread/src/slab.c:539-652 | in every run z_nfree is the never-used chunks plus the freed ones, and a zone is in its list exactly when that is not zero and it is not spare |
| Slab.StepKeepsInv | rt-thread/src/slab.c:478-904 | malloc and free keep zones, lists, spare zones, page records and page list consistent |
| Slab.MallocSmallRight | rt-thread/src/slab.c:539-652 | a chunk handed out was in nobody's hands, holds the request, and lies behind the header and inside its zone; nothing else changes hands |
| Slab.MallocFailsExactly | rt-thread/src/slab.c:539-603 | null exactly when no zone of the number has a free chunk, no spare zone is kept and no zone of free pages lies in a row |
| Slab.MallocListedExactly | rt-thread/src/slab.c:535-586 | with a zone of the right number listed, the first one serves, with its next never-used chunk or, when there is none, the chunk freed last; page list, spare zones and other zones stay, and the zone leaves the list exactly with its last chunk |
| Slab.MallocOpensExactly | rt-thread/src/slab.c:587-667 | otherwise a zone is opened: the spare zone kept last, or only without one the lowest row of free pages; it serves its first chunk and has as many chunks as fit |
| Slab.MallocLargeRight | rt-thread/src/slab.c:493-521 | a large request gets pages that were free, and they cover it |
| Slab.MallocLargeExactly | rt-thread/src/slab.c:493-521 | a large request takes exactly the lowest row of free pages that is long enough, and fails exactly when there is none or its page count wrapped to zero |
| Slab.PageCountExactly | rt-thread/src/slab.c:495-499 | the page count is the least that covers the request, or zero exactly when rounding up wraps |
| Slab.LimitExactly | rt-thread/src/slab.c:379-381 | requests are served from zones exactly below 16 KiB and a quarter of the zone size |
| Slab.FreeFinds | rt-thread/src/slab.c:795-828 | the page record of an address leads to its zone and chunk number, or to its page count |
| Slab.FreeChunkRight | rt-thread/src/slab.c:826-901 | releasing a chunk takes exactly that chunk out of the callers' hands |
| Slab.FreeChunkExactly | rt-thread/src/slab.c:826-901 | a zone leaves service exactly when its last chunk out comes back and another zone of its number has free chunks; otherwise the chunk is the next to be reused |
| Slab.FreeChunkLists | rt-thread/src/slab.c:840-876 | the zone is first in its list if it had none free, gone if it leaves service, and every other zone keeps its place |
| Slab.RetiredExactly | rt-thread/src/slab.c:854-900 | a zone that leaves service is kept in front of the spare ones while fewer than two are kept; after that exactly its pages are freed |
| Slab.FreeLargeRight | rt-thread/src/slab.c:797-820 | releasing a large allocation frees exactly its pages |
| Slab.LiveChunksApart | rt-thread/src/slab.c:539-652 | no two chunks in callers' hands overlap |
| Slab.ChunkNotInLarge | rt-thread/src/slab.c:478-667 | no chunk lies in the pages of a large allocation |
| Slab.FullMeansUnused | rt-thread/src/slab.c:854-865 | a zone whose count reached z_nmax has no chunk in anybody's hands |
| Slab.PowerOfTwoAlignedExactly | rt-thread/src/slab.c:631-638 | chunks of a power of two are aligned to their size exactly when the zone starts at a multiple of it, which holds up to the page size |
| Slab.LargeAlignedExactly | rt-thread/src/slab.c:493-521 | a request for n pages at or above the zone limit gets the lowest n free pages in a row, so it is aligned to its size exactly when the first of them is a multiple of n |
| Slab.LargeChunksMayBeUnaligned | rt-thread/src/slab.c:152-153 | on a heap of 16385 pages, where zones are 64 KiB, the first 8 KiB chunk is not aligned to its size, against the stated promise |
| Slab.LargePagesMayBeUnaligned | rt-thread/src/slab.c:152-153 | on a heap of 101 pages the first 32 KiB allocation is not aligned to its size |
| Slab.ZoneHolds | rt-thread/src/slab.c:628-645 | a zone has room for at least two chunks and none reaches past its end |
| Slab.ZoneIsFilled | rt-thread/src/slab.c:628-645 | one chunk more would reach past the end of the zone |
| Slab.BaseExactly | rt-thread/src/slab.c:631-641 | the chunks start at the first multiple behind the header: of the chunk size if it is a power of two, of 8 otherwise |
| Slab.ZoneSize | rt-thread/src/slab.c:374-377 | 32, 64 or 128 KiB, as the loop chooses from the size of the heap |
| Slab.TableTaken | rt-thread/src/slab.c:388-391 | after the memusage table took its pages, one run of the remaining ones is free |
| Slab.BootInv | rt-thread/src/slab.c:344-395 | the heap that rt_system_heap_init builds satisfies the invariant, for every number of pages |
| Slab.SlabHeap.constructor | rt-thread/src/slab.c:344-395 | free pages, zone size and memusage table as the number of pages says |
| Slab.SlabHeap.Malloc | rt-thread/src/slab.c:478-667 | equals the malloc step and returns the address |
| Slab.SlabHeap.Free | rt-thread/src/slab.c:771-904 | equals the free step; null changes nothing |
| Pwm.RegistersFit | drivers/drv_pwm.c:66-77 | the product fits 32 bits, prescaler and reload fit 16 bits, for every request |
| Pwm.PrescaleLeast | drivers/drv_pwm.c:66-71 | the prescaler is the least divisor that brings the period below the 16-bit maximum |
| Pwm.PeriodTicksExactly | drivers/drv_pwm.c:66-76 | the reload value is the number of whole prescaled ticks in the period, or the minimum below three clocks |
| Pwm.PulseTicksExactly | drivers/drv_pwm.c:78-86 | the compare value is the number of whole prescaled ticks in the pulse, raised to the minimum or cut to the period exactly when it is outside |
| Pwm.PulseWithinPeriod | drivers/drv_pwm.c:78-86 | compare never exceeds reload |
| Pwm.PeriodReadBackExactly | drivers/drv_pwm.c:39-77 | the read-back period is at most the request and short of it by less than one prescaled tick plus 1 ns, if and only if the 32-bit product in get does not overflow and the request was not raised to the minimum, or was the minimum already |
| Pwm.LongPeriodOverflows | drivers/drv_pwm.c:39-77 | 100 ms at 72 MHz reads back as 40346843 ns |
| Pwm.PulseReadBackExactly | drivers/drv_pwm.c:54-86 | the exact condition for every pulse: one that was kept, one raised to the minimum, one cut to the period |
| Pwm.PulseReadBackWithin | drivers/drv_pwm.c:53-54 | a pulse never reads back longer than the period when the period does not overflow |
| Pwm.Timer.Set | drivers/drv_pwm.c:60-90 | the registers hold the computed prescaler, reload and compare values |
| Pwm.Timer.Get | drivers/drv_pwm.c:39-58 | what is read back from the registers, with the clock division that only get applies |

## Left out

- SmallHeap.Heap.constructor: the branch of `rt_system_heap_init` that rejects a region too small for two headers is not modelled.
- `rt_calloc`, the names kept by `RT_USING_MEMTRACE`, and the `prev` field of `heap_end`, which the code does not maintain on every path.
- MemHeap.Heap.GrowWrapped: links are kept by header address, so that the new header also overwrites fields of the block's own header is seen in the bytes of the arena but not in the links.
- Memheap magic words are reduced to the used flag, and the registry of heaps that `rt_malloc` searches with `RT_USING_MEMHEAP_AS_HEAP` is not modelled.
- Timers.TimerSystem.StartTimer: the rows are sequences of timers; the `row` links inside a timer are those of `Rings` and are not modelled again.
- Soft timers, `rt_tick_set`, the timer hooks, and callbacks that start or stop timers.
- Mailbox, message queue, event and mutex wait lists are sequences; that their links hold those sequences is proved once, in `Rings` and `Dispatcher`.
- The remaining timeout of a thread that has to wait again is not computed: a step is told whether the thread may still wait, so every value of it is covered.
- `thread->error` is modelled as the reason a waiter leaves its wait list.
- Detaching, deleting and creating IPC objects, semaphores, mailbox and queue names, and the retry after a signal.
- Several mutexes held by one thread: a boost through another mutex is a change of priority here; the priority given back belongs to the mutex released, and nothing is claimed across mutexes.
- Event.EventObject.Deliver: an event set is a set of bit numbers below 32, not a machine word.
- SchedulerRegions.ReadySetEver: requires that nobody else moves a thread that is being resumed or suspended; `SchedulerRegions.RegionKeepsExactly` says what happens otherwise.
- Scheduler.StepKeepsInv: priorities are limited to 32; the 256-priority table, the context switch, the stack check, the hooks and the clean-up of defunct threads by the idle thread are not modelled.
- Slab.SlabHeap.Free: `rt_realloc`, `rt_calloc`, the statistics and the magic word are not modelled; freed chunks are chunk numbers, not links inside the chunks.
- Slab.Base: the bit test for a power of two is the list of the powers of two a chunk size can be.
- MemoryRoutines.Memset: the variants under `RT_TINY_SIZE` and the other string routines of `kservice.c` are not modelled.
- Bits.LowestBitIsLowest: `__lowest_bit_bitmap` is written by rows and columns rather than as 256 literals.
- Pwm.Timer.Get: the clock division is read from the timer; the round trips are stated for an undivided clock, the one `drv_pwm_set` computes with.
- Register access, enabling and disabling PWM channels, all other drivers, the GUI and the build tools.
- `mempool.c`, `object.c`, `device.c`, `idle.c`, `irq.c`, `components.c`, `signal.c`: registries, counters and start-up order.
