# A verified model of the Pintos kernel

This project models the kernel under `project3/` and proves what its parts
promise.  The machine is the 32-bit one of the kernel: where a size, an address
or a counter can wrap around, the model wraps it too.  Run
`dafny verify dfyconfig.toml` to check everything.

## The modules

Code that changes things in place is a class whose methods change its fields or
an array; a method says what its new state is, mostly as a function of the old
one, and lemmas about those functions say what that is good for.

**Scheduler and synchronization.**  `Threads` has the run queue, the dispatch
and the idle thread of `threads/thread.c`, `Synch` the semaphores, locks and
condition variables of `threads/synch.c`.  One stretch of code with interrupts
off is one step.  `SynchSystem` is the state machine of any number of threads
that run these steps in any interleaving: every thread has a program counter
such as "asleep on this semaphore", "woken but not yet past the loop" or "past
the down of this lock while `holder` is still null", a preemption can come
between any two steps, and a wakeup does not keep another thread from taking the
unit first.  The main results are an invariant of all reachable states and its
consequences: no lost wakeup, mutual exclusion, signals in the order of the
waits, and exactly when a thread in the run queue has its turn.  `SynchOrder` has
what the calls come to over whole runs: sleepers are woken in the order in which
they fell asleep, a down returns with a unit, an acquire or a wait with the lock.

**Allocators.**  `Bits` and `Bitmap` have the words of `lib/kernel/bitmap.c` and
the sequence of booleans they stand for, `Palloc` the two page pools on top of
it, `HeapModel` and `Malloc` the block allocator on top of a pool.  The contents
of memory are a function from addresses to bytes, so that "other blocks keep
their contents" can be said.

**File system.**  `InodeIO` has reading and writing through a bounce buffer
against the plain patch of a byte array.  `FreeMap` is the bitmap of sectors and
its copy in a file.  `FsModel` and `FileSys` have the sectors that inodes own,
the in-memory inodes with their counters, the handles, and the root directory,
for any sequence of calls of create, open, reopen, write, deny, allow, close and
remove; a write through a handle is joined to the bytes on the device, so that
the ownership of sectors says which files keep their bytes.

**Data structures and algorithms.**  `MergeSpec` and `List` have the doubly
linked list and its in-place natural merge sort, `Hash` the resizing table,
`HeapSort` the sort and the binary search of `lib/stdlib.c`, `Arithmetic` the
64-bit division built from 32-bit division.

**Translation and layout.**  `Pagedir` has the two-level page table, `ElfLoad`
the loading of program headers, `Strtok` the tokenizer of `lib/string.c`,
`ArgStack` the argument stack, `Printf` the integer conversions and `Ustar` the tar headers.

`Common` holds a few shared definitions.

## Failures

A failing allocation, or a write that comes up short for want of memory, is a
nondeterministic choice or a parameter of the call, so the results say what
happens either way.

- `memory` (in `FileSys`) says that malloc always gives a `struct inode`,
  `inode_disk`, `file` or `dir`, and `reliable` (in `FreeMap`) that no write of
  the free map comes up short; with both, a call's success is stated as an if and
  only if.
- Every 20-byte read or write of a directory entry needs a bounce buffer.
  `EntryIo`, a parameter of the calls that change the directory, says how many
  reads each scan gets and whether the write succeeds; `filesys_open` has a number
  of reads.  `Whole` says that none fails.
- `InodeIO` has a parameter for the bounce buffer, `Pagedir` and `ElfLoad` for the
  pages that the page allocator gives.

## Where the code does less than its documentation or its callers expect

Each of these is stated exactly in the table below.

- `umod64` and `smod64` return 32-bit types, so they are the remainder for every
  dividend exactly for divisors up to 2^32 and 2^31 in magnitude
  (`UmodCorrectExactlyForSmallDivisors`, `SmodCorrectExactlyForSmallDivisors`).
  `sdiv64` is exact but for the least number divided by -1.
- `malloc` of a size near 2^32 wraps around in computing the number of pages
  (`BigPagesSufficeExactlyWithoutWrap`, with an input in `GreatestSizeWraps`).
  `realloc` to one of the last 11 sizes then copies past its new block if the old
  one has more than 4084 bytes, and only then (`WrappingPages`,
  `CopyStaysInsideExactlyWhen`, with an input in `ReallocCanOverrun`).
- The scans of `lookup` and `dir_add` take a read that fails for the end of the
  directory.  When memory is back for the write, `dir_add` overwrites the entry of
  another file (`OverwritesExactlyWhen`) or gives a name to a second file
  (`DuplicatesExactlyWhen`), with an input for both in `CutScansDoHarm` and a run in
  which a file is lost with its sectors in `CutScanLosesFile`.  What survives such
  a call is still proved: the ghost field `intact` says that there was none so far,
  and only the uniqueness of names and the fate of displaced files depend on it.
- `filesys_create` gives back only the header sector when the directory refuses
  the name, so the data sectors stay in use without an owner (`LeakExactlyWhen`,
  with an input in `CreateLeaks`).
- `bitmap_scan_and_flip` with a count of zero returns its start rather than the 0
  that its comment announces (`EmptyRunIsAtStart`, with an input in
  `EmptyRunAtOne`).
- The padding loop of `format_stack_args` writes at every other byte, also beyond
  the padding; when it does what it is for says `ClearsPaddingExactlyWhen`, with
  an input for the contrary in `PaddingLoopMisses`.  On the zeroed page that it
  gets it changes nothing (`ZeroPaddingStays`).
- `load` and `format_stack_args` split the command line at different characters, so
  the file loaded is not always the one that `argv[0]` names
  (`LoadsArgv0ExactlyWhen`, with an input in `TabSplitsFileName`).
- `ustar_make_header` accepts a negative size, which the parser then refuses
  (`Ustar.RoundTrip`).
- `pagedir_destroy` frees a frame twice if it is mapped twice
  (`DestroyFreesEachOnce`, with an input in `DestroyCanFreeTwice`).

## Model

| member | source | states |
|---|---|---|
| `Threads.NextExists` | project3/threads/thread.c:501-508 | schedule() is never handed a null thread: while idle_thread is still null there is a thread to run in every call that callers can make |
| `Threads.BootInv` | project3/threads/thread.c:108-123 | the state after thread_start satisfies the scheduler invariant |
| `Threads.StepInv` | project3/threads/thread.c:226-256 | every scheduler step keeps: exactly one RUNNING thread, ready_list holds the READY threads other than idle_thread, each once, and slices stay below TIME_SLICE |
| `Threads.StatusAfterStep` | project3/threads/thread.c:226-329 | what a step does to which threads are blocked: only the thread that blocks, wakes, appears or exits changes |
| `Threads.PlaceAfterStep` | project3/threads/thread.c:501-577 | one step leaves a queued thread at its place, or moves it up by exactly one if the step calls schedule(), or makes it the running thread |
| `Threads.PlaceAfterRun` | project3/threads/thread.c:501-577 | over any run, a thread at place k of ready_list has moved up by the number of schedule() calls, as long as that is at most k |
| `Threads.DispatchedAtItsTurn` | project3/threads/thread.c:501-577 | the thread at place k is the one the (k+1)-th later schedule() call switches to, and no other |
| `Threads.TicksForceSwitches` | project3/threads/thread.c:126-144 | every TIME_SLICE timer ticks contain a schedule() call |
| `Threads.TurnComesWithinTicks` | project3/threads/thread.c:126-144 | (k+1) time slices of ticks contain more than k schedule() calls, so the thread at place k has had its turn |
| `Threads.YieldGoesRound` | project3/threads/thread.c:313-327 | thread_yield gives the processor to the thread that has waited longest, and the one that yields waits behind all others |
| `Threads.SliceAfterStep` | project3/threads/thread.c:126-144 | a step that calls schedule() begins a new slice, any other tick adds one to the slice, and nothing else touches it |
| `Threads.ClockSwitchesExactly` | project3/threads/thread.c:126-144 | while no thread gives up the processor itself, the schedule() calls in a run are the ticks of slice and run divided by TIME_SLICE: the clock takes the processor away neither later nor earlier |
| `Threads.SliceIsWhole` | project3/threads/thread.c:126-144 | so a thread just switched to has the processor for exactly the next TIME_SLICE - 1 ticks unless it gives it up |
| `Threads.DestroyedExactly` | project3/threads/thread.c:526-554 | a step destroys a thread exactly if that thread exits and is not initial_thread |
| `Threads.InitialStays` | project3/threads/thread.c:541-554 | initial_thread is there in every run |
| `Threads.Scheduler.NextThreadToRun` | project3/threads/thread.c:501-508 | pops the front of ready_list, or gives idle_thread |
| `Threads.Scheduler.ThreadScheduleTail` | project3/threads/thread.c:526-554 | marks the new thread running, starts a slice and destroys a dying predecessor other than initial_thread |
| `Threads.Scheduler.ScheduleNext` | project3/threads/thread.c:563-577 | schedule(): the whole new scheduler state |
| `Threads.Scheduler.ThreadBlock` | project3/threads/thread.c:226-234 | the whole new scheduler state after thread_block |
| `Threads.Scheduler.ThreadUnblock` | project3/threads/thread.c:244-256 | the whole new scheduler state after thread_unblock |
| `Threads.Scheduler.ThreadYield` | project3/threads/thread.c:313-327 | the whole new scheduler state after thread_yield; the idle thread does not queue |
| `Threads.Scheduler.ThreadExit` | project3/threads/thread.c:293-309 | the whole new scheduler state after thread_exit |
| `Threads.Scheduler.ThreadTick` | project3/threads/thread.c:126-144 | the tick, and the yield it brings about at the end of a slice |
| `Synch.Semaphore.DownSection` | project3/threads/synch.c:60-76 | one pass of the loop of sema_down: with a positive count it takes a unit and is done, else the running thread goes to the end of the waiters and blocks |
| `Synch.Semaphore.TryDownSection` | project3/threads/synch.c:83-101 | takes a unit exactly if the count is positive |
| `Synch.Semaphore.UpSection` | project3/threads/synch.c:108-121 | the longest waiting thread, if any, leaves the waiters and becomes ready; the count goes up, modulo 2^32 |
| `Synch.Lock.FinishAcquire` | project3/threads/synch.c:200 | the last line of lock_acquire: the running thread becomes the holder |
| `Synch.Lock.TryAcquire` | project3/threads/synch.c:209-221 | takes the lock exactly if it is free |
| `Synch.Lock.Release` | project3/threads/synch.c:228-236 | clears the holder and ups the semaphore |
| `Synch.Condition.Enlist` | project3/threads/synch.c:287-302 | a fresh private semaphore goes to the end of the waiters |
| `Synch.Condition.Signal` | project3/threads/synch.c:311-323 | the oldest call leaves the waiters and its semaphore is upped; without waiters nothing happens |
| `Synch.Condition.Broadcast` | project3/threads/synch.c:330-338 | every waiting call is upped once, oldest first, and the queue is empty |
| `SynchSystem.PassIsDownPass` | project3/threads/synch.c:60-76 | the step of the state machine on a semaphore is the pass that class Semaphore makes |
| `SynchSystem.BootKeepsInv` | project3/threads/thread.c:108-123 | with any semaphores, locks and conditions, the initial state satisfies the invariant |
| `SynchSystem.InvDefined` | project3/threads/thread.c:563-577 | in a reachable state every event that can happen is defined: no null thread is dispatched and no semaphore, lock or condition is unknown |
| `SynchSystem.StepRefines` | project3/threads/thread.c:226-577 | the scheduler part of every event that can happen is one enabled scheduler step, thread_unblock only of a blocked thread, and nothing else of the scheduler changes |
| `SynchSystem.StepKeepsInv` | project3/threads/synch.c:60-338 | every event of any number of threads in any interleaving of the interrupts-off sections keeps the invariant |
| `SynchSystem.ReachableInv` | project3/threads/synch.c:60-338 | the invariant holds in every state of every run from every initial state |
| `SynchSystem.StepReaches` | project3/threads/synch.c:60-338 | every step from a reachable state is defined and leads to a reachable state |
| `SynchSystem.RunRefinesScheduler` | project3/threads/thread.c:226-577 | the scheduler part of a run is a run of the scheduler alone, so its bounds hold under synchronization |
| `SynchSystem.PreemptionIsFair` | project3/threads/thread.c:126-144 | a preemption, or the tick that ends a slice, gives the processor to the thread that has waited longest and puts the other behind all; any other tick lets it run on |
| `SynchSystem.NoLostWakeup` | project3/threads/synch.c:60-121 | in a reachable state with sleepers, the count is at most the number of threads woken that have yet to retest the loop, and each of those is running or on ready_list |
| `SynchSystem.WokenThreadGetsItsTurn` | project3/threads/synch.c:60-121 | in every run, after as many schedule() calls as there are threads before it on ready_list, the next call switches to the woken thread; it is still to retest the count then, and the retest is the only thing that can happen next |
| `SynchSystem.WokenStays` | project3/threads/synch.c:60-121 | until then it stays woken on its semaphore and moves up ready_list by one place per schedule() call, over every run |
| `SynchSystem.SleepersBlockedOnce` | project3/threads/synch.c:60-76 | a thread asleep on a semaphore is BLOCKED, is on that waiters list once and on no other |
| `SynchSystem.CountIsUpsLessDowns` | project3/threads/synch.c:60-121 | at all times the count is the initial value plus the ups less the completed downs, modulo 2^32 |
| `SynchSystem.MutualExclusion` | project3/threads/synch.c:192-236 | two threads between a completed lock down and the release up are the same thread, also while holder is null, and the count is then zero |
| `SynchSystem.WaiterAssertionsHold` | project3/threads/synch.c:228-302 | lock_held_by_current_thread holds where cond_wait releases the lock, and its absence where it reacquires it |
| `SynchSystem.SignalsInOrder` | project3/threads/synch.c:287-323 | signals go to calls of cond_wait in the order of the calls, each call signalled at most once |
| `SynchSystem.SignalReachesCaller` | project3/threads/synch.c:287-323 | a signalled call that has not slept yet finds its count and does not sleep; one that sleeps is woken |
| `SynchOrder.QueueAfterStep` | project3/threads/synch.c:60-121 | in one event at most one thread falls asleep on a semaphore and at most one wakes; one wakes exactly if the event is an up and there are waiters, and it is the first of them |
| `SynchOrder.WokenInOrder` | project3/threads/synch.c:60-121 | over every run: the waiters at its start and then those who fell asleep are those woken and then the waiters at its end, in this order |
| `SynchOrder.FirstAsleepFirstWoken` | project3/threads/synch.c:60-121 | from boot on, the n-th thread woken on a semaphore is the n-th that fell asleep on it |
| `SynchOrder.SleepsOn` | project3/threads/synch.c:60-121 | a thread at place i of the waiters sleeps on through i ups, in every run |
| `SynchOrder.WokenAtItsUp` | project3/threads/synch.c:108-121 | and exactly the (i+1)-th later up wakes it, and nobody else |
| `SynchOrder.CountOverRun` | project3/threads/synch.c:60-121 | over every run the count changes by the ups less the units taken, modulo 2^32 |
| `SynchOrder.DownReturnsWithUnit` | project3/threads/synch.c:60-76 | sema_down returns exactly when its caller takes a unit |
| `SynchOrder.ReturnsWithLock` | project3/threads/synch.c:192-302 | lock_acquire and cond_wait go through their stages in order and return only as the holder of the lock |
| `SynchOrder.CallsBegin` | project3/threads/synch.c:192-302 | where the calls begin; lock_try_acquire takes the lock exactly if no thread is inside |
| `MergeSpec.RunEndMeaning` | project3/lib/kernel/list.c:357-371 | the end of a run is the first place where an element is less than the one before |
| `MergeSpec.MergeSorted` | project3/lib/kernel/list.c:379-396 | merging two sorted runs gives a sorted sequence, for a strict weak order |
| `MergeSpec.MergeStable` | project3/lib/kernel/list.c:379-396 | equivalent elements keep their order, those of the first run first |
| `MergeSpec.PassHalvesRuns` | project3/lib/kernel/list.c:404-440 | a pass over R runs leaves at most ceil(R/2), and counts them |
| `MergeSpec.MergeSortSortsStably` | project3/lib/kernel/list.c:404-440 | list_sort: a sorted, stable rearrangement of the input, for every strict weak order |
| `MergeSpec.PassesAreLogarithmic` | project3/lib/kernel/list.c:404-440 | it makes at most max(1, ceil(log2 R)) passes |
| `MergeSpec.CeilLog2Meaning` | project3/lib/kernel/list.c:399-404 | that logarithm is the least k with 2^k at least n |
| `List.List.constructor` | project3/lib/kernel/list.c:60-68 | an empty, well-formed list |
| `List.List.KindOfNode` | project3/lib/kernel/list.c:38-58 | is_head, is_interior and is_tail tell the places of nodes |
| `List.List.Insert` | project3/lib/kernel/list.c:168-178 | the element is linked in before the given one and nothing else moves |
| `List.List.Remove` | project3/lib/kernel/list.c:248-255 | the element is unlinked and the next one returned |
| `List.List.Splice` | project3/lib/kernel/list.c:183-204 | within a list, the range moves in one piece to an earlier place, by six pointer writes |
| `List.List.SpliceLater` | project3/lib/kernel/list.c:183-204 | within a list, the range moves in one piece to a later place, or stays where it is if it is to go right behind itself |
| `List.List.SpliceFrom` | project3/lib/kernel/list.c:183-204 | from another list, the range leaves that list and joins this one, both staying well formed |
| `List.List.FindEndOfRun` | project3/lib/kernel/list.c:357-371 | finds the end of the run |
| `List.List.InplaceMerge` | project3/lib/kernel/list.c:379-396 | merges two adjacent runs in place into what the merge of sequences gives |
| `List.List.SortPass` | project3/lib/kernel/list.c:410-438 | one pass: the nodes end up as the pass on sequences says, and the runs are counted |
| `List.List.Sort` | project3/lib/kernel/list.c:404-440 | the list is well formed with exactly the old elements, sorted and stable, after at most max(1, ceil(log2 R)) passes |
| `List.List.Reverse` | project3/lib/kernel/list.c:325-338 | the same nodes in reverse order, linked both ways |
| `List.List.InsertOrdered` | project3/lib/kernel/list.c:445-459 | the element goes after all it is not less than, so a sorted list stays sorted |
| `Arithmetic.Nlz` | project3/lib/arithmetic.c:41-73 | the number of leading zero bits of a nonzero word |
| `Arithmetic.DivlFits` | project3/lib/arithmetic.c:25-37 | the quotient of the divide instruction fits in 32 bits exactly if the high word is below the divisor |
| `Arithmetic.Estimate` | project3/lib/arithmetic.c:92-127 | in the large-divisor branch the shifted estimate is the true quotient or one more |
| `Arithmetic.CorrectedIsExact` | project3/lib/arithmetic.c:92-127 | the correction by one makes it exact, without wrapping |
| `Arithmetic.Udiv64` | project3/lib/arithmetic.c:77-128 | for every 64-bit n and nonzero d the result is floor(n/d), and no divide instruction traps |
| `Arithmetic.UmodIsNarrowedRemainder` | project3/lib/arithmetic.c:131-135 | umod64 is the remainder modulo 2^32, its return type |
| `Arithmetic.UmodCorrectExactlyForSmallDivisors` | project3/lib/arithmetic.c:131-135 | umod64 is the remainder for all n exactly if d is at most 2^32; for a larger d there is an n for which it is not |
| `Arithmetic.SdivIsTruncatedQuotient` | project3/lib/arithmetic.c:137-147 | sdiv64 is the quotient rounded toward zero modulo 2^64, hence exact but for the least number divided by -1 |
| `Arithmetic.SmodIsNarrowedRemainder` | project3/lib/arithmetic.c:149-154 | smod64 is the remainder with the sign of n, narrowed to 32 bits |
| `Arithmetic.SmodCorrectExactlyForSmallDivisors` | project3/lib/arithmetic.c:149-154 | smod64 is that remainder for all n exactly if |d| is at most 2^31 |
| `Bits.AndWithMask` | project3/lib/kernel/bitmap.c:195-203 | a word ANDed with a one-bit mask is nonzero exactly if the bit is on |
| `Bits.AndIsRemainder` | project3/lib/kernel/hash.c:304-310 | masking with 2^k - 1 is the remainder modulo 2^k |
| `Bitmap.MarkSetsOneBit` | project3/lib/kernel/bitmap.c:155-166 | the OR instruction turns on one bit of a word and no other |
| `Bitmap.ResetClearsOneBit` | project3/lib/kernel/bitmap.c:168-179 | the AND instruction turns off one bit and no other |
| `Bitmap.FlipFlipsOneBit` | project3/lib/kernel/bitmap.c:181-194 | the XOR instruction flips one bit and no other |
| `Bitmap.OneBitOfView` | project3/lib/kernel/bitmap.c:33-47 | one bit of one word is one element of the sequence of bits |
| `Bitmap.LastMaskBits` | project3/lib/kernel/bitmap.c:63-70 | last_mask has exactly the bits in use of the last word |
| `Bitmap.Bitmap.constructor` | project3/lib/kernel/bitmap.c:74-94 | all bits off |
| `Bitmap.Bitmap.Mark` | project3/lib/kernel/bitmap.c:155-166 | the sequence of bits with one on |
| `Bitmap.Bitmap.Reset` | project3/lib/kernel/bitmap.c:168-179 | the sequence of bits with one off |
| `Bitmap.Bitmap.Flip` | project3/lib/kernel/bitmap.c:181-194 | the sequence of bits with one flipped |
| `Bitmap.Bitmap.Test` | project3/lib/kernel/bitmap.c:196-203 | the bit |
| `Bitmap.Bitmap.SetMultiple` | project3/lib/kernel/bitmap.c:216-228 | exactly cnt bits from start on get the value |
| `Bitmap.Bitmap.Contains` | project3/lib/kernel/bitmap.c:248-263 | is any of the bits equal to the value |
| `Bitmap.Bitmap.Scan` | project3/lib/kernel/bitmap.c:291-310 | the least start of a run of cnt such bits at or after start, or none if there is none |
| `Bitmap.Bitmap.ScanAndFlip` | project3/lib/kernel/bitmap.c:312-326 | the same run, and just its bits are flipped; for a count of 0 the start, and nothing changes |
| `Bitmap.EmptyRunIsAtStart` | project3/lib/kernel/bitmap.c:312-326 | for a count of 0 the result is the start, so it is the documented 0 exactly for a scan from bit 0 |
| `Bitmap.EmptyRunAtOne` | project3/lib/kernel/bitmap.c:312-326 | an input that shows it: a scan for no bits from bit 1 gives 1 |
| `Bitmap.Bitmap.Write` | project3/lib/kernel/bitmap.c:353-360 | an image, the words of the bitmap, from which all bits can be read back |
| `Bitmap.Bitmap.Read` | project3/lib/kernel/bitmap.c:338-351 | all bit_cnt bits of the image, and the unused bits of the last word off, so reading undoes writing |
| `Bitmap.LastWord` | project3/lib/kernel/bitmap.c:346-349 | masking the last word clears the unused bits and no other |
| `Palloc.Pool.constructor` | project3/threads/palloc.c:151-170 | the bitmap takes the fewest pages that hold it, at the start, and the pool all others of the pages given; no page is used |
| `Palloc.Pool.Get` | project3/threads/palloc.c:70-101 | the lowest run of unused pages, which become used and no others; none exactly if there is no such run or none is asked for |
| `Palloc.Pool.FirstRunIsLowest` | project3/threads/palloc.c:80-87 | the first run of clear bits is the lowest free run of pages |
| `Palloc.Pool.Free` | project3/threads/palloc.c:116-142 | exactly these pages become unused |
| `Palloc.PageAllocator.constructor` | project3/threads/palloc.c:43-62 | the user pool with its bitmap takes the last min(user_page_limit, half) pages of free memory, the kernel pool with its own all the rest; no page is in both |
| `Palloc.PageAllocator.GetMultiple` | project3/threads/palloc.c:70-101 | the lowest free run of the right pool, of pages used in neither |
| `Palloc.PageAllocator.FreeMultiple` | project3/threads/palloc.c:116-142 | the pool is found from the page; exactly these pages become unused |
| `HeapModel.BlockToArena` | project3/threads/malloc.c:266-294 | rounding a block down to its page finds its arena |
| `HeapModel.ArenaIsFull` | project3/threads/malloc.c:70-85 | block sizes double from 16 to below half a page, and an arena has as many blocks as fit behind its header |
| `HeapModel.BlocksDisjoint` | project3/threads/malloc.c:87-154 | distinct blocks, in use or free, small or big, have no byte in common |
| `HeapModel.BlocksMissHeaders` | project3/threads/malloc.c:49-55 | no block overlaps the header of any arena |
| `HeapModel.BlockInArena` | project3/threads/malloc.c:284-294 | a block lies within the pages of its arena, after the header |
| `HeapModel.BlocksConserved` | project3/threads/malloc.c:49-55 | in every small arena live blocks and free_cnt add up to blocks_per_arena |
| `HeapModel.FreeIdxBound` | project3/threads/malloc.c:241-254 | free_cnt reaches blocks_per_arena exactly when every block is on the free list |
| `HeapModel.AddArenaWellFormed` | project3/threads/malloc.c:124-146 | a new arena with all its blocks on the free list changes nothing that is live |
| `HeapModel.PopWellFormed` | project3/threads/malloc.c:148-153 | taking the front block makes just that block live and keeps the counts right |
| `HeapModel.PushWellFormed` | project3/threads/malloc.c:238-242 | pushing a freed block makes just that block not live and keeps the counts right |
| `HeapModel.DroppedWellFormed` | project3/threads/malloc.c:241-253 | withdrawing a fully free arena changes nothing that is live |
| `Malloc.BigPagesSufficeExactlyWithoutWrap` | project3/threads/malloc.c:105-120 | the pages of a big block hold the request exactly if size + header + rounding does not wrap around 32 bits |
| `Malloc.GreatestSizeWraps` | project3/threads/malloc.c:105-120 | an input that shows it: for 2^32 - 1 bytes malloc takes one page, a block of 4084 bytes |
| `Malloc.WrappingPages` | project3/threads/malloc.c:105-120 | of the sizes for which the sum wraps, malloc takes one page for the last 11 and gives null for all others |
| `Malloc.CopyStaysInsideExactlyWhen` | project3/threads/malloc.c:188-214 | given a block, the copy of realloc stays inside it exactly if the sum does not wrap, or the old block has at most 4084 bytes |
| `Malloc.ReallocCanOverrun` | project3/threads/malloc.c:188-214 | an input for which it does not: an old block from malloc (5000) and the new size 2^32 - 1 copy 4096 bytes too many |
| `Malloc.Heap.constructor` | project3/threads/malloc.c:70-85 | malloc_init: seven descriptors, sizes 16 to 1024, and a consistent empty heap |
| `Malloc.Heap.FindDesc` | project3/threads/malloc.c:100-104 | the smallest block size that holds the request |
| `Malloc.Heap.Malloc` | project3/threads/malloc.c:87-154 | a block not live before, of at least size bytes exactly if the page count does not wrap, of the smallest class; all other blocks stay live, in place and with their contents; from the front of the free list without touching the pool if there is one, else on new pages; null, with nothing changed, exactly for 0 bytes, a page count that wraps to 0, or pages that are not there; no page of another user of the pool is taken and none is lost |
| `Malloc.Heap.Free` | project3/threads/malloc.c:216-264 | just that block stops being live, others keep their contents; if its arena has no block in use left, its pages are unused again, and no other page is; else the block is at the front of its free list |
| `Malloc.Heap.FreeThenMalloc` | project3/threads/malloc.c:87-264 | free and then malloc of the same class give the same block, without touching the pool, if its arena has another block in use |
| `Malloc.Heap.ReturnArena` | project3/threads/malloc.c:241-253 | a fully free arena leaves the free list and gives back its page |
| `Malloc.Heap.Realloc` | project3/threads/malloc.c:188-214 | when the copy stays inside the new block: the new block begins with the first min(new, old) bytes of the old one, which is freed, and no page is lost; for every size a failure leaves the old block and all memory as it is |
| `Malloc.Heap.SizeOfBlock` | project3/threads/malloc.c:177-186 | the capacity of a block, small or big |
| `InodeIO.Inode.ReadAt` | project3/filesys/inode.c:175-228 | transfers the bytes of the file slice, as many as TransferredMeaning says; the rest of the buffer is untouched |
| `InodeIO.TransferredMeaning` | project3/filesys/inode.c:175-296 | with a bounce buffer max(0, min(size, length - offset)) bytes; without one the whole sectors of those, if the offset is at the start of a sector, and else nothing |
| `InodeIO.Inode.WriteAt` | project3/filesys/inode.c:230-296 | the disk is patched with exactly the bytes transferred and no other byte of any sector changes; nothing is written while writes are denied |
| `InodeIO.FileOfPatch` | project3/filesys/inode.c:230-296 | the file after a write is the old file with the data in place, so a read there returns the data |
| `InodeIO.OtherFileOfPatch` | project3/filesys/inode.c:230-296 | a file in other sectors is unchanged |
| `InodeIO.OtherSectorOfPatch` | project3/filesys/inode.c:230-296 | sectors outside the file are unchanged |
| `InodeIO.PatchJoins` | project3/filesys/inode.c:246-292 | chunks written one after the other are one write |
| `InodeIO.Inode.ReadChunk` | project3/filesys/inode.c:201-218 | a chunk read directly or through the bounce buffer is that slice of the file |
| `InodeIO.Inode.WriteChunk` | project3/filesys/inode.c:262-286 | a chunk written directly or merged in the bounce buffer patches just those bytes |
| `FreeMap.FreeMap.constructor` | project3/filesys/free-map.c:11-20 | sectors 0 and 1 are in use |
| `FreeMap.FreeMap.Allocate` | project3/filesys/free-map.c:22-41 | the lowest run of unused sectors, or none and an unchanged map, only if there is no such run or the write failed; nothing at all changes if there is no run, and afterwards the file holds the map unless a write failed |
| `FreeMap.FreeMap.WriteFile` | project3/filesys/free-map.c:22-50 | the write of the map through inode_write_at: it comes up short only without a bounce buffer and for a size that is not of whole sectors, and then the whole sectors are written and the rest stays |
| `FreeMap.FreeMap.Release` | project3/filesys/free-map.c:43-50 | exactly these sectors become unused; the result says whether the write failed, and if not the file holds the map |
| `FreeMap.FreeMap.Open` | project3/filesys/free-map.c:52-61 | reading the map back changes nothing unless the last write failed |
| `FreeMap.FreeMap.FileMirrorsMap` | project3/filesys/free-map.c:22-61 | in every state after allocations and releases, if no write fails, the file holds the map |
| `FsModel.ReopenKeeps` | project3/filesys/inode.c:122-129 | another reference to an open inode keeps the invariant |
| `FsModel.OpenKeeps` | project3/filesys/inode.c:107-119 | a new in-memory inode for a sector that has none keeps the invariant: one inode per sector |
| `FsModel.CloseKeeps` | project3/filesys/inode.c:138-164 | closing a reference keeps the invariant; the sectors of a removed inode go with its last reference and with no other |
| `FsModel.RefusedExactlyWhileDenied` | project3/filesys/inode.c:298-316 | deny_write_cnt is positive exactly while some open file denies writes, and is at most open_cnt, which is the number of files open on the inode |
| `FsModel.ExtentSize` | project3/filesys/inode.c:12-18 | an inode owns 1 + ceil(length/512) sectors |
| `FsModel.EraseKeeps` | project3/filesys/directory.c:189-196 | erasing the entry and marking the inode keeps its sectors owned while it is open |
| `FsModel.AddKeeps` | project3/filesys/directory.c:156-160 | a new entry, at a free slot or over another one, makes its inode an owner and keeps all owners disjoint; a file displaced by it keeps its sectors only while another name or handle is there |
| `FsModel.WholeAdds` | project3/filesys/directory.c:120-164 | when no scan is cut short, dir_add succeeds exactly for a valid, unused name with a free slot, and neither overwrites an entry nor duplicates a name |
| `FsModel.OverwritesExactlyWhen` | project3/filesys/directory.c:144-160 | a successful dir_add overwrites an entry in use exactly if its search for a slot is cut short and every entry up to the cut is in use |
| `FsModel.DuplicatesExactlyWhen` | project3/filesys/directory.c:71-97 | and it gives a name to a second file exactly if lookup is cut short before an entry of that name, other than the one overwritten |
| `FsModel.CutScansDoHarm` | project3/filesys/directory.c:120-164 | an input that shows both |
| `FsModel.CreateKeeps` | project3/filesys/inode.c:62-82 | writing an inode into fresh sectors disturbs no owner |
| `FileSys.FilesOwnTheirSectors` | project3/filesys/filesys.c:45-91 | the sectors of all files that are named or open, removed or not, are pairwise disjoint and in use |
| `FileSys.FileSystem.FreeMapOnDisk` | project3/filesys/free-map.c:22-85 | after every file system call, if no write fails, the sectors that the free map file says are used are exactly the sectors in use |
| `FileSys.FileSystem.InodeCreate` | project3/filesys/inode.c:45-84 | the new inode has unused sectors, which read as zeros, and no other sector changes; or nothing changes; without allocation failure it succeeds exactly if there is a run of unused sectors long enough |
| `FileSys.FileSystem.WriteNewInode` | project3/filesys/inode.c:67-79 | zeros go to the data sectors and no sector but those and that of the inode changes |
| `FileSys.FileSystem.InodeOpen` | project3/filesys/inode.c:86-120 | finds the open inode of the sector or makes one, so there is one per sector; none only if memory runs out |
| `FileSys.FileSystem.InodeClose` | project3/filesys/inode.c:138-164 | the whole new state, with the releases at the last close of a removed inode |
| `FileSys.FileSystem.FileOpen` | project3/filesys/file.c:6-26 | the file takes over the reference, or it is given up |
| `FileSys.FileSystem.FileReopen` | project3/filesys/file.c:28-34 | another handle on the same inode; no sector changes hands |
| `FileSys.FileSystem.FileClose` | project3/filesys/file.c:36-46 | the handle is gone; the sectors freed are those of a removed file at its last handle and no others; other open files keep theirs; a file that a cut scan displaced leaves its sectors to nobody at its last handle, and no other file does |
| `FileSys.FileSystem.FileDenyWrite` | project3/filesys/file.c:108-119 | the handle denies writes, once however often it is called; the assertion of inode_deny_write holds |
| `FileSys.FileSystem.FileAllowWrite` | project3/filesys/file.c:121-133 | the handle no longer denies writes; the assertions of inode_allow_write hold |
| `FileSys.FileSystem.FileWriteAt` | project3/filesys/file.c:94-106 | the bytes go to the place in the file unless some file on the inode denies writes; no sector outside the file changes, and no byte of a file open on another inode |
| `FileSys.FileSystem.WriteRefused` | project3/filesys/inode.c:243-244 | a write is refused exactly while some handle on the inode denies it |
| `FileSys.FileSystem.Lookup` | project3/filesys/directory.c:71-97 | the first entry in use of that name, or none exactly if no entry that can be read has it |
| `FileSys.FileSystem.DirAdd` | project3/filesys/directory.c:120-164 | succeeds exactly for a valid name not seen to be taken, a place where the search stops and a successful write; then just that entry is new, and the owners are the old ones with the new file and without the file it displaces; otherwise nothing changes; when no scan is cut short it succeeds exactly if the directory takes the name, and displaces nothing |
| `FileSys.FileSystem.DirRemove` | project3/filesys/directory.c:166-201 | the entry is gone afterwards, and with it the name unless a cut scan had duplicated it; the sectors are freed at once exactly if nobody has the file open; without allocation failure it succeeds exactly if the name is seen and the write succeeds |
| `FileSys.FileSystem.FilesysCreate` | project3/filesys/filesys.c:41-59 | success: a new entry, and an inode in sectors nobody used that reads as zeros; failure: same entries and owners, and exactly the data sectors of an inode that only the directory refused stay in use for nobody; sectors in use keep their bytes in any case; an entry is displaced only by a cut scan; without a failing allocation it succeeds exactly if there is room on the disk, the name is valid and unused, and a slot is free |
| `FileSys.LeakExactlyWhen` | project3/filesys/filesys.c:45-59 | data sectors are lost by a failing call exactly if there is room on the disk, the size is not 0 and dir_add fails, and then as many as the data need |
| `FileSys.CreateLeaks` | project3/filesys/filesys.c:45-59 | an input that shows it: on a fresh disk of 64 sectors a file of one sector with a name of 15 characters loses one sector |
| `FileSys.WholeCreates` | project3/filesys/filesys.c:45-59 | when no scan is cut short, a file is created only under a name the directory takes, displaces no other and costs no owner its sectors |
| `FileSys.CutScanLosesFile` | project3/filesys/directory.c:144-160 | a run that shows the harm of a cut scan: files a and b are created, the search for the slot of b cut at once; a has no entry then, and its two sectors are in use for nobody |
| `FileSys.FileSystem.FilesysOpen` | project3/filesys/filesys.c:61-77 | a new handle on the inode of that name; no sector changes hands; without allocation failure it succeeds exactly if the name is seen |
| `FileSys.FileSystem.FilesysRemove` | project3/filesys/filesys.c:79-91 | the entry goes at once, the sectors only when no handle is left; other files keep theirs; without allocation failure it succeeds exactly if the name is seen and the write succeeds |
| `FileSys.FileSystem.FreeMapCreate` | project3/filesys/free-map.c:70-85 | the free map file has sectors of its own and holds the map |
| `FileSys.FileSystem.Format` | project3/filesys/filesys.c:93-103 | a formatted disk: empty root directory, free map file, no orphaned sector; without allocation failure exactly if the disk has the sectors |
| `Hash.TurnOffIs` | project3/lib/kernel/hash.c:328-333 | x & (x - 1) turns off the lowest bit that is on |
| `Hash.ComputeBucketCnt` | project3/lib/kernel/hash.c:364-372 | the greatest power of two that is at most max(4, elem_cnt / 2) |
| `Hash.IdealLoad` | project3/lib/kernel/hash.c:342-372 | with that many buckets the load is at least 2 and below 4 once there are 8 elements |
| `Hash.BucketInRange` | project3/lib/kernel/hash.c:304-310 | hash & (bucket_cnt - 1) is the hash modulo bucket_cnt |
| `Hash.SearchedEnough` | project3/lib/kernel/hash.c:312-326 | searching one bucket is searching the table |
| `Hash.HashTable.Find` | project3/lib/kernel/hash.c:129-135 | finds an equal element exactly if there is one |
| `Hash.HashTable.Insert` | project3/lib/kernel/hash.c:94-110 | inserts exactly if no equal element is there, which is returned otherwise |
| `Hash.HashTable.Replace` | project3/lib/kernel/hash.c:112-127 | the equal element, if any, is replaced and returned |
| `Hash.HashTable.Delete` | project3/lib/kernel/hash.c:137-154 | the equal element, if any, is removed and returned |
| `Hash.HashTable.Rehash` | project3/lib/kernel/hash.c:347-413 | the same elements whether or not there is memory, and with it the ideal number of buckets, hence after every insertion and replacement |
| `Hash.HashTable.MoveBucket` | project3/lib/kernel/hash.c:394-410 | moving a bucket loses and duplicates no element and puts each where it belongs |
| `Hash.HashIterator.Next` | project3/lib/kernel/hash.c:210-235 | the elements come one by one in a fixed order, and a null pointer after the last |
| `Hash.OrderVisitsEachOnce` | project3/lib/kernel/hash.c:199-235 | that order holds every element of the table exactly once |
| `HeapSort.SwapBytes` | project3/lib/stdlib.c:64-79 | the bytes of two elements change places and no other byte changes |
| `HeapSort.Heapify` | project3/lib/stdlib.c:93-123 | from a single violated root the heap is restored by a permutation, with at most 2 comparisons a level |
| `HeapSort.LevelsOfRoot` | project3/lib/stdlib.c:93-123 | a heap of n elements has floor(log2 n) levels below its root |
| `HeapSort.RootIsGreatest` | project3/lib/stdlib.c:146-151 | the root of a heap is a greatest element |
| `HeapSort.FloorLog2Meaning` | project3/lib/stdlib.c:125-130 | that logarithm is the greatest k with 2^k at most n |
| `HeapSort.Sort` | project3/lib/stdlib.c:125-152 | a sorted permutation with at most 3 n floor(log2 n) comparisons, for every total preorder |
| `HeapSort.BinarySearch` | project3/lib/stdlib.c:172-207 | on a sorted array, a match is found exactly if there is one |
| `Pagedir.PteCreateMeaning` | project3/threads/pte.h:83-98 | a fresh entry has the frame and exactly the flags present, user and, if asked, writable |
| `Pagedir.PdeCreateMeaning` | project3/threads/pte.h:66-80 | a directory entry has the frame and the flags present, user and writable |
| `Pagedir.TableEntryDecides` | project3/threads/pte.h:44-80 | what a user program may do at an address is what the entry in the page table allows, as no directory entry forbids anything |
| `Pagedir.WithFlagMeaning` | project3/userprog/pagedir.c:170-186 | setting or clearing a flag changes neither the frame nor another bit |
| `Pagedir.NewTableKeepsMap` | project3/userprog/pagedir.c:66-81 | a new page table changes no entry of the map |
| `Pagedir.WriteOneEntry` | project3/userprog/pagedir.c:83-86 | a store through the looked-up pointer changes the entry of just that page |
| `Pagedir.PageDirectory.constructor` | project3/userprog/pagedir.c:12-23 | no user page is mapped |
| `Pagedir.PageDirectory.LookupPage` | project3/userprog/pagedir.c:50-86 | the slot of the page, found or created; the map is unchanged; null exactly if there is no page table and none can be made |
| `Pagedir.PageDirectory.SetPage` | project3/userprog/pagedir.c:88-119 | the page has the new entry and all others theirs, also when a table is created; it fails, and nothing changes, exactly if a table is needed and there is no memory |
| `Pagedir.PageDirectory.GetPage` | project3/userprog/pagedir.c:121-137 | frame plus offset of a present page, null otherwise |
| `Pagedir.SetThenGet` | project3/userprog/pagedir.c:88-137 | pagedir_get_page after pagedir_set_page gives the kernel page plus the offset; a user program can read there, and write exactly if the page was made writable |
| `Pagedir.PageDirectory.ClearPage` | project3/userprog/pagedir.c:139-157 | the page is not present, the other bits of its entry and all other entries stay |
| `Pagedir.PageDirectory.SetFlag` | project3/userprog/pagedir.c:170-186 | one flag of one entry changes, if the page has a table |
| `Pagedir.PageDirectory.TestFlag` | project3/userprog/pagedir.c:159-168 | the flag of the entry, false without one |
| `Pagedir.PageDirectory.Destroy` | project3/userprog/pagedir.c:25-48 | the frames freed, in order: of each user table its present pages and the table, and last the directory |
| `Pagedir.DestroyFreesEachOnce` | project3/userprog/pagedir.c:25-48 | these are all present user pages, all user page tables and the directory; nothing is freed twice exactly if no two present user pages have one frame and none has the frame of a page table or of the directory |
| `Pagedir.FreedAfterUse` | project3/userprog/pagedir.c:25-48 | a page table is freed after the pages that it maps, and the directory last, so nothing freed is looked into |
| `Pagedir.SharedFrameFreedTwice` | project3/userprog/pagedir.c:25-48 | a frame mapped at two user pages is freed at two places of the sequence |
| `Pagedir.DestroyCanFreeTwice` | project3/userprog/pagedir.c:25-48 | an input that shows it: frame 3 mapped at user pages 0 and 1 |
| `Printf.FormatInteger` | project3/lib/stdio.c:469-547 | sign, prefix, zeros, digits and padding of an integer conversion; the output scans as the number and fills the field |
| `Printf.PrintedReadsBack` | project3/lib/stdio.c:469-547 | in every base, with or without grouping, zeros up to a precision and the # flag, the digits printed read back as the value |
| `Printf.OutputScans` | project3/lib/stdio.c:469-547 | the whole output, with sign, 0x and padding at any width and precision, scans back to the signed number |
| `Printf.SignMeans` | project3/lib/stdio.c:484-496 | a minus for a negative number of a signed conversion, a plus or a space where the flags ask for it, and nothing else |
| `Printf.FieldWidth` | project3/lib/stdio.c:527-547 | as wide as the field, or as wide as it has to be; to the left, to the right or filled with zeros between sign and digits as the flags say |
| `Printf.CommasBetweenGroups` | project3/lib/stdio.c:503-512 | with the grouping flag groups of digits of the size of the base with one comma between any two, and without it none |
| `Printf.PrecisionMeans` | project3/lib/stdio.c:514-525 | zeros in front up to the precision, 1 if none is given and at most 63, and one in base 8 with the # flag |
| `Printf.BufferSuffices` | project3/lib/stdio.c:475-525 | for every 64-bit value, base from 8 on, and precision, the 64 bytes of the buffer suffice |
| `Printf.PrintsOctal` | project3/lib/stdio.c:469-547 | %0No of a value below 8^N stores its N octal digits and a null byte |
| `Ustar.StripOnce` | project3/lib/ustar.c:56-73 | a stripped name is not empty, not absolute and does not lead upward, and stripping it again changes nothing |
| `Ustar.StripsNoMore` | project3/lib/ustar.c:56-73 | what is left is all of the name from the first component on from which it is not antisocial, or a dot for nothing or two dots |
| `Ustar.StripAntisocialPrefixes` | project3/lib/ustar.c:56-73 | computes the stripped name |
| `Ustar.ParsePrinted` | project3/lib/ustar.c:120-162 | parsing an octal field undoes printing it |
| `Ustar.ParseOctalField` | project3/lib/ustar.c:120-162 | the value of an octal field ended by a space or null byte, or a failure; never more than ULONG_MAX |
| `Ustar.ParseOctalExactly` | project3/lib/ustar.c:120-162 | a field is parsed exactly if it begins with octal digits, at least one, ended by a space or null byte, of a value that fits, and then to that value |
| `Ustar.CalculateChksum` | project3/lib/ustar.c:35-54 | the sum of all 512 bytes with 8 spaces for the chksum field |
| `Ustar.ChecksumConsistent` | project3/lib/ustar.c:114-115 | filling in the checksum does not change it |
| `Ustar.MakeHeader` | project3/lib/ustar.c:75-118 | every field of the header; failure exactly for a stripped name of more than 99 characters |
| `Ustar.MadeText` | project3/lib/ustar.c:86-112 | mode 0644 for a regular file and 0755 for a directory, owner and group 0, in octal text |
| `Ustar.ParseHeader` | project3/lib/ustar.c:175-227 | the end of an archive, an error in the order of the checks, or the file described |
| `Ustar.AcceptedExactly` | project3/lib/ustar.c:175-227 | a header is accepted exactly if format, version and checksum are right, the name ends in its field, there is no prefix, and the type is directory, or regular with a size that fits; and then as the stripped name, the type and the size in its fields |
| `Ustar.RefusedBecause` | project3/lib/ustar.c:175-227 | each error is given exactly if its condition fails and all before it hold, in the order of the checks, on the bytes of the header |
| `Ustar.AcceptedNameIsSafe` | project3/lib/ustar.c:175-227 | the name of an accepted file is stripped already, not empty, and of at most 99 characters |
| `Ustar.RoundTrip` | project3/lib/ustar.c:75-227 | a made header parses to the stripped name and the type, and for a regular file to the size exactly if it is not negative; for a directory to size 0 |
| `ElfLoad.ValidateExactly` | project3/userprog/process.c:469-512 | validate_segment accepts exactly the segments that, without wrapping, start after page 0, end below the kernel and begin inside the file |
| `ElfLoad.AcceptedSegment` | project3/userprog/process.c:412-436 | the arithmetic of load for an accepted segment never wraps, meets the assertions of load_segment and stays in user pages |
| `ElfLoad.RoomForPage` | project3/userprog/process.c:539-571 | neither byte count underflows: a whole page is left to fill in every round |
| `ElfLoad.Process.LoadSegment` | project3/userprog/process.c:514-573 | on success the pages hold the bytes of the file and then zeros, with the permission asked for; pages mapped before are untouched; without failing allocations it succeeds exactly if the bytes are in the file and none of the pages is mapped |
| `ElfLoad.SegmentPages` | project3/userprog/process.c:412-436 | the pages filled are exactly those that hold a byte of the segment |
| `ElfLoad.AcceptableApart` | project3/userprog/process.c:386-443 | two acceptable segments never share a page |
| `ElfLoad.LoadedSegment` | project3/userprog/process.c:412-436 | that is what the program header asks for: file[p_offset + k] at p_vaddr + k for k < p_filesz and zeros up to p_memsz, on pages that can be written exactly if PF_W is set |
| `ElfLoad.Process.LoadAll` | project3/userprog/process.c:386-443 | success, without failing allocations, exactly for acceptable headers: valid segments with their bytes in the file and pages of their own; then every segment is in memory, its pages writable exactly as its flags say, and none was overwritten by a later one |
| `Strtok.TokensMeaning` | project3/lib/string.c:234-275 | the tokens are the maximal stretches without a delimiter, in order, for every set of delimiters |
| `Strtok.TokensSize` | project3/userprog/process.c:576-591 | the tokens with their null bytes take at most one byte more than the command line |
| `Strtok.StrtokR` | project3/lib/string.c:234-275 | returns the first token, null-terminated in place, and leaves what follows for the next call, which may have other delimiters |
| `ArgStack.CountTokens` | project3/userprog/process.c:582-588 | argc and byte_count |
| `ArgStack.ClearPadding` | project3/userprog/process.c:599-602 | the padding loop on any page: every other byte from the start of the padding becomes 0, twice as far as the padding, and no other byte changes |
| `ArgStack.ClearsPaddingExactlyWhen` | project3/userprog/process.c:599-602 | it clears the padding and nothing else exactly if the odd bytes of the padding and the even bytes beyond it are 0 already |
| `ArgStack.PaddingLoopMisses` | project3/userprog/process.c:599-602 | a page on which it leaves a byte of the padding and clears a byte beyond it |
| `ArgStack.ZeroPaddingStays` | project3/userprog/process.c:599-602 | on zeros, as on the page that load hands over, it changes nothing |
| `ArgStack.LaidHolds` | project3/userprog/process.c:593-613 | argc, argv and the strings can be read back from a finished page |
| `ArgStack.FormatStackArgs` | project3/userprog/process.c:574-614 | for every command line under 100 bytes, argc and argv read back from the stack are the tokens in order; the stack pointer is word-aligned, with no more padding than that takes, the return address 0 and argv[argc] null |
| `ArgStack.FileToLoad` | project3/userprog/process.c:345-366 | the file that load opens is the first token for spaces, tabs and newlines |
| `ArgStack.LoadsArgv0ExactlyWhen` | project3/userprog/process.c:364-366 | it is the one that argv[0] names exactly if argv[0] has no tab and no newline |
| `ArgStack.TabSplitsFileName` | project3/userprog/process.c:364-366 | an input that shows it: for ls, a tab and foo, argv[0] is the whole line, and the file is ls |

## Left out

Scheduler and synchronization:

- Assembly, interrupt controller and timer hardware, the per-thread kernel stacks and `switch_threads`; a step of the model is a stretch with interrupts off, and preemption comes between steps only.
- Threads are unique identifiers; the reuse of a destroyed thread's page for a new thread is not modelled.
- Priorities, `nice`, `load_avg` and `thread_foreach`; the code keeps no priority order and has stubs for the others.
- `intq.c`, and the process tables and semaphores of `exec` and `wait` in `process.c`.
- Synch.Lock.FinishAcquire: is only the store of the holder; the wait and the assertion of `lock_acquire` are the events Acquire and Pass of `SynchSystem`.
- Synch.Condition.Signal: states that the remaining calls can still be woken only for private semaphores with at most one sleeper, which is what `cond_wait` makes.

Allocators:

- Palloc.Pool.Get: has no `PAL_ZERO` and `PAL_ASSERT`, and says nothing of the bytes of the pages handed out.
- Palloc.PageAllocator.GetMultiple: has no `PAL_ZERO` and `PAL_ASSERT`, and says nothing of the bytes of the pages handed out.
- The locks around the allocators: each method is one atomic call.
- The link fields of free blocks and the arena headers are bytes of unspecified value, as nothing reads them as data.
- `calloc`.
- Malloc.Heap.Realloc: promises nothing when the copy does not stay inside the new block, which `CopyStaysInsideExactlyWhen` says exactly, because `memcpy` then overwrites what is behind it.
- `bitmap_count`, `bitmap_any`, `bitmap_all`, `bitmap_none` and `bitmap_dump`, which add loops of the same kind.
- Bitmap.Bitmap.constructor: does not have the failing allocation of `bitmap_create`.
- Bitmap.Bitmap.Write: gives the image; that it may not reach the file is in `FreeMap.FreeMap.WriteFile`.
- Bitmap.Bitmap.Read: reads a full image; a read that comes up short is not modelled.

File system:

- The bytes of file data are on the device; inode sectors, directory entries and the image of the free map are kept beside it, so that writing one of them is not shown as bytes on the device.
- The 20-byte layout of directory entries.
- FileSys.FileSystem.WriteNewInode: does not say what bytes the inode's own sector gets.
- Subdirectories: `dir_open` of another inode than the root, and `dir_readdir`.
- File positions: `file_read`, `file_write`, `file_seek`, `file_tell` only add a position to the calls modelled.
- InodeIO.Inode.ReadAt: takes the offset as not negative and one answer for all allocations of the bounce buffer of a call.
- InodeIO.Inode.WriteAt: takes the offset as not negative and one answer for all allocations of the bounce buffer of a call.
- FileSys.FileSystem.FileWriteAt: takes the offset as not negative, as `file_seek` asserts of positions, and one answer for all allocations of the bounce buffer of a call.
- FreeMap.FreeMap.Open: does not have the panic when the file cannot be opened or read.
- FileSys.FileSystem.FreeMapCreate: does not open the file, which `Format` does once at its end.
- FileSys.FileSystem.Format: opens the free map file once, where `free_map_create` and `free_map_open` open it twice, and ends in a failure where the code panics.
- `partition.c`, the block layer and the drivers.

Data structures and algorithms:

- The structures that list elements are embedded in: the comparison is a fixed function of two elements.
- `list_unique`, `list_max`, `list_min`, `list_size`, `list_push_front` and the other one-line wrappers.
- `hash_clear`, `hash_destroy`, `hash_apply`, and the hash functions `hash_bytes`, `hash_string` and `hash_int`.
- Hash.HashTable.Insert: requires fewer than 2^32 - 1 elements, so that the element counter does not wrap around.
- Hash.HashTable.Replace: requires fewer than 2^32 - 1 elements, so that the element counter does not wrap around.
- HeapSort.Sort: works on elements instead of blocks of `size` bytes; `SwapBytes` has the bytes of one exchange.
- The compiler's entry points `__divdi3` and so on, and the inline assembly of the divide instruction, which is a division that is defined only if its quotient fits.

Translation and layout:

- Pagedir.PageDirectory.constructor: is given a page frame, so it does not have the failing allocation of `pagedir_create`.
- The page-directory register, the TLB and `pagedir_activate`; kernel page tables that several directories share.
- Printf.FormatInteger: has a buffer without a limit, where the code has 64 bytes, which `BufferSuffices` shows to be enough.
- The parsing of format strings and the other conversions of `printf`.
- Reading the ELF header and the program headers from the file, `setup_stack` up to the call of `format_stack_args`, and the entry point.
- Console output, user programs and the two other projects of the repository.
