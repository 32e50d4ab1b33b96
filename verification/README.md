# A verified model of the Pintos kernel

Pintos is an instructional operating system kernel for the 80x86, written in C. This project models the stateful
parts of the kernel and of its library in Dafny, and proves what they keep over every run: the scheduler with its
alarm clock and multilevel feedback queue, semaphores, locks and condition variables, the file system, the page and
block allocators, lists, hash tables, bitmaps and heapsort, 64-bit division, printing and parsing of archive headers,
page tables, and the user stack that a new process starts with.

`dafny verify dfyconfig.toml` checks everything.

## How it is built

Where the C code changes something in place, there is a class or a method with the same loops and branches; its
contract equates the new state with a function of the old one. What the code is for is then proved about these
functions. Code that runs concurrently is a machine: a state, a function `Next` that makes one step, and `Run`, which
makes any sequence of steps. A step is what the kernel does from disabling interrupts to enabling them or switching
threads; for the file system and the allocators, whose callers hold locks, it is one call. Claims about runs hold for
every sequence of steps from the start.

| file | models |
|---|---|
| `Ordering`, `ListOrder`, `List` | `lib/kernel/list.c`: links, merge sort, ordered insertion |
| `Arithmetic` | `lib/arithmetic.c`: 64-bit division from a 64-by-32-bit instruction |
| `Bits`, `Bytes` | operators on words, and words and strings in memory |
| `Bitmap`, `Palloc`, `Malloc`, `MallocEffects` | `lib/kernel/bitmap.c`, `threads/palloc.c`, `threads/malloc.c` |
| `HashTable`, `Heapsort` | `lib/kernel/hash.c`, `lib/stdlib.c` |
| `Basics` | the type of optional values and other things that several modules use |
| `Queue`, `ReadySort`, `Scheduler`, `Kernel` | `threads/thread.c`: the machine, and the functions on the kernel's lists |
| `Preemption`, `SchedulerEffects` | when threads switch, and what each step of the scheduler does |
| `AlarmClock`, `FixedPoint`, `LoadAccounting` | `devices/timer.c`, and the averages of the multilevel feedback queue |
| `Semaphore`, `WaitOrder`, `Monitor`, `MonitorEffects` | `threads/synch.c` |
| `InodeIO`, `Directory` | reading and writing files and directories on the device |
| `FileSpace`, `OpenFiles`, `FileSys`, `FileSystem` | who owns which sector, what is open, the machine, and the functions |
| `FileSysRuns`, `FileContents`, `FreeMapFile` | what the file system promises over every run |
| `FileEffects` | what each call of the file system does |
| `Stdio`, `FieldLayout`, `Conversions`, `ConversionText`, `Ustar` | `lib/stdio.c`, `lib/ustar.c` |
| `PageTable`, `UserStack`, `CommandLine` | `userprog/pagedir.c` with `threads/pte.h`, `userprog/process.c` with `lib/string.c` |

Several invariants quantify over all threads, sectors or blocks. Their quantifiers have the trigger `Look(x)`, a
predicate that is always true, so that the verifier instantiates them only where a proof says `assert Look(x)`.

Whether an allocation succeeds is a parameter (`memory`, `gotMemory`, `Mem`, the number of directory entries that can
be read before one fails, or the page that the page allocator returns), so that the claims cover every way in which
allocations can fail.

## Where code and promise differ

- `umod64` and `smod64` return 32 bits; the lemmas say for which divisors that is the remainder.
- `malloc` computes the pages of a big block in 32 bits. From 2^32 - 11 bytes on the sum wraps round, and the block is
  smaller than asked for; `Malloc.LiveBlocksFit` says that this is exactly when.
- `printf` with the flag `0` and a negative width given by `*` pads on both sides. `Conversions.PrintedLength` says
  exactly when.
- `free_map_release` does not look at whether the map could be written, and `free_map_allocate` does not take back what
  it wrote when it fails. Without memory for the bounce buffer the map's file can go stale;
  `FreeMapFile.ReleaseGoesStale` and `FreeMapFile.AllocateGoesStale` say exactly when.
- `sdiv64` is wrong for the smallest 64-bit number divided by -1 only.
- `FP_ROUND` rounds a negative number down after taking a half off, so of the negative numbers it rounds to nearest
  only those half way between two integers.
- `timer_sleep` cuts the wake-up time to 32 bits. `AlarmClock.PromiseKeptExactly` says that a sleep past that range is
  not kept on some run.
- In the multilevel feedback queue mode the priority of a waiting thread changes without its moving in the list, so
  `sema_up` may wake a thread of lower priority first. `WaitOrder.MlfqsWakesLower` is such a run. In the priority mode
  it cannot happen.
- `dir_add` takes a short read for the end of the directory. When memory for the bounce buffer runs out, it can
  overwrite the entry that it could not read or add a name a second time. `Directory.AddIsSafe` and
  `FileContents.CreateIsSafe` say exactly when it does no harm.
- When `dir_add` fails in `filesys_create`, the sectors of the new file's data stay marked used. They belong to nobody
  from then on. `FileContents.CreateLoses` says exactly when and which, and `FileSysRuns.CreateTwiceLoses` is a run.

## Model

| member | source | states |
|---|---|---|
| `List.Insert` | pintos/src/lib/kernel/list.c:169-178 | the node is linked in just before `before`; every other node keeps its neighbours and the chain stays doubly linked |
| `List.Remove` | pintos/src/lib/kernel/list.c:249-255 | the node is unlinked and its successor returned; its own links are left as they were |
| `List.Splice` | pintos/src/lib/kernel/list.c:184-204 | within one list, the nodes from `first` up to `last` are moved in front of `before` as one block; a list spliced into its own block is shut out, because that would make a cycle |
| `List.SpliceOther` | pintos/src/lib/kernel/list.c:184-204 | from another list: the nodes go over as one block, and both lists stay linked |
| `List.FindEndOfRun` | pintos/src/lib/kernel/list.c:358-372 | the node after the longest run without a descent that starts at `a` |
| `List.InplaceMerge` | pintos/src/lib/kernel/list.c:380-399 | the two adjacent runs are merged on the links, as the function `Merged` says |
| `List.SortPass` | pintos/src/lib/kernel/list.c:412-437 | one pass of the outer loop: adjacent runs are merged pairwise and the number of runs output is counted |
| `List.List.Sort` | pintos/src/lib/kernel/list.c:405-440 | for every strict weak order the loop ends, and the list is a sorted, stable rearrangement of the same nodes |
| `List.List.InsertOrdered` | pintos/src/lib/kernel/list.c:446-459 | the node goes in front of the first one that it is less than, behind all others |
| `List.List.Reverse` | pintos/src/lib/kernel/list.c:326-337 | the list holds the same nodes in the opposite order |
| `List.List.Unique` | pintos/src/lib/kernel/list.c:466-486 | each run of equal elements is cut to its first; the rest are appended in order to the list of duplicates |
| `List.List.PushBack` | pintos/src/lib/kernel/list.c:217-220 | the node becomes the last |
| `List.List.PopFront` | pintos/src/lib/kernel/list.c:260-265 | the first node is taken off and returned |
| `ListOrder.MergedSorts` | pintos/src/lib/kernel/list.c:374-399 | merging two sorted runs gives one sorted run |
| `ListOrder.MergedIsStable` | pintos/src/lib/kernel/list.c:374-399 | merging keeps equal elements in order and loses and gains no node |
| `ListOrder.PassProgress` | pintos/src/lib/kernel/list.c:405-440 | a pass is stable; it sorts the list if it outputs at most one run, and leaves strictly fewer descents otherwise, which is why the sort ends |
| `ListOrder.UniqKeepsFirsts` | pintos/src/lib/kernel/list.c:461-486 | on a sorted list, exactly the first element of each equivalence class is kept, and the elements set aside are the others in order |
| `ListOrder.UniqKeepsNodes` | pintos/src/lib/kernel/list.c:461-486 | kept and set-aside nodes together are the nodes of the list |
| `ListOrder.InsertKeepsSorted` | pintos/src/lib/kernel/list.c:442-459 | the place of ordered insertion keeps a sorted list sorted and puts an element behind all equal ones |
| `Arithmetic.Divl` | pintos/src/lib/arithmetic.c:26-37 | the 64-by-32-bit division instruction, which faults unless the quotient fits in 32 bits |
| `Arithmetic.Nlz` | pintos/src/lib/arithmetic.c:42-73 | the number of leading zero bits of a nonzero word |
| `Arithmetic.UdivShort` | pintos/src/lib/arithmetic.c:80-113 | long division by a 32-bit divisor in two steps, both of whose quotients fit |
| `Arithmetic.UdivLong` | pintos/src/lib/arithmetic.c:114-126 | division by a wider divisor: the normalized estimate is right or one too big, and the correction makes it right; the instruction never faults |
| `Arithmetic.Udiv64` | pintos/src/lib/arithmetic.c:78-127 | the floor of n / d for all 64-bit n and d except d = 0 |
| `Arithmetic.Umod64` | pintos/src/lib/arithmetic.c:132-135 | the low 32 bits of n mod d |
| `Arithmetic.Umod64IsRemainder` | pintos/src/lib/arithmetic.c:132-135 | that is n mod d for every n exactly if d is at most 2 to the 32 |
| `Arithmetic.Sdiv64` | pintos/src/lib/arithmetic.c:140-146 | the quotient truncated toward zero, as a 64-bit number |
| `Arithmetic.Sdiv64IsQuotient` | pintos/src/lib/arithmetic.c:140-146 | it is the true quotient except for the smallest number divided by -1 |
| `Arithmetic.Smod64` | pintos/src/lib/arithmetic.c:151-154 | the remainder with the sign of n, cut to 32 bits |
| `Arithmetic.Smod64IsRemainder` | pintos/src/lib/arithmetic.c:151-154 | that is the true remainder for every n exactly if the divisor is at most 2 to the 31 in size |
| `Heapsort.DoSwap` | pintos/src/lib/stdlib.c:67-79 | two elements change places, as values |
| `Heapsort.SwapBytes` | pintos/src/lib/stdlib.c:67-79 | the loop over the bytes of the two elements, of any size, does that: seen as elements, the bytes have just these two exchanged |
| `Heapsort.Heapify` | pintos/src/lib/stdlib.c:97-123 | the array is as floating the element down leaves it |
| `Heapsort.SiftRestores` | pintos/src/lib/stdlib.c:97-123 | floating element i down restores the heap there, given heaps below it |
| `Heapsort.BuildHeap` | pintos/src/lib/stdlib.c:142-144 | the first loop makes the array a heap without losing an element |
| `Heapsort.RemoveRoot` | pintos/src/lib/stdlib.c:146-151 | moving the root behind the heap and floating the new one down keeps the heap in front and the sorted part behind it |
| `Heapsort.Sort` | pintos/src/lib/stdlib.c:132-152 | for every total preorder the array ends as a sorted permutation of itself |
| `Heapsort.BinarySearch` | pintos/src/lib/stdlib.c:185-207 | in a sorted array a match is found exactly if there is one |
| `HashTable.BucketIndex` | pintos/src/lib/kernel/hash.c:306-310 | masking a hash value with one less than a power of two is the remainder by it |
| `HashTable.IdealBuckets` | pintos/src/lib/kernel/hash.c:362-372 | turning off low bits ends at the greatest power of two that is at most max(4, n / 2) |
| `Bits.TurnOffKeepsTop` | pintos/src/lib/kernel/hash.c:330-340 | x & (x - 1) is smaller, keeps the top bit, and is 0 for a power of two |
| `HashTable.FindElem` | pintos/src/lib/kernel/hash.c:315-326 | an element of the bucket equal to the given one, if there is one |
| `HashTable.MoveAll` | pintos/src/lib/kernel/hash.c:394-410 | every element is moved to the bucket of its hash value; none is lost or doubled |
| `HashTable.Hash.Create` | pintos/src/lib/kernel/hash.c:25-42 | an empty table of four buckets, or none exactly if there is no memory for them |
| `HashTable.Hash.Find` | pintos/src/lib/kernel/hash.c:132-135 | an equal element is found exactly if the whole table has one |
| `HashTable.Hash.Insert` | pintos/src/lib/kernel/hash.c:99-110 | the element is added exactly if no equal one was there, which is returned otherwise; the number of buckets is ideal afterwards if the allocation succeeds and unchanged if not |
| `HashTable.Hash.Replace` | pintos/src/lib/kernel/hash.c:115-127 | the one equal element, if any, gives way to the new one and is returned |
| `HashTable.Hash.Delete` | pintos/src/lib/kernel/hash.c:145-154 | the one equal element, if any, is removed and returned, and none is left |
| `HashTable.Hash.Rehash` | pintos/src/lib/kernel/hash.c:352-413 | the elements stay the same whether or not the allocation succeeds |
| `HashTable.Next` | pintos/src/lib/kernel/hash.c:219-235 | the iterator moves to the next element of this or a later bucket, or reports the end |
| `HashTable.VisitAll` | pintos/src/lib/kernel/hash.c:182-208 | the iteration idiom visits every element once |
| `Bitmap.ChangedWord` | pintos/src/lib/kernel/bitmap.c:157-179 | setting or clearing one bit of a packed word changes that bit of the map and no other |
| `Bitmap.Bitmap.Create` | pintos/src/lib/kernel/bitmap.c:79-94 | a new map with all bits clear, or none exactly if an allocation fails; a map of no bits needs only the first |
| `Bitmap.Bitmap.Test` | pintos/src/lib/kernel/bitmap.c:198-203 | the value of the bit |
| `Bitmap.Bitmap.Set` | pintos/src/lib/kernel/bitmap.c:145-179 | the bit has the value, all others are as before |
| `Bitmap.Bitmap.SetMultiple` | pintos/src/lib/kernel/bitmap.c:218-228 | the bits of the range have the value, all others are as before |
| `Bitmap.Bitmap.Contains` | pintos/src/lib/kernel/bitmap.c:251-263 | whether any bit of the range has the value |
| `Bitmap.Search` | pintos/src/lib/kernel/bitmap.c:296-310 | the first place at or after the start of a run of that many bits of the value, or an error if there is none |
| `Bitmap.Bitmap.Scan` | pintos/src/lib/kernel/bitmap.c:296-310 | the loop over the map finds that place |
| `Bitmap.Bitmap.ScanAndFlip` | pintos/src/lib/kernel/bitmap.c:320-326 | the run found is flipped and nothing else is |
| `Palloc.GetKeeps` | pintos/src/threads/palloc.c:71-101 | the pages found were no group's, and marking them keeps the map exact: it marks the pages of the groups handed out and no others |
| `Palloc.FreeKeeps` | pintos/src/threads/palloc.c:118-142 | freeing a group unmarks its pages and keeps the map exact |
| `Palloc.Pool.GetMultiple` | pintos/src/threads/palloc.c:71-101 | the first fit of free pages, handed out as a new group, or none exactly if there is no room or no page was asked for |
| `Palloc.Pool.FreeMultiple` | pintos/src/threads/palloc.c:132-142 | the group is taken back |
| `Palloc.BitmapFits` | pintos/src/threads/palloc.c:154-170 | the map of the pages that are left fits in the pages set aside for it, and fewer would not do for a map of all pages |
| `Palloc.Pools.constructor` | pintos/src/threads/palloc.c:46-62 | the two pools lie one after the other in the memory given |
| `Palloc.Pools.FreeMultiple` | pintos/src/threads/palloc.c:118-142 | pages go back to the pool they came from |
| `Malloc.InitDescriptors` | pintos/src/threads/malloc.c:72-85 | the loop makes seven descriptors, for blocks of 16 to 1024 bytes |
| `Malloc.FindDescriptor` | pintos/src/threads/malloc.c:102-104 | the smallest descriptor whose blocks are big enough |
| `Malloc.NextKeepsInv` | pintos/src/threads/malloc.c:90-264 | every call keeps the invariant, for every 32-bit size: free lists, counts, arenas and page map agree |
| `Malloc.LiveBlocksFit` | pintos/src/threads/malloc.c:90-154 | on every run a live block is inside the pages of its arena, which are marked used, and at least as big as asked for exactly if that is at most 2 to the 32 less 12 |
| `Malloc.BigPagesIs` | pintos/src/threads/malloc.c:107-109 | the pages computed for a big block: enough up to 2 to the 32 less 4108, then none, and from 2 to the 32 less 11 on one |
| `Malloc.HugeRequest` | pintos/src/threads/malloc.c:105-121 | a request for 2 to the 32 less 1 bytes gets a block of 4084 bytes whenever a page is free |
| `Malloc.NearlyHugeRequest` | pintos/src/threads/malloc.c:105-121 | requests from 2 to the 32 less 4107 to 2 to the 32 less 12 fail, however many pages are free |
| `Malloc.LiveBlocksDisjoint` | pintos/src/threads/malloc.c:90-264 | on every run no two live blocks have a byte in common |
| `Malloc.FreeListsExact` | pintos/src/threads/malloc.c:90-264 | on every run each free list holds exactly the blocks of its arenas that are not live, each once; the count of an arena is right and at least one of its blocks is live; the page map marks exactly the pages handed out |
| `Malloc.BlockToArena` | pintos/src/threads/malloc.c:268-294 | rounding a block's address down gives its arena, and the offset gives its number |
| `Malloc.Heap.Malloc` | pintos/src/threads/malloc.c:90-154 | makes the step of the machine and returns the address of a block that was not live, big enough exactly if the size is at most 2 to the 32 less 12, or none and no change |
| `Malloc.Heap.MallocFrom` | pintos/src/threads/malloc.c:123-153 | a block from the front of the free list, with a new arena first if the list is empty |
| `Malloc.Heap.MallocPages` | pintos/src/threads/malloc.c:105-121 | a big block in pages of its own, as many as the 32-bit sum gives |
| `Malloc.Heap.Free` | pintos/src/threads/malloc.c:219-264 | makes the step of the machine for the block at that address, which is then not live; every other live block is |
| `Malloc.Heap.FreeSmall` | pintos/src/threads/malloc.c:238-253 | the block goes to the front of its free list and is no longer live; an arena without live blocks is dissolved |
| `Malloc.RemoveBlocks` | pintos/src/threads/malloc.c:247-251 | exactly the blocks of the arena leave the free list |
| `MallocEffects.FreeReleases` | pintos/src/threads/malloc.c:219-264 | on every run, freeing a live block takes it and no other out of the live blocks and leaves every other at its place; the pages of its arena go back exactly if it was the last live block there, and no other pages do |
| `MallocEffects.FreedPagesAreFree` | pintos/src/threads/malloc.c:219-264 | each of those pages is then free |
| `MallocEffects.MallocGives` | pintos/src/threads/malloc.c:90-154 | on every run, a request is met exactly if it is not for 0 bytes and there is a free block of its size or a free page, or for a big one as many free pages in a row as the 32-bit sum gives; it then gets a block that was not live, of 16 to 1024 bytes rounded up or of whole pages less the header, and every live block stays; otherwise nothing changes |
| `MallocEffects.RunEnds` | pintos/src/threads/malloc.c:90-264 | a run of one more call is that call after the run |
| `Semaphore.KernelSemaphore.DownAttempt` | pintos/src/threads/synch.c:65-81 | one test of the loop: a unit is taken, or the thread joins the waiters by priority |
| `Semaphore.KernelSemaphore.TryDown` | pintos/src/threads/synch.c:89-107 | a unit is taken exactly if there is one |
| `Semaphore.KernelSemaphore.SemaUp` | pintos/src/threads/synch.c:114-136 | one more unit, and the first waiter is unblocked |
| `Semaphore.SemaphoreSafety` | pintos/src/threads/synch.c:64-136 | over every interleaving: value = initial + ups - completed downs, never negative, and while threads wait at least as many woken threads have still to test as there are units |
| `Semaphore.NoLostWakeUp` | pintos/src/threads/synch.c:64-136 | while there is a unit and a waiter, some woken thread takes the unit as soon as it runs |
| `Semaphore.DownTakesOrWaits` | pintos/src/threads/synch.c:65-81 | sema_down(), when it starts and after each waking: with a unit it takes one and goes on, without it joins the waiters in front of the first of a lower priority; no other thread moves |
| `Semaphore.UpWakesFirst` | pintos/src/threads/synch.c:114-136 | one more unit; exactly the first waiter, if any, is taken off the list and woken |
| `Semaphore.TryDownTakesOrFails` | pintos/src/threads/synch.c:89-107 | a unit is taken exactly if there is one; otherwise nothing changes |
| `Semaphore.PriorityChanges` | pintos/src/threads/thread.c:511-527 | a change of priority moves no thread and changes no other priority |
| `Semaphore.RunEnds` | pintos/src/threads/synch.c:64-136 | a run of one more step is that step after the run |
| `WaitOrder.NextKeepsOrder` | pintos/src/threads/synch.c:64-136 | every step of the scheduler but the timer interrupt of the multilevel feedback queue keeps the waiters of every semaphore in order of priority |
| `WaitOrder.WakesHighestPriority` | pintos/src/threads/synch.c:109-136 | on every run in the priority mode, with aging or without, the thread that sema_up takes off the list has the highest priority of all that wait for the semaphore |
| `WaitOrder.MlfqsWakesLower` | pintos/src/threads/thread.c:1073-1076 | a run of ten steps in the multilevel feedback queue mode after which the recalculated priority of the first waiter is lower than that of the second, and sema_up takes the first |
| `Monitor.NextKeepsInv` | pintos/src/threads/synch.c:207-353 | every step of lock and condition variable functions, of every thread, keeps the invariant; what each step does is in module MonitorEffects |
| `Monitor.MutualExclusion` | pintos/src/threads/synch.c:207-251 | over every interleaving: semaphore value + owners = 1, so there is at most one owner, and only it can be the holder |
| `Monitor.LockIsPassedOn` | pintos/src/threads/synch.c:207-251 | if the lock is free and threads sleep on it, a woken thread gets it as soon as it runs |
| `Monitor.SignalsInOrder` | pintos/src/threads/synch.c:302-337 | signals take waiters off a condition in the order of their arrival |
| `Monitor.SignalFreesOldest` | pintos/src/threads/synch.c:302-337 | a signal takes exactly the oldest waiter off the list, also one between releasing the lock and going to sleep; whatever steps other threads make before its sema_up and after, the waiter gets through when it next runs |
| `Monitor.WaitsMatchSignals` | pintos/src/threads/synch.c:302-337 | a thread gets past its semaphore as often as it was signalled, at most one signal is outstanding, and it then has the lock |
| `Monitor.BroadcastFreesAll` | pintos/src/threads/synch.c:346-353 | a broadcast ends when it has freed exactly the waiters that had arrived when it began |
| `MonitorEffects.AcquireTakesFreeLock` | pintos/src/threads/synch.c:208-217 | lock_acquire() of a free lock: the value goes from 1 to 0, the thread is the one owner, no other thread moves, and its next step makes it the holder |
| `MonitorEffects.AcquireWaits` | pintos/src/threads/synch.c:208-217 | lock_acquire() of a lock that is not free: the thread joins the waiters in front of the first of a lower priority, and no other thread moves |
| `MonitorEffects.RetryTakesOrWaits` | pintos/src/threads/synch.c:65-81 | a thread woken from the waiters of the lock takes it if it is free, and waits again in front of the first of a lower priority if not |
| `MonitorEffects.TryAcquireTakesOrFails` | pintos/src/threads/synch.c:225-236 | lock_try_acquire() of a free lock makes the thread its one owner and then holder; of one that is not free it changes nothing |
| `MonitorEffects.ReleaseClearsHolder` | pintos/src/threads/synch.c:244-251 | the start of lock_release(): there is no holder any more, and the thread still has the unit |
| `MonitorEffects.ReleaseFreesLock` | pintos/src/threads/synch.c:244-251 | its end: the lock is free without an owner, the first waiter and no other is woken, and the thread is done or goes on in cond_wait() |
| `MonitorEffects.WaitJoinsList` | pintos/src/threads/synch.c:303-317 | cond_wait() puts the thread at the end of the list of that condition and of no other, with its semaphore at 0 |
| `MonitorEffects.WaitTestPassesOrSleeps` | pintos/src/threads/synch.c:315 | the test of its semaphore: with a unit the thread goes on to lock_acquire(), without it sleeps |
| `MonitorEffects.RelockTakesFreeLock` | pintos/src/threads/synch.c:316 | the end of cond_wait() when the lock is free: the thread takes it as its one owner and becomes the holder |
| `MonitorEffects.RelockWaits` | pintos/src/threads/synch.c:316 | and when it is not: the thread joins the waiters of the lock by its priority |
| `MonitorEffects.SignalNobody` | pintos/src/threads/synch.c:327-337 | cond_signal() without waiters changes nothing |
| `MonitorEffects.BroadcastBegins` | pintos/src/threads/synch.c:346-353 | cond_broadcast() sets out to free exactly the waiters that are there |
| `MonitorEffects.BroadcastGoesOn` | pintos/src/threads/synch.c:346-353 | each turn of its loop takes the oldest waiter off that list and signals it, or ends when there is none |
| `MonitorEffects.BroadcastFrees` | pintos/src/threads/synch.c:346-353 | that waiter has its unit and is awake, no other thread moves, and the loop goes on |
| `MonitorEffects.PriorityChanges` | pintos/src/threads/thread.c:511-527 | a change of priority moves no thread and changes no other priority |
| `MonitorEffects.RunEnds` | pintos/src/threads/synch.c:207-353 | a run of one more step is that step after the run |
| `Queue.InsertOrdered` | pintos/src/threads/thread.c:403-416 | the loop of ordered insertion gives the queue that the function Insert describes |
| `Queue.InsertKeepsOrdered` | pintos/src/threads/thread.c:863-871 | ordered insertion keeps a queue in order |
| `Queue.QueuedBehindAll` | pintos/src/threads/thread.c:863-871 | in a queue in order, in front of the first of a lower priority is behind every thread of at least the same |
| `Queue.SortOrders` | pintos/src/threads/thread.c:1073-1087 | sorting by new priorities puts the queue in order |
| `Queue.SortIsStable` | pintos/src/threads/thread.c:1073-1087 | and keeps threads of equal priority in order |
| `Queue.StableSortIsUnique` | pintos/src/threads/thread.c:1073-1087 | two queues in order whose threads of each priority are the same in the same order are equal |
| `ReadySort.SortIsSortQueue` | pintos/src/lib/kernel/list.c:405-440 | so whatever sorted and stable rearrangement list_sort makes of the ready list is the one that SortQueue gives |
| `ReadySort.SortThreads` | pintos/src/threads/thread.c:1076 | list_sort on the linked list leaves the threads in that order |
| `Scheduler.ScheduleKeeps` | pintos/src/threads/thread.c:752-827 | a switch takes the front of the ready list, or the idle thread, and every thread is placed again |
| `Scheduler.UnblockKeeps` | pintos/src/threads/thread.c:403-416 | an unblocked thread leaves its list for the ready list and no other thread moves |
| `Scheduler.YieldKeeps` | pintos/src/threads/thread.c:475-490 | yielding keeps every thread placed |
| `Scheduler.AgedOrder` | pintos/src/threads/thread.c:136-149 | raising the priorities of all ready threads does not put them out of order |
| `Scheduler.NextKeepsInv` | pintos/src/threads/thread.c:235-621 | every step of the scheduler keeps every thread in exactly one place with the status that goes with it, and the ready and sleep lists in order; what each step does is in modules Preemption and SchedulerEffects |
| `Scheduler.EveryThreadInOnePlace` | pintos/src/threads/thread.c:385-490 | on every run each thread is running, ready, asleep, waiting on one semaphore or not yet launched, in that list and no other, once |
| `Scheduler.NextToRunIsHighest` | pintos/src/threads/thread.c:752-758 | on every run the next thread to run has the highest priority of all ready threads |
| `Scheduler.FirstPriority` | pintos/src/threads/thread.c:671-687 | in the multilevel feedback queue mode the first thread starts with the highest priority |
| `AlarmClock.TickWakesExactly` | pintos/src/devices/timer.c:179-185 | after a timer interrupt the threads asleep are exactly those that were and whose tick has not come |
| `AlarmClock.OnlyTicksWake` | pintos/src/threads/thread.c:879-895 | nothing else wakes a sleeper or moves its time |
| `AlarmClock.WakeTimeFits` | pintos/src/devices/timer.c:101-104 | the wake-up time computed is not early exactly if start + ticks fits in 32 bits |
| `AlarmClock.TimerSleepKeepsPromise` | pintos/src/devices/timer.c:90-105 | on every run a thread sleeps until tick start + n, also if the clock moved on before it went to sleep |
| `AlarmClock.PromiseKeptExactly` | pintos/src/devices/timer.c:90-105 | if the clock is not within one tick of start + n, the thread sleeps until then on every run exactly if start + n fits in 32 bits |
| `AlarmClock.WakesEarly` | pintos/src/devices/timer.c:90-105 | otherwise a run on which it is awake before that tick |
| `AlarmClock.WakesOnTime` | pintos/src/threads/thread.c:948-964 | on every run a sleeper is woken by the interrupt of its tick, or by the next one if that had passed |
| `FixedPoint.RoundIsNearest` | pintos/src/threads/thread.c:935-937 | for all 32-bit numbers: rounding gives a nearest integer exactly for numbers that are not negative and have room for the half, and for negative ones that lie half way |
| `FixedPoint.LoadAvgBounds` | pintos/src/threads/thread.c:1024-1036 | the new load average, exactly, and between 0 and the most threads counted |
| `FixedPoint.LoadAvgAccuracy` | pintos/src/threads/thread.c:1024-1036 | for any number of updates the computed average is below the exact one by at most 60 (r + 1) units |
| `FixedPoint.HundredfoldIsNearest` | pintos/src/threads/thread.c:1040-1055 | for all 32-bit values, negative ones included: the hundredfold returned is a nearest integer exactly in the three cases stated, by the product |
| `FixedPoint.RecentCpuBounds` | pintos/src/threads/thread.c:1010-1020 | one update has the value of the formula in fixed point, each division rounded toward zero, without overflow, and brings recent_cpu back between its bounds |
| `FixedPoint.PriorityIs` | pintos/src/threads/thread.c:991-1006 | the priority is PRI_MAX - recent_cpu / 4 - 2 nice, cut to the range of priorities |
| `FixedPoint.PriorityIsMonotone` | pintos/src/threads/thread.c:991-1006 | more recent_cpu or more nice never means more priority |
| `LoadAccounting.AccountsStayInRange` | pintos/src/threads/thread.c:1009-1071 | on every run of the multilevel scheduler with niceness from -20 to 20 and at most r runnable threads at each tick, load_avg is within 0 to r and recent_cpu within its bounds; for r up to 545 nothing overflows |
| `LoadAccounting.RunnableAreThreads` | pintos/src/threads/thread.c:1024-1028 | the threads that load_avg counts are different threads |
| `Kernel.Kernel.Schedule` | pintos/src/threads/thread.c:752-827 | makes the switch of the machine on the lists |
| `Kernel.Kernel.Unblock` | pintos/src/threads/thread.c:403-416 | puts the thread in its place in the ready list |
| `Kernel.Kernel.Yield` | pintos/src/threads/thread.c:475-490 | makes the step of the machine |
| `Kernel.Kernel.Awake` | pintos/src/threads/thread.c:948-964 | the loop unblocks every sleeper whose tick has come, as the machine does |
| `Kernel.Kernel.Aging` | pintos/src/threads/thread.c:136-149 | every ready thread below the maximum is raised once |
| `Kernel.DecayAll` | pintos/src/threads/thread.c:1067-1071 | recent_cpu is updated for every thread, in whatever order |
| `Kernel.RecalculatePriorities` | pintos/src/threads/thread.c:1073-1076 | the priority is recalculated for every thread, in whatever order |
| `Kernel.Kernel.ThreadTick` | pintos/src/threads/thread.c:236-291 | makes the machine's accounting step and asks for a yield exactly if the slice is over or a ready thread has a higher priority |
| `Kernel.Kernel.TimerInterrupt` | pintos/src/devices/timer.c:179-185 | makes the tick of the machine and keeps the invariant |
| `Kernel.Kernel.TimerSleep` | pintos/src/devices/timer.c:90-105 | makes the sleep step of the machine and keeps the invariant |
| `Kernel.Kernel.SemaBlock` | pintos/src/threads/synch.c:72-79 | makes the waiting step of the machine and keeps the invariant |
| `Kernel.Kernel.SemaWake` | pintos/src/threads/synch.c:114-136 | makes the waking step of the machine, with the yield to a thread of strictly higher priority, and keeps the invariant; Preemption says when that yield switches |
| `Preemption.SwitchTakesHighest` | pintos/src/threads/thread.c:752-827 | after a switch no ready thread has a higher priority than the running one |
| `Preemption.YieldGoesBehindEquals` | pintos/src/threads/thread.c:475-490 | a thread that yields runs on exactly if its priority is higher than that of every ready thread; otherwise the first of these runs and it is ready, unless it is the idle thread |
| `Preemption.GivesWayExactly` | pintos/src/threads/thread.c:969-978 | test_max_priority() switches exactly if a ready thread has a strictly higher priority, and then to the first of the ready list |
| `Preemption.NoneHigherAfter` | pintos/src/threads/thread.c:511-554 | on every run and in both modes: after sema_up(), test_max_priority(), thread_set_nice(), and thread_set_priority() to a lower one, no ready thread has a higher priority than the running one |
| `Preemption.SwitchesOnlyToHigher` | pintos/src/threads/thread.c:969-978 | on every run: sema_up() and test_max_priority() switch only to a thread that was ready or that the call woke and whose priority is strictly higher |
| `SchedulerEffects.CreateMakesThread` | pintos/src/threads/thread.c:658-694 | a new thread is in no list, with the priority asked for or, in the multilevel feedback queue mode, the niceness and recent_cpu of its maker and the priority that goes with them |
| `SchedulerEffects.LaunchMakesReady` | pintos/src/threads/thread.c:403-416 | thread_unblock() of it: it is ready, in front of the first of a lower priority, and the running thread runs on |
| `SchedulerEffects.ExitEndsThread` | pintos/src/threads/thread.c:454-470 | the running thread is gone and a ready thread of the highest priority runs, or the idle thread |
| `SchedulerEffects.SemaWaitBlocks` | pintos/src/threads/synch.c:72-79 | the running thread is among the waiters of that semaphore, by its priority, and a ready thread of the highest priority runs |
| `SchedulerEffects.SemaUpWakes` | pintos/src/threads/synch.c:114-136 | the first waiter and no other is off the list, and is ready or runs |
| `SchedulerEffects.SleepBlocks` | pintos/src/devices/timer.c:90-105 | the running thread is asleep with its wake-up time, and a ready thread of the highest priority runs |
| `SchedulerEffects.IdleBlockSwitches` | pintos/src/threads/thread.c:595-622 | the idle thread gives way to a ready thread of the highest priority, if there is one |
| `SchedulerEffects.SetPrioritySets` | pintos/src/threads/thread.c:511-527 | in the priority mode the running thread has the priority asked for and no other thread changes; in the other mode nothing happens |
| `SchedulerEffects.SetNiceSets` | pintos/src/threads/thread.c:538-556 | the running thread has the niceness asked for and the priority that goes with it, and no other thread changes |
| `SchedulerEffects.SetModeSets` | pintos/src/threads/thread.c:981-988 | the mode changes and nothing else |
| `SchedulerEffects.TickYieldsExactly` | pintos/src/threads/thread.c:236-291 | on every run: a tick lets the running thread run on exactly if its slice is not over and no ready thread has a higher priority; otherwise it yields, and no ready thread is higher than the one that then runs |
| `SchedulerEffects.TickAges` | pintos/src/threads/thread.c:136-149 | on every run in the priority mode: a tick raises the priority of exactly the threads that are ready, by one and up to the highest, if aging is on, and changes none otherwise |
| `SchedulerEffects.TickCounts` | pintos/src/threads/thread.c:236-291 | on every run in the multilevel feedback queue mode without aging: a tick that is not the hundredth adds one to recent_cpu of the running thread, unless it is the idle thread, and changes no other and not load_avg |
| `SchedulerEffects.TickCalculates` | pintos/src/threads/thread.c:236-291 | in that mode, every fourth tick each thread has the priority of its recent_cpu and niceness, and other ticks change none |
| `SchedulerEffects.TickEverySecond` | pintos/src/threads/thread.c:236-291 | in that mode, every hundredth tick load_avg is the average of the old one and the number of threads that run or are ready, and recent_cpu of every thread decays by it |
| `InodeIO.ReadAt` | pintos/src/filesys/inode.c:201-250 | the bytes of the flat file from the offset on, clipped at its end; without memory for the bounce buffer only whole sectors up to the first part of one |
| `InodeIO.WriteAt` | pintos/src/filesys/inode.c:258-318 | exactly the bytes reported are replaced on the device, none else, not even in the same sector; none while writes are denied |
| `InodeIO.StoreChunk` | pintos/src/filesys/inode.c:284-308 | part of a sector is changed and the rest of it written back as it was |
| `InodeIO.WriteChangesFile` | pintos/src/filesys/inode.c:258-318 | a write to the device inside the extent is a write to the flat file at that offset |
| `InodeIO.WriteKeepsOthers` | pintos/src/filesys/inode.c:258-318 | a write to one extent changes no byte elsewhere |
| `InodeIO.ReadAfterWrite` | pintos/src/filesys/inode.c:201-318 | what was written is what is then read |
| `Directory.FillDecodes` | pintos/src/filesys/directory.c:171-174 | an entry as it is filled in reads back as that sector and name, in use |
| `Directory.SlotWritten` | pintos/src/filesys/directory.c:171-175 | overwriting one entry changes that entry and no other |
| `Directory.Lookup` | pintos/src/filesys/directory.c:92-112 | the first entry in use with the name, if it is among those that memory allows to read; otherwise none |
| `Directory.DirAdd` | pintos/src/filesys/directory.c:142-179 | fails for a bad name, a name found in use, a full directory or a failed write, and else fills the first free entry, or the first one that it cannot read |
| `Directory.DirErase` | pintos/src/filesys/directory.c:204-207 | the entry is marked free, no other changes |
| `Directory.AddIsSafe` | pintos/src/filesys/directory.c:142-179 | names stay unique and no entry is lost exactly if the call fails, or the entry that it comes to is free and the name is not in the part that could not be read |
| `Directory.PlaceIsFree` | pintos/src/filesys/directory.c:158-169 | the entry that it comes to is in use exactly if memory runs out before the first free one |
| `Directory.AddOverwrites` | pintos/src/filesys/directory.c:158-175 | memory runs out at the second of three entries, which is overwritten though the third is free |
| `Directory.AddDuplicates` | pintos/src/filesys/directory.c:154-175 | memory runs out at once in the lookup, and a name is there twice |
| `FileSys.AllocateKeeps` | pintos/src/filesys/free-map.c:28-41 | the sectors allocated were free and nobody's, only the map's file changes on the device |
| `FileSys.AllocateFails` | pintos/src/filesys/free-map.c:28-41 | if the map cannot be written, the map in memory is as before |
| `FileSys.ReleaseKeeps` | pintos/src/filesys/free-map.c:45-50 | sectors that nobody owns become free |
| `FileSpace.MapReadsBack` | pintos/src/lib/kernel/bitmap.c:341-360 | the bits read from the map's file are those written |
| `FreeMapFile.MapPersists` | pintos/src/filesys/free-map.c:28-50 | on every run on which the map can be written, with memory for the bounce buffer or because it fills whole sectors, its file holds the map |
| `FreeMapFile.MapPersistsFromStart` | pintos/src/filesys/filesys.c:95-103 | so it is on every such run from a formatted device |
| `FreeMapFile.ReleaseGoesStale` | pintos/src/filesys/free-map.c:45-50 | after a release the file holds the map exactly if it could be written or no bit that changed is in the part that was not |
| `FreeMapFile.AllocateGoesStale` | pintos/src/filesys/free-map.c:28-41 | after an allocation, likewise: when it fails for lack of memory, what was written of the map is not taken back |
| `FreeMapFile.SmallMapGoesStale` | pintos/src/filesys/free-map.c:45-50 | on a device of at most 4064 sectors every release without memory leaves a stale file |
| `FreeMapFile.MapIsRead` | pintos/src/filesys/free-map.c:54-61 | so reading the file gives the map back |
| `FileSpace.InodesApart` | pintos/src/filesys/inode.c:73-106 | two live inodes have no sector in common |
| `FileSpace.AdoptKeeps` | pintos/src/filesys/inode.c:73-106 | a new inode and its extent take sectors that nobody owns, and every other inode and file is as before |
| `FileSpace.CreatedIsZero` | pintos/src/filesys/inode.c:92-99 | a new file is all zeros |
| `FileSpace.DisownKeeps` | pintos/src/filesys/inode.c:175-181 | an inode given up leaves its sectors to nobody |
| `FileSys.CreateKeeps` | pintos/src/filesys/filesys.c:46-59 | creating a file, or failing to at any point, keeps the invariant, if dir_add is safe when it is called |
| `FileSys.CreateSucceeds` | pintos/src/filesys/filesys.c:46-59 | a creation succeeds exactly if the root directory could be opened, the inode could be made and dir_add does not fail |
| `FileSys.OpenFileKeeps` | pintos/src/filesys/filesys.c:67-77 | opening a file, or failing to, keeps the invariant; what it gives is FileEffects.OpenGivesHandle |
| `FileSys.RemoveKeeps` | pintos/src/filesys/filesys.c:84-91 | removing a file, or failing to, keeps the invariant |
| `FileSys.RemovedIsGone` | pintos/src/filesys/directory.c:184-216 | the name is gone from the directory exactly if the call returns true; otherwise no entry changes |
| `FileSys.CloseInodeKeeps` | pintos/src/filesys/inode.c:164-186 | closing keeps the invariant, and releases a removed inode at its last closing |
| `OpenFiles.OpenInodeKeeps` | pintos/src/filesys/inode.c:112-151 | opening an inode counts one more opener, or reads it once |
| `OpenFiles.FindOpen` | pintos/src/filesys/inode.c:117-127 | the loop over open_inodes finds the first element for the sector, if there is one |
| `OpenFiles.MapIsExact` | pintos/src/filesys/inode.c:112-151 | while no two elements are for one sector, the table by sector says of each what its element says |
| `FileSystem.FileSystem.InodeOpen` | pintos/src/filesys/inode.c:112-151 | an inode that is in the list is counted once more and not read again; another goes to the front of the list, if there is memory; no two elements are ever for one sector |
| `OpenFiles.SetDenyKeeps` | pintos/src/filesys/file.c:123-145 | the count of deniers is that of the files that deny writes |
| `FileSys.NextKeepsInv` | pintos/src/filesys/filesys.c:45-91 | every call keeps the invariant as long as dir_add is safe when it is called |
| `FileSysRuns.StartInv` | pintos/src/filesys/filesys.c:95-103 | a formatted device satisfies the invariant |
| `FileSysRuns.FormatMakesStart` | pintos/src/filesys/filesys.c:95-103 | the calls of do_format, allocations and writes of the map included, leave that device exactly if it is big enough and every allocation that is needed succeeds, and panic otherwise |
| `FileSysRuns.LiveSectorsApart` | pintos/src/filesys/filesys.c:45-91 | on every run the inode sectors and extents of all live inodes are disjoint and marked used |
| `FileSysRuns.LiveInodes` | pintos/src/filesys/inode.c:72-195 | on every run an inode is live exactly while an entry names it or it is open, and is then on disk |
| `FileSysRuns.NamesStayUnique` | pintos/src/filesys/directory.c:141-216 | on every run no two entries have the same name |
| `FileSysRuns.OpenCountsExact` | pintos/src/filesys/inode.c:112-195 | on every run an open inode counts its openers and deniers and is marked removed exactly if no entry names it |
| `FileContents.CallOutcome` | pintos/src/filesys/inode.c:164-186 | whatever the call: an inode's sectors are released exactly by the last closing after its removal, and until then its file keeps its bytes unless the call writes to it |
| `FileContents.WriteIsExact` | pintos/src/filesys/file.c:95-104 | a write changes exactly the bytes from the file's position on that it reports, and none while writes are denied |
| `FileContents.ReadsBack` | pintos/src/filesys/file.c:69-104 | what was written is then read from the same place |
| `FileEffects.OpenGivesHandle` | pintos/src/filesys/filesys.c:67-77 | a handle is given exactly if the root directory can be opened, the name is read in it, and there is memory for the file and, unless it is open, the inode; it then has the sector of the entry with that name, position 0 and no denial, every other handle is unchanged and that inode has one opener more; otherwise nothing changes |
| `FileEffects.OpenThenRead` | pintos/src/filesys/file.c:18-74 | an open followed by a read of n bytes gives the first n bytes of the named file, or all if there are fewer |
| `FileEffects.ReadAdvances` | pintos/src/filesys/file.c:69-74 | a read moves the position by as many bytes as it gives and changes nothing else; with memory it gives all up to the size asked for or the end, without only whole sectors |
| `FileEffects.ReadsJoin` | pintos/src/filesys/file.c:69-74 | two reads one after the other give what one of both sizes gives |
| `FileEffects.WriteThenOpen` | pintos/src/filesys/file.c:69-104 | what is written to a file from its start, if it fits and nobody denies writes, is read by whoever opens that name afterwards |
| `FileEffects.SeekSets` | pintos/src/filesys/file.c:158-163 | the position is the one asked for, and nothing else changes |
| `FileEffects.DenySets` | pintos/src/filesys/file.c:123-145 | the file denies writes exactly if last told to, the inode counts it once, no other file changes, and while it denies nothing can be written through any handle |
| `FileEffects.CloseEnds` | pintos/src/filesys/file.c:46-54 | the handle is gone and no other changes; the inode has one opener less and does not count its denial, and is not open after the last |
| `FileEffects.OpenThenClose` | pintos/src/filesys/filesys.c:67-77 | opening a file and closing it changes nothing |
| `FileEffects.CreateThenOpen` | pintos/src/filesys/filesys.c:46-77 | a file just created is found by its name and holds as many zeros as asked for |
| `FileEffects.RemoveErases` | pintos/src/filesys/filesys.c:84-91 | a removal frees exactly the entry with that name, and leaves every handle as it is |
| `FileContents.CreateIsSafe` | pintos/src/filesys/filesys.c:46-59 | a creation keeps the invariant exactly if it does not come to dir_add or that is safe; otherwise a file is lost or a name given twice |
| `FileContents.OnlyCreateLoses` | pintos/src/filesys/filesys.c:84-91 | no other call leaves a used sector without an owner |
| `FileContents.CreateLoses` | pintos/src/filesys/filesys.c:46-59 | exactly when a creation loses sectors, and which: when it comes to dir_add and that fails, the data sectors that it took |
| `FileContents.CreateExistingLosesOne` | pintos/src/filesys/filesys.c:46-59 | for instance one sector, for a file of 512 bytes by a name that is there |
| `FileSysRuns.CreateTwiceLoses` | pintos/src/filesys/filesys.c:46-59 | a run on a device without files: the same file is created twice, and the second call leaves a sector used that no file has |
| `FileSysRuns.StartNoFiles` | pintos/src/filesys/filesys.c:95-103 | a freshly formatted device is such a device |
| `FileSystem.FileSystem.AllocateSectors` | pintos/src/filesys/free-map.c:28-41 | makes the machine's allocation on the bitmap and the device |
| `FileSystem.FileSystem.ReleaseSectors` | pintos/src/filesys/free-map.c:45-50 | makes the machine's release on the bitmap and the device |
| `FileSystem.FileSystem.CreateInode` | pintos/src/filesys/inode.c:73-106 | makes the machine's inode creation, zeroing sector by sector |
| `FileSystem.FileSystem.CreateFile` | pintos/src/filesys/filesys.c:46-59 | makes the machine's step whatever memory there is, and keeps the invariant exactly if dir_add is safe when it is called |
| `FileSystem.FileSystem.FilesysOpen` | pintos/src/filesys/filesys.c:67-77 | makes the machine's step; a handle it gives is for the entry with that name, at position 0 and not denying writes |
| `FileSystem.FileSystem.FilesysRemove` | pintos/src/filesys/filesys.c:84-91 | makes the machine's step and returns whether the name was taken out |
| `FileSystem.FileSystem.InodeClose` | pintos/src/filesys/inode.c:164-186 | makes the machine's step |
| `FileSystem.FileSystem.FileClose` | pintos/src/filesys/file.c:46-54 | makes the machine's step |
| `FileSystem.FileSystem.FileRead` | pintos/src/filesys/file.c:69-74 | makes the machine's step and returns the bytes from the file's position on, as BytesRead says |
| `FileSystem.FileSystem.FileWrite` | pintos/src/filesys/file.c:95-104 | makes the machine's step and returns how many bytes were written |
| `Stdio.FormatInteger` | pintos/src/lib/stdio.c:470-547 | the output is padding, sign, prefix and digits as the flags, width and precision ask; the 64-byte digit buffer never overflows for a 64-bit number |
| `Stdio.DigitsFit` | pintos/src/lib/stdio.c:501-512 | the digits of a 64-bit number in base 8 or more, with commas, are at most 44 |
| `Stdio.FormattedReadsBack` | pintos/src/lib/stdio.c:497-547 | reading the digits in the base gives the number back |
| `Stdio.FormattedLength` | pintos/src/lib/stdio.c:526-546 | the length of the output; it is the greater of the width and what is needed exactly if not both - and 0 are set with padding to do, which is then there twice |
| `Stdio.FieldReadsBack` | pintos/src/lib/stdio.c:470-547 | the whole output, without blanks, sign and prefix, reads back as the number with its sign |
| `FieldLayout.CommasBetweenGroups` | pintos/src/lib/stdio.c:504-513 | counted from the right, there is a comma after each full group that more digits follow, if groups are asked for, and no other; the first digit is not zero |
| `FieldLayout.PrecisionIsLeast` | pintos/src/lib/stdio.c:515-524 | the digits are those of the number behind as many zeros as the precision asks for and no more; octal with # begins with a zero |
| `FieldLayout.ZeroIsShown` | pintos/src/lib/stdio.c:515-524 | zero is shown as nothing exactly if the precision is zero, but not in octal with # |
| `FieldLayout.SignIsShown` | pintos/src/lib/stdio.c:485-494 | a minus sign is shown exactly for a negative number, and a plus sign exactly for another when it is asked for |
| `FieldLayout.PrefixIsShown` | pintos/src/lib/stdio.c:496-499 | the x is shown exactly for a number other than zero with # |
| `FieldLayout.CaseOfDigits` | pintos/src/lib/stdio.c:506-513 | letters among the digits are capital exactly if the base has capital ones |
| `FieldLayout.PaddingIsPlaced` | pintos/src/lib/stdio.c:526-546 | blanks go in front, with - behind, and with 0 there are zeros between the sign and the digits instead |
| `Conversions.ParseConversion` | pintos/src/lib/stdio.c:339-416 | the flags, width and precision that the format gives, the width and precision in 32 bits |
| `Conversions.BothFlags` | pintos/src/lib/stdio.c:370-416 | the flags - and 0 are both left exactly if 0 was given and - was not, the width is negative, and so is the precision |
| `Conversions.PrintedLength` | pintos/src/lib/stdio.c:339-546 | so the output of a conversion is as long as the greater of width and need exactly if not all that holds or there is nothing to pad |
| `Conversions.PaddedTwice` | pintos/src/lib/stdio.c:339-546 | %0*d with -5 and 42 prints eight characters |
| `ConversionText.TextIsParsed` | pintos/src/lib/stdio.c:339-416 | flags, a width and a precision written in decimal, up to 2 to the 31 less 1, are parsed as just those, without the blank next to a plus and the zeros next to a minus or a precision, and what follows is left |
| `Stdio.Snprintf` | pintos/src/lib/stdio.c:26-52 | the output cut to the field, with a null byte unless the field is empty, and nothing beyond; the full length is returned |
| `Ustar.StripPrefixes` | pintos/src/lib/ustar.c:66-73 | the loop gives the stripped name |
| `Ustar.StripIsSafe` | pintos/src/lib/ustar.c:56-73 | a stripped name does not start with "/", "./" or "../", and is neither empty nor ".." |
| `Ustar.StripIdempotent` | pintos/src/lib/ustar.c:56-73 | stripping twice is stripping once |
| `Ustar.StripTakesPrefixes` | pintos/src/lib/ustar.c:56-73 | all of the prefixes "/", "./" and "../" that the name starts with are taken off and nothing else; an empty rest or ".." becomes "." |
| `Ustar.SplitPrefixes` | pintos/src/lib/ustar.c:56-73 | every name is such prefixes and a rest that starts with none |
| `Ustar.ParseOctalField` | pintos/src/lib/ustar.c:130-162 | the digits' value, or failure for a bad or empty field, a missing end or overflow |
| `Ustar.ParsesExactly` | pintos/src/lib/ustar.c:130-162 | octal digits and then another byte have a value exactly if there is a digit, the byte is a blank or null and the value fits in 32 bits |
| `Ustar.OctalRoundTrip` | pintos/src/lib/ustar.c:130-162 | parsing a zero-padded octal field gives the number printed |
| `Ustar.CalculateChksum` | pintos/src/lib/ustar.c:37-54 | the sum of the bytes with the checksum field as spaces |
| `Ustar.MakeHeader` | pintos/src/lib/ustar.c:83-118 | fails exactly if the stripped name is longer than 99 bytes; else the header has every field and a checksum that matches |
| `Ustar.ParseHeader` | pintos/src/lib/ustar.c:182-227 | the entry, the end of the archive, or the error that comes first |
| `Ustar.RoundTrip` | pintos/src/lib/ustar.c:83-227 | parsing the header made gives the stripped name, the type and the size, 0 for a directory, exactly if it is a directory or the size is not negative |
| `PageTable.AddressParts` | pintos/src/threads/pte.h:32-39 | the two table indices and the offset are the parts of the address |
| `PageTable.PdeIs` | pintos/src/threads/pte.h:71-81 | a directory entry leads back to its page table and is present |
| `PageTable.PteIs` | pintos/src/threads/pte.h:87-104 | a page table entry leads back to its frame, with just the flags asked for |
| `PageTable.PdeFlags` | pintos/src/threads/pte.h:71-74 | a page directory entry is present, for user programs and writable, and has no other flag |
| `PageTable.StoredView` | pintos/src/userprog/pagedir.c:99-215 | overwriting an entry changes what is said about its page and no other |
| `PageTable.WithTableKeeps` | pintos/src/userprog/pagedir.c:66-81 | making a page table changes nothing that is said about any page |
| `PageTable.PageDirectory.Create` | pintos/src/userprog/pagedir.c:17-23 | a new directory maps no user page, so none is shared; none is made exactly if there is no page for it |
| `PageTable.PageDirectory.LookupPage` | pintos/src/userprog/pagedir.c:57-86 | finds or makes the page table, or fails without change |
| `PageTable.PageDirectory.SetPage` | pintos/src/userprog/pagedir.c:99-119 | the page is mapped to the frame, no other changes; it fails exactly if a page table is missing and there is no page for one, and then nothing changes; if the frame was unused, user pages still share none |
| `PageTable.StaysUnshared` | pintos/src/userprog/pagedir.c:99-215 | changing the entry of one page to an unused frame, or to none, keeps user pages from sharing frames |
| `PageTable.PageDirectory.GetPage` | pintos/src/userprog/pagedir.c:126-137 | frame address + offset for every address of a mapped page, none for others |
| `PageTable.PageDirectory.ClearPage` | pintos/src/userprog/pagedir.c:144-157 | the page is no longer mapped; its flags and all other pages stay |
| `PageTable.PageDirectory.TestFlag` | pintos/src/userprog/pagedir.c:164-197 | the dirty or accessed flag |
| `PageTable.PageDirectory.SetFlagTo` | pintos/src/userprog/pagedir.c:173-215 | that flag of that page changes if it has a page table, nothing else does |
| `PageTable.PageDirectory.Destroy` | pintos/src/userprog/pagedir.c:28-48 | the loops free the pages in this order |
| `PageTable.DestroyFreesOnce` | pintos/src/userprog/pagedir.c:28-48 | if no two user pages share a frame and none is a page table, whatever the kernel part maps: each frame of a user page, each user page table and the directory is freed, once, and no page table of the kernel's |
| `UserStack.StrtokR` | pintos/src/lib/string.c:235-275 | the next word of the string between any delimiters, ended by a null byte, and where to go on; the words found and left are those of the string |
| `UserStack.Split` | pintos/src/userprog/process.c:487-491 | the words of the command line, each ended in place; CommandLine.WordsOfLine says which they are |
| `UserStack.SetupUserStack` | pintos/src/userprog/process.c:481-571 | the frame is put on the stack page and the rest of the page is unchanged, exactly if it fits; otherwise the thread exits |
| `UserStack.ArgumentCount` | pintos/src/userprog/process.c:481-571 | the program finds a null return address, the number of words, as many pointers and a null pointer, and an aligned stack pointer |
| `UserStack.PaddingIsZero` | pintos/src/userprog/process.c:508-520 | there are only zeros, fewer than four, between the null pointer and the words |
| `UserStack.ArgumentsArrive` | pintos/src/userprog/process.c:481-571 | each pointer leads to its word of the command line |
| `CommandLine.TokensAreWords` | pintos/src/lib/string.c:235-275 | the words that repeated calls of strtok_r() find in gaps and words, each gap only delimiters and none inside a word, are exactly those words in order |
| `CommandLine.WordsOfLine` | pintos/src/userprog/process.c:487-491 | the words of a command line are those that blanks separate, however many blanks there are between, before and behind |
| `CommandLine.EveryLine` | pintos/src/lib/string.c:235-275 | every string is such gaps and words |
| `CommandLine.EchoX` | pintos/src/userprog/process.c:487-491 | "echo x" has the words "echo" and "x" |

## Left out

- Device drivers, port input and output, context switch, interrupt entry, TSS, GDT and IDT: hardware effects. The
  block device is a sequence of bytes, and `divl` an instruction with a precondition.
- The translation lookaside buffer: `invalidate_pagedir` has no effect in the model.
- Priority donation and condition variables ordered by priority: the code does not implement them.
- Start of the idle thread: the scheduler's runs begin after `thread_start`. Interrupt queues and `sema_up` from an
  interrupt handler are not steps of the machine.
- The system call layer, `exec`, `wait`, page faults and ELF loading.
- `partition.c`, `calloc` and `realloc`.
- `bitmap_flip`, `bitmap_count`, `hash_apply`, `list_max`, `list_min` and `dir_readdir`: each is one loop over
  operations that are modelled.
- The argument types that `parse_conversion` reads last, and the string conversions of `printf`.
- Hash chains and the scheduler's queues are sequences; that links implement sequences is shown once, in `List`. The
  descriptors' free lists, the sleep list and the waiters lists are therefore not linked nodes here.
- Heapsort.DoSwap: exchanges values, as the rest of the sort does; that exchanging bytes exchanges elements is
  `Heapsort.SwapBytes`.
- The root directory is opened and closed within each call; the model does not show it open in between.
- The slack bits of the last word of the free map are zero in the model; in memory they are not initialized.
- LoadAccounting.AccountsStayInRange: says that 545 runnable threads are safe, not that 546 are not, because the bound
  on recent_cpu is not attained.
- PageTable.DestroyFreesOnce: takes it from the callers that a frame they map is not in use. The contracts of `Create`,
  `SetPage`, `ClearPage` and `SetFlagTo` then keep user pages from sharing frames.
- Semaphore.KernelSemaphore.SemaUp: changes the semaphore only; unblocking the thread and yielding to it is
  `Kernel.Kernel.SemaWake`.
- Kernel.Kernel.ThreadTick: the ready list is a sequence and sorting it a function; that `list_sort` on linked nodes
  gives the same is `ReadySort.SortThreads`.
- Queue.SortOrders: is about an insertion sort, as `Queue.SortIsStable` is; `ReadySort.SortIsSortQueue` shows that
  `list_sort` gives the same.
- Palloc.Pool.GetMultiple: does not zero pages for PAL_ZERO nor panic for PAL_ASSERT, because what pages hold is not
  modelled.
- Directory.DirAdd: takes the entry variable to be zeros before anything is read into it; on the stack it is not
  initialized. Only bytes behind the null byte of a name are affected.
- OpenFiles.OpenInodeKeeps: is about the table by sector; the list and its search are
  `FileSystem.FileSystem.InodeOpen`. A file's pointer to its inode is the inode's sector, by which the element is found.
- UserStack.SetupUserStack: takes at most 128 words, the size of the array of arguments, and a stack page below which
  no page is mapped.
- Semaphore and Monitor: the order in which woken threads run is any; fairness is not claimed.
