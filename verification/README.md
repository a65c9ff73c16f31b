# UCX/OS model

UCX/OS is a small real-time operating system in C. This project models the parts of it that are
algorithms rather than hardware, and proves what they promise.

- **Heap** (`FirstFit`, `BlockChain`, `LazyHeap`, `EagerHeap`, `HeapTrace`). `FirstFit` is a reference
  heap that knows live blocks and a search cursor, but no headers. `LazyHeap` and `EagerHeap` are the two
  builds of `lib/malloc.c`, which rewrite block headers in place; both refine the reference heap, so for
  every run of calls they return the same addresses. `BlockChain` holds the invariant both depend on: the
  headers form one ascending chain that tiles the heap, and the block in front of the end sentinel is free.
- **Schedulers** (`Tasks`, `Scheduler`, `FairShare`, `SimpleScheduler`, `Coroutine`). The kernel object
  with its task list and calls, runs of the default scheduler of any length (an exact conservation law,
  proportional share, bounded waiting), the round-robin build, and coroutine groups in closed form.
- **Blocking and locking** (`RingQueue`, `Semaphore`, `Spinlock`, `LinkedList`). The ring behind
  semaphores, semaphores over all interleavings of calls, ticks and dispatches, the spinlock one memory
  access at a time, and the singly linked list as nodes on the heap.
- **Software arithmetic** (`Bits`, `MulDiv`, `Single`, `SoftDivision`, `SoftConversion`,
  `ConversionValue`, `Checksum`). Shift-and-add and shift-and-subtract, correctly rounded division,
  conversions and comparison, and the internet checksum in a host's answer to an echo request.
- **Transfers** (`SerialFrames`, `Eeprom`). Octet-stuffed frames, and page writes that amount to one write
  to a flat memory, with the exact condition for it.

`Words` and `Arith` hold machine words and the non-linear arithmetic the others share. Code that changes
objects in place is a class here (`LazyHeap`, `EagerHeap`, `Kernel`, `Group`, `RingQueue`, `Semaphore`,
`List`, `Tty`, `Chip`, `Driver`); loops are loops with invariants. Each method's contract ties the new
state to a function or relation on the old one, and the lemmas say what follows from that for every input
and every run. `dafny verify dfyconfig.toml` checks all of it.

Where the code and its comments disagree, the model follows the code:

- A division by zero is announced as NaN and returns 2^32 or 2^31 (arch/common/ieee754.c:244-247).
- The allocators are called first-fit, but a search begins at the block allocated last:
  `FirstFit.FirstFitIff` says when that makes no difference (lib/malloc.c:28-34, 118-126).
- The round-robin scheduler is said to hang when no task is ready; it panics after a bounded number of
  visits, which can also happen with ready tasks (kernel/ucx.c:133-136, 166-167).

## Model

| member | source | states |
|---|---|---|
| FirstFit.MallocFailsIff | lib/malloc.c:142-189 | malloc returns 0 exactly when no maximal run of free memory at or after the search pointer has room for the payload, its header and a remainder header; then nothing changes |
| FirstFit.MallocServes | lib/malloc.c:142-189 | the block malloc returns is aligned, holds the request with less than four bytes to spare, lies inside the heap, is disjoint from every live block, and is the lowest that fits from the search pointer on, which moves to it; no other live block changes |
| FirstFit.FreeTakesOut | lib/malloc.c:131-140 | free takes out whichever live block it is given: no other block changes, none is added, and the search starts over |
| FirstFit.FreeUndoesMalloc | lib/malloc.c:131-140 | freeing what malloc just returned restores exactly the live blocks from before, with the search back at the start |
| FirstFit.EmptyHeapServes | lib/malloc.c:142-189 | once everything is freed, any request that fits the whole heap less two headers succeeds and no other does: no fragmentation remains |
| FirstFit.HoldsRequestIff | lib/malloc.c:149-181 | the block malloc returns holds the request exactly when rounding the request up does not wrap around in 32 bits; one that wraps is served as an empty request |
| FirstFit.FirstFitIff | lib/malloc.c:118-126 | the search is first-fit over the whole heap exactly when no gap below the search pointer has room |
| HeapTrace.HiddenGapReached | lib/malloc.c:153-177 | four calls on a fresh heap after which malloc fails although a gap below the search pointer has room |
| FirstFit.LowestFitIsLowest | lib/malloc.c:156-171 | the reference search yields a fitting gap with no fitting gap before it, or none when there is none |
| FirstFit.MallocWellFormed | lib/malloc.c:142-189 | malloc keeps live blocks aligned, in bounds and disjoint, and the search pointer at the heap's start or a live block |
| FirstFit.FreeWellFormed | lib/malloc.c:131-140 | free keeps the same invariant |
| BlockChain.MergeKeepsChain | lib/malloc.c:161-166 | coalescing a run of free blocks keeps the ascending chain up to the sentinel, keeps the live blocks, and writes into no live payload |
| BlockChain.MergedSize | lib/malloc.c:163-166 | a coalesced run gets its true size, and would come out marked as used exactly if its length were odd |
| BlockChain.SplitKeepsChain | lib/malloc.c:179-185 | splitting a free block keeps the chain, and the block in front of the sentinel free |
| BlockChain.SplitAddsLive | lib/malloc.c:179-185 | a split adds exactly the new block to the live ones and writes into no live payload |
| BlockChain.WrappedSplit | lib/malloc.c:179-185 | for a size so close to 2^32 that adding a header wraps around, the stores leave headers in which no reading as a chain has the returned block live |
| BlockChain.InitialSizeIff | lib/malloc.c:191-201 | the first block's stored size is right exactly for heap lengths that are multiples of 4 |
| BlockChain.OversizedOverlaps | lib/malloc.c:195-199 | every other length, unless rounding it wraps around, has a request that the stored size lets through and whose remainder header overlaps the sentinel |
| BlockChain.ReleaseKeepsChain | lib/malloc.c:136-137 | clearing a used bit keeps the chain and writes into no live payload |
| BlockChain.BlocksTile | lib/malloc.c:156-171 | every heap address below the sentinel lies in exactly one block of the chain |
| BlockChain.ChainIsArena | lib/malloc.c:128-204 | every valid chain stands for a well-formed reference heap: live payloads are disjoint from each other and from all headers |
| BlockChain.RunIsGap | lib/malloc.c:157-170 | a maximal run of free blocks is one gap of the reference heap, with room for its length and no more |
| BlockChain.SkipUsed | lib/malloc.c:157-160 | the first inner loop stops, at the first free block, before the sentinel |
| BlockChain.SkipFree | lib/malloc.c:161-162 | the second inner loop stops at the first used block or the sentinel, with only free blocks between |
| LazyHeap.LazyHeap.constructor | lib/malloc.c:191-204 | initialisation gives a valid heap with nothing live exactly when the length is even |
| LazyHeap.OddHeapFills | lib/malloc.c:156-177 | on a new heap of any odd length, a malloc that finds no room marks the only block as used |
| LazyHeap.OddHeapOverruns | lib/malloc.c:156-188 | the malloc after that links the sentinel to itself and returns the address behind the heap |
| LazyHeap.LazyHeap.Malloc | lib/malloc.c:142-189 | for every 32-bit request the default malloc ends and, unless adding a header to the rounded size wraps around, keeps the heap valid, writes into no live payload, and does exactly what the reference malloc does for the request that rounding leaves; when it wraps, a returned pointer belongs to no block; memory, search pointer and result are always those of the malloc on arbitrary memory |
| LazyHeap.LazyHeap.Sweep | lib/malloc.c:153-171 | the sweep ends, never relinks the sentinel, repairs stale sizes without changing what is live, and stops at the lowest fit or at the sentinel if there is none |
| LazyHeap.LazyHeap.Round | lib/malloc.c:156-171 | one round of the outer loop coalesces the next run of free blocks, and either that is the lowest fit or there is none up to where the round ends |
| LazyHeap.LazyHeap.Place | lib/malloc.c:179-188 | the stores behind a successful search, with the remainder's wrapped size, add exactly one live block |
| LazyHeap.LazyHeap.Free | lib/malloc.c:131-140 | the default free takes exactly the given block out of the live ones and writes into no live payload |
| EagerHeap.EagerHeap.constructor | lib/malloc.c:101-114 | initialisation gives a valid, fully coalesced heap with nothing live exactly when the length is a multiple of 4: otherwise the first block claims bytes behind the sentinel |
| EagerHeap.EagerHeap.Malloc | lib/malloc.c:67-99 | the same for the alternative malloc; it follows the sentinel's null link exactly for a request that is empty, or rounded to empty, without a fit |
| EagerHeap.EagerHeap.Search | lib/malloc.c:77-86 | comparing stored sizes finds the lowest fit: on a coalesced heap stored sizes are right |
| EagerHeap.EagerHeap.Free | lib/malloc.c:39-65 | the alternative free takes exactly the given block out of the live ones, coalesces the whole heap, and writes into no live payload |
| HeapTrace.RunWellFormed | lib/malloc.c:128-204 | the heap invariant holds after every run of malloc and free |
| HeapTrace.RunKeepsBlock | lib/malloc.c:128-204 | a block that a run does not free is there at its end, with the same extent |
| HeapTrace.AllFreedIsEmpty | lib/malloc.c:128-204 | freeing every live block, in whatever order, leaves nothing live, and then any request fits that fits the whole heap less two headers |
| HeapTrace.RunBoth | lib/malloc.c:36-204 | for every run of frees of live pointers and of mallocs, except empty ones without a fit and sizes to which no header can be added in 32 bits, both builds return the same address call by call, that of the reference heap |
| Tasks.MinusKeepsHigh | kernel/ucx.c:248 | taking no more than the countdown off a priority word borrows nothing from the base |
| Tasks.ReloadAtZero | kernel/ucx.c:256 | on a countdown of zero the bitwise or reloads exactly the base |
| Tasks.ReloadBits | kernel/ucx.c:256 | on any word the base stays, and its bits are added to those of the countdown |
| Tasks.DemoteAt | kernel/ucx.c:211-212 | the first step of a scheduling call makes a running task ready and changes no task in any other state |
| Scheduler.Kernel.Schedule | kernel/ucx.c:200-260 | the default scheduler panics exactly when no eligible task has a countdown of at most the first listed task's; otherwise it picks the last-listed eligible task of least countdown, that pick's charge, reload and state are the whole new task list, and exactly the picked task is running; of the list as it was found, tasks that were neither ready nor running are untouched and not picked, and running ones that are not picked are ready, also in calls that panic |
| Scheduler.Kernel.SelectTask | kernel/ucx.c:215-232 | the first pass finds the last-listed eligible task of least countdown, or an ineligible one if the first listed task shadows all of them |
| Scheduler.Kernel.SubtractFromReady | kernel/ucx.c:238-249 | the second pass charges the pick's countdown to every ready task and to no other |
| Scheduler.ShadowingReached | kernel/ucx.c:215-236 | kernel calls lead to the panic with a task ready: two tasks are spawned, the first takes the top priority and delays itself |
| Scheduler.DispatchedAt | kernel/ucx.c:238-257 | after a call every base is unchanged, every eligible countdown is lowered by exactly the pick's, the pick has its base as countdown and runs, and nothing else changes |
| Scheduler.DispatchedSound | kernel/ucx.c:238-257 | scheduling keeps every countdown at most its base |
| Scheduler.DelayIs | kernel/ucx.c:479-493 | a delay blocks the task on the processor for the given ticks and touches no other |
| Scheduler.DelayEnds | kernel/ucx.c:69-80 | a task delayed by n > 0 is ready after exactly n ticks and not before; a delay of 0 never ends |
| Scheduler.Kernel.Tick | kernel/ucx.c:69-80 | one traversal updates every blocked task with a delay once and no other |
| Scheduler.TickedAt | kernel/ucx.c:69-80 | a tick takes one off the delay of every blocked task that has one, wakes it with the last, and touches no other task |
| Scheduler.Kernel.Spawn | kernel/ucx.c:384-437 | a new task is listed last, ready, at normal priority, under the next id, which wraps at 16 bits; the others stay as they are |
| Scheduler.Kernel.Suspend | kernel/ucx.c:495-531 | only a ready or running task with the id is suspended; each error leaves the task list alone; the caller yields exactly when it suspended itself |
| Scheduler.SuspendIs | kernel/ucx.c:507-530 | suspending succeeds exactly for the first listed task with the id if it is ready or running, whose state alone changes; every failure leaves the list alone |
| Scheduler.Kernel.Resume | kernel/ucx.c:533-562 | only a suspended task is made ready; each error leaves the task list alone |
| Scheduler.ResumeIs | kernel/ucx.c:545-561 | resuming succeeds exactly for the first listed task with the id if it is suspended, whose state alone changes; every failure leaves the list alone |
| Scheduler.ResumeUndoesSuspend | kernel/ucx.c:495-562 | resuming a task just suspended gives it back ready and otherwise as it was |
| Scheduler.Kernel.SetPriority | kernel/ucx.c:564-601 | only the eight priority words are accepted, and every accepted one keeps countdowns within bases |
| Scheduler.PrioritizeIs | kernel/ucx.c:564-601 | exactly the eight priority words are accepted, and then only the word of the first listed task with the id changes |
| FairShare.RoundAt | kernel/ucx.c:200-260 | one call between arbitrary outside events, seen from any task: its base stays, and its countdown is reloaded, lowered by the pick's, or left alone |
| FairShare.Dispatches | kernel/ucx.c:200-260 | n calls of the scheduler in a row with the first listed task ready do not panic and make a run of the kind the laws below are about |
| FairShare.Conservation | kernel/ucx.c:200-260 | over every run a task that stays ready satisfies initial countdown + base * picks == current countdown + virtual time elapsed |
| FairShare.ProportionalShare | kernel/ucx.c:200-260 | from a fresh start, base * picks of two tasks that stay ready never differ by more than the larger base |
| FairShare.WindowShare | kernel/ucx.c:200-260 | in any window of a run they never differ by more than the sum of the bases |
| FairShare.RankStep | kernel/ucx.c:223-257 | a call that does not pick task i lowers i's rank by at least one, ties and zero charges included |
| FairShare.BoundedWait | kernel/ucx.c:223-257 | a ready task with countdown L is passed over at most sum over the other tasks of (L div base + 1) times, whatever the others do |
| SimpleScheduler.Walk | kernel/ucx.c:157-170 | the nested loops stop at the first visit that counts an eligible task down to zero, or panic after 10001 visits without one |
| SimpleScheduler.Schedule | kernel/ucx.c:142-181 | the round-robin scheduler's whole new state; it panics exactly when every eligible task's distance + (countdown - 1) * n exceeds 10001, and otherwise exactly the picked task is running; the same about tasks that are not picked |
| SimpleScheduler.StopUnique | kernel/ucx.c:157-170 | the visit a call stops at is determined |
| SimpleScheduler.PendingInClosedForm | kernel/ucx.c:157-170 | no eligible task has reached zero within v visits exactly when v is below distance + (countdown - 1) * n for each of them |
| SimpleScheduler.StopsAtLeast | kernel/ucx.c:157-173 | the pick, read off the task list: the one eligible task for which distance + (countdown - 1) * n is least |
| SimpleScheduler.FinishedAt | kernel/ucx.c:157-178 | after a call every base is unchanged, the pick has its base as countdown and runs, every other eligible countdown is lowered by the rounds that passed it, in closed form, and nothing else changes |
| SimpleScheduler.StopsInTime | kernel/ucx.c:157-170 | with a ready task of countdown L among n, a call stops within L * n visits, so within 255 * n |
| SimpleScheduler.NoPanicUpTo39 | kernel/ucx.c:166-167 | with at most 39 tasks and one of them ready the panic is never reached |
| SimpleScheduler.FortyIdleTasksPanic | kernel/ucx.c:166-167 | forty ready tasks of idle priority do reach it |
| SimpleScheduler.RoundsVisitAll | kernel/ucx.c:160 | r times n visits come to each of n tasks exactly r times |
| Coroutine.Group.Schedule | kernel/coroutine.c:97-118 | one call over the list traversal leaves the group, and runs the coroutine, that the call function says |
| Coroutine.CallEffect | kernel/coroutine.c:97-109 | a call counts down exactly the coroutines up to the one that runs, which is the first to reach zero and is reloaded |
| Coroutine.VisitedIs | lib/list.c:266-282 | in t calls a coroutine is visited in exactly those that ran no earlier one |
| Coroutine.RunsOverVisits | kernel/coroutine.c:97-109 | every period-th visit runs the coroutine, and its countdown is what is left of the period |
| Coroutine.RunsInClosedForm | kernel/coroutine.c:97-118 | after t calls coroutine k of a fresh group has run floor((t - runs of earlier ones) / period) times, for every priority byte (period 256 for priority 0) |
| Coroutine.AtMostOnePerCall | kernel/coroutine.c:97-118 | the runs of all coroutines together are at most the calls |
| Bits.OrBit | kernel/ucx.c:256 | the bitwise or, bit by bit |
| Bits.AndBit | lib/queue.c:11 | the bitwise and, bit by bit |
| Bits.ClearsLowestIff | lib/queue.c:9-12 | the test x && !(x & (x - 1)) holds exactly for powers of two |
| Bits.SmearBy | lib/queue.c:17-21 | or-ing in a shifted copy doubles the leading ones, also when the shift reaches past the last bit |
| Bits.AndMask | lib/queue.c:77 | masking with 2^k - 1 is the remainder modulo 2^k |
| RingQueue.NextPowerOf2 | lib/queue.c:14-25 | five smearing steps give the least power of two that is at least x |
| RingQueue.RingQueue.constructor | lib/queue.c:27-54 | for every requested int32_t: up to 2^29 the ring is empty and its size is the least power of two >= max(2, requested); exactly above that the byte count or the size wraps around, and the ring has no slots |
| RingQueue.RingQueue.Enqueue | lib/queue.c:73-86 | the element joins the end, or -1 and no change exactly when size - 1 elements are queued |
| RingQueue.RingQueue.Dequeue | lib/queue.c:88-100 | the longest-queued element is taken out, or null and no change exactly when the ring is empty |
| RingQueue.RoomForAll | lib/queue.c:27-54 | a ring holds as many elements as were requested exactly when that number is no power of two above one |
| Semaphore.Semaphore.Create | kernel/semaphore.c:9-31 | a negative value is refused; otherwise the semaphore has that count and nobody waits |
| Semaphore.Semaphore.Wait | kernel/semaphore.c:44-66 | wait on ring and task list does what the wait on abstract semaphores does, panic included |
| Semaphore.Semaphore.TryWait | kernel/semaphore.c:68-80 | trywait takes one from a positive count and fails without effect otherwise |
| Semaphore.Semaphore.Signal | kernel/semaphore.c:82-95 | signal does what the signal on abstract semaphores does, panic included |
| Semaphore.StepKeepsInv | kernel/semaphore.c:44-95 | for any number of semaphores, every wait, trywait, signal, delay, suspend, resume, priority, tick and dispatch keeps: a negative count is minus the number of waiters, who are distinct, blocked with delay 0, and on one queue only; otherwise nobody waits |
| Semaphore.InitialInv | kernel/semaphore.c:9-31 | created semaphores on which nobody waits satisfy the invariant |
| Semaphore.TaskEventKeepsParked | kernel/ucx.c:69-80 | neither a tick nor a task call nor the scheduler wakes a task that waits on a semaphore |
| Semaphore.PanicsIff | kernel/semaphore.c:57-59 | wait panics exactly when it would block and the ring is full, signal exactly when the count overflows; the null check in signal is never the cause in between |
| Semaphore.SignalEnabled | kernel/semaphore.c:82-95 | in every reachable state the waiters a signal looks at are tasks of the list |
| Semaphore.ReachableInv | kernel/semaphore.c:44-95 | the invariant holds in every state of every run from created semaphores; at most the current task is running in each |
| Semaphore.RunDetermined | kernel/semaphore.c:44-95 | the events of a run determine all its states |
| Semaphore.RoomForTasks | kernel/semaphore.c:57-59 | a wait never panics on a semaphore whose ring has room for as many tasks as there are |
| Semaphore.WaitCanPanicIff | kernel/semaphore.c:44-66 | for any numbers of tasks and of room, some run of the system leads to a wait that panics exactly when there are more tasks than room |
| Semaphore.CreatedForIff | kernel/semaphore.c:9-66 | on a semaphore created for at least as many tasks as there are, a wait can panic exactly when it was created for just as many and their number is a power of two above one |
| Semaphore.QueueAfter | kernel/semaphore.c:44-95 | the queue after one event: the caller is appended by a blocking wait, the longest waiter removed by a signal, and nothing else happens to it |
| Semaphore.SignalWakes | kernel/semaphore.c:86-93 | a signal makes the longest waiter ready and touches no other task; with nobody waiting it touches none |
| Semaphore.WaitBlocks | kernel/semaphore.c:49-65 | a wait on a count of zero or less blocks the caller and touches no other task or semaphore; on a positive one it touches no task |
| Semaphore.TryWaitTells | kernel/semaphore.c:70-79 | a trywait succeeds exactly on a positive count, takes one from it then, and touches no task |
| Semaphore.NoWakeupLost | kernel/semaphore.c:44-95 | over every run, a task that waits on a semaphore still waits, blocked on its queue, or a signal in between has made it ready |
| Semaphore.WaitParks | kernel/semaphore.c:51-62 | a wait that does not get through puts the caller in that place |
| Semaphore.SuspendedUntilResumed | kernel/ucx.c:495-562 | over every run, a suspended task stays suspended and is not dispatched until it is resumed |
| Semaphore.FirstInFirstOut | kernel/semaphore.c:44-95 | over every run, initial waiters followed by joiners are the woken followed by those still waiting: each signal wakes the longest waiter, nobody is lost or woken twice |
| Semaphore.MutualExclusion | kernel/semaphore.c:44-95 | used in turns, a semaphore of value v has at most v tasks inside at any time, and exactly v while somebody waits; v = 1 is mutual exclusion |
| Spinlock.InitInv | kernel/spinlock.c:9-13 | an initialised lock with all cores outside satisfies the invariant |
| Spinlock.StepKeepsInv | kernel/spinlock.c:18-52 | every single access of every core keeps it |
| Spinlock.MutualExclusion | kernel/spinlock.c:29-52 | in every state of every interleaving at most one core owns the lock, the lock word says whether one does, and cpu == c exactly while core c owns it by name |
| Spinlock.FreeLockAcquired | kernel/spinlock.c:29-38 | on a free lock four accesses make an acquire: the lock word is set, the core's number stored, and no other core is touched |
| Spinlock.AcquireReturnsOwner | kernel/spinlock.c:29-38 | over every interleaving, a core in its acquire stays in it or returns to its caller as the owner |
| Spinlock.TakenLockSpins | kernel/spinlock.c:34 | while the lock word is set, a spinning core changes nothing and does not get on |
| Spinlock.AcquireReleased | kernel/spinlock.c:29-52 | acquired and released again, a free lock is as free as before |
| Spinlock.HoldingIsExact | kernel/spinlock.c:18-24 | the two separate reads of holding() never wrongly succeed or fail, whatever happens between them |
| Spinlock.OwnerUndisturbed | kernel/spinlock.c:29-52 | whatever the other cores do, an owner keeps the lock and its name in it |
| Spinlock.StrayRelease | kernel/spinlock.c:43-46 | a release by a core that does not own the lock writes nothing and returns |
| Spinlock.ReentryNotCounted | kernel/spinlock.c:31-32 | acquiring an owned lock changes nothing, so one release frees it however often it was acquired |
| LinkedList.List.constructor | lib/list.c:12-49 | a new list is a chain of two dummies without elements |
| LinkedList.List.Push | lib/list.c:63-78 | prepends the element in a fresh node; other handles stay valid; no change without memory |
| LinkedList.List.PushBack | lib/list.c:80-99 | appends the element in the old dummy, whose node is returned, and a fresh node becomes the dummy; other handles stay valid |
| LinkedList.List.Pop | lib/list.c:101-118 | removes and returns the first element, or 0 and no change for an empty list |
| LinkedList.List.PopBack | lib/list.c:120-142 | removes and returns the last element without moving the dummy, or 0 and no change for an empty list |
| LinkedList.List.Insert | lib/list.c:205-228 | inserts behind a given node, or nothing behind the dummy; other handles stay valid |
| LinkedList.List.Remove | lib/list.c:230-249 | removes exactly the element of the given node; all other handles stay valid; the dummies cannot be removed |
| LinkedList.List.Before | lib/list.c:240-242 | the search loop ends at the node in front of the given one |
| LinkedList.List.Rotate | lib/list.c:185-203 | the first element moves to the end; its node becomes the dummy and the old dummy its node |
| LinkedList.Move | lib/list.c:157-183 | an element leaves its list and joins the end of another or of the same one; both stay acyclic, and every other element stays where it was |
| LinkedList.Foreach | lib/list.c:266-282 | the traversal calls any callback, with whatever state it works on, on the elements in order up to the first that returns a node |
| LinkedList.IteratedThreads | lib/list.c:270-281 | the state goes from callback to callback, front to back: the result is that of the first callback, on the state the earlier ones left, that returns a node |
| LinkedList.FirstFound | lib/list.c:266-282 | with a callback that tests its element the result is the node of the first that passes, and null exactly when none does |
| LinkedList.Cnext | lib/list.c:149-155 | the circular successor of an element, skipping both dummies, and the first element from the leading dummy |
| MulDiv.ShiftAdd | arch/common/muldiv.c:15-22 | shift-and-add is multiplication modulo the word |
| MulDiv.MulSi3 | arch/common/muldiv.c:11-23 | the product modulo 2^32 |
| MulDiv.MulDSi3 | arch/common/muldiv.c:25-38 | the exact 64-bit product of two 32-bit words |
| MulDiv.MulDi3 | arch/common/muldiv.c:40-52 | the product modulo 2^64 from three partial products |
| MulDiv.ShiftSubtract | arch/common/muldiv.c:61-73 | for every non-zero divisor shift-and-subtract ends with Euclid's quotient and remainder |
| MulDiv.UDivModSi4 | arch/common/muldiv.c:54-79 | unsigned 32-bit quotient or remainder; 0 for a zero divisor |
| MulDiv.UDivModDi4 | arch/common/muldiv.c:175-200 | unsigned 64-bit quotient and remainder, with or without a place for the remainder; a zero divisor gives 0 and leaves that place alone |
| MulDiv.DivModSi4 | arch/common/muldiv.c:81-102 | the signed 32-bit results for all operands, the most negative one and zero divisors included |
| MulDiv.DivModDi4 | arch/common/muldiv.c:202-226 | the same for 64 bits |
| MulDiv.TruncDivRem | arch/common/muldiv.c:114-122 | the reference quotient and remainder are C's: they restore the dividend, and the remainder is smaller than the divisor |
| MulDiv.QuotientIff | arch/common/muldiv.c:86-99 | the signed quotient is C's for all operands except the most negative number divided by -1 |
| MulDiv.QuotientOverflow | arch/common/muldiv.c:86-101 | the exception gives the most negative number itself |
| MulDiv.RemainderIff | arch/common/muldiv.c:86-99 | the signed remainder is C's exactly for a positive divisor or a division without remainder, and C's with the other sign for a negative divisor |
| SoftDivision.DivideMantissas | arch/common/ieee754.c:264-273 | the 25 rounds of repeated subtraction yield floor(n * 2^24 / d) |
| SoftDivision.DivSf3 | arch/common/ieee754.c:229-287 | the word returned, for all operands, zero dividend and zero divisor included |
| SoftDivision.QuotientRange | arch/common/ieee754.c:257-280 | the quotient has exactly 25 bits, and rounding it up never carries out of 24 |
| SoftDivision.RoundedIsNear | arch/common/ieee754.c:275-280 | the rounded mantissa is strictly closer than half a unit to the exact quotient: a tie cannot occur |
| SoftDivision.ValueQuotient | arch/common/ieee754.c:238-261 | the exact quotient of the two numbers, in terms of the mantissas, exponents and signs the code computes with |
| SoftDivision.TargetIsNearest | arch/common/ieee754.c:229-287 | the rounded mantissa at the computed exponent is the one nearest 24-bit number to the exact quotient |
| SoftDivision.PackedValue | arch/common/ieee754.c:284-286 | the packed word holds that number exactly when its exponent fits eight bits |
| SoftDivision.DividedValue | arch/common/ieee754.c:238-286 | for all non-zero operands the word stands for the rounded quotient with its exponent modulo 256, and is negative also where the exponent's ninth bit is set |
| SoftDivision.DividedZero | arch/common/ieee754.c:244-251 | a zero dividend gives zero; a zero divisor 2^32 or 2^31 by the dividend's sign |
| SoftDivision.CorrectlyRounded | arch/common/ieee754.c:229-287 | division of non-zero words is correctly rounded to nearest (IEEE 754-2019, sections 4.3.1 and 5.4.1) exactly when the result's exponent fits its field |
| SoftDivision.NormalQuotient | arch/common/ieee754.c:229-287 | the quotient of normal numbers of IEEE 754 is normal and correctly rounded exactly when its exponent is between 1 and 254 |
| SoftDivision.OverflowFlipsSign | arch/common/ieee754.c:284-286 | a quotient past the exponent range comes out with the wrong sign |
| Single.NearestScaled | arch/common/ieee754.c:275-285 | an integer mantissa within half a unit is the nearest 24-bit number at every scale and for both signs |
| Single.PackedFields | arch/common/ieee754.h:7-12 | what sign, exponent and mantissa read back from a packed word, overflowing exponents included |
| SoftConversion.FloatSiSf | arch/common/ieee754.c:353-377 | conversion of every integer but the most negative one ends with the word the lemmas below are about |
| SoftConversion.FirstLoopEndsIff | arch/common/ieee754.c:359-367 | the first loop of the conversion ends exactly for integers other than the most negative one |
| SoftConversion.FixSfSi | arch/common/ieee754.c:302-325 | the integer returned for every word |
| SoftConversion.RoundTrip | arch/common/ieee754.c:302-377 | to float and back truncates toward zero to 24 significant bits: below 2^24 it is the identity |
| SoftConversion.CmpSf2 | arch/common/ieee754.c:115-140 | the comparison of every pair of words, both signs |
| SoftConversion.UnsignedOrder | arch/common/ieee754.c:353-377 | the bit patterns of converted magnitudes are in the order of the truncated magnitudes |
| SoftConversion.OrderEmbedding | arch/common/ieee754.c:115-140 | comparing two converted integers compares the truncated integers; below 2^24, the integers themselves |
| ConversionValue.ComparesNumbers | arch/common/ieee754.c:115-140 | for all pairs of words the comparison has the sign of the difference of the numbers they stand for, the word 0 standing for zero |
| ConversionValue.FloatNumber | arch/common/ieee754.c:353-377 | the converted word stands for the integer truncated toward zero to 24 significant bits, zero included |
| ConversionValue.FixedValueIff | arch/common/ieee754.c:302-325 | conversion to an integer cuts off the fraction exactly when the number is below 2^31 in size |
| ConversionValue.FixedBeyond | arch/common/ieee754.c:313-324 | larger numbers come out as if their exponent were the largest that fits |
| Checksum.Checksum | net/inet/utils.c:5-24 | for every buffer and length the loop computes the folded and complemented sum of the big-endian words, an odd last byte included; it reads behind the buffer exactly for lengths below 1 or whose last 16-bit word leaves it |
| Checksum.RawSumIs | net/inet/utils.c:10-18 | the sum counts bytes at even places 256 times and the others once, an odd last byte included |
| Checksum.OddPadded | net/inet/utils.c:15-18 | an odd last byte counts as one with a zero byte behind it |
| Checksum.FoldCongruent | net/inet/utils.c:20-21 | folding keeps the sum modulo 0xffff, and only a zero sum folds to zero (RFC 1071, section 2) |
| Checksum.VerifiesIff | net/inet/utils.c:5-24 | a buffer whose sum fits 32 bits verifies exactly when that sum is a non-zero multiple of 0xffff |
| Checksum.StoredVerifies | net/inet/icmp.c:40-45 | a message of up to 64 KiB verifies once its checksum, computed over a zero field, is stored |
| Checksum.IpOut | net/inet/ip.c:7-31 | writes exactly the header with the given addresses, length, protocol and checksum, and nothing behind it |
| Checksum.EchoReply | net/inet/icmp.c:5-31 | an echo request is turned in place into the answer that is sent, and the send's status comes back through 16 bits; other types leave the packet alone and send nothing |
| Checksum.AnswerHeader | net/inet/ip.c:13-26 | the answer's header verifies, comes from this host and goes to the one that asked, with the given length, version 4, time to live 64, and no fragmentation |
| Checksum.AnswerEchoes | net/inet/icmp.c:11-20 | code, identifier, sequence number and data go back as they came: only type and checksum of the message differ |
| Checksum.AnswerMessageIff | net/inet/icmp.c:11-23 | the message in the answer verifies exactly when the one in the request did |
| Checksum.ReplySum | net/inet/icmp.c:13-20 | the update makes up for the changed type up to one multiple of 0xffff |
| Checksum.ReplyVerifiesIff | net/inet/icmp.c:11-20 | the reply to an echo request of any length an IP packet can carry verifies exactly when the request did (RFC 1624, section 3) |
| SerialFrames.Tty.Write | net/inet/ser_netif.c:5-21 | puts the flagged and stuffed frame, cut at 594 bytes, on the line, and returns the uncut length |
| SerialFrames.ToggleBit | net/inet/ser_netif.c:13 | escaping changes bit 5 of a byte and no other |
| SerialFrames.StuffedIs | net/inet/ser_netif.c:10-17 | no flag stands inside a frame on the line, and exactly the flag and escape bytes take two |
| SerialFrames.Tty.Read | net/inet/ser_netif.c:23-49 | returns the frame, and leaves the line, that the reading function says; waits exactly when that does |
| SerialFrames.ReadsAnyEscaping | net/inet/ser_netif.c:37-46 | the reader undoes any escaping that leaves no special byte out, up to the flag or its limit, and waits on a line that ends before, be it inside an escape |
| SerialFrames.NoFrame | net/inet/ser_netif.c:28-38 | a line without a flag is used up by a call that then waits; on an empty line a call returns at once |
| SerialFrames.FrameIff | net/inet/ser_netif.c:5-49 | a frame is read back whole with nothing of it left on the line exactly when it is shorter than 594 bytes |
| SerialFrames.LongFrameLosesNext | net/inet/ser_netif.c:37-46 | behind a frame of 594 bytes or more the next frame is lost: an empty one is read in its place |
| SerialFrames.RoundTripIff | net/inet/ser_netif.c:5-49 | a sequence of frames, with noise free of flags in front, is read back in order with an empty line exactly when every frame has at most 593 bytes |
| Eeprom.InPageIsFlat | drivers/device/24lcxxx/24lcxxx.c:265-313 | a write that stays inside a page is a flat write, at any position |
| Eeprom.NextWrite | drivers/device/24lcxxx/24lcxxx.c:284-310 | no write of a plan crosses a page boundary, they follow one another, and together they take the whole buffer |
| Eeprom.Driver.constructor | drivers/device/24lcxxx/24lcxxx.c:56-93 | the driver starts at position 0 with the page size of any of the eleven chips |
| Eeprom.CommandBytes | drivers/device/24lcxxx/24lcxxx.c:151-190 | the cell that device bits and address bytes select, for every chip, with the device bits of the position the write began at |
| Eeprom.CallsSelected | drivers/device/24lcxxx/24lcxxx.c:151-190 | the device bits call the chip with the configured address, at every position |
| Eeprom.SentHome | drivers/device/24lcxxx/24lcxxx.c:262-298 | a position goes to its own cell on chips of one block, and on the others inside the block the write began in |
| Eeprom.SentAround | drivers/device/24lcxxx/24lcxxx.c:262-298 | behind that block it goes around to the block's start: the device bits are not computed again |
| Eeprom.AllHomeIff | drivers/device/24lcxxx/24lcxxx.c:242-318 | all bytes of a write go to their own cells exactly when the chip has one block or the write ends in the block it begins in |
| Eeprom.HomeWriteIsFlat | drivers/device/24lcxxx/24lcxxx.c:242-318 | such a write equals one write to a flat memory |
| Eeprom.Driver.Plan | drivers/device/24lcxxx/24lcxxx.c:265-279 | the first write reaches the next page boundary, and sizes and number are those of the plan, for any position and count |
| Eeprom.Driver.WriteChunk | drivers/device/24lcxxx/24lcxxx.c:292-308 | the data of one transaction inside a page is written where the bus sends it |
| Eeprom.Driver.Write | drivers/device/24lcxxx/24lcxxx.c:242-318 | for every chip, position, count and behaviour of the bus: which transactions are made, what they leave on the chip, how far the position moves, and what is returned: the bytes that got through, or 0 when the bus is not free, or -1 without initialisation |
| Eeprom.ThroughIff | drivers/device/24lcxxx/24lcxxx.c:307-317 | the returned number is the count meant to be written exactly when no transaction was cut short |
| Eeprom.TransferAt | drivers/device/24lcxxx/24lcxxx.c:292-310 | where the bytes of any transaction go and which they are, cut short or not: the position counts the bytes meant to be written before, the buffer those that were; no other cell changes |
| Eeprom.AllThroughWrites | drivers/device/24lcxxx/24lcxxx.c:284-315 | then the transactions come to one write of the buffer's bytes, up to the page boundary they reach |
| Eeprom.Driver.Read | drivers/device/24lcxxx/24lcxxx.c:192-240 | a read returns as many of the flat memory's bytes from the position on as get through, and advances it by them; without the bus it returns 0 and stays |
| Eeprom.WriteOutside | drivers/device/24lcxxx/24lcxxx.c:242-318 | a write changes no cell outside its range |
| Eeprom.WriteThenRead | drivers/device/24lcxxx/24lcxxx.c:192-318 | reading where one wrote gives the bytes written, for anything that fits the chip |
| Eeprom.WriteSeekRead | drivers/device/24lcxxx/24lcxxx.c:192-336 | write, seek back and read through the driver return the bytes written, wherever all bytes go to their own cells |

## Left out

Deliberately weaker or conditional:

- LazyHeap.LazyHeap.Malloc: pointers and sizes are 32 bits and headers 8 bytes. Headers are a map from addresses, so what a wrapped request does to memory by overlapping headers is not modelled beyond their links.
- EagerHeap.EagerHeap.Malloc: the same; what follows a null link for an empty request without a fit is only flagged.
- HeapTrace.RunBoth: leaves out the empty requests on which the alternative build follows the null link, the eight requests to whose rounded size no header can be added, and frees of other pointers.
- LazyHeap.LazyHeap.Free: only for pointers that malloc returned and that are live; the code does not check. The same holds for EagerHeap.
- FairShare.BoundedWait: about calls that do not panic, with priorities unchanged between them.
- FairShare.Dispatches: needs the first listed task to stay ready; otherwise a call may panic (see Scheduler.ShadowingReached).
- SimpleScheduler.Schedule: countdowns start between 1 and their base, as spawning and setting priorities leave them.
- RingQueue.RingQueue.constructor: with memory for what it asks for, on a target with 32-bit pointers.
- Semaphore.PanicsIff: a count past the largest int32_t is taken to wrap around, which C leaves undefined.
- Semaphore.CreatedForIff: tasks and semaphores are created before the run; none is added or taken away during it.
- Semaphore.MutualExclusion: tasks take turns, as they must; nothing in the code enforces it.
- Spinlock.MutualExclusion: sequential consistency, and at most 65535 cores, since 0xffff stands for none.
- LinkedList.Move: not for the leading dummy, on which the code's search loop runs off the list.
- LinkedList.Foreach: the callback changes anything but the list itself.
- SoftConversion.FloatSiSf: not for the most negative integer, on which the code does not end (SoftConversion.FirstLoopEndsIff).
- SoftDivision.DivSf3: for a zero divisor the result is an integer converted to float, taken to be rounded as compilers fold it, to 2^32 or 2^31; the library's own unsigned conversion truncates and would give the words 0x4f7fffff and 0x4effffff.
- SoftDivision.CorrectlyRounded: words are read with the hidden bit always set, which is IEEE 754 for normal numbers; denormals, infinities, NaN and -0 have no meaning of their own, as in the code.
- ConversionValue.ComparesNumbers: the word of -0 is read as a small negative number, so it compares below +0; IEEE 754 has them equal.
- MulDiv.DivModDi4: signed negation and conversions wrap around.
- Checksum.Checksum: buffers are smaller than 2^31 - 1 bytes and may be read as 16-bit words at any address.
- Checksum.EchoReply: the packet buffer holds an IP and an ICMP header and at least the given length, as the caller's frame buffer does; what the send does is its status and the bytes it is given.
- SerialFrames.Tty.Read: input is what has arrived when the call is made; a read that would wait for more ends as waiting.
- Eeprom.Driver.Write: address bytes always get through once the bus is free, and positions do not overflow a long. Sequential reads roll over at the end of the chip, not of a block.

Not modelled:

- The task list of the kernel as list nodes: Scheduler has a sequence of task control blocks, and LinkedList the nodes; the current task is a position, so cancelling tasks is left out.
- Context switching, stack checks, real-time scheduling hooks, interrupts and MULTICORE kernels: they depend on hardware or the C library.
- ucx_calloc, ucx_realloc and CONFIG_POWER_ALLOC: wrappers and another rounding of the request.
- Running out of memory in creation functions, and destroy, peek, count and index functions: one branch each.
- The doubly linked list: every operation is the singly linked one with a second link.
- Pipes, messages and event queues: the same ring again. Timers and the other network protocols: easier members.
- ucx_cr_cancel, which passes its callback a code pointer as a control block, and the counter fibers.
- Single-precision addition, subtraction and multiplication, all of double precision, and the 64-bit shifts: the code claims no exact results for the first, and the shifts would only add an easy member.
- USB, GPIO, PWM, SPI, UART and console drivers, system calls and applications: hardware or plumbing.

Members without a row read one definition or one store back, such as adding a coroutine, finding a task by its id, or seeking.
