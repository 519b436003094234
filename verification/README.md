# Verified model of the kernel's in-memory mechanisms

A Dafny 4.11 model of the parts of this x86-32 kernel that keep state in linked structures, bitmaps and
page tables, of the disk image writer and of the program loader, with proofs of what they keep over
every run. `dafny verify dfyconfig.toml` checks the whole project.

Each component has two or three layers: a specification on values (`ClusterSpec`, `SchedulerSpec`,
`SyncSpec`, `PagingSpec`, `ImageSpec`, `LoaderSpec`, `LoadSpec`), theorems about it (`*Theorems`,
`*History`, `*Isolation`, `*Protocol`, `RoundTrip` and others), and the imperative code on arrays and pointers, each method
proved equal to the specification (`ClusterPool`, `Scheduler`, `Sync`, `MailboxRing.Mbox`, `PageTables`,
`ImageWriter`, `Loader`). So the theorems hold of what the pointer code does.

* **Kernel heap.** `ClusterSpec` follows `allocate` and `free` branch by branch on a ring of clusters.
  `ClusterTheorems` proves the tiling, cursor, byte-counter and node-bitmap invariant and the disjointness
  of live extents over every run of requests. `free` does not keep the heap sound for every live address:
  freeing the lowest cluster while the highest is FREE merges around the end of the region, or leaves
  the cursor on a node already given back. `FreeKeepsInvIff` gives the exact guard, and `ClusterExamples` has
  a run of ordinary requests from a fresh heap to each of the two failures. A request for no bytes puts an
  empty cluster into the ring; `AllocateKeepsInvIff` says exactly when that happens. `ClusterCursor` says where
  requests leave the cursor, and so that allocation is next fit from one request to the next.
* **Critical sections.** `Critical` is a step system over single instructions of any number of threads, with
  a timer step allowed before every instruction while IF is set. The nesting counter and the saved flags are
  global, so a section does not always restore IF. `CriticalSections` says exactly when it does, for sections of
  any body in every run: from the state at entry if no other thread runs meanwhile (`AloneRestoresIff`), from
  the state at the thread's own `cli` if it may be preempted on its way there (`UnparkedRestoresIff`), and from
  the state at the closing decrement if it may also park (`SectionRestoresIff`). `CriticalRuns` has two runs in
  which no section is open at entry and the flag is lost, or comes on in the middle of a system call.
  `CriticalReturns` says what a thread finds when it comes back from an interrupt, a yield, a `block` or a
  system call: its own frames, nesting and interrupt flag.
* **Scheduler.** The ready ring and the wait queues share one pair of links per thread. A ghost field `place`
  says which structure a thread's links belong to; the methods are proved to move a thread from one to another.
  `SchedulerTheorems` has the exact round robin, `SchedulerHistory` what becomes of a thread over a run.
* **Synchronisation.** A blocking call is cut at `block` into stretches that run without interruption
  (`CriticalSections.SectionNotInterleaved`). Runs interleave stretches of the object under study with any other
  events.
* **Mailbox.** `MailboxRing` relates the byte ring to a queue of messages; `MailboxProtocol` is the waiting of
  any number of senders and receivers; `MailboxSystem` shows that the ring, the lock word and the wait queues of
  the scheduler simulate it.
* **Paging.** `PagingSpec` works on unpacked entries, so bit operations occur only in `PagingBits` and at the
  words `PageTables` reads and writes. A physical address of a table is resolved by looking up which static
  array the linker put there (section 4.3 of the Intel SDM, Volume 3A, gives the walk).
* **Image and loader.** `ImageSpec` is the byte layout `createimage` writes, `LoaderSpec` and `LoadSpec` what
  `load_program` reads. They share no layout code; `RoundTrip` proves that they agree down to the byte a
  process reads at its virtual address. `LoadOutcome` and `LoadStack` are about any disk: when a load succeeds, and
  what the new process finds on its stack.

Parameters of the model: where the linker puts the static arrays (aligned, distinct, below the frames), the
disk's contents, which of the allocations in `thread_create` succeed, how many bytes each `read` returns and
whether writes are carried out in full, and the address of `call_exit`.

Where text and code differ the model follows the code: the identity map reaches 0x2000000, and `allocate`
returns 0 on failure, which no extent starts at.

## Model

| member | source | states |
|---|---|---|
| Bitmap.Mark | lib/minstd/utils.hpp:29-35 | marking sets exactly that bit of the bitmap |
| Bitmap.Unmark | lib/minstd/utils.hpp:37-43 | unmarking clears exactly that bit |
| Bitmap.ByteBits | lib/minstd/utils.hpp:21-43 | within a byte, or-ing and and-ing with the mask of one bit leaves the seven others alone |
| Bitmap.DivideRoundupIff | lib/minstd/utils.hpp:44-47 | in 32 bits it is the least number of units of b that hold a if and only if a + b - 1 fits |
| NodePool.Pool.constructor | kernel/structs/pool.hpp:52-68 | a new pool has all its nodes free |
| NodePool.Pool.Allocate | kernel/structs/pool.hpp:24-35 | takes the lowest free node and no other, or returns all ones and changes nothing |
| NodePool.Pool.Free | kernel/structs/pool.hpp:36-40 | gives back exactly that node |
| ClusterTheorems.PickIsNextFit | kernel/structs/clusterpool.cpp:33-41 | the search visits the whole ring: it finds nothing only if nothing fits, and otherwise the fitting cluster with the fewest steps from the cursor |
| ClusterTheorems.AllocateFailsIff | kernel/structs/clusterpool.cpp:24-54 | 0 is returned if and only if no FREE cluster is large enough, also when the 32-bit sum of the early test wraps |
| ClusterTheorems.AllocateKeepsInv | kernel/structs/clusterpool.cpp:24-54 | a successful allocation keeps the heap sound and adds one live extent of the requested size, inside the region and disjoint from all others; a failing one changes nothing |
| ClusterTheorems.AllocateKeepsInvIff | kernel/structs/clusterpool.cpp:24-54 | allocate keeps the heap sound if and only if the request is for some bytes, or nothing is FREE |
| ClusterTheorems.SplitKeepsInv | kernel/structs/clusterpool.cpp:75-88 | a split keeps tiling, byte count and node bitmap, and adds the upper part to the live extents |
| ClusterTheorems.LiveDisjoint | kernel/structs/clusterpool.cpp:24-118 | in a sound heap live extents are disjoint and lie in the region |
| ClusterTheorems.MergeKeepsInv | kernel/structs/clusterpool.cpp:90-97 | merging two FREE neighbours that do not straddle the end keeps the heap sound and every live extent, if the cursor is not on the node given back |
| ClusterTheorems.FreeKeepsInvIff | kernel/structs/clusterpool.cpp:55-118 | free keeps the heap sound if and only if the address starts no cluster, or a USED one that is not the lowest while the highest is FREE (with the one three-node exception) |
| ClusterTheorems.FreeLive | kernel/structs/clusterpool.cpp:55-73 | a safe free removes exactly the extent at that address from the live ones, and an unknown address changes nothing |
| ClusterTheorems.AllocateKeepsNoFreeNeighbours | kernel/structs/clusterpool.cpp:42-51 | allocate never leaves two adjacent FREE clusters where there were none |
| ClusterTheorems.FreeCoalescesIff | kernel/structs/clusterpool.cpp:101-118 | a safe free leaves no two adjacent FREE clusters, except exactly in the rings of two and three where next and prev coincide |
| ClusterTheorems.ServeKeepsInv | kernel/structs/clusterpool.cpp:24-118 | one permitted request: soundness, the new live set and disjointness of what is handed out |
| ClusterTheorems.RunSound | kernel/structs/clusterpool.cpp:24-118 | over every run of permitted requests the heap is sound, the live extents are those the client's log says it holds, and every extent handed out is clear of all that is held; marked nodes are exactly the ring's clusters |
| ClusterTheorems.FreshSound | kernel/memory.cpp:14-21 | the pool as created is sound, holds nothing live and has no two FREE neighbours |
| ClusterCursor.AllocateNextFit | kernel/structs/clusterpool.cpp:32-53 | a successful allocate takes the end of the fitting cluster with the fewest steps from the cursor, and leaves the cursor on that cluster or on what is left of it |
| ClusterCursor.NextFitGoesOn | kernel/structs/clusterpool.cpp:32-53 | over every run, of two allocations in a row the second takes the fitting cluster nearest to where the first was cut |
| ClusterCursor.FreeCursor | kernel/structs/clusterpool.cpp:60-66 | a safe free leaves the cursor on the cluster just below the address, merged or not, or on the highest one if the address is the lowest |
| ClusterExamples.DanglingCursorReachable | kernel/structs/clusterpool.cpp:60-66 | three ordinary requests on a fresh heap lead to a live address whose free leaves the cursor outside the ring |
| ClusterExamples.WrapMergeReachable | kernel/structs/clusterpool.cpp:111-117 | four ordinary requests on a fresh heap lead to a live address whose free makes the highest cluster reach past the region |
| ClusterPool.ClusterPool.constructor | kernel/memory.cpp:14-21 | one FREE cluster over the region, linked to itself, sound |
| ClusterPool.ClusterPool.Splituse | kernel/structs/clusterpool.cpp:75-88 | the pointer surgery inserts the new node behind the old one in a well-formed ring and returns the address of the upper part |
| ClusterPool.ClusterPool.CoalesceNext | kernel/structs/clusterpool.cpp:90-97 | the successor leaves a well-formed ring, its bytes are taken over, its node is given back; alone in the ring nothing happens |
| ClusterPool.ClusterPool.FindFit | kernel/structs/clusterpool.cpp:33-41 | the loop over next pointers terminates and finds what the next-fit specification picks |
| ClusterPool.ClusterPool.Take | kernel/structs/clusterpool.cpp:42-53 | cursor, byte counter, ring and node bitmap afterwards are those of the specification |
| ClusterPool.ClusterPool.Allocate | kernel/structs/clusterpool.cpp:24-54 | pointer-level allocate equals the specification for every size, and the heap is sound afterwards exactly if the size is not 0 or nothing was FREE |
| ClusterPool.ClusterPool.FreeCluster | kernel/structs/clusterpool.cpp:101-118 | marking and the two guarded merges on pointers equal the specification, in rings of every size |
| ClusterPool.ClusterPool.FindAddress | kernel/structs/clusterpool.cpp:58-69 | the backward loop terminates and finds the cluster that starts at the address, if any |
| ClusterPool.ClusterPool.Free | kernel/structs/clusterpool.cpp:55-73 | pointer-level free equals the specification, and the heap is sound afterwards if and only if the guard held, so that allocate and free can go on |
| Critical.StepKeepsInv | kernel/entry.S:29-149 | every instruction, interrupt, switch, creation and exit keeps the invariant that ties the counter, IF and the saved frames together |
| Critical.CriticalSafety | kernel/entry.S:29-121 | in every interleaving the counter is the sum of all threads' open sections; inside one IF is clear and no timer step is possible; another thread inside one has given up the processor itself |
| Critical.BlockFindsInterruptsOff | kernel/scheduler.cpp:86-98 | whoever calls block inside a critical section finds interrupts off |
| CriticalSections.EnterKeepsFlag | kernel/entry.S:29-40 | between reading the flags and cli, IF, the flags read and the nesting are what they were at entry whenever the thread runs, however often it is preempted |
| CriticalSections.AloneRestoresIff | kernel/entry.S:29-49 | over every run, a section with any body during which no other thread runs restores IF if and only if the counter was 0 at entry or IF was clear |
| CriticalSections.UnparkedRestoresIff | kernel/entry.S:29-49 | over every run, a section that does not park restores IF if and only if at its own cli IF was set exactly when the counter was 0 and the saved flags had it set |
| CriticalSections.SectionRestoresIff | kernel/entry.S:29-49 | over every run, any section, parked or not, restores IF if and only if at its closing decrement IF had been set at entry exactly when the counter is 1 and the saved flags have it set |
| CriticalSections.SectionNotInterleaved | kernel/entry.S:29-121 | over every run, while the running thread has a section open and neither blocks nor yields, it keeps the processor and no other thread changes |
| CriticalReturns.TimerRestores | kernel/entry.S:51-65 | over every run, a thread preempted at any instruction comes back to it with its frames and nesting and with IF set |
| CriticalReturns.ParkRestores | kernel/scheduler.cpp:86-98 | over every run, a thread that blocks comes back to where it was, IF still clear |
| CriticalReturns.YieldRestores | kernel/entry.S:112-121 | over every run, a thread that yields, preempted or not before its cli, goes on with its frames and nesting and with IF as it was at the call |
| CriticalReturns.SyscallRestores | kernel/entry.S:88-110 | over every run, a system call starts with IF clear and, whatever its handler does, gives the caller back its IF, frames and nesting |
| CriticalReturns.CreatedStarts | kernel/entry.S:123-149 | over every run, a new thread begins outside any section with IF set |
| CriticalReturns.ExitIsFinal | kernel/scheduler.cpp:81-84 | over every run, a thread that has exited never runs again |
| CriticalRuns.FlagLost | kernel/entry.S:29-121 | a run in which a thread enters with IF set and counter 0 and leaves with IF clear; on its way in the counter is 1, left by a parked thread, with IF set |
| CriticalRuns.FlagGained | kernel/entry.S:29-121 | a run in which a thread enters with IF clear and counter 0 inside a system call, parks, and leaves with IF set |
| SchedulerTheorems.StepKeepsInv | kernel/scheduler.cpp:28-111 | every event keeps each existing thread in exactly one place: the ring, one queue or the zombie slot |
| SchedulerTheorems.RunInv | kernel/scheduler.cpp:14-111 | so in every reachable state |
| SchedulerTheorems.PlaceAfter | kernel/scheduler.cpp:44-58 | a scheduler call brings every waiting thread one place closer, an unblock one place further back, a creation none |
| SchedulerTheorems.RoundRobin | kernel/scheduler.cpp:28-111 | a thread d places behind the running one is d plus unblocks minus scheduler calls behind it at every moment before its turn |
| SchedulerTheorems.NotBeforeItsTurn | kernel/scheduler.cpp:28-111 | it runs at exactly the call numbered d plus the unblocks before it |
| SchedulerTheorems.ZombieWaits | kernel/scheduler.cpp:28-58 | an exited thread stays in the zombie slot, in no ring or queue, until the next scheduler call |
| SchedulerTheorems.ReapedAtNextCall | kernel/scheduler.cpp:28-58 | and goes out of existence at that call, when it is not the running thread |
| SchedulerHistory.StepMoves | kernel/scheduler.cpp:28-111 | every event takes every thread exactly where it should go: the leaver to its queue, the zombie slot or out of existence, the first sleeper woken to the ring, the zombie out of existence, all others nowhere |
| SchedulerHistory.MovesOnlyItself | kernel/scheduler.cpp:28-111 | over every run a thread leaves the ring only by its own block or exit, a wait queue only when it is first and woken, and existence only when reaped or by an exit without a zombie |
| SchedulerHistory.HaltsIff | kernel/scheduler.cpp:14-26 | the machine halts if and only if the only ready thread leaves the ring |
| SchedulerHistory.ComesIn | kernel/scheduler.cpp:44-58 | a thread whose turn ends and a new one are last in the ring, a woken one is next |
| SchedulerHistory.RunningGoesOn | kernel/scheduler.cpp:55-57 | a call in state RUNNING reaps and goes on with the same thread |
| SchedulerHistory.QueueFifo | kernel/scheduler.cpp:86-111 | over every run those woken from a queue followed by those still asleep are those who went to sleep, in order |
| SchedulerHistory.ZombieIff | kernel/scheduler.cpp:28-58 | over every run a thread is in the zombie slot if and only if the last scheduler call was its exit, or it was there at the start and there was no call yet |
| SchedulerHistory.GoneForGood | kernel/scheduler.cpp:48-51 | over every run a thread that exits without a zombie is out of existence from that call on, the slot is empty, and no later call finds it there |
| Scheduler.Kernel.constructor | kernel/kernel.cpp:222-225 | the boot thread alone in a well-formed ring |
| Scheduler.Kernel.PopReadyQueue | kernel/scheduler.cpp:14-26 | the ring closes behind the removed thread, whose links are cleared; alone in the ring it halts |
| Scheduler.Kernel.Schedule | kernel/scheduler.cpp:28-69 | reap, switch on the state and make the next ready, on pointers, equal the specification; ring and all wait queues stay well-formed |
| Scheduler.Kernel.Tick | kernel/entry.S:51-65 | a timer call rotates the ring and keeps all structures |
| Scheduler.Kernel.Exit | kernel/scheduler.cpp:81-84 | the running thread leaves the ring for the zombie slot; all structures stay well-formed |
| Scheduler.Kernel.ExitNoZombie | kernel/scheduler.cpp:76-79 | equals the specification of which GoneForGood is proved: the running thread leaves the ring and goes out of existence; all structures stay well-formed |
| Scheduler.Kernel.LastOf | kernel/scheduler.cpp:92-94 | the walk along a queue terminates at its last thread |
| Scheduler.Kernel.Block | kernel/scheduler.cpp:86-98 | the running thread moves from ring to queue end through the shared links; both stay well-formed |
| Scheduler.Kernel.Unblock | kernel/scheduler.cpp:100-111 | the queue's first thread moves right behind the running one; both structures stay well-formed |
| Scheduler.Kernel.Create | kernel/kernel.cpp:143-152 | the new thread goes last in a well-formed ring |
| SyncSpec.WakeAll | kernel/sync.cpp:43-47 | the waking loop empties the queue and puts the sleepers behind the running thread in reverse order |
| LockTheorems.NextKeepsInv | kernel/sync.cpp:7-35 | every event keeps exclusion, the meaning of the status, and a woken thread for every free lock with sleepers |
| LockTheorems.LockSafety | kernel/sync.cpp:7-35 | over every run at most one holder, LOCKED exactly with a holder, and no sleepers left behind a free lock without a thread about to test it |
| LockTheorems.LeavesHolding | kernel/sync.cpp:7-35 | a thread leaves acquire, and the acquire inside Condition::wait, only as the one holder |
| LockTheorems.ReleaseWakesOne | kernel/sync.cpp:12-35 | over every run a release, also the one in Condition::wait, wakes exactly one sleeper of the lock, if there is one: the longest; the others stay asleep in order |
| LockTheorems.TestSleepsIff | kernel/sync.cpp:7-10 | over every run a test of a LOCKED lock puts the thread to sleep, last in the queue and out of the ring, and a test of an UNLOCKED one makes it the holder |
| LockTheorems.WaitSleeps | kernel/sync.cpp:29-35 | over every run a thread that waits is asleep, last on the condition and out of the ring, without the lock |
| LockTheorems.LockFifo | kernel/sync.cpp:7-35 | over every run the lock's sleepers are woken in the order in which they went to sleep |
| SemaphoreTheorems.SemaphoreConserves | kernel/sync.cpp:49-67 | over every run slots are the initial ones plus ups minus grants and not negative, and there are sleepers only when no slot is left |
| SemaphoreTheorems.SemaphoreFifo | kernel/sync.cpp:49-67 | over every run slots are handed to sleepers in the order in which they went to sleep |
| SemaphoreTheorems.BarrierInv | kernel/sync.cpp:69-79 | over every run counter plus sleepers is the initial number |
| SemaphoreTheorems.BarrierGenerations | kernel/sync.cpp:69-79 | calls return in multiples of the initial number, one group per opening, and fewer than a group are waiting |
| SemaphoreTheorems.BarrierOpensForGroup | kernel/sync.cpp:69-79 | an opening releases the caller and all sleepers, as many distinct threads as the barrier is for |
| Sync.Lock.AcquireRound | kernel/sync.cpp:7-10 | one test of the acquire loop on pointers equals the specification |
| Sync.Lock.Release | kernel/sync.cpp:12-15 | unlocks and wakes at most one sleeper |
| Sync.Condition.WaitStart | kernel/sync.cpp:29-35 | the lock is given up and the thread asleep on the condition in one uninterrupted stretch |
| Sync.Condition.Signal | kernel/sync.cpp:37-41 | wakes the longest sleeper, if any |
| Sync.Condition.Broadcast | kernel/sync.cpp:43-47 | the loop terminates with the queue empty, all sleepers in the ring |
| Sync.Semaphore.Up | kernel/sync.cpp:49-57 | hands the slot to a sleeper or counts it, never both |
| Sync.Semaphore.Down | kernel/sync.cpp:59-67 | takes a slot or sleeps |
| Sync.Barrier.Wait | kernel/sync.cpp:69-79 | sleeps, or wakes all and sets the counter back, on pointers |
| MailboxRing.SpaceIsUnused | kernel/mbox.cpp:5-9 | the three cases give the unused bytes; where head and tail meet the message count tells full from empty |
| MailboxRing.PutAppends | kernel/mbox.cpp:46-50 | a message written around the end is appended to the queue and leaves the queued bytes alone |
| MailboxRing.GetRemoves | kernel/mbox.cpp:64-71 | what is read is the oldest message, size and bytes, also with its header split over the end |
| MailboxRing.FirstInFirstOut | kernel/mbox.cpp:41-75 | after any sends and receives, received messages followed by queued ones are exactly the sent ones in order |
| MailboxRing.Mbox.SpaceAvailable | kernel/mbox.cpp:5-9 | the number of bytes no queued message occupies |
| MailboxRing.Mbox.PutMessage | kernel/mbox.cpp:46-50 | the byte loop appends the message to the abstract queue |
| MailboxRing.Mbox.RingCopyOut | kernel/mbox.cpp:57-59 | the bytes of the ring from that position on, wrapped |
| MailboxRing.Mbox.GetMessage | kernel/mbox.cpp:64-71 | returns and removes the first message of the abstract queue |
| MailboxRing.Mbox.Open | kernel/mbox.cpp:14-20 | resets an unowned empty box, leaves any other as it is, and never loses a queued message |
| MailboxRing.MboxOpen | kernel/mbox.cpp:11-23 | a key out of range opens nothing and changes nothing; otherwise the box of that key has one more owner and its messages |
| MailboxRing.Mbox.Close | kernel/mbox.cpp:25-31 | drops one owner, or reports that there is none, and keeps the messages |
| MailboxProtocol.StepKeepsInv | kernel/mbox.cpp:41-75 | every step of every thread keeps the waiting invariant |
| MailboxProtocol.NoLostWakeup | kernel/mbox.cpp:41-75 | whenever the lock is free, every sleeping sender needs more than the space there is, and beside a sleeping receiver there are as many woken receivers as messages |
| MailboxProtocol.ReceiverOnItsWay | kernel/mbox.cpp:60-62 | a receiver asleep beside a message implies another one that is woken and can take the lock |
| MailboxProtocol.TestsAgree | kernel/mbox.cpp:5-9 | the conditions of the two wait loops on head, tail and count are those of the protocol |
| MailboxSystem.NextSimulates | kernel/mbox.cpp:41-75 | each stretch on the byte ring, the lock word and the scheduler's wait queues, and each other event of the machine, is one step of the protocol or none |
| MailboxSystem.SleepersDoNotRun | kernel/mbox.cpp:41-75 | the running thread is never one that sleeps in the mailbox |
| MailboxSystem.NoLostWakeup | kernel/mbox.cpp:41-75 | over every run of the machine, whenever the lock word is clear, whoever is in the wait queue of freed_space needs more than space_available, and beside a thread in that of arrived_data there are as many woken receivers as messages |
| PagingBits.SamePageIff | kernel/paging.hpp:9-11 | two addresses have the same directory and table index if and only if they are in the same page |
| PagingBits.KernelHalf | kernel/paging.cpp:121-123 | the first eight directory entries are exactly the addresses below 0x2000000 |
| PagingBits.FrameRoundTrip | kernel/paging.cpp:54-69 | the address frame_alloc returns for a frame is aligned, in the pool, and frame_free computes the same frame from it |
| PagingTheorems.EnsureKeepsInv | kernel/paging.cpp:71-94 | a new user table keeps all directories well-formed and no table on two entries |
| PagingTheorems.EnsureKeepsTranslation | kernel/paging.cpp:87-94 | a new table changes no translation of any directory |
| PagingTheorems.MapPageKeepsInv | kernel/paging.cpp:83-98 | map_page in the user half keeps the invariant; with no table left it changes nothing at all |
| PagingTheorems.MapPageRefines | kernel/paging.cpp:83-98 | it sets exactly that page of exactly that directory, or nothing when the 32 tables are exhausted |
| PagingTheorems.MapPageShared | kernel/paging.cpp:83-98 | below 0x2000000 it sets the page in every directory in use: one directory only is the case exactly at or above |
| PagingTheorems.AllocTranslation | kernel/paging.cpp:34-45 | a new directory shows nothing in the user half, and the others what they did |
| PagingTheorems.KernelShared | kernel/paging.cpp:34-45 | every directory in use shows the kernel's own pages below 0x2000000, none of them to ring 3 |
| PagingTheorems.MayWriteIff | kernel/paging.cpp:83-118 | a page of a directory in use is writable if and only if its own entry says so: no directory entry takes the permission away |
| PagingTheorems.FrameFreed | kernel/paging.cpp:54-69 | a frame given back is one more that is free, the lowest free one is handed out next, and no other frame is affected |
| PagingTheorems.TakeAndReturn | kernel/paging.cpp:54-69 | taking a frame and giving it back changes nothing |
| PagingTheorems.DirectoryFreed | kernel/paging.cpp:34-52 | the same of directories; the one handed out next shows nothing of what it held |
| PagingIsolation.AfterSafe | kernel/paging.cpp:34-98 | each paging call keeps processes apart, when a frame is mapped once and not freed while mapped |
| PagingIsolation.Isolation | kernel/paging.cpp:34-98 | after every run from start-up a frame ring 3 can reach is reached from one page of one directory, is taken, and is no page table or directory |
| PagingIsolation.TablesStayExclusive | kernel/paging.cpp:71-98 | over every run no user table hangs off two entries of directories in use, and the kernel's tables are as start-up left them |
| PagingBoot.StepProgress | kernel/paging.cpp:103-118 | one round of identity_map finds or takes the table it needs and never runs out |
| PagingBoot.InitPaging | kernel/paging.cpp:100-123 | from zeroed arrays identity_map consumes exactly the 8 static tables; every address below 0x2000000 translates to itself for ring 0, every one above to nothing |
| PagingBoot.KernelStaysMapped | kernel/paging.cpp:34-123 | over every run those addresses stay mapped to themselves, for ring 0 only, in every directory in use |
| PageTables.UnpackPage | kernel/paging.cpp:96-97 | frame, flags and present bit packed into one word come apart again |
| PageTables.MapPageMeaning | kernel/paging.cpp:83-98 | map_page in terms of addresses and words: that page becomes (frame, flags with present), all others stay |
| PageTables.PageTables.constructor | kernel/paging.cpp:15-24 | the static arrays start out zero, with no directory, table or frame in use |
| PageTables.PageTables.AllocPageTable | kernel/paging.cpp:26-32 | hands out the static tables in order, eight times |
| PageTables.PageTables.AllocPageDirectory | kernel/paging.cpp:34-45 | the copy loop leaves the kernel's entries in the first unused directory and touches no other array |
| PageTables.PageTables.FreePageDirectory | kernel/paging.cpp:47-52 | clears the flag of that directory; an array that is no directory is ignored |
| PageTables.PageTables.FrameAlloc | kernel/paging.cpp:54-63 | returns the address of the lowest frame not taken, now taken, or 0 |
| PageTables.PageTables.FrameFree | kernel/paging.cpp:65-69 | gives back the frame that contains the address; addresses outside the pool are ignored |
| PageTables.PageTables.AllocUserPageTable | kernel/paging.cpp:71-81 | the first unused table, cleared, or nothing |
| PageTables.PageTables.MapPage | kernel/paging.cpp:83-98 | on words and arrays equals the specification, including the silent return |
| PageTables.PageTables.IdentityMap | kernel/paging.cpp:100-119 | the loop on words equals the specification for any directory and start, and terminates |
| PageTables.PageTables.InitPaging | kernel/paging.cpp:121-123 | leaves eight tables taken and the state the isolation theorems start from |
| ImageSpec.PadFills | tools/createimage.cpp:75-98 | pad_to_sector and sector_count agree on where the next sector begins |
| ImageTheorems.EntryRoundTrip | tools/createimage.cpp:160-171 | a directory entry is read back as written, its name cut to 15 bytes |
| ImageTheorems.FindIff | kernel/loader.cpp:54-64 | the scan finds program i if and only if it is the first of that name among sixteen and no program up to it has an empty name |
| ImageTheorems.PatchesStay | tools/createimage.cpp:193-203 | sector count, directory sector and entry point end up at offsets 2, 6 and 503 of the boot sector, and nothing else changes behind it |
| ImageTheorems.ReadsDirectory | kernel/loader.cpp:22-52 | on a written image the loader finds the directory sector where it was put |
| ImageTheorems.LookupFinds | kernel/loader.cpp:41-68 | a name that is found gives that program's first sector, number of sectors and entry point |
| ImageTheorems.LookupIff | kernel/loader.cpp:41-68 | a name is found if and only if the scan reaches a program of that name |
| ImageTheorems.ProgramSector | tools/createimage.cpp:187-191 | each sector of a program lies where the directory's first sector says |
| ImageTheorems.KernelSector | tools/createimage.cpp:151-184 | the kernel lies from sector 1 on, byte for byte and filled up with zeros, as many sectors as the word at offset 2 says |
| ImageTheorems.BootByte | tools/createimage.cpp:177-203 | every byte of the boot sector outside the patches is that of its file |
| ImageWriter.FillMetadata | tools/createimage.cpp:31-73 | from the bytes of the file: a range only for a 32-bit little-endian ELF file with all its headers and a segment to load, and always then if reads are not cut short; lowest offset and highest 32-bit end; the file position is put back |
| ImageWriter.CoversIff | tools/createimage.cpp:53-65 | the range holds every segment if and only if no segment's end exceeds 32 bits |
| ImageWriter.SegmentsCopied | tools/createimage.cpp:188-191 | the bytes copied for a file hold each of its segments at its distance from the first |
| ImageWriter.CopyRange | tools/createimage.cpp:78-90 | writes a prefix of the bytes of the range that exist, all of them if writes are carried out, however short the reads; true only when all exist and are written |
| ImageWriter.PadToSector | tools/createimage.cpp:92-98 | appends the zeros up to the next sector; true exactly when all were written |
| ImageWriter.BuildDirectory | tools/createimage.cpp:155-171 | the loop fills the sector with the entries of the first sixteen programs at consecutive places |
| ImageWriter.WriteImage | tools/createimage.cpp:151-203 | if writes are carried out, the file is the specified image, whatever the reads return and even if a source is short |
| LoadTheorems.ReadIntoHolds | kernel/loader.cpp:94-102 | a frame ends up with its page of the program, as far as the program goes |
| LoadTheorems.MapAccounts | kernel/loader.cpp:91-92 | a program page gets a table exactly when its place among the program's tables is below the number left |
| LoadTheorems.NewSpaceReady | kernel/kernel.cpp:67-121 | a new thread's address space needs a directory, a kernel stack and a frame; then the program's tables are counted from none |
| LoadTheorems.LoadPagesLoads | kernel/loader.cpp:80-103 | the page loop ends well if and only if there is a frame for every page, and then every page is in a frame of its own with its bytes |
| LoadIsolation.LoadKeepsApart | kernel/loader.cpp:30-108 | load_program, failing or not, keeps every frame mapped at no more than one place |
| LoadIsolation.LoadKeepsMemory | kernel/loader.cpp:30-108 | it changes no byte that a process which was there before can read |
| LoadIsolation.FailedLoadCleanIff | kernel/loader.cpp:65-78 | a load that fails changes nothing if and only if the name is not found or there is no thread number or no directory |
| LoadOutcome.LoadProgramIff | kernel/loader.cpp:30-108 | for any disk, load_program succeeds if and only if the name is found, the thread gets all it needs, there is a frame for the stack and each page, and every sector asked for can be read; the thread then begins at the entry point of the directory |
| LoadStack.StackReturns | kernel/kernel.cpp:87-121 | after every successful load the new thread reads, at its stack pointer and the word above, the address of call_exit, or nothing if no user table was left |
| LoadStack.StackWritable | kernel/kernel.cpp:87-95 | and may write there exactly then |
| LoadStack.ProgramWritable | kernel/loader.cpp:91-92 | a page of a loaded program is writable in ring 3 exactly if it got a table |
| RoundTrip.PageCountIff | kernel/loader.cpp:81-82 | the number of pages is right if and only if the rounded byte count fits 32 bits |
| RoundTrip.LoadIff | kernel/loader.cpp:30-108 | loading a program of a written image succeeds if and only if there is memory, a number, a kernel stack and a directory for the thread, and frames for stack and pages; it begins at the program's entry point |
| RoundTrip.LoadUnknown | kernel/loader.cpp:65-68 | a name that is not found changes nothing |
| RoundTrip.ReadLoaded | kernel/loader.cpp:80-103 | a byte of a loaded page is readable at its address exactly if a table was left for the page |
| RoundTrip.ImageRoundTrip | tools/createimage.cpp:151-203 | with distinct names, enough frames and tables, byte v of a program's file range is what the new process reads at 0x08048000 + v, for every v, with zeros up to the end of the last sector, and the process begins at the file's entry point |
| RoundTrip.EveryByte | kernel/loader.cpp:91-98 | and every byte of the range and its padding is reached so |
| Loader.Loader.FindEntry | kernel/loader.cpp:54-64 | the loop over the directory equals the specified scan |
| Loader.Loader.LookUp | kernel/loader.cpp:30-68 | name copy, boot sector, directory and scan give the specified entry |
| Loader.Loader.ReadSectors | kernel/loader.cpp:94-102 | the sector loop fills one frame as specified and no other |
| Loader.Loader.LoadPages | kernel/loader.cpp:80-103 | the page loop on frames and page tables equals the specification |
| Loader.Loader.NewSpace | kernel/kernel.cpp:67-121 | directory, stack frame and its two return addresses as specified, with each error path |
| Loader.Loader.LoadProgram | kernel/loader.cpp:30-108 | the whole call equals the specification the round trip is proved of |

## Left out

- ClusterPool.ClusterPool.Allocate: requires a free metadata node when the fitting cluster has to be split; the code does not look and would link a node that lies outside the pool.
- ClusterPool.ClusterPool.constructor: takes a region that starts above 0 and ends below 2^32, and node addresses are represented by the node's number, so `address_to_id` is not pointer arithmetic.
- The locks inside Pool and ClusterPool: every call is modelled as one step with the lock free.
- Scheduler.Kernel.Schedule: reaping is one step that ends the thread's existence; the `kfree` calls of `thread_reap` and their lock are not modelled.
- LockTheorems.LockSafety: only holders release or wait, and no thread exits holding the lock; the code does not check either.
- SemaphoreTheorems.SemaphoreConserves: slots and the barrier's counter are integers without 32-bit overflow.
- MailboxRing.Mbox.PutMessage: content sizes are not negative; a message larger than the ring waits forever, as in the code.
- MailboxSystem.NoLostWakeup: the copying between two lock operations is one step; only the holder touches the ring.
- PagingSpec: a present entry that leads to none of the static arrays would be a write to arbitrary memory; the model writes nothing there, and under the invariant it does not occur.
- PageTables.PageTables.IdentityMap: the end of the range is at most the 0x2000000 of the only call; a range up to the top of the address space need not end.
- PagingIsolation.Isolation: the callers' discipline (a frame is mapped once and not freed while mapped) is a condition on the run; LoadIsolation shows that loading obeys it. `thread_reap` returns neither directory nor frames, so no other caller exists outside tests.
- ImageWriter.WriteImage: after a write that is cut short nothing is promised of the image, since `main` goes on regardless; a negative size, which `fill_metadata` can only find when a segment's end wraps around 32 bits, is not taken.
- ImageWriter.FillMetadata: the tests for a null argument and a bad file descriptor are left out.
- LoadStack.StackReturns: entry point and stack pointer are values of the model; the kernel stack from which the trampoline takes them is not modelled.
- RoundTrip.ImageRoundTrip: the image has fewer than 2^32 sectors; disk reads fail only beyond the end of the disk. An offset is a machine word, its number that of its page times 4096 plus its place in the page.
- Loader.Loader.NewSpace: a thread block that could not be allocated is set up at address 0 by the code; the model has the effect on the page tables, not on that memory or the ready ring.
- Device drivers, interrupt controller, descriptor tables, fault stubs, register save and restore: a context switch is a change of the running thread.
- kernel/id.cpp and `r0_exit`: thread numbers are a parameter, exits go through `r3_exit`.
- boot/bootblock.s: the boot sector is 512 bytes of which three words are patched.
- Shell, formatted output, sleep, tests and string library: they would add easy members only.
