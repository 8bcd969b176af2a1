# A verified model of the teaching kernel's core

This project models the last chapter of the kernel, `c15_sys_interaction`, in Dafny and proves what its memory manager,
file system and thread synchronisation promise. Code that changes things in place is modelled by classes and loops,
each proved against a function or a predicate on states; the theorems are about those, over whole runs.
`dafny verify dfyconfig.toml` checks everything.

## The three parts

**Threads.** `Scheduler` and `TimeSlices` model the ready list, the time slices and the idle thread; `Locks` models
semaphores and re-entrant locks as atomic steps of any number of threads on any number of locks; `IoQueue` models the
blocking ring buffer; `Ide` models the disk driver's commands and its handshake with the interrupt. A region with
interrupts disabled is one step, and every other access to a shared field is a step of its own.

**Memory.** `Paging` has physical frames, page tables and bitmaps in one state, and the invariant that ties them
together; a page table is a frame like any other, as in section 4.3, "32-Bit Paging", of volume 3A of the Intel manual.
`PageAllocator` and `PageRequests` are malloc_page and mfree_page as functions of that state, `PageEffects` what they do
as the processor sees it, `MemoryManager` the routines as they run through the self-mapped directory, `MemoryInit` the
start, `Fork` the copy of an address space, `Heap` the arenas and free lists, and `KernelHeap` these on top of the page
allocator.

**Files.** `InodeTable` and `InodeCache` have the 76-byte inodes on disk and the list of open ones; `Volume` and
`Partitions` have blocks, bitmaps and their copies on disk, and who owns what; `FileData` reads a file as a byte
sequence, `Directory` and `Directories` a directory as a finite map; `FileTree` puts them together as a tree with an
invariant, `FileSystem` has the operations that change it, `Format` the state it starts from, `Paths` the walk along a
path and back, and `Syscalls` the calls from path to disk. `Shortfalls` has concrete calls that go wrong.

A failed ASSERT stops the kernel, so it is a state that must not be reached: functions return `Panic` for it, and
methods assert it. `Option` stands for null pointers and -1. One ASSERT is different: bitmap_scan fails it on every full
bitmap, before it can return -1 (lib/kernel/bitmap.c:29), so in a kernel built with ASSERTs the code behind that -1 is
never reached; with NDEBUG (kernel/debug.h) it is. The model has both: the field `stopped` is set exactly when this
ASSERT has failed, every method that scans says by which guard, and what follows is what the build without ASSERTs does.

## Where the code falls short of its documentation

The model follows the code; these are the places where it does less than it should, each with its exact condition.

- bitmap_scan looks one bit past the end for runs of two bits or more (`Bitmap.ScanPastEndIff`; a bitmap for which it
  does, `Bitmap.ScanPastEndWitness`; what it does to the kernel heap, `PageRequests.PastTheEndBreaksInv`).
- bitmap_scan stops the kernel on a full bitmap instead of returning -1 (`Bitmap.Scan`). So malloc_page stops it exactly
  when a pool or bitmap is full at one of its scans (`PageRequests.StopsKernelIff`, `PageRequests.StopsUserIff`),
  file_write when the blocks are fewer than it needs (`FileData.FileWrite`), and file_create and sys_mkdir for want of an
  inode or a block (`FileSystem.FileCreate`, `FileSystem.MakeDir`).
- In a kernel built without ASSERTs, a page table that finds no frame is put at physical address 0
  (`PageRequests.LostIff`, `PageAllocator.NullTableBreaksInv`), malloc_page does not undo what it has done
  (`PageAllocator.MapKernelEffect`), and a sys_mkdir that finds no block for its entry loses a block
  (`FileSystem.MakeDir`).
- The 16-bit page count wraps beyond 258 MB, although the comment speaks of 512 MB (`MemoryInit.PlanCoversIff`; with
  exactly 258 MB, `MemoryInit.PlanOfNothing`).
- Requests of 3840 pages or more fail an ASSERT instead of returning NULL (`Heap.MallocPanicsIff`; with 32 MB,
  `Shortfalls.MallocOn32Megabytes`).
- A second consumer of a ring buffer can sleep on data (`IoQueue.SleepsOnDataIff`; a run,
  `IoQueue.TwoConsumersSleepOnData`).
- inode_sync cuts the inode number to 8 bits (`InodeTable.SyncReachesItsSlotIff`).
- fd_pos after file_write points at the old last byte, or beyond every file if there was none
  (`FileData.ReadAfterWriteIff`; the ASSERT that then fails, `Shortfalls.ReadAfterFirstWrite`).
- sys_rmdir looks at the size only, so that a regular file of 48 bytes can be removed with it; and with a path that ends
  in "." it releases the inode but not the entry (`Syscalls.SysRmdir`; both happen on a fresh partition,
  `Shortfalls.RmdirOfAFile` and `Shortfalls.RmdirOfADot`).
- The format frees the bit of a block that the partition does not have (`Format.FormatBlockBitmap`), and it is handed
  out when all others are in use (`Format.MissingBlockTakenIff`); with fewer than 8 blocks it frees the root's too
  (`Format.RootIsFreeIff`).

## Model

| member | source | states |
|---|---|---|
| Bitmap.Scan | c15_sys_interaction/lib/kernel/bitmap.c:21-65 | bitmap_scan returns the first run of clear bits, or -1 when there is none; for runs longer than one it also counts the bit behind the bitmap; its ASSERT fails exactly on a full bitmap |
| Bitmap.GuardedScan | c15_sys_interaction/lib/kernel/bitmap.c:47-63 | the answer is the first fit inside the bitmap exactly when one bit is asked for, or a run fits inside, or the bit behind the bitmap is set, or the bits before it are not all clear |
| Bitmap.ScanPastEndIff | c15_sys_interaction/lib/kernel/bitmap.c:47-63 | exactly when the answer reaches one bit past the end of the bitmap |
| Bitmap.ScanPastEndWitness | c15_sys_interaction/lib/kernel/bitmap.c:47-63 | a bitmap in which that happens |
| Scheduler.ScheduleFindsAThread | c15_sys_interaction/thread/thread.c:142-172 | schedule always finds a next thread, because idle is blocked whenever nothing is ready, and ends with exactly one RUNNING thread and READY threads on the list once |
| Scheduler.UnblockKeepsInv | c15_sys_interaction/thread/thread.c:187-199 | thread_unblock of a stopped thread fails no ASSERT, keeps the agreement of status and list, and moves that thread alone |
| Scheduler.BlockKeepsInv | c15_sys_interaction/thread/thread.c:175-184 | thread_block keeps the agreement of status and list |
| Scheduler.YieldKeepsInv | c15_sys_interaction/thread/thread.c:202-210 | thread_yield likewise, with the ASSERT that the thread is on no list |
| Scheduler.TimerKeepsInv | c15_sys_interaction/device/timer.c:37-50 | the timer handler likewise, whether or not it calls schedule |
| Scheduler.YieldEffect | c15_sys_interaction/thread/thread.c:202-210 | thread_yield puts the running thread behind all who are ready and runs the first of them; no slice changes |
| Scheduler.BlockEffect | c15_sys_interaction/thread/thread.c:175-184 | thread_block stops the running thread and runs the first who is ready, or idle; no slice changes |
| Scheduler.TimerEffect | c15_sys_interaction/device/timer.c:37-50 | the timer takes one tick, or, with none left, puts the thread behind all who are ready with a full slice and runs the first of them |
| Scheduler.UnblockEffect | c15_sys_interaction/thread/thread.c:187-199 | a thread that is unblocked is the one to run when the running thread blocks next |
| Scheduler.StartEffect | c15_sys_interaction/thread/thread.c:109-126 | a new thread goes behind all who are ready, with a full slice |
| Scheduler.Kernel.RunNext | c15_sys_interaction/thread/thread.c:142-172 | schedule as it changes status, ticks and the ready list in place, equal to the step of the state machine |
| Scheduler.Kernel.Block | c15_sys_interaction/thread/thread.c:175-184 | thread_block in place, with the queue it leaves |
| Scheduler.Kernel.Unblock | c15_sys_interaction/thread/thread.c:187-199 | thread_unblock in place: to the front of the list |
| Scheduler.Kernel.Yield | c15_sys_interaction/thread/thread.c:202-210 | thread_yield in place: the running thread goes to the back of the list and the front one runs |
| Scheduler.Kernel.Start | c15_sys_interaction/thread/thread.c:109-126 | thread_start in place |
| Scheduler.Kernel.Timer | c15_sys_interaction/device/timer.c:37-50 | the timer handler in place, with the queue it leaves |
| TimeSlices.MoveShortensWait | c15_sys_interaction/thread/thread.c:142-210 | no tick, yield, block or start lengthens the wait of a ready thread, and a tick shortens it by exactly one |
| TimeSlices.DispatchedInTime | c15_sys_interaction/thread/thread.c:142-210 | a thread at ready position k is on the processor within (cur.ticks+1) plus the sum of (ticks+1) ahead of it timer interrupts, in every run without thread_unblock |
| TimeSlices.NotDispatchedEarlier | c15_sys_interaction/device/timer.c:37-50 | the bound is exact: with timer interrupts alone it is not dispatched by fewer |
| Locks.StepKeepsInv | c15_sys_interaction/thread/sync.c:21-81 | every enabled step of every thread, and a wakeup from an interrupt at any moment, succeeds from a state satisfying the invariant and restores it |
| Locks.AcquireEffect | c15_sys_interaction/thread/sync.c:21-69 | what each step of lock_acquire and sema_down does to the lock and the thread; a thread that finds the lock taken queues up behind the others |
| Locks.ReleaseEffect | c15_sys_interaction/thread/sync.c:42-81 | what each step of lock_release and sema_up does; only the outermost release frees the lock, and it wakes the first of the waiters |
| Locks.EventEffect | c15_sys_interaction/thread/sync.c:21-81 | calls start at their first step; the timer, a yield, a block, a wakeup and a new thread change the scheduler alone |
| Locks.AlwaysEnabled | c15_sys_interaction/thread/sync.c:21-81 | the interleavings leave nothing out: any client call, the next step of a call, the timer and a wakeup are possible at any moment |
| Locks.NeverPanics | c15_sys_interaction/thread/sync.c:21-81 | from start-up on no ASSERT of the lock, semaphore or scheduler code fails, in any interleaving of any threads and locks |
| Locks.MutualExclusion | c15_sys_interaction/thread/sync.c:21-81 | at most one thread is between the return of sema_down and the start of sema_up |
| Locks.HolderIsSelf | c15_sys_interaction/thread/sync.c:57-81 | a thread reads holder == self exactly when it holds the lock, and then the repeat count is the number of releases it still owes |
| Locks.TakenLockHasOwner | c15_sys_interaction/thread/sync.c:21-81 | a taken lock has a thread inside it |
| Locks.FreeLockIsRetried | c15_sys_interaction/thread/sync.c:21-54 | no lost wakeup: with value 1 and somebody waiting, the thread that sema_up last took off the waiters is runnable and about to retry |
| Locks.PoppedOffTheWaiters | c15_sys_interaction/thread/sync.c:42-54 | only sema_up changes which thread that is, and it takes exactly that one off the front of the waiters |
| Locks.OneListAtMost | c15_sys_interaction/thread/sync.c:21-54 | a general_tag is on at most one list |
| Locks.LockObject.SemaDown | c15_sys_interaction/thread/sync.c:21-39 | one pass of the loop of sema_down in place, equal to the step of the state machine |
| Locks.LockObject.SemaUp | c15_sys_interaction/thread/sync.c:42-54 | sema_up in place |
| Locks.LockObject.Advance | c15_sys_interaction/thread/sync.c:57-81 | the steps of lock_acquire and lock_release outside the semaphore, in place |
| IoQueue.RingBuffer.Get | c15_sys_interaction/device/ioqueue.c:45-65 | the oldest byte leaves the ring |
| IoQueue.RingBuffer.Put | c15_sys_interaction/device/ioqueue.c:68-85 | the byte becomes the newest in the ring |
| IoQueue.StepKeepsInv | c15_sys_interaction/device/ioqueue.c:14-85 | no step of any producer or consumer fails an ASSERT, and the invariant is kept |
| IoQueue.KeyEffect | c15_sys_interaction/device/keyboard.c:181 | a key goes to the end of the ring exactly when there is room, and wakes a sleeping consumer |
| IoQueue.PutEffect | c15_sys_interaction/device/ioqueue.c:68-85 | ioq_putchar puts its byte at the end and wakes a sleeping consumer, or goes to sleep or queues up on a full ring |
| IoQueue.GetEffect | c15_sys_interaction/device/ioqueue.c:45-65 | ioq_getchar takes the oldest byte and wakes a sleeping producer, or goes to sleep or queues up on an empty ring |
| IoQueue.WaitEffect | c15_sys_interaction/device/ioqueue.c:33-85 | a thread in ioq_wait leaves the ring alone and releases the lock when woken |
| IoQueue.NeverPanics | c15_sys_interaction/device/ioqueue.c:14-85 | so no reachable state can fail one |
| IoQueue.FirstInFirstOut | c15_sys_interaction/device/ioqueue.c:14-85 | over every interleaving, all bytes that events bring while there is room are those received and then those in the ring, in order; at most 63 are held |
| IoQueue.SleepsOnDataIff | c15_sys_interaction/device/ioqueue.c:45-57 | exactly one step can put a consumer to sleep on a non-empty ring: getting the lock after waiting for it, as ioq_getchar does not test the ring again |
| IoQueue.TwoConsumersSleepOnData | c15_sys_interaction/device/ioqueue.c:45-57 | a run with two consumers in which this happens and nobody is left to run |
| IoQueue.KeyboardSleeperMeansEmpty | c15_sys_interaction/device/keyboard.c:181 | with one consumer and a producer that puts only when the ring is not full, a sleeping consumer means an empty ring |
| IoQueue.KeyboardNeverSleepsOnData | c15_sys_interaction/device/keyboard.c:181 | so there is nothing in it that the consumer sleeps over |
| Ide.RegistersRoundTrip | c15_sys_interaction/device/ide.c:87-102 | what select_sector writes into each register, and that the drive reads back address, count (256 as 8-bit 0) and drive |
| Ide.CountSurvivesIff | c15_sys_interaction/device/ide.c:112-133 | the count survives the 8-bit register exactly for 1 to 256 |
| Ide.ChunksCoverOnce | c15_sys_interaction/device/ide.c:150-192 | every sector of a transfer lies in exactly one command; all commands but the last have 256 sectors, in order |
| Ide.Channel.Read | c15_sys_interaction/device/ide.c:150-192 | ide_read puts sector lba + i of either drive into buffer slot i for each i of the transfer and changes nothing else |
| Ide.Channel.Write | c15_sys_interaction/device/ide.c:195-234 | ide_write leaves buffer slot i in sector lba + i of the drive it is for, and the rest of both media as they were |
| Ide.HandshakeHolds | c15_sys_interaction/device/ide.c:150-234 | whatever threads and drive do, under the channel's lock, no ASSERT of the semaphore fails and disk_done.value plus expecting_intr is the number of commands outstanding, 0 or 1 |
| Ide.StepKeepsHandshake | c15_sys_interaction/device/ide.c:330-345 | every step of a driver thread or an interrupt, a stray one included, keeps the agreement of lock, semaphore and flag |
| Ide.StepEffect | c15_sys_interaction/device/ide.c:150-345 | what each step of a call and each interrupt does to lock, semaphore, flag and thread |
| Ide.CountsCommands | c15_sys_interaction/device/ide.c:105-109 | that agreement says how many commands are outstanding, and that there is at most one |
| Ide.QuietStart | c15_sys_interaction/device/ide.c:348-403 | it holds when nobody is in the driver |
| Paging.PointerParts | c15_sys_interaction/kernel/memory.c:96-112 | pte_ptr and pde_ptr taken apart into page number and word |
| Paging.EntryBits | c15_sys_interaction/kernel/memory.c:127-160 | an entry has the frame and the bits present, writable and user, and removing it clears the first of these alone |
| Paging.SelfMap | c15_sys_interaction/kernel/memory.c:96-112 | under a self-mapped directory these addresses translate, by the two-level walk, to the entries of vaddr |
| Paging.UnmapKernelKeepsInv | c15_sys_interaction/kernel/memory.c:387-437 | freeing a kernel page keeps page tables, pools and bitmaps in agreement |
| PageAllocator.KernelWalk | c15_sys_interaction/kernel/memory.c:127-160 | under every directory a kernel page leads to the frame that is recorded for it, and to no other |
| PageAllocator.OneFramePerUse | c15_sys_interaction/kernel/memory.c:115-160 | two frames never have the same use |
| PageAllocator.NullTableBreaksInv | c15_sys_interaction/kernel/memory.c:144-157 | in a kernel built without ASSERTs: when the unchecked palloc of a page table fails, page_table_add installs a table at physical address 0, and the state it leaves does not satisfy the invariant |
| PageAllocator.MapKernelEffect | c15_sys_interaction/kernel/memory.c:163-191 | malloc_page for the kernel maps all pages or, in a kernel built without ASSERTs and without rollback, as many as there are frames for |
| PageAllocator.MapUserEffect | c15_sys_interaction/kernel/memory.c:163-191 | the same for a process, and exactly when a page table finds no frame there: the pages need more new tables than the kernel pool has frames |
| PageAllocator.UnmapKernelEffect | c15_sys_interaction/kernel/memory.c:387-437 | mfree_page releases exactly the frames mapped at its pages |
| PageRequests.LostIff | c15_sys_interaction/kernel/memory.c:144-191 | malloc_page loses a page table, in a kernel built without ASSERTs, exactly when the pages that get frames need more tables than there are kernel frames |
| PageRequests.StopsKernelIff | c15_sys_interaction/kernel/memory.c:163-191 | malloc_page(PF_KERNEL) succeeds exactly when a run fits and no scan meets a full pool: it then needs no more frames than there are |
| PageRequests.StopsUserIff | c15_sys_interaction/kernel/memory.c:163-191 | the same for a process, with the page tables it needs; whenever a table would be lost, a kernel built with ASSERTs has stopped |
| PageRequests.PastTheEndBreaksInv | c15_sys_interaction/kernel/memory.c:65-93 | a scan that leaves the kernel bitmap reserves the page behind the heap, and no state that maps that page satisfies the invariant |
| PageRequests.BelowTheStack | c15_sys_interaction/kernel/memory.c:78-91 | the ASSERT of vaddr_get on the stack page holds |
| PageRequests.MfreeUndoesMallocKernel | c15_sys_interaction/kernel/memory.c:163-191 | mfree_page right after malloc_page restores every bitmap and the use of every frame |
| PageRequests.MfreeUndoesMallocUser | c15_sys_interaction/kernel/memory.c:163-191 | the same for a process; only page tables that were made stay |
| PageRequests.KernelPoolBalances | c15_sys_interaction/kernel/memory.c:115-191 | set bits of the kernel pool are exactly mapped kernel pages plus page tables, as the processor finds them |
| PageRequests.UserPoolBalances | c15_sys_interaction/kernel/memory.c:115-191 | set bits of the user pool are exactly the mapped pages of all processes |
| PageRequests.UserMappingsAreApart | c15_sys_interaction/kernel/memory.c:127-191 | two mapped user pages never share a frame, and frame and page have their bits set |
| PageRequests.KernelMappingsAreApart | c15_sys_interaction/kernel/memory.c:127-191 | the same for kernel pages |
| PageEffects.MallocKernelMaps | c15_sys_interaction/kernel/memory.c:163-191 | malloc_page(PF_KERNEL) maps n unmapped pages to frames that were free, and no other page of the kernel heap changes, under any directory |
| PageEffects.MallocKernelBits | c15_sys_interaction/kernel/memory.c:65-93 | they are the first n in a row with clear bits, and exactly these bits are set |
| PageEffects.MallocUserMaps | c15_sys_interaction/kernel/memory.c:163-191 | the same for a process, and no page of another process changes |
| PageEffects.MallocUserBits | c15_sys_interaction/kernel/memory.c:65-93 | the same for the bitmap of a process, and no other bitmap changes |
| PageEffects.GetPageMaps | c15_sys_interaction/kernel/memory.c:217-247 | get_a_page maps that page to a frame that was free, exactly when there is one, and no other page of any process changes |
| PageEffects.MfreeKernelUnmaps | c15_sys_interaction/kernel/memory.c:387-437 | mfree_page(PF_KERNEL) unmaps exactly the n pages |
| PageEffects.MfreeKernelBits | c15_sys_interaction/kernel/memory.c:338-437 | it clears exactly their bits and those of the frames they were mapped to |
| PageEffects.MfreeUserUnmaps | c15_sys_interaction/kernel/memory.c:387-437 | mfree_page(PF_USER) unmaps exactly the n pages of that process and clears exactly their bits |
| PageEffects.MallocKeepsData | c15_sys_interaction/kernel/memory.c:163-191 | no page in use changes its contents |
| PageEffects.MfreeKeepsData | c15_sys_interaction/kernel/memory.c:387-437 | no page that stays in use changes its contents |
| PageRequests.RunsAreSafe | c15_sys_interaction/kernel/memory.c:163-247 | after any run of allocations that scan within their bitmaps, frees, single pages and new directories, failing ones included, all of the above holds |
| MemoryInit.PlanFits | c15_sys_interaction/kernel/memory.c:271-335 | the two pools are halves of the free memory, their bitmaps have all their whole bytes, and all fits in memory, whatever its size |
| MemoryInit.PlanCoversIff | c15_sys_interaction/kernel/memory.c:277-283 | the pools cover all free memory exactly up to 258 MB; the 16-bit page count wraps beyond |
| MemoryInit.PlanOfNothing | c15_sys_interaction/kernel/memory.c:277-283 | with exactly 258 MB there is nothing to hand out |
| MemoryInit.InitKeepsInv | c15_sys_interaction/kernel/memory.c:271-335 | after mem_pool_init all frames and all pages of the kernel heap are free, and the invariant holds |
| MemoryInit.LifeIsSafe | c15_sys_interaction/kernel/memory.c:271-335 | from mem_pool_init on, after any run of requests, the invariant holds |
| MemoryManager.Memory.PageTableAdd | c15_sys_interaction/kernel/memory.c:127-160 | page_table_add through the self-mapped entries, with its ASSERTs, for every page; without a frame for the table it stores physical address 0, exactly when the kernel pool is full |
| MemoryManager.Memory.VaddrGetUser | c15_sys_interaction/kernel/memory.c:65-93 | vaddr_get reserves the first fit below the stack page |
| MemoryManager.Memory.VaddrGetKernel | c15_sys_interaction/kernel/memory.c:65-93 | vaddr_get in the kernel heap, whenever the scan stays inside the bitmap |
| MemoryManager.Memory.MallocKernelPages | c15_sys_interaction/kernel/memory.c:163-191 | malloc_page(PF_KERNEL) as a loop, equal to the specification; exactly when a scan has met a full bitmap |
| MemoryManager.Memory.MallocUserPages | c15_sys_interaction/kernel/memory.c:163-191 | malloc_page(PF_USER) as a loop, equal to the specification; exactly when a page table is lost, and when a scan has met a full bitmap |
| MemoryManager.Memory.Pfree | c15_sys_interaction/kernel/memory.c:338-349 | pfree finds the pool by the address and clears that frame's bit |
| MemoryManager.Memory.PteRemove | c15_sys_interaction/kernel/memory.c:352-356 | page_table_pte_remove clears the present bit of that entry only |
| MemoryManager.Memory.MfreeKernelPages | c15_sys_interaction/kernel/memory.c:387-437 | mfree_page(PF_KERNEL) as a loop, with its ASSERTs, equal to the specification |
| MemoryManager.Memory.MfreeUserPages | c15_sys_interaction/kernel/memory.c:387-437 | mfree_page(PF_USER) as a loop, equal to the specification |
| MemoryManager.Memory.GetAPage | c15_sys_interaction/kernel/memory.c:217-247 | get_a_page sets the page's bit and maps it, or fails with the bit set |
| MemoryManager.Memory.Activate | c15_sys_interaction/userprog/process.c:33-48 | page_dir_activate loads the frame of the page that the process keeps its directory in, found under whatever directory is active, or the kernel's own |
| MemoryManager.Memory.FillPageDir | c15_sys_interaction/userprog/process.c:65-85 | create_page_dir: the kernel half is shared, the last entry maps the directory itself, no user page is mapped, and no other frame changes |
| Fork.CopyBodyStack3 | c15_sys_interaction/userprog/fork.c:39-77 | the loops of copy_body_stack3 with their directory switches end with every set page copied and the parent's directory active |
| Fork.CopyOnePage | c15_sys_interaction/userprog/fork.c:52-71 | one page: into the buffer, new frame in the child, out of the buffer |
| Fork.GetAPageWithoutOpVaddrBitmap | c15_sys_interaction/kernel/memory.c:257-268 | a frame is mapped at the page and the bitmap is left alone |
| Fork.ForkedPage | c15_sys_interaction/userprog/fork.c:39-77 | the child maps exactly the parent's pages, on frames of its own with equal contents; the parent's mapping and contents are unchanged |
| Heap.BlockInArena | c15_sys_interaction/kernel/memory.c:377-384 | arena2block and block2arena undo each other, blocks lie in their page and do not overlap |
| Heap.LiveApart | c15_sys_interaction/kernel/memory.c:484-578 | live allocations do not overlap |
| Heap.MallocAnswers | c15_sys_interaction/kernel/memory.c:484-578 | sys_malloc returns a pointer nobody holds, or changes nothing; exactly when it returns NULL |
| Heap.SizeTable | c15_sys_interaction/kernel/memory.c:47-61 | the block sizes of the seven classes and how many blocks an arena has |
| Heap.MallocSmallBlock | c15_sys_interaction/kernel/memory.c:532-576 | a small request gets the first block on the free list of the smallest class that fits, or the first of a new arena, whose others go on the list in order |
| Heap.MallocLargeBlock | c15_sys_interaction/kernel/memory.c:513-530 | a large request gets the bytes behind the header of as many pages as it takes, and no more |
| Heap.MallocPanicsIff | c15_sys_interaction/kernel/memory.c:513-518 | exactly which requests fail ASSERT(pg_cnt < 3840) below sys_malloc |
| Heap.FreeAnswers | c15_sys_interaction/kernel/memory.c:440-481 | sys_free ends that allocation alone, and gives back exactly the arena that became idle |
| Heap.FreeBlock | c15_sys_interaction/kernel/memory.c:465-476 | the freed block goes to the end of its free list, or the idle arena's blocks leave the list; no other list changes |
| Heap.ReleasedIff | c15_sys_interaction/kernel/memory.c:465-476 | an arena goes back exactly with its last live block |
| Heap.IdleArena | c15_sys_interaction/kernel/memory.c:465-476 | when cnt reaches blocks_per_arena all blocks are on the free list, so the ASSERTs of the removal loop hold |
| Heap.FreeUndoesMalloc | c15_sys_interaction/kernel/memory.c:440-578 | sys_free right after sys_malloc restores the arenas and, up to order, the free lists |
| Heap.HeapRunsAreSafe | c15_sys_interaction/kernel/memory.c:377-578 | after any run in which each live pointer is freed once: live allocations are disjoint, large enough and within their arenas, each free block sits once in a live arena of its class, and cnt counts an arena's free blocks and is below the total |
| KernelHeap.ThreadHeap.MallocLarge | c15_sys_interaction/kernel/memory.c:513-530 | the branch for more than 1024 bytes, over malloc_page, whenever the scan stays inside the bitmap |
| KernelHeap.ThreadHeap.MallocSmall | c15_sys_interaction/kernel/memory.c:532-576 | the branch for the seven classes: a new arena when the list is empty, then list_pop |
| KernelHeap.ThreadHeap.SysFree | c15_sys_interaction/kernel/memory.c:440-481 | sys_free over mfree_page, with every ASSERT |
| InodeTable.SyncThenOpen | c15_sys_interaction/fs/inode.c:44-75 | for numbers below 256 an uncached inode_open reads back the number, size and blocks that inode_sync wrote, with count and write_deny 0, and every other inode reads as before |
| InodeTable.SyncReachesItsSlotIff | c15_sys_interaction/fs/inode.c:44-47 | exactly which inodes survive inode_sync: numbers below 256, because the number goes through a uint8_t |
| InodeTable.StoredSlot | c15_sys_interaction/fs/inode.c:44-75 | writing a slot leaves the other 4095 alone, also across a sector boundary |
| InodeTable.InodeLayout | c15_sys_interaction/fs/inode.c:22-41 | inode i has bytes 76 i to 76 i + 75 of the table, and where in them its members lie |
| InodeTable.InodeSync | c15_sys_interaction/fs/inode.c:44-75 | inode_sync, with one or two sectors read and written back: the slot then has the number, size and blocks of the inode, and the other 4095 slots their bytes |
| InodeTable.InodeDelete | c15_sys_interaction/fs/inode.c:149-166 | inode_delete clears that slot only |
| InodeTable.ReadInode | c15_sys_interaction/fs/inode.c:91-119 | the disk half of inode_open |
| InodeCache.OpenKeepsCounts | c15_sys_interaction/fs/inode.c:78-127 | inode_open keeps one object per number, counting its handles |
| InodeCache.CloseKeepsCounts | c15_sys_interaction/fs/inode.c:130-145 | inode_close likewise; the object is freed exactly when its last handle goes |
| InodeCache.RunsKeepTheCache | c15_sys_interaction/fs/inode.c:44-145 | after any run of opens, closes, creations, changes, syncs and deletions each open number is on the list once, with the count of its users, and number, size and blocks agree with the disk but for inodes changed since |
| InodeCache.EventCounts | c15_sys_interaction/fs/inode.c:44-166 | what each event does to the users, and to what is known to be on the disk |
| InodeCache.EventObject | c15_sys_interaction/fs/inode.c:44-166 | what each event does to the object it is about |
| InodeCache.OthersStay | c15_sys_interaction/fs/inode.c:44-166 | and to no other, in memory or on the disk |
| InodeCache.ReopenedIsSame | c15_sys_interaction/fs/inode.c:78-145 | a clean inode whose last user closes it reads back with the same number, size and blocks |
| InodeCache.OpenInodes.InodeOpen | c15_sys_interaction/fs/inode.c:78-127 | inode_open on the list in place |
| InodeCache.OpenInodes.InodeClose | c15_sys_interaction/fs/inode.c:130-145 | inode_close on the list in place |
| InodeCache.OpenInodes.InodePush | c15_sys_interaction/fs/file.c:160-165 | the end of file_create: the new inode goes to its slot and onto the list |
| Volume.BlocksAreApart | c15_sys_interaction/fs/inode.c:169-234 | no block belongs to two inodes or twice to one, and its bit is set |
| Volume.TakeKeepsInv | c15_sys_interaction/fs/file.c:66-95 | taking a block for an inode keeps ownership and bitmap in agreement, on the disk too |
| Volume.GiveKeepsInv | c15_sys_interaction/fs/inode.c:208-220 | giving a block back likewise |
| Volume.AbandonKeepsInv | c15_sys_interaction/fs/file.c:172-187 | the rollback of a creation keeps them in agreement |
| Volume.DropNodeKeepsInv | c15_sys_interaction/fs/inode.c:192-234 | the end of inode_release likewise |
| Partitions.Partition.BlockAllocFor | c15_sys_interaction/fs/file.c:66-95 | block_bitmap_alloc takes the first free block, and bitmap_sync writes it through; exactly on a full bitmap its scan stops |
| Partitions.Partition.WriteBlock | c15_sys_interaction/fs/dir.c:170-176 | a block write changes that block of that inode and no other block of any inode |
| Partitions.Partition.InodeAlloc | c15_sys_interaction/fs/file.c:56-63 | inode_bitmap_alloc takes the first free number; exactly on a full bitmap its scan stops |
| FileData.FileWrite | c15_sys_interaction/fs/file.c:230-434 | file_write appends exactly the buffer to the file and nothing else changes on the volume, exactly when there are as many free blocks as it needs; otherwise its scan stops |
| FileData.FileRead | c15_sys_interaction/fs/file.c:438-531 | file_read returns exactly the next min(count, remaining) bytes, or -1 exactly at the end of the file, and moves fd_pos by as many; after the first write to an empty file its ASSERT fails |
| FileData.ByteOfFile | c15_sys_interaction/fs/file.c:438-531 | byte x of a file is byte x mod 512 of the block that i_sectors[x / 512] names |
| FileData.WriteThenRead | c15_sys_interaction/fs/file.c:230-531 | what was written is read back |
| FileData.ReadAfterWriteIff | c15_sys_interaction/fs/file.c:388-434 | fd_pos after a write points at the old last byte; a read without a seek is defined exactly when the file was not empty |
| FileData.SameNodeSameFile | c15_sys_interaction/fs/file.c:230-531 | a file depends on its inode and its own blocks only |
| Directory.RoundTrip | c15_sys_interaction/fs/dir.c:107-114 | an entry of 24 bytes decodes to what was encoded |
| Directory.EntryLayout | c15_sys_interaction/fs/dir.c:32-91 | where the members of an entry lie in its block |
| Directories.EntriesAre | c15_sys_interaction/fs/dir.c:32-91 | the entries of a directory are those in its direct blocks whose type is not 0 |
| Directories.SearchDirEntry | c15_sys_interaction/fs/dir.c:32-91 | search_dir_entry is the lookup of a finite map |
| Directories.SyncDirEntry | c15_sys_interaction/fs/dir.c:117-218 | sync_dir_entry adds exactly the entry and changes nothing else; it fails exactly when it needs a block and none is free, and then changes nothing |
| Directories.DeleteDirEntry | c15_sys_interaction/fs/dir.c:222-331 | delete_dir_entry removes exactly the entry of the inode and gives back a block that became empty; it fails exactly when there is none |
| Directories.InsertedIsFound | c15_sys_interaction/fs/dir.c:117-218 | after an insertion the name is found, and every other name as before |
| Directories.DeletedIsGone | c15_sys_interaction/fs/dir.c:222-331 | after a deletion the name is not found, and every other name as before |
| Directories.EmptyIff | c15_sys_interaction/fs/dir.c:385-389 | i_size says that only "." and ".." are left exactly when that is so |
| Directories.DirIsEmpty | c15_sys_interaction/fs/dir.c:385-389 | dir_is_empty |
| Directories.DirRead | c15_sys_interaction/fs/dir.c:334-382 | dir_read returns the live entry at dir_pos, or NULL at the end; its loop stays within the direct blocks |
| Directories.ReadAll | c15_sys_interaction/fs/dir.c:334-382 | repeated dir_read returns every live entry once, in block and slot order |
| FileTree.NoBlockTwice | c15_sys_interaction/fs/inode.c:169-234 | in the whole tree no block has two owners, and every owned block is marked in memory and on the disk |
| FileTree.NamedOnce | c15_sys_interaction/fs/dir.c:117-331 | every inode but the root has exactly one entry in the tree |
| FileTree.CreatesKeepsInv | c15_sys_interaction/fs/file.c:99-187 | a creation keeps the tree: one parent, one name, ".." right, sizes and blocks right |
| FileTree.RemovesKeepsInv | c15_sys_interaction/fs/dir.c:392-412 | so does a removal of a file or an empty directory |
| FileTree.WritesKeepsInv | c15_sys_interaction/fs/file.c:230-434 | so does a write |
| FileTree.LeaksKeepsInv | c15_sys_interaction/fs/fs.c:592-613 | so does, in a kernel built without ASSERTs, a failed sys_mkdir, which loses a block |
| FileTree.RunsKeepTheTree | c15_sys_interaction/fs/fs.c:449-689 | after any sequence of create, write, mkdir, unlink and rmdir, failing ones included, no block is owned twice, memory and disk agree, and every inode hangs below a directory, one level down |
| FileTree.RunStaysLost | c15_sys_interaction/fs/fs.c:449-689 | no run of calls gives back a bit that is set for no inode |
| FileSystem.FileCreate | c15_sys_interaction/fs/file.c:99-187 | file_create adds an empty file under the name exactly when there are an inode, a slot, and a block if the directory needs one; otherwise it fails without a trace on memory or disk |
| FileSystem.MakeDir | c15_sys_interaction/fs/fs.c:502-613 | sys_mkdir adds an empty directory exactly when there are an inode, a block, and another if the parent needs one; otherwise its scan stops, and in a kernel built without ASSERTs it loses a block exactly when there was one and not two |
| FileSystem.Append | c15_sys_interaction/fs/file.c:230-434 | file_write within the tree, exactly when there are as many free blocks as it needs |
| FileSystem.InodeRelease | c15_sys_interaction/fs/inode.c:169-234 | inode_release clears exactly the blocks of the inode and its inode bit, in memory and on the disk; its ASSERT holds |
| FileSystem.Unlink | c15_sys_interaction/fs/fs.c:449-498 | sys_unlink removes the entry and releases the inode, unless some slot of the file table has it open |
| FileSystem.RemoveDir | c15_sys_interaction/fs/fs.c:665-689 | sys_rmdir succeeds exactly for an inode of 48 bytes, and keeps the tree unless it removes "." |
| FileSystem.Dangles | c15_sys_interaction/fs/dir.c:392-412 | removing a directory by its own "." leaves an entry without an inode |
| Format.FormatBlockBitmap | c15_sys_interaction/fs/fs.c:125-143 | the bits the format sets: the root's, and those past the block behind the last |
| Format.MissingBlockTakenIff | c15_sys_interaction/fs/fs.c:125-143 | exactly when block_bitmap_alloc hands out the block behind the last: all before it are taken |
| Format.RootIsFreeIff | c15_sys_interaction/fs/fs.c:125-143 | the root's own bit is cleared again exactly with fewer than 8 blocks |
| Format.FormattedIsTree | c15_sys_interaction/fs/fs.c:125-188 | a formatted partition of 8 blocks or more satisfies the invariant of the tree |
| Format.FormattedIs | c15_sys_interaction/fs/fs.c:125-188 | its bitmaps and its one inode, bit by bit |
| Format.FromFormatOn | c15_sys_interaction/fs/fs.c:449-689 | so does every state reached from it while nobody has been given the block behind the last, and then all blocks in use are in the partition |
| Paths.PathParse | c15_sys_interaction/fs/fs.c:190-205 | path_parse returns the first component and the rest, null at the end |
| Paths.PathDepth | c15_sys_interaction/fs/fs.c:208-224 | path_depth_cnt counts the components |
| Paths.SearchFile | c15_sys_interaction/fs/fs.c:227-292 | search_file walks the tree by the components, and reports parent, type and searched path; a path such as "//" ends with an undefined number |
| Paths.WalkStops | c15_sys_interaction/fs/fs.c:227-292 | a search ends at the first file or missing name, whatever names follow |
| Paths.WalkOne | c15_sys_interaction/fs/fs.c:227-292 | what one name leads to |
| Paths.WalkInTree | c15_sys_interaction/fs/fs.c:227-292 | what a walk finds is in the tree, of the reported type, in the reported parent |
| Paths.GetParent | c15_sys_interaction/fs/fs.c:691-702 | get_parent_dir_inode_nr is the parent in the tree, within its ASSERTs |
| Paths.GetChildName | c15_sys_interaction/fs/fs.c:706-747 | get_child_dir_name is the first entry with the number |
| Paths.ChildName | c15_sys_interaction/fs/fs.c:706-747 | that entry is the child's: no dot and no dead entry has its number |
| Paths.CwdIsShort | c15_sys_interaction/fs/fs.c:227-292 | the path of a directory is no longer than any path by which one can go there |
| Paths.CwdStays | c15_sys_interaction/fs/fs.c:750-815 | and it does not change while the directory stays |
| Paths.RootIsCwd | c15_sys_interaction/thread/thread.c:99 | the root, where every task starts, has a path that fits the buffer |
| Paths.SysGetcwd | c15_sys_interaction/fs/fs.c:750-797 | sys_getcwd climbs to the root and reverses the names, whenever the caller's buffer holds the path |
| Paths.CwdResolves | c15_sys_interaction/fs/fs.c:750-797 | search_file resolves the path of sys_getcwd to the same directory |
| Paths.ChdirThenGetcwd | c15_sys_interaction/fs/fs.c:750-815 | for every path that leads to a directory, sys_getcwd afterwards returns a path that fits its buffer, that search_file accepts, and that leads to it |
| Paths.GetcwdAfterChanges | c15_sys_interaction/fs/fs.c:750-815 | also after any run of calls that leaves the directory in place |
| Paths.SysChdir | c15_sys_interaction/fs/fs.c:800-815 | sys_chdir succeeds exactly for a directory |
| Syscalls.CreatedIsFound | c15_sys_interaction/fs/fs.c:502-613 | after a creation the path that missed its last name leads to the new inode |
| Syscalls.RemovedIsMissing | c15_sys_interaction/fs/fs.c:449-498 | after a removal every path that led to the inode misses, even one that passed through it |
| Syscalls.SysMkdir | c15_sys_interaction/fs/fs.c:502-613 | sys_mkdir by path: it succeeds exactly when all names but the last lead to a directory, the last is missing, and there are an inode and blocks |
| Syscalls.OpenCreate | c15_sys_interaction/fs/fs.c:295-358 | sys_open with O_CREAT by path: likewise, for paths that do not end in a slash |
| Syscalls.SysUnlink | c15_sys_interaction/fs/fs.c:449-498 | sys_unlink by path: succeeds exactly for a regular file that no slot of the file table has open, and the path then leads nowhere |
| Syscalls.SysRmdir | c15_sys_interaction/fs/fs.c:665-689 | sys_rmdir by path: succeeds exactly for an inode of 48 bytes; the tree is kept unless the path ends in "." |
| Syscalls.SelfIffDot | c15_sys_interaction/fs/fs.c:227-292 | a path leads from a directory to itself exactly when it ends in "." |
| Shortfalls.RmdirOfAFile | c15_sys_interaction/fs/fs.c:665-689 | on a fresh partition: "/a" is created, 48 bytes are written, and sys_rmdir removes it |
| Shortfalls.RmdirOfADot | c15_sys_interaction/fs/fs.c:665-689 | on a fresh partition: sys_mkdir of "/a" and sys_rmdir of "/a/." leave a state without the invariant |
| Shortfalls.ReadAfterFirstWrite | c15_sys_interaction/fs/file.c:388-531 | on a fresh partition: a file is created and written, and reading it without a seek fails the ASSERT |
| Shortfalls.MallocOn32Megabytes | c15_sys_interaction/kernel/memory.c:271-530 | a request that sys_malloc lets through and malloc_page does not, with 32 MB and an empty heap |

## Left out

- Indirect blocks of files and directories: file_write does not record their addresses, and sync_dir_entry never reads
  an existing table (fs/dir.c:136-142); files stay below 6144 bytes and directories within twelve blocks with room.
- FileData.FileWrite: when the blocks do not suffice, a kernel built without ASSERTs leaves those already taken with the
  inode; the contract says that no other inode has changed, and the runs of `FileTree` do not go on from there.
- FileData.FileRead: for the positions that seeks, reads and writes leave, and counts that do not wrap with them.
- FileSystem.FileCreate: requires a free inode number below 256, because inode_sync cannot reach the others.
- Syscalls.OpenCreate: does not model the descriptor number, nor pcb_fd_install, which can still return -1 after the file
  has been created.
- Syscalls.SysUnlink: does not model the test that no name follows the file in the path, because the code has none.
- FileSystem.InodeRelease: sets i_sectors of the released inode to 0, which the code does not; the object is gone after.
- The NULL branches of sys_malloc inside the file system, and the panics of the mount.
- Locks on files: write_deny is cleared by readers too; descriptors that parent and child share after a fork.
- Handles on an inode while it is removed: the file table says which files are open, but the list of `InodeCache` is not a
  part of the state of `FileTree`; a removed inode has no handle.
- Pid uniqueness: allocate_pid reads next_pid after the unlock.
- Paging: does not model the release of page tables and directories, because the kernel never releases them.
- MemoryManager.Memory.GetAPage: the branch for user pages only, and it does not model the pool's lock, which stays
  taken when palloc fails (kernel/memory.c:241-243).
- Fork.CopyBodyStack3: the process control block, the kernel stack and the inode counts of the child are not part of this
  model; the child starts with the parent's bitmap and no pages.
- KernelHeap.ThreadHeap.SysFree: for kernel threads only; module `Heap` covers the heap of any one task.
- MemoryManager.Memory.MallocUserPages: once a page table is lost to physical address 0, in a kernel built without
  ASSERTs, the rest of the run is not followed.
- MemoryManager.Memory.VaddrGetKernel: a scan that leaves the bitmap writes the bit behind it; what memory is there is not
  part of this model, so the methods require the scan to stay inside, by the guard of `Bitmap.GuardedScan`.
- Elapsed ticks, TASK_DIED, and busy_wait and errors of the drive.
- Assembly, switch_to, the TSS, TLB flushes, the console, keyboard tables, printing, partition_scan and identify_disk.
- Paths.SysGetcwd: requires the path to fit the caller's buffer, which the code checks only after the loop, and one byte
  late; that it fits the code's own buffer is proved.
- Paths.SearchFile: names of at most 15 bytes and paths that start with a slash; path_parse copies longer names past the
  end of a 16-byte buffer. The same holds for Paths.SysChdir and the calls in `Syscalls`.
- Syscalls.SysRmdir: for paths that do not lead to the root, as its ASSERT demands; Syscalls.SysUnlink likewise.
- Format.FormatBlockBitmap: requires the format's buffer to reach to the end of the sector that bit `cnt` lies in. It does,
  as it is at least 608 sectors, unless `cnt` is a multiple of 4096 and the bitmap fills the whole buffer.
- Format.FromFormatOn: the runs end where block `cnt` is handed out, because what lies behind the partition is not part of
  this model.
- The earlier chapters' copies of the same files.
