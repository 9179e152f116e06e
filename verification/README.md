# RecoverOS in Dafny

A model of the small AMD64 teaching kernel RecoverOS, with proofs about four of its parts.

**File system** (`FsBytes`, `FsDisk`, `FsState`, `FsSteps`, `FsContent`, `FsOpen`, `FsResize`, `FsWrite`, `FsBitmaps`,
`FileStore`, `FsRuns`, `FsVolume`, `Dirents`, `DirVolume`, `Namespace`, `NamespaceOps`, `NamespaceRuns`, `RootVolume`,
`FileSystem`, `PathHang`, `PathLookup`, `NameOutcomes`, `OpenFiles`, `Descriptors`, `StaleInode`). A disk is a sequence of
4096-byte blocks. The class `FileStore.Store` runs the loops of `fs/inode.c` on it, with the list of open inodes as a
field. Its invariant gives every data block at most one owner. `FsVolume.Vol` is what clients may think instead: a byte
string for each inode number, marks, a count of free blocks and open counts. The class `FileSystem.Files` proves that the
inode operations refine it, and builds `fs/dir.c` and `fs/file.c` on top, each system call refining a function of the
volume and taking the inode locks it takes in the code. `FsRuns` says over whole runs when blocks are lost, and when open
objects and the disk part. `Namespace` states that the names form a tree, `NamespaceOps` when each system call keeps it,
and `NamespaceRuns` when a run from formatting does. `PathLookup` says what a path leads to, and `NameOutcomes`, by that,
every answer of the calls on names and what they do.

**Tasks** (`TaskState`, `TaskInvariant`, `TaskDispatch`, `TaskSteps`, `ProcessSteps`, `TaskRuns`, `TaskAsserts`,
`TaskLocks`, `Scheduling`, `TaskTheorems`, `TaskInit`, `OrphanRun`, `TaskKernel`, `Ring`). Interrupts are taken to be off
inside an operation, so a run is a sequence of atomic steps, each up to the next switch. `TaskState` gives the steps as
functions of the state, `TaskKernel.Machine` the code that performs them on fields, with the pid map as a bit map,
`TaskRuns` the runs, `Scheduling` the order in which tasks run and semaphores wake. The ring buffer of `device/ioqueue.c`
and the pipe on it are a class.

**Kernel memory** (`Sequences`, `Division`, `Bitmap`, `IntrusiveList`, `PagePool`, `SlabState`, `SlabSteps`, `Slab`).
First-fit search in a bit map, doubly linked lists with sentinels on a shared heap, the page pool, and the slab allocator.

**Page tables** (`PageTree`, `Paging`). Physical memory as an array of words, the four-level walk as a partial map from
virtual pages to frames, and `page_map` as insertion into it (section 5.3 of the AMD64 Architecture Programmer's Manual,
Volume 2).

Some of what one would expect of the code is false. Each such case has a lemma or method with an input, or one about
every input, and one that says exactly when the property holds:

- a multi-page request can be given a run that ends past the bit map (`AllocCanLeaveTheMap`; `FitStaysInMap`,
  `AllocPages`);
- init can sleep over a zombie handed to it (`InitCanMissAZombie`; `InitMissesExactly`);
- a pipe write blocks although it sizes itself by the room left, because one cell is never used (`FullPipeBlocks`;
  `PipeWrite`);
- mapping a page that is mapped already takes a frame and links it nowhere (`MapTwice`; `PageMap`);
- a bit map of several blocks is formatted wrongly (`BigPartition`; `FormatsRightExactly`);
- an inode number reused while an unlinked file is open and has been written to leaves cache and disk apart
  (`ReuseWhileOpen`; `CreateKeepsAgreementExactly`, `RunAgreesExactly`);
- a grow by several blocks that fails keeps the blocks it took (`GrowByTwo`; `ResizedLeaks`, `RunLeaksExactly`);
- the last close of an unlinked file that was written to loses its blocks, with no grow failing (`CloseLosesABlock`;
  `ClosedLeaks`, `RunLeaksExactly`);
- every lookup leaves the directory it ends in open once more, and no call on names or descriptors takes that back
  (`OpenExcess`, `CloseExcess`, `MknodExcess`, `RemovalExcess`, `MkdirExcess`);
- removing a directory by way of a dot, or with a trailing slash, frees it and leaves its name (`RmdirByTrailingSlash`;
  `RmdirKeepsExactly`, `RunKeepsTreeExactly`);
- unlinking a device frees the inode that has the device's number (`UnlinkFreesTheRoot`; `UnlinkKeepsExactly`);
- making a directory on a full disk reports success and leaves it without dots (`MkdirWithoutABlock`;
  `MkdirKeepsExactly`);
- a missing directory in the middle of a path leaves the caller asleep on a lock it holds (`MissingDirectoryHangs`;
  `HangsExactly`, `HangsForever`).

`dafny verify dfyconfig.toml` checks the project.

## Model

| member | source | states |
|---|---|---|
| Bitmaps.Bitmap.Read | lib/bitmap.c:9-13 | returns bit `idx` of the byte map |
| Bitmaps.Bitmap.Set | lib/bitmap.c:15-24 | changes exactly bit `idx`; every other bit, and every byte past the map, keeps its value |
| Bitmaps.MaskIsShift | lib/bitmap.c:9-24 | the masks are the shifts of the code for each of the eight bits, and testing by one is shifting the bit down |
| Bitmaps.WithBitFrame | lib/bitmap.c:15-24 | or-ing or masking one bit of a byte changes that bit and none of the other seven |
| Bitmaps.SetBitFrame | lib/bitmap.c:9-24 | a bit written is the bit read back, in a map of any length, and no other bit changes |
| Bitmaps.Bitmap.Alloc | lib/bitmap.c:26-49 | despite `i += j` the search is exact first fit: the least start of a clear run, or -1 if there is none; it sets those bits only; it reads past the map exactly when no run fits and the last bit is clear |
| Bitmaps.RunBroken | lib/bitmap.c:31-44 | no run starts in a stretch the search skips |
| Bitmaps.FitStaysInMap | lib/bitmap.c:26-49 | if a run fits in the map the answer is the least one and does not depend on memory past the map; if none fits the answer is -1 or leaves the map |
| Bitmaps.SingleBitExact | lib/bitmap.c:26-49 | for one bit: -1 exactly when the map is full, and nothing past the map is read |
| Bitmaps.AllocCanLeaveTheMap | lib/bitmap.c:31-40 | a concrete map for which a run of two is handed out that ends past the map |
| IntrusiveLists.InsertBefore | lib/list.c:15-20 | splices a node into whatever chain holds the position |
| IntrusiveLists.Remove | lib/list.c:22-25 | unlinks a node from whatever chain holds it |
| IntrusiveLists.List.constructor | lib/list.c:4-9 | the two sentinels represent the empty sequence |
| IntrusiveLists.List.Empty | lib/list.c:11-13 | true exactly for the empty sequence |
| IntrusiveLists.List.Push | lib/list.c:27-29 | the new node becomes the first of the sequence |
| IntrusiveLists.List.Append | lib/list.c:31-33 | the new node becomes the last of the sequence |
| IntrusiveLists.List.Pop | lib/list.c:35-39 | returns the first node, the rest of the sequence stays |
| IntrusiveLists.List.Find | lib/list.c:41-49 | true exactly for nodes of the sequence |
| IntrusiveLists.List.Traverse | lib/list.c:51-60 | the first node the test accepts, or none if it accepts no node |
| IntrusiveLists.ListWorld.NewList | lib/list.c:4-9 | a new list is empty and leaves the others alone |
| IntrusiveLists.ListWorld.Push | lib/list.c:27-29 | with several lists over disjoint nodes, a push changes the one list named |
| IntrusiveLists.ListWorld.Append | lib/list.c:31-33 | likewise for append |
| IntrusiveLists.ListWorld.Pop | lib/list.c:35-39 | likewise for pop |
| IntrusiveLists.ListWorld.RemoveNode | lib/list.c:22-25 | removal names no list, and changes exactly the list that holds the node |
| TaskKernel.Machine.constructor | task/task.c:246-256 | the state `task_init` leaves satisfies the invariant |
| TaskKernel.Machine.TaskYield | task/task.c:277-286 | to the tail of the ready list, then a switch |
| TaskKernel.Machine.TimerTick | device/timer.c:28-37 | counts the quantum down, or switches when none is left (Scheduling.QuantumLasts, QuantumEnds); keeps the invariant |
| TaskKernel.Machine.SemaDownPass | task/sync.c:13-24 | one pass of the re-test loop: queue and block at count 0, else take the count |
| TaskKernel.Machine.SemaUp | task/sync.c:26-38 | pops the first waiter to the head of the ready list and counts up (Scheduling.WaitersExact, CountStep); keeps the invariant |
| TaskKernel.Machine.AllocPid | task/task.c:74-79 | the one-bit search in the pid map gives the least pid nobody has, and marks that one; -1 if the map is full |
| TaskKernel.FirstFitPid | task/task.c:74-79 | the answer of the bit search is the least free pid, and it is -1 exactly when there is none |
| TaskKernel.Machine.ReleasePid | task/task.c:81-85 | exactly that bit of the pid map is cleared |
| TaskKernel.Machine.SysClone | task/task.c:88-134 | a child of the running task at the end of both lists, with a pid nobody has |
| TaskKernel.Machine.FindHangingChild | userprog/wait_exit.c:7-15 | the first hanging child in list order, or none |
| TaskKernel.Machine.SysWaitPass | userprog/wait_exit.c:26-58 | collect a zombie child with its pid and exit status, or -1 without children, or sleep |
| TaskKernel.Machine.AdoptChildren | userprog/wait_exit.c:61-68 | every child of the exiting task, and nobody else, goes to init |
| TaskKernel.Machine.SysExitAdopt | userprog/wait_exit.c:100-106 | the status is kept and the children go to init; the caller is not init, the one task whose pid the ASSERT refuses (TaskAsserts.OnlyInitCannotExit) |
| TaskKernel.Machine.SysExitFinish | userprog/wait_exit.c:109-113 | wake the parent if it waits, then hang |
| TaskKernel.Machine.IoqWait | device/ioqueue.c:26-30 | register in an empty waiter pointer and block |
| TaskKernel.Machine.IoqWakeup | device/ioqueue.c:32-36 | unblock the registered task and clear the pointer |
| TaskKernel.Machine.IdlePass | task/task.c:25-30 | idle blocks on no queue |
| TaskDispatch.WakeIdleMid | task/task.c:46-50 | `schedule` always finds a next task: when the ready list is empty idle is blocked and on no queue |
| TaskDispatch.ScheduleInv | task/task.c:33-56 | from a parked task `schedule` finds a next one and restores the whole invariant, and no zombie comes or goes |
| TaskDispatch.UnblockQueues | task/task.c:268-275 | a task on no queue goes to the head of the ready list, and is on that list only |
| TaskRuns.StepInv | task/task.c:33-56 | the invariant of queues, places, semaphores, process forest, pids and zombies is kept by each of the thirteen atomic steps |
| TaskRuns.RunInv | task/task.c:246-256 | it therefore holds in every state of every run from boot, for all interleavings |
| TaskRuns.MutualExclusion | task/sync.c:13-38 | at most one task is inside a semaphore, and then its count is 0 |
| TaskRuns.NoLostWakeup | task/sync.c:13-38 | whenever the count is 1 and somebody waits, a task popped earlier is ready or running and has yet to re-test |
| TaskRuns.OneQueueOnly | task/task.c:33-56 | a tag is on at most one queue; the running task is on none |
| TaskAsserts.AssertsHold | task/task.c:33-56 | over every run no ASSERT of schedule, task_unblock, task_yield, sema_down, sema_up, create_task or of the wake-up in sys_exit fails; that programs pair the downs and ups of a mutex, raise an event at count 0 only and register in an empty waiter pointer are assumptions about them |
| TaskAsserts.ScheduleAssertsHold | task/task.c:38-48 | whoever enters `schedule`: a running task has used up its quantum and is not queued, and with nothing ready idle is blocked and off the ready list |
| TaskAsserts.EnteringIsEntry | task/task.c:33-56 | which steps switch, and in which state they enter `schedule`; the others keep the processor |
| TaskAsserts.StepAssertsHold | task/sync.c:13-38 | the ASSERTs before the switch: not queued twice, counts 0 and 1, tasks unblocked are blocked, pids below 1024 |
| TaskAsserts.OnlyInitCannotExit | userprog/wait_exit.c:103-103 | the ASSERT on the pid fails for exactly one program: init |
| TaskLocks.SelfDownNeverReturns | task/sync.c:13-24 | a task inside a semaphore that downs it again still waits for it in every later state of the run |
| TaskLocks.SelfLockedStep | task/sync.c:13-38 | no step of any program lets such a task through |
| Scheduling.LineIsExact | task/task.c:33-56 | who runs after each step and who is ready in what order: a task sent away or made goes to the end, one woken to the front, the first runs, or idle if there is none |
| Scheduling.TickQuanta | device/timer.c:28-37 | the timer takes one tick from the running task, or gives it its priority as a new quantum, and touches nobody else's |
| Scheduling.OtherQuanta | task/task.c:33-56 | no other step changes a quantum or a priority; a clone starts with a full quantum |
| Scheduling.QuantumLasts | device/timer.c:28-37 | over any run: a task with n ticks is still running after n timer interrupts, and every interrupt took one |
| Scheduling.QuantumEnds | device/timer.c:28-37 | the interrupt after those gives it a full quantum, puts it last on the ready list and runs the former first, or goes on with it if there is none; other quanta stay |
| Scheduling.WaitersExact | task/sync.c:13-38 | what each step does to a semaphore's queue: who is about to sleep on it joins at the end, an up takes the first |
| Scheduling.CountStep | task/sync.c:13-38 | what each step does to its count: an up adds one, who gets past a down takes one |
| Scheduling.CountIsConserved | task/sync.c:13-38 | over any run: downs passed and the count left are the ups and the count at the start |
| Scheduling.WaitsItsTurn | task/sync.c:18-33 | over any run: a task with a others before it in the queue sleeps through a ups, moving up one place at each |
| Scheduling.WakesInTurn | task/sync.c:18-33 | and the next up wakes it: it leaves the queue for the front of the ready list |
| TaskTheorems.DescendsFromInit | task/task.c:88-97 | every listed task but idle reaches init by finitely many parent links, each to an earlier list position |
| TaskTheorems.OnlyRootsSelfParented | userprog/wait_exit.c:61-68 | only idle and init are their own parents; a parent is always listed and never a zombie |
| TaskTheorems.PidsExact | task/task.c:74-97 | the set bits of the pid map are exactly the pids of the listed tasks, which are distinct |
| TaskTheorems.FamilyExact | userprog/wait_exit.c:61-106 | through every step a task keeps pid, parent and exit status, but for the start of an exit, which hands the children of that task, and nobody else, to init |
| TaskTheorems.ZombieStep | userprog/wait_exit.c:26-58 | an exit adds exactly its task to the zombies, a wait removes exactly the one it collects, no other step touches them |
| TaskTheorems.ExitsAreReapedOnce | userprog/wait_exit.c:26-113 | over every run: number of exits = number of reaps + zombies left |
| TaskTheorems.StatusIsFromExit | userprog/wait_exit.c:36-101 | the status `sys_wait` finds in a child is the one the child gave `sys_exit`, and the child has been listed ever since |
| TaskTheorems.CollectedIsExiting | userprog/wait_exit.c:7-15 | what `sys_wait` collects is an exiting child of the caller |
| TaskTheorems.NoParentSleepsOverZombie | userprog/wait_exit.c:53-55 | a task other than init that sleeps in wait has no zombie child |
| ProcessSteps.WaitingParentIsOff | userprog/wait_exit.c:109-111 | the parent `sys_exit` wakes is never already on the ready list |
| ProcessSteps.ZombieNotReady | userprog/wait_exit.c:42-45 | a zombie is never on the ready list, so the removal in `sys_wait` never applies |
| ProcessSteps.PidAvailable | task/task.c:74-79 | pages for task structures run out before pids do |
| TaskInit.InitMissesExactly | userprog/wait_exit.c:61-68 | init starts to sleep over a zombie exactly when an exiting task with a zombie child hands it over while init sleeps |
| OrphanRun.InitCanMissAZombie | userprog/wait_exit.c:61-113 | a run from boot of twelve steps in which init comes to sleep over a zombie, and still sleeps when the exit is complete |
| Ring.WindowLength | device/ioqueue.c:68-76 | both branches of the length formula give the number of bytes in the ring, at most 2047 |
| Ring.IoQueue.Full | device/ioqueue.c:16-19 | full exactly at 2047 bytes |
| Ring.IoQueue.Empty | device/ioqueue.c:21-24 | empty exactly without bytes |
| Ring.IoQueue.IoqLength | device/ioqueue.c:68-76 | the number of bytes in the ring |
| Ring.IoQueue.GetChar | device/ioqueue.c:38-52 | returns the oldest byte and wakes a sleeping writer, or sleeps exactly on an empty ring; produced = consumed + contents stays true |
| Ring.IoQueue.ResumeGet | device/ioqueue.c:40-51 | a woken reader finds a byte |
| Ring.IoQueue.GuardedPut | device/ioqueue.c:54-66 | a producer that puts only when there is room appends one byte and wakes a registered reader |
| Ring.IoQueue.PutChar | device/ioqueue.c:54-66 | appends and wakes a sleeping reader, or blocks exactly on a full ring |
| Ring.IoQueue.ResumePut | device/ioqueue.c:56-65 | a woken writer finds room |
| Ring.IoQueue.PipeRead | userprog/pipe.c:33-48 | transfers exactly min(count, length) oldest bytes and never blocks |
| Ring.IoQueue.PipeWrite | userprog/pipe.c:50-65 | blocks exactly when more than 2047 - length bytes are offered; otherwise appends all of them |
| Ring.FullPipeBlocks | userprog/pipe.c:50-65 | a pipe of 2047 bytes and one byte more: the code counts one cell left, and sleeps |
| PagePool.Pool.constructor | kernel/memory.c:22-32 | the reserved pages are marked, the others free |
| PagePool.Pool.AllocPages | kernel/memory.c:34-49 | the least run of free pages, and exactly those pages, if one lies in the pool; if none does, no run, or one that leaves the pool |
| PagePool.RunOfPages | kernel/memory.c:34-49 | a run that fits in the pool is found exactly when there is one |
| PagePool.Pool.AllocPage | kernel/memory.c:34-49 | hands out the least free page, and exactly that one; fails exactly when all are taken |
| PagePool.Pool.FreePages | kernel/memory.c:51-60 | returns exactly the pages given; its ASSERT holds |
| SlabState.BlockAddress | kernel/memory.c:100-105 | a block lies in its page after the header, and `block2arena` and the index invert `arena2block` |
| SlabState.LiveBlocksDisjoint | kernel/memory.c:119-158 | two live blocks are disjoint for at least the bytes asked for, inside one page and after the header |
| SlabState.LinksDisjoint | kernel/memory.c:71-73 | the links of a free block lie inside it and overlap no live block and no other free block |
| SlabState.LinksKeepLive | kernel/memory.c:113-142 | what the lists write into free blocks changes no byte a caller holds |
| SlabState.BlocksDisjoint | kernel/memory.c:100-105 | two blocks, of any size classes, are disjoint |
| SlabState.ArenaHasLiveBlock | kernel/memory.c:147-156 | between calls no arena is wholly free |
| SlabState.NothingLiveNoPages | kernel/memory.c:147-156 | when everything is freed no page is held |
| Slab.PageHeldIff | kernel/memory.c:119-158 | a page belongs to the allocator exactly while a block in it is live |
| Slab.SlabAllocator.ClassOf | kernel/memory.c:121-126 | the least size class that holds the size |
| Slab.SlabAllocator.ArenaInit | kernel/memory.c:107-117 | a fresh page whose blocks are all on the free list of its class; fails exactly when no page is left |
| Slab.SlabAllocator.Kalloc | kernel/memory.c:119-137 | a block that was not live, of the least fitting class: of an arena of that class that has one free, and then no page is taken, or else of exactly one new page; fails exactly when there is neither such an arena nor a page; pages of others untouched |
| Slab.ListedIsCounted | kernel/memory.c:119-137 | the free list of a class is not empty exactly if an arena of that class counts a free block |
| Slab.SlabAllocator.Kfree | kernel/memory.c:139-158 | exactly that block stops being live; an arena left empty gives its page back; pages of others untouched |
| Slab.SlabAllocator.Sweep | kernel/memory.c:150-154 | the ASSERT in the removal loop holds for every block |
| PageTree.IndexOfVpn | kernel/memory.c:199-199 | the shifted and masked address is the index of the page number at each level |
| PageTree.NoAliasing | kernel/memory.c:217-228 | two different mapped pages never share a frame |
| PageTree.LinkKeepsTranslations | kernel/memory.c:222-226 | linking a frame on the way to one page changes the translation of no other page |
| PageTree.MappedForUsers | kernel/memory.c:225-225 | every entry on the way to a mapped page has the present, write and user bits and no other flag |
| Paging.PageMapper.PageEntryPtr | kernel/memory.c:201-214 | the recursive walk finds the word of the entry at the depth asked for |
| Paging.PageMapper.PageMap | kernel/memory.c:217-228 | an unmapped page reaches a frame fresh from the pool, every other translation stays, the tables stay a tree, and the pool loses exactly the frames newly linked, at most four; for a mapped page nothing changes but one frame taken and linked nowhere; every entry on the way to the page is present, writable and for users |
| Paging.MapTwice | kernel/memory.c:217-228 | one address mapped twice, in a pool of sixteen pages: a frame is taken and linked nowhere |
| FsDisk.LayoutAreas | fs/fs.c:62-77 | the areas follow each other without overlap and the reserved marks cover all blocks before the data area |
| FsDisk.ModifyThenRead | fs/bio.c:5-35 | what was written is what is read back, clipped to the block; bytes outside are untouched |
| FsDisk.InodeRoundTrip | fs/inode.c:122-124 | an inode record written to its slot is the record read |
| FsDisk.InodeLayout | fs/inode.h:12-16 | the record byte by byte: the size in its first eight bytes, then the twelve block numbers, low byte first |
| FsDisk.SlotPlace | fs/inode.c:10-12 | slot i is in block i / 32 of the table at offset 128 * (i % 32) |
| FsDisk.MarkWrite | fs/inode.c:82-91 | writing one bitmap byte changes that mark and nothing else the image stands for |
| FsDisk.SlotWrite | fs/inode.c:123-124 | writing one slot changes that slot and nothing else the image stands for |
| FsDisk.DataWrite | fs/inode.c:145-148 | writing a data block changes that block and nothing else the image stands for |
| FileStore.Store.constructor | fs/fs.c:48-85 | formatting marks exactly the reserved blocks and no inode, whatever the disk held |
| FileStore.Store.BitmapFormat | fs/fs.c:48-57 | every block of the map gets the same page: marked up to `occur`, free up to `size`, marked beyond |
| FsBitmaps.FormatsRightExactly | fs/fs.c:48-57 | a map of several blocks comes out as asked for exactly when nothing or everything in it is to be free |
| FsBitmaps.BigPartition | fs/fs.c:60-85 | the block bitmap of a partition of 4097 blocks comes out wrong |
| FileStore.Store.BlockRead | fs/bio.c:5-18 | the clipped bytes of the block |
| FileStore.Store.BlockModify | fs/bio.c:20-35 | the clipped bytes go into that block, all other blocks stay |
| FileStore.Store.FsBitmapAlloc | fs/inode.c:67-85 | the first zero byte of a map of any number of blocks becomes one, or -1 exactly when there is none |
| FileStore.Store.FsBitmapFree | fs/inode.c:86-92 | clears exactly that byte, in whichever block it is |
| FsBitmaps.MapPutFrame | fs/inode.c:82-91 | one byte written changes one entry of a map of several blocks |
| FileStore.Store.InodeOpen | fs/inode.c:23-52 | one object a number with its count raised, read from the slot if it was not open; no object for a number of 128 and up |
| FileStore.Store.InodeClose | fs/inode.c:54-64 | the count falls; at zero the object goes |
| FileStore.Store.DropBlocks | fs/inode.c:112-119 | the shrink loop clears exactly the marks of the blocks given up; the index ASSERT holds because they are owned |
| FileStore.Store.InodeSizeChange | fs/inode.c:94-126 | one of the four outcomes: too big, shrunk, grown, or stopped half-way with the blocks taken so far |
| FileStore.Store.InodeRead | fs/inode.c:153-173 | exactly the clipped slice of the file, across block boundaries |
| FileStore.Store.InodeWrite | fs/inode.c:128-151 | success exactly when the size is allowed and the blocks are there; then the bytes go to their place; no other file changes; a failure changes no file |
| FileStore.Store.DiskInodeCreate | fs/inode.c:175-184 | the least free number gets a mark and an empty slot; -1 exactly when all are marked |
| FileStore.Store.DiskInodeDelete | fs/inode.c:186-193 | the mark goes, the blocks come back, an open object stays and is empty, no other file changes |
| FsState.BlocksDistinct | fs/inode.c:94-126 | in every reachable state the blocks of all files are pairwise different, marked, and in the data area |
| FsState.MarksPartition | fs/inode.c:94-126 | a block is marked exactly if it is reserved, owned or leaked, and owned exactly if some file has it |
| FsResize.ResizedInv | fs/inode.c:94-126 | block ownership survives every outcome of a size change, also a grow that fails half-way |
| FsResize.ResizedContent | fs/inode.c:94-126 | a size change cuts or extends that file, keeps every other, and keeps all if it fails |
| FsResize.ResizedFree | fs/inode.c:94-126 | failure for lack of blocks exactly when more are needed than are free; free blocks are counted exactly |
| FsResize.ResizedLeaks | fs/inode.c:101-111 | blocks are lost exactly by a grow that fails, and then all that were free |
| FsResize.ResizedAgree | fs/inode.c:122-124 | open objects keep agreeing with their slots |
| FsContent.WriteThrough | fs/inode.c:136-148 | read blocks, overwrite in the buffer, write back: the bytes land in this file only |
| FsContent.ReadThrough | fs/inode.c:161-170 | the buffer holds the slice of the file |
| FsContent.WrittenIsSplice | fs/inode.c:128-151 | up to the end of the file a write is old[..offset] + buf + old[offset+n..] |
| FsOpen.OpenedInv | fs/inode.c:23-52 | opening changes no file and keeps ownership and agreement |
| FsOpen.ClosedContent | fs/inode.c:54-64 | dropping an object that agrees with its slot loses nothing; dropping another one leaves the file empty |
| FsOpen.CreateKeepsAgreementExactly | fs/inode.c:175-184 | reusing a number keeps cache and disk in agreement exactly when no object with contents is open under it |
| FsWrite.ClosedLeaks | fs/inode.c:54-64 | a close loses blocks exactly if it drops a stale object or an unlinked file that is not empty |
| FsWrite.DeletedOutcome | fs/inode.c:186-193 | the four steps of a deletion together |
| StaleInode.ReuseWhileOpen | fs/inode.c:175-193 | a concrete run after which a file just created has old contents and the object disagrees with its slot |
| StaleInode.CloseLosesABlock | fs/inode.c:54-64 | create, open, delete, write, close: no grow fails, and a block stays marked with no owner |
| StaleInode.GrowByTwo | fs/inode.c:101-111 | a write that needs two blocks with one free fails, and the free one is lost |
| FsRuns.RunSound | fs/inode.c:23-193 | block ownership holds in every state of every run of inode calls from formatting, each call being the statements of the code |
| FsRuns.RunLeaksExactly | fs/inode.c:54-126 | a run has lost no block exactly if no call asked for more blocks than were free while some were, and no close dropped a stale or unlinked object with contents |
| FsRuns.MarksExactly | fs/inode.c:54-126 | then the marks are exactly the reserved blocks and the blocks of files |
| FsRuns.StepSound | fs/inode.c:23-193 | every call keeps ownership, gives no lost block back, and loses one exactly if it is one of those |
| FsRuns.RunAgreesExactly | fs/inode.c:23-193 | open objects agree with the disk in every state of a run exactly if no file was created under the number of an open object with contents |
| FsRuns.StepAgrees | fs/inode.c:23-193 | the same for one call |
| FsVolume.CleanWrite | fs/inode.c:128-151 | on volumes whose unnamed files are empty, a write refines overwriting a byte string |
| FsVolume.CleanClose | fs/inode.c:54-64 | there, closing changes nothing but the count |
| FsVolume.CleanCreate | fs/inode.c:175-184 | there, a new inode is empty even if its number is that of an unlinked file still open |
| FsVolume.CleanDelete | fs/inode.c:186-193 | there, a deletion clears one mark, empties one file and frees its blocks |
| Dirents.DirentRoundTrip | fs/dir.h:15-19 | an entry encoded in 32 bytes is the entry decoded |
| Dirents.DirentLayout | fs/dir.h:15-19 | the record byte by byte: inode number, name ended by a zero byte within its sixteen, type |
| Dirents.EntriesAppend | fs/dir.c:27-34 | appending a record appends an entry |
| Dirents.EntriesSwapOut | fs/dir.c:36-49 | copying the last record over one and cutting the last is the same on entries |
| Dirents.SearchIsLookup | fs/dir.c:8-25 | search is map lookup |
| Dirents.AddIsInsert | fs/dir.c:27-34 | appending an absent name is map insertion and keeps names unique |
| Dirents.DeleteIsRemove | fs/dir.c:36-49 | the move into the hole removes exactly that name and keeps names unique |
| DirVolume.AddOnTable | fs/dir.c:27-34 | `dirent_add` inserts the entry exactly if the name is absent, the size allows it and a needed block is free; otherwise nothing changes |
| DirVolume.RemoveOnTable | fs/dir.c:36-49 | `dirent_delete` removes exactly that name, or reports that it is absent |
| DirVolume.RemovePresent | fs/dir.c:42-47 | what a deletion does to bytes, entries and free blocks, also when the shrink frees a block |
| DirVolume.EntryCrossesOneBlock | fs/dir.c:29-30 | one entry needs one block at a block boundary and none elsewhere |
| DirVolume.SplitStep | fs/dir.c:55-79 | the character loop cuts the components that splitting on the slash gives |
| DirVolume.ResolveStays | fs/dir.c:51-98 | resolution from a directory never leaves the directories |
| FileSystem.Files.constructor | fs/fs.c:87-96 | formatting and the root directory: its ASSERTs hold and the names are a tree |
| FileSystem.Files.Read | fs/inode.c:153-173 | reading refines slicing a byte string |
| FileSystem.Files.Write | fs/inode.c:128-151 | writing refines overwriting a byte string and counting free blocks |
| FileSystem.Files.Delete | fs/inode.c:186-193 | deleting refines emptying one file |
| FileSystem.Files.DirentSearch | fs/dir.c:8-25 | the first entry with the name, or -3 |
| FileSystem.Files.DirentAdd | fs/dir.c:27-34 | the volume after an insertion, with the result code |
| FileSystem.Files.DirentDelete | fs/dir.c:36-49 | the volume after a removal, with the result code |
| FileSystem.Files.PathPrase | fs/dir.c:51-98 | the character loop equals the recursive resolver; it leaves exactly the last directory open, and no inode locked unless it sleeps on the lock it took itself |
| PathHang.HangsExactly | fs/dir.c:57-85 | a lookup hangs exactly if a component that is not the last is missing from the directory the ones before it lead to |
| PathLookup.SplitJoins | fs/dir.c:56-79 | joining the components of a path gives the path |
| PathLookup.JoinSplits | fs/dir.c:56-79 | splitting joined components gives the components, so they are what stands between slashes |
| PathLookup.LookupExactly | fs/dir.c:51-98 | a lookup finds an entry, or a name missing, exactly if the components before the last lead through directories to that directory, and it has the entry or lacks the name; it is blocked exactly by a component before the last that is no directory |
| PathHang.HangsForever | fs/dir.c:62-85 | a program that has the lock path_prase leaves it and closes the directory waits for that lock in every later state of the run |
| FileSystem.Files.SysMknod | fs/file.c:39-76 | refines its effect on the volume (NameOutcomes.MknodAnswers, MknodEnters), with the rollback; a failure leaves the block bitmap on the disk as it was |
| FileSystem.Files.SysUnlink | fs/file.c:78-101 | refines its effect on the volume (NameOutcomes.UnlinkAnswers, UnlinkErases), also for a device with the number of an inode in use |
| FileSystem.Files.SysMkdir | fs/dir.c:100-126 | refines its effect on the volume (NameOutcomes.MkdirAnswers, MkdirEnters); its ASSERT holds; a failure leaves the block bitmap on the disk as it was |
| FileSystem.Files.SysRmdir | fs/dir.c:128-160 | refines its effect on the volume (NameOutcomes.RmdirAnswers, RmdirErases) |
| Namespace.NamedExactly | fs/file.c:39-101 | the marked inodes are exactly the root and those named by an entry other than a dot, and each is named once |
| NamespaceOps.MknodAllOrNothing | fs/file.c:39-76 | success exactly when the name is absent, the directory may grow, a needed block and an inode are free; otherwise inode marks, files and the count of free blocks are as before |
| NamespaceOps.MknodKeeps | fs/file.c:39-76 | the names stay a tree, with the new file as a leaf; no other file changes |
| NamespaceOps.UnlinkKeeps | fs/file.c:78-101 | the names stay a tree, without that file, or without a device whose number is no inode number or that of an open inode without a name; other files keep their bytes |
| NamespaceOps.UnlinkKeepsExactly | fs/file.c:78-101 | for files, and devices with a number no inode can have or that of an inode in use: an unlink keeps the names a tree exactly when it is not given a device whose number is that of a marked inode |
| NamespaceOps.RmdirKeeps | fs/dir.c:128-160 | the same for an empty directory, on a path whose last component is neither empty nor a dot |
| NamespaceOps.RmdirKeepsExactly | fs/dir.c:128-160 | a removal that succeeds keeps the names a tree exactly when the last component of the path is neither empty nor a dot |
| NamespaceOps.MkdirOutcome | fs/dir.c:100-126 | success exactly when `sys_mknod` would succeed; otherwise no effect |
| NamespaceOps.MkdirKeeps | fs/dir.c:100-126 | with a block to spare the new directory is a leaf with both dots |
| NamespaceOps.MkdirKeepsExactly | fs/dir.c:100-126 | a creation that returns 0 keeps the names a tree exactly when a block is left for the dots |
| NameOutcomes.UnlinkAnswers | fs/file.c:78-101 | 0 exactly if the path leads to something that is no directory, with a number below 128; -6 exactly for a directory, -5 exactly for a missing name, -3 exactly for a component that is no directory; the rest never returns |
| NameOutcomes.UnlinkErases | fs/file.c:78-101 | a file unlinked: its inode is free, its bytes are gone, its blocks and that of the entry are free, the entry and nothing else is gone from the directory, every other file is as before, and the path leads nowhere |
| NameOutcomes.RmdirAnswers | fs/dir.c:128-160 | 0 exactly for an empty directory, -7 exactly for one that is not, -6 exactly for something else, -5 and -3 as for sys_unlink; it hangs exactly when the lookup does |
| NameOutcomes.RmdirErases | fs/dir.c:128-160 | an empty directory removed by its name: as for a file; a path with dots in it may have led through the directory, and then hangs now |
| NameOutcomes.MknodAnswers | fs/file.c:39-76 | -9, -3, -4, -2 and -1 each exactly when the type is bad, a component is no directory, the name is there, the directory may not grow, no inode or block is free; else the least free inode number, or the device number |
| NameOutcomes.MknodEnters | fs/file.c:39-76 | on success the entry, with that number, that name and that type, is the last of the directory, the file is empty, nothing else changes, and the path finds the entry |
| NameOutcomes.MkdirAnswers | fs/dir.c:100-126 | 0 exactly when sys_mknod would succeed, and its answers otherwise |
| NameOutcomes.MkdirEnters | fs/dir.c:100-126 | with a block to spare the directory is there under the least free number with both dots in it, nothing else changes, and the path finds it |
| NameOutcomes.UnlinkUndoesMknod | fs/file.c:39-101 | sys_unlink after sys_mknod: marks, files byte for byte and free blocks are as before |
| NameOutcomes.RmdirUndoesMkdir | fs/dir.c:100-160 | so they are for sys_rmdir after sys_mkdir |
| NamespaceRuns.RunKeepsTreeExactly | fs/file.c:39-101 | over any run of calls from the formatted disk: the names are a tree in every state exactly if no call unlinked a device with the number of a marked inode, removed an empty directory by way of a dot, or made a directory without a block for its dots |
| NamespaceRuns.RunNamesExactly | fs/file.c:39-101 | in every state of a run without those calls the marked inodes are exactly the root and those with a name, and each has one name |
| NamespaceRuns.OnePathEach | fs/dir.c:51-98 | a path without dots finds an inode exactly if it is its one path in the tree |
| RootVolume.RootConsistent | fs/fs.c:87-96 | the first volume satisfies the invariant |
| RootVolume.RmdirByTrailingSlash | fs/dir.c:128-160 | after making "/a", removing "/a/" returns 0 and leaves an entry that names a freed inode |
| RootVolume.UnlinkFreesTheRoot | fs/file.c:78-101 | after making the device "/a" with number 0, unlinking it returns 0 and frees the root inode |
| RootVolume.MkdirWithoutABlock | fs/dir.c:100-126 | making "/a" on a full disk returns 0 and leaves a directory without dots |
| RootVolume.MissingDirectoryHangs | fs/dir.c:62-65 | looking up "/a/b" without "a" hangs in the root |
| Descriptors.Table.SysOpen | fs/file.c:103-130 | the descriptor leads, through the first free slot, to the inode the path names, opened once more for it, at position 0; -5, -32 and -170 each exactly when the name is missing or a component no directory, no descriptor is free, no slot is free; nothing else in both tables changes |
| OpenFiles.OpenDoes | fs/file.c:103-130 | all that sys_open does and answers, by what the path leads to |
| OpenFiles.CloseDoes | fs/file.c:132-165 | all that sys_close does and answers |
| Descriptors.OpenThenRead | fs/file.c:103-222 | what a read through the new descriptor gives is the beginning of the file the path names |
| Descriptors.Table.SysClose | fs/file.c:132-165 | 0 exactly for a descriptor in use, which is free again, as is its slot, and the open count falls; a device goes with its last descriptor; else -8 and no change; the ASSERT holds |
| Descriptors.Table.FreeSlot | fs/file.c:13-20 | the first free slot |
| Descriptors.Table.FreeFd | fs/file.c:28-37 | the first free descriptor |
| OpenFiles.OpenKeeps | fs/file.c:103-130 | descriptors lead to different slots in use, and each slot stands for one opening of its inode |
| OpenFiles.CloseKeeps | fs/file.c:132-165 | the same |
| OpenFiles.CloseUndoesOpen | fs/file.c:103-165 | closing takes back exactly what a successful open did, but for the directory the lookup leaves open |
| OpenFiles.OpenExcess | fs/file.c:103-130 | openings that no slot stands for: one more of the directory each lookup ends in, and one of the file if the table is full |
| OpenFiles.CloseExcess | fs/file.c:132-165 | closing gives none of them back |
| OpenFiles.MknodExcess | fs/file.c:39-76 | sys_mknod leaves the directory its lookup ends in open once more, and changes no other count |
| OpenFiles.RemovalExcess | fs/file.c:78-101 | so do sys_unlink and sys_rmdir |
| OpenFiles.MkdirExcess | fs/dir.c:100-126 | sys_mkdir that succeeds leaves the parent open twice more |
| Descriptors.Table.SysLseek | fs/file.c:167-201 | SEEK_SET leads to the offset, SEEK_CUR adds it to the position, SEEK_END to the size; -1 and no change exactly when that is outside 0 to size; else the position is the result; 0 and no change for a device; -8 for a bad descriptor |
| Descriptors.Table.SysRead | fs/file.c:203-235 | the slice at the position, and the position behind it; from a device what is typed |
| Descriptors.Table.SysWrite | fs/file.c:237-266 | the bytes go to the position of a regular file, which moves behind them; a directory is not written; a device takes them all |
| Descriptors.ReadFrom | fs/file.c:167-222 | a seek to an offset and a read: the bytes of the file from there on |
| Descriptors.ReadTail | fs/file.c:167-222 | a seek to some bytes before the end: exactly these are left to read |
| Descriptors.WriteThenRead | fs/file.c:167-256 | a write, a seek back over it and a read: the bytes written |
| Descriptors.WriteSeekRead | fs/file.c:167-256 | after a write the position is inside the file, seeking back and reading gives the bytes written, and the bytes before and behind are as they were |
| Descriptors.ReadsAreOneSlice | fs/file.c:203-222 | reads of any sizes one after another give one slice of the file |
| Bitmaps.Bitmap.constructor | lib/bitmap.c:5-7 | an empty map; bytes past it keep their values |
| Bitmaps.Bitmap.Probe | lib/bitmap.c:30-35 | the inner scan ends at the first set bit of the stretch, or after `cnt` clear ones |
| Bitmaps.Bitmap.MarkRun | lib/bitmap.c:37-39 | sets exactly the bits of the run |
| IntrusiveLists.RemoveFrom | lib/list.c:22-25 | seen from the list that holds the node: the sequence without it |
| TaskKernel.Machine.FindChild | userprog/wait_exit.c:17-24 | true exactly if some listed task has this parent |
| TaskRuns.BootInv | task/task.c:246-256 | the boot state satisfies the invariant |
| TaskSteps.TickInv | device/timer.c:28-37 | the timer step keeps the invariant |
| TaskSteps.YieldInv | task/task.c:277-286 | a yield keeps the invariant |
| TaskSteps.DownInv | task/sync.c:13-24 | a pass of sema_down keeps the invariant |
| TaskSteps.UpInv | task/sync.c:26-38 | sema_up keeps the invariant, in particular the promise to re-test |
| TaskSteps.SlotWaitInv | device/ioqueue.c:26-30 | registering as a waiter keeps the invariant |
| TaskSteps.SlotWakeInv | device/ioqueue.c:32-36 | waking a waiter keeps the invariant |
| TaskSteps.IdleBlockInv | task/task.c:25-30 | idle going to sleep keeps the invariant |
| ProcessSteps.CloneInv | task/task.c:88-134 | a clone keeps the invariant |
| ProcessSteps.WaitInv | userprog/wait_exit.c:26-58 | a pass of sys_wait keeps the invariant |
| ProcessSteps.ReapInv | userprog/wait_exit.c:38-49 | taking a zombie out of the lists and its pid out of the map keeps the invariant |
| ProcessSteps.ExitBeginInv | userprog/wait_exit.c:100-106 | handing the children to init keeps the invariant |
| ProcessSteps.ExitEndInv | userprog/wait_exit.c:109-113 | waking the parent and hanging keeps the invariant |
| Ring.IoQueue.constructor | device/ioqueue.c:6-10 | an empty ring without waiters |
| Ring.IoQueue.Store | device/ioqueue.c:61-65 | the byte goes behind the others; a registered reader is woken |
| Ring.IoQueue.Take | device/ioqueue.c:45-51 | the oldest byte comes out; a registered writer is woken |
| Slab.SlabAllocator.constructor | kernel/memory.c:91-98 | no arena, empty lists |
| Slab.SlabAllocator.RetireArena | kernel/memory.c:149-156 | a wholly free arena leaves the list and its page goes back |
| Slab.SlabAllocator.TakeHead | kernel/memory.c:133-136 | the first block of the list becomes live, and its arena counts one less |
| PageTree.NodeRole | kernel/memory.c:201-214 | the walk meets each frame at the depth and prefix it was linked for |
| PageTree.SamePath | kernel/memory.c:199-214 | pages with a common prefix share the walk that far |
| Paging.PageMapper.constructor | kernel/memory.c:217-228 | with a zeroed root nothing is mapped |
| Paging.PageMapper.LinkFrame | kernel/memory.c:222-226 | one missing entry linked: the walk goes one step further, other pages translate as before |
| Paging.PageMapper.MapLevel | kernel/memory.c:219-227 | one round of the loop: an entry that is there stays, a missing one leads to a table fresh from the pool, or at the last depth to the page; other pages translate as before |
| FsSteps.PartialInv | fs/inode.c:101-111 | a grow that stops half-way keeps ownership and loses exactly the blocks it took |
| FsSteps.GrownInv | fs/inode.c:101-111 | a grow that succeeds gives every new block to the file |
| FsContent.GrownContent | fs/inode.c:101-125 | growing keeps old bytes and other files |
| FsContent.ShrunkInv | fs/inode.c:112-125 | a shrink frees exactly the blocks given up |
| FsContent.ShrunkContent | fs/inode.c:112-125 | a shrink cuts that file and keeps every other |
| FsContent.RewrittenInv | fs/inode.c:145-148 | writing data blocks touches no ownership |
| FsContent.RangeCovers | fs/inode.c:136-138 | the blocks computed cover the range, and the file has them |
| FsOpen.ClosedInv | fs/inode.c:54-64 | closing keeps ownership and agreement |
| FsOpen.CreatedInv | fs/inode.c:175-184 | creating keeps ownership and loses no block |
| FsOpen.UnmarkedInv | fs/inode.c:187-187 | clearing an inode mark keeps ownership |
| FsWrite.WriteGrown | fs/inode.c:130-151 | a write that had to grow the file and could |
| FsWrite.WriteRefused | fs/inode.c:130-135 | a write that had to grow the file and could not |
| FsWrite.FailedAppendKeepsMarks | fs/inode.c:94-135 | a write that fails for want of one block leaves the block bitmap as it was |
| FsWrite.EmptyDeleteKeepsMarks | fs/inode.c:186-193 | deleting an empty file leaves the block bitmap as it was |
| FsWrite.WroteOutcome | fs/inode.c:128-151 | the statements of the code, resize and write-back, amount to that outcome and keep ownership |
| FileStore.Store.TakeBlocks | fs/inode.c:101-111 | the grow loop takes unmarked data blocks in turn, and stops when all are marked |
| FileStore.Store.StoreSize | fs/inode.c:122-124 | the size and the whole inode to its slot |
| FileStore.Store.GatherBlocks | fs/inode.c:140-143 | the blocks of the range one after another |
| FileStore.Store.ScatterBlocks | fs/inode.c:145-148 | the buffer back to these blocks |
| FsVolume.KnownExactly | fs/inode.c:23-64 | an inode number is in use exactly if it is marked or open |
| FsVolume.CleanOpen | fs/inode.c:23-52 | on clean volumes opening changes nothing but the count |
| FsVolume.CleanCut | fs/inode.c:112-125 | on clean volumes a shrink refines cutting a byte string |
| FileSystem.Files.Open | fs/inode.c:23-52 | opening refines counting |
| FileSystem.Files.Close | fs/inode.c:54-64 | closing refines counting |
| FileSystem.Files.Cut | fs/inode.c:94-126 | shrinking refines cutting a byte string, and always succeeds |
| FileSystem.Files.Create | fs/inode.c:175-184 | creating refines marking the least free number, whose file is empty |
| FileSystem.Files.ReadEntry | fs/dir.c:12-16 | the entry at an index |
| FileSystem.Files.Descend | fs/dir.c:57-74 | one intermediate component |
| FileSystem.Files.LastComponent | fs/dir.c:87-94 | the last component; an empty one stands for entry 0 |
| FileSystem.Files.AddEntry | fs/file.c:51-75 | the inode and the entry, or the rollback, which restores the block bitmap |
| FileSystem.Files.RemoveEntry | fs/dir.c:151-158 | the inode, then the entry |
| FileSystem.Files.PromoteEntry | fs/dir.c:109-124 | the entry becomes a directory, then both dots |
| DirVolume.AddFresh | fs/dir.c:27-34 | an entry that fits is appended, with at most one block taken |
| DirVolume.AddRefused | fs/dir.c:27-34 | an entry that does not fit or is there already changes nothing |
| DirVolume.StepIn | fs/dir.c:56-79 | the loop body at a slash is one step of the resolver |
| DirVolume.StepLast | fs/dir.c:87-97 | the code behind the loop is the last step of the resolver |
| Namespace.NsWalkable | fs/dir.c:51-98 | in a tree of names every lookup stays among directories |
| Namespace.LookupFacts | fs/dir.c:51-98 | what a lookup in a tree of names finds |
| Namespace.GraftKeeps | fs/file.c:58-61 | creating and naming an inode keeps the tree |
| Namespace.PruneKeeps | fs/file.c:91-96 | freeing a childless inode and dropping its name keeps the tree |
| Namespace.DeviceKeeps | fs/file.c:58-63 | a device entry keeps the tree |
| Namespace.DeviceGoes | fs/file.c:92-96 | so does the removal of one |
| Namespace.WriteKeeps | fs/file.c:250-256 | writing a regular file keeps the tree |
| NamespaceOps.RegularEntry | fs/file.c:51-75 | an entry for a new regular file goes in whole, or the volume is as before |
| NamespaceOps.DeviceEntry | fs/file.c:58-75 | a device entry with the number and the name given goes in whole and keeps the tree, or the volume is as before |
| NamespaceOps.DropEntryDrops | fs/file.c:91-99 | freeing an inode and deleting its entry: marks, entries, free blocks and all other files |
| NamespaceOps.PromoteKeeps | fs/dir.c:109-124 | with a block to spare the new inode becomes a directory of the tree |
| NamespaceOps.PromoteBreaks | fs/dir.c:109-124 | without one the volume is no tree of names |
| NamespaceOps.DotBreaks | fs/dir.c:150-155 | an empty directory removed by way of a dot leaves its name behind |
| NamespaceOps.DeviceBreaks | fs/file.c:91-96 | the number of a device taken for an inode: the inode is freed and its name stays |
| NamespaceRuns.StepKeepsExactly | fs/file.c:39-101 | one call keeps the tree exactly if it is none of the three |
| NamespaceRuns.PathLeadsThere | fs/dir.c:51-98 | every marked inode is found at the end of its path |
| NamespaceRuns.PathIsUnique | fs/dir.c:51-98 | and by no other path without dots |
| RootVolume.FormattedVol | fs/fs.c:48-85 | the formatted disk as a volume |
| RootVolume.RootAdds | fs/fs.c:87-96 | both entries of the root fit its first block |
| StaleInode.DeletedWhileOpen | fs/inode.c:186-193 | an open inode that is deleted stays open and is empty |
| StaleInode.CreatedOverOpen | fs/inode.c:175-184 | a creation over an open object with contents breaks agreement |

## Left out

- Assembly, CR2 and CR3, TLB flushes, interrupt entry, TSS, IDT, PIC and PIT setup and boot: a switch is "the next task runs".
- Interrupts: taken to be off from the start of a system call or an interrupt to its next switch. `sys_wait` and `sys_exit` do not switch them off themselves and no file sets the flag mask of the system call instruction; the ASSERTs at device/ioqueue.c:39 and 55 show that the kernel takes it for granted. With a timer interrupt between the search in `sys_wait` and its `task_block`, TaskTheorems.NoParentSleepsOverZombie would not hold.
- IDE ports and busy waits: the disk is a total sequence of blocks, and eight sectors are moved at once.
- The count of ticks since boot, and mtime_sleep and sys_clock_gettime, which read it: a loop over task_yield and a product.
- Screen, keyboard, printing, shell and the user programs: interface code.
- page_unmap and sys_brk: page_unmap does not clear the entry it frees, so it is no inverse of page_map.
- Reference counts of files shared by clone and dup2: the code does not keep them, so no counting invariant holds.
- Descriptors.Table.SysWrite: asks that the file still has a name and that the position is not behind its end; a descriptor of an unlinked file is covered by FileStore.Store.InodeWrite only. Descriptor 32, which the code lets pass its check, reads as invalid; pipes have no slots here.
- FileSystem.Files.Write: the same, because the volumes it refines keep unnamed files empty.
- NamespaceRuns.RunKeepsTreeExactly: writes go to files that have a path; one through a descriptor of an unlinked file is covered by FsRuns only.
- Descriptors.Table.SysOpen: a device opened with a full file table is -170, without the write behind the table that the code makes.
- Descriptors.Table.SysClose: the slots and descriptors of one task; clones that share a slot are not modelled.
- FileSystem.Files.SysUnlink: a device whose number is below 128 and no inode's in use is left out, here, in NamespaceOps.UnlinkKeepsExactly and in the runs of NamespaceRuns: the code then frees the blocks listed in an inode table slot that holds whatever was there, or fails an ASSERT.
- NamespaceOps.UnlinkKeepsExactly: the same.
- FileStore.Store.InodeOpen: is asked for numbers of files only (marked or open); an inode table slot that was never written holds whatever the disk held.
- FileStore.Store.DiskInodeDelete: the same.
- FileStore.Store.InodeWrite: at least one byte, because for none at a block boundary the code asks for 0 pages; likewise InodeRead.
- FsDisk.LayoutAreas: partitions of at most 4096 blocks, whose block bitmap is one block; larger ones are formatted wrongly (FsBitmaps.FormatsRightExactly).
- FileStore.Store.constructor: the same.
- FileSystem.Files.constructor: the same.
- FileSystem.Files.PathPrase: file names of at most 15 characters, what the entry's 16 bytes hold; the buffers it never frees on some paths are not modelled.
- Inode objects: one record a number in a sequence, so a pointer to an object is its number; use of an object after `inode_close` freed it is not visible.
- The locks of the bitmaps, the list of open inodes, the file table, the page pool and the pid pool: the operations under them are atomic here. Inode locks are taken and released in the calls that work on paths and names.
- PathHang.HangsForever: the kernel state in which path_prase goes to sleep is a premise; the file system and the tasks are two models.
- sys_stat: a lookup, an opening and a closing, as in sys_rmdir.
- Padding of directory entries: zero.
- 64-bit wrap-around of offsets and sizes: numbers are unbounded, stored words are below 2^64.
- Magic number of the super block, which formatting does not write: the super block's bytes are a parameter.
- Slab free lists: sequences of block addresses; the pointer form of such lists is in IntrusiveList, and that its pointers stay clear of live blocks is SlabState.LinksKeepLive.
- Slab.SlabAllocator.Kfree: the address came from kalloc and was not freed yet, which the code's ASSERT checks in part.
- Paging.PageMapper.PageMap: frames in the pool are zeroed, which the code takes for granted.
- Pool sizes: parameters, so the shift in `kernel/memory.c` that computes one of them plays no part.
- Ring.IoQueue: one reader and one writer that do not sleep at the same time; with several readers a woken one does not look again. That the ring wakes a task is a flag of the ring's, not the slot of TaskState.
- Ring.IoQueue.GetChar: not for an empty ring whose woken writer still has iosema; no caller in the tree gets there, since a ring whose writer sleeps is a pipe, and `pipe_read` does not ask an empty ring.
- Ring.IoQueue.PutChar: likewise not for a full ring whose woken reader still has iosema, which the guarded keyboard interrupt does not put to.
- TaskKernel.Machine: its queues are sequences; the linked form of such lists is in IntrusiveList.
- Clone's copying of stacks and address spaces, exec and page faults: address-space plumbing around CR3.
- Task bookkeeping: the queue a task's tag is on, where it resumes, who is inside a semaphore and who is exiting are fields of the model that the kernel keeps in pointers and stacks.
