# Resource ownership in the Linux 0.12 kernel and the Bochs timer engine

A Dafny model of the parts of this repository that own, share and hand back
resources, with proofs of what they promise. Each part is one family of files: a
`*Model` file with the state as a value and its invariant, `*Steps`/`*Ops`/`*Lists`
files with the single steps, and a file with a class whose methods follow the source
function by function and are proved against those steps.

| part | files |
|---|---|
| paging, copy-on-write, swap, fork's memory | PageModel, PageSteps, PageOps, PageScan, PageRace, Paging |
| buffer cache | CacheModel, CacheLists, CacheSteps, CacheRuns, BufferCache |
| block bitmap, block trees, truncate, file reads and writes | FsModel, FsSteps, FsShrink, FileSystem |
| directories and link counts | NameModel, NameSteps, NameOps |
| bucket allocator | BucketModel, BucketSteps, BucketSearch, BucketFree, Malloc |
| sleep queues and select | SleepModel, SleepQueues |
| process tree, fork, exit, waitpid | TreeModel, TreeSteps, TreeRuns, ProcessTree |
| scheduler | SchedModel, Scheduler |
| Bochs timers | TimerModel, PcSystem |
| pipes | PipeRing |
| exec's arguments | ExecArgs |
| printing and reading numbers | Printing |

## How it is built

*Sleeping.* Where the source can sleep or be interrupted, a class has a function `env`
that says what the others do meanwhile. For the buffer cache and pipes it returns any
sequence of steps that the code allows the others (`CacheRuns.Op`, `PipeRing.Move`), and the
theorems are about all runs of such steps. Elsewhere nothing is assumed about it but a
relation (`Keeps`, `Kept`, steps of `Others`) that the steps of this project are in turn
proved to respect, so the same code may run in all tasks at once. Loops that could sleep for
ever take a number of allowed sleeps (`fuel`).

*Meaning.* Every part has an abstract counterpart that the code is shown to implement:
private pages per task (`View`), a plain array of blocks (`Array`), flat files
(`FileByte`, `LastWritten`), maps from names to inodes (`Means`), lists of waiters
(`Follow`), a family tree (`kids`), a clock with absolute deadlines (`ClockTick`), a
stream of bytes (`sent`), the strings given (`Flat`), the digits of a number (`Spells`).

*Ghost owners.* Conservation is stated through who owns what: `pins`, `backing` and
`reserved` for frames and swap slots, `owner` for zones, `slots`, `place` and `owner`
for descriptors and pages, `Refs` for link counts.

## What turned out not to hold

- `un_wp_page` reads the old page number before `get_free_page`, which may evict that very
  entry. Then the old page is counted down twice. For a page that is copied this is excluded,
  whatever the allocation evicts, exactly if before the call a frame is free, or the page is
  of the first megabyte, or it is dirty and shared (`PageRace.CopyAlwaysCountsIff`);
  `PageRace.SharedPageFreedInUse` is a state in which a page that another task still has
  mapped becomes free.
- `try_to_share` has the same fault where it allocates a page table: the page it is about to
  share may be evicted, and is then counted up for nobody (`PageOps.ShareOutcome`,
  `PageRace.SharedNothingButCounted`). With the table missing, the counts stay right whatever
  the allocation evicts exactly if a frame is free before the call
  (`PageRace.ShareAlwaysCountsIff`).
- `swap_out` goes on where its last scan stopped. If that page table is gone by then, the scan
  passes over the first entries of the next one, and entry 0 of the table can be passed over in
  the same way: it looks at every page exactly if `PageScan.NoneMissedIff` says so before the
  call. `PageRace.PageOverlooked` is a state in which `get_free_page` therefore reports that
  memory is out although a clean page could be dropped.
- `un_wp_page` maps the copy without the dirty bit. Called by `write_verify` without the
  store that follows, the page may be dropped as clean (`PageOps.CopyWithoutStoreIff`,
  `PageRace.CopyLeftUnwritten`).
- Link counts are one byte and nothing limits them. `link` and `mkdir` keep them right if and
  only if the count was below 255 (`NameSteps.LinkOk`, `NameSteps.MakeOk`); the next link
  frees a file that 256 entries name, or makes `unlink` print its message about a nonexistent
  file (`NameSteps.LinkCountWraps`, `NameSteps.MkdirCountWraps`).
- `nice` does not bound priorities. Above 2^30 a counter can leave its 32 bits when it is
  recharged (`SchedModel.RechargeIff`), and a runnable task with a negative counter is passed
  over (`SchedModel.NiceStarves`).
- `free_s` searches with interrupts enabled. Resumed after an interrupt, the search finds the
  object if and only if the descriptor it stands on is still in the object's chain and not
  behind the object (`BucketSearch.FindsIff`, for whole walks `BucketSearch.WalkFindsIff`); so
  in the object's own chain one step of the others spoils it exactly if it gives back that
  very descriptor (`BucketSearch.ResumedFindsIff`), and in an earlier chain exactly if, besides,
  a free descriptor it then meets has kept the page's address
  (`BucketSearch.ResumedPassesIff`). What follows is a panic about a good address, an object
  that nobody can ever free (`BucketFree.StaleRan`), or "chains corrupted" where there is
  nothing wrong with them (`BucketFree.MisledRan`). `BucketSearch.SearchAstray` is a heap with
  such a search, and `Malloc.Allocator.FreeS` follows the code through all of this.
- `copy_process` uses a slot and a number that were chosen before it slept. They are still
  right exactly if nobody took them (`TreeSteps.MakeOkIff`, `TreeRuns.MakePidIff`);
  `TreeRuns.SlotClash` is a state, reached from the tree after boot, in which both were
  taken. It also returns `last_pid` as it is at the end, the child's number only
  if no other fork changed it after the child was given its own
  (`ProcessTree.Kernel.CopyProcess`);
  `ProcessTree.ForkReturnsWrongNumber` is a state, reached from boot, in which the parent is
  told the number of another task's child.
- While a fork sleeps the new task has its parent's links, and `audit_ptree` can complain
  (`TreeModel.AuditOfHalfMade`, `TreeRuns.AuditComplains`).
- `do_exit` hands a task's children to init, and does the same when init itself exits: they
  are then put in front of themselves and are nobody's any more (`TreeSteps.InitExitBreaks`).
  For every other task it keeps the tree (`TreeSteps.ExitOk`).
- "A woken queue always has a runnable waiter" holds for `__sleep_on`, not for `select`.
  `SleepModel.StallsIff` says exactly which step breaks it, `SleepModel.SelectCanStall` is a
  state with such a step.
- A `#!` script run with an empty argv gets an argc that is one short
  (`ExecArgs.SpliceCountsIff`).
- `write_pipe` publishes the head before the bytes are there (`PipeRing.HeadFirstIff`,
  `PipeRing.HeadFirstBreaks`).
- `read_pipe` moves the tail before it copies the bytes out. If the copy sleeps, writers may
  overwrite them unless there is just one (`PipeRing.TailFirstIff`, `PipeRing.TailFirstBreaks`).
- `bmap` looks for an empty place, lets `new_block` sleep, and stores the zone without looking
  again. A zone is lost exactly if the place was filled meanwhile (`FsSteps.LateStoreIff`,
  `FsSteps.BlockCreatedTwice`).
- `copy_strings` tests an unsigned difference for being negative, so strings that do not fit are
  not refused: with enough memory it runs out of its page table exactly if they are longer than
  the room that is left (`ExecArgs.ArgSpace.CopyStrings`).

## Model

| member | source | states |
|---|---|---|
| `Paging.Memory.FreePage` | linux/linux-0.12/mm/memory.c:81-98 | panics exactly for a page that does not exist or has no users; otherwise counts one user less |
| `Paging.Memory.GetSwapPage` | linux/linux-0.12/mm/swap.c:74-87 | takes the first free slot other than 0, or returns 0 exactly if there is none |
| `Paging.Memory.SwapFree` | linux/linux-0.12/mm/swap.c:96-108 | gives a slot back; complains exactly if it was not taken |
| `Paging.Memory.TryToSwapOut` | linux/linux-0.12/mm/swap.c:153-186 | succeeds exactly if the page is present, above the first megabyte, and clean, or dirty with one user and swap on with a slot free; then a clean page's entry is empty, a dirty one's names a slot that was free, and no other entry changed; every task reads the same memory and no share count grows |
| `Paging.Memory.SwapOut` | linux/linux-0.12/mm/swap.c:203-253 | success takes one page that this scan looks at, there is one resident page less, and no task notices; failure changes nothing and means that every page that could be taken is one this scan does not look at |
| `Paging.Memory.GetFreePage` | linux/linux-0.12/mm/swap.c:267-295 | the last free frame, zeroed, named by nobody, counted once; no task's memory changes; nothing is evicted while a frame is free; 0 only if no frame is free and no page that the scan looks at can be taken, with every task's memory intact |
| `Paging.Memory.SwapIn` | linux/linux-0.12/mm/swap.c:117-145 | the page comes back, its slot is free again, and no task's memory changes |
| `Paging.Memory.UnWpPage` | linux/linux-0.12/mm/memory.c:354-376 | no copy exactly for the sole user of a page above the first megabyte, and then the entry becomes writable; otherwise a writable copy; no task's memory changes whenever the entry is safe to write; in general the counts stay right exactly if the allocation did not evict the entry itself |
| `Paging.Memory.Store` | linux/linux-0.12/mm/memory.c:354-376 | a store through a writable entry changes one byte of one task's memory and nothing any other task sees |
| `Paging.Memory.UserWrite` | linux/linux-0.12/mm/memory.c:398-420 | a task's write, with the fault it may take, changes that byte of that task only, or nothing at all; if the fault's allocation evicted the entry itself the counts are wrong afterwards, which a safe page excludes |
| `Paging.Memory.WriteVerify` | linux/linux-0.12/mm/memory.c:428-444 | as un_wp_page, for a page the kernel is about to write; complains exactly if the page is not present or writable |
| `Paging.Memory.NewTable` | linux/linux-0.12/mm/memory.c:219-222 | a directory slot gets an empty page table and no task's memory changes |
| `Paging.Memory.PutPage` | linux/linux-0.12/mm/memory.c:269-342 | the page is mapped and, if it is in the caller's hands, shown there and nowhere else; warns exactly about a page that does not exist or has not one user, and maps that too |
| `Paging.Memory.TryToShare` | linux/linux-0.12/mm/memory.c:484-533 | shares exactly a page that is present, clean and above the first megabyte, unless memory runs out for a missing page table; every task reads the same memory as before, exactly if that allocation left the page in place; a table that is there or a free frame ensures that |
| `Paging.Memory.SharePage` | linux/linux-0.12/mm/memory.c:551-576 | shares, or runs out of memory trying, exactly if the image can be shared and some task that runs it offers the page; takes it from the last such task; only where the table is missing and no frame is free can it be lost |
| `Paging.Memory.GetEmptyPage` | linux/linux-0.12/mm/memory.c:451-460 | a zeroed page is mapped; no task's memory changes |
| `Paging.Memory.DoNoPage` | linux/linux-0.12/mm/memory.c:589-665 | after the fault the page is there and no task's memory changed: it shows what its backing store holds, shared read-only exactly if a task offers it, else in a writable page of its own, dirty exactly if it came from swap; the one exception is that of share_page |
| `Paging.Memory.FreePageTables` | linux/linux-0.12/mm/memory.c:115-152 | the slots are emptied, all other tasks keep memory and entries; "free free page" and "swap-space bad" cannot happen |
| `Paging.Memory.CopyEntry` | linux/linux-0.12/mm/memory.c:226-250 | the child's entry shows what the parent's shows: both read-only on one frame; a swapped page goes to the parent, its slot to the child; all other memory is as before; fails only if memory ran out |
| `Paging.Memory.CopyPageTables` | linux/linux-0.12/mm/memory.c:193-254 | the child gets exactly the parent's memory; nobody else's changes, whether it succeeds or runs out of memory |
| `Paging.Memory.CopyKernelTable` | linux/linux-0.12/mm/memory.c:204-250 | the first fork: the child shows the kernel's first 160 pages |
| `Paging.Memory.CopyMem` | linux/linux-0.12/kernel/fork.c:64-88 | fork duplicates the parent's memory, or undoes a half-made copy so that every task is as before |
| `PageModel.StepKeepsInv` | linux/linux-0.12/mm/memory.c:241-249 | replacing one entry by a legal one keeps counts, exclusive writability, swap ownership and clean pages right |
| `PageModel.StoreKeepsInv` | linux/linux-0.12/mm/memory.c:354-376 | a store by the only user keeps the whole invariant |
| `PageModel.DropTableKeepsInv` | linux/linux-0.12/mm/memory.c:147-148 | giving an empty page table back keeps the invariant |
| `PageModel.SoleRef` | linux/linux-0.12/mm/memory.c:358-362 | a share count of 1 means that one entry names the frame |
| `PageSteps.ShareBound` | linux/linux-0.12/mm/memory.c:241-249 | a frame has at most 63 entries, so the share count does not overflow its byte |
| `PageOps.CopyKeepsCountsIff` | linux/linux-0.12/mm/memory.c:364-374 | after the copy the counts are right if and only if the allocation left the entry in place |
| `PageRace.CopySafeIff` | linux/linux-0.12/mm/memory.c:364-374 | for a page that un_wp_page copies: the entry outlives every possible allocation if and only if, before the call, a frame is free, or the page is of the first megabyte, or it is dirty and shared |
| `PageRace.CopyAlwaysCountsIff` | linux/linux-0.12/mm/memory.c:364-374 | so un_wp_page keeps the counts right, whatever its allocation evicts, if and only if that holds before the call |
| `PageRace.CleanSurvivesIff` | linux/linux-0.12/mm/swap.c:179-184 | a clean page can be lost to an allocation exactly when no frame is free |
| `PageScan.NoneMissedIff` | linux/linux-0.12/mm/swap.c:203-253 | the scan looks at every page of every task if and only if, before the call, the table where the last scan stopped is still there and, if it stopped at entry 0, the table before it too; or it is the first scan, or there are no tables |
| `PageScan.ComeRound` | linux/linux-0.12/mm/swap.c:214-250 | a scan that has come round without success has looked at everything but what NoneMissedIff excludes |
| `PageRace.PageOverlooked` | linux/linux-0.12/mm/swap.c:203-253 | a concrete state with no free frame in which the scan does not look at the one page that could be dropped, and get_free_page reports that memory is out |
| `PageOps.ShareOutcome` | linux/linux-0.12/mm/memory.c:515-531 | try_to_share reads the page number before it allocates a table: the counts are right afterwards if and only if the entry was still there |
| `PageRace.ShareAlwaysCountsIff` | linux/linux-0.12/mm/memory.c:511-531 | so for a page that is offered and a table that is missing try_to_share keeps the counts right, whatever the allocation evicts, if and only if a frame is free before the call |
| `PageRace.SharedNothingButCounted` | linux/linux-0.12/mm/memory.c:515-531 | a concrete state in which try_to_share copies an entry that has just been evicted and counts the page up for nobody |
| `PageRace.CopyLeftUnwritten` | linux/linux-0.12/mm/memory.c:371-374 | a concrete state in which write_verify leaves a page that may be dropped although it differs from its backing store |
| `PageOps.CopyWithoutStoreIff` | linux/linux-0.12/mm/memory.c:371-374 | the copy is mapped clean: without the store that follows it is harmless exactly if the page equals its backing store |
| `PageOps.SlotHandoverLegal` | linux/linux-0.12/mm/memory.c:232-240 | handing the swap slot to the child and a resident copy to the parent keeps both memories and one owner per slot |
| `PageOps.ShareLegal` | linux/linux-0.12/mm/memory.c:241-249 | making both entries read-only and counting the page up shares it with both showing the same |
| `PageOps.DirtyOutEvicts` | linux/linux-0.12/mm/swap.c:171-178 | writing a dirty page out is unseen by every task |
| `PageOps.CleanOutEvicts` | linux/linux-0.12/mm/swap.c:179-184 | dropping a clean page is unseen by every task |
| `PageOps.SwappedIn` | linux/linux-0.12/mm/swap.c:135-144 | reading a page in is unseen by every task and frees its slot |
| `PageOps.UndoneFork` | linux/linux-0.12/kernel/fork.c:83-86 | freeing the half-made copy leaves every task as before the fork |
| `PageRace.SharedPageFreedInUse` | linux/linux-0.12/mm/memory.c:364-366 | a concrete state in which un_wp_page counts a page down to 0 that another task still has mapped |
| `PageRace.KernelStoreSeen` | linux/linux-0.12/mm/memory.c:241-249 | pages of the first megabyte are shared without copying: a store is seen exactly where the page is still named |
| `BufferCache.Task.constructor` | linux/linux-0.12/fs/buffer.c:609-648 | a fresh cache satisfies the invariant and stands for the disk's blocks |
| `BufferCache.Task.Sleep` | linux/linux-0.12/fs/buffer.c:80-87 | the others take any steps the code allows them; this task's buffers keep their blocks, and the history has all those steps |
| `BufferCache.Task.RemoveFromQueues` | linux/linux-0.12/fs/buffer.c:241-266 | takes one buffer out of its chain and the ring; the corruption panic cannot happen |
| `BufferCache.Task.InsertIntoQueues` | linux/linux-0.12/fs/buffer.c:273-294 | puts it at the ring's end and, if it has a device, in front of its chain; all lists are well formed again |
| `BufferCache.Task.FindBuffer` | linux/linux-0.12/fs/buffer.c:302-312 | finds the buffer of a block exactly if there is one |
| `BufferCache.Task.GetHashTable` | linux/linux-0.12/fs/buffer.c:333-357 | finds and holds it; the key check after sleeping never fails, for a held buffer keeps its key |
| `BufferCache.Task.PickUnused` | linux/linux-0.12/fs/buffer.c:393-407 | the unused buffer of least badness, dirt counting more than a lock, the earliest of those in the ring |
| `BufferCache.Task.GetBlk` | linux/linux-0.12/fs/buffer.c:385-443 | whatever others do meanwhile: the buffer of that block, unlocked, with one use more; it returns without a sleep exactly if the buffer is there unlocked, or is not and the best unused one is clean and unlocked |
| `BufferCache.Task.Recycle` | linux/linux-0.12/fs/buffer.c:433-441 | only an unused, clean, unlocked buffer takes a new key |
| `BufferCache.Task.MakeClean` | linux/linux-0.12/fs/buffer.c:411-421 | waits until the chosen buffer is unlocked and clean, or finds it taken |
| `BufferCache.Task.Brelse` | linux/linux-0.12/fs/buffer.c:451-461 | gives one use back; "free free buffer" cannot happen |
| `BufferCache.Task.Bread` | linux/linux-0.12/fs/buffer.c:477-494 | the buffer holds the block that was last stored there, by whichever task, since the cache was fresh; what the disk had then, if none was; a valid, unlocked buffer is returned at once; NULL only if since the call a read of this block failed while this task held its buffer |
| `BufferCache.Task.ReadHeld` | linux/linux-0.12/fs/buffer.c:484-493 | with the buffer held and the read on its way or done: the buffer if it became valid, else NULL and one use less, and then the read failed |
| `CacheRuns.RunOnTheWay` | linux/linux-0.12/fs/buffer.c:484-493 | in every run, a buffer that a task holds and has asked to be read is being read or valid until a read of it fails |
| `CacheRuns.HasFailed` | linux/linux-0.12/fs/buffer.c:484-493 | so if it is neither any more, a read of this very block failed since, while the task held its buffer |
| `BufferCache.Task.Store` | linux/linux-0.12/fs/buffer.c:477-494 | the user of a buffer stores into it: from then on this is the block last stored |
| `BufferCache.Task.SyncDev` | linux/linux-0.12/fs/buffer.c:120-149 | whatever others do, each block of the device was in no dirty buffer at some moment since the call, in two passes with a sleep between them; if nobody else is about, nothing is dirty at the end, and once the requests are completed the disk has exactly what the blocks were before the call |
| `BufferCache.Task.WriteDirty` | linux/linux-0.12/fs/buffer.c:120-149 | whatever others do, each block of the device was in no dirty buffer at some moment of the pass, wherever it moved meanwhile |
| `CacheLists.RemovedOk` | linux/linux-0.12/fs/buffer.c:241-266 | removing from doubly linked lists leaves lists of the others |
| `CacheLists.InsertedOk` | linux/linux-0.12/fs/buffer.c:273-294 | inserting leaves lists of all buffers |
| `CacheModel.QuietIsRelied` | linux/linux-0.12/fs/buffer.c:333-443 | what a task does between sleeps is within what every other task relies on |
| `CacheSteps.RecycledQuiet` | linux/linux-0.12/fs/buffer.c:433-441 | recycling changes no block of the array and no other task's buffer |
| `CacheSteps.SubmittedQuiet` | linux/linux-0.12/fs/buffer.c:120-149 | queueing a request changes no block of the array |
| `CacheSteps.CompletedQuiet` | linux/linux-0.12/fs/buffer.c:80-87 | the completion of a request changes no block of the array |
| `CacheSteps.WroteArray` | linux/linux-0.12/fs/buffer.c:477-494 | a store into a buffer changes exactly that block of the array |
| `CacheSteps.SyncReachesDisk` | linux/linux-0.12/fs/buffer.c:120-149 | with all requests completed and no dirty buffer the disk equals the array |
| `CacheRuns.RunKeepsInv` | linux/linux-0.12/fs/buffer.c:241-494 | every run of any tasks and the disk, with steps that assume only what the code checks, keeps one buffer per block, the ring and the chains, and b_count the number of uses of all tasks |
| `CacheRuns.HeldKeepsBlock` | linux/linux-0.12/fs/buffer.c:333-443 | in every run a buffer that a task holds still is the block for which it got it |
| `CacheRuns.ReadsLastWritten` | linux/linux-0.12/fs/buffer.c:333-494 | in every run every block reads as the last block that any task stored for it, else as at the start |
| `CacheRuns.ValidIsLastWritten` | linux/linux-0.12/fs/buffer.c:477-494 | so what a valid buffer shows is that block |
| `CacheRuns.OthersRespect` | linux/linux-0.12/fs/buffer.c:333-461 | whatever the others and the disk do, in any number of steps, a task keeps what it holds |
| `CacheRuns.PassSettles` | linux/linux-0.12/fs/buffer.c:127-135 | a pass that met each buffer clean once has met each block of the device so |
| `CacheRuns.SyncedReachesDisk` | linux/linux-0.12/fs/buffer.c:120-149 | once the requests of a sync are completed, each block was on the disk at some moment since the call as it read then |
| `CacheSteps.FailedQuiet` | linux/linux-0.12/fs/buffer.c:484-493 | the end of a read that failed changes no block of the array |
| `BufferCache.EveryRunIsLawful` | linux/linux-0.12/fs/buffer.c:80-87 | whatever the others can do in some state is covered by what is assumed about them |
| `CacheSteps.FreshCache` | linux/linux-0.12/fs/buffer.c:609-648 | the initial lists are well formed |
| `FileSystem.Volume.FindFirstZero` | linux/linux-0.12/fs/bitmap.c:57-73 | the first clear bit of a bitmap block |
| `FileSystem.Volume.NewBlock` | linux/linux-0.12/fs/bitmap.c:121-168 | the first free zone, its bit number - s_firstdatazone + 1 set, its block zeroed; 0 only if the disk is full, and then at most a bit behind the last zone is set |
| `FsShrink.TailGrown` | linux/linux-0.12/fs/bitmap.c:143-152 | a bit behind the last zone is nobody's: setting it changes nothing that a file sees |
| `FileSystem.Volume.FreeBlock` | linux/linux-0.12/fs/bitmap.c:81-114 | clears exactly that zone's bit unless the block is busy, and says whether it was clear |
| `FileSystem.Volume.BMap` | linux/linux-0.12/fs/inode.c:120-226 | the number in the inode for blocks 0 to 6, in the block of its seventh zone up to 518, behind two of them from there; with create, blocks are added on the way and no other number and no byte of any file changes; 0 then only if the disk is full; panics exactly for blocks no file can have |
| `FileSystem.Volume.DoubleIndirect` | linux/linux-0.12/fs/inode.c:187-226 | the same for the double-indirect part |
| `FileSystem.Volume.FreeIndAt` | linux/linux-0.12/fs/truncate.c:15-48 | frees what one index block names, then the block; nothing else |
| `FileSystem.Volume.FreeDindAt` | linux/linux-0.12/fs/truncate.c:57-88 | the same for the double-indirect block |
| `FileSystem.Volume.Truncate` | linux/linux-0.12/fs/truncate.c:96-141 | when it is done exactly the zones of this inode were freed and its size is 0; other files keep every byte; it is not done only if each of its passes met a busy block |
| `FileSystem.Volume.Delete` | linux/linux-0.12/fs/inode.c:301-306 | the last iput of an unlinked file frees exactly its zones, or each pass met a busy block |
| `FileSystem.Volume.FileRead` | linux/linux-0.12/fs/file_dev.c:26-60 | the bytes of the file, zeros in holes, and the place behind them; panics exactly where the block number is out of range |
| `FsSteps.FileByteIs` | linux/linux-0.12/fs/inode.c:120-226 | where a byte of a file stands on the disk: in the zone named by the inode, by the block of its seventh zone, or by two blocks; if it is not 0, in a data zone |
| `FileSystem.Volume.FileWrite` | linux/linux-0.12/fs/file_dev.c:71-121 | the bytes written, and no other byte of any file, change; a short count means the disk is full; appending starts at the size; -1 for nothing written |
| `FsModel.BitMeansNamed` | linux/linux-0.12/fs/bitmap.c:121-168 | with no allocation under way a bit is set exactly when one place of one inode names the zone |
| `FsModel.SetPtrElsewhere` | linux/linux-0.12/fs/inode.c:120-226 | a store into one index block changes one number of one file |
| `FsSteps.AddedOk` | linux/linux-0.12/fs/inode.c:129-132 | adding a fresh, zeroed block changes no byte of any file |
| `FsSteps.ReleasedOk` | linux/linux-0.12/fs/truncate.c:30-39 | freeing a block keeps bits and owners in step |
| `FsSteps.StoredOk` | linux/linux-0.12/fs/file_dev.c:92-112 | writing into one block changes those bytes of that file only |
| `FsShrink.AllGone` | linux/linux-0.12/fs/truncate.c:96-141 | with the nine zones cleared nothing of the tree is left |
| `FsShrink.FilesAreByteArrays` | linux/linux-0.12/fs/file_dev.c:71-121 | after any history of writes to any files each byte of each file is the last one written there |
| `FsShrink.ReadsLastWritten` | linux/linux-0.12/fs/file_dev.c:26-121 | a read after a history that began with an empty file returns the last byte written at each offset, 0 where none was |
| `FsSteps.LateStoreIff` | linux/linux-0.12/fs/inode.c:129-132 | a block created for a place that others may have filled while new_block slept: each zone in use is still named by one place if and only if the place is still empty |
| `FsSteps.BlockCreatedTwice` | linux/linux-0.12/fs/inode.c:129-132 | a concrete file system in which storing the second zone leaves the first in nobody's file |
| `Malloc.Allocator.Alloc` | linux/linux-0.12/lib/malloc.c:173-245 | whatever runs while it sleeps: an object of the smallest size that is large enough, not this task's before, overlapping no live object; the task's other objects keep place and contents; it sleeps exactly if no bucket of that size has room, else it takes the first free slot of the first that has; panics exactly for more than a page |
| `Malloc.Allocator.FreeS` | linux/linux-0.12/lib/malloc.c:266-321 | with interrupts anywhere in its search and whatever they do to the chains: a log of the walks of that search, and the outcome for what it found. If no walk was thrown off: the object is gone, the page goes back exactly if nothing is left on it, a size hint fails exactly if it is too large. Otherwise, for each thing it can find: the right descriptor by its own or by another chain (then it panics exactly for the last object of a page), a free descriptor (the object stays taken, owned by nobody), nothing (it panics, and nothing changes) |
| `Malloc.Allocator.FindInChain` | linux/linux-0.12/lib/malloc.c:283-287 | the walk of one chain, however often it is interrupted, ends where a walk from the descriptor it last went on from leads in the heap as it is then; it goes round for ever only if it once stood on a descriptor that was being set up |
| `BucketSearch.CursorKept` | linux/linux-0.12/lib/malloc.c:283-287 | what others do leaves the walk right as long as the descriptor it stands on is in its chain afterwards |
| `BucketSearch.ThrownOffIff` | linux/linux-0.12/lib/malloc.c:300-316 | a walk that stands on a descriptor is thrown off by exactly the step that gives this descriptor back |
| `BucketSearch.FindsIff` | linux/linux-0.12/lib/malloc.c:283-287 | from any descriptor in any list: the search for a live object finds its descriptor if and only if it stands in that one's chain and has not passed it |
| `BucketSearch.FindsElse` | linux/linux-0.12/lib/malloc.c:283-287 | otherwise it finds nothing, or the first free descriptor from there on that has kept the page's address, if one has |
| `BucketSearch.ResumedFindsIff` | linux/linux-0.12/lib/malloc.c:283-287 | one step of the others while the search stands in the object's own chain: resumed, it finds the object if and only if that step did not give back the very descriptor it stands on |
| `BucketSearch.ResumedPassesIff` | linux/linux-0.12/lib/malloc.c:283-287 | the same in an earlier chain: it goes on to the next chain if and only if that descriptor was not given back, or no free descriptor from there on has kept the page's address |
| `BucketSearch.StraightWalk` | linux/linux-0.12/lib/malloc.c:283-287 | a walk that was never thrown off finds the descriptor exactly if it is in that chain |
| `BucketSearch.WalkFindsIff` | linux/linux-0.12/lib/malloc.c:283-287 | a walk after any interrupts, with any number of steps in each, unless it stood on a descriptor being set up: when it finds the object, when nothing, when a stale free descriptor |
| `BucketFree.RightRan` | linux/linux-0.12/lib/malloc.c:283-321 | after a right find the object is gone, its page exactly if it is empty, and no other task notices; even if prev went stale there is no panic |
| `BucketFree.MisledRan` | linux/linux-0.12/lib/malloc.c:283-321 | found along another chain with a stale prev: the object is gone, but "chains corrupted" is printed exactly if it was the last on its page |
| `BucketFree.StaleRan` | linux/linux-0.12/lib/malloc.c:283-321 | a free descriptor was found: its refcnt wraps to 65535 and the object stays taken, with no task that has it |
| `BucketSearch.SearchAstray` | linux/linux-0.12/lib/malloc.c:283-289 | a concrete heap in which an interrupt gives back that descriptor, and the walk goes on along the free descriptors and panics about a good address |
| `Malloc.Allocator.InitBucketDesc` | linux/linux-0.12/lib/malloc.c:140-165 | 256 more free descriptors, chained before the ones that were free when the page had been found |
| `Malloc.Allocator.NewBucket` | linux/linux-0.12/lib/malloc.c:205-234 | a descriptor with a threaded page joins its chain although others may have run twice meanwhile |
| `Malloc.Allocator.Thread` | linux/linux-0.12/lib/malloc.c:222-229 | each slot of the page leads to the next |
| `Malloc.Allocator.Unlink` | linux/linux-0.12/lib/malloc.c:286-317 | what is left once the descriptor was found, rightly or not: the state of Spliced, with the panic exactly where no predecessor is found and the descriptor is not the first |
| `Malloc.Allocator.FindPrev` | linux/linux-0.12/lib/malloc.c:293-297 | the descriptor looked at before, if it still leads to this one, else one of the chain that does, 0 if there is none |
| `Malloc.IdleIsLawful` | linux/linux-0.12/lib/malloc.c:30-46 | what is assumed about other tasks can be met |
| `BucketModel.ObjectsApart` | linux/linux-0.12/lib/malloc.c:236-244 | live objects never overlap |
| `BucketModel.RefcntZeroIffDead` | linux/linux-0.12/lib/malloc.c:286-287 | refcnt is 0 exactly when the page has no live object |
| `BucketModel.OneList` | linux/linux-0.12/lib/malloc.c:54-60 | each descriptor is in exactly one list |
| `BucketModel.KeepsTransitive` | linux/linux-0.12/lib/malloc.c:30-46 | what one step leaves to another task, several steps leave |
| `BucketSteps.PopKeeps` | linux/linux-0.12/lib/malloc.c:211-212 | taking a free descriptor harms no other task |
| `BucketSteps.OpenKeeps` | linux/linux-0.12/lib/malloc.c:215-234 | a new bucket harms no other task |
| `BucketSteps.TakeFacts` | linux/linux-0.12/lib/malloc.c:236-239 | the first free slot becomes a live object that was not one, and all lists stay well formed |
| `BucketSteps.TakeKeeps` | linux/linux-0.12/lib/malloc.c:236-239 | taking a slot harms no other task |
| `BucketSteps.GiveKeeps` | linux/linux-0.12/lib/malloc.c:283-285 | giving a slot back harms no other object |
| `BucketSteps.CloseKeeps` | linux/linux-0.12/lib/malloc.c:300-316 | giving an empty page back harms no other task |
| `BucketSteps.InitKeeps` | linux/linux-0.12/lib/malloc.c:140-165 | adding descriptors harms no other task |
| `SleepModel.StepKeepsInv` | linux/linux-0.12/kernel/sched.c:245-298 | every step of every task keeps each queue a list of its waiters |
| `SleepModel.QueueListsWaiters` | linux/linux-0.12/kernel/sched.c:245-298 | after any run, following the word and the saved pointers lists exactly the waiters, each once, newest first |
| `SleepModel.NeverNull` | linux/linux-0.12/kernel/sched.c:263-269 | the NULL and the stopped/zombie messages are unreachable |
| `SleepModel.LeavesFromTop` | linux/linux-0.12/kernel/sched.c:263-269 | only the newest waiter leaves |
| `SleepModel.OneWakeUpSuffices` | linux/linux-0.12/kernel/sched.c:287-298 | in a queue of __sleep_on, after one wake_up some waiter can run at every moment until the queue has been empty |
| `SleepModel.StaysActive` | linux/linux-0.12/kernel/sched.c:258-269 | the step behind it |
| `SleepModel.MemberStepsCount` | linux/linux-0.12/kernel/sched.c:258-269 | each run of a waiter brings the queue closer to being empty |
| `SleepModel.EverybodyLeaves` | linux/linux-0.12/kernel/sched.c:258-269 | a woken queue empties after at most two steps per waiter |
| `SleepModel.StallsIff` | linux/linux-0.12/fs/select.c:95-115 | on any queue: exactly which step leaves waiters without one that can run, namely the last that could going to sleep in select, or sleeping on for a newer waiter of another queue that does not wait here |
| `SleepModel.SelectCanStall` | linux/linux-0.12/fs/select.c:95-115 | a concrete state in which a select waiter leaves a queue without anybody who can run |
| `SleepQueues.Process.SleepOn` | linux/linux-0.12/kernel/sched.c:245-270 | between joining and leaving, this task only defers; it leaves as the newest waiter, the word then names whom it named at the call, and that task can run |
| `SleepQueues.Process.WakeUp` | linux/linux-0.12/kernel/sched.c:287-298 | the newest waiter can run, all else is as before; no message |
| `SleepModel.StepMeans` | linux/linux-0.12/kernel/sched.c:245-298 | what each kind of step does to the word, to the saved pointers and to who can run |
| `SleepQueues.Process.AddWait` | linux/linux-0.12/fs/select.c:68-84 | joins the queue and the table unless it is there already |
| `SleepQueues.Process.FreeWait` | linux/linux-0.12/fs/select.c:95-115 | leaves every queue of the table, doing nothing else; no message |
| `SleepQueues.CanBeResumed` | linux/linux-0.12/kernel/sched.c:245-298 | a waiter can always be brought back by interrupts and the newer waiters |
| `TreeModel.AuditQuiet` | linux/linux-0.12/kernel/exit.c:89-149 | audit_ptree prints nothing about a linked task |
| `TreeModel.AuditOfHalfMade` | linux/linux-0.12/kernel/exit.c:89-149 | during a fork it stays quiet about the new task exactly if the parent has no children and no siblings |
| `TreeModel.DescendsFromInit` | linux/linux-0.12/kernel/exit.c:324-356 | every task but the idle one descends from init |
| `TreeModel.InitHasChild` | linux/linux-0.12/kernel/exit.c:348-353 | init has a child whenever there is another task, so do_exit may follow task[1]->p_cptr |
| `TreeModel.SiblingsAreChildren` | linux/linux-0.12/kernel/exit.c:395-427 | the walk over siblings ends and meets exactly the children, each once |
| `TreeModel.KidsDistinct` | linux/linux-0.12/kernel/exit.c:89-149 | the sibling links leave no room for a task listed twice |
| `TreeModel.ParentsLive` | linux/linux-0.12/kernel/exit.c:277-378 | nobody's parent is a zombie |
| `TreeSteps.MakeOkIff` | linux/linux-0.12/kernel/fork.c:117-125 | putting the new task into its slot keeps task[] right if and only if the slot is still empty |
| `TreeSteps.JoinOk` | linux/linux-0.12/kernel/fork.c:193-202 | linking the child keeps the tree |
| `TreeSteps.ExitOk` | linux/linux-0.12/kernel/exit.c:324-356 | re-parenting keeps the tree |
| `TreeSteps.ReapOk` | linux/linux-0.12/kernel/exit.c:38-52 | unlinking a dead task keeps the tree |
| `TreeSteps.UnmakeOk` | linux/linux-0.12/kernel/fork.c:154-158 | giving a half-made task up keeps the tree |
| `TreeRuns.MakePidIff` | linux/linux-0.12/kernel/fork.c:213-233 | the new number is unique if and only if nobody took it while the fork slept |
| `TreeRuns.OthersKeep` | linux/linux-0.12/kernel/fork.c:110-205 | whatever forks, exits, reaps and signals the others get through, the tree is one and a sleeping fork finds its parent and its half-made child as they were |
| `TreeRuns.OtherMakes` | linux/linux-0.12/kernel/fork.c:117-125 | a new task in another slot leaves a sleeping fork what it relies on |
| `TreeRuns.OtherJoins` | linux/linux-0.12/kernel/fork.c:193-202 | so does linking another child in |
| `TreeRuns.OtherExits` | linux/linux-0.12/kernel/exit.c:277-378 | so does an exit by another task |
| `TreeRuns.OtherReaps` | linux/linux-0.12/kernel/exit.c:30-55 | and the reaping of a dead task |
| `ProcessTree.EveryRunIsHarmless` | linux/linux-0.12/kernel/fork.c:110-205 | so any such run is covered by what a sleeping fork assumes about the others |
| `ProcessTree.IdleIsLawful` | linux/linux-0.12/kernel/fork.c:110-205 | and what it assumes can be met |
| `TreeRuns.SlotClash` | linux/linux-0.12/kernel/fork.c:110-128 | a reachable state in which two forks chose the same slot and number: one task drops out of task[], and two tasks have one number |
| `ProcessTree.ForkReturnsWrongNumber` | linux/linux-0.12/kernel/fork.c:128-204 | a state reached from boot in which a fork, delayed by another, makes its child with number 3 and returns 4, the number of the other child |
| `TreeRuns.AuditComplains` | linux/linux-0.12/kernel/exit.c:89-149 | a reachable state in which audit_ptree complains about a half-made task |
| `TreeSteps.ChangeOk` | linux/linux-0.12/kernel/exit.c:407-413 | changing state, group and exit code of a task that stays alive keeps the tree |
| `ProcessTree.Kernel.FindEmptyProcess` | linux/linux-0.12/kernel/fork.c:213-233 | the retry loop ends, with a number no task and no group has, every number passed over being in use; and the first empty slot, or -EAGAIN exactly if there is none |
| `ProcessTree.Kernel.CopyProcess` | linux/linux-0.12/kernel/fork.c:110-205 | the child is linked in as the youngest child, runnable, in its parent's group, or nothing is left of it, exactly if there was no memory for it; if the slot was taken meanwhile, the task in it drops out and the tree is not one any more |
| `ProcessTree.Kernel.DoExit` | linux/linux-0.12/kernel/exit.c:277-378 | dead with its exit code, childless, all children with init before its own, nobody else's number, group or state changed; audit_ptree prints nothing unless a fork is under way; if it is init, the tree is none any more |
| `TreeSteps.InitExitBreaks` | linux/linux-0.12/kernel/exit.c:348-353 | if init exits with children they are put in front of themselves: nobody's, and the walk along the siblings never ends |
| `ProcessTree.Kernel.AuditPtree` | linux/linux-0.12/kernel/exit.c:89-149 | warns exactly if a check fails |
| `ProcessTree.Kernel.AuditOne` | linux/linux-0.12/kernel/exit.c:94-147 | warns about one task exactly if one of its four links or of its neighbours' is wrong |
| `ProcessTree.Kernel.Release` | linux/linux-0.12/kernel/exit.c:30-55 | the dead task leaves slot and tree; everybody else keeps number, group, state, and their children in their order; no panic |
| `ProcessTree.Kernel.ScanChildren` | linux/linux-0.12/kernel/exit.c:393-443 | a child is reported exactly if one of the asked number, of the caller's group for 0, of the group -pid below -1, or any for -1, is dead, or with WUNTRACED stopped and not reported; it is the first such, reaped or marked, its number and status returned; -ECHILD exactly if no child so asked for is left |
| `ProcessTree.Kernel.WaitPid` | linux/linux-0.12/kernel/exit.c:386-444 | scans until a child is reported, there is none to wait for, WNOHANG or a signal ends the wait; it sleeps exactly if a living child was asked for, none can be reported and it may wait; the scan it returns with is exact for the tree after the last sleep; -ERESTARTSYS only after a sleep that ended with a signal |
| `ProcessTree.ScanSays` | linux/linux-0.12/kernel/exit.c:393-443 | what a scan says in the fields of the children: who is reported, when 0, when -ECHILD |
| `SchedModel.RunKeeps` | linux/linux-0.12/kernel/sched.c:161-222 | over every run priorities stay positive in 32 bits; and counters between 0 and 2M-1, for a largest priority M of at most 2^30 |
| `SchedModel.RechargeIff` | linux/linux-0.12/kernel/sched.c:216-220 | recharging keeps those bounds from every state within them if and only if M is at most 2^30 |
| `SchedModel.RechargeMeans` | linux/linux-0.12/kernel/sched.c:216-220 | every task but the idle one, runnable or not, gets half of what it has left and its priority |
| `SchedModel.NiceStarves` | linux/linux-0.12/kernel/sched.c:539-545 | a concrete run from such a state in which nice takes a priority above that, a counter wraps, and schedule runs the idle task although another is runnable |
| `SchedModel.TwoPasses` | linux/linux-0.12/kernel/sched.c:197-222 | after one recharge some runnable task has time: the loop ends in its second pass |
| `SchedModel.BoundedWait` | linux/linux-0.12/kernel/sched.c:197-222 | with priorities up to M <= 2^30, a task that stays runnable is chosen before 2 * NR_TASKS * (2M-1) ticks are charged to tasks with time left |
| `SchedModel.BestUnique` | linux/linux-0.12/kernel/sched.c:205-211 | the choice is determined: largest counter, last slot, negative counters passed over |
| `Scheduler.Cpu.Alert` | linux/linux-0.12/kernel/sched.c:168-192 | of each task: SIGALRM exactly if its alarm is over, its timeout cleared exactly if over, runnable exactly if it was or was interruptible with an expired timeout or a signal that is not blocked; the idle task and empty slots as before |
| `Scheduler.Cpu.Pick` | linux/linux-0.12/kernel/sched.c:198-211 | the runnable task with the largest counter from 0 on, the last such slot |
| `Scheduler.Cpu.Schedule` | linux/linux-0.12/kernel/sched.c:161-223 | at most one recharge, exactly if all runnable tasks are out of time, then the best task |
| `Scheduler.Cpu.DoTimer` | linux/linux-0.12/kernel/sched.c:470-477 | charges the current task one tick and reschedules exactly when its time is up outside the kernel |
| `Scheduler.Cpu.SysNice` | linux/linux-0.12/kernel/sched.c:539-545 | the increment is taken off the priority, in 32 bits, unless it would leave the positive range; all other tasks are as before |
| `PcSystem.BxPcSystem.ActivateTimerTicks` | linux/handlers/src/bochs-2.2.5/pc_system.cc:441-472 | fires next after the period, at least 1 tick from now; the countdown is shortened to that if need be; now and the other timers are as before, so the clock behind it sees just the activation |
| `PcSystem.BxPcSystem.DeactivateTimer` | linux/handlers/src/bochs-2.2.5/pc_system.cc:506-514 | the timer is off and nothing else changes |
| `PcSystem.BxPcSystem.CountdownEvent` | linux/handlers/src/bochs-2.2.5/pc_system.cc:307-371 | the state and the firings are those of the model's event; the countdown is sound again |
| `PcSystem.BxPcSystem.ServiceAll` | linux/handlers/src/bochs-2.2.5/pc_system.cc:325-354 | the timers that are active and due, and no others: a continuous one is put off by its period, any other is off; and the earliest deadline that is left |
| `PcSystem.BxPcSystem.Tick1` | linux/handlers/src/bochs-2.2.5/pc_system.h:106-110 | one tick of the engine |
| `PcSystem.BxPcSystem.TickN` | linux/handlers/src/bochs-2.2.5/pc_system.h:111-122 | ends with the same state and the same firings at the same times as n single ticks |
| `PcSystem.BxPcSystem.RegisterTimerTicks` | linux/handlers/src/bochs-2.2.5/pc_system.cc:250-305 | the first free slot is set up, the others are untouched, the countdown stays sound; there is none exactly if the table is full, and then nothing was changed yet |
| `PcSystem.BxPcSystem.UnregisterTimer` | linux/handlers/src/bochs-2.2.5/pc_system.cc:516-544 | the slot is free again, or the call is refused |
| `PcSystem.BxPcSystem.TimeUsecSequential` | linux/handlers/src/bochs-2.2.5/pc_system.cc:419-433 | the values handed out grow strictly |
| `TimerModel.Tick1Refines` | linux/handlers/src/bochs-2.2.5/pc_system.cc:307-371 | one countdown behaves as a plain clock with absolute deadlines |
| `TimerModel.TicksRefine` | linux/handlers/src/bochs-2.2.5/pc_system.cc:307-371 | so do n ticks |
| `TimerModel.TicksToEvent` | linux/handlers/src/bochs-2.2.5/pc_system.h:111-116 | a whole countdown is one event |
| `TimerModel.TicksAdd` | linux/handlers/src/bochs-2.2.5/pc_system.h:111-122 | batches of ticks add up |
| `TimerModel.ExactDelivery` | linux/handlers/src/bochs-2.2.5/pc_system.cc:325-354 | an active timer left alone fires at exactly its deadline and not before |
| `TimerModel.TickFires` | linux/handlers/src/bochs-2.2.5/pc_system.cc:325-371 | in one tick a timer that no handler touches fires exactly at its deadline; a continuous one has its next deadline a period later, any other is off |
| `TimerModel.FiresPeriodically` | linux/handlers/src/bochs-2.2.5/pc_system.cc:337-371 | over any number of ticks such a continuous timer fires exactly at its deadline and then every period, once each, and its deadline is the next of these |
| `TimerModel.FiresOnce` | linux/handlers/src/bochs-2.2.5/pc_system.cc:337-371 | one that is not continuous fires once, at its deadline, and never again |
| `TimerModel.FiresNever` | linux/handlers/src/bochs-2.2.5/pc_system.cc:337-371 | and one that is off does not fire |
| `TimerModel.EnginePeriodic` | linux/handlers/src/bochs-2.2.5/pc_system.cc:307-371 | the engine with its countdown fires a continuous timer at exactly those ticks |
| `TimerModel.EngineOnce` | linux/handlers/src/bochs-2.2.5/pc_system.cc:307-371 | and any other once |
| `TimerModel.TickInOrder` | linux/handlers/src/bochs-2.2.5/pc_system.cc:356-371 | the timers that fire in one tick are called in the order of their slots |
| `PipeRing.Pipe.ReadPipe` | linux/linux-0.12/fs/pipe.c:23-59 | what is read is exactly what this task took meanwhile, at its own places in the stream and in order; the next bytes in one piece unless it slept; it ends early only with the pipe empty, and the writers gone, a signal, or its sleeps used up; -ERESTARTSYS only with nothing read, a signal and a writer |
| `PipeRing.Pipe.WritePipe` | linux/linux-0.12/fs/pipe.c:69-102 | what is written is exactly what this task put meanwhile, at its own places at the end of the stream and in order; in one piece unless it slept; it ends early only with the pipe full, and the readers gone or its sleeps used up; SIGPIPE exactly if the readers were gone, then -1 if nothing was written |
| `PipeRing.FirstInFirstOut` | linux/linux-0.12/fs/pipe.c:23-102 | for every run of any readers and writers: all bytes taken, in order, are the front of all bytes put, and the rest is pending |
| `PipeRing.EachByteOnce` | linux/linux-0.12/fs/pipe.c:23-102 | every byte taken (and put) is of exactly one task, at one place: none is lost, none is taken twice |
| `PipeRing.PlacesHold` | linux/linux-0.12/fs/pipe.c:23-102 | the bytes of a task stand where its places say |
| `PipeRing.EveryRunIsLawful` | linux/linux-0.12/fs/pipe.c:23-102 | whatever the others can do to a ring is covered by what is assumed about them |
| `PipeRing.PendingBound` | linux/linux-0.12/include/linux/fs.h:82-86 | never more than PAGE_SIZE - 1 bytes are pending |
| `PipeRing.Masked` | linux/linux-0.12/include/linux/fs.h:84 | the size is the difference of the counters masked with PAGE_SIZE - 1 |
| `PipeRing.WrittenOk` | linux/linux-0.12/fs/pipe.c:86-100 | a chunk appends to what is pending, around the end of the page |
| `PipeRing.ReadOk` | linux/linux-0.12/fs/pipe.c:42-56 | a chunk is the front of what is pending |
| `PipeRing.HeadFirstIff` | linux/linux-0.12/fs/pipe.c:97-101 | between moving the head and storing the bytes the pipe is FIFO exactly if the stale bytes are the new ones |
| `PipeRing.HeadFirstBreaks` | linux/linux-0.12/fs/pipe.c:97-101 | a concrete empty pipe and byte for which it is not |
| `PipeRing.TailFirstIff` | linux/linux-0.12/fs/pipe.c:50-55 | read_pipe moves the tail before it copies n bytes out: they are the ones it counted, whatever is written meanwhile, if and only if n is 1 |
| `PipeRing.TailFirstBreaks` | linux/linux-0.12/fs/pipe.c:50-55 | a concrete pipe with two bytes to read and a write that overwrites them |
| `ExecArgs.ArgSpace.CopyStrings` | linux/linux-0.12/fs/exec.c:207-265 | below p stand the strings in order, each with its 0; memory above is untouched; otherwise a page was refused, or the strings are longer than the room below p and the copy ran out of it |
| `ExecArgs.UserStack.CreateTables` | linux/linux-0.12/fs/exec.c:107-133 | argc, the two tables, and pointers to the start of each string, all below the strings, from a multiple of 4 down |
| `ExecArgs.Program` | linux/linux-0.12/fs/exec.c:486-527 | argv[i] and envp[i] of the new program lead to exactly the strings given; unless a page was refused it succeeds if and only if they fit, and says when it runs out of the argument space instead of failing |
| `ExecArgs.Script` | linux/linux-0.12/fs/exec.c:418-455 | the arguments become interpreter name, its argument, script, argv[1..], as far as argc counts; unless a page was refused it succeeds if and only if they fit, and runs out of the argument space exactly if they do not and no call of copy_strings before the last fills it to the last byte |
| `ExecArgs.SplicedIs` | linux/linux-0.12/fs/exec.c:420-454 | place by place: the interpreter's name first, its argument if it has one, the script, then argv[1] and what follows |
| `ExecArgs.SpliceCountsIff` | linux/linux-0.12/fs/exec.c:420-454 | argc counts all of them if and only if argv was not empty |
| `ExecArgs.ParseInterp` | linux/linux-0.12/fs/exec.c:391-413 | finds an interpreter exactly if the line ends in time and is not blank: path, last component, rest |
| `ExecArgs.ArgumentIs` | linux/linux-0.12/fs/exec.c:122-126 | what the i-th argument pointer leads to is the i-th string |
| `ExecArgs.EnvironmentIs` | linux/linux-0.12/fs/exec.c:127-131 | and the i-th environment pointer the one i places behind the arguments |
| `ExecArgs.StringFound` | linux/linux-0.12/fs/exec.c:122-126 | the forward walk meets each string at its start |
| `Printing.Number` | linux/linux-0.12/kernel/vsprintf.c:66-142 | sign, prefix, zeros and digits as asked, padding in one place, max(width, sign + prefix + max(precision, digits)) characters; fails exactly for a base outside 2 to 36 |
| `Printing.Convert` | linux/linux-0.12/kernel/vsprintf.c:104-111 | the digits spell the number, and at most 32 go into tmp |
| `Printing.SkipAtoi` | linux/linux-0.12/kernel/vsprintf.c:24-32 | the value of the leading digits, in 32 bits, and the place behind them |
| `Printing.SpellsOnce` | linux/linux-0.12/kernel/vsprintf.c:104-111 | a number is spelled in one way only |
| `Printing.DigitsMean` | linux/linux-0.12/kernel/vsprintf.c:104-111 | the digits read back as the number |
| `Printing.DigitsSpell` | linux/linux-0.12/kernel/vsprintf.c:104-111 | no leading zero, digits of the table, at most 32 |
| `Printing.PrintedReadsBack` | linux/linux-0.12/kernel/vsprintf.c:24-142 | a number printed in decimal without blanks, sign and prefix is what skip_atoi reads |
| `Printing.PrintedMeans` | linux/linux-0.12/kernel/vsprintf.c:66-142 | sign, zeros and digits read back as the number, negative ones included; a sign only when asked for, a minus exactly for a negative number; the prefix 0, 0x or 0X exactly for base 8 or 16 when asked for |
| `NameModel.MatchIff` | linux/linux-0.12/fs/namei.c:114-141 | match finds exactly the entry in use that stores the name, cut to 14 characters |
| `NameModel.EmptyMatchesDot` | linux/linux-0.12/fs/namei.c:122-125 | the empty name finds "." and nothing else |
| `NameModel.DirIsMap` | linux/linux-0.12/fs/namei.c:173-241 | a directory is a map: no two entries in use have the same name |
| `NameModel.MeaningUnique` | linux/linux-0.12/fs/namei.c:173-241 | and the entries determine that map |
| `NameOps.FileSystem.FindEntry` | linux/linux-0.12/fs/namei.c:173-241 | finds the name exactly if the map has it |
| `NameOps.FileSystem.AddEntry` | linux/linux-0.12/fs/namei.c:268-328 | the first free slot, or one behind the last; fails exactly if a new block is needed and cannot be had |
| `NameOps.FileSystem.Link` | linux/linux-0.12/fs/namei.c:1031-1089 | the map gains the name, the count goes up by one in its byte; refuses directories and existing names; counts stay right if and only if the count was below 255, and from 255 an inode that is not open is freed |
| `NameOps.FileSystem.Create` | linux/linux-0.12/fs/namei.c:592-622 | a new inode with one link and a name; nothing remains after a failure |
| `NameOps.FileSystem.Unlink` | linux/linux-0.12/fs/namei.c:895-951 | the map loses the name, the count goes down, the inode goes with its last link unless it is in use; "nonexistent file" is printed exactly for a count of 0, which only a wrapped count can be |
| `NameOps.FileSystem.Mkdir` | linux/linux-0.12/fs/namei.c:700-772 | a directory with its two entries and two links, entered in its parent, whose count goes up in its byte; counts stay right if and only if that count was below 255 |
| `NameOps.FileSystem.EmptyDir` | linux/linux-0.12/fs/namei.c:777-819 | true exactly if nothing but "." and ".." is left; no bad-directory message |
| `NameOps.FileSystem.Rmdir` | linux/linux-0.12/fs/namei.c:821-893 | only an empty directory goes, its parent's count goes down; right counts stay right, and then an empty directory has two links |
| `NameSteps.LinkOk` | linux/linux-0.12/fs/namei.c:1031-1089 | after link and its iput every inode's count is the number of entries that name it, if and only if the count was below 255 |
| `NameSteps.LinkCountWraps` | linux/linux-0.12/fs/namei.c:1084-1087 | a reachable file system in which the 256th link takes the count to 0: the file is freed, or if it is open unlink meets a "nonexistent file", while 256 entries name it |
| `NameSteps.MkdirCountWraps` | linux/linux-0.12/fs/namei.c:763-768 | a reachable file system in which the 254th subdirectory takes its parent's count to 0 |
| `NameSteps.UnlinkOk` | linux/linux-0.12/fs/namei.c:895-951 | the directories stay well formed whatever the counts are; right counts stay right |
| `NameSteps.MakeOk` | linux/linux-0.12/fs/namei.c:700-772 | after mkdir and its iput the counts are right, "." and ".." included, if and only if the parent's was below 255 |
| `NameSteps.RemoveOk` | linux/linux-0.12/fs/namei.c:821-893 | the removal of an empty directory keeps the tree; right counts stay the number of entries naming the inode |
| `NameSteps.RemoveFacts` | linux/linux-0.12/fs/namei.c:821-893 | an empty directory is named by itself and by the entry that led to it, and by nothing else |

## Left out

- Paging.Memory.WriteVerify: one page; a page that was made writable may be evicted as clean before the kernel's store if several pages are verified first, so the loop of `verify_area` is not modelled.
- Paging.Memory.SwapOut: swap reads and writes are immediate, and no page table comes or goes during a scan.
- Paging.Memory.CopyKernelTable: pages of the first megabyte are shared with the kernel and not copied on write, as in the source (`PageRace.KernelStoreSeen`).
- TLB flushes, `mem_init`, `init_swapping` and `show_mem`; other tasks run during an allocation only in that their pages are evicted.
- BufferCache.Task.SyncDev: `sync_inodes` is activity of others; waiting for a free request slot is not modelled.
- BufferCache.Task.GetBlk: `b_count` is unbounded, where the source has an unsigned char; device 0 stands for no device.
- BufferCache.Task.Store: a client stores whole blocks, and only into a buffer it holds that is valid or unlocked; a write to the disk does not fail.
- `breada`, `bread_page`, `invalidate_buffers`, `check_disk_change`, errors of disk writes and `block_write` as a client of the cache.
- FileSystem.Volume.BMap: blocks are read and written through the cache, seen here as the plain array of blocks that the cache is proved to stand for; reads succeed; no other task runs inside, and `FsSteps.LateStoreIff` says when that would lose a zone.
- FileSystem.Volume.Delete: the part of `iput` that ends a file; `i_count`, inode locking, `iget`, `get_empty_inode`, the inode bitmap and writing inodes back are left out.
- NameOps.FileSystem.Create: the inode number is the one `new_inode` finds; symbolic links are created but not followed, and the text of a link is file content.
- NameOps.FileSystem.FindEntry: ".." at a process root or across a mount, permissions and the sticky bit are left out, and so is what other tasks do between finding no entry and adding one.
- Path walking, `mknod` and time stamps.
- Malloc.Allocator.InitBucketDesc: descriptors are records; only objects live in addressed memory.
- Malloc.Allocator.FreeS: for a walk that once stood on a descriptor another task had taken and not yet filled in, the outcome is stated for what it finds, but not which that is: the link of such a descriptor is not tracked.
- SleepQueues.Process.FreeWait: the table of one task; `do_select` itself, and other writers of a queue word, are left out.
- ProcessTree.Kernel.CopyProcess: why memory ran out is not stated; after a clash the model stops with the tree that is none; files, directories and the first fork by the idle task are left out.
- ProcessTree.Kernel.WaitPid: the wait takes a number of allowed sleeps; copying the status to user memory and adding up times are left out.
- ProcessTree.Kernel.DoExit: memory, files, signals, process groups and terminals are left out; the idle task does not exit.
- SchedModel.BoundedWait: forks and changes of priority restart the count, so none happen in the window.
- Scheduler.Cpu.DoTimer: the part about the running task; the `add_timer` list, screen, beeper and floppy counters are left out; `jiffies`, timeouts and alarms are unbounded.
- PcSystem.BxPcSystem.RegisterTimerTicks: slot 0 is in use; with a full table the model stops where the source writes behind it; handlers do not register timers; ticks are unbounded where the source has 64 bits, casts to 32 bits are modelled.
- PcSystem.BxPcSystem.TimeUsecSequential: the clock in microseconds is a parameter; its conversion from ticks is left out.
- PipeRing.Pipe.ReadPipe: copying to user memory does not sleep; `PipeRing.TailFirstIff` says what would happen. Whom readers and writers wake is left out.
- PipeRing.Pipe.WritePipe: copying from user memory does not sleep; `PipeRing.HeadFirstIff` says what would happen.
- ExecArgs.ArgSpace.CopyStrings: where the copy leaves its page table, the model stops.
- ExecArgs.Program: headers, credentials and loading are left out.
- Printing.Number: the rest of `vsprintf`; width and precision are unbounded.
- Linux device drivers, sockets, assembler stubs, the other Bochs devices and the repository's user programs.
