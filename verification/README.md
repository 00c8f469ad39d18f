# A verified model of the agent kernel

This project models the parts of a small teaching operating system whose correctness depends on more
than one function, and proves what each is for. The system is an xv6 kernel for RISC-V extended with
a fair scheduler, a chroot jail for a language-model agent, a gate that asks a human before dangerous
system calls, a response cache, and a line protocol to a bridge program on the host.

`dafny verify dfyconfig.toml` checks everything. Each file is one module (`Wrappers.dfy` holds the option type):

| file | what it models |
|---|---|
| `RedoLog.dfy` | the redo log as disk images: all-or-nothing commit under crashes and interrupted recoveries, and the history of committed states over a run |
| `BufferCache.dfy`, `WriteAheadLog.dfy` | the buffer cache and the logging code over it, with one invariant across both: pinning, reservation, what a read returns, which disk images a commit leaves |
| `BlockBytes.dfy`, `Volume.dfy`, `FileSystem.dfy` | the free map, direct and indirect blocks as bytes; allocation, truncation, reading and writing files |
| `ChunkCrash.dfy` | a file-system operation as a log transaction: all or nothing after a crash |
| `PageTables.dfy`, `FreeWalk.dfy`, `Vm.dfy` | physical pages, the free list threaded through them and three-level page tables in memory; mapping, unmapping, growth with rollback, copying, freeing |
| `Umalloc.dfy` | the user heap: a circular, address-ordered, coalescing free list |
| `Scheduler.dfy` | the fair scheduler: fairness and no-starvation bounds, the minimum, wakeup and fork placement |
| `ConfirmGate.dfy` | the confirm protocol between an agent system call, the host and the clock |
| `MinHash.dfy`, `ResponseCache.dfy` | word signatures and the 16-entry cache over an append-only file |
| `Jail.dfy`, `JailRuns.dfy` | path resolution, chroot confinement, and runs of processes over a changing directory tree |
| `Console.dfy`, `Escape.dfy`, `CommandPath.dfy` | line editing, the newline escape, the two command queues, routing, the deny list and the WRITE and CACHE_SET commands end to end |

## How it is put together

Code that changes state is a class whose methods change it; each method is proved against a value-level
specification (a function or relation on the old and new state), and the theorems about whole runs are
lemmas over those specifications. Some predicates carry a marker predicate that is always true; it only
tells the verifier where a fact about all blocks, pages or slots is meant to be used.

Disk blocks, memory pages and log headers are values. A crash of the log is a stop between two block
writes. The lock of a buffer is its `held` flag. Concurrent parts (log operations, the confirm gate,
the scheduler, processes in a jail) are state machines whose steps are what one lock holder does, and
their theorems quantify over every interleaving of steps.

Ghost owners (`owner` of a disk block, `tree` and `data` of a memory page) record who refers to what.
They exist only in the proofs: the theorems speak of slots, bits, translations and free lists.

## What the code does that its documentation does not say

- `log_write` panics on a full log even for a block that would only be absorbed
  (`WriteAheadLog.Log.LogWrite`); the budget of begin_op keeps every operation away from that case.
- The log may hold as many blocks as there are buffers, so a transaction begin_op admits can leave
  commit without a buffer (`WriteAheadLog.FullTransactionPanics`); the exact condition is
  `WriteAheadLog.FreeWhileLogSmall`.
- `morecore` passes its size as an int, which is right only up to 0x7FFFFFE0 bytes; above that the heap
  records memory the process does not own (`Umalloc.ConservedExactly`).
- `kkill` wakes a sleeper without placing it at the floor, which breaks the vruntime bound exactly for
  victims that had fallen behind (`Scheduler.KillKeepsMinimum`, `Scheduler.KillCanBreakMinimum`).
- A sleeper is woken up to the bonus below the running task, so the lead of that task over it can grow
  past both its first value and one tick; exactly then (`Scheduler.LeadKeptExactly`).
- The confirm timeout is noticed by the waiter itself, not by the clock tick.
- The cache file stops growing at 263 records, the size limit of one file, long before the 4 MB limit
  in `cache.c`; an eviction that cannot be written is lost while cache_set reports success; a hash
  evicted twice answers with its older value.
- The comment beside `_wire_escape` says a literal backslash-n gets through if it is written twice. It
  never does (`Escape.NeverDelivered`).
- A deny-list name of 24 bytes or more is stored cut and never matches (`CommandPath.DenyList.Add`), and
  one that looks like a role prefix is not refused (`CommandPath.RoleLikeNameEscapes`).

## Model

| member | source | states |
|---|---|---|
| `RedoLog.CommitIsAtomic` | xv6-riscv/kernel/log.c:179-212 | Cut a commit after any number of block writes, cut any number of recoveries short anywhere, let one complete: every home block is old if the first header write had not happened, new if it had, and the log is empty |
| `RedoLog.CrashChainRecovers` | xv6-riscv/kernel/log.c:66-123 | However often recovery is interrupted, the recovery that completes yields exactly the home blocks the first image promised |
| `RedoLog.RecoveryImageKeepsLogical` | xv6-riscv/kernel/log.c:66-123 | Every image recovery passes through still recovers to the same home blocks: recovery is idempotent |
| `RedoLog.CommitImageLogical` | xv6-riscv/kernel/log.c:194-212 | After k block writes of a commit the disk recovers to the old blocks up to the header write and to the new ones from it on |
| `RedoLog.BeforeHeader` | xv6-riscv/kernel/log.c:179-191 | Copying blocks into the log area changes neither a home block nor what recovery would do |
| `RedoLog.AfterHeader` | xv6-riscv/kernel/log.c:102-114 | From the first header write on, recovery produces the contents in memory: the commit point |
| `RedoLog.InstalledAt` | xv6-riscv/kernel/log.c:66-84 | After k installs exactly the first k home blocks hold their log block, every other block is unchanged |
| `RedoLog.ClearedKeepsLogical` | xv6-riscv/kernel/log.c:117-123 | Once every block is installed, clearing the header changes no home block |
| `RedoLog.WriteHeader` | xv6-riscv/kernel/log.c:102-114 | The header block holds n and the n block numbers; the words after them are left as they were |
| `RedoLog.HistoryGrows` | xv6-riscv/kernel/log.c:193-204 | A commit adds one state to the history of the disk: its images recover to the last state up to the header write and to the new one from it on |
| `RedoLog.HistoryStarts` | xv6-riscv/kernel/log.c:116-123 | Recovery at boot starts that history with the state it recovers |
| `RedoLog.CrashLeavesCommittedState` | xv6-riscv/kernel/log.c:66-123 | A crash at any moment of a whole run of transactions, then any number of interrupted recoveries and a complete one, leaves the home blocks of one committed state, in the order of the commits |
| `BufferCache.Bcache.constructor` | xv6-riscv/kernel/bio.c:36-53 | After binit every buffer is device 0, block 0, free and unlocked |
| `BufferCache.Bcache.Bget` | xv6-riscv/kernel/bio.c:58-89 | A hit takes a reference; a miss recycles the least recently used unreferenced buffer and no other; the panic happens exactly when the block is absent and every buffer is referenced; the caller has the lock exactly when nobody held it, else it waits; no block of a nonzero device is ever in two buffers |
| `BufferCache.Bcache.Bread` | xv6-riscv/kernel/bio.c:92-103 | The buffer returned is locked, valid and holds what the block was last given: the cached data, or the disk block on a miss; a caller that must wait for the lock has only taken its reference |
| `BufferCache.Bcache.BreadResumed` | xv6-riscv/kernel/bio.c:92-103 | A caller that waited takes the lock once it is free and finds the buffer valid |
| `BufferCache.Bcache.Bwrite` | xv6-riscv/kernel/bio.c:106-112 | The only step that changes the disk: one block becomes the buffer, everything else and the cache stay |
| `BufferCache.Bcache.Brelse` | xv6-riscv/kernel/bio.c:116-137 | The reference and the lock go; a buffer nobody references moves to the front of the recency order, which keeps all its other entries in place |
| `BufferCache.Bcache.Bpin` | xv6-riscv/kernel/bio.c:139-144 | One more reference, which keeps the buffer from being recycled |
| `BufferCache.Bcache.Bunpin` | xv6-riscv/kernel/bio.c:146-151 | One reference less |
| `BufferCache.MovedToFront` | xv6-riscv/kernel/bio.c:124-134 | Moving a buffer to the front keeps the order a permutation of the buffers |
| `WriteAheadLog.Log.constructor` | xv6-riscv/kernel/log.c:53-64 | A log over a fresh cache starts coherent: memory and disk agree, nothing pending |
| `WriteAheadLog.Log.ReadHead` | xv6-riscv/kernel/log.c:86-98 | The in-memory list becomes the one pending on disk |
| `WriteAheadLog.Log.RecoverFromLog` | xv6-riscv/kernel/log.c:116-123 | The disk becomes the recovered image, passing through exactly the images the crash theorem quantifies over, and that image is the first committed state |
| `WriteAheadLog.Log.WriteLog` | xv6-riscv/kernel/log.c:178-191 | The cached contents of the logged blocks reach the log area in order, one disk image per write; fails exactly when no buffer is free |
| `WriteAheadLog.Log.CopyToLog` | xv6-riscv/kernel/log.c:184-189 | One turn of that loop: one log block written, pins and all other blocks untouched |
| `WriteAheadLog.Log.WriteHead` | xv6-riscv/kernel/log.c:100-114 | One disk write: the header names the transaction |
| `WriteAheadLog.Log.InstallTrans` | xv6-riscv/kernel/log.c:66-84 | Every logged block is copied home in order; outside recovery each loses its pin |
| `WriteAheadLog.Log.CopyHome` | xv6-riscv/kernel/log.c:71-82 | One turn of that loop: one home block written, one pin dropped, what bread returns unchanged |
| `WriteAheadLog.Log.Commit` | xv6-riscv/kernel/log.c:193-204 | The disk images a commit leaves are exactly those of the crash theorem; it panics exactly when there is something to commit and every buffer is referenced |
| `WriteAheadLog.Log.BeginOp` | xv6-riscv/kernel/log.c:125-143 | Under any interleaving an operation starts exactly when its ten blocks still fit, and then every outstanding budget together with the logged blocks stays within LOGBLOCKS |
| `WriteAheadLog.Log.Fetch` | xv6-riscv/kernel/bio.c:92-103 | During a transaction bread returns the latest logged contents, not the disk |
| `WriteAheadLog.Log.LogWrite` | xv6-riscv/kernel/log.c:214-236 | Panics exactly when LOGBLOCKS blocks are logged, even for a block already absorbed; an operation with budget left never panics; otherwise the block is pinned once, the new contents become what bread returns, and no disk block changes |
| `WriteAheadLog.Log.Update` | xv6-riscv/kernel/log.c:206-236 | bread, change, log_write, brelse: later reads see the change, the disk does not, the cost is one unit of budget unless absorbed, and no panic occurs while a buffer is free |
| `WriteAheadLog.Log.EndOp` | xv6-riscv/kernel/log.c:145-176 | Only the last operation out commits; then the disk holds the logged contents of every home block, the log is empty, the reservation of everyone else is untouched and the history of committed states, which every disk image since boot belongs to, has grown by the new one; it panics exactly when a nonempty transaction meets a cache with no free buffer |
| `WriteAheadLog.TotalUpdate` | xv6-riscv/kernel/log.c:125-143 | Changing the budget of one operation changes the sum of budgets by exactly that change |
| `WriteAheadLog.FreeWhileLogSmall` | xv6-riscv/kernel/log.c:178-191 | While nobody holds a buffer, one is free if and only if fewer than NBUF blocks are logged: the exact condition under which commit can run |
| `WriteAheadLog.FullTransactionPanics` | xv6-riscv/kernel/param.h:9-11 | LOGBLOCKS equals NBUF: a run begin_op admits (three operations, ten blocks each) whose last end_op must panic for want of a buffer |
| `WriteAheadLog.HeadedBlocks` | xv6-riscv/kernel/log.c:178-204 | The blocks install_trans will copy are the ones write_log stored |
| `Volume.NoSharing` | xv6-riscv/kernel/fs.c:397-444 | No block is referenced by two pointer slots, of one inode or of two |
| `Volume.BitMeansReferenced` | xv6-riscv/kernel/fs.c:62-106 | A block has its bit set exactly when it is metadata or some slot references it |
| `Volume.ZeroingIsEssential` | xv6-riscv/kernel/fs.c:50-61 | Linking a new indirect block keeps the volume consistent if and only if all its 256 entries read as zero |
| `Volume.TakenInv` | xv6-riscv/kernel/fs.c:66-90 | Taking a free block marks only it, zeroes it and moves no reference |
| `Volume.LinkEntryInv` | xv6-riscv/kernel/fs.c:431-438 | Storing a fresh address in an empty indirect entry keeps every invariant of the volume |
| `Volume.PutDataByte` | xv6-riscv/kernel/fs.c:539-552 | Storing a data block changes the bytes of that block of that file and no byte of any other file |
| `Volume.StoredInv` | xv6-riscv/kernel/fs.c:539-552 | Storing a piece of a block patches exactly those bytes of exactly that file and keeps the volume consistent |
| `Volume.KeepsBytes` | xv6-riscv/kernel/fs.c:405-444 | Allocation, direct or indirect, changes no mapped byte of any file |
| `Volume.ContentPatched` | xv6-riscv/kernel/fs.c:538-556 | The byte-level effect of the write loop is the old contents with data written over them at off, and nothing else |
| `Volume.DropSlotInv` | xv6-riscv/kernel/fs.c:454-472 | Freeing a block together with its slot keeps the volume consistent; for the indirect block this needs its entries freed first |
| `Volume.DropEntryInv` | xv6-riscv/kernel/fs.c:461-468 | Freeing an entry of the indirect block keeps the volume consistent although the entry itself is not cleared |
| `Volume.Truncated` | xv6-riscv/kernel/fs.c:447-476 | With every slot of an inode empty exactly the blocks it referenced have become free, and no other file has changed |
| `Volume.SliceOfBlock` | xv6-riscv/kernel/fs.c:503-516 | The bytes of a file within one block are that stretch of the block its slot references |
| `Volume.ContentInBlocks` | xv6-riscv/kernel/fs.c:405-444 | Byte p of a file is byte p % 1024 of direct block p / 1024 while that is below 12, and after that of the block at place p / 1024 - 12 of the indirect block |
| `Volume.UsedIs` | xv6-riscv/kernel/fs.c:71-79 | The free map keeps block b at bit b % 8 of byte b % 8192 / 8 of map block bmapstart + b / 8192 |
| `BlockBytes.LittleEndian` | xv6-riscv/kernel/fs.c:434-437 | The words of the indirect block are four bytes, the low one first |
| `BlockBytes.MapBit` | xv6-riscv/kernel/fs.c:75-79 | Bit bi of a map block is bit bi % 8 of byte bi / 8 |
| `BlockBytes.SetBit` | xv6-riscv/kernel/fs.c:76-79 | Setting bit k of a byte changes bit k and no other |
| `BlockBytes.ClearBit` | xv6-riscv/kernel/fs.c:98-104 | Clearing bit k of a byte changes bit k and no other |
| `BlockBytes.WithBitAt` | xv6-riscv/kernel/fs.c:75-79 | Marking a block in the free map changes the bit of that block only |
| `FileSystem.Fs.FindFree` | xv6-riscv/kernel/fs.c:71-88 | The scan finds the lowest free block, and 0 exactly when every block of the disk is in use |
| `FileSystem.Fs.Balloc` | xv6-riscv/kernel/fs.c:64-90 | The lowest free block, marked and zeroed; 0, with nothing changed, exactly when none is free |
| `FileSystem.Fs.Bfree` | xv6-riscv/kernel/fs.c:92-106 | Exactly one bit is cleared; freeing a free block is excluded, as the panic does |
| `FileSystem.Fs.AllocSlot` | xv6-riscv/kernel/fs.c:411-427 | A fresh block in an empty slot keeps the volume consistent, every mapped byte, and every other slot |
| `FileSystem.Fs.AllocEntry` | xv6-riscv/kernel/fs.c:429-438 | The same for an entry of the indirect block |
| `FileSystem.Fs.Bmap` | xv6-riscv/kernel/fs.c:397-444 | Returns the block of the file: address bn of the inode below 12, else word bn - 12 of the indirect block, allocating what is missing; 0 only when the disk is full; no existing reference or byte changes, and no slot is filled but the one asked for and the indirect one; a mapped block costs nothing; every changed block is passed to log_write |
| `FileSystem.Fs.Writei` | xv6-riscv/kernel/fs.c:522-562 | Returns -1, changing nothing, exactly when off is past the end or the file would exceed MAXFILE blocks (32-bit overflow included); otherwise the contents become old[..off] + data[..tot] + old[off+tot..], no other file changes, tot falls short only when the disk is full, and the inode is written back |
| `FileSystem.Fs.WriteTurn` | xv6-riscv/kernel/fs.c:538-552 | One turn of the loop adds the next block of data to what is written, or stops because the disk is full |
| `FileSystem.Fs.Readi` | xv6-riscv/kernel/fs.c:490-520 | Returns exactly the requested slice of the contents, cut at the end of the file, and allocates nothing |
| `FileSystem.Fs.Itrunc` | xv6-riscv/kernel/fs.c:446-476 | The file becomes empty, exactly the blocks it referenced become free, and no other file changes |
| `FileSystem.Fs.WriteChunk` | xv6-riscv/kernel/file.c:148-168 | One operation of filewrite passes at most 7 distinct blocks to log_write when the free map is one block: within MAXOPBLOCKS, and so within the reservation of begin_op |
| `ChunkCrash.OperationIsAtomic` | xv6-riscv/kernel/file.c:148-168 | Commit the blocks an operation logged, crash anywhere and recover: the disk holds all of the file system before the operation, or all of it after, and after exactly when the header was written |
| `ChunkCrash.ChunkIsOperation` | xv6-riscv/kernel/file.c:148-168 | One operation of filewrite meets what that theorem asks: every block and inode it changes was passed to log_write, within MAXOPBLOCKS |
| `ChunkCrash.LoggedAreHome` | xv6-riscv/kernel/fs.c:522-562 | Everything such an operation logs lies after the log area |
| `FileSystem.Fs.Filewrite` | xv6-riscv/kernel/file.c:148-173 | Whatever the length, a prefix of the data is appended at the file offset, which advances past it; the result is n exactly when the prefix is everything, else -1 |
| `PageTables.PoppedInv` | xv6-riscv/kernel/kalloc.c:66-82 | Taking the first free page changes no translation and no table |
| `PageTables.PushedInv` | xv6-riscv/kernel/kalloc.c:42-63 | Freeing a page nobody owns changes no translation and no table |
| `PageTables.PrefixStep` | xv6-riscv/kernel/vm.c:83-96 | The index taken at one level extends the prefix served by the next: the nine-bit fields of Sv39 lose nothing |
| `PageTables.HardwareWalk` | xv6-riscv/kernel/vm.c:83-115 | Translation is three loads indexed by bits 38-30, 29-21 and 20-12 of the address, each through the page number of the entry before it |
| `PageTables.PathIsLeaf` | xv6-riscv/kernel/vm.c:97-115 | The three-level descent and the lookup the hardware makes agree |
| `PageTables.LinkedInv` | xv6-riscv/kernel/vm.c:106-111 | Hanging a zeroed table under an empty entry changes no translation of any address space |
| `PageTables.WithEntryLookup` | xv6-riscv/kernel/vm.c:160-167 | Writing a last-level entry changes exactly one translation of exactly one address space |
| `Vm.Machine.Kalloc` | xv6-riscv/kernel/kalloc.c:65-82 | Pops the head of the list threaded through the free pages; 0 exactly when the list is empty |
| `Vm.Machine.Kfree` | xv6-riscv/kernel/kalloc.c:42-63 | Pushes the page, filled with junk, on that list |
| `Vm.Machine.constructor` | xv6-riscv/kernel/kalloc.c:26-40 | freerange makes every page of the range free, once |
| `Vm.Machine.Walk` | xv6-riscv/kernel/vm.c:83-115 | Finds the last-level table that serves the address, allocating missing tables; never changes a translation; without alloc changes nothing at all; 0 means there is no translation and, with alloc, no free page |
| `Vm.Machine.NewTable` | xv6-riscv/kernel/vm.c:106-111 | The page-table page walk adds comes from the free list, is zeroed and is linked once |
| `Vm.Machine.Mappages` | xv6-riscv/kernel/vm.c:140-173 | Success adds exactly the requested translations; failure, which needs an empty free list, adds a prefix of them; no other translation of any table changes |
| `Vm.Machine.Uvmunmap` | xv6-riscv/kernel/vm.c:189-211 | Removes exactly its range; with do_free exactly the pages mapped there return to the free list |
| `Vm.Machine.Uvmdealloc` | xv6-riscv/kernel/vm.c:242-258 | Unmaps and frees exactly the pages that begin in [newsz, oldsz) |
| `Vm.Machine.Uvmalloc` | xv6-riscv/kernel/vm.c:213-240 | Success gives every page that begins in [oldsz, newsz) zeroed memory of its own and changes no other translation; failure restores every translation and returns every leaf page taken to the free list, and happens only with fewer than three free pages for each page asked for |
| `Vm.Machine.Undo` | xv6-riscv/kernel/vm.c:226-236 | The error path gives back exactly what the loop had taken so far |
| `Vm.Machine.Uvmcopy` | xv6-riscv/kernel/vm.c:290-324 | Success makes every child page that begins below sz a copy of the parent page with the same flags, holes included; failure leaves the child as it was and returns every leaf page taken, and happens only with fewer than three free pages for each page; the parent never changes |
| `Vm.Machine.AddPage` | xv6-riscv/kernel/vm.c:224-237 | kalloc, fill, mappages, kfree on failure: either one page is added with its content, or nothing has changed |
| `Vm.Machine.Uvmcreate` | xv6-riscv/kernel/vm.c:175-186 | A new root maps nothing and leaves every other table as it was |
| `Vm.Machine.Freewalk` | xv6-riscv/kernel/vm.c:260-278 | Every table of the subtree, and no other page, goes to the free list; nothing else in memory changes |
| `Vm.Machine.Uvmfree` | xv6-riscv/kernel/vm.c:280-288 | The pages of one address space, tables and memory, are exactly what the free list gains; no other address space changes |
| `Vm.PageCountReaches` | xv6-riscv/kernel/vm.c:225-226 | A size is rounded up: the pages counted are exactly those that begin below it |
| `Vm.MappedOne` | xv6-riscv/kernel/vm.c:159-172 | One turn of mappages adds the next requested translation and no other |
| `Vm.CutOk` | xv6-riscv/kernel/vm.c:200-210 | kfree followed by clearing the entry removes one translation and returns one page, though the table is inconsistent in between |
| `Vm.GrewUndone` | xv6-riscv/kernel/vm.c:226-236 | Growth followed by its undoing gives back every translation, every owner and the set of pages that are free or tables |
| `Vm.NoPageTwice` | xv6-riscv/kernel/vm.c:213-240 | No owned page backs two translations, of one address space or of two |
| `FreeWalk.PruningChild` | xv6-riscv/kernel/vm.c:267-272 | Freeing a child table and zeroing the entry that led to it leaves a consistent forest without that subtree |
| `FreeWalk.PrunedLast` | xv6-riscv/kernel/vm.c:260-278 | After the last slot the table itself goes, and what is gone is exactly what lay under it |
| `FreeWalk.NothingMappedNoLeaves` | xv6-riscv/kernel/vm.c:260-278 | An address space that translates nothing has no valid leaf entry, so the panic "freewalk: leaf" cannot happen |
| `Umalloc.Heap.FindSlot` | xv6-riscv/user/umalloc.c:30-32 | The search loop of free ends, and ends at the place where the block belongs in address order |
| `Umalloc.Heap.Free` | xv6-riscv/user/umalloc.c:24-44 | The block leaves the allocated set, every other allocated block stays, and the list is again circular, ascending and fully coalesced |
| `Umalloc.Heap.StoreLinks` | xv6-riscv/user/umalloc.c:33-43 | The two coalescing tests store exactly the list with the block merged into its neighbours |
| `Umalloc.Heap.Morecore` | xv6-riscv/user/umalloc.c:46-61 | A region of at least 4096 units joins the free list; nothing allocated moves |
| `Umalloc.Heap.TakeWhole` | xv6-riscv/user/umalloc.c:75-77 | An entry of exactly the size asked for is unlinked |
| `Umalloc.Heap.TakeTail` | xv6-riscv/user/umalloc.c:78-82 | The tail of a larger entry is cut off; the rest stays in place on the list |
| `Umalloc.Heap.Malloc` | xv6-riscv/user/umalloc.c:63-90 | The block handed out is new, is one header and enough units for the bytes asked for, with less than one spare, and moves no other; it is the tail of the first large enough entry after freep; sbrk is asked exactly when no free entry is large enough, at most once, and null comes back exactly when it then refuses; the search ends |
| `Umalloc.UnitsHoldBytes` | xv6-riscv/user/umalloc.c:69 | The unit count is the header and the fewest units that hold the bytes |
| `Umalloc.NoOverlap` | xv6-riscv/user/umalloc.c:63-90 | Two blocks handed out never share a unit and lie inside what sbrk returned |
| `Umalloc.EveryUnitAccounted` | xv6-riscv/user/umalloc.c:24-90 | Every unit ever obtained from sbrk is in exactly one block, free or allocated, not both |
| `Umalloc.FreeListShape` | xv6-riscv/user/umalloc.c:24-43 | The list is a circle through base in address order, its sizes are those of the blocks, and no two of its blocks touch |
| `Umalloc.MergeSound` | xv6-riscv/user/umalloc.c:33-42 | Joining two touching entries keeps the list circular, ascending and tiling the heap |
| `Umalloc.InsertSound` | xv6-riscv/user/umalloc.c:30-43 | Inserting at the slot the search found keeps address order |
| `Umalloc.SplitSound` | xv6-riscv/user/umalloc.c:78-82 | Cutting the tail off an entry keeps the blocks a tiling and no two free blocks touching |
| `Umalloc.SbrkArgumentFits` | xv6-riscv/user/umalloc.c:46-55 | sbrk is asked for what the header will record if and only if the request is at most 0x7FFFFFE0 bytes |
| `Umalloc.SbrkArgumentWraps` | xv6-riscv/user/umalloc.c:46-55 | The largest request asks sbrk for 16 bytes and records 2^28 + 1 units |
| `Umalloc.ConservedExactly` | xv6-riscv/user/umalloc.c:46-60 | The blocks still tile exactly the memory sbrk gave if and only if the request is at most 0x7FFFFFE0 bytes; above that the block morecore adds has units the process does not own |
| `Scheduler.WeightedSharesStayClose` | xv6-riscv/kernel/trap.c:83-94 | From any moment, two tasks that stay ready with fixed priorities have weighted tick counts that differ by at most their lead then and one tick, for all time and whatever others do |
| `Scheduler.Fairness` | xv6-riscv/kernel/proc.c:531-566 | The lead of one ready task over another never exceeds the larger of one of its ticks and its initial value once the tick in progress is charged |
| `Scheduler.LeadKeptExactly` | xv6-riscv/kernel/proc.c:531-566 | The bound without that allowance, the larger of the initial lead and one tick, holds on every run if and only if the task is not running ahead of the other at the start |
| `Scheduler.WokenBehindRunning` | xv6-riscv/kernel/proc.c:686-706 | A run from boot that ends in such a state: a sleeper woken below the running task |
| `Scheduler.TicksAreVruntime` | xv6-riscv/kernel/trap.c:167-175 | Over any run vruntime grows by exactly the number of ticks charged times the weight of the priority |
| `Scheduler.NoStarvation` | xv6-riscv/kernel/proc.c:531-559 | On every run of tasks that only compute, from any moment, each runnable task gets the CPU after at most the tick in progress and the sum over tasks not behind it of (v_i - v_j) / delta_j + 1 ticks |
| `Scheduler.ComputingGoesOn` | xv6-riscv/kernel/proc.c:516-571 | Such a run is never stuck: while a task is ready a dispatch or a tick is possible and keeps it ready |
| `Scheduler.MinimumInvariant` | xv6-riscv/kernel/proc.c:64-80 | Over any run without kill the minimum never decreases and no ready task falls more than the wakeup bonus behind it |
| `Scheduler.KillKeepsMinimum` | xv6-riscv/kernel/proc.c:710-730 | kill keeps that bound if and only if its victim was not asleep or had not fallen behind |
| `Scheduler.KillCanBreakMinimum` | xv6-riscv/kernel/proc.c:710-730 | A run from boot after which a kill of the sleeping init breaks the bound |
| `Scheduler.CountersGrowSlowly` | xv6-riscv/kernel/proc.c:48-56 | From zero, vruntime stays within 64 bits for the first 2^37 steps |
| `Scheduler.BestExists` | xv6-riscv/kernel/proc.c:531-553 | Whenever something is runnable a minimum by (vruntime, creation_tick) exists |
| `Scheduler.VDelta` | xv6-riscv/kernel/proc.c:48-56 | Whatever the priority, a tick costs something and at most the cost at the lightest weight |
| `Scheduler.VDeltaIsQuotient` | xv6-riscv/kernel/proc.c:48-56 | A tick costs 2^30 over the weight of the priority, rounded down; priorities out of range count as the nearest in range |
| `Scheduler.SleepsUntilWoken` | xv6-riscv/kernel/proc.c:686-706 | A task asleep on a channel stays asleep, its vruntime unchanged, over any steps without a wakeup of that channel and a kill of it |
| `Scheduler.WokenAtFloor` | xv6-riscv/kernel/proc.c:686-706 | The wakeup makes it runnable at the larger of its vruntime and the minimum, less the bonus, never below 0 |
| `Scheduler.LowerNumberCostsLess` | xv6-riscv/kernel/proc.c:34-56 | A tick never costs a task more than one of a higher priority number, clamped numbers included |
| `Scheduler.Kernel.Scan` | xv6-riscv/kernel/proc.c:531-553 | The scan returns the minimum by (vruntime, creation_tick), the lowest slot on a tie, and none exactly when nothing is runnable |
| `Scheduler.Kernel.Schedule` | xv6-riscv/kernel/proc.c:516-571 | One turn of the scheduler makes the dispatch step: the picked task runs and the minimum advances to its vruntime, never back |
| `Scheduler.Kernel.Userinit` | xv6-riscv/kernel/proc.c:291-310 | The first process takes the first slot at a kernel-class priority |
| `Scheduler.Kernel.TimerTick` | xv6-riscv/kernel/trap.c:83-94 | A timer interrupt adds one tick to the running task and makes it runnable again |
| `Scheduler.Kernel.WakeupAll` | xv6-riscv/kernel/proc.c:686-706 | Every sleeper on the channel becomes runnable at the larger of its vruntime and the minimum, less the bonus and never below 0; no other task changes |
| `Scheduler.Kernel.SleepOn` | xv6-riscv/kernel/proc.c:640-670 | The running task sleeps on the channel with its vruntime as it was |
| `Scheduler.Kernel.ForkChild` | xv6-riscv/kernel/proc.c:336-396 | The child takes a free slot with the vruntime of its parent and its priority, 10 for a kernel-class parent; -1 exactly when the table is full |
| `ConfirmGate.BodyNeedsGrant` | xv6-riscv/kernel/syscall.c:183-200 | In any run a gated system call runs only after a "y" for its pid that came while the request it belongs to, the latest of that pid and one that held the slot, was pending, and before any "n" |
| `ConfirmGate.OneBodyPerAnswer` | xv6-riscv/kernel/confirm.c:61-124 | No "y" grants two system calls, of one pid or of two, in any run |
| `ConfirmGate.OneGrant` | xv6-riscv/kernel/confirm.c:61-124 | The request and the "y" behind a grant are determined by the run |
| `ConfirmGate.OnePending` | xv6-riscv/kernel/confirm.c:61-104 | In every reachable state at most one request is pending |
| `ConfirmGate.RunsKeepInv` | xv6-riscv/kernel/confirm.c:61-124 | Every interleaving of requests, answers, ticks, wakes and timeouts keeps the protocol invariant |
| `ConfirmGate.TimeoutFreesSlot` | xv6-riscv/kernel/confirm.c:86-104 | A waiter that looks at the clock after the time is up frees the slot; the check is the waiter, not the tick |
| `ConfirmGate.AnswerDecides` | xv6-riscv/kernel/confirm.c:83-104 | Whatever happens between the first answer and the next look of the waiter, that look ends the request and enables the system call exactly when the answer was "y" |
| `ConfirmGate.TimeoutExactly` | xv6-riscv/kernel/confirm.c:89-93 | Without an answer every look before 150 ticks have passed changes nothing and the first one after that denies |
| `ConfirmGate.Confirm.Syscall` | xv6-riscv/kernel/syscall.c:183-200 | Only exec, kill and mknod of an agent ask, and a call that asks runs exactly when the answer allows it |
| `ConfirmGate.Confirm.TryRegister` | xv6-riscv/kernel/confirm.c:66-73 | Refused at once exactly when another request is pending |
| `ConfirmGate.Confirm.Turn` | xv6-riscv/kernel/confirm.c:80-104 | The loop is left exactly on an answer or a timeout, the slot is then free, and only an allowing answer returns 1 |
| `ConfirmGate.Confirm.ResolveAnswer` | xv6-riscv/kernel/confirm.c:114-124 | The first answer for the pending pid stores 1 for allow and 0 for deny; any other changes nothing |
| `MinHash.BuildSignature` | xv6-riscv/kernel/cache.c:144-177 | Each entry is the least value of its hash over the content words of the key; 0 is returned exactly for fewer than three words, repetitions counted |
| `MinHash.SigIsMin` | xv6-riscv/kernel/cache.c:163-173 | Each entry is the pointwise minimum over the set of words: repetition and order cannot matter |
| `MinHash.SeparatorSplits` | xv6-riscv/kernel/cache.c:149-161 | Any separator byte splits a key into two independent lists of words |
| `MinHash.CaseIgnored` | xv6-riscv/kernel/cache.c:156-160 | Upper and lower case give the same words |
| `MinHash.OrderAndPunctuationIgnored` | xv6-riscv/kernel/cache.c:137-161 | Swapping phrases, changing the punctuation between them or repeating one leaves the word set unchanged |
| `MinHash.SameWordsSameSignature` | xv6-riscv/kernel/cache.c:144-177 | Keys with the same word set have the same signature |
| `MinHash.NextWord` | xv6-riscv/kernel/cache.c:154-161 | A maximal run of word bytes, lowercased and cut to 32 bytes |
| `MinHash.OneWord` | xv6-riscv/kernel/cache.c:154-161 | An unbroken run of letters, digits and bytes from 0x80 on is one word, lowercased and cut to 32 bytes, unless it is a stopword |
| `MinHash.OtherBytesSeparate` | xv6-riscv/kernel/cache.c:106-112 | Any other byte separates |
| `MinHash.GSteps` | xv6-riscv/kernel/cache.c:167-172 | The hashes of a word start at the first of the pair and go on in steps of the second, in 64 bits, 0 moved to 1 |
| `MinHash.MatchesIsCount` | xv6-riscv/kernel/cache.c:179-185 | The count is the size of the set of equal places |
| `MinHash.IsStopword` | xv6-riscv/kernel/cache.c:127-135 | True exactly for the words of the list, compared whole |
| `MinHash.JaccardMatchCount` | xv6-riscv/kernel/cache.c:179-185 | The number of equal positions; 64 exactly when the signatures are equal |
| `ResponseCache.Cache.CacheSet` | xv6-riscv/kernel/cache.c:262-313 | Hashes stay distinct; the value becomes the answer for its hash; one slot is written, that of the hash, else an empty one, else the least recently used, and only then does a hash stop being current; every other answer stays but that of the evicted hash, which falls back to its oldest record; success is reported even when that record is lost |
| `ResponseCache.Cache.CacheGetExact` | xv6-riscv/kernel/cache.c:315-363 | A hash set since it became resident answers with its last value, any other with its first record, none exactly when there is neither; while appends succeed no hash ever set is a miss; the entry used becomes the most recent, or a record moves into an empty slot, and nothing else changes |
| `ResponseCache.Cache.CacheGetSemantic` | xv6-riscv/kernel/cache.c:365-408 | Hits exactly when some signed entry agrees in at least 26 of 64 places, and then answers with the best entry, the most recently used among equals, and its score; only the time of that entry changes |
| `ResponseCache.HashesAreKept` | xv6-riscv/kernel/cache.c:79-89 | The slot hash is the hash of the key, 0 moved to 1: different nonzero hashes stay different |
| `ResponseCache.SetThenGet` | xv6-riscv/kernel/cache.c:262-363 | A get of any key with the hash of the key just set returns the value just set |
| `ResponseCache.SetThenGetOther` | xv6-riscv/kernel/cache.c:262-363 | A set never answers a key of another hash: a miss stays a miss and an entry that stays answers as before |
| `ResponseCache.SetThenAsk` | xv6-riscv/kernel/cache.c:365-408 | A query with the word set of the key just set, three words or more, hits with score 64 |
| `ResponseCache.LeavesOnlyAsOldest` | xv6-riscv/kernel/cache.c:273-298 | A hash stops being current only when the table is full of other hashes and its entry was used least recently |
| `ResponseCache.Cache.FindBest` | xv6-riscv/kernel/cache.c:381-391 | The loop finds the entry that agrees most, the most recently used among equals |
| `ResponseCache.Cache.DiskScan` | xv6-riscv/kernel/cache.c:187-219 | The first record with the hash, its length clamped to 1024 |
| `ResponseCache.Cache.DiskAppend` | xv6-riscv/kernel/cache.c:221-251 | Fails from 263 records on: the limit of one file, well before the 4 MB limit the code checks |
| `ResponseCache.Cache.PickSlot` | xv6-riscv/kernel/cache.c:273-298 | The slot holding the hash, else an empty one, else the least recently used |
| `ResponseCache.FirstEvictionWins` | xv6-riscv/kernel/cache.c:202-214 | Once a hash has a record, records appended later for it are never returned |
| `ResponseCache.AfterEviction` | xv6-riscv/kernel/cache.c:285-312 | Eviction changes the answer of the evicted hash alone |
| `ResponseCache.PromoteAgrees` | xv6-riscv/kernel/cache.c:341-357 | Copying a record into an empty slot changes no answer |
| `ResponseCache.SameWordsAlwaysHit` | xv6-riscv/kernel/cache.c:379-397 | If a signed entry was set under a key with the same word set the query always hits with score 64 |
| `Jail.SkipElem` | xv6-riscv/kernel/fs.c:632-670 | The first element, cut to 14 bytes, and the rest; nothing left exactly when no element is left |
| `Jail.ElemsOfOne` | xv6-riscv/kernel/fs.c:645-668 | A path without a slash is one element, cut to 14 bytes |
| `Jail.ElemsSplit` | xv6-riscv/kernel/fs.c:645-668 | A slash separates: what is before it and after it are read independently |
| `Jail.StepIsEntry` | xv6-riscv/kernel/fs.c:691-714 | One element leads to the first entry in use with that name, or nowhere, but ".." of a jail root stays |
| `Jail.ResolveIsSteps` | xv6-riscv/kernel/fs.c:672-720 | A path is followed element by element and fails where one is missing or is looked up in a file |
| `Jail.WherePathsStart` | xv6-riscv/kernel/fs.c:678-690 | An absolute path starts at inode 1, or at the root of the jail, whatever the current directory; any other path starts there |
| `Jail.Namex` | xv6-riscv/kernel/fs.c:672-720 | On any path, in both modes, exactly what resolving its elements gives |
| `Jail.DirLookup` | xv6-riscv/kernel/fs.c:572-599 | The first entry in use with that name |
| `Jail.JailHolds` | xv6-riscv/kernel/fs.c:672-720 | Whatever the path, in both modes, a jailed process whose cwd is under its root gets an inode under its root or none |
| `Jail.StepStaysUnder` | xv6-riscv/kernel/fs.c:700-714 | No directory entry leads out of the subtree but the ".." of the root itself |
| `Jail.JailIsReroot` | xv6-riscv/kernel/fs.c:678-714 | Resolution in a jail is plain resolution in the file tree whose root is the jail directory |
| `Jail.Task.SysChdir` | xv6-riscv/kernel/sysfile.c:410-431 | The process moves to the directory the path names, or stays and gets -1 |
| `Jail.Task.SysJail` | xv6-riscv/kernel/sysfile.c:433-466 | On success the directory, resolved from the old root, is root and cwd and the process is an agent; on failure nothing changes |
| `Jail.Task.Fork` | xv6-riscv/kernel/proc.c:357-379 | The child has the cwd and the jail of its parent |
| `JailRuns.JailedForEver` | xv6-riscv/kernel/sysfile.c:433-466 | In every state of every run of chdir, jail, fork, create, link, unlink and reclaim, a process once jailed under a root is still jailed under it and no path, in either mode of namex, leads it outside |
| `JailRuns.JailCloses` | xv6-riscv/kernel/sysfile.c:433-466 | A successful jail call puts the process in the jail it names |
| `JailRuns.JailedSinceCall` | xv6-riscv/kernel/sysfile.c:433-466 | From boot on, whatever happens before a successful jail call and after it, the process never leaves that directory and no path leads it outside |
| `JailRuns.StepKeepsInv` | xv6-riscv/kernel/sysfile.c:410-466 | Every step keeps the directories a tree and every process inside its jail |
| `JailRuns.MoveKeepsProc` | xv6-riscv/kernel/sysfile.c:410-466 | chdir and jail keep a process under its root; a second jail lies inside the first |
| `JailRuns.UnlinkUnder` | xv6-riscv/kernel/sysfile.c:187-243 | Removing a file or an empty directory cuts no path to another directory |
| `JailRuns.CreateTree` | xv6-riscv/kernel/sysfile.c:245-303 | Creating a file or a directory keeps the tree |
| `JailRuns.ChildIsHeld` | xv6-riscv/kernel/proc.c:376-379 | The child of a jailed process is jailed in the same place |
| `Console.WholeLines` | xv6-riscv/kernel/console.c:187-236 | For lines of plain text the readable bytes are exactly the lines not starting with the request prefix, in order, and each line with it goes once, without its newline, to the agent |
| `Console.BackspaceUndoes` | xv6-riscv/kernel/console.c:181-188 | A character followed by either erase key leaves no trace |
| `Console.EveryKey` | xv6-riscv/kernel/console.c:165-241 | What each key does to the line: kill, erase, ignored keys, the three that end it, and characters that join it |
| `Console.FullBuffer` | xv6-riscv/kernel/console.c:190-238 | The character that fills the buffer ends the line; once it is full characters are dropped |
| `Console.KeyedOk` | xv6-riscv/kernel/console.c:165-241 | Every key keeps the console in step with the unlimited line editor as long as the buffer was never full |
| `Console.Cons.ConsoleIntr` | xv6-riscv/kernel/console.c:165-241 | After every key the mirror is exactly the unfinished line, whatever was typed, and the command handed over, if any, is that line |
| `Console.Cons.Kill` | xv6-riscv/kernel/console.c:173-180 | The kill key erases exactly the unfinished line |
| `Console.Cons.Store` | xv6-riscv/kernel/console.c:190-238 | A character is stored, and ends the line on newline, end-of-file or a full buffer |
| `Console.Cons.ConsoleRead` | xv6-riscv/kernel/console.c:103-157 | A read returns readable bytes in order, ending at a newline, before an end-of-file, or when it has enough or nothing is left, and not before; an end-of-file that comes first gives an empty read, once |
| `Escape.RoundTripExactly` | xv6-riscv/user/agentd.c:70-88 | Escaping and unescaping give the text back if and only if it has no carriage return and no backslash followed by n |
| `Escape.NeverDelivered` | agent.py:338-350 | No payload can deliver a backslash followed by n, however it is spelled; writing it twice does not help |
| `Escape.UnescapeInplace` | xv6-riscv/user/agentd.c:74-88 | The in-place loop leaves exactly the unescaped string in the buffer |
| `CommandPath.Intake.AgentDispatch` | xv6-riscv/kernel/agentcmd.c:427-441 | The intake ring is a queue of at most seven lines, each cut to 1279 bytes; confirm answers bypass it; a full ring drops the new line |
| `CommandPath.Intake.Take` | xv6-riscv/kernel/agentcmd.c:448-466 | Lines leave in the order they came |
| `CommandPath.AgentQueue.ForwardWire` | xv6-riscv/kernel/agentcmd.c:204-240 | The second queue holds at most sixteen lines, the request prefix in front, cut to 255 bytes |
| `CommandPath.AgentQueue.Get` | xv6-riscv/kernel/agentcmd.c:242-265 | Lines leave in the order they came |
| `CommandPath.DenyList.Listed` | xv6-riscv/kernel/agentcmd.c:170-184 | Exactly the commands on the list are refused |
| `CommandPath.DenyList.Reset` | xv6-riscv/kernel/agentcmd.c:78-90 | The default list is KILL and EXEC |
| `CommandPath.DenyList.Add` | xv6-riscv/kernel/agentcmd.c:99-117 | Afterwards the command is refused if and only if its name has fewer than 24 bytes; -1 exactly when the list is full |
| `CommandPath.DenyList.Remove` | xv6-riscv/kernel/agentcmd.c:120-137 | The first such name goes and the others keep their order |
| `CommandPath.DispatchNow` | xv6-riscv/kernel/agentcmd.c:478-528 | Meta commands stay in the kernel, denied commands leave the queue as it was, and only the rest is queued for the jailed runtime, without its role prefix |
| `CommandPath.DeniedIsRefused` | xv6-riscv/kernel/agentcmd.c:518-522 | A command on the deny list is refused with or without an argument and with or without a role prefix |
| `CommandPath.ForwardedIsAllowed` | xv6-riscv/kernel/agentcmd.c:518-528 | What is forwarded never begins with a denied or a meta command |
| `CommandPath.RoutesAsOwed` | xv6-riscv/kernel/agentcmd.c:478-528 | Every line of those shapes goes where its command says; an unprefixed command that looks like a role is the one exception |
| `CommandPath.RoleLikeNameEscapes` | xv6-riscv/kernel/agentcmd.c:485-492 | A name on the deny list that looks like a role prefix is not refused |
| `CommandPath.OtherLinesDropped` | xv6-riscv/kernel/agentcmd.c:478-492 | Lines without the request prefix or with an open role prefix go nowhere |
| `CommandPath.ConfirmIsParsed` | xv6-riscv/kernel/agentcmd.c:400-426 | A confirm answer is its decimal pid, and allows exactly for y or Y |
| `CommandPath.ExecuteLine` | xv6-riscv/user/agentd.c:354-391 | What the runtime does with a line: WRITE splits at the first colon and unescapes the rest |
| `CommandPath.ExecutesAllowed` | xv6-riscv/user/agentd.c:354-391 | Nothing runs unless the table allows the command, and a WRITE only with a file name |
| `CommandPath.WriteArrives` | agent.py:763-772 | A WRITE of at most 255 bytes typed at the console, not denied, whose file name has no colon, reaches that file, and the bytes written are the original text if and only if it has no carriage return and no backslash followed by n |
| `CommandPath.WriteIsTyped` | agent.py:655-661 | The console hands the whole line over as one command and shows nothing of it to the shell |
| `CommandPath.WriteIsRouted` | xv6-riscv/kernel/agentcmd.c:228-240 | Routing and both copies leave a line of at most 255 bytes whole |
| `CommandPath.WriteIsExecuted` | xv6-riscv/user/agentd.c:126-151 | The runtime recovers the file name and the unescaped text |
| `CommandPath.CacheSetSplitsBack` | agent.py:1019-1020 | The argument of CACHE_SET splits back into its key and value, whatever bytes they hold |
| `CommandPath.CacheSetArrives` | xv6-riscv/kernel/agentcmd.c:366-378 | The whole CACHE_SET line reaches its handler, denied or not, and splits back |
| `CommandPath.HandleCacheSet` | xv6-riscv/kernel/agentcmd.c:366-378 | The parsing loop computes that split, for lengths an int can hold |
| `CommandPath.DecimalPrefix` | xv6-riscv/kernel/agentcmd.c:371 | Reading decimal digits undoes printing them, whatever follows |

## Left out

- Device drivers, assembly, traps other than the charging of a tick, and the sleep and spin locks themselves: a lock holder's work is one step, and a block write is atomic.
- Waiters for a buffer lock in the logging code: `BufferCache` has them, but `WriteAheadLog` counts a buffer's references as its pins plus its one holder, so its steps read only blocks nobody has locked.
- Reads by processes outside a transaction while a commit is writing: commit runs between steps.
- The linked recency list of buffers is a sequence, not `prev` and `next` pointers.
- The links of the user heap are maps from addresses to header fields; the bytes inside allocated blocks are not modelled.
- Inodes on disk, the inode cache, `ialloc` and reference counting: an inode is its size and its thirteen addresses, and `iupdate` copies it.
- Copies from and to user addresses that can fault: `writei`, `readi` and `filewrite` use kernel memory, which the source never lets fail.
- A free map of more than one block makes an operation log more blocks; the bound of 7 is stated for one.
- Page addresses are page numbers, so the alignment panics cannot be expressed; the TLB, `walkaddr`, `copyin`, `copyout` and `vmfault` are not part of this model.
- Multi-CPU scheduling: the bounds are for one CPU, with fork and wakeup as atomic steps; the USED state is left out, and 64-bit overflow is a bound on the length of a run.
- FNV-1a is an arbitrary function on byte strings, so hash collisions are allowed and the accuracy of MinHash is not claimed.
- A record of the cache file cut short by a full disk, which would misalign the records after it, and a file edited while the kernel runs.
- A directory removed while it is some process's cwd: its ".." entry can outlive the parent, so `JailRuns` does not unlink such a directory and reclaims an inode only when nothing refers to it.
- `dirlink` running out of disk blocks, and hard limits on path length.
- Echo on the terminal, `consolewrite`, and the sleep inside `consoleread` and `agentq_get`: those return what is at hand.
- ASK, LLM_RESP and CACHE_GET handlers, priorities and tool tables of the runtime, and every command but WRITE: they print or call parts modelled elsewhere.
- `deny_clear` and `deny_snapshot`: an assignment and a copy.
- CommandPath.HandleCacheSet: does not model a length that an int cannot hold, because C leaves that overflow undefined; the lines the host builds never carry one.
- Umalloc.Heap.Malloc: when sbrk answers, covers requests up to 0x7FFFFFE0 bytes, because `Umalloc.ConservedExactly` shows the heap is no longer conserved above them.
- ChunkCrash.OperationIsAtomic: does not model how a block and an inode are laid out as words; any layout will do.
- Escape.UnescapeInplace: a string is modelled as bytes; the UTF-8 encoding the host applies first keeps the two characters involved apart from all others.
- The Python bridge beyond its wire builders: sockets, threads, the model calls and the terminal.
