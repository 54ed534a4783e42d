# A verified model of the xv6-x86 kernel's core

This project models the parts of the xv6-x86 kernel (with two of its user programs) whose
correctness is not visible from reading one function, and proves what they are for.

- **Storage** (`LruRing`, `BufferCache`, `CrashRecovery`, `RedoLog`, `LogAdmission`,
  `DiskQueue`): the buffer cache as an implementation of a plain map from blocks to bytes; the
  write-ahead log as the exact sequence of block writes it makes, with a crash allowed between
  any two, during the commit and during every recovery; the admission of operations by
  `begin_op` and `end_op` as a state machine over any number of processes; the interrupt-driven
  disk queue as a refinement of the synchronous driver.
- **Files** (`Volume`, `FileSystem`, `FileCrash`): block ownership, files as byte sequences, the bound
  on what one `filewrite` transaction logs, and what a crash in the middle of one leaves on disk.
- **Memory** (`Heap`, `PageTable`, `FrameCount`, `AddressSpace`, `ProcMemory`): the allocator of section 8.7 of Kernighan and
  Ritchie, *The C Programming Language*, second edition, and the two-level page tables over the
  physical page allocator.
- **Processes** (`ProcTable`, `ProcLife`, `SleepLock`, `Pipe`): fork, exit and wait, sleep locks
  and pipes, over every interleaving of any number of processes.
- **User programs** (`ShellGrammar`, `ShellParser`, `Matcher`): the shell's parser and the regular
  expression matcher of chapter 9 of Kernighan and Pike, *The Practice of Programming*.

## How to read it

State that the kernel updates in place is a class; each method is one critical section or one
system-level operation, and its contract ties the new state to the old one. Pointers are
indices or addresses, linked lists are `next` fields over them, and a ghost sequence or map
(`order`, `ring`, `owner`, `slot`) says what the links mean. A concurrent protocol is a datatype of
states with one `Next` per atomic step; its main theorem is about every state that a run can
reach. A panic is a result (`None`, `false`, `Panic`) wherever the code can reach it. `Params`,
`Sets` and `Blocks` hold what the others share.

`dafny verify dfyconfig.toml` checks the whole project.

## Hypotheses

- Block writes are atomic, and the device reports no errors. `ideintr` marks a buffer valid even
  after a read error, so the disk queue theorems need this.
- Cache uniqueness is about blocks of a nonzero device: all buffers start out as block 0 of
  device 0.
- The size of the log area is a parameter. `param.h:11` calls LOGSIZE the number of data blocks in the
  log on disk, but `mkfs.c:25` reserves LOGSIZE blocks including the header. `LogAdmission` gives three
  exact bounds: `log_write` never panics on an operation within its budget from LOGSIZE+1 blocks on,
  the block list fits the area from there on too, and no commit finds the whole cache pinned up to
  NBUF-2 blocks. LOGSIZE equals NBUF, so no size satisfies all three.
- In `RedoLog` one log_write is one step, so there the block list fits the log area.
- Processes that only read may hold buffers while a commit runs, since reads open no operation. They
  stay clear of the log area and of the transaction's blocks, for which the commit would wait, and
  which buffers they hold does not change during one call.
- A filewrite chunk is committed on its own; `FileCrash.EventShows` is as true of several operations
  committed together, from the image before the first to the image after the last.
- On disk the log lies in front of the inodes, as mkfs puts it, and has more than MAXOPBLOCKS blocks.
- Files have no holes: exactly the block indices below the size are mapped. `writei` and `itrunc`
  keep this.
- init never exits, and pids do not overflow.
- Wakeup claims about pipes are about runs without kills, and an end is closed only when no call is in
  progress on it.
- User code touches the malloc heap only through the blocks it owns, and sbrk's answers do not go down.

## Model

| member | source | states |
|---|---|---|
| `LruRing.RingInsert` | Project 1/xv6-public/bio.c:50-54 | Splicing a buffer in after the head with binit's four assignments keeps the list circular and doubly linked, with the buffer first |
| `LruRing.RingUnlink` | Project 1/xv6-public/bio.c:132-133 | brelse's two unlinking assignments give the same circular list without that buffer, whatever its position |
| `LruRing.RelinkRing` | Project 1/xv6-public/bio.c:130-138 | All six assignments of brelse together move one buffer to the front and leave the order of the others |
| `LruRing.FrontCovers` | Project 1/xv6-public/bio.c:130-138 | Moving a buffer to the front keeps the list a permutation of all the buffers |
| `BufferCache.Cache.constructor` | Project 1/xv6-public/bio.c:38-56 | binit builds a circular list of all NBUF buffers; the cache starts out coherent with the disk and holds no block of a nonzero device |
| `BufferCache.Cache.Find` | Project 1/xv6-public/bio.c:68-76 | The forward scan ends and finds the block's only buffer if and only if there is one |
| `BufferCache.Cache.Victim` | Project 1/xv6-public/bio.c:81-91 | The backward scan ends and finds the least recently used buffer that is neither referenced nor dirty, or none exists |
| `BufferCache.Cache.Bget` | Project 1/xv6-public/bio.c:61-93 | No block of a nonzero device gets two buffers, no dirty or referenced buffer changes its block, and failure means that every buffer is taken |
| `BufferCache.RecycleCoherent` | Project 1/xv6-public/bio.c:81-91 | Handing a clean unreferenced buffer to another block loses no contents of the plain block map |
| `BufferCache.UpdateCoherent` | Project 1/xv6-public/bio.c:95-116 | A change to one buffer, with the disk or the plain map changed at its block only, keeps cache, disk and plain map coherent |
| `BufferCache.Cache.Iderw` | Project 1/xv6-public/memide.c:38-60 | A dirty buffer goes to disk, an invalid one is filled from it; it panics exactly for an unlocked buffer or one with nothing to do |
| `BufferCache.Cache.Bread` | Project 1/xv6-public/bio.c:95-106 | The caller gets, locked, exactly the bytes the plain map from block to bytes holds; disk and plain map do not change |
| `BufferCache.Cache.Modify` | Project 1/xv6-public/log.c:208-212 | A change by the holder of a buffer is one update of the plain map |
| `BufferCache.Cache.Pin` | Project 1/xv6-public/log.c:231 | Marking a buffer dirty keeps its block in the cache and changes neither the plain map nor the disk |
| `BufferCache.Cache.Bwrite` | Project 1/xv6-public/bio.c:108-116 | Writes exactly this block through to disk; it panics exactly when the buffer is not locked |
| `BufferCache.Cache.Unref` | Project 1/xv6-public/bio.c:128-140 | Dropping the last reference makes the buffer the most recently used one and keeps the list a ring of all buffers |
| `BufferCache.Cache.Brelse` | Project 1/xv6-public/bio.c:118-141 | Releasing a buffer whose changes are on disk or pinned keeps the cache coherent; it panics exactly when the buffer is not locked; at count 0 the buffer moves to the front of the list |
| `CrashRecovery.HeaderRoundTrip` | Project 1/xv6-public/log.c:84-113 | read_head reads back what write_head wrote, whatever the header block held before |
| `CrashRecovery.CommitPrefix` | Project 1/xv6-public/log.c:176-202 | What the disk is after every prefix of a commit's block writes: old until the header write, then pending, then new with an empty log |
| `CrashRecovery.InstallPhase` | Project 1/xv6-public/log.c:68-82 | Copying any number of log slots home keeps the transaction fully recoverable from the log |
| `CrashRecovery.HeadPhase` | Project 1/xv6-public/log.c:98-113 | The one header write turns a filled log into a committed transaction |
| `CrashRecovery.RecoverPendingPrefix` | Project 1/xv6-public/log.c:115-122 | A recovery of a committed transaction cut short at any write leaves it recoverable; a completed one leaves the new home blocks and an empty log |
| `CrashRecovery.RecoverIdlePrefix` | Project 1/xv6-public/log.c:115-122 | A recovery with an empty log, cut short anywhere, changes no home block |
| `CrashRecovery.CrashAtomicity` | Project 1/xv6-public/log.c:68-122 | For every transaction, every crash point in its commit and every number of recoveries each cut short anywhere, the first completed recovery leaves the home blocks all new if the first header write reached the disk and all old otherwise |
| `CrashRecovery.CommitsHistory` | Project 1/xv6-public/log.c:192-202 | Over any sequence of commits the home blocks are those of applying the transactions one after the other |
| `CrashRecovery.EventHomes` | Project 1/xv6-public/log.c:115-122 | One event, a commit or a crash in one followed by interrupted recoveries and a completed one, leaves the home blocks with the whole transaction if its header write was made and with none of it otherwise, and the log empty |
| `CrashRecovery.Durability` | Project 1/xv6-public/log.c:192-202 | Over any alternation of commits, crashes at any write and recoveries cut short anywhere, the home blocks are those of exactly the transactions whose first header write reached the disk, in order |
| `RedoLog.FreeBuffer` | Project 1/xv6-public/bio.c:78-92 | Fewer than NBUF pinned blocks and buffers in use leave one that bget can recycle |
| `RedoLog.NoFreeBuffer` | Project 1/xv6-public/bio.c:78-92 | As many as NBUF leave none, where no buffer is both pinned and in use |
| `RedoLog.Fetch` | Project 1/xv6-public/bio.c:95-106 | bread of a block that no one else holds returns the plain map's bytes; it panics exactly when the block is not pinned and pinned blocks and buffers in use fill the cache |
| `RedoLog.StoreBlock` | Project 1/xv6-public/log.c:78-79 | Filling a held buffer and bwrite change disk, plain map and trace at that block only and no buffer of another process |
| `RedoLog.Release` | Project 1/xv6-public/bio.c:118-141 | Releasing a buffer leaves every other process's buffer as it was |
| `RedoLog.CopyBlock` | Project 1/xv6-public/log.c:74-81 | One round of install_trans or write_log writes exactly one block to disk, with the exact condition under which it finds its two buffers |
| `RedoLog.Log.constructor` | Project 1/xv6-public/log.c:53-62 | The log starts out empty, with no operation open, over a cache that nobody uses |
| `RedoLog.Log.BeginOp` | Project 1/xv6-public/log.c:124-141 | One test of begin_op: the operation is counted exactly if no commit runs and its reservation fits |
| `RedoLog.Log.EndOp` | Project 1/xv6-public/log.c:143-174 | The last operation to end commits, and then the disk shows what the cache showed; the exact conditions of both panics |
| `RedoLog.Log.WriteLog` | Project 1/xv6-public/log.c:176-190 | Its disk writes are exactly the home blocks' cached bytes into the log slots, in order; it panics, before the first of them, exactly when logged blocks and readers' buffers fill the cache |
| `RedoLog.Log.InstallTrans` | Project 1/xv6-public/log.c:68-82 | Reached with a buffer to spare, it always finds its buffers, copies every slot home in order, unpins exactly those blocks and leaves readers' buffers alone |
| `RedoLog.Log.EncodeHeader` | Project 1/xv6-public/log.c:107-110 | The loop over the header words produces the encoded block list, leaving the words past it alone |
| `RedoLog.Log.WriteHead` | Project 1/xv6-public/log.c:98-113 | Reached with a buffer to spare, it makes exactly one disk write, the encoded header |
| `RedoLog.Log.ReadHead` | Project 1/xv6-public/log.c:84-96 | read_head loads exactly the block list that the header on disk encodes |
| `RedoLog.Log.Commit` | Project 1/xv6-public/log.c:192-202 | While other processes hold buffers to read: it exhausts the cache, before its first disk write, exactly when the logged blocks and those buffers are NBUF or more; otherwise it makes exactly the disk writes that the crash theorem is about, leaves nothing dirty, an empty log and the readers' buffers alone, and the home blocks on disk become what the cache showed |
| `RedoLog.Log.RecoverFromLog` | Project 1/xv6-public/log.c:115-122 | Recovery makes exactly the disk writes that the crash theorem is about and leaves an empty log and a clean cache |
| `RedoLog.Log.LogWrite` | Project 1/xv6-public/log.c:213-233 | A block is appended once or absorbed, and its buffer pinned; it panics exactly when the guard of the admission model does not pass |
| `RedoLog.Log.Update` | Project 1/xv6-public/log.c:204-233 | bread, modify, log_write and brelse together change the plain map at one block, leave the disk and the readers alone and keep the transaction ready to commit; the exact conditions of its panics |
| `RedoLog.AfterIsContent` | Project 1/xv6-public/log.c:192-202 | The disk that a committed transaction asks for is exactly the plain map before the commit |
| `RedoLog.CrashDuringCommit` | Project 1/xv6-public/log.c:176-202 | For every crash point in a commit and any interrupted recoveries, the home blocks afterwards are all as the cache showed them when the commit began, or all as the disk was before it |
| `LogAdmission.BeginInv` | Project 1/xv6-public/log.c:124-141 | begin_op by any process keeps the admission invariant, whether it sleeps or gets in |
| `LogAdmission.AppendInv` | Project 1/xv6-public/log.c:213-233 | log_write within the operation's budget keeps the admission invariant |
| `LogAdmission.EndInv` | Project 1/xv6-public/log.c:143-174 | end_op keeps the admission invariant, whether it starts the commit or wakes the sleepers |
| `LogAdmission.EraseInv` | Project 1/xv6-public/log.c:192-202 | The end of the commit empties the log and keeps the admission invariant |
| `LogAdmission.AnnounceInv` | Project 1/xv6-public/log.c:165-173 | Clearing committing and waking the sleepers keeps the admission invariant |
| `LogAdmission.RunInv` | Project 1/xv6-public/log.c:124-174 | Every interleaving of any number of processes keeps the admission invariant |
| `LogAdmission.AdmissionSafety` | Project 1/xv6-public/log.c:124-174 | In every reachable state: a commit runs with nothing outstanding, logged blocks plus all unspent reservations fit in LOGSIZE, and a process sleeps in begin_op only while a commit runs or while there is no room for one more operation and another is open |
| `LogAdmission.NoPanicNoBlock` | Project 1/xv6-public/log.c:124-174 | end_op never meets its committing panic, and with no operation and no commit there is room for begin_op |
| `LogAdmission.GuardSafeIff` | Project 1/xv6-public/log.c:213-233 | Operations within their budget never meet the transaction-too-big panic if and only if the log area has at least LOGSIZE+1 blocks; mkfs.c:25 makes it one block smaller |
| `LogAdmission.FilledReachable` | Project 1/xv6-public/log.c:213-233 | The states with k blocks logged by three operations in turn are reachable, up to the size of the log |
| `LogAdmission.RaceReachable` | Project 1/xv6-public/log.c:218-223 | Up to three processes can pass the guard, which is tested outside the lock, before any of them appends |
| `LogAdmission.AbsorbedWriteCanPanic` | Project 1/xv6-public/log.c:218-226 | Even in a large enough log, an operation that has spent its budget can panic on a block that is already logged, because the guard runs before absorption |
| `LogAdmission.BudgetGuardIff` | Project 1/xv6-public/log.c:218-226 | In such a log an operation that has added c blocks can always write once more, logged already or not, if and only if c is below MAXOPBLOCKS |
| `LogAdmission.LogAreaIff` | Project 1/xv6-public/log.c:213-233 | The block list never outgrows the log area if and only if the area has fewer than 2 or more than LOGSIZE blocks; in between, two processes can both take the last place |
| `LogAdmission.CacheSafeIff` | Project 1/xv6-public/log.c:192-202 | No commit starts with all NBUF buffers pinned if and only if the log area has at most NBUF-2 blocks |
| `LogAdmission.NoSafeSize` | Project 1/xv6-public/log.c:213-233 | No size of the log area avoids both the transaction-too-big panic and the no-buffers panic |
| `FileSystem.Fs.constructor` | Project 1/xv6-public/mkfs.c:93-115 | mkfs's volume before the root directory is valid: metadata blocks in use, no inode with a block |
| `FileCrash.BitReadsBack` | Project 1/xv6-public/fs.c:62-68 | The mask test on the bitmap byte tells whether the block is in use |
| `FileCrash.BitUpdate` | Project 1/xv6-public/fs.c:66-68 | Setting or clearing that bit of that byte marks or frees the block and no other |
| `FileCrash.InodeReadsBack` | Project 1/xv6-public/fs.c:220-236 | Every word of an inode, type and device, link count, size and block addresses, can be read back from its inode block |
| `FileCrash.InodeLayout` | Project 1/xv6-public/fs.h:29-36 | The words of an inode in its block: type and major, minor and nlink, size, then the addresses |
| `FileCrash.SameUnlessLogged` | Project 1/xv6-public/fs.c:55-95 | A block of the volume on disk, bitmap, inode or data, that was not logged is the same before and after |
| `FileCrash.AnyImageMounts` | Project 1/xv6-public/mkfs.c:93-115 | Whatever the volume, a disk with an empty log that holds it exists, so the crash theorem below has a disk to speak of |
| `FileCrash.TxnGood` | Project 1/xv6-public/file.c:117-141 | The blocks that a filewrite transaction logs fit in the log and stay clear of the log area, so it is one that commit can make |
| `FileCrash.EventShows` | Project 1/xv6-public/log.c:192-202 | A commit, or a crash in one, takes the disk from one image of the volume to the next or leaves it, never in between |
| `FileCrash.FileWriteCrash` | Project 1/xv6-public/file.c:126-151 | After a crash anywhere in the commit of any chunk of a filewrite and any interrupted recoveries, the disk is the volume before or after that chunk, all of it: sound, with exactly that much of src in the file and every other file as it was |
| `Volume.AllocDirect` | Project 1/xv6-public/fs.c:378-382 | Allocating a direct block keeps every block in use owned by exactly one slot and changes no other slot |
| `Volume.AllocPointer` | Project 1/xv6-public/fs.c:386-388 | Allocating the indirect block keeps ownership; all its entries read as empty |
| `Volume.AllocIndirect` | Project 1/xv6-public/fs.c:389-396 | Allocating an indirect entry keeps ownership, though it rewrites a block that is itself owned |
| `Volume.DataWrite` | Project 1/xv6-public/fs.c:498-504 | Overwriting a data block changes no slot of any inode |
| `Volume.ChunkBytes` | Project 1/xv6-public/fs.c:498-504 | One round of the writei loop changes exactly the bytes written and keeps the file free of holes |
| `Volume.ChunkKeeps` | Project 1/xv6-public/fs.c:498-504 | One round of the writei loop leaves every other file as it was |
| `Volume.BytePlace` | Project 1/xv6-public/fs.c:372-400 | Byte k of a file is byte k % 512 of the block that addrs[k/512] names, or from block 12 on of the one that word k/512 - 12 of block addrs[12] names; both are owned |
| `Volume.FreeDirect` | Project 1/xv6-public/fs.c:414-419 | Freeing a direct block meets a block marked in use and keeps ownership |
| `Volume.FreeEntry` | Project 1/xv6-public/fs.c:424-427 | Each indirect entry of itrunc frees a block that is still marked in use |
| `Volume.FreePointer` | Project 1/xv6-public/fs.c:421-431 | After its entries the indirect block itself is still in use, and freeing it keeps ownership |
| `FileSystem.Fs.Balloc` | Project 1/xv6-public/fs.c:55-78 | First fit: the lowest free block, zeroed and marked; it panics only when no block is free |
| `FileSystem.Fs.Bfree` | Project 1/xv6-public/fs.c:80-95 | Clears the bit of exactly one block; it panics exactly when the block is free |
| `FileSystem.Fs.BmapDirect` | Project 1/xv6-public/fs.c:378-382 | The block of a direct index, allocated if missing, all else kept |
| `FileSystem.Fs.BmapIndirect` | Project 1/xv6-public/fs.c:383-397 | The block of an indirect index, with the indirect block and the entry allocated if missing, all else kept |
| `FileSystem.Fs.Bmap` | Project 1/xv6-public/fs.c:372-400 | The block of a file index: everything already mapped stays mapped with the same bytes, new blocks are zero, ownership is kept, and at most two bitmap blocks and the indirect block are logged beside it |
| `FileSystem.Fs.Iupdate` | Project 1/xv6-public/fs.c:217-236 | The inode on disk becomes the one in memory, and one inode block is logged |
| `FileSystem.Fs.WriteLoop` | Project 1/xv6-public/fs.c:498-504 | The loop writes src at off in pieces, keeps ownership and the absence of holes, and stays within the count of logged blocks |
| `FileSystem.Fs.Writei` | Project 1/xv6-public/fs.c:479-511 | A successful call splices src in at off, sets size to max(size, off+n) and changes no other file; it is rejected exactly for an offset past the end or an end past 140 blocks, the test for 32-bit overflow adding nothing, and then changes nothing; it panics only on a full disk |
| `FileSystem.Fs.Readi` | Project 1/xv6-public/fs.c:450-476 | Returns exactly the bytes of the file from off, clipped at its size, and changes nothing, not even by allocating; -1 exactly past the end or on 32-bit overflow |
| `FileSystem.Fs.TruncDirect` | Project 1/xv6-public/fs.c:414-419 | The direct blocks are freed without the freeing-free-block panic |
| `FileSystem.Fs.TruncIndirect` | Project 1/xv6-public/fs.c:421-431 | The indirect entries and then the indirect block are freed without that panic |
| `FileSystem.Fs.Itrunc` | Project 1/xv6-public/fs.c:402-435 | Never panics, frees exactly the blocks this inode owned, leaves it empty and every other file as it was |
| `FileSystem.Truncated` | Project 1/xv6-public/fs.c:402-435 | The two freeing phases together give back exactly the inode's blocks and keep ownership |
| `FileSystem.OverwriteTwice` | Project 1/xv6-public/fs.c:479-511 | Two adjacent writes are one write of the concatenation |
| `FileSystem.SplicedTrans` | Project 1/xv6-public/file.c:126-151 | The chunks of filewrite compose to one splice |
| `FileSystem.TallyTotal` | Project 1/xv6-public/fs.c:479-511 | A write logs at most its data blocks, the bitmap blocks of what it grows by, one indirect block and the inode block |
| `FileSystem.ChunkFits` | Project 1/xv6-public/file.c:126-151 | For every offset and length, one filewrite chunk on a file without holes stays within MAXOPBLOCKS logged blocks |
| `FileSystem.Fs.FileWrite` | Project 1/xv6-public/file.c:116-156 | Every transaction logs at most MAXOPBLOCKS blocks and all that it changes; the chunks together splice a prefix of src, all of it unless writei rejects the whole; the volume after each chunk is sound, has exactly the chunks so far and every other file as it was; a rejected call has written exactly the chunks in front of the first one that writei rejects |
| `Heap.FreeInsert` | Project 1/xv6-public/umalloc.c:33-43 | free next to no lower neighbour, with or without an upper one: the ring stays circular, ordered and never adjacent, live blocks stay apart, and free units grow by the block |
| `Heap.FreeMerge` | Project 1/xv6-public/umalloc.c:33-43 | free right above a free block, with or without an upper neighbour: the same, with the block merged into it |
| `Heap.TakeWhole` | Project 1/xv6-public/umalloc.c:76-77 | Taking a block of exactly the size asked for off the ring keeps the heap invariant and the count of units |
| `Heap.TakeTail` | Project 1/xv6-public/umalloc.c:78-82 | Taking the tail of a larger block keeps the heap invariant and the count of units |
| `Heap.SearchStops` | Project 1/xv6-public/umalloc.c:30-32 | The exit test of free's search loop holds at exactly one block of the ring |
| `Heap.FindGap` | Project 1/xv6-public/umalloc.c:30-32 | Every well-formed ring has that block |
| `Heap.GoalAhead` | Project 1/xv6-public/umalloc.c:73-89 | After morecore the large enough block is reached before the search comes round again |
| `Heap.Malloc.constructor` | Project 1/xv6-public/umalloc.c:21-22 | The heap starts with no ring, nothing live and nothing obtained |
| `Heap.Malloc.FindPlace` | Project 1/xv6-public/umalloc.c:30-32 | The search ends at the free block just below bp on the address order |
| `Heap.Malloc.Free` | Project 1/xv6-public/umalloc.c:24-44 | The live block joins the ring and merges with both neighbours it touches; the invariant and free plus live equals obtained are kept |
| `Heap.Malloc.Morecore` | Project 1/xv6-public/umalloc.c:46-61 | At least 4096 units are obtained and given to free, or nothing changes; afterwards a large enough block is at freep or right after it |
| `Heap.Malloc.Units` | Project 1/xv6-public/umalloc.c:69 | The units asked for are the bytes rounded up plus one header |
| `Heap.Malloc.Take` | Project 1/xv6-public/umalloc.c:75-84 | The block or its tail becomes live and freep moves to its predecessor |
| `Heap.Malloc.Alloc` | Project 1/xv6-public/umalloc.c:63-90 | Terminates; returns a fresh live block of the size asked for, apart from all others, or null only if sbrk failed and every free block is too small; the heap grows at most once and only after every free block was tried |
| `ProcTable.Ptable.Allocproc` | Project 1/xv6-public/proc.c:75-93 | The first unused entry becomes an embryo with the next pid, or none is unused |
| `ProcTable.Ptable.Wakeup1` | Project 1/xv6-public/proc.c:462-473 | Exactly the processes sleeping on the channel become runnable, and nothing else of any entry changes |
| `ProcTable.Ptable.Exit` | Project 1/xv6-public/proc.c:229-271 | The parent is woken if it sleeps in wait, every child goes to init, which is woken if one of them is a zombie, the caller becomes a zombie, and nothing else of any entry changes; it panics exactly for init |
| `ProcTable.Ptable.Wait` | Project 1/xv6-public/proc.c:274-320 | Reaps the first zombie child if there is one and leaves its entry unused, without pid, parent or kill mark; fails if there is no child or the caller was killed, sleeps otherwise |
| `ProcTable.Ptable.Kill` | Project 1/xv6-public/proc.c:484-505 | The first entry with the pid is marked killed and does not sleep any more, its pid, parent and channel kept and every other entry too, or no entry has it |
| `ProcLife.AllocInv` | Project 1/xv6-public/proc.c:189-192 | allocproc in fork keeps the process-table invariant |
| `ProcLife.AllocFailsInv` | Project 1/xv6-public/proc.c:194-200 | A fork that runs out of memory keeps the process-table invariant |
| `ProcLife.SetParentInv` | Project 1/xv6-public/proc.c:202 | Setting the parent of the new entry outside the lock keeps the process-table invariant |
| `ProcLife.ForkDoneInv` | Project 1/xv6-public/proc.c:215-223 | Making the child runnable keeps the process-table invariant |
| `ProcLife.ExitInv` | Project 1/xv6-public/proc.c:252-268 | exit keeps the process-table invariant: no orphan, no parent asleep over a zombie child |
| `ProcLife.WaitReapInv` | Project 1/xv6-public/proc.c:288-305 | Reaping keeps the process-table invariant and records the pid once |
| `ProcLife.MoveInv` | Project 1/xv6-public/proc.c:322-505 | Sleeping, waking by a process or an interrupt, scheduling, yielding and killing keep the process-table invariant |
| `ProcLife.RunInv` | Project 1/xv6-public/proc.c:182-505 | Every run of any number of processes keeps the process-table invariant |
| `ProcLife.ExitWaitSafety` | Project 1/xv6-public/proc.c:182-320 | In every run since boot: each live or zombie process but init has a live parent, no parent sleeps in wait over a zombie child, every pid ever given is held, reaped once or aborted, and wait returns no pid twice |
| `ProcLife.KillDooms` | Project 1/xv6-public/proc.c:484-505 | kill marks the process it names and leaves it awake |
| `ProcLife.KilledStays` | Project 1/xv6-public/proc.c:274-320 | In every run a process once killed stays marked until wait has returned its pid, or its fork has failed |
| `SleepLock.GoInv` | Project 1/xv6-public/sleeplock.c:22-42 | Every instruction of acquiresleep and releasesleep, and of sleep and wakeup inside them, keeps the lock invariant |
| `SleepLock.NextInv` | Project 1/xv6-public/proc.c:425-482 | So do kill, the scheduler and every other step |
| `SleepLock.SleepLockSafety` | Project 1/xv6-public/sleeplock.c:22-42 | In every interleaving of any number of processes at most one holds the sleep lock, and with the inner spinlock free a process sleeps on the lock only while it is held, so no wakeup is lost |
| `SleepLock.CallsReturn` | Project 1/xv6-public/sleeplock.c:22-42 | In every run a process leaves acquiresleep only as the holder, keeps the lock until it calls releasesleep, and leaves that without it |
| `SleepLock.CallsProgress` | Project 1/xv6-public/sleeplock.c:22-42 | Each of its own steps brings a process closer to the end of its call, unless it finds the lock held |
| `SleepLock.NoDeadlock` | Project 1/xv6-public/spinlock.c:24-68 | The inner spinlock and ptable.lock never deadlock: whoever waits for one, some process inside can move |
| `Pipe.WrapIndex` | Project 1/xv6-public/pipe.c:93 | Counters wrapped at 32 bits index the ring like unwrapped ones |
| `Pipe.WrapTests` | Project 1/xv6-public/pipe.c:85-106 | On wrapped counters the tests for full and empty are exact |
| `Pipe.Ring.constructor` | Project 1/xv6-public/pipe.c:22-45 | A new pipe is empty with both ends open |
| `Pipe.Ring.Put` | Project 1/xv6-public/pipe.c:93 | One byte joins the bytes written and overwrites none that is unread |
| `Pipe.Ring.Get` | Project 1/xv6-public/pipe.c:116 | One byte is taken, the oldest unread one |
| `Pipe.Ring.Write` | Project 1/xv6-public/pipe.c:78-98 | Appends the bytes from start on, in order, until done, or until the pipe is full and then sleeps, or fails exactly if the reader is gone or the writer killed; readers are woken unless it fails |
| `Pipe.Ring.Read` | Project 1/xv6-public/pipe.c:100-121 | Returns the next bytes in write order, as many as asked for and there are; sleeps exactly on an empty pipe with an open writer, and fails there exactly if killed; writers are woken |
| `Pipe.Ring.Close` | Project 1/xv6-public/pipe.c:59-75 | Closes that end and not the other, and wakes whoever waits for it |
| `Pipe.Fifo` | Project 1/xv6-public/pipe.c:78-121 | Over every interleaving the bytes read are exactly the bytes written, in order and without gaps, and occupancy stays within PIPESIZE |
| `Pipe.NextWritten` | Project 1/xv6-public/pipe.c:85-118 | A write puts in as many of its bytes as there is room for, from the first on; a read takes the lesser of what it asks for and what there is |
| `Pipe.ReadsAreWrites` | Project 1/xv6-public/pipe.c:78-121 | In every run the bytes read, followed by those still in the pipe, are those that the writes put in, in order |
| `Pipe.CalmIff` | Project 1/xv6-public/pipe.c:78-121 | A step keeps every sleeping reader over an empty pipe and every sleeping writer over a full one if and only if it is not a killed write of more than PIPESIZE bytes while a reader sleeps |
| `Pipe.CalmRun` | Project 1/xv6-public/pipe.c:78-121 | In every run without kills a sleeping reader implies an empty pipe with an open writer and a sleeping writer a full pipe with an open reader |
| `Pipe.KilledWriterStrandsReader` | Project 1/xv6-public/pipe.c:85-89 | A killed writer can leave a reader asleep over a full pipe |
| `DiskQueue.ChainAppend` | Project 1/xv6-public/ide.c:151-155 | Linking a buffer behind the last one appends it to the queue |
| `DiskQueue.ChainPop` | Project 1/xv6-public/ide.c:111-115 | Unlinking the first buffer leaves the queue of the others |
| `DiskQueue.Ide.Submit` | Project 1/xv6-public/ide.c:137-159 | The request joins the end of the queue, and the device starts exactly if it is alone; it panics exactly if there is nothing to do |
| `DiskQueue.Ide.Interrupt` | Project 1/xv6-public/ide.c:102-131 | The first request completes: a dirty buffer keeps its data and the disk block becomes it, another gets the block's data and the disk stays; either way as memide's iderw does, its owner is woken and the next one starts |
| `DiskQueue.Ide.Touch` | Project 1/xv6-public/bio.c:81-91 | A buffer that is not queued may change in any way, also to another block, without disturbing the queue or the device |
| `DiskQueue.FirstComeFirstServed` | Project 1/xv6-public/ide.c:102-168 | In every interleaving requests are served in the order made, each once |
| `DiskQueue.RefinesSync` | Project 1/xv6-public/memide.c:35-60 | Every interleaving of callers, interrupts and holders who change or recycle buffers ends with buffers and disk as if each served request were one synchronous iderw at its completion |
| `DiskQueue.DiskIsCurrent` | Project 1/xv6-public/ide.c:102-168 | In every interleaving the disk holds, for each block, the data of the last write served |
| `DiskQueue.ReadsLastWrite` | Project 1/xv6-public/ide.c:117-123 | A read returns the last write served to its block before it, and a write keeps its data |
| `DiskQueue.BufferUntouched` | Project 1/xv6-public/ide.c:161-164 | Between its request and its completion nobody changes the buffer |
| `PageTable.EntryFields` | Project 1/xv6-public/mmu.h:93-101 | Frame and flags can be read back out of an entry |
| `PageTable.AddTable` | Project 1/xv6-public/vm.c:36-55 | A zeroed frame becomes a page table and no page is mapped or unmapped by it |
| `PageTable.MapUser` | Project 1/xv6-public/vm.c:61-80 | Mapping one user page on a fresh frame changes the lookup of that page only and the frame has one owner |
| `PageTable.MapKernel` | Project 1/xv6-public/vm.c:61-80 | Mapping one kernel page changes the lookup of that page only |
| `PageTable.UnmapUser` | Project 1/xv6-public/vm.c:268-275 | Clearing an entry unmaps that page only and its frame is the one owned by it |
| `PageTable.SpaceFrame` | Project 1/xv6-public/vm.c:35-80 | What is mapped depends on the directory and its tables alone |
| `FrameCount.SpaceSize` | Project 1/xv6-public/vm.c:32-55 | An address space owns one frame for its directory, one for each table and one for each mapped user page |
| `AddressSpace.Vm.Kalloc` | Project 1/xv6-public/kalloc.c:79-95 | Pops the first free frame or fails on an empty list |
| `AddressSpace.Vm.Kfree` | Project 1/xv6-public/kalloc.c:55-77 | Pushes the frame, overwritten, or panics exactly outside the allocatable range |
| `AddressSpace.Vm.Freerange` | Project 1/xv6-public/kalloc.c:46-53 | The free list gains exactly the frames of the range, each once |
| `AddressSpace.Vm.Walkpgdir` | Project 1/xv6-public/vm.c:32-55 | Finds or allocates the table of a page; fails exactly without one and without a frame; no mapping changes and every frame is accounted for |
| `AddressSpace.Vm.MapOne` | Project 1/xv6-public/vm.c:57-80 | One page is mapped with the frame and flags given and nothing else changes; without memory for a table nothing changes; the remap panic exactly if the page is mapped already |
| `AddressSpace.Vm.MapRange` | Project 1/xv6-public/vm.c:57-80 | A range of kernel pages is mapped as given and no other page changes; it fails only with the free list used up and a table still missing; frames are conserved also when it fails halfway or panics |
| `AddressSpace.Vm.Setupkvm` | Project 1/xv6-public/vm.c:117-136 | The directory maps exactly the kernel regions; it fails if and only if fewer than 65 frames are free, and then every frame is back on the free list |
| `AddressSpace.KernelMap` | Project 1/xv6-public/vm.c:105-115 | What those regions are: physical memory in order from KERNBASE on with the kernel text read-only, the devices on themselves, nothing below KERNBASE and nothing for the user |
| `AddressSpace.KeptSize` | Project 1/xv6-public/kalloc.c:55-95 | Free frames and owned frames together stay the same in number |
| `AddressSpace.Vm.AllocPage` | Project 1/xv6-public/vm.c:233-247 | kalloc and mappages for one page: mapped with the contents given, or nothing changed, or the frame still in hand, or the remap panic, each with its condition |
| `AddressSpace.Vm.Allocuvm` | Project 1/xv6-public/vm.c:219-249 | All pages from oldsz to newsz appear zeroed, or, exactly if there are fewer frames than those pages and their missing tables need, none of them is left and only owned page tables stay behind; no other page changes and frames are conserved; it panics only over a page that was mapped |
| `AddressSpace.Vm.Deallocuvm` | Project 1/xv6-public/vm.c:251-279 | Exactly the mapped pages between newsz and oldsz go back to the free list, although the loop jumps over missing tables |
| `AddressSpace.Vm.Freevm` | Project 1/xv6-public/vm.c:281-298 | Exactly the frames taken for the directory, each once, go back to the free list |
| `AddressSpace.Vm.Copyuvm` | Project 1/xv6-public/vm.c:313-345 | The child maps the same pages with the same flags and contents on frames disjoint from the parent's, and the parent is unchanged; with k mapped pages in front of the first hole it fails if and only if fewer than 65 + k + ceil(k/1024) frames are free, and then every frame is back on the free list; it panics exactly if there are enough and a page below sz is missing |
| `AddressSpace.Vm.constructor` | Project 1/xv6-public/kalloc.c:20-23 | At boot the free list is empty and sound |
| `AddressSpace.Isolated` | Project 1/xv6-public/vm.c:35-345 | Whatever moves frames between the free list and one directory leaves the tables, pages and mappings of every other directory alone |
| `ProcMemory.Growproc` | Project 1/xv6-public/proc.c:158-177 | Grows with zeroed pages, exactly if the new size stays below KERNBASE and there are frames for the pages and the tables they need, or shrinks, keeps the rest, conserves frames; shrinking to nothing reports failure after the pages are gone, so a failed call keeps all pages below the size if and only if it was to grow or the size was 0, and no call gives a process its lost first page back |
| `ProcMemory.FamilyStep` | Project 1/xv6-public/proc.c:158-224 | What one process does to its memory is invisible to all others, and every frame stays free or owned |
| `ProcMemory.Machine.constructor` | Project 1/xv6-public/kalloc.c:31-44 | No process yet: the frames of the system are those on the free list |
| `ProcMemory.Machine.Spawn` | Project 1/xv6-public/vm.c:117-136 | setupkvm among any number of processes: one with an empty address space joins, exactly if 65 frames are free, or nothing is lost |
| `ProcMemory.Machine.Grow` | Project 1/xv6-public/proc.c:158-177 | growproc of one process among any number: its new size, and whether it has now shrunk to nothing; the others keep theirs; it grows exactly if there are frames enough |
| `ProcMemory.Machine.Fork` | Project 1/xv6-public/proc.c:182-200 | A copy of that process joins, page by page the same with frames of its own, or nothing is lost; it succeeds exactly if that process has all its pages and there are frames for the copy, and panics exactly if it has shrunk to nothing and 65 frames are free |
| `ProcMemory.Machine.Reap` | Project 1/xv6-public/proc.c:295-307 | The address space of a process is taken apart and the others keep theirs |
| `ProcMemory.Machine.Run` | Project 1/xv6-public/proc.c:158-320 | Over any sequence of these operations of any processes everything stays sound; if fork panics, then over a process without its first page, and some earlier operation of the run was a growproc that shrank a process of some size to exactly 0 |
| `ProcMemory.HollowOrigin` | Project 1/xv6-public/proc.c:158-177 | In every history of sizes a process loses its first page only through a growproc that shrinks a process of some size to exactly 0 |
| `ProcMemory.Machine.Shutdown` | Project 1/xv6-public/vm.c:281-298 | Once every process is gone the free list holds exactly the frames it began with, each once |
| `ProcMemory.Lifetime` | Project 1/xv6-public/vm.c:117-345 | The whole: any run of setupkvm, growproc, fork and freevm over any processes, failures included, then freevm of what is left, restores exactly the free frames it began with; it is cut short by a panic of fork only after a growproc to size 0 |
| `ShellGrammar.ArgsBack` | Project 1/xv6-public/sh.c:416-447 | The argument loop recovers the words and redirections of a printed simple command, or panics exactly if there are ten words or more |
| `ShellGrammar.TokenRoundTrip` | Project 1/xv6-public/sh.c:328-447 | Parsing recovers every tree from its minimally parenthesised printing, and panics with too many args exactly if some simple command has more than nine words |
| `ShellGrammar.ParsedTrees` | Project 1/xv6-public/sh.c:328-447 | A tree is the parse of some token list if and only if its redirections are < or > nodes and no simple command has more than nine words |
| `ShellGrammar.AppendIsWrite` | Project 1/xv6-public/sh.c:391-394 | Writing every >> as > changes no parse |
| `ShellGrammar.SimpleCommand` | Project 1/xv6-public/sh.c:416-447 | However words and redirections are mixed, the words become the arguments in their order and the redirections wrap the command in theirs, with < on descriptor 0 and > and >> on 1; ten words panic |
| `ShellGrammar.SimpleErrors` | Project 1/xv6-public/sh.c:382-435 | A redirection without a file, and a parenthesis inside a simple command, panic each in its own way |
| `ShellGrammar.NothingLost` | Project 1/xv6-public/sh.c:328-447 | In every line that parses the words and operators, and the redirections, are those of the tree from left to right, and nothing is left over |
| `ShellGrammar.ParenErrors` | Project 1/xv6-public/sh.c:334-411 | A closing parenthesis too many and one too few are each their panic |
| `ShellGrammar.BlockLeft` | Project 1/xv6-public/sh.c:334-341 | A word or a block behind a block is the panic over leftovers |
| `ShellParser.LexRender` | Project 1/xv6-public/sh.c:266-309 | The tokens of a printed line are the tokens printed |
| `ShellParser.LexSpread` | Project 1/xv6-public/sh.c:266-309 | With any blanks between them, and none where two tokens cannot be taken for one, the tokens of a line are those it was made of; >> is one token of two characters |
| `ShellParser.LineText` | Project 1/xv6-public/sh.c:345-360 | Parsing depends on the shape of the tokens only, and puts only maximal words of the line in the tree |
| `ShellParser.RoundTrip` | Project 1/xv6-public/sh.c:328-447 | The same on lines of characters: the parser recovers any command of legal words from its printed line |
| `ShellParser.AnySpacing` | Project 1/xv6-public/sh.c:266-447 | A command of legal words is recovered from its line however that is spaced and whichever of > and >> it has |
| `ShellParser.NulTerminated` | Project 1/xv6-public/sh.c:449-494 | After nulterminate every argv and file string of any parsed line equals its token; no write lands inside another token |
| `ShellParser.PrintedReadsBack` | Project 1/xv6-public/sh.c:328-494 | Printing, parsing and nulterminate end to end: the strings in the buffer are the words of the command |
| `ShellParser.Parser.constructor` | Project 1/xv6-public/sh.c:334 | strlen finds the end of the line |
| `ShellParser.Parser.Gettoken` | Project 1/xv6-public/sh.c:266-309 | Returns the next token with its bounds and moves the cursor past it and no other |
| `ShellParser.Parser.Peek` | Project 1/xv6-public/sh.c:311-321 | Moves past blanks only and tells whether the next token is one of those asked for |
| `ShellParser.Parser.Parseredirs` | Project 1/xv6-public/sh.c:375-398 | The cursor loop does what the grammar says and ends on every input |
| `ShellParser.Parser.Parseargs` | Project 1/xv6-public/sh.c:430-446 | The argument loop does what the grammar says, including both of its panics |
| `ShellParser.Parser.Parseexec` | Project 1/xv6-public/sh.c:416-447 | Refines the grammar's simple command or block |
| `ShellParser.Parser.Parseblock` | Project 1/xv6-public/sh.c:400-414 | Refines the grammar's parenthesised line, including the missing ) panic |
| `ShellParser.Parser.Parsepipe` | Project 1/xv6-public/sh.c:362-373 | Refines the grammar's right-nested pipeline |
| `ShellParser.Parser.Parseline` | Project 1/xv6-public/sh.c:345-360 | Refines the grammar's list of background jobs |
| `ShellParser.Parser.Nulterminate` | Project 1/xv6-public/sh.c:449-494 | Writes a NUL at the end of every word of the tree and nowhere else |
| `ShellParser.Parser.Parsecmd` | Project 1/xv6-public/sh.c:328-343 | For every line: the grammar's tree with every word readable as a C string equal to its token, or the grammar's panic with the buffer untouched |
| `Matcher.StarMatches` | Project 1/xv6-public/grep.c:98-106 | A starred item matches exactly if, after some number of fitting characters, the rest of the pattern does |
| `Matcher.OnceMatches` | Project 1/xv6-public/grep.c:93-94 | A single item matches exactly if the first character fits and the rest of the pattern matches after it |
| `Matcher.Matchhere` | Project 1/xv6-public/grep.c:84-96 | True exactly if the text begins with pieces that spell the pattern's items one for one, and ends there if the pattern ends in $ |
| `Matcher.Matchstar` | Project 1/xv6-public/grep.c:98-106 | True exactly if some run of the character, possibly empty, is followed by a match of the rest |
| `Matcher.Match` | Project 1/xv6-public/grep.c:72-82 | True exactly if the pattern matches somewhere in the line, or at its start after ^ |
| `Matcher.CompiledText` | Project 1/xv6-public/grep.c:84-96 | No two patterns mean the same row of items, and what a pattern means can be written back to it |
| `Matcher.TextCompiled` | Project 1/xv6-public/grep.c:84-96 | A row of items is what its text means if and only if no item of character * follows a single one and a last single $ comes with the end anchor |
| `Matcher.OrdinaryMatches` | Project 1/xv6-public/grep.c:72-96 | A pattern without special characters matches exactly the lines that contain it, after ^ those that begin with it, before $ those that end with it |
| `Matcher.SpecialMatches` | Project 1/xv6-public/grep.c:84-106 | A dot takes any one character, a starred dot any run of characters, another starred character any run of itself, possibly empty |

## Left out

- RedoLog.Log.Commit: waiting for a reader of one of its blocks and readers that come and go during the call are not steps of it.
- RedoLog.Log.constructor: reading the superblock is left out, and recovery is a call of its own.
- BufferCache.Cache.Bread: waiting for another holder of the buffer is not part of the step; the caller goes on once the buffer is free.
- BufferCache.Cache.Lock: the sleep lock inside a buffer is a flag here; its protocol is the subject of `SleepLock`.
- BufferCache.Cache.Iderw: requests are for blocks that the device has; memide's panics on another device or a block out of range are a precondition of bget.
- FileSystem.Fs.Balloc: it works on the free bitmap as booleans; `FileCrash` proves what that means for bytes and masks.
- FileSystem.Fs.Bfree: as for balloc.
- FileSystem.Fs.Iupdate: inodes are records here, packed into blocks by `FileCrash`; type with major and minor with nlink are one word each, which no operation here looks into.
- FileSystem.Fs.Writei: device inodes are not modelled, and neither is the state that a panic on a full disk leaves behind.
- FileSystem.Fs.Readi: device inodes are not modelled.
- Heap.Malloc.Alloc: the single call to sbrk is a parameter, and header sizes do not overflow 32 bits.
- AddressSpace.Vm.Kalloc: the free list is a sequence, not threaded through the frames.
- AddressSpace.Vm.Kfree: as for kalloc.
- Pipe.Ring.constructor: the failures of pipealloc, which allocates files and a page, are left out.
- Pipe.Ring.Close: freeing the pipe once both ends are closed is left out.
- DiskQueue.Ide.Submit: its panics on an unlocked buffer and a missing disk are left out.
- AddressSpace.Vm.Deallocuvm: sizes are at most KERNBASE, as in every caller.
- ShellParser.Parser.Parseargs: tree nodes are values, so filling argv through an older pointer is an update of the tree; malloc failure is not modelled.
- Matcher.Match: the text is a string without NULs rather than a pointer into the line buffer.
- ProcTable.Ptable.Allocproc: the kernel stack and trap frame of a new process are not modelled; running out of memory in fork is a step of `ProcLife`.
- SleepLock.SleepLockSafety: liveness is stated as the absence of lost wakeups and deadlock, not as fairness of the scheduler.
- spinlock.c's pushcli and popcli: the interrupt nesting counters of a CPU.
- Directories, path lookup, link counts and the inode cache (`iget`, `iput`, `dirlink`, `namex`).
- exec.c, sysfile.c, syscall.c and the system calls cps, shm_alloc and describe: glue and printing over the layers modelled.
- Boot, traps, interrupt controllers, context switches and the console: hardware access; a context switch is one atomic step.
- Memory ordering and C undefined behaviour: steps are sequentially consistent.
- The shell's runcmd and grep's line buffering: process plumbing and I/O around the parser and the matcher.
- Project 2 and the small user programs: no invariant worth a proof.
