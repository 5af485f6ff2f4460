# A verified model of the kernel, shell and allocator

The repository is xv6 with a scheduler that runs the process of least priority number. This project models its
log, buffer cache, file system, virtual memory, process table, pipes, user-space allocator, shell parser and
pattern matcher in Dafny, and proves what each of them keeps over every input or every interleaving.
`dafny verify dfyconfig.toml` checks all of it.

How the parts fit together:

- **Log** (`Log`, `LogProtocol`, `LogLimits`, `LogOps`). `Log` treats a commit and a recovery as sequences of single block
  writes and shows what every crash point recovers to. `LogProtocol` is the machine in which any number of
  operations begin, log blocks and end while block writes and crashes fall anywhere between; log_write is two
  steps in it, since its test for room is made without the lock. `LogLimits` says how far the log can grow and
  which layouts have runs into its panics or past its end. `LogOps` is the code, with its fields and loops, proved to issue
  exactly those write sequences.
- **Buffer cache** (`BufCache`, `BufSteps`, `BufRuns`, `BufOps`). The machine of all interleavings of bio.c's critical
  sections over memide.c's disk, what holds of whole runs told by their actions alone, and the code with its linked
  ring. `last` is the disk that callers should see.
- **File system** (`Block`, `Bitmap`, `Inode`, `FileSpec`, `BlockMap`, `BlockCount`, `FileWriteSpec`,
  `Truncate`, `TruncateBudget`, `Mkfs`, `Fs`). The disk is the view through the cache. `owner` names the one reference to each block in use; `Contents` spells a
  file; `AtRest` is what holds between operations.
- **Memory** (`PageTable`, `PageCount`, `VmSpec`, `Vm`). Frames are pages of 1024 words; `owner` gives each frame
  its one use; `Pte` is the flat map that a two-level table stands for; `Cost` counts the frames a range of pages
  takes; `RightsOf` is what both levels of the table allow.
- **Processes** (`Proc`, `ProcMachine`, `ProcLife`, `ProcRuns`, `ProcOps`). The effect of each critical section on
  the table, the machine of all their interleavings on any number of CPUs, the life of one process in a run, runs
  into the scheduler's faults, and the loops run in place.
- **Pipes** (`Pipe`), the **allocator** (`FreeList`, `Umalloc`; `cover` names the block each unit of the heap
  lies in), the **shell** (`ShellGrammar`, `ShellSyntax`, `ShellLex`, `Shell`; `ShellSyntax` gives the language by
  syntax trees) and **grep** (`Grep`). `Sequences` and `Params` have what several of them need.

Where the code and its documentation differ, the model follows the code. `README.md` of the repository says that
priorities are bumped periodically against starvation; the scheduler has no such step. It also speaks of
classifying by a threshold; the code compares ticks for equality only.

Properties that turn out false of the code are stated with the exact condition and a run or input that shows it:

- An operation within its budget can meet the "too big a transaction" panic: for a new block exactly when the log
  area has at most LOGSIZE blocks, which is how mkfs makes it (`LogLimits.NewBlockRefused`), and for a block it has
  logged before in any layout whose disk can fill the log (`OldBlockRefused`).
- Operations that pass the test for room together can put two blocks more into the log than it allows. A commit of
  LOGSIZE blocks then finds no buffer for its log slots, and by the log alone this is possible exactly when the log
  area has at least LOGSIZE - 1 blocks; a buffer held by a reader makes it happen one block earlier
  (`LogLimits.GroupTooLarge`). No size of the log area avoids both panics (`NoSafeSize`).
- On a log area of 2 to LOGSIZE - 1 blocks a commit can outgrow it and write over the home block behind it
  (`LogLimits.CommitOutgrows`), and then whole operations are not atomic; on every other layout, mkfs's included,
  they are (`LogLimits.AtomicExactly`).
- Truncating a file can log more than MAXOPBLOCKS blocks, exactly on disks with bits of data blocks in that many
  bitmap blocks (`TruncateBudget.TruncateExceeds`).
- More than 50 equal priorities overrun the scheduler's candidate list, and 51 forks in one second lead there;
  priorities above 20 divide by zero, and sp leads there (`Proc.ChoiceIsLeast`, `ProcRuns.ListOverflows`,
  `ProcRuns.DividesByZero`).
- A process that is always runnable can be kept from the CPU for ever by another that gives it up within its tick
  each time (`ProcRuns.Starves`); processes of the same least priority do take turns (`ProcLife.TakeTurns`).
- A killed writer can leave a reader asleep beside a full pipe (`Pipe.LostWakeup`, `AbandonedReader`).
- Shrinking a process to nothing frees its pages but keeps its size (`Vm.Machine.Growproc`).
- malloc of more than 2^32 - 8 bytes gets too small a block (`Umalloc.UnitsEnough`), and from 2^28 units on sbrk is
  asked for another amount than the block's (`Umalloc.SbrkGrows`, `Umalloc.Allocator.Malloc`).

Panics are results: a false `ok`, a zero address, or a constructor such as `Panicked`. Locks are modelled by
taking each critical section as one step; clocks, tick counts and whether sbrk succeeds are parameters.

## Model

| member | source | states |
|---|---|---|
| `Log.HeaderRoundTrip` | Final/log.c:85-113 | What write_head stores in the header block, read_head reads back, whatever the block held before. |
| `Log.RecoveryPoint` | Final/log.c:69-82 | A crash after any number of recovery's block writes leaves a disk that recovers to the same home blocks; all of the writes leave an empty header. |
| `Log.BeforeHeader` | Final/log.c:178-190 | Until the header write, and as long as its slots lie in the log area, a commit cut off anywhere leaves a disk that recovers to the old home blocks. |
| `Log.CommitTail` | Final/log.c:193-202 | From the header write on, the remaining writes of a commit are exactly those that recovery would issue. |
| `Log.CommitPoint` | Final/log.c:193-202 | The disk after k writes of a commit recovers to the new blocks if the header write is among them and to the old ones otherwise. |
| `Log.CrashesKeep` | Final/log.c:115-122 | Any number of recoveries, each cut off anywhere, leave the same home blocks to be recovered. |
| `Log.RecoveryCompletes` | Final/log.c:115-122 | A completed recovery yields the represented home blocks and an empty log. |
| `Log.CrashAtomicity` | Final/log.c:69-202 | A commit cut off after any k of its block writes, then any series of interrupted recoveries, then a complete one: the home blocks are all new if the first header write was among the k, and all old otherwise. |
| `LogProtocol.ReservationKept` | Final/log.c:126-174 | Every begin_op, test and entry of log_write, end_op, block write and crash keeps logged blocks plus unspent budgets within LOGSIZE. |
| `LogProtocol.BoundKept` | Final/log.c:218-232 | log_write tests for room without log.lock; every step keeps the logged blocks and the operations past the test within two of what the test allows, since three operations at most are outstanding. |
| `LogProtocol.InvKept` | Final/log.c:126-233 | Every step of every participant, with log_write's unlocked test and locked entry as two steps, keeps the log invariant: pinned buffers are the logged blocks, commits run with no operation outstanding, the disk is a prefix of the commit's or recovery's writes. |
| `LogProtocol.DurableStep` | Final/log.c:193-202 | The blocks that survive a crash change in two steps only, both with no operation outstanding: the header write of a commit makes durable what the system shows, and the write of a commit that has outgrown the log area replaces the home block behind it. |
| `LogProtocol.VolatileStep` | Final/log.c:214-233 | What the system shows changes only by log_write, in the logged block, or by a commit that has outgrown the log area, in the block behind it; it falls back only by a crash, to what is durable. |
| `LogProtocol.WholeOperations` | Final/log.c:9-18 | On every layout in which no commit can write over a home block, mkfs's among them: for every interleaving of operations, block writes and crashes, recovery of the resulting disk yields the blocks shown at the last commit of the run (at its start if there was none), a moment when no operation was in progress. |
| `LogProtocol.Reservation` | Final/log.c:126-165 | In every run reserved space is never exceeded, a commit never overlaps an operation (so the "log.committing" panic is unreachable), an operation within its budget that logs a new block finds fewer than LOGSIZE entries, and if it meets the "too big a transaction" panic all the same the log area has at most LOGSIZE blocks. |
| `LogLimits.Reach` | Final/log.c:126-233 | Every number of logged blocks up to the limits of log and disk is reached by a run of three operations within their budgets, the last two by operations that pass the test together. |
| `LogLimits.LogSizes` | Final/log.c:126-233 | The sizes the log takes over all runs are exactly those up to the least of LOGSIZE, two more than the test allows, and the blocks of the disk (none if the log area is its header alone). |
| `LogLimits.NewBlockRefused` | Final/log.c:218-219 | Some run refuses a new block to an operation within its budget exactly when the log area has at most LOGSIZE blocks, as mkfs lays it out (mkfs.c line 25), and the disk has blocks enough to fill it. |
| `LogLimits.OldBlockRefused` | Final/log.c:218-219 | Some run refuses an operation a block that is in the log already exactly when the disk has as many blocks as the log can take. |
| `LogLimits.GroupTooLarge` | Final/bio.c:78-92 | With any number of buffers held by others, some run ends in a commit that finds none left, where bget panics, exactly when the log can grow to the number of the rest; by the log alone exactly when the log area has at least LOGSIZE - 1 blocks and the disk LOGSIZE to log. |
| `LogLimits.NoSafeSize` | Final/mkfs.c:25 | On a disk large enough every size of the log area admits one of the two panics. |
| `LogLimits.CommitOutgrows` | Final/log.c:182-189 | Some run has a commit write a log slot behind the log area exactly when that has from 2 to LOGSIZE - 1 blocks and the disk as many others. |
| `LogLimits.Torn` | Final/log.c:178-202 | In such a layout with a block behind the log area, a run after which recovery does not yield the blocks of its last commit. |
| `LogLimits.AtomicExactly` | Final/log.c:9-18 | Every run is atomic for whole operations exactly on the layouts in which no commit can write over a home block. |
| `LogOps.LogState.WriteLog` | Final/log.c:177-190 | While others hold any number of buffers: issues exactly the copies of the view's blocks to the log slots; panics in bget before any write exactly when every buffer is taken; or stops before the first slot behind the log area. |
| `LogOps.LogState.WriteHead` | Final/log.c:101-113 | Overwrites count and entries of the header block and issues that one write. |
| `LogOps.LogState.InstallTrans` | Final/log.c:69-82 | Issues exactly the copies of the log slots to their home blocks and cleans their buffers. |
| `LogOps.LogState.ReadHead` | Final/log.c:85-96 | Loads the entries of the header block. |
| `LogOps.LogState.RecoverFromLog` | Final/log.c:115-122 | Issues exactly the recovery writes and leaves the recovered disk with an empty log. |
| `LogOps.LogState.Commit` | Final/log.c:192-202 | While others hold any number of buffers: issues exactly the commit writes, or none for an empty transaction, so that home blocks become the view's and nothing stays pinned; or, exactly when every buffer is taken or a block has no slot, only its first writes, which leave the old home blocks to be recovered. |
| `LogOps.LogState.BeginOp` | Final/log.c:125-142 | Admits an operation exactly when no commit runs and one more budget fits. |
| `LogOps.LogState.EndOp` | Final/log.c:145-174 | The last operation out commits the group, with the outcome of commit; its own panic is taken exactly while a commit runs. |
| `LogOps.LogState.TestRoom` | Final/log.c:218-221 | log_write's test, made without the lock: passes exactly when the log and its area have room and an operation is outstanding. |
| `LogOps.LogState.Enter` | Final/log.c:223-232 | log_write's entry, made with it: records the block once and pins it, even if the log has filled up since the test. |
| `LogOps.LogState.LogWrite` | Final/log.c:213-233 | The two together: records the block once and pins it; the panics are taken exactly when the log is full, the log area is, or no operation is outstanding. |
| `BufSteps.FrontListed` | Final/bio.c:129-138 | Moving a released buffer to the front keeps every buffer listed once. |
| `BufSteps.FrontPairs` | Final/bio.c:130-138 | It puts that buffer first and changes the order of no two others. |
| `BufSteps.WriteBack` | Final/bio.c:112-126 | The disk changes by bwrite only, in its one block; a buffer is dirty from log_write to bwrite, and valid from the read of its block until it is recycled. |
| `BufSteps.InvKept` | Final/bio.c:61-141 | Every bget, sleep lock, read, change, log_write, bwrite and brelse, in every interleaving, keeps the cache invariant. |
| `BufCache.Transparent` | Final/bio.c:95-106 | Whoever holds a buffer that bread returned and has not changed it sees what was last given to log_write or bwrite for that block. |
| `BufCache.AbstractDisk` | Final/bio.c:108-116 | Only log_write and bwrite change the disk callers see: one block, to the buffer's data. |
| `BufCache.CleanOnDisk` | Final/memide.c:38-60 | A valid clean buffer that nobody is changing equals its block on disk. |
| `BufCache.Pinned` | Final/bio.c:78-90 | A dirty buffer keeps its block through every step but its own write: it is never recycled. |
| `BufCache.OneBuffer` | Final/bio.c:68-86 | No two buffers hold the same block of the disk. |
| `BufSteps.Referenced` | Final/bio.c:128-130 | A referenced buffer has a positive count, so brelse never takes it below zero. |
| `BufCache.BootInv` | Final/bio.c:38-56 | The state after binit satisfies the invariant. |
| `BufRuns.SeenStep` | Final/bio.c:96-122 | What a holder has in its hands after a step is its own change or, when it takes the lock or reads the block, what was last written. |
| `BufRuns.ReadsSeeWrites` | Final/bio.c:61-141 | The cache cannot be seen: in every run from boot a holder has the block it asked for, with the data that a disk without a cache, following the same actions, would have given it. |
| `BufRuns.OrderedByRelease` | Final/bio.c:124-141 | In every run from boot the list is ordered by the place in the run of each buffer's last release, those never released at the end. |
| `BufRuns.OldestRecycled` | Final/bio.c:78-91 | In every run from boot a bget that misses recycles, among the clean unreferenced buffers, the one whose last release by its last user comes first in the run; a buffer never released comes before all others, the lowest first. |
| `BufOps.RingInsert` | Final/bio.c:49-55 | The four assignments insert a buffer behind the head of the ring. |
| `BufOps.RingRemove` | Final/bio.c:132-133 | The two assignments take a buffer out of the ring. |
| `BufOps.MoveFront` | Final/bio.c:132-137 | The six assignments of brelse give the ring in which the buffer is first and the others keep their order. |
| `BufOps.Cache.constructor` | Final/bio.c:38-56 | Builds one ring through the head and every buffer, in the state the machine boots from. |
| `BufOps.Cache.Find` | Final/bio.c:68-76 | Finds a buffer holding the block exactly if there is one. |
| `BufOps.Cache.FindVictim` | Final/bio.c:81-91 | Finds the last clean unreferenced buffer of the ring exactly if there is one. |
| `BufOps.Cache.Bget` | Final/bio.c:61-93 | Takes the machine's step; panics exactly when the block is not cached and every buffer is referenced or dirty. |
| `BufOps.Cache.Iderw` | Final/memide.c:38-60 | Writes a dirty buffer, reads an invalid one; panics exactly for an unlocked buffer, a valid clean one, another device or a block past the end. |
| `BufOps.Cache.Bread` | Final/bio.c:101-105 | Returns the last contents written to the block. |
| `BufOps.Cache.Bwrite` | Final/bio.c:108-116 | Takes the machine's write step. |
| `BufOps.Cache.Pin` | Final/log.c:230-231 | Takes the machine's log_write step. |
| `BufOps.Cache.Brelse` | Final/bio.c:128-140 | Takes the machine's release step. |
| `BufOps.Cache.MoveToFront` | Final/bio.c:132-137 | Relinks the ring in place to the order with the buffer in front. |
| `Block.PutGet` | Final/fs.c:389-394 | Storing a 32-bit word in a block changes that word and no other. |
| `Bitmap.MarkOne` | Final/fs.c:66-68 | Setting or clearing a block's bit changes whether that block is in use and no other. |
| `Inode.DinodeRoundTrip` | Final/fs.c:220-236 | Writing an inode into its slot and reading any slot back gives the inode, or what was there. |
| `Inode.OwnedFrame` | Final/fs.c:372-400 | Ownership depends only on the inodes and the contents of owned blocks. |
| `Inode.AttachAddr` | Final/fs.c:378-388 | Hanging a fresh block on an empty address keeps every block owned once and marked, and changes that reference only. |
| `Inode.AttachEntry` | Final/fs.c:389-394 | The same for an empty entry of the indirect block. |
| `FileSpec.PatchBlock` | Final/fs.c:499-503 | Rewriting a data block of a file keeps all references of all files. |
| `FileSpec.PatchBytes` | Final/fs.c:499-503 | Rewriting a data block changes exactly the bytes of that block of that file. |
| `BlockMap.AllocateOne` | Final/fs.c:66-72 | Marking and zeroing a free block is an allocation: no other block's use and no other content changes. |
| `BlockMap.Cursor` | Final/fs.c:63-68 | balloc's cursor tests and sets the bit of the block it will return. |
| `FileWriteSpec.WroteStep` | Final/fs.c:498-504 | One turn of writei's loop extends what has been written by one chunk, whatever bmap had to allocate. |
| `FileWriteSpec.LogStep` | Final/fs.c:372-400 | One turn logs at most its data block, one bitmap block per new block, and the indirect block. |
| `FileWriteSpec.LogTotal` | Final/fs.c:498-509 | The whole call logs at most the touched blocks, one bitmap block per new block, and three more. |
| `FileWriteSpec.ChunkFits` | Final/file.c:127-151 | That total is at most MAXOPBLOCKS for every chunk filewrite issues, at any offset up to the size. |
| `FileWriteSpec.Settled` | Final/fs.c:506-510 | After writei the file system is at rest: no holes or excess blocks, and the inode on disk equals the one in memory even when iupdate was skipped. |
| `FileWriteSpec.ReadSlice` | Final/fs.c:469-474 | The bytes of one block of a file at rest, as readi copies them. |
| `FileWriteSpec.SpliceSplice` | Final/file.c:135-152 | Two adjoining writes are one write. |
| `Truncate.TruncateDone` | Final/fs.c:414-433 | With every reference given back, every remaining block is owned once and marked, and no other file's reference has changed. |
| `Truncate.TruncateSettles` | Final/fs.c:407-435 | After itrunc's iupdate the file system is at rest, the file empty, every other file's contents as before. |
| `Truncate.FreedExactly` | Final/fs.c:407-435 | A block is in use after itrunc exactly if it was before and did not belong to the file. |
| `Mkfs.MarkedAt` | Final/mkfs.c:237-251 | After mkfs's loop exactly the first blocks are marked in use. |
| `Mkfs.BlankAtRest` | Final/mkfs.c:108-115 | For every valid layout of the disk, the image without files is at rest. |
| `BlockCount.Conservation` | Final/fs.c:53-95 | Free, owned and metadata blocks always add up to the disk. |
| `BlockCount.CostAtEnd` | Final/fs.c:372-400 | What bmap allocates at the end of a file without holes is what the file's footprint grows by. |
| `Truncate.TruncateFits` | Final/fs.c:414-434 | itrunc logs one block more than there are bitmap blocks with a block of the file, so it keeps its budget exactly if these are fewer than MAXOPBLOCKS. |
| `TruncateBudget.SpreadAtRest` | Final/fs.c:81-95 | A file system at rest with a file whose ten blocks have their bits in ten bitmap blocks. |
| `TruncateBudget.TruncateExceeds` | Final/fs.c:407-435 | A truncation that exceeds the budget is possible exactly on disks whose data blocks have bits in MAXOPBLOCKS bitmap blocks or more. |
| `Fs.FileSystem.constructor` | Final/mkfs.c:108-115 | A fresh image is at rest, so every operation's requirement is met by some file system. |
| `Fs.FileSystem.Balloc` | Final/fs.c:56-78 | Returns the first free block, marked and zeroed, every block below it being in use, and logs exactly its bitmap block and itself; panics exactly when no block is free. |
| `Fs.FileSystem.Bfree` | Final/fs.c:81-95 | Clears the bit of a block in use; panics exactly when the block is free. |
| `Fs.FileSystem.Bmap` | Final/fs.c:372-400 | Returns the block at the index, allocating it, and the indirect block, only if missing; all other references, files and owners stand; panics exactly out of range, with nothing changed, or when fewer blocks are free than it needs. |
| `Fs.FileSystem.MapIndirect` | Final/fs.c:389-396 | bmap beyond the direct blocks once the indirect block exists. |
| `Fs.FileSystem.MapDeep` | Final/fs.c:385-396 | bmap beyond the direct blocks when the indirect block must be allocated first. |
| `Fs.FileSystem.WriteBlock` | Final/fs.c:498-504 | One turn of writei's loop. |
| `Fs.FileSystem.Writei` | Final/fs.c:481-511 | A device goes to its driver, or is refused without one. Otherwise refused exactly for a start past the end, a wrap or a range past the largest file; else the file is spliced, no other file changes, the inode is written through; panics exactly when fewer blocks are free than the file grows by, indirect block included. |
| `Fs.FileSystem.Readi` | Final/fs.c:452-476 | A device goes to its driver, or is refused without one. Otherwise returns exactly the requested slice clipped to the size, and changes nothing although bmap could allocate. |
| `Fs.FileSystem.Itrunc` | Final/fs.c:407-435 | Empties the file, frees exactly its blocks, leaves every other file alone, and logs exactly the bitmap blocks of the file's blocks and its inode's block. |
| `Fs.FileSystem.WriteChunks` | Final/file.c:135-153 | The loop on a file, with the number of bytes written before a refused chunk. |
| `Fs.FileSystem.WriteDevice` | Final/file.c:135-153 | The loop on a device: it goes on while the driver takes whole chunks, passes on an error, and panics on a short answer. |
| `Fs.FileSystem.FileWrite` | Final/file.c:126-154 | The bytes written are one splice: all of them exactly when the range fits the file, else the whole chunks that do; no transaction logs more than MAXOPBLOCKS blocks; panics exactly when fewer blocks are free than the file would grow by. On a device the driver's answers decide result and offset. |
| `PageTable.SetPteAt` | Final/vm.c:69-73 | Storing an entry changes the entry of that page of that directory and of no other page or directory. |
| `PageTable.NewTable` | Final/vm.c:45-53 | Hooking a zeroed table into a directory changes no page's entry. |
| `PageTable.MapUser` | Final/vm.c:69-73 | Mapping a spare frame at a user page makes that page the frame's only use. |
| `PageTable.MapEntry` | Final/vm.c:69-73 | Storing an entry keeps directories and page tables whatever its frame, and above KERNBASE concerns no owned frame. |
| `PageTable.RightsAre` | Final/vm.c:46-53 | Every directory entry in use is present, writable and for users, so the rights of a page, those that both levels grant, are those of its page table entry. |
| `VmSpec.KernelPartRights` | Final/vm.c:105-115 | Above KERNBASE no page is for users; physical memory and devices are mapped, and all but the kernel's text can be written. |
| `PageTable.UnmapUser` | Final/vm.c:266-276 | Unmapping a user page and freeing its frame keeps the invariant. |
| `PageTable.Retire` | Final/vm.c:284-298 | Giving back what is left of an address space keeps the invariant. |
| `Vm.Machine.constructor` | Final/kalloc.c:31-44 | Every frame from the kernel's end to PHYSTOP is free, none twice. |
| `Vm.Machine.Freerange` | Final/kalloc.c:46-53 | Frees exactly the frames of the range, the last one first on the list. |
| `Vm.Machine.Kalloc` | Final/kalloc.c:82-95 | Takes the head of the free list, or reports that it is empty. |
| `Vm.Machine.WalkPgdir` | Final/vm.c:35-55 | Finds or makes the page table of a page without changing any page's entry, hooked up with all rights; takes a frame exactly when the slot is empty, and fails only when no frame is free. |
| `Vm.Machine.MapPage` | Final/vm.c:68-73 | Maps one page and no other; panics exactly when the page is mapped, fails exactly when its page table is missing and no frame is free, and changes nothing in both cases. Given a frame without a use it makes the page that frame's only use. |
| `Vm.Machine.MapPages` | Final/vm.c:60-80 | A flat map update of exactly the pages of the range, also one that ends at 2^32; it stops early exactly at a mapped page, which panics, or at a page table the free frames do not suffice for, with the pages before it mapped and exactly the missing page tables taken. Given frames without a use, every frame still has one use. |
| `Vm.Machine.Deallocuvm` | Final/vm.c:255-279 | Unmaps exactly the user pages from newsz rounded up to oldsz and frees their frames, skipping missing page tables; above KERNBASE it ends, by the kernel page it meets first, in a panic or where it would free a frame that the page does not own. |
| `Vm.Machine.Freevm` | Final/vm.c:283-298 | Every frame of the address space is back on the free list, once; every other mapping, use and content stands. |
| `Vm.Machine.Allocuvm` | Final/vm.c:221-249 | Zeroed frames nothing used before, mapped at exactly the new pages, which the user may read and write by both levels of the table, taking exactly the pages' and missing page tables' frames; exactly when fewer frames than that are free, none of the range's pages, and otherwise the mapping it started from; the panic at the first page of the range that is mapped already, exactly when the frames suffice up to it. |
| `Vm.Machine.Setupkvm` | Final/vm.c:118-136 | A directory with exactly the kernel's mappings, by whose rights no user may use any of them and the kernel's text is read-only, taking exactly 65 frames; or, exactly when fewer are free, every frame given back. |
| `Vm.Machine.Copyuvm` | Final/vm.c:315-345 | Equal contents, flags and rights on frames of its own, beside the kernel's part; or, exactly when fewer frames are free than 65, the pages up to the first missing one and their page tables, every frame given back; or the panic at that page. |
| `Vm.Machine.Growproc` | Final/proc.c:239-256 | The result and size for every argument; growth fails exactly beyond KERNBASE or when fewer frames are free than the new pages and their missing page tables take; the mapping matches the recorded size exactly unless the process shrinks to nothing, when pages are freed but -1 is returned and the old size kept. |
| `PageCount.CannotPay` | Final/vm.c:232-247 | Growing page by page: when a page and its page table cannot be paid for, neither can the whole range. |
| `PageCount.KernelTables` | Final/vm.c:110-115 | The kernel's ranges lie in 64 directory slots. |
| `PageCount.UserSlots` | Final/vm.c:315-345 | Beside the kernel's part, n user pages need n / 1024 page tables, rounded up. |
| `VmSpec.StoppedClear` | Final/vm.c:60-80 | Over unmapped pages mappages fails exactly when the free frames do not suffice for the missing page tables. |
| `Proc.TiesAre` | Final/proc.c:453-459 | The candidate list has exactly the runnable processes of least priority, once, in table order. |
| `Proc.ChoiceIsLeast` | Final/proc.c:432-465 | What the scheduler picks is runnable with minimal priority; exactly when it finds nothing, would divide by zero, or would write past its list of 50. |
| `ProcRuns.ListOverflows` | Final/proc.c:453-459 | From boot, on any number of CPUs and without any call of sp: once init has forked more than 50 children within one second and yields in a later tick, the scheduler of its CPU overruns its candidate list. |
| `ProcRuns.DividesByZero` | Final/proc.c:461-465 | From boot: init sets its priority by sp and yields, and the next choice divides by zero exactly when the priority, less one in the same tick, is above 20. |
| `ProcRuns.Starves` | Final/proc.c:418-493 | From boot: a run after which a process that is always runnable is not chosen, however often the scheduler runs, whatever the ticks. |
| `ProcMachine.ExitedFamily` | Final/proc.c:308-349 | exit leaves no missed zombie and no orphan: the parent is woken, the children move to init. |
| `ProcMachine.WaitedFamily` | Final/proc.c:353-395 | One turn of wait keeps the same. |
| `ProcMachine.InvKept` | Final/proc.c:151-640 | Every critical section of proc.c on any number of CPUs keeps the invariant of the process table. |
| `ProcMachine.ExitWait` | Final/proc.c:308-395 | In every reachable state with the lock free: nobody asleep in wait has a zombie child, everyone but init has a living parent, running processes and busy CPUs correspond one to one. |
| `ProcMachine.ReapedOnce` | Final/proc.c:365-382 | In every run no process id is returned by two waits, and a reaped id is never in use again. |
| `ProcMachine.PrioritiesStay` | Final/proc.c:480-486 | In every run in which sp is given 0..10 priorities stay in 0..10 and the scheduler picks a process whenever one is runnable and at most 50 tie. |
| `ProcMachine.BootOk` | Final/proc.c:201-236 | The state after userinit satisfies the invariant. |
| `ProcOps.ProcTable.Wakeup1` | Final/proc.c:595-603 | After it nobody sleeps on the channel; each slot that did is runnable and otherwise as it was, and every other slot is unchanged. |
| `ProcOps.ProcTable.Allocproc` | Final/proc.c:151-173 | Takes the first unused slot with the next process id and a priority from 1 to 10, exactly if there is one. |
| `ProcOps.ProcTable.Exit` | Final/proc.c:330-347 | Leaves the table as the machine's exit does, who is woken included. |
| `ProcOps.ProcTable.WaitScan` | Final/proc.c:361-393 | Reaps the first zombie child and returns its id, gives up without children or when killed, or sleeps on the process itself; no other slot changes. |
| `ProcOps.ProcTable.AnyRunnable` | Final/proc.c:432-435 | Whether a process is runnable. |
| `ProcOps.ProcTable.MinPrio` | Final/proc.c:445-450 | The least priority of a runnable process, at most 20. |
| `ProcOps.ProcTable.Candidates` | Final/proc.c:453-459 | The candidate list, or that it does not fit. |
| `ProcOps.ProcTable.Pick` | Final/proc.c:432-465 | The scheduler's choice. |
| `ProcOps.ProcTable.Kill` | Final/proc.c:617-635 | Marks the first process with the id, which is then not asleep: runnable if it was, in the state it had if not; no other slot changes, and none at all without such a process. |
| `ProcLife.LifeCycle` | Final/proc.c:151-640 | Every edge of a process's life cycle has its one cause: after each critical section every slot is in the state that cause gives, and otherwise in the state it was in. |
| `ProcLife.KillStays` | Final/proc.c:617-635 | A process is marked killed from the kill until it is reaped, and not otherwise. |
| `ProcLife.FallsAsleep` | Final/proc.c:556-590 | sleep sleeps on the address it is given, and wait on the process that waits. |
| `ProcLife.SleepsUntilWoken` | Final/proc.c:548-635 | In every run a sleeper sleeps on the same channel until the first step that wakes it, by wakeup, kill or, in wait, the exit of a child, and that step makes it runnable. |
| `ProcLife.SleepsUntilWakeup` | Final/proc.c:595-635 | A process asleep on an address leaves its sleep by the first wakeup of that address or kill of it, and by nothing else. |
| `ProcLife.PriorityStep` | Final/proc.c:480-486 | A priority changes only when the process is made or reaped, by sp, or when it gives up the CPU: down by one within its tick, otherwise up by one, within 0 and 10. |
| `ProcLife.PriorityDrifts` | Final/proc.c:480-486 | In every run a process that always gives up the CPU within its tick goes down by one each time, to 0, and one that never does goes up, to 10. |
| `ProcLife.TakeTurns` | Final/proc.c:461-465 | Over as many consecutive ticks as there are processes of the least priority, each of them is chosen in exactly one. |
| `Pipe.InvKept` | Final/pipe.c:59-121 | Every critical section keeps bytes in order, at most PIPESIZE in flight, and sleeping writers justified. |
| `Pipe.LostWakeup` | Final/pipe.c:78-98 | A step leaves a reader asleep beside bytes or a closed pipe exactly when a killed writer gives up with bytes deposited and a reader asleep. |
| `Pipe.ReceivedIsRead` | Final/pipe.c:100-121 | The bytes that the reads of a run return, in order, are the bytes taken from the pipe. |
| `Pipe.ReadTurn` | Final/pipe.c:100-121 | A read that finishes returns the lesser of what it asked for and what is in flight, so nothing only if it asked for nothing or the pipe is empty with its write end closed; each byte is the next one deposited that was not yet read. |
| `Pipe.WriteTurn` | Final/pipe.c:78-98 | A write that finishes has deposited all it had left; any other has filled the pipe. |
| `Pipe.SendsInOrder` | Final/pipe.c:78-98 | However its turns interleave with readers, a pipewrite deposits a prefix of its bytes, and all of them once a turn has finished. |
| `Pipe.ReadDelivers` | Final/pipe.c:78-121 | After any run, a read that finishes and asks for a pipe's length has all that the writers gave received. |
| `Pipe.MessageArrives` | Final/pipe.c:78-121 | End to end: when one process's pipewrite has finished and a reader empties the pipe, the bytes received are the bytes sent. |
| `Pipe.ClosedStays` | Final/pipe.c:59-121 | Once the write end is closed nothing is deposited and no reader sleeps; once the read end is, nothing is taken and no writer sleeps. |
| `Pipe.FifoNoLostWakeup` | Final/pipe.c:59-121 | In every run what was received is a prefix of what was deposited, at most PIPESIZE behind; a sleeping writer means a full, read-open pipe; without abandoned readers a sleeping reader means an empty, write-open one. |
| `Pipe.AbandonedReader` | Final/pipe.c:84-88 | A run in which a killed writer leaves 512 bytes and a sleeping reader. |
| `Pipe.Ring.constructor` | Final/pipe.c:33-37 | An empty open pipe. |
| `Pipe.Ring.WriterTurn` | Final/pipe.c:78-98 | pipewrite from taking the lock to giving it up, across counter wraparound: deposits all it has left exactly if that fits, and otherwise as much as makes the pipe full, and sleeps, or gives up if killed or without a reader. |
| `Pipe.Ring.ReaderTurn` | Final/pipe.c:100-121 | piperead from taking the lock to giving it up: waits, or gives up if killed, exactly on an empty pipe with its write end open; otherwise returns the next bytes written and not yet read, as many as asked for or all there are. |
| `Pipe.Ring.Deposit` | Final/pipe.c:93 | A byte goes to the end of what is in flight. |
| `Pipe.Ring.Take` | Final/pipe.c:116 | The oldest byte in flight comes out. |
| `Pipe.Ring.Close` | Final/pipe.c:59-75 | Closes one end and wakes who sleeps on the other; the pipe is freed exactly when both are closed. |
| `FreeList.FreeAlone` | Final/umalloc.c:36-42 | A freed block that touches no free neighbour becomes a header of its own. |
| `FreeList.FreeUpper` | Final/umalloc.c:33-35 | One that touches its upper neighbour takes its place. |
| `FreeList.FreeLower` | Final/umalloc.c:38-40 | One that touches its lower neighbour is swallowed by it. |
| `FreeList.FreeBoth` | Final/umalloc.c:33-40 | One that touches both makes three blocks one. |
| `FreeList.TakeWhole` | Final/umalloc.c:76-77 | Handing out a whole free block keeps the heap well formed. |
| `FreeList.TakeTail` | Final/umalloc.c:78-82 | Handing out the upper end of one does too. |
| `FreeList.AddCore` | Final/umalloc.c:57-58 | Fresh memory above everything enters the heap as a block. |
| `Umalloc.UnitsEnough` | Final/umalloc.c:69 | The block holds the request exactly when the 32-bit sum does not wrap, and is then the smallest that does. |
| `Umalloc.SbrkGrows` | Final/umalloc.c:54 | sbrk is asked for the whole block exactly below 2^28 units. |
| `Umalloc.FreeRuns` | Final/umalloc.c:24-44 | The free headers are exactly the starts of the maximal runs of free units: the free list is determined by the live blocks and coalesced. |
| `Umalloc.Allocator.constructor` | Final/umalloc.c:21-22 | No memory yet. |
| `Umalloc.Allocator.FindPlace` | Final/umalloc.c:30-32 | The search ends at the one free header after which the block belongs. |
| `Umalloc.Allocator.Free` | Final/umalloc.c:24-44 | Keeps the list circular, address-ordered and coalesced, every unit in exactly one block, and every other live block as it was; the next search starts at the free header below the block. |
| `Umalloc.Allocator.Morecore` | Final/umalloc.c:46-61 | At least 4096 units at the end of the process become free; nothing changes if sbrk refuses; from 2^28 units on sbrk is asked for another amount than the block's. |
| `Umalloc.Allocator.Carve` | Final/umalloc.c:75-84 | Hands out a block of exactly the wanted size that was free. |
| `Umalloc.Allocator.Malloc` | Final/umalloc.c:63-90 | A block of the computed size disjoint from every live block, the upper end of the first free block after freep that is large enough; sbrk is asked exactly when no free block is large enough, once; null exactly when it then refuses; a block that sbrk was not asked for exactly when it does not and the request has 2^28 units or more. |
| `ShellGrammar.RedirsBack` | Final/sh.c:374-397 | Printed redirections parse back, in order. |
| `ShellGrammar.ArgsBack` | Final/sh.c:431-445 | Printed words and redirections parse back to one simple command. |
| `ShellGrammar.ExecBack` | Final/sh.c:415-446 | A printed simple or parenthesised command parses back. |
| `ShellGrammar.PipeBack` | Final/sh.c:361-372 | A printed pipeline parses back. |
| `ShellGrammar.LineBack` | Final/sh.c:344-359 | A printed line parses back, at the end of the input or before a closing parenthesis. |
| `ShellGrammar.LineWithin` | Final/sh.c:344-446 | Whatever parses has at most 9 words per command, the two kinds of redirection, and only words of the input. |
| `ShellGrammar.MapLine` | Final/sh.c:344-446 | The parser looks only at where words are: renaming them renames those of the command. |
| `ShellSyntax.SimpleCommand` | Final/sh.c:415-446 | A simple command parses exactly if it is words and redirections in any order with fewer than 10 words, and is then its words, in order, inside its redirections, in order, with >> read as >; both are defined by filtering the tokens. |
| `ShellSyntax.LineParses` | Final/sh.c:344-446 | The tokens of every syntax tree parse to the tree's command. |
| `ShellSyntax.LineTree` | Final/sh.c:344-446 | Whatever parses is the tokens of a syntax tree, and the command is the tree's. |
| `ShellSyntax.AcceptsExactly` | Final/sh.c:327-342 | The parser accepts exactly the lines that have a syntax tree and gives the tree's command, so no line can be read in two ways. |
| `ShellLex.LexReads` | Final/sh.c:265-308 | The tokens of a line are the only way to cut it, blanks aside, into words and symbols that are as long as can be. |
| `ShellLex.LexShow` | Final/sh.c:265-308 | Reading a printed line gives the tokens printed. |
| `ShellLex.LexWords` | Final/sh.c:295-299 | Every word token is a longest run of word characters. |
| `ShellLex.EndsOutside` | Final/sh.c:448-471 | The byte after a word belongs to no word. |
| `ShellLex.RoundTrip` | Final/sh.c:327-446 | The minimally parenthesised line printed for a command parses to that command. |
| `ShellLex.Expressible` | Final/sh.c:327-446 | The commands that some line parses to are exactly those with legal words, at most 9 each, and the two kinds of redirection. |
| `Shell.Parser.SkipBlanks` | Final/sh.c:272-273 | The first non-blank at or after the cursor. |
| `Shell.Parser.Gettoken` | Final/sh.c:265-308 | Returns the next token and its place and moves past it. |
| `Shell.Parser.Peek` | Final/sh.c:310-320 | Whether the next token starts with one of the symbols; skips blanks only. |
| `Shell.Parser.Parseredirs` | Final/sh.c:374-397 | Agrees with the grammar on every input. |
| `Shell.Parser.Parseblock` | Final/sh.c:399-413 | Agrees with the grammar on every input, the panic away from a parenthesis included. |
| `Shell.Parser.Parseexec` | Final/sh.c:415-446 | Agrees with the grammar on every input, panics included; without a parenthesis the outcome is the command of the words up to the next stop with the redirections among them around it, or a panic exactly if they are malformed or too many. |
| `Shell.Parser.Parsepipe` | Final/sh.c:361-372 | Agrees with the grammar on every input, and ends. |
| `Shell.Parser.Parseline` | Final/sh.c:344-359 | Agrees with the grammar on every input, and ends. |
| `Shell.Nulterminate` | Final/sh.c:448-493 | Writes a NUL behind each word of the command and nowhere else. |
| `Shell.Terminated` | Final/sh.c:448-493 | After that every word reads as the C string it was in the line: no NUL falls on a byte of any word. |
| `Shell.Parsecmd` | Final/sh.c:327-342 | The parse of the whole line with every word readable as a C string, or the panic with the line untouched. |
| `Grep.HereFirst` | Final/grep.c:84-96 | A pattern matches at a position exactly if its first item takes a stretch there and the rest match from its end. |
| `Grep.MatchHere` | Final/grep.c:84-96 | Answers exactly whether the items match at the position. |
| `Grep.MatchStar` | Final/grep.c:98-106 | Answers exactly whether a starred item and the rest match. |
| `Grep.Match` | Final/grep.c:72-82 | Answers exactly whether the pattern's meaning holds: anchored at the start, or somewhere. |

## Left out

- Hardware and boot code, interrupt handling, spinlock internals and context switching: critical sections are atomic steps.
- ide.c: memide.c gives the disk its meaning.
- Pathname lookup, directories, link counts, inode allocation and reference counts, and the system calls over them.
- exec, copyout, clearpteu and ELF loading.
- console, printf, the string library and the user test programs.
- grep's line buffering: only the matcher is modelled.
- Running commands in the shell: only parsing is modelled.
- Fairness over the wrap of the tick counter, where taking turns is not exact.
- The seconds counter behind a new process's priority is an arbitrary number.
- Process ids are unbounded numbers; the wrap of `nextpid` after 2^31 forks is not modelled.
- Shell.Parser.Parseexec: collects words and redirections apart and joins them at the end; the code fills an execcmd in place below the redircmds around it.
- BufSteps.InvKept: callers log or write each change before brelse, as log.c's comment asks.
- Umalloc.Allocator.Malloc: when sbrk was asked for another amount than the block's the model stops there; what the write of the header then hits is not modelled. Nor are the program's own calls of sbrk, or an end of memory that is not a multiple of eight.
- ProcRuns.ListOverflows: what happens after the write past the list is not modelled.
- LogProtocol.InvKept: an operation logs at most MAXOPBLOCKS distinct blocks; Fs.FileSystem.FileWrite shows it for filewrite, TruncateBudget.TruncateExceeds says when itrunc does not keep to it, other callers are not modelled.
- LogProtocol.DurableStep: after its first write behind the log area a commit is followed no further than to a crash; likewise LogOps.LogState.Commit stops before that write.
- LogOps.LogState.Commit: others hold the same number of buffers from its first read to its last.
- Fs.FileSystem.FileWrite: the check for a file open for writing and the branch for pipes come before what is modelled.
- Vm.Machine.Deallocuvm: for sizes above KERNBASE it is about directories with the kernel's part as setupkvm makes it, and where it would free a frame that the page does not own the model stops.
- Vm.Machine.Copyuvm: is about sizes up to KERNBASE, which no process exceeds.
