# A verified model of xv6 with per-process swapping

This project models the core of a small teaching kernel, an xv6 in which every process can swap its
pages to a file of its own, together with its memory allocator, its shell parser and its grep, and
proves what these parts promise over all inputs and all runs.  `dafny verify dfyconfig.toml` checks
the whole project.  Where a contract says `P(x) == true`, the predicate is passed on as a whole, which
keeps the proof obligations small.

**The log** (`Blocks`, `RedoLog`, `LogProtocol`, `LogReservation`, `LogAdmission`, `LogRace`, `BufferCache`,
`LogManager`).
`RedoLog` states what commit and recovery write, block by block, and proves that a crash between any
two writes, also of a recovery, loses nothing and leaves nothing half done.  `LogProtocol` is the state
machine of begin_op, log_write, end_op, single disk writes and crashes; every run of it is a run of an
atomic store.  `LogManager` is log.c itself over `BufferCache`, which is bio.c with its doubly linked
ring; its methods are proved to issue exactly the disk writes of `RedoLog` and to take exactly the steps
of `LogProtocol`.

**Files** (`Bitmap`, `FileModel`, `FileSystem`, `FileIo`, `TightChunk`).  The bitmap allocator, the block
map with its indirect block, readi, writei and itrunc, and the chunked filewrite.  Files are flat byte
sequences: a write is a splice, a read is a slice, and no other file changes, because no block is ever
referenced twice.  Each transaction of filewrite stays within the log budget because no file has a hole,
everything it changes is logged, and no allocated block is lost; `TightChunk` is a transaction that uses
the whole budget.

**Files on the log** (`InodeTable`, `Transactions`, `CrashFs`).  `InodeTable` is the layout of the inode
blocks, and shows that the blocks a transaction logs are all that has to reach the disk for the disk to hold
the new files.  `Transactions` runs any such transactions, one after another, on `LogProtocol`, with crashes
between any two steps.  `CrashFs` joins them: however the machine crashes, recovery leaves a valid file
system, whose files are what all finished writes and truncations make of the initial ones, or all but the
last, and what is once safe from a crash is never lost.

**Swapping** (`PageQueue`, `Paging`, `AddressSpace`, `Growth`, `SwapRuns`, `SecondChance`, `Aging`,
`Replacement`, `PolicyRuns`, `QueueOverflow`, `Swapping`, `Forking`, `Outgrown`).  `Paging` states how page
records, swap slots, page table and frames fit together; `AddressSpace` and `Growth` state what a fault, a
clock tick, growth and shrinking do to them as functions of the whole state, whatever page in memory is
chosen to leave it.  `SwapRuns` concludes, for every replacement policy, that a program cannot tell a
swapping process from a flat memory.  `Replacement` and `PolicyRuns` add the two policies, second-chance
FIFO (the SCFIFO build) and least age (the NFUA build), and what becomes of the queue under each.
`Swapping` is vm.c, whose methods are proved to compute these functions under either policy, and to take a
process from a state some run leads to only to another; `Forking` and `Outgrown` are its callers.

**Processes and pipes** (`ProcTable`, `SleepWakeup`, `ProcRuns`, `Pipes`).  exit, wait, kill and wakeup1 on the
process table; every interleaving of any number of processes on any number of sleep locks, what becomes of a
process that is killed, and why nobody is stuck on a spinlock; the pipe ring under 32-bit wrap-around.

**User programs** (`Heap`, `Regex`, `ShellSyntax`, `ShellParens`, `ShellRedirs`, `ShellGrammar`, `ShellParser`,
`ShellLines`, `ShellTokens`).  The Kernighan and Ritchie allocator, the regular expression matcher, and the
recursive-descent shell parser: the characters of a line against layouts of tokens, and the tokens against a
grammar of syntax trees and against a printer.

Where the code does not keep a promise, the model follows the code, and a lemma says exactly when the
promise holds:

- begin_op reserves MAXOPBLOCKS blocks of LOGSIZE for every operation, but log_write panics when the
  list is as long as the on-disk log less its header, and tests this before it looks for the block in the
  list.  The log that mkfs makes has LOGSIZE blocks, one of them the header (mkfs.c:25).  Operations that
  keep within the promised budget can therefore hit the panic.  `OverflowIffTight` gives the exact bound
  for every budget and log size: with 9 blocks per operation they cannot on this log, with 10 they can.
- begin_op lets an operation wait if the list could become longer than LOGSIZE: `AdmittedIff`, it admits it if
  and only if the list could not; on a disk with no more than LOGSIZE blocks to log the list never could
  (`SmallDiskFits`), and begin_op lets operations wait all the same.
- log_write makes that test before it takes log.lock, and appends after, so that several operations can
  pass it together: `OutgrowIff`, the list can outgrow the log if and only if the log has fewer blocks than
  MAXOPBLOCKS + 2m for operations of at most m blocks, which again is so for 10 and not for 9; where it
  cannot, `RaceIsSafe`.
- allocuvm ignores the result of add_new_page: `GrowsSyncedIff`, the records stay in step if and only if
  there are at most 32 pages; `GrowTooLarge` is a process that has more.
- deallocuvm looks at present pages only: `ShrinksCleanIff`, nothing is left over if and only if nothing
  was before and none of the pages removed is swapped out.  A process that outgrows memory and gives
  everything back always leaves something over (`ShrinkToNothing`, `GiveBack`).
- add_new_page panics when a record for the page exists: `NextRecord` and `AllocUvm`, growing panics if
  and only if it comes to a page that was left over, as in `GrowAgain`, as long as the queue is not more
  than 16 entries too long, which only NFUA can make it.
- fork copies all records but only the pages below the size: `CopyFrames` and `Fork`, the tables of the
  child are in step if and only if whatever is left over in the parent is swapped out.  The page fault
  handler brings a page that is left over back, whatever the size of the process (`TouchLeftover`), and
  `ForkOutgrown` is a process whose child then records a page it does not have.
- NFUA drops the head of the queue where another page leaves memory: `RunKeepsQueue`, the queue is right
  until memory is given back, and after that it can only be too long; `SafePageIn`, a fault then panics
  if and only if the queue is full and no page has to leave memory; `QueueOverflows` is a run that gets
  there.
- copy_parent_swapfile writes out the whole buffer after a short read: `CopySwapFile`, the copy is exact
  if and only if the length of the file is a multiple of half a page.  Swap files always are.
- pipewrite does not wake readers when it gives up because it was killed: `Pipe.Write` says exactly when
  this strands a reader, and `SleepingOnFullPipe` shows it.
- malloc and sbrk compute in 32 bits: `RequestFits`, sizes come out right if and only if at most 2^31 - 16
  bytes are asked for.
- The shell records `>>` as `>`: `AppendIsOutput`, replacing every `>>` by `>` changes nothing in what a
  line parses to, and `RecordedIff`, a line's redirections are recorded as written if and only if it has
  no `>>`; `SameTree` are two such lines.

## Model

| member | source | states |
|---|---|---|
| RedoLog.HeadRoundTrip | log.c:85-113 | write_head followed by read_head gives back the same list, whatever stale words the header block held before |
| RedoLog.RecoverResult | log.c:69-122 | a completed recovery gives every home block its durable contents (the last log copy the header names for it, else the block itself) and leaves an empty log |
| RedoLog.RecoveryIsRestartable | log.c:115-122 | crashing after any number of recovery's disk writes and recovering again ends with the same home blocks as one undisturbed recovery |
| RedoLog.CrashingRecoveriesAgree | log.c:115-122 | the same for any number of crashing recoveries in a row |
| RedoLog.CommitIsAtomic | log.c:69-202 | crash atomicity: cut a commit off after any prefix of its disk writes, recover, and all home blocks have the old contents if the header write had not landed, and exactly the new ones if it had |
| RedoLog.CommitResult | log.c:192-202 | an undisturbed commit installs exactly the transaction and leaves an empty log |
| RedoLog.CommitWritesParts | log.c:192-202 | the disk writes of a commit are those of write_log, write_head, install_trans and write_head, where install_trans reads back from the log what write_log put there |
| RedoLog.CommitWritesLocal | log.c:177-190 | a commit depends on the current contents of the logged blocks only |
| LogProtocol.NextKeepsInv | log.c:125-233 | every step of the logging system (begin, log_write, end, one disk write of a commit or of a recovery, end of commit, crash) keeps the invariant that ties memory, disk and header together |
| LogProtocol.ReachableHasInv | log.c:125-233 | hence it holds in every reachable state, whatever the interleaving and however often the system crashes |
| LogProtocol.StepRefines | log.c:53-233 | every step is a step of an atomic store of home blocks, in which a whole group of operations becomes durable at once and a crash falls back to the durable contents |
| LogProtocol.RunRefinesStore | log.c:53-233 | every run with crashes at any point, also during recovery, is a run of that store |
| LogProtocol.CommitCompletes | log.c:192-202 | a commit that has started can run to its end, and where it then arrives is a reachable state |
| LogReservation.ReservationHolds | log.c:125-233 | in every reachable state: while an operation is in progress no commit runs, so the panic for a running commit cannot happen; the list plus all unused budget stays within LOGSIZE; and the list holds no block twice |
| LogReservation.BeginWaits | log.c:125-174 | begin_op never waits for nothing: in every reachable state in which it has to wait, a commit is running or an operation is in progress, and once a commit is done it is admitted |
| LogAdmission.AdmittedIff | log.c:125-141 | in every reachable state in which no commit runs, begin_op admits one more operation if and only if the list then cannot become longer than LOGSIZE, when every operation in progress may still log a full MAXOPBLOCKS blocks; a refused one could make it longer |
| LogAdmission.SmallDiskFits | log.c:125-141 | on a disk with at most LOGSIZE blocks to log the list never becomes longer than that, with any number of operations |
| LogAdmission.ThreeAtOnce | log.c:125-141 | a reachable state with three operations in progress |
| LogReservation.NoOverflow | log.c:213-219 | operations of at most m blocks never hit the panic of log_write if MAXOPBLOCKS + 2m is less than the capacity of the log |
| LogReservation.Overflow | log.c:213-219 | otherwise some run of such operations, each within its budget, does hit it |
| LogReservation.OverflowIffTight | log.c:125-219 | exactly when operations of at most m blocks can overflow the log: if and only if its capacity is at most MAXOPBLOCKS + 2m; with the promised budget of 10 they can, on the log mkfs makes (LOGSIZE blocks, one of them the header) |
| LogRace.RaceKeepsInv | log.c:213-233 | with the test of log_write and its append as two steps, every step of any interleaving keeps the reservation and all budgets |
| LogRace.OutgrowIff | log.c:213-233 | the list can then outgrow the log in some run of operations of at most m blocks if and only if the log has a block and fewer than MAXOPBLOCKS + 2m |
| LogRace.RaceIsSafe | log.c:213-233 | otherwise everything that ties memory, disk and header together holds at every moment of every such run, as with one step |
| BufferCache.Bcache.constructor | bio.c:38-56 | binit: a proper ring of NBUF free buffers, through which every block reads as on disk |
| BufferCache.Bcache.Bget | bio.c:61-93 | fails if and only if the block has no buffer and every buffer is in use; otherwise the one buffer of the block, or the least recently used free one; no referenced or dirty buffer is recycled, and no block changes its visible contents |
| BufferCache.Bcache.Find | bio.c:68-76 | the walk over the ring finds the buffer of the block exactly if there is one |
| BufferCache.Bcache.FindFree | bio.c:78-91 | the walk from the other end finds the least recently used buffer that is neither referenced nor dirty, if there is one |
| BufferCache.Bcache.Bread | bio.c:96-106 | the locked buffer holds the latest contents of the block, as logged or written; the disk and all visible contents stay |
| BufferCache.Bcache.Bwrite | bio.c:109-116 | exactly the contents of the buffer go to its block on disk, in one write; visible contents stay |
| BufferCache.Bcache.Brelse | bio.c:120-141 | the buffer is unlocked and, if no one refers to it, moved to the front of the ring; everything else stays in order |
| BufferCache.Bcache.MoveToFront | bio.c:130-138 | the six pointer stores take the buffer out of the ring and put it in front, keeping all prev and next pointers consistent |
| BufferCache.Bcache.Iderw | memide.c:38-60 | a dirty buffer is written, an invalid one is read; visible contents stay |
| BufferCache.Unlink | bio.c:132-133 | taking any element out of the doubly linked ring leaves a ring of the others in the same order |
| BufferCache.PushFront | bio.c:134-137 | linking an element in behind the head puts it in front of the same ring |
| BufferCache.Replace | bio.c:81-88 | giving a free buffer to a block without one keeps one buffer per block and changes the visible contents of no other block |
| BufferCache.WriteThrough | bio.c:109-116 | writing a buffer to disk never changes what readers see |
| LogManager.SecondReady | log.c:69-82 | while one buffer is held and fewer than NBUF blocks are pinned, a second buffer can be had: bget cannot panic in the loops of write_log and install_trans |
| LogManager.CopyToLog | log.c:182-189 | one pass of write_log: the pinned contents go to the log block, in one disk write, and the pinned blocks stay pinned |
| LogManager.CopyToHome | log.c:74-81 | one pass of install_trans: the log block goes to its home location, which is unpinned |
| LogManager.Log.constructor | log.c:53-66 | initlog leaves the disk as RedoLog's recovery function says, by exactly its writes |
| LogManager.Log.ReadHead | log.c:85-96 | the list in memory is the one the header block encodes |
| LogManager.Log.WriteHead | log.c:101-113 | exactly one disk write, of a header that encodes the list |
| LogManager.Log.WriteLog | log.c:177-190 | the disk writes are those of the redo-log model, in order, and bget never runs out of buffers |
| LogManager.Log.InstallTrans | log.c:69-82 | likewise for the installation, which unpins every block of the list |
| LogManager.Log.RecoverFromLog | log.c:115-122 | the disk writes are exactly those of the modelled recovery |
| LogManager.Log.Commit | log.c:192-202 | with fewer than NBUF pinned blocks and no other buffer held, the disk writes are exactly those of the modelled commit, for which crash atomicity is proved |
| LogManager.Log.BeginOp | log.c:125-141 | admits the operation exactly when the protocol's reservation allows it |
| LogManager.Log.LogWrite | log.c:213-233 | fails exactly where the protocol says the transaction is too big; otherwise it does the protocol's log_write step, pins the buffer and absorbs a block already listed |
| LogManager.Log.EndOp | log.c:145-174 | fails exactly if a commit is running; the last operation to leave runs a commit, after which memory and disk are in the state the protocol reaches, and nothing is pinned |
| Bitmap.FlipChangesOneBit | fs.c:65-67 | setting or clearing one bit of a byte by its mask changes that bit and no other |
| Bitmap.ToggleChangesOneBit | fs.c:81-94 | toggling the bit of one block in the on-disk bitmap changes the mark of that block and of no other, across bytes and bitmap blocks |
| Bitmap.BitOfBlock | fs.c:62-66 | the bit looked at in the inner loop of balloc is the one of block b + bi |
| FileModel.FinishWrite | fs.c:483-495 | a completed write is a splice of one file; ownership, density and all other files are kept |
| FileModel.WriteMore | fs.c:483-489 | one more chunk stored in the block that holds its offset extends the write by exactly its bytes, in an arbitrary block layout |
| FileModel.StoreKeeps | fs.c:483-489 | overwriting a block changes at most the one file that owns it |
| FileModel.LinkRef | fs.c:363-389 | linking a block nothing refers to keeps every block referenced at most once and every file as it is |
| FileModel.TruncateKeeps | fs.c:397-423 | truncation empties one file, frees exactly its blocks and leaves all others alone |
| FileModel.FreeNext | fs.c:397-423 | the next block itrunc frees is always still allocated |
| FileModel.TruncateLosesNone | fs.c:397-423 | if every allocated block belonged to some file before a truncation, so it does after |
| FileSystem.Fs.Format | mkfs.c:93-113 | an empty file system is one in which all of this holds: every block below the data area is marked, no other, and every file is empty |
| FileSystem.Fs.Balloc | fs.c:56-77 | the first block the bitmap leaves free, marked and zeroed; fails if and only if there is none; logs the bitmap block and the block |
| FileSystem.Fs.Bfree | fs.c:80-94 | clears exactly the one bit and logs exactly its bitmap block; fails if and only if it is clear |
| FileSystem.Fs.Bmap | fs.c:362-389 | the block of a file block, direct or behind the indirect block, allocated if need be; nothing changes if it exists; files keep their contents and no block gets a second reference; it fails only on a file block out of range or on a full disk; what it logs is accounted for, and it logs all it changes |
| FileSystem.Fs.Itrunc | fs.c:396-423 | clears exactly the bits of the inode's own blocks, empties the file, leaves all others alone, never frees a free block, loses none, and logs exactly the bitmap blocks of what it frees and the inode block |
| FileSystem.TruncateFits | fs.c:396-423 | so a truncation stays within MAXOPBLOCKS blocks if and only if the blocks of the file are marked in fewer than MAXOPBLOCKS bitmap blocks |
| FileSystem.Fs.Writei | fs.c:467-496 | refused if and only if the range starts behind the end or ends behind the largest file, also when the 32-bit sum wraps around; otherwise a splice of the file, with all other files as before, and at most Touched + Fresh + 3 distinct blocks logged; every block it changes is logged; no allocated block is lost, and what it links anew was free; it panics only on a disk with no more than Fresh free blocks |
| FileSystem.Fs.Readi | fs.c:439-462 | exactly the bytes of the file at the offset, clipped to its size; nothing changes, since no file has a hole for bmap to fill |
| FileSystem.DecodesUnique | fs.c:491-494 | block map and sizes determine the inodes, so a write within the file may skip iupdate |
| FileSystem.ChargeSize | fs.c:467-496 | what a write logs is no more distinct blocks than it lists, plus the indirect block and the inode block |
| FileSystem.StuckShort | fs.c:483-485 | a write that finds no block has used up all that were free, which were at most as many as it can need |
| FileIo.ChunkFits | file.c:126-133 | a chunk of at most 1536 bytes touches at most 4 blocks and needs at most 3 new ones, at any offset, so that its writei stays within MAXOPBLOCKS blocks |
| FileIo.ChunkTight | file.c:126-133 | the count is exact: at some offset 1536 bytes need all MAXOPBLOCKS blocks, and at some offset one byte more would need more |
| FileIo.SpliceTwice | file.c:135-151 | two consecutive splices are one |
| FileIo.File.WriteChunk | file.c:140-145 | one transaction of filewrite logs at most MAXOPBLOCKS distinct blocks, at any offset and for any file-system size, among them every block it changes, loses no allocated block, and panics only on a disk with no more than Fresh free blocks |
| FileIo.File.WriteChunks | file.c:134-151 | the loop writes a number of whole chunks as one splice, and all of them if and only if the whole range fits |
| FileIo.File.Write | file.c:117-156 | the result is n if and only if the file is writable and the range fits; then the file is one big splice, whatever the chunks; otherwise -1 with a multiple of 1536 bytes written |
| FileIo.File.Read | file.c:96-113 | the bytes at the offset, clipped to the end, and the offset moves behind them; refused if and only if unreadable, behind the end, or the 32-bit sum wraps around |
| TightChunk.MakeNearlyFull | mkfs.c:93-113 | a file system with five bitmap blocks in which a file fills all but the end of its direct blocks, and four blocks, each marked in a bitmap block of its own, are free |
| TightChunk.LogsTen | file.c:126-145 | on it a transaction of filewrite that adds a chunk to the file succeeds and logs exactly MAXOPBLOCKS blocks, among them all that change |
| InodeTable.PutInodeHolds | fs.c:218-232 | what iupdate writes into its place in the inode block reads back |
| InodeTable.PutInodeKeeps | fs.c:218-232 | and the other inodes of the block stay as they are |
| InodeTable.HoldsOne | fs.c:282-305 | the disk determines the files: two valid file systems on the same disk have the same inodes and the same contents in every file |
| InodeTable.Lands | fs.c:218-232 | writing the new contents of the blocks a transaction logs, and of no others, takes a disk with the old inodes, bitmap and blocks to one with the new |
| InodeTable.LaidHolds | mkfs.c:183-195 | every valid file system has a disk that holds it |
| Transactions.TxNextKeeps | log.c:125-233 | every step, with log_write in any order, of any contents and any number of times between begin_op and end_op, keeps the invariant that ties the client's value to disk, log and memory |
| Transactions.CrashAtomic | log.c:9-22 | at every moment of every run, recovery would leave what all operations that have ended make of the first value, or all but the last of them while its commit is running |
| Transactions.SafeStays | log.c:192-202 | what a crash would leave once is never lost later, by whatever crashes |
| Transactions.ReadsBack | log.c:9-22 | between transactions the blocks bread returns hold what all operations make of the first value |
| Transactions.CanLog | log.c:213-233 | on a log of more than MAXOPBLOCKS + 1 blocks a transaction on its own never hits the panic of log_write, also when it logs a block again |
| Transactions.Completes | log.c:145-174 | whatever it has logged so far, it can go on and end |
| CrashFs.FsAtHome | fs.c:218-232 | what the disk says about files does not depend on the log area |
| CrashFs.CrashConsistent | log.c:9-122 | crash consistency of the file system: at every moment of every run, recovery would leave a disk that holds a valid file system (every block in one file at most, the bitmap exact, no holes), with files that all finished writes and truncations make of the initial ones, or all but the last |
| CrashFs.WriteTransaction | file.c:140-145 | one transaction of filewrite is such a transaction: it logs at most MAXOPBLOCKS blocks, among them the block of every inode it changes, it changes the one inode only, and its effect on all files is the splice |
| CrashFs.TruncTransaction | fs.c:396-423 | a truncation is one if and only if the blocks of the file are marked in fewer than MAXOPBLOCKS bitmap blocks |
| CrashFs.CanStart | log.c:125-141 | such a transaction can begin whenever no other is in progress and no commit runs, and it then aims at a disk that holds the new files |
| CrashFs.Boots | mkfs.c:93-113 | a boot from any valid file system with an empty log begins a run |
| PageQueue.Queue.Enqueue | vm.c:464-488 | appends; fails if and only if the queue is full |
| PageQueue.Queue.Dequeue | vm.c:491-515 | removes the head; the array is shifted so that the rest stays in order |
| PageQueue.Queue.Remove | vm.c:266-290 | removes the first page with the address, if any, and nothing else |
| Paging.SwapOutKeeps | vm.c:628-684 | moving a page to a free slot of the swap file keeps all tables in step (records, slots, page table, frames) and changes the contents of no page, whatever becomes of the queue |
| Paging.SwapInKeeps | vm.c:547-601 | moving a page back into a frame does so too |
| Paging.FreeSlotFits | vm.c:613-624 | while at most 16 pages are swapped out, the first free slot is among the first 17, starts within the swap file or at its end, and ends within the largest file: neither range check of writei can reject it |
| Paging.LogicalSize | vm.c:547-560 | whether it is in memory or in its slot, a mapped page always has the contents of a whole page |
| Paging.MapKeeps | vm.c:245-258 | mapping a frame at a new address keeps all tables in step; the page reads as zeroes and the others as before |
| Paging.RecordKeeps | vm.c:795-817 | recording a mapped page keeps all tables in step and the contents of every page |
| Paging.ForgetKeeps | vm.c:311-323 | forgetting the record of a page in memory, if it has one, keeps all tables in step and the contents of every page |
| Paging.UnmapKeeps | vm.c:325-337 | unmapping it then removes exactly this page |
| SecondChance.Chosen | vm.c:940-953 | what second-chance selection ends with: the first unaccessed page in queue order, or the old head if all were accessed; the skipped pages rotated behind the rest, with exactly their accessed bits cleared |
| SecondChance.VictimQueued | vm.c:940-953 | the victim is in the queue, and the queue that remains holds the others, each once |
| Aging.AgeIsHistory | vm.c:820-848 | an age is exactly the last 32 access samples as bits, the latest on top, and fits a uint |
| Aging.LessIffColder | vm.c:820-848 | comparing two ages is comparing the last 32 samples, the latest first |
| AddressSpace.RoomKeeps | vm.c:234-243 | whatever page in memory is chosen, making room swaps out at most one, leaves fewer than 16 in memory, keeps all tables in step and the contents of every page |
| AddressSpace.FaultKeeps | vm.c:715-723 | a page fault keeps all tables in step and within their bounds (16 in memory, 17 swapped out, 17 slots of the swap file), changes the contents of no page, and makes the page accessible |
| AddressSpace.TickKeeps | vm.c:820-848 | a clock tick changes the contents of no page and no residency |
| AddressSpace.GrowKeeps | vm.c:233-260 | a new page reads as zeroes, the others as before, and the bounds hold |
| AddressSpace.DropKeeps | vm.c:311-337 | giving back a page in memory removes it, keeps the others as they are, and the bounds hold |
| Growth.NextRecord | vm.c:795-817 | growing by page n panics if and only if a record of page n is left over; otherwise the first unused record is the n-th, and there is none from MAX_TOTAL_PAGES pages on |
| Growth.GrowSized | vm.c:233-260 | page n becomes part of the process, at any choice of a victim, also of a process with pages left over or without records |
| Growth.GrowsSyncedIff | vm.c:233-260 | growing by page n keeps every mapped page recorded if and only if n is below MAX_TOTAL_PAGES |
| Growth.ShrunkSized | vm.c:297-340 | deallocuvm leaves a process of the new size |
| Growth.FaultSized | vm.c:715-723 | a page fault changes nothing about which pages there are |
| Growth.ShrinksCleanIff | vm.c:297-340 | shrinking leaves no record or page table entry over if and only if none was left over before and none of the pages removed is swapped out |
| Growth.ShrinkToNothing | vm.c:297-340 | so a process of more than 16 pages that gives all of them back always leaves something over |
| SwapRuns.StepIsFlat | vm.c:547-723 | every event (fault, accessed bits, clock tick, store, load, new page, removed page) does to a flat memory what it should, whatever page in memory is chosen to leave it |
| SwapRuns.RunIsFlat | vm.c:547-723 | swap transparency over whole runs, under every replacement policy: all tables stay in step and within bounds, and the pages are what the stores make of a flat memory, however often they have been to the swap file and back |
| SwapRuns.LoadsAreFlat | vm.c:547-723 | every load in such a run returns the byte of the flat memory |
| SwapRuns.FaultServed | trap.c:82-94 | a mapped page that is not present is one the fault handler recognises and brings in, at any choice of a victim |
| SwapRuns.RunLosesNoFrame | vm.c:628-684 | in every run every frame the process has holds one of its present pages: whatever leaves memory gives its frame back |
| Replacement.ChoiceFits | vm.c:870-953 | under both policies the page chosen is in memory, exactly one entry leaves the queue, and under second-chance FIFO it is that of the page chosen |
| Replacement.ScfifoChooses | vm.c:940-953 | what the choice of second-chance FIFO is, by the accessed bits along the queue |
| Replacement.RoomQueue | vm.c:234-243 | making room keeps the queue as right, or as much too long, as it was |
| Replacement.FaultQueue | vm.c:715-723 | so does a whole page fault, under both policies |
| Replacement.ForgetQueue | vm.c:311-323 | giving back a page keeps the second-chance queue right; under NFUA the queue becomes one too long if and only if the page had lost its entry |
| PolicyRuns.RunKeepsQueue | vm.c:464-515 | in every run under second-chance FIFO the queue holds exactly the recorded pages in memory, each once; under NFUA it is never too short, and too long only after memory has been given back |
| PolicyRuns.FaultServedIff | vm.c:715-723 | in every reachable state of either policy a mapped page that is not present can be brought in, and after room is made there is a place in the queue for it if and only if the queue was not full, or was full and a page had to leave memory; so there is while it is at most 16 too long |
| PolicyRuns.ReachedIsFlat | vm.c:547-723 | a process in a state some run leads to has the memory that the events of a run make of a flat one |
| PolicyRuns.OnlyPickLeaves | vm.c:234-243 | in every run no page leaves memory but the one picked, and that one only if MAX_PSYC_PAGES pages are in memory |
| PolicyRuns.ScfifoSwapsUnaccessed | vm.c:940-953 | in every run under second-chance FIFO, whenever a page has to leave memory, it is the first one in queue order that has not been accessed, or the head if all have; exactly the pages before it, or all, lose their accessed bits; the queue goes on with the pages behind it and then those before it; and the page is in the swap file afterwards |
| PolicyRuns.AgeIsPast | vm.c:820-848 | in every run both ages of a page in memory encode what the clock ticks saw of it since it last came into memory, one from all zeroes and one from all ones |
| PolicyRuns.PickedIffColdest | vm.c:875-903 | a page is the one NFUA picks if and only if no page in memory has gone unused for longer, and every one with a lower index for less long |
| PolicyRuns.NfuaSwapsColdest | vm.c:875-903 | in every run under NFUA, whenever a page has to leave memory, it is this page that is swapped out |
| QueueOverflow.QueueOverflows | vm.c:464-601 | a run under NFUA, from a new process, to a state with a mapped page that is swapped out and a full queue although 15 pages are in memory, so that nothing leaves the queue to make room for that page |
| Swapping.Process.constructor | vm.c:965-969 | a new process has no pages, no records and an empty queue: the beginning of every run |
| Swapping.Process.NumOfPagedIn | vm.c:701-713 | counts the pages in memory |
| Swapping.Process.GetFreePageOffset | vm.c:613-624 | the offset of the first free slot, or the error value if there is none |
| Swapping.Process.PageOut | vm.c:627-684 | the tables, the swap file and the page table become what the swap-out function says, in a slot that filewrite cannot refuse; the panic for a full swap file cannot happen |
| Swapping.Process.GetPageFromBack | vm.c:547-560 | the bytes of the page's own slot |
| Swapping.Process.PageIn | vm.c:563-601 | the tables become what the swap-in function says; fails if and only if the queue is full; the search by address alone does not go wrong for page 0 |
| Swapping.Process.SecondChance | vm.c:940-953 | SCFIFO terminates with the victim, the queue and the accessed bits that the selection function says |
| Swapping.Process.LeastAge | vm.c:875-903 | NFUA picks the first page in memory with the least age, and takes the head out of the queue |
| Swapping.Process.Select | vm.c:870-953 | the choice of the policy in force |
| Swapping.Process.MakeRoom | vm.c:234-243 | with 16 pages in memory, the one the policy chooses is swapped out; no panic can happen |
| Swapping.Process.SafePageIn | vm.c:715-723 | the page of the faulting address is brought in, after making room; fails if and only if the queue is full and no page has to leave memory, which cannot be while the queue is at most 16 too long, and so never under second-chance FIFO; a step of a run |
| Swapping.Process.AddNewPage | vm.c:795-817 | panics if and only if it comes to a record of the page before an unused one, or to an unused one while the queue is full; takes the first unused record and queues the page; fails if and only if there is none |
| Swapping.Process.AllocUvm | vm.c:222-262 | the result for every pair of sizes and every process, also with pages left over or without records: it panics if it comes to a page left over, and, while the queue is at most 16 too long, only then; after growth the new pages read as zeroes and the old ones as before, and which pages have records is said exactly; if some run leads to the process before, one leads to it after |
| Swapping.Process.DeallocUvm | vm.c:297-340 | the result for every pair of sizes and every process; the remaining pages read as before, and of the removed ones exactly the swapped-out ones keep their page table entries, records and slots; if some run leads to the process before, one leads to it after |
| Swapping.Process.AgeProcessPages | vm.c:820-848 | every page in memory ages by its accessed bit, which is cleared, and no other record or page table entry changes; a step of a run |
| Forking.CopyUvm | vm.c:374-416 | the child maps exactly the pages of the parent below its size: a copy of the frame if the page is in memory, a paged-out entry otherwise |
| Forking.CopySwapFile | vm.c:735-743 | the copy in half pages is exact if and only if the length of the file is a multiple of half a page |
| Forking.CopyFrames | vm.c:374-416 | page table and frames of the child agree with the copied records if and only if every page left over in the parent is swapped out |
| Forking.Fork | proc.c:189-235 | for every parent: it sees the same memory as before, the child sees the same contents in every page below the size, in tables of its own with the same pages resident, swapped and queued; and the tables of the child are in step if and only if whatever is left over in the parent is swapped out |
| Outgrown.GrowNew | vm.c:222-262 | under either policy a new process grows to any number of pages without a panic, and exactly the first 32 have records |
| Outgrown.GiveBack | vm.c:297-340 | a process that grows to any number of pages above 16 and gives all of them back is left with records of pages it does not have, one of them swapped out |
| Outgrown.GrowAgain | vm.c:795-817 | when such a process grows to that size again, the kernel panics |
| Outgrown.TouchLeftover | trap.c:82-94 | a fault on a page left over brings it back into memory, although it is beyond the size |
| Outgrown.ForkLeftover | proc.c:189-235 | the child of such a process records a page in memory that is not in its page table |
| Outgrown.ForkOutgrown | proc.c:189-235 | all of this in a row, from a new process, for any number of pages above 16 and either policy |
| Outgrown.GrowTooLarge | vm.c:795-817 | a process of 33 pages has a page without a record |
| Heap.JoinKeeps | umalloc.c:33-42 | joining two adjacent free blocks keeps the list sorted and the blocks a tiling of the heap |
| Heap.FreedKeeps | umalloc.c:24-44 | free keeps the list one address-ordered cycle without adjacent free blocks, takes back exactly the one block, and loses no byte |
| Heap.TakeTailKeeps | umalloc.c:78-82 | handing out the end of a larger free block keeps all of this and all bytes |
| Heap.CoreKeeps | umalloc.c:46-61 | adding the memory sbrk returned does, and adds exactly that memory |
| Heap.RequestFits | umalloc.c:52-69 | the rounded request has room for the bytes asked for, and sbrk is asked for as many bytes as morecore adds, if and only if at most 2^31 - 16 bytes are asked for; it is never more than a unit too large |
| Heap.Allocator.Free | umalloc.c:24-44 | the block, and no other, goes back; both searches end; all live blocks keep address and size, and the bytes of the heap are the same |
| Heap.Allocator.MoreCore | umalloc.c:46-61 | fails exactly if sbrk does; otherwise the heap grows by exactly the new memory |
| Heap.Allocator.Malloc | umalloc.c:63-90 | a live block of exactly the rounded size, apart from all others, which keep address and size; 0 only if no free block is large enough and sbrk failed; sbrk is asked once if no free block is large enough, and otherwise not; no byte of the heap is lost |
| ProcTable.Table.Wakeup1 | proc.c:498-505 | exactly the sleepers on the channel become runnable, and nothing else changes |
| ProcTable.Table.Exit | proc.c:290-308 | the parent is woken, the children go to init, which is woken for each zombie among them, and the process becomes a zombie |
| ProcTable.Table.WaitPass | proc.c:320-350 | reaps the first zombie child, whose slot then is unused, unmarked and without pid and parent; without one it fails if there is no child or the caller is killed, and otherwise, and only then, sleeps on itself; nothing else changes |
| ProcTable.Table.Kill | proc.c:520-537 | the first process with the pid is marked as killed and, if asleep, made runnable, and nothing else changes; fails if and only if there is none |
| SleepWakeup.NextKeepsBase | proc.c:458-537 | every action keeps lock owners, program positions and process states consistent: sleep has no window between releasing the caller's lock and sleeping |
| SleepWakeup.NextKeepsMutex | sleeplock.c:22-42 | every action keeps at most one process inside each sleep lock |
| SleepWakeup.NextKeepsNoLost | proc.c:458-514 | every action keeps that whoever sleeps on a free sleep lock is about to be woken by its releaser |
| SleepWakeup.ExitKeepsFamily | proc.c:293-301 | exit leaves every process with a living parent |
| SleepWakeup.WaitKeeps | proc.c:313-352 | wait never goes to sleep with a zombie child or after being killed |
| SleepWakeup.KillKeeps | proc.c:520-537 | kill keeps both |
| SleepWakeup.RunIsSafe | proc.c:255-537 | in every run of any number of processes and sleep locks, all of these hold at every moment |
| SleepWakeup.SleeperHasWaker | sleeplock.c:22-42 | whenever a process sleeps in acquiresleep, some process is inside that lock or is about to wake it |
| ProcRuns.KillMarks | proc.c:520-537 | a step of kill leaves the first process with the pid marked and not asleep |
| ProcRuns.KilledUntilReaped | proc.c:313-537 | in every run a process that has been killed stays so until it is reaped, and in between never sleeps in wait |
| ProcRuns.ChannelsFit | proc.c:458-505 | in every run a process has a channel only while it sleeps on it, or has been woken and not yet run on, so that no wakeup can hit a stale one |
| ProcRuns.StepsIff | proc.c:458-537 | a running process in the middle of an operation can take its next step if and only if nobody holds the spinlock this step takes |
| ProcRuns.PreemptIff | trap.c:117-127 | a running process can lose the processor to a clock tick if and only if it holds no spinlock and ptable.lock is free |
| ProcRuns.SomeoneSteps | sleeplock.c:22-42 | no deadlock on spinlocks: in every run a process in the middle of an operation can take its next step, or the holder of the spinlock it needs can, or the holder of the spinlock that one needs |
| Pipes.CountersTell | pipe.c:85-115 | with at most 512 bytes in the ring, comparing the wrapping 32-bit counters tells an empty and a full ring |
| Pipes.Wraps | pipe.c:93-116 | position and increment do not notice that the counters wrap around |
| Pipes.Pipe.Write | pipe.c:77-98 | accepts a prefix of the bytes, in order, until all are in, or the ring is full; fails if and only if it is then full with the read end closed or the caller killed, and otherwise sleeps; wakes the readers unless it fails; nobody is left asleep on a condition that holds, if and only if it is not the case that the caller is killed while a reader sleeps and more than 512 bytes are written |
| Pipes.Pipe.Read | pipe.c:100-121 | delivers the oldest bytes, as many as asked for and present, and wakes the writers; waits or fails exactly if the ring is empty and the write end open; leaves nobody asleep who should not be |
| Pipes.Pipe.Close | pipe.c:59-75 | wakes the other side and keeps the bytes |
| Pipes.Pipe.Fifo | pipe.c:77-121 | at any time, bytes delivered followed by the bytes in the ring are the bytes accepted, in order, and the counters differ by 0 to 512, mod 2^32 |
| Pipes.SleepingOnFullPipe | pipe.c:84-93 | the exception is real: a reader asleep on a full ring |
| Regex.MatchHere | grep.c:84-96 | true if and only if the text begins with a word of the pattern, with repetition, any-character and end anchor taken declaratively |
| Regex.MatchStar | grep.c:98-106 | true if and only if after some number of repetitions the rest matches |
| Regex.Match | grep.c:72-82 | true if and only if some position of the text, or the first one for an anchored pattern, begins with the pattern |
| Regex.BeginsStar | grep.c:98-106 | what a starred item means, for every text |
| Regex.ShowParse | grep.c:84-96 | every expression is what its pattern is written as: nothing of it is lost |
| Regex.ParseShow | grep.c:84-96 | a pattern is what its written form means if and only if no plain character stands before a star and no plain dollar at the end |
| Regex.ShowParseSearch | grep.c:72-82 | the same as the first for whole expressions, with the anchor |
| Regex.ParseShowSearch | grep.c:72-82 | the same as the second, where also no plain caret may come first |
| Regex.FoundPlain | grep.c:72-96 | an expression of characters and dots, perhaps anchored at either end, is found exactly where the text agrees with it character by character, from the start if anchored there, to the end if anchored there |
| Regex.FoundStar | grep.c:98-106 | an anchored repetition of a character is found exactly in the texts that consist of it, and of a dot in all texts |
| ShellSyntax.RoundTrip | sh.c:327-446 | every command tree with at most nine words in each simple command is what its printed form parses to |
| ShellParens.FewestParens | sh.c:344-413 | and no line that parses to the tree has fewer parentheses than the printed form |
| ShellSyntax.LineRoundTrip | sh.c:344-359 | the same inside a larger line: the parser stops exactly behind the printed form |
| ShellSyntax.ExecRoundTrip | sh.c:415-446 | the same for an operand of a pipe with redirections behind it |
| ShellRedirs.AppendIsOutput | sh.c:374-397 | every token list parses to the same result when each `>>` is replaced by `>` |
| ShellRedirs.RecordedIff | sh.c:388-393 | the redirections in the tree of a line are those written in it, in order, if and only if the line has no `>>` |
| ShellRedirs.SameTree | sh.c:388-393 | two lines that differ in `>>` and `>` only, and parse to the same tree |
| ShellGrammar.ParsesIff | sh.c:327-446 | the parser accepts exactly the token lists of the grammar, with parentheses and redirections wherever it allows them, and its tree is the one they mean |
| ShellGrammar.MissingFileTold | sh.c:381-383 | a redirection without a file is reported as such, behind any words and redirections |
| ShellGrammar.SyntaxTold | sh.c:434-435 | so is a parenthesis behind a word or a redirection |
| ShellGrammar.TooManyArgsTold | sh.c:438-440 | so is the tenth word |
| ShellGrammar.MissingParenTold | sh.c:408-409 | so is a missing parenthesis behind any line |
| ShellGrammar.LeftoversTold | sh.c:335-339 | so is a parenthesis too many behind any line |
| ShellParser.Parser.Peek | sh.c:310-320 | tells whether the next token is one of the symbols, and moves over blanks only |
| ShellParser.Parser.GetToken | sh.c:265-308 | the next token of the line, where it is, and the cursor behind it |
| ShellParser.Parser.ParseRedirs | sh.c:374-397 | the redirections the grammar says, or its error |
| ShellParser.Parser.ParseExec | sh.c:415-446 | the tree the grammar says, or its error; it ends on every input |
| ShellParser.Parser.ParsePipe | sh.c:361-372 | likewise for pipes, which associate to the right |
| ShellParser.Parser.ParseLine | sh.c:344-359 | likewise for lists and background commands |
| ShellParser.Parser.ParseBlock | sh.c:399-413 | likewise for parenthesised commands |
| ShellParser.NulTerminate | sh.c:448-493 | a NUL behind every word of the command, and no other byte changed |
| ShellParser.TerminatedWords | sh.c:448-493 | then every word is a C string of exactly its own characters, although all words share one buffer |
| ShellParser.ParseCommand | sh.c:327-342 | on every line the result is the tree the grammar gives, or its error, and every word is a C string in the line's own memory |
| ShellParser.RenderLex | sh.c:265-308 | printing tokens and reading them back gives the same tokens |
| ShellParser.PrintAndParse | sh.c:327-446 | every accepted tree can be written as a line that parses to this tree again |
| ShellLines.AcceptedIff | sh.c:265-446 | the trees some line parses to are exactly those with at most nine words in each simple command whose words are non-empty and without blanks and symbols |
| ShellTokens.Tables | sh.c:262-263 | blanks and symbols are those of the two tables |
| ShellTokens.LexLayout | sh.c:265-308 | however tokens are laid out with blanks, and with none where they may touch, the lexer finds exactly these tokens; only two words, or a > in front of another >, may not touch |
| ShellTokens.LineIsLayout | sh.c:265-308 | every line is its tokens, laid out so |
| ShellTokens.LexSpells | sh.c:265-308 | the tokens of a line, put together, are its characters but for the blanks |
| ShellTokens.LineMeans | sh.c:265-446 | on characters: a line parses to a tree if and only if it is laid out from a syntax tree of the grammar that means this tree |

## Left out

- FileSystem.Fs.Writei: nothing is said about the state after a panic of balloc; inodes are the in-memory ones, and iupdate is the logging of the inode's block, whose layout `InodeTable` adds.
- FileSystem.Fs.Readi: regular files only, as for writei; device inodes go to a table of functions.
- FileSystem.Fs.Balloc: works on the block contents that log and buffer cache provide; that these provide them is what `LogProtocol` and `BufferCache` prove.
- Transactions.CrashAtomic: transactions come one after another; operations that overlap share one commit, which `LogProtocol` proves to be all or nothing.
- CrashFs.TruncTransaction: the type and the links of an inode are not modelled, so this is the truncation alone and not the freeing of an inode in iput.
- FileIo.File.Read: as for filewrite.
- FileIo.File.Write: ilock and the reference counts of the file table are left out, and so is a file that is a pipe, which `Pipes` models.
- BufferCache.Bcache.Bget: the buffer's lock must be free, since waiting for it is what `SleepWakeup` models; one device, with an explicit device number so that empty buffers stay apart.
- BufferCache.Bcache.Bread: as for bget.
- LogManager.Log.Commit: fewer than NBUF blocks pinned and no other buffer held; with these two met the panic of bget is proved impossible, and a log as mkfs makes it never pins more.  Buffers that other processes hold meanwhile are left out.
- LogManager.CopyToLog: no buffer but those of the copy is held, as for a commit.
- LogManager.CopyToHome: likewise.
- LogManager.Log.WriteHead: likewise.
- LogManager.Log.WriteLog: likewise.
- LogManager.Log.InstallTrans: likewise.
- LogManager.Log.EndOp: likewise for the last operation to leave.
- LogManager.Log.LogWrite: one step, although the source tests the length of the list before it takes log.lock; `LogRace` takes the two apart.
- LogManager.Log.BeginOp: one pass of the loop; sleeping and waking in begin_op are not modelled.
- Swapping.Process.AllocUvm: kalloc and mappages always succeed; running out of memory half way is left out.  Nothing is said about the state after a panic, and when the queue is more than 16 too long a panic may also come from the queue, as `AddNewPage` says.
- Swapping.Process.DeallocUvm: page directories without a page table are skipped by the source and do not occur below the size of a process.
- Swapping.Process.WriteToSwapFile: says nothing about a write that filewrite refuses, which is proved not to happen.
- Forking.CopyUvm: kalloc and mappages always succeed, as for allocuvm.
- Forking.Fork: memory and swap file only; file descriptors, names and the trap frame are left out.  The child does not start a run of its own.
- Forking.CopySwapFile: for files no longer than a file can be; swap files are at most 17 pages long.
- Heap.Allocator.Malloc: requests of at most 2^31 - 16 bytes, which by `RequestFits` are exactly those whose sizes do not wrap around.
- ProcTable.Table.Exit: from taking ptable.lock on, for any process but init, where the kernel panics; closing files and the swap file come before.
- Pipes.Pipe.Write: what one process does between taking the lock and sleeping or returning; it is called again with the rest of the bytes when the process wakes up.
- ShellParser.ParseCommand: running the commands, and the memory that holds the tree.
- LAPA and AQ page replacement, beyond what holds for every policy: count_set_bits returns 32 for every number (vm.c:784-793), and the queue of AQ advances on accessed bits that are already cleared (vm.c:835, vm.c:856-865), so neither does what its name says.
- Paging during exec, which pages out of the old address space, and the life of swap files across exec.
- The processor's own accesses: a page's accessed bit may change at any time, and stores and loads go to present pages.
- Spinlocks and the scheduler: locks are owners in a state machine, and any runnable process may run next.
- The embryo state between the allocation of a process and its first run.
- Directories, paths, inode allocation and reference counts, the reading of lines in grep.
- Console, interrupt controllers, disk driver, boot code, system-call arguments, user utilities.
