# Verified core of an xv6 course repository

A Dafny 4.11 model of the parts of this repository that keep state consistent: xv6's crash-safe
file system, its memory management, processes, pipes and shell parser, and the two student projects
beside it (a page allocator and the file system ssufs). `dafny verify dfyconfig.toml` checks the
project.

| file | models |
|---|---|
| Wal, Log | the write-ahead log: what the disk holds after every single block write, admission, commit, recovery |
| Bio | the buffer cache over the in-memory disk |
| Blocks, Inodes, Truncate, Space, Fs | bytes, words and bits of a block; inodes, block ownership, free blocks; reading, writing, truncation; filewrite |
| Storage | filewrite through Fs, Log, Bio and the disk, and what a crash leaves of the files |
| Umalloc | the user-level allocator of Kernighan and Ritchie (The C Programming Language, 2nd ed., section 8.7) |
| Ealloc | the chunk allocator of project 5 |
| PageTables, Vm | two-level page tables (Intel SDM volume 3A, section 4.3), page allocation, address spaces |
| Pipe, Proc | pipes and the process table as sections under a lock, and every interleaving of them |
| Ssufs | the file system of project 6 |
| Syntax, RoundTrip, Append, Shell | the shell's grammar, the printer that undoes it, lines that differ in > and >>, the parser and nulterminate |
| Common, Counting | options and lists; cardinalities of finite sets and lists |

Code that updates state in place is a class whose methods state their whole new state. Panics and
failed assertions are results of the methods, and the contracts say by the state before the call when
they happen; a panic that cannot happen is proved impossible. Where several
processes share state, a section between acquiring and releasing a lock is one step, and a lemma
about all runs says what holds between steps. On the file system the invariant over all files is that no
file has a hole below its size, free inodes have no blocks and no block is referred to twice: a
formatted disk has it, writing, truncating, allocating and freeing files keep it, and so does a crash
anywhere in filewrite. Sizes and addresses are unbounded except where a
contract says how the source's 32 bits matter.

Some promises turned out to hold only under a condition. The table has the exact condition of each, and
an input or run at which it fails:

- log_write can refuse a block an operation has reserved, because it compares with the size of the
  log region, header included, and mkfs gives the region LOGSIZE blocks (`Log.ReservedBlocksFit`,
  `Log.ReservedBlockRefused`). It also refuses a block that is logged already, whatever the size of
  the log, as soon as LOGSIZE blocks are logged (`Log.NoWritePanics`, `Log.RefusedWrite`). With a log
  of more than LOGSIZE blocks, NBUF blocks can be logged, and commit itself runs out of buffers
  (`Log.Log.Commit`, `Log.CommitStarves`); with the log that mkfs makes that takes processes that
  are reading meanwhile (`Log.CommitHasBuffers`).
- writei does not write the inode when it fills a hole of a file that does not grow, so that the inode
  on disk lacks the block (`Fs.FileSystem.Writei`, `Fs.HoleLost`).
- A killed writer that fills a pipe returns without waking a sleeping reader (`Pipe.QuietStep`,
  `Pipe.LostWakeup`).
- kill(0) marks a free slot of the process table, and the next process there starts out killed
  (`Proc.CleanStep`, `Proc.BornKilled`).
- malloc's size computation wraps around near 2 to the 32 (`Umalloc.UnitsSuffice`), and from 2 to the
  31 bytes on it hands out memory the process does not have (`Umalloc.SbrkBacks`,
  `Umalloc.OutsideBlock`).
- The chunk allocator accepts zero and negative multiples of 256. Zero puts an empty chunk on the page,
  which is then no longer partitioned, and two calls get the same address (`Ealloc.SameAddress`); a negative size
  makes it hand out memory outside the page (`Ealloc.Allocator.Alloc`, `Ealloc.BelowThePage`).
- kfree does not notice a page that is free already, which is then handed out twice
  (`Vm.Machine.Kfree`, `Vm.Machine.FreedTwice`).
- copyout dereferences a null pointer where the page table is missing (`Vm.Machine.Copyout`,
  `Vm.Machine.CopyoutNull`).
- ssufs leaks blocks when a write runs out of them (`Ssufs.Disk.Write`, `Ssufs.RunOutOfBlocks`), delete
  closes only one handle (`Ssufs.Disk.Delete`, `Ssufs.StaleHandle`), lseek moves closed handles
  (`Ssufs.Disk.Lseek`, `Ssufs.SeekClosed`), and a name of eight characters is lost with the first byte written
  (`Ssufs.Disk.OpenNamei`, `Ssufs.NameLost`).
- The shell parses >> exactly like >, so it never appends (`Append.AppendIsOverwrite`).

## Model

| member | source | states |
|---|---|---|
| `Wal.CrashAtomicity` | 설계 3번/xv6/log.c:69-202 | In every run of commits, crashes after any single block write of a commit or of a recovery, and recoveries, the home blocks recovery leaves are the initial ones with exactly the transactions whose header write took place, whole and in order; a machine that is up has them in place behind an empty header |
| `Wal.CommitAtomic` | 설계 3번/xv6/log.c:177-202 | The header write is the commit point: stopped before it, recovery gives the old disk; stopped at it or anywhere later, the disk with the whole transaction |
| `Wal.CommitCompletes` | 설계 3번/xv6/log.c:192-202 | An undisturbed commit leaves an empty header and the transaction at home |
| `Wal.InstallIdempotent` | 설계 3번/xv6/log.c:69-82 | install_trans stopped after any number of copies and started over gives the disk of one uninterrupted pass, also when a block is named twice |
| `Wal.RecoverResumes` | 설계 3번/xv6/log.c:115-122 | Stopping a recovery anywhere does not change what the next recovery leaves at home |
| `Wal.InstalledIsApply` | 설계 3번/xv6/log.c:69-82 | Installing the first k logged blocks is applying the first k updates, in order, as far as home blocks go |
| `Wal.StepAmounts` | 설계 3번/xv6/log.c:115-202 | One event keeps: what recovery would make of the disk is the initial disk with the committed updates |
| `Log.Log.constructor` | 설계 3번/xv6/log.c:53-66 | Booting recovers the disk with exactly the writes of a recovery and starts with an empty log |
| `Log.Log.RecoverFromLog` | 설계 3번/xv6/log.c:115-122 | The block writes are those of a recovery, one by one, and the disk ends up recovered with an empty header |
| `Log.Log.ReadHead` | 설계 3번/xv6/log.c:85-96 | The header in memory becomes the one on disk; nothing is written |
| `Log.Log.WriteHead` | 설계 3번/xv6/log.c:101-113 | The header on disk becomes the one in memory in a single block write, and the rest of the header block is kept; buffers that other processes use for reading stay as they are |
| `Log.Log.InstallTrans` | 설계 3번/xv6/log.c:69-82 | One disk write per logged block, each leaving the disk that the installation of that many blocks describes; every logged block is unpinned, and buffers that others use for reading stay as they are |
| `Log.Log.WriteLog` | 설계 3번/xv6/log.c:177-190 | The log blocks get the latest contents of the logged blocks, one write each; it runs out of buffers exactly when the logged blocks and the buffers in use are the whole cache, and then nothing is written |
| `Log.Log.Commit` | 설계 3번/xv6/log.c:192-202 | With other processes reading meanwhile: the disk writes are exactly those of the transaction made of the logged blocks and their latest contents, in order; afterwards the disk has the latest contents of every block, and the readers' buffers are as they were. It panics for want of a buffer exactly when the logged blocks and the readers' buffers are the whole cache |
| `Log.CommitStarves` | 설계 3번/xv6/log.c:177-190 | In a log one block larger than the one mkfs makes, three operations that use all they have reserved pin every buffer, and the commit panics |
| `Log.CommitHasBuffers` | 설계 3번/xv6/mkfs.c:25 | In a log of the size mkfs makes the logged blocks never fill the cache |
| `Log.Log.BeginOp` | 설계 3번/xv6/log.c:125-141 | An operation is admitted exactly when no commit runs and the log can still take MAXOPBLOCKS from it and from each running operation; reservations and logged blocks together stay within LOGSIZE |
| `Log.Log.EndOp` | 설계 3번/xv6/log.c:145-174 | The panic for a commit in progress cannot happen; the last operation out, and only it, commits; its unused reservation is given back |
| `Log.Log.LogWrite` | 설계 3번/xv6/log.c:213-233 | The block is pinned and recorded once however often it is written; it is refused exactly when no operation runs or the log holds LOGSIZE or size - 1 blocks, even if it is recorded already |
| `Log.Log.LogBlock` | 설계 3번/xv6/fs.c:500-505 | bread, a new contents, log_write and brelse, once nobody else has the block locked: what the cache stands for changes in that block alone, the disk and the other buffers do not, and the block is logged once; it panics exactly when the log is full or no buffer is to be had |
| `Log.LatestContents` | 설계 3번/xv6/log.c:177-202 | Applying the logged blocks to the disk gives the contents last stored for every block, if everybody logs what they change |
| `Log.CrashDuringCommit` | 설계 3번/xv6/log.c:192-202 | From every disk a crash during commit can leave, recovery makes the disk before the commit or the latest contents of every block, according to whether the header was written, if everybody logs what they change |
| `Log.ReservationsHold` | 설계 3번/xv6/log.c:125-174 | In every run of begin_op, log_write, end_op and commit, with operations that log at most budget blocks each, what is logged plus what running operations may still log stays within MostLogged(budget), which is at most LOGSIZE, and nobody runs during a commit |
| `Log.ReservedBlocksFit` | 설계 3번/xv6/log.c:218-219 | log_write takes every new block that an operation has reserved, in every run, if and only if the log region has more than LOGSIZE blocks, header included |
| `Log.ReservedBlockRefused` | 설계 3번/xv6/mkfs.c:25 | For every log of at most LOGSIZE blocks, which is what mkfs makes, a run in which a reserved block is refused |
| `Log.NoWritePanics` | 설계 3번/xv6/log.c:125-233 | No log_write panics in any run, new block or block logged already, if and only if the most that operations of that budget can log is below LOGSIZE and below what the region holds: never for operations that use all of MAXOPBLOCKS, whatever the log, and always with mkfs's log for operations of one block less |
| `Log.RefusedWrite` | 설계 3번/xv6/log.c:218-219 | Outside that condition, a reachable state in which a running operation's log_write panics |
| `Bio.BufferCache.constructor` | 설계 3번/xv6/bio.c:38-56 | All NBUF buffers are on the doubly linked ring, each once, and stand for the disk as it is |
| `Bio.BufferCache.Bget` | 설계 3번/xv6/bio.c:61-93 | The block's own buffer if it is cached, else the least recently used buffer that is neither referenced nor dirty; it fails exactly if there is no such buffer; no two buffers ever hold the same block and no dirty block is lost |
| `Bio.BufferCache.FindCached` | 설계 3번/xv6/bio.c:69-76 | The walk along next visits every buffer, so the block is found whenever some buffer holds it |
| `Bio.BufferCache.FindVictim` | 설계 3번/xv6/bio.c:81-92 | The walk along prev finds the idle clean buffer nearest the end of the ring, and fails only if every buffer is referenced or dirty |
| `Bio.BufferCache.Bread` | 설계 3번/xv6/bio.c:96-106 | The buffer returned is locked and holds the contents last stored for the block, whether they come from the cache or the disk |
| `Bio.BufferCache.Bwrite` | 설계 3번/xv6/bio.c:109-116 | One block write puts the buffer's contents on the disk and unpins the block; the driver's panics cannot happen |
| `Bio.BufferCache.Brelse` | 설계 3번/xv6/bio.c:120-141 | The last release moves the buffer to the front of the ring and keeps the order of the others; both link directions stay a permutation of all buffers; the cache goes on standing for the contents last stored if and only if the buffer is dirty or the disk has its contents |
| `Bio.BufferCache.Iderw` | 설계 3번/xv6/memide.c:38-60 | A dirty buffer is written to its block, an invalid one gets the latest contents of its block; the exact condition for the panics |
| `Bio.LinkedUnlink` | 설계 3번/xv6/bio.c:132-133 | Unlinking any buffer leaves the others linked in the same order, in both directions |
| `Bio.LinkedFront` | 설계 3번/xv6/bio.c:134-137 | Linking a buffer in behind the head puts it in front of the ring |
| `Bio.WrittenOut` | 설계 3번/xv6/memide.c:53-59 | Writing a dirty buffer out keeps the cache a refinement of the flat block map and unpins just that block |
| `Bio.SyncedIsClean` | 설계 3번/xv6/bio.c:80-91 | If everybody logs what they change, the disk has the latest contents of every block that is not pinned |
| `Bio.Unlocked` | 설계 3번/xv6/bio.c:120-141 | Unlocking a buffer loses nothing if and only if the disk has its contents or the buffer is dirty |
| `Inodes.EncodeDecode` | 설계 3번/xv6/fs.c:221-237 | The inode written into its block is the inode read back, and the other inodes of the block are untouched |
| `Inodes.TakenOwns` | 설계 3번/xv6/fs.c:56-78 | Marking and zeroing a free block disturbs no inode: nobody can own a block whose bit is clear |
| `Inodes.LinkAddr` | 설계 3번/xv6/fs.c:379-389 | Recording a fresh block in an empty slot keeps every block owned by one slot and changes no byte of any file |
| `Inodes.LinkEntry` | 설계 3번/xv6/fs.c:386-398 | The same for an entry of the indirect block |
| `Inodes.OthersKept` | 설계 3번/xv6/fs.c:373-436 | As long as inodes other than one own what they owned, every one of them refers to the very blocks it referred to |
| `Inodes.WriteData` | 설계 3번/xv6/fs.c:499-505 | Writing one data block changes that block of that file and no other byte of any file, no inode and no block number |
| `Inodes.WriteInode` | 설계 3번/xv6/fs.c:221-237 | Writing one inode changes no other inode, no bitmap bit and no byte of any file |
| `Inodes.FreeUnowned` | 설계 3번/xv6/fs.c:81-96 | Freeing a block nobody owns disturbs no inode and no file |
| `Truncate.FreeStep` | 설계 3번/xv6/fs.c:81-96 | While a file is truncated every block it still has is marked in use, so freeing the next one cannot find it free |
| `Fs.FileSystem.Balloc` | 설계 3번/xv6/fs.c:56-78 | The first free block, marked and zeroed; the panic happens exactly when every block is in use |
| `Fs.FileSystem.Bfree` | 설계 3번/xv6/fs.c:81-96 | Clears the bit of that block alone; the panic happens exactly when the bit was clear |
| `Fs.FileSystem.Bmap` | 설계 3번/xv6/fs.c:373-401 | The block that holds that part of the file, allocated if missing; each block keeps a single owner, no file's bytes change, only missing block numbers of this inode do, and every other inode refers to the blocks it referred to |
| `Fs.FileSystem.Iupdate` | 설계 3번/xv6/fs.c:221-237 | The inode on disk becomes the one in memory, and nothing else on the disk changes |
| `Fs.FileSystem.Readi` | 설계 3번/xv6/fs.c:453-477 | The bytes of the file from the offset, clipped to the size, zeros in holes; no byte of any file changes, every other inode keeps its blocks and, in a file without holes, nothing changes at all; the exact error conditions, with 32-bit overflow, and the panic exactly when the holes read need more blocks than are free |
| `Fs.FileSystem.Writei` | 설계 3번/xv6/fs.c:482-512 | The contents become the old ones with the bytes spliced in, holes included; no byte and no block of another file changes; an inode that agreed with the disk does so afterwards if and only if the file grows or no block number in the inode itself was missing for the range; files without holes stay without holes, the one written and all others; it runs out of blocks exactly when the range lacks more blocks, the indirect one included, than were free before the call; the blocks logged are bounded |
| `Fs.AddrsKept` | 설계 3번/xv6/fs.c:373-401 | The block numbers in the inode change exactly if one of those the range goes through was missing |
| `Fs.NothingLacks` | 설계 3번/xv6/fs.c:482-512 | In a file without holes a write that does not make it grow lacks no block number, so that leaving out the inode is right |
| `Fs.HoleLost` | 설계 3번/xv6/fs.c:507-510 | A file of one byte without a block, written in place on a new disk: the inode in memory has the byte, the inode on disk does not |
| `Fs.StaysConsistent` | 설계 3번/xv6/fs.c:482-512 | All inodes without holes, free inodes without blocks and no block referred to twice: kept by an operation that leaves its own inode so and the blocks of the others alone |
| `Fs.Format` | 설계 3번/xv6/mkfs.c:237-251 | mkfs's disk before the first file: every inode free, exactly the blocks before the data blocks in use, all inodes in order; its assertion fails exactly when those blocks are more than one bitmap block has bits |
| `Fs.FileSystem.WholeReady` | 설계 3번/xv6/fs.c:288-312 | With all inodes in order, any inode read from disk is one that readi, writei and filewrite take |
| `Fs.FileSystem.Itrunc` | 설계 3번/xv6/fs.c:408-436 | The file is empty on disk and in memory, exactly its own blocks become free, the panic for freeing a free block cannot happen, no byte and no block of another file changes, and all inodes stay in order |
| `Fs.FileSystem.Ialloc` | 설계 3번/xv6/fs.c:195-215 | The first free inode gets the type and no contents; it fails exactly when all are in use; every other inode keeps its blocks and bytes, and all inodes stay in order |
| `Fs.FileSystem.FreeInode` | 설계 3번/xv6/fs.c:332-353 | An inode without links becomes free on disk; exactly its own blocks become free, no other inode and no byte or block of another file changes, and all inodes stay in order |
| `Fs.FileSystem.Filewrite` | 설계 3번/xv6/file.c:117-156 | What lies between the old and the new offset is the data, spliced in chunk by chunk, also when the call returns -1; no byte, no block and no inode of another file changes, and files without holes stay so; how far it gets and when it panics, by the free blocks and the range before the call; no operation logs more than MAXOPBLOCKS blocks in a file without holes, seven with a bitmap of one block, and a block none of them logged is as it was; the panic for a short write cannot happen |
| `Fs.FileSystem.WriteOperation` | 설계 3번/xv6/file.c:139-145 | One trip round the loop: what writei does, within one operation of the log, the blocks logged all among the data blocks of the chunk, the indirect block, the inode block and the bitmap blocks of what was allocated, and bounded as for filewrite |
| `Fs.HistoryKeeps` | 설계 3번/xv6/log.c:213-233 | Whatever an operation does to blocks goes through log_write: a block it did not log is as it was |
| `Space.EnoughFree` | 설계 3번/xv6/fs.c:56-78 | With every block of a range in place, free blocks have gone down by exactly the blocks that were missing |
| `Space.TooFewFree` | 설계 3번/xv6/fs.c:56-78 | A shortage in the middle of a range is a shortage for the whole range before the call |
| `Space.MarksCount` | 설계 3번/xv6/fs.c:56-78 | Filling a range writes no more bitmap blocks than it allocates blocks |
| `Space.EmptyCount` | 설계 3번/xv6/fs.c:373-401 | A range lacks at most the blocks behind those that are there, and the indirect one |
| `Storage.WriteFile` | 설계 3번/xv6/file.c:117-156 | filewrite through the log, the cache and the disk: after a crash that follows any single block write recovery finds the file with a whole number of chunks of the data spliced in, or all of it, every other file as it was and in its blocks, and all inodes in order if they were; when it panics, when it returns n or -1, and that the disk has everything once it returns; every other file that was ready to be written still is |
| `Storage.WriteChunk` | 설계 3번/xv6/file.c:139-145 | One operation from begin_op to the commit in end_op: up to one of its block writes a crash leaves the disk before it, from then on the disk after it |
| `Storage.Boot` | 설계 3번/xv6/log.c:53-66 | Recovery of a disk whose inodes will be in order, and the system is ready for the next write: what filewrite leaves at any crash is what boot needs |
| `Storage.Replay` | 설계 3번/xv6/log.c:213-233 | The writes of an operation, one by one through bread, log_write and brelse, make of the cache what the file system made of its disk, and the log holds just the blocks written |
| `Storage.CommitSwitches` | 설계 3번/xv6/log.c:192-202 | The block writes of a commit, in order, leave the old disk up to the header write and the new one from it on |
| `Storage.SameHomeSameFile` | 설계 3번/xv6/mkfs.c:20-28 | Disks that differ only in the log have the same inodes, the same blocks and the same bytes in every file |
| `Storage.SameHomeConsistent` | 설계 3번/xv6/mkfs.c:20-28 | And if all inodes are in order on the one, they are on the other |
| `Storage.TouchedOnDisk` | 설계 3번/xv6/fs.c:482-512 | No block that a write logs lies in the log itself |
| `Fs.ChunkFitsReservation` | 설계 3번/xv6/file.c:127-138 | In a file without holes the largest chunk, at any offset and with a bitmap of any size, logs at most MAXOPBLOCKS blocks, because one of four data blocks is there already; at most seven with a bitmap of one block, holes or not; eleven otherwise |
| `Fs.WroteIsSplice` | 설계 3번/xv6/fs.c:499-511 | Bytes changed in place, and no others, are a splice of the file's contents |
| `Fs.SpliceMore` | 설계 3번/xv6/file.c:135-152 | Adjacent splices make one splice |
| `Umalloc.Heap.Free` | 설계 3번/xv6/umalloc.c:24-44 | The block is on the list again, within one free block; the list stays in address order with one wrap and no two free blocks touch; every unit from sbrk stays in exactly one block, and no word inside any other block handed out is written |
| `Umalloc.Heap.FindPlace` | 설계 3번/xv6/umalloc.c:30-32 | The circular search ends at the list entry after which the block belongs in address order |
| `Umalloc.Heap.Morecore` | 설계 3번/xv6/umalloc.c:46-61 | All the memory obtained is on the free list, and some free block has the units asked for, even if the new region was merged into its neighbour; no word inside a block handed out is written |
| `Umalloc.Heap.Search` | 설계 3번/xv6/umalloc.c:74-89 | The first entry going round from freep with enough units, if there is one |
| `Umalloc.Heap.Malloc` | 설계 3번/xv6/umalloc.c:63-90 | A new block of the units asked for, disjoint from every other, of which no word is written; sbrk is asked at most once, exactly when no free block is large enough, and malloc fails exactly if that fails |
| `Umalloc.HeadersOnly` | 설계 3번/xv6/umalloc.c:24-90 | Writing headers of free blocks and of the block given back, and nothing else, touches no block that is handed out before and after |
| `Umalloc.LiveDisjoint` | 설계 3번/xv6/umalloc.c:63-90 | Two blocks handed out never overlap, nor does one overlap a free block |
| `Umalloc.BlocksDisjoint` | 설계 3번/xv6/umalloc.c:24-90 | Blocks that tile the memory from sbrk have no unit in common |
| `Umalloc.UnitsSuffice` | 설계 3번/xv6/umalloc.c:69 | The block holds the bytes asked for if and only if the size does not wrap around at 2 to the 32 |
| `Umalloc.SbrkArgumentExact` | 설계 3번/xv6/umalloc.c:52-54 | sbrk is asked for the number of bytes meant if and only if the request stays below 2 to the 31 |
| `Umalloc.SbrkBacks` | 설계 3번/xv6/proc.c:159-176 | When sbrk answers with an address, the process has grown by the memory malloc will count on if and only if that is less than 2 to the 31 bytes; otherwise it has not grown at all |
| `Umalloc.MallocInProcess` | 설계 3번/xv6/umalloc.c:46-90 | malloc and sbrk together: the memory the heap counts on stays the process's own if and only if sbrk did not answer a request of 2 to the 31 bytes or more, and while it does sbrk answers with memory above all that came before |
| `Umalloc.NothingGiven` | 설계 3번/xv6/sysproc.c:45-57 | For 2 to the 31 bytes sbrk returns the end of memory and gives nothing, so the next call returns the same address |
| `Umalloc.OutsideBlock` | 설계 3번/xv6/umalloc.c:46-90 | malloc of 2 to the 31 bytes on an empty heap hands out a block that lies wholly beyond the process's memory |
| `Ealloc.Allocator.Alloc` | 설계 5/project#5-code/ealloc.c:37-119 | First fit over the pages in order, in a chunk that starts where the free chunk did; NULL exactly for a size that is too large or no multiple of 256, or when all four pages exist and none has a free chunk that large; pages that were partitioned stay so if and only if the size is positive or nothing is handed out; when an entry outside the table is written, which on partitioned pages takes a size of zero or less; the self-call after adding a page succeeds |
| `Ealloc.Allocator.AllocInPage` | 설계 5/project#5-code/ealloc.c:48-100 | First fit in one page, for every size; when find_next has no entry for the split |
| `Ealloc.Allocator.Dealloc` | 설계 5/project#5-code/ealloc.c:121-146 | The first chunk that starts at the address becomes free and joins its free neighbours, the other chunks in use stay where they are; any other address changes nothing; partitioned pages stay so |
| `Ealloc.Allocator.MergeChunk` | 설계 5/project#5-code/ealloc.c:148-175 | Every run of free chunks of the page becomes one, with next, prev and table entries to match |
| `Ealloc.Allocator.FindNext` | 설계 5/project#5-code/ealloc.c:178-189 | The first unused table entry, or -1 exactly when there is none |
| `Ealloc.CarveFacts` | 설계 5/project#5-code/ealloc.c:57-94 | Taking part of a free chunk moves no chunk in use and loses no byte |
| `Ealloc.CarveTiled` | 설계 5/project#5-code/ealloc.c:45-57 | The page stays partitioned into positive multiples of 256 without free neighbours if and only if the size asked for is positive, which the code does not check |
| `Ealloc.BelowThePage` | 설계 5/project#5-code/ealloc.c:45-119 | alloc(-256) on a new allocator, then alloc(4096): the second address is 256 bytes below the page |
| `Ealloc.SameAddress` | 설계 5/project#5-code/ealloc.c:45-119 | alloc(0) on a new allocator, then alloc(4096): both return the start of the page |
| `Ealloc.FreeEntry` | 설계 5/project#5-code/ealloc.c:178-189 | Every table entry is in use exactly when the page has sixteen chunks |
| `Ealloc.MergeFacts` | 설계 5/project#5-code/ealloc.c:148-175 | Merging keeps the total and the chunks in use |
| `Ealloc.MergeAlternates` | 설계 5/project#5-code/ealloc.c:148-175 | After merging no two neighbours are free |
| `Ealloc.ReleaseFacts` | 설계 5/project#5-code/ealloc.c:121-175 | Releasing a chunk keeps the page tiled and takes just that chunk from those in use |
| `Ealloc.RoomToSplit` | 설계 5/project#5-code/ealloc.c:178-189 | A page with a chunk larger than 256 bytes has fewer than sixteen chunks, so a split always finds a table entry |
| `Ealloc.LiveApart` | 설계 5/project#5-code/ealloc.c:37-119 | Chunks in use lie in the page, in order and without overlap |
| `Ealloc.SplitDescribes` | 설계 5/project#5-code/ealloc.c:67-91 | The links written by a split describe the list with the new chunk in its place |
| `Ealloc.JoinDescribes` | 설계 5/project#5-code/ealloc.c:157-171 | The links written by a merge describe the list without the second chunk |
| `PageTables.AddTable` | 설계 3번/xv6/vm.c:42-53 | A new page table owned by nobody else changes no mapping |
| `PageTables.WriteEntry` | 설계 3번/xv6/vm.c:69-73 | Writing one entry changes the mapping of that page and of no other, since no page table serves two directory entries |
| `PageTables.MapUser` | 설계 3번/xv6/vm.c:60-80 | Mapping a page nobody owns keeps every physical page used for one purpose |
| `PageTables.UnmapUser` | 설계 3번/xv6/vm.c:255-279 | Unmapping a page takes exactly that page from the address space |
| `Vm.Machine.Kfree` | 설계 3번/xv6/kalloc.c:59-77 | The exact condition for the panic; the page is the new head of the free list, which stays without repetition if and only if the page was not free already: a double free goes unnoticed |
| `Vm.Machine.FreedTwice` | 설계 3번/xv6/kalloc.c:59-95 | A page freed twice is handed out twice |
| `Vm.Machine.Kalloc` | 설계 3번/xv6/kalloc.c:82-95 | The head of the free list leaves it for good; it fails exactly when the list is empty |
| `Vm.Machine.FreeRange` | 설계 3번/xv6/kalloc.c:46-53 | Exactly the whole pages between the two addresses become free |
| `Vm.Machine.Walk` | 설계 3번/xv6/vm.c:35-55 | The page table for an address, made if asked for; no mapping changes, and pages only move from the free list to the address space |
| `Vm.Machine.MapKernelRange` | 설계 3번/xv6/vm.c:60-80 | The range maps to consecutive physical pages and nothing else changes; it fails exactly when it needs more page tables than there are free pages, and then all pages are accounted for |
| `Vm.Machine.Setupkvm` | 설계 3번/xv6/vm.c:118-136 | A directory that shows physical memory from KERNBASE on with the kernel text write-protected, the devices, and no user page; it takes 65 pages, and fails exactly when fewer are free, every page taken being free again |
| `Vm.Machine.Allocuvm` | 설계 3번/xv6/vm.c:221-249 | Fresh zeroed pages for the whole range or none; it succeeds exactly when the new size is below KERNBASE and the pages of the range and the page tables still missing for it are no more than the free pages; on failure, also for a size in the kernel part, the mapping is what it was and every data page is free again |
| `Vm.Machine.Deallocuvm` | 설계 3번/xv6/vm.c:255-279 | Exactly the user pages of the range are unmapped and freed, each once, although absent page tables are jumped over |
| `Vm.Machine.Freevm` | 설계 3번/xv6/vm.c:283-298 | The data pages, page tables and directory of the address space are all free afterwards, each once, and no page that only the kernel part maps is |
| `Vm.Machine.Copyuvm` | 설계 3번/xv6/vm.c:315-345 | The child's user pages hold what the parent's do, with the same flags, in pages of its own, and the parent is unchanged; it panics exactly when the parent lacks a page and memory lasts until then, and fails exactly when memory does not last, every page taken being free again |
| `Vm.Machine.Copyout` | 설계 3번/xv6/vm.c:348-386 | The bytes stand in the process's memory from va on up to the first page the user lacks, and nothing else anybody sees changes; it succeeds exactly if all pages are there; a missing page table at that page is a null dereference rather than -1; the copy stops in the kernel part at the latest, so the address never wraps around |
| `Vm.Machine.CopyoutNull` | 설계 3번/xv6/vm.c:348-386 | copyout into an address space fresh from setupkvm reads through the null pointer |
| `Vm.OverwritePage` | 설계 3번/xv6/vm.c:365-386 | Storing into one virtual page changes no other, because each has a physical page of its own |
| `Vm.ParentKept` | 설계 3번/xv6/vm.c:315-345 | An address space none of whose pages took part in an operation maps and holds what it did |
| `Pipe.Pipe.PipeWrite` | 설계 3번/xv6/pipe.c:78-98 | A section of pipewrite appends to the bytes in flight what fits, in order, and wakes, sleeps or gives up as the pipe's state says |
| `Pipe.Pipe.PipeRead` | 설계 3번/xv6/pipe.c:100-121 | A section of piperead takes the oldest bytes in flight, or sleeps or gives up on an empty pipe that has a writer |
| `Pipe.Pipe.PipeClose` | 설계 3번/xv6/pipe.c:59-75 | One end is closed and its counterpart's sleepers wake; the page is freed exactly when both ends are closed |
| `Pipe.BoundedFifo` | 설계 3번/xv6/pipe.c:59-121 | Under every interleaving what was read is a prefix of what was written, at most 512 bytes lie between, and a sleeping writer has a full pipe and an open reader |
| `Pipe.QuietStep` | 설계 3번/xv6/pipe.c:85-92 | One step keeps sleeping readers to empty pipes with a writer if and only if it is not a killed writer with more than 512 bytes left while a reader sleeps |
| `Pipe.NoLostWakeup` | 설계 3번/xv6/pipe.c:59-121 | In runs without that step a sleeping reader has nothing to read and a writer to wait for, and readers and writers never sleep at once |
| `Pipe.LostWakeup` | 설계 3번/xv6/pipe.c:85-89 | A run in which a reader sleeps on beside a full pipe |
| `Pipe.EndOfFile` | 설계 3번/xv6/pipe.c:106-117 | A read that returns no byte though it asked for some means that no writer is left and every byte written has been read |
| `Pipe.FullIsFull` | 설계 3번/xv6/pipe.c:85 | The full test on 32-bit counters is exact across wrap-around |
| `Pipe.WrapIndex` | 설계 3번/xv6/pipe.c:93 | Indexing with a wrapped counter hits the slot of the unwrapped one |
| `Proc.ProcTable.AllocProc` | 설계 3번/xv6/proc.c:73-95 | The first unused slot becomes an embryo with a pid of its own; it fails exactly when no slot is unused |
| `Proc.ProcTable.Wakeup1` | 설계 3번/xv6/proc.c:505-513 | Exactly the sleepers on the channel become runnable |
| `Proc.ProcTable.Exit` | 설계 3번/xv6/proc.c:229-270 | The parent is woken, every child goes to init, init is woken if one of them is a zombie, and the process is a zombie; init itself panics |
| `Proc.ProcTable.Wait` | 설계 3번/xv6/proc.c:274-314 | The first zombie child is reported and its slot freed; without one it fails if there is no child or the caller is killed, and sleeps otherwise |
| `Proc.ProcTable.Kill` | 설계 3번/xv6/proc.c:527-545 | The first slot with the pid is marked and, if asleep, made runnable; it fails exactly when there is none |
| `Proc.ProcTable.Pick` | 설계 3번/xv6/proc.c:376-392 | The scheduler runs a runnable process of highest priority; among those from its position on, the first of them |
| `Proc.TableStaysSound` | 설계 3번/xv6/proc.c:73-314 | In every interleaving of fork, exit, wait, sleep, wakeup, kill, yield and scheduling: pids in use are distinct, every process past EMBRYO but init has a live parent, no process sleeps in wait beside a zombie child, and every exit is reported once or still a zombie, never both |
| `Proc.ReportedOnce` | 설계 3번/xv6/proc.c:274-314 | No two waits in a run report the same process, and only processes that exited are reported |
| `Proc.ExitedFacts` | 설계 3번/xv6/proc.c:251-268 | What exit does, slot by slot: who is woken, who changes parents, who changes state |
| `Proc.CleanStep` | 설계 3번/xv6/proc.c:527-545 | One step keeps unused slots free of kill marks if and only if it is neither a kill that names the pid of an unused slot nor the failed fork of a killed embryo |
| `Proc.StaysClean` | 설계 3번/xv6/proc.c:73-95 | In every run without such steps unused slots carry no kill mark, and every fork starts its child without one |
| `Proc.BornKilled` | 설계 3번/xv6/proc.c:527-545 | kill(0) right after boot: init's first child is killed before it runs |
| `Ssufs.Disk.constructor` | 설계 6/ssufs-disk.c:28-64 | A formatted disk has no file, every block free and every handle closed |
| `Ssufs.Disk.AllocDataBlock` | 설계 6/ssufs-disk.c:163-179 | The first free block, marked; it fails exactly when none is free |
| `Ssufs.Disk.FreeDataBlock` | 설계 6/ssufs-disk.c:181-191 | The mark of that block is cleared; the assertion fails exactly if it was not set |
| `Ssufs.Disk.AllocInode` | 설계 6/ssufs-disk.c:94-110 | The first free inode, marked; it fails exactly when none is free |
| `Ssufs.Disk.FreeInode` | 설계 6/ssufs-disk.c:112-137 | Exactly the file's blocks and its inode become free, although the superblock is written and re-read in between, and no assertion fails for an inode in use |
| `Ssufs.Disk.OpenNamei` | 설계 6/ssufs-disk.c:66-92 | The first inode in use that is found under the name, a name of eight characters running on into the size; none exactly if no file is found or the name is too long |
| `Ssufs.Disk.Create` | 설계 6/ssufs-ops.c:14-35 | A new empty file in the first free inode, under the first eight characters of the name; it fails exactly if the name is found or no inode is free; names of less than eight characters stay unique and no other file changes |
| `Ssufs.Disk.Delete` | 설계 6/ssufs-ops.c:37-52 | The first file found under the name gives its blocks back and no other file changes; nothing is deleted exactly if the name is too long or not found; no handle stays on the inode if and only if at most one was open |
| `Ssufs.Disk.Open` | 설계 6/ssufs-ops.c:54-64 | The first closed handle now stands at the file of that name, at the offset the handle was left at; it fails exactly if the name is too long or not found or every handle is open |
| `Ssufs.Disk.Read` | 설계 6/ssufs-ops.c:71-100 | The bytes of the file at the handle's offset, which moves past them; it fails exactly if the handle is closed or the file is too short |
| `Ssufs.Disk.Write` | 설계 6/ssufs-ops.c:102-151 | The bytes are spliced in at the offset, with zeros in a gap; no block gets a second owner and no other file changes; it fails exactly if the handle is closed, the file would be too long or the blocks missing are more than the free ones, and then every file holds what it held; blocks leak if and only if some were free, but too few, when an open handle asked for a file of legal size |
| `Ssufs.Disk.Lseek` | 설계 6/ssufs-ops.c:153-172 | The offset moves exactly if it stays within the file, or, for a closed handle, within what the superblock has where the size of inode -1 would be; closed handles stay at zero if and only if the handle was open, nothing moved, or the offset is left at zero |
| `Ssufs.SeekClosed` | 설계 6/ssufs-ops.c:153-172 | lseek on a closed handle of a new disk: the file opened next stands at offset 1 |
| `Ssufs.RunOutOfBlocks` | 설계 6/ssufs-ops.c:102-151 | Eight files of four blocks on a new disk: the last write fails and its two blocks belong to nobody |
| `Ssufs.StaleHandle` | 설계 6/ssufs-ops.c:37-52 | A file opened twice and deleted: the other handle reads and writes the file created next |
| `Ssufs.NameLost` | 설계 6/ssufs-disk.c:66-92 | A file with a name of eight characters cannot be opened once it holds a byte |
| `Ssufs.ReadBack` | 설계 6/ssufs-ops.c:71-151 | What was written at an offset is what is read from there; the rest of the file is as it was |
| `Ssufs.FreedOwned` | 설계 6/ssufs-disk.c:112-137 | The blocks of other files stay marked and owned when a file's blocks are freed |
| `RoundTrip.PrintThenParse` | 설계 3번/xv6/sh.c:265-446 | Every command tree with at most nine arguments per command, with <, > and >> redirections, printed with all parentheses, parses back to itself, >> with the mode and descriptor of > |
| `RoundTrip.PrintedLine` | 설계 3번/xv6/sh.c:344-446 | The same for a tree printed anywhere in a line before its end or a closing parenthesis |
| `RoundTrip.WordToken` | 설계 3번/xv6/sh.c:265-308 | A word with something else behind it is one token, exactly as long as the word |
| `Append.AppendIsOverwrite` | 설계 3번/xv6/sh.c:374-397 | Writing >> for a > anywhere in a line changes nothing: both lines panic, or both parse to the same command but for where its words stand |
| `Append.TwinLines` | 설계 3번/xv6/sh.c:265-446 | The same for lines that have the same tokens except that any number of > are >> |
| `Append.LineMatch` | 설계 3번/xv6/sh.c:344-446 | From positions with matching tokens the grammar yields the same command and leaves off at matching positions |
| `Shell.Parser.GetToken` | 설계 3번/xv6/sh.c:265-308 | The kind of token, where it lies, and the cursor past the white space behind it |
| `Shell.Parser.PeekFor` | 설계 3번/xv6/sh.c:310-320 | Whether the next visible character is one of those asked for; the cursor stands on it |
| `Shell.Parser.ParseRedirs` | 설계 3번/xv6/sh.c:374-397 | The redirections from the cursor on, in order, or a panic exactly when a file name is missing |
| `Shell.Parser.ParseLine` | 설계 3번/xv6/sh.c:344-359 | The loop over & and the recursion over ; yield what the grammar says, and end; panic exactly when the grammar does |
| `Shell.Parser.ParsePipe` | 설계 3번/xv6/sh.c:361-372 | The same for pipes |
| `Shell.Parser.ParseExec` | 설계 3번/xv6/sh.c:415-446 | The same for simple commands with redirections among the arguments, up to nine arguments |
| `Shell.Parser.ParseBlock` | 설계 3번/xv6/sh.c:399-413 | The same for a line in parentheses |
| `Shell.Parser.ParseCmd` | 설계 3번/xv6/sh.c:327-342 | The whole line is one command, or the parser panics |
| `Shell.NulTerminate` | 설계 3번/xv6/sh.c:449-493 | A NUL behind every word and file name of the command, and no other byte of the line changes |
| `Shell.LineGood` | 설계 3번/xv6/sh.c:344-446 | Every word and file name the parser records is a whole word of the line |
| `Shell.StringsAreWords` | 설계 3번/xv6/sh.c:449-493 | After nulterminate each word and file name reads, as a C string, exactly as recorded: no NUL falls inside another word |

## Left out

- Fs.FileSystem.Filewrite: for a regular file; for a device the write goes to the device switch.
- Fs.FileSystem.WriteOperation: for a regular file, as above.
- Storage.WriteFile: for a file without holes, since with one the inode on disk can be wrong anyway (`Fs.HoleLost`); and one operation at a time on a log and a cache that are otherwise idle, where the source lets operations of several processes share a commit. The writes of an operation reach the cache after the file system has made them on its own copy of the blocks, rather than one at a time in between.
- Storage.WriteChunk: one operation at a time, as above.
- Storage.Replay: one operation at a time, as above.
- Log.Log.WriteHead: other processes may hold buffers meanwhile, but not those of the log or of logged blocks; the source waits for these, which is not modelled.
- Log.Log.InstallTrans: with the same bystanders.
- Log.Log.WriteLog: with the same bystanders.
- Log.Log.Commit: with the same bystanders, who hold their buffers throughout; one who takes or releases a buffer in the middle of the commit is not modelled.
- Bio.BufferCache.Bread: waiting for a buffer that somebody else has locked is not modelled; once it is released, the call does what is stated.
- Umalloc.Heap.Malloc: for an sbrk that answers with memory above all it answered before; `Umalloc.MallocInProcess` shows that it does until it has answered a request of 2 to the 31 bytes or more, after which the heap no longer describes the process's memory.
- Vm.Machine.Kfree: the junk that kfree writes over a freed page is not modelled; no process can see it.
- Proc.ProcTable.AllocProc: the pid counter does not overflow; the source leaves overflow undefined.
- Ealloc.Allocator.AllocInPage: where an entry outside the table would be written, it stops and reports that.
- Hardware, boot, traps, interrupts, the real disk driver, and the internals of spin locks and sleep locks.
- Directories, path names, link counts, the inode cache (iget, ilock) and the system calls: mostly argument checking around the core.
- Device inodes: readi and writei report that they reached the device switch.
- exec, loaduvm, inituvm and clearpteu; of growproc only what becomes of the size.
- fork's copying of files and registers; fork appears as its steps on the process table and as copyuvm.
- The address mmap returns, whether sbrk finds memory, malloc failure inside the shell, and the order in which processes run are parameters or choices of the environment.
- mkfs, except for the empty disk it starts from, the size of the log region and the order of the regions; the root directory it makes can lack its last block.
- runcmd and the rest of the shell, and the user programs.
- The byte layout of the ssufs superblock and inodes; they are read and written as whole records.
- alloc.c of project 5, the semaphore and read-write lock exercises, and the duplicate copies of files.
