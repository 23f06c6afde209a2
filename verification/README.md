# Proofs about egos-2000 and its companion programs

This project models the parts of the repository that carry the most state and arithmetic, and proves what they are for.
`dafny verify dfyconfig.toml` checks everything.

**The treedisk file system** (`egos-2000/library/file/file1.c`) keeps many files on one array of blocks: trees of indirect
blocks with 128 references each, block 0 as a hole, and a free list inside the free blocks.  It is a class over the array of
blocks whose operations change blocks, superblock and inode in place as the code does.  Its invariant labels every block with
its role (`TreeDiskLayout`); `TreeDiskFiles` says which files a labelled disk stores; `TreeDisk` proves that reads and writes
are those of a map of files (`FileStore`), with the exact number of blocks spent; `TreeDiskOwnership` and `TreeDiskParents`
restate the invariant on the disk alone; `TreeDiskDrain` says what allocations in a row give out; `TreeDiskFormat` and `MakeFs`
start from a disk of garbage.

**Address spaces** (`egos-2000/earth/cpu_mmu.c`): `SoftTlb` is the software TLB, which copies pages in and out of one window;
each process must see its own memory (`Isolation` states this for whole runs).  `PageTables` is the builder of the identity map,
against the address translation of section 4.3.2 of the RISC-V Privileged Architecture, version 1.10.

**The kernel** (`egos-2000/grass/kernel.c`, `egos-2000/grass/process.c`): rendezvous of senders and receivers driven from
inside the scheduler's scan, the multi-level queue and its accounts, and the life of processes, as a class whose methods are
the entries into the kernel. `Ipc`, `Scheduling` and `Mlfq` hold the specification on process tables. `KernelRuns` drives the
kernel with any inputs and says what a run is: entries into the kernel, and processes created, made ready and freed in
between. `BoundedWaiting`, `Waiting`, `Messages`, `Accounts` and `Slices` draw the conclusions over all such runs; `Slices`
does so in the times of the entries alone. `ProcessLife` starts and ends processes. `CallPages`, `UserMemory` and `Machine`
put the kernel on top of the software TLB and the loader: what it reads and hands back is on the system call pages of the
processes. `Machine` drives the kernel, the loader and memory from boot on, with any events.

**Loading programs**: `ElfImage`, `ElfArguments` and `ElfLoad` are the ELF loader of egos, on top of the software TLB.
`DemandPaging` is the loader of `group-16-4`, which maps a page at its first fault.

**Smaller algorithms**: `Crc32` and `CrcPolynomial` (the frame check sequence as division of polynomials over GF(2), `Gf2`, by
clause 3.2.9 of IEEE 802.3), `InternetChecksum` (sections 1 and 3 of RFC 1071, RFC 768), `ParallelFor` and `ParallelPrograms`
(threads in any interleaving of single reads and writes), `Directory` (looking up names in printed directories), `Terminal`
(line editing).

How the model stands to the code:

- Disk, physical memory and the terminal are arrays or sequences that never fail.  A `FATAL` or `panic` is an outcome of the
  method that meets it (`Panic`, `None` or `false`); what it leaves behind is mostly left open.
- Constants, addresses and formats are stated a second time, as literal numbers, where a theorem says what they are for.
- Clocks, keyboard state, readers and system call arguments are parameters.  Two readings of the clock in one yield are two
  parameters.
- 32-bit and 64-bit arithmetic is written out where the code can wrap around: the inode limit and the number of inode blocks,
  the size after a write, the checksum total, and the accounts of the scheduler.
- Where the code combines fields of a word with bitwise or and the fields do not overlap, the model adds them.
- System call arguments live in the memory of the process.  The kernel model keeps them by pid (`user`).  `Machine.Drive` proves
  that this is what the pages of the processes hold after every step, up to the event that stops the kernel; what the kernel is
  given to read there comes from the page.  `UserMemory.CarryRun` says the same of memory that follows a given run.

What the code does that its comments or documentation do not say:

- `treedisk_write` sets the size before it tests for an empty file, so that this test succeeds at no offset but 2^32 - 1: writing
  far into an empty file inserts indirect blocks above an empty root.  The number of blocks spent (`Need`) counts them.
- Writing at offset 2^32 - 1 records size 0, so that nothing of the file can be read any more (`SizeAfterWriteCovers`).  Worse, the
  test for an empty file then succeeds for a file that is not empty: no level is inserted, and the walk goes through five levels
  from the old root, taking blocks of data for indirect blocks unless the file had more than 2^28 blocks
  (`WalkAtLargestOffset`).
- A slice that exceeds what remains of the budget wraps around in unsigned arithmetic and does not demote (`ChargeAgreesIff`).
- `proc_free` of one process takes it out only if some user process is alive, and not if it is in slot 16 (`ProcessLife.End`); after
  boot, the second system process cannot be freed (`FreeWithoutUsers`).  `proc_free` of all users leaves one in slot 16, too
  (`EndAll`; `SixteenthNotFreed` is a run).
- `proc_alloc` may give out slot 16, which is never scanned, marked or found.  A process that has been loaded becomes ready exactly
  if one of the slots 1 to 15 was unused (`ProcessLife.Start`); the sixteenth process never does (`SixteenthProcess`, `FillUp`).
  Once taken, slot 16 stays as it is for good (`LastSlotForGood`).
- `elf_load` rounds the end of the memory of a segment down to a page (`MemoryIsMapped`).
- The demand-paging loader fills a whole page with zeros if its first fault is in the zero fill (`FaithfulExactly`).
- `dir_lookup` stops at the first printed word that equals the name, be it a name, a number or a name joined to a number of four
  digits (`ScanPrinted`).  It is right exactly if that word is the name of the first entry called so, or there is neither, or
  the number that happens to follow is the one looked for (`RoundTrip`, `PlainRoundTrip`; `NumberTakenForName` is an input where
  it is wrong).
- The identity map covers 8 MB from the start of memory, although memory ends after 6 MB.

## Model

| member | source | states |
|---|---|---|
| `TreeDisk.Store.Write` | egos-2000/library/file/file1.c:234-339 | A write to an existing inode turns the file store into the one where exactly that file has that block at that offset and a size of at least offset + 1; all other files and blocks are as before; it spends exactly Need free blocks, halts exactly when fewer are left, and fails without effect exactly for an inode number that is too large |
| `TreeDisk.Store.Read` | egos-2000/library/file/file1.c:178-230 | A read returns the block of the file store: the last one written, a null block for a hole, an error at or beyond the size and for an inode number that is too large |
| `TreeDisk.Store.GetSize` | egos-2000/library/file/file1.c:161-167 | The size of the file, as a C int, or -1 |
| `TreeDisk.Store.Init` | egos-2000/library/file/file1.c:344-370 | Opening a consistent disk gives a valid store on the same disk, with the shift computed by the loop |
| `TreeDisk.Store.GetSnapshot` | egos-2000/library/file/file1.c:83-110 | Succeeds exactly below the 32-bit inode limit, and then gives the superblock and the block and slot of the inode |
| `TreeDisk.Store.AllocBlock` | egos-2000/library/file/file1.c:114-156 | Takes exactly one block off the free list, from a slot or the list block itself, with all files unchanged; fails exactly when no block is free; and does to the disk what AllocOn says |
| `TreeDiskDrain.DrainsAll` | egos-2000/library/file/file1.c:114-156 | On a consistent disk exactly as many allocations succeed in a row as there are free blocks; they give out distinct free blocks, and in the end all of them |
| `TreeDiskDrain.DrainIs` | egos-2000/library/file/file1.c:114-156 | Allocations give out the free list in a fixed order: the slots of the first list block from the last one down, then this block, and so on |
| `TreeDiskDrain.DrainsFormatted` | egos-2000/library/file/file1.c:114-156 | On a newly formatted disk these are exactly the blocks after the inode blocks |
| `TreeDisk.Store.TakeHead` | egos-2000/library/file/file1.c:138-145 | The first list block itself is taken and the superblock moves on to its successor; no tree or inode is touched |
| `TreeDisk.Store.TakeSlot` | egos-2000/library/file/file1.c:146-153 | The block in a slot of a list block is taken and the slot cleared; no tree or inode is touched |
| `TreeDisk.Store.GrowRoot` | egos-2000/library/file/file1.c:277-287 | The block just taken becomes the root of one file, with the old root in word 0; nothing that files hold changes |
| `TreeDisk.Store.InsertLevel` | egos-2000/library/file/file1.c:274-290 | One more indirect block above the root: no file changes, one free block is spent, every old leaf is reached through word 0 |
| `TreeDisk.Store.InsertLevels` | egos-2000/library/file/file1.c:269-291 | The loop that adds levels keeps ownership, sizes and contents and spends one block per level |
| `TreeDisk.Store.AddNode` | egos-2000/library/file/file1.c:313-319 | A missing node on the path is allocated and linked from the up-to-date content of its parent; only this node is added, and for an indirect block no content changes |
| `TreeDisk.Store.Descend` | egos-2000/library/file/file1.c:309-334 | One turn of the walk keeps the statement of what the write has done so far, although the parent buffer is overwritten with the child |
| `TreeDisk.Store.PlaceBlock` | egos-2000/library/file/file1.c:302-338 | The walk allocates exactly the missing nodes of the path and puts the block at the leaf |
| `TreeDisk.Store.RecordSize` | egos-2000/library/file/file1.c:245-267 | The number of levels before and after the write, and the new size in the working copy of the inode, for every offset but 2^32 - 1; for these the size is not 0 afterwards, so the branch at line 271 is not taken |
| `TreeDisk.Store.MakeRoom` | egos-2000/library/file/file1.c:245-300 | The first half of a write: sizes and levels are those after the write, the contents those before |
| `TreeDiskFiles.WriteRefines` | egos-2000/library/file/file1.c:234-339 | Changing one leaf, the sizes and the height of one tree refines Put on the map of files |
| `TreeDiskFiles.SizeAfterWriteCovers` | egos-2000/library/file/file1.c:258-260 | The recorded 32-bit size covers the written offset, and leaves any block of the file readable, exactly when the offset is not 2^32 - 1 |
| `TreeDiskFiles.WalkAtLargestOffset` | egos-2000/library/file/file1.c:258-291 | At offset 2^32 - 1 the recorded size is 0, which is what the branch at line 271 tests for, while the offset asks for five levels; a tree that is not empty has five levels exactly if its file had more than 2^28 blocks |
| `TreeDiskFiles.NeedBound` | egos-2000/library/file/file1.c:269-334 | A write that adds no level allocates at most one block per level, or exactly one if the file is empty |
| `TreeDiskFiles.NeedAtMostTen` | egos-2000/library/file/file1.c:269-334 | No write allocates more than ten blocks |
| `TreeDiskFiles.NeedSplits` | egos-2000/library/file/file1.c:269-334 | A write that adds levels allocates one block for each new level and one for each level of the new path |
| `TreeDiskFiles.EmptyFreeList` | egos-2000/library/file/file1.c:118-119 | The superblock's reference is 0 exactly when no block is free |
| `TreeDiskFiles.HoleOnPath` | egos-2000/library/file/file1.c:204-213 | A zero reference anywhere on the path means that this offset was never written |
| `TreeDiskFiles.LeafOnPath` | egos-2000/library/file/file1.c:215-219 | The block at the end of the path is the content of the file at that offset |
| `TreeDiskFiles.StepDown` | egos-2000/library/file/file1.c:221-227 | The word chosen by the base-128 digit of the offset refers to the next node of the path |
| `TreeDiskLayout.UniqueParent` | egos-2000/library/file/file1.h:12-31 | In the labelled disk, every role below an inode, an indirect block or a list block belongs to one word of one block only |
| `TreeDiskLayout.OneReference` | egos-2000/library/file/file1.h:12-31 | Two reference words of a consistent disk that hold the same block number, not 0, are the same word |
| `TreeDiskLayout.HasReference` | egos-2000/library/file/file1.h:12-31 | Every block of a tree or of the free list is held by some reference word |
| `TreeDiskParents.OneParent` | egos-2000/library/file/file1.h:12-31 | The same on the disk alone, with the reference words found by walking it: no block has two parents, not even in one file |
| `TreeDiskParents.HasParent` | egos-2000/library/file/file1.h:12-31 | Every block reached from an inode or on the free list is held by one of these words |
| `TreeDiskParents.PointersAre` | egos-2000/library/file/file1.h:12-31 | The words found by walking the disk are the reference words of the labelled disk |
| `TreeDiskLayout.TakeSpare` | egos-2000/library/file/file1.c:146-153 | Taking a block out of a slot of a list block keeps the ownership invariant |
| `TreeDiskLayout.PopChain` | egos-2000/library/file/file1.c:138-145 | Taking the list block itself, with the superblock moved to its successor, keeps the ownership invariant |
| `TreeDiskLayout.Attach` | egos-2000/library/file/file1.c:313-319 | Linking the block just taken as a node keeps the ownership invariant; a new indirect block must be null |
| `TreeDiskLayout.Grow` | egos-2000/library/file/file1.c:277-287 | Putting the block just taken above an old root keeps the ownership invariant |
| `TreeDiskOwnership.FileBlocksAre` | egos-2000/library/file/file1.h:15-26 | The blocks reached by walking a file's tree on disk are those the invariant assigns to the file |
| `TreeDiskOwnership.FileOnDisk` | egos-2000/library/file/file1.h:12-26 | What a file holds, by the disk alone: the size and the root from its inode, and from each block down the word that the base-128 digit of the offset selects, with 0 for a hole |
| `TreeDiskOwnership.FreeListIs` | egos-2000/library/file/file1.h:28-31 | The blocks reached by following the free list on disk are those the invariant calls free |
| `TreeDiskOwnership.OwnershipPartition` | egos-2000/library/file/file1.h:12-31 | Superblock, inode blocks, the trees of the files and the free list are pairwise disjoint and cover the disk: no block is lost or shared |
| `TreeDiskLevels.LogShiftRIsDivision` | egos-2000/library/file/file1.c:70-78 | The shift is division by a power of two for every count, including counts of 32 and more |
| `TreeDiskLevels.LevelsBound` | egos-2000/library/file/file1.c:198-202 | The number of levels is the least L with offset < 128^L, and at most 5 for 32-bit offsets |
| `TreeDiskLevels.LevelsMonotone` | egos-2000/library/file/file1.c:254-264 | A larger file never has fewer levels |
| `TreeDiskLevels.CountLevels` | egos-2000/library/file/file1.c:197-202 | The loop terminates with that number of levels |
| `TreeDiskLevels.LogRefsPerBlock` | egos-2000/library/file/file1.c:347-351 | The loop terminates with log2 of the references per block, 7 |
| `TreeDiskFormat.SetupFreelist` | egos-2000/library/file/file1.c:380-399 | Writes a list that names every block of the range once, returns its first block, and leaves all blocks outside the range alone |
| `TreeDiskFormat.FillRefs` | egos-2000/library/file/file1.c:386-392 | One list block: the previous one, then as many of the next free blocks as there are, then zeros |
| `TreeDiskFormat.Create` | egos-2000/library/file/file1.c:403-451 | Formats a disk of any content: afterwards every inode asked for exists and is empty, in no more inode blocks than it takes; it fails exactly if these and two more blocks do not fit. A disk whose superblock says it is formatted is left alone |
| `TreeDiskFormat.InodesFor` | egos-2000/library/file/file1.c:410-410 | Fewer than 64 inodes more than asked for, and all of them exactly if their number is at most 2^32 - 64; above that the 32-bit sum wraps around and there are none |
| `TreeDiskFormat.InodeBlocksHold` | egos-2000/library/file/file1.c:410-410 | The number of inode blocks that the code computes is the one for so many inodes, 64 to a block |
| `TreeDiskFormat.FormattedIsConsistent` | egos-2000/library/file/file1.c:426-442 | A formatted disk satisfies the invariant, all its files are empty, and exactly the blocks after the inode blocks are free |
| `FileStore.ReadAfterWrites` | egos-2000/library/file/file1.c:178-339 | After any run of writes to empty files, a read gives the last block written at (inode, offset), null for a hole below the size, and an error from the size on |
| `FileStore.LastWriteIs` | egos-2000/library/file/file1.c:178-339 | The last block written at (inode, offset) is that of a write there with no other one after it, or none was |
| `FileStore.SizeIsMaxPlusOne` | egos-2000/library/file/file1.c:258-260 | The size is the largest offset written plus 1 |
| `MakeFs.WriteAll` | egos-2000/tools/mkfs.c:98-130 | Any run of writes through the store is the replay of the run on the map of files; it stops exactly at the first write that is to an inode that does not exist or needs more blocks than are free, with the sum of the needs of the writes before it spent, and never if the inodes exist and ten blocks are free for each write |
| `MakeFs.TraceAddsUp` | egos-2000/tools/mkfs.c:98-130 | Over the states of any run of writes, the free blocks lost are the sum of what each write needs, ten at most, and the files are the replay |
| `MakeFs.FormatWrite` | egos-2000/tools/mkfs.c:93-130 | Formatting n inodes fails exactly on a disk that is too small for them; a run of writes then gives the replay of the run on empty files, up to the first write to an inode beyond those asked for or with more blocks needed than are left; with ten blocks for each write to inodes below n, it goes through |
| `MakeFs.Format` | egos-2000/tools/mkfs.c:93-96 | Creating and opening a file system on a disk of any content gives the inodes asked for, all empty, and as many free blocks as are left |
| `MakeFs.FormatWriteRead` | egos-2000/tools/mkfs.c:93-130 | From garbage to a read: what a read of an inode asked for returns after formatting and any run of writes depends on the run alone, so no stale data ever shows; it is reached unless the disk is too small, an inode does not exist or the blocks run out, with the write at which this happens |
| `SoftTlb.Mmu.constructor` | egos-2000/earth/cpu_mmu.c:18-22 | At boot no frame is used and no page is mapped |
| `SoftTlb.Mmu.Alloc` | egos-2000/earth/cpu_mmu.c:24-31 | Hands out the first unused frame and changes nothing else; halts exactly when there is none |
| `SoftTlb.Mmu.Free` | egos-2000/earth/cpu_mmu.c:33-37 | Releases exactly the frames of the process; all other processes keep what they see |
| `SoftTlb.Mmu.Map` | egos-2000/earth/cpu_mmu.c:39-42 | Gives a page to a process: it sees the frame there (or, if it is running, what the window holds), and nobody else sees a change |
| `SoftTlb.Mmu.Switch` | egos-2000/earth/cpu_mmu.c:44-61 | After a switch every process still sees at each of its pages what it saw before |
| `SoftTlb.Mmu.Translate` | egos-2000/earth/cpu_mmu.c:63-66 | A translated address can be used in the window, and no process sees a change |
| `SoftTlb.Mmu.WriteFrame` | egos-2000/library/elf/elf.c:35-45 | A direct write to a frame is seen by the process that owns it, unless it is running, and by nobody else |
| `SoftTlb.Mmu.Store` | egos-2000/grass/kernel.c:54-56 | A store through the window changes the view of the current process at that page, and no other view |
| `SoftTlb.Mmu.Load` | egos-2000/grass/kernel.c:54-56 | A load through the window gives what the current process has at that page |
| `SoftTlb.ShownApart` | egos-2000/earth/cpu_mmu.c:44-61 | Two different pages of processes are never shown at the same place |
| `SoftTlb.SwitchShows` | egos-2000/earth/cpu_mmu.c:48-58 | Saving the old window and loading the new one keeps every view |
| `Isolation.Serve` | egos-2000/earth/cpu_mmu.c:24-66 | A request changes the view of a process only if it is made on behalf of this process |
| `Isolation.Run` | egos-2000/earth/cpu_mmu.c:24-66 | Over any interleaving of allocations, mappings, direct writes, switches, stores and frees, the view of a process is changed only by requests on its own behalf |
| `Isolation.LoadsLastOwn` | egos-2000/earth/cpu_mmu.c:24-66 | Over any interleaving in which the process is not freed, a load at a page of its own gives what the process last stored there, or the kernel last put into its frame while it was not running |
| `PageTables.IdentityMapCorrect` | egos-2000/earth/cpu_mmu.c:76-123 | For tables that map exactly a list of regions, the walk of every 32-bit address gives the address itself with all permissions inside the regions, and faults outside |
| `PageTables.PageTable.IdentityMap` | egos-2000/earth/cpu_mmu.c:97-123 | For each platform, the walk of every 32-bit address gives the address itself, readable, writable, executable and for the user, in memory and in the registers of that platform (by their addresses), and faults everywhere else, in those of the other platform too; no frame that was in use before has changed; it fails only when all frames are used |
| `PageTables.RegionsAre` | egos-2000/earth/cpu_mmu.c:104-122 | An address is in one of the regions of the list exactly if it is in memory or in a register of the platform, with the addresses of each device written out |
| `PageTables.FrameAddress` | egos-2000/library/egos.h:47-47 | The frames that hold the tables are the 2 MB of memory from 0x80400000 on |
| `PageTables.PageTable.SetupRegion` | egos-2000/earth/cpu_mmu.c:76-95 | Adds one region, in a found or a fresh leaf table, and leaves all other mappings as they are |
| `PageTables.PageTable.LeafTable` | egos-2000/earth/cpu_mmu.c:77-89 | The leaf table for a 4 MB range is found through the root, or a fresh zeroed frame becomes it |
| `PageTables.PageTable.FillEntries` | egos-2000/earth/cpu_mmu.c:91-94 | Exactly the entries of the region are written, with its page numbers and flags |
| `PageTables.PageTable.NewRoot` | egos-2000/earth/cpu_mmu.c:98-103 | An empty root in a fresh frame maps nothing |
| `PageTables.PointerRoundTrip` | egos-2000/earth/cpu_mmu.c:79-81 | The address of a leaf table survives being stored in a root entry and read back |
| `Kernel.Kernel.Ecall` | egos-2000/grass/kernel.c:51-64 | A system call blocks the caller, carries out the one rendezvous that it makes possible, and yields; nothing is left half done and no rendezvous is left possible; it halts exactly on an unknown call, on a sender without a receiver, or when nothing can run |
| `Kernel.Kernel.Timer` | egos-2000/grass/kernel.c:73-86 | A timer interrupt delivers nothing and yields; it halts exactly if a sender has no receiver |
| `Kernel.Kernel.Yield` | egos-2000/grass/kernel.c:93-179 | The scan carries out the pending match, if there is one, charges the process that ran, resets levels when due, and dispatches the first eligible process at the lowest level; it halts exactly on a pending sender without a receiver or when nothing can run |
| `Kernel.Kernel.Choose` | egos-2000/grass/kernel.c:117-177 | The same from the loop on, for what the yield has seen of clocks and keyboard |
| `Kernel.Kernel.Turn` | egos-2000/grass/kernel.c:122-137 | One turn of the loop: a visit and then the choice; it halts exactly if the slot is a sender without a receiver |
| `Kernel.NoOrphan` | egos-2000/grass/kernel.c:188-210 | A scan that meets no sender without a receiver has seen every slot |
| `Kernel.OrphanStays` | egos-2000/grass/kernel.c:188-210 | A sender without a receiver stays one while a match is carried out, so whether a yield halts depends on its start only |
| `Kernel.Kernel.Scan` | egos-2000/grass/kernel.c:122-137 | Sixteen visits from the slot after the current one keep the statement of how far the one match has come and which slot is the best so far |
| `Kernel.Kernel.Visit` | egos-2000/grass/kernel.c:124-125 | One visit tries the pending call of its slot, and can only complete the one match of this scan |
| `Kernel.Kernel.Consider` | egos-2000/grass/kernel.c:127-136 | The choice after a visit is the first eligible slot at the lowest level among those visited |
| `Kernel.Kernel.TrySend` | egos-2000/grass/kernel.c:188-210 | The message goes into the record of the receiver exactly if it is waiting for this sender; fails exactly when no live process has the pid |
| `Kernel.Kernel.TryRecv` | egos-2000/grass/kernel.c:212-222 | A receive that has its message is handed back to user space, and both partners are released |
| `Kernel.Kernel.TrySyscall` | egos-2000/grass/kernel.c:224-235 | The call of a slot is tried according to its type; any other type halts |
| `Kernel.Kernel.Attempt` | egos-2000/grass/kernel.c:53-61 | The caller is blocked with its call pending and the call is tried once |
| `Kernel.Kernel.Select` | egos-2000/grass/kernel.c:117-166 | The whole scan: a slot is chosen unless a sender has no receiver or nothing can run |
| `Kernel.Kernel.Prepare` | egos-2000/grass/kernel.c:95-115 | The running process becomes eligible and accounts are brought up to date; which pairs can meet does not change |
| `Kernel.Kernel.UpdateAccounts` | egos-2000/grass/kernel.c:106-115 | Only the current process is charged, with the time since it was dispatched, and levels are reset when due |
| `Kernel.Kernel.ResetLevels` | egos-2000/grass/process.c:165-207 | Keyboard input lifts the shell, and every period lifts all live processes, to level 0 |
| `Kernel.Kernel.Dispatch` | egos-2000/grass/kernel.c:146-177 | The chosen slot becomes the only running one, with the times of its dispatch recorded (Slices.SliceOfEntry says what for) |
| `Kernel.Kernel.SetStatus` | egos-2000/grass/process.c:17-20 | Exactly the slots 0 to 15 with this pid change their status |
| `Kernel.Kernel.Alloc` | egos-2000/grass/process.c:27-61 | The first unused slot gets a fresh pid and a fresh account; the last slot can be taken although it is never scanned |
| `Kernel.OccupiedOk` | egos-2000/grass/process.c:27-61 | Taking an unused slot for a new pid keeps the kernel invariant |
| `Kernel.Kernel.SetReady` | egos-2000/grass/process.c:22-22 | A loaded process becomes ready |
| `Kernel.Kernel.Free` | egos-2000/grass/process.c:63-100 | Freeing a process other than the current one keeps the kernel invariant; its slot, if it is one of 0 to 15, becomes unused exactly while some user process is alive in these slots |
| `Kernel.Kernel.FreeAllUsers` | egos-2000/grass/process.c:101-134 | Exactly the live user processes in the slots 0 to 15 go, with their memory; one in slot 16 stays, and so do the others |
| `Kernel.ReleaseBoth` | egos-2000/grass/kernel.c:216-221 | Completing a linked receive releases exactly the two partners and hands over the call |
| `Kernel.ScanComplete` | egos-2000/grass/kernel.c:122-137 | After a whole scan no receive is done but still blocked, and no willing receiver is left with a sender waiting for it |
| `Kernel.NothingChosen` | egos-2000/grass/kernel.c:164-164 | The scan finds nobody only if nobody could run and no match was possible |
| `Kernel.YieldedRunning` | egos-2000/grass/kernel.c:168-177 | After a yield only the dispatched process is running, and pids have not changed |
| `BoundedWaiting.SendOutcome` | egos-2000/grass/kernel.c:188-210 | A send to a waiting receiver puts its message into the receiver's user memory, once, and releases both; otherwise the sender stays blocked with its message and no memory changes |
| `BoundedWaiting.ReceiveOutcome` | egos-2000/grass/kernel.c:212-222 | A receive takes the message of the first willing sender in the order of the scan and releases both; it stays blocked only if there is none |
| `BoundedWaiting.HaltsExactly` | egos-2000/grass/kernel.c:117-210 | A yield halts exactly if a sender has no receiver, or no process is ready or runnable and no sender can meet its receiver |
| `BoundedWaiting.YieldCloser` | egos-2000/grass/kernel.c:122-168 | A ready process at level 0 is dispatched by a yield or comes closer in the cyclic order of slots |
| `Messages.OneEntry` | egos-2000/grass/kernel.c:51-86 | One entry into the kernel moves at most the letters it should: what was outgoing or is posted has arrived or is outgoing afterwards, for every slot |
| `Messages.OneStep` | egos-2000/grass/kernel.c:51-235 | The same for every step of the kernel; freeing a process drops exactly the letter or receive that it is blocked in |
| `Messages.NothingLostOrRepeated` | egos-2000/grass/kernel.c:51-86 | Over every run of the kernel, whatever processes come and go, the letters posted from a slot are, in order, those that arrived in the memory of their receivers, those that went with their sender when it was freed, and the one outgoing: none is lost, delivered twice or changed; and the receives are those completed, those that went with their process, and the one it is blocked in |
| `Messages.LettersOfKernelRun` | egos-2000/grass/kernel.c:51-86 | As long as the process in a slot is not freed, its letters have arrived or are outgoing, in every run of the kernel |
| `KernelRuns.Enter` | egos-2000/grass/kernel.c:51-86 | A system call or an interrupt is a step from the kernel's state to its new state, and goes through exactly unless the kernel halts on it |
| `KernelRuns.Manage` | egos-2000/grass/process.c:17-134 | proc_alloc, proc_set_ready and proc_free are steps from the state of the kernel to its new state; only proc_alloc on a full table halts |
| `KernelRuns.StepKeepsOk` | egos-2000/grass/kernel.c:51-179 | Every step, entry or operation, keeps the invariant of the kernel |
| `KernelRuns.FreshMayBeReady` | egos-2000/apps/system/sys_proc.c:80-93 | A process just allocated may be made ready |
| `KernelRuns.OthersMayBeFreed` | egos-2000/grass/process.c:63-134 | Every live process but the running one may be freed, and all users exactly by a process with a pid below 5 |
| `KernelRuns.Drive` | egos-2000/grass/kernel.c:51-86 | Driving the kernel with any system calls, interrupts and operations on the process table gives a run of steps, each from the state in which the one before has ended, up to exactly the first input that halts it |
| `Waiting.DispatchedInRun` | egos-2000/grass/kernel.c:93-179 | In every run of the kernel, whatever processes come and go, a process that is ready at level 0 is dispatched by one of the next 15 entries, unless it is freed before |
| `Waiting.AllAtTopAfterReset` | egos-2000/grass/process.c:165-207 | After an entry with the periodic reset every live process is at level 0 |
| `Waiting.DispatchedAfterReset` | egos-2000/grass/kernel.c:93-179 | So every process that is ready after a reset is dispatched by one of the next 15 entries, unless it is freed before |
| `Waiting.LowestFirst` | egos-2000/grass/kernel.c:122-166 | The process dispatched is at a lower level than every other one that could have run, or at the same level and nearer in the cyclic order of slots |
| `Waiting.StatusAfter` | egos-2000/grass/kernel.c:51-179 | What an entry leaves of each process: the dispatched one runs, the partners of a rendezvous and an interrupted process are runnable, the caller is blocked otherwise, and all others are as they were |
| `ProcessLife.Start` | egos-2000/grass/process.c:22-61 | A process that is allocated and then loaded goes to the first unused slot, and becomes ready exactly if one of the slots 1 to 15 was unused; allocation halts exactly if all 16 are taken |
| `ProcessLife.LastSlotStays` | egos-2000/grass/kernel.c:93-179 | No entry changes pid or status of slot 16, and none dispatches it |
| `ProcessLife.LastSlotForGood` | egos-2000/grass/process.c:17-134 | In every run of the kernel slot 16, once taken, belongs to the same process for good: it is not made ready, dispatched or freed |
| `ProcessLife.SixteenthProcess` | egos-2000/grass/process.c:27-61 | A table where the next process goes to slot 16 and stays unready |
| `ProcessLife.FullTableIsValid` | egos-2000/grass/process.c:27-61 | The kernel can be in that table |
| `ProcessLife.FillUp` | egos-2000/grass/process.c:22-61 | And it gets into such a table by starting 15 processes after boot; the sixteenth never becomes ready |
| `ProcessLife.End` | egos-2000/grass/process.c:63-100 | Freeing another process takes it out of all slots exactly if it was out already, or some user process is alive in the slots 0 to 15 and it is not in slot 16 |
| `ProcessLife.FreeWithoutUsers` | egos-2000/grass/process.c:63-100 | A run after which freeing a live process does nothing |
| `ProcessLife.EndAll` | egos-2000/grass/process.c:101-134 | After freeing all users none is left exactly if there was none in slot 16; nothing else changes |
| `ProcessLife.SixteenthNotFreed` | egos-2000/grass/process.c:63-134 | A run after which the sixteenth process is freed, alone and with all users, and is still there |
| `CallPages.EncodeDecode` | egos-2000/library/syscall/syscall.h:11-18 | A system call copied to a page is what is read back from it, in the layout of the struct |
| `CallPages.DecodeEncode` | egos-2000/library/syscall/syscall.h:11-18 | The record of the kernel is the very bytes of the page |
| `CallPages.FieldsOnPage` | egos-2000/library/syscall/syscall.h:11-18 | On the page, type, sender, receiver, the 1024 bytes of the message and the status are at the bytes 0, 4, 8, 12 and 1036, in little-endian words; the rest of the page is as before |
| `CallPages.Fetch` | egos-2000/grass/kernel.c:54-56 | The arguments of a system call are those on the page of the caller, whatever was running |
| `CallPages.Deliver` | egos-2000/grass/kernel.c:215-217 | A completed call is put on the page of the receiver, in the bytes of the struct; the calls of all others, and all other pages, are as before |
| `UserMemory.Carry` | egos-2000/grass/kernel.c:51-64 | One entry on the pages: arguments fetched, the reply handed back, the next process made accessible; afterwards the pages hold what the model of the kernel says |
| `UserMemory.CarryOp` | egos-2000/grass/process.c:17-134 | The same for an operation on the process table, with elf_load before a process is made ready and mmu_free when one is freed; where it stops, the others have what they had, and either all frames are in use with fewer pages for the new process than it needs, or its page holds another call |
| `UserMemory.FramesTaken` | egos-2000/earth/cpu_mmu.c:24-31 | A load that halts has taken all the frames that were left |
| `UserMemory.ImageInPlace` | egos-2000/library/elf/elf.c:17-81 | A process that has been loaded finds, at every address of a segment, the byte that belongs there |
| `UserMemory.CarryRun` | egos-2000/grass/kernel.c:51-179 | Over every given run of the kernel, with processes loaded and freed on the way, the system calls that it reads and hands back are those on the pages of the processes, only processes that have been loaded and not freed have pages, and the running process can access its own; it stops only where CarryOp does, with the memory of the run up to there, and no frame is lost |
| `Machine.EnterOnPages` | egos-2000/grass/kernel.c:51-64 | The running process writes its arguments, the kernel reads them from the page, and what it completes goes back to the page of the receiver; nothing else changes in memory, and if the kernel halts, only the arguments have been written |
| `Machine.HandBackAll` | egos-2000/grass/kernel.c:211-222 | The page of the one process whose call the kernel has completed gets it, and no other page changes |
| `Machine.ManageOnPages` | egos-2000/grass/process.c:27-134 | proc_alloc and proc_free with mmu_free: exactly the pages of the processes that go on are left, as they were |
| `Machine.LoadOnPages` | egos-2000/apps/system/sys_proc.c:80-93 | Loading a program and making its process ready is a step of the kernel, with what the loader leaves on the page, exactly if there are frames for it; otherwise all that there was is as before |
| `Machine.Advance` | egos-2000/grass/kernel.c:51-179 | Any event is one step of the kernel and one move of memory, exactly unless the kernel halts on it, the system server does not ask for it, or the frames run out |
| `Machine.Drive` | egos-2000/grass/kernel.c:51-179 | Any events in turn make a run of the kernel and a run of memory: at every step the pages hold the system calls that the model of the kernel has, only processes that have been loaded and not freed have pages, and nothing else on any page changes; it ends where the kernel halts, the system server does not ask for the event, or a program does not fit, and no frame is lost |
| `Machine.Boot` | egos-2000/grass/init.c:31-37 | The first process is loaded, takes the first slot, and runs with its pages in the window, exactly if its program fits |
| `Machine.BootAndDrive` | egos-2000/grass/init.c:31-37 | The same from boot on: at the end every frame is unused or belongs to one page of a process |
| `Ipc.PairsCoincide` | egos-2000/grass/kernel.c:188-222 | All rendezvous that are possible in one scan have the same receiver |
| `Mlfq.AccountingOverRuns` | egos-2000/grass/process.c:140-163 | Over any run of slices and resets the level is in 0..4, both runtimes are the sum of the slices modulo 2^64, and runtime at the level plus what remains is the last allotment modulo 2^64 |
| `Accounts.AccountOverRun` | egos-2000/grass/kernel.c:106-177 | In every run of the kernel, as long as a slot is not given to another process, its level, budget and runtimes are what the slices and resets of this run make of them |
| `Accounts.BudgetOfProcess` | egos-2000/grass/process.c:27-207 | So from its creation on, every process has a level in 0..4, both runtimes equal to the sum of its slices modulo 2^64, and runtime at the level plus what remains equal to the last allotment modulo 2^64 |
| `Accounts.StartsAtTop` | egos-2000/grass/process.c:27-61 | A new process is at level 0 with 100 ms, and has not run |
| `Slices.SliceOfEntry` | egos-2000/grass/kernel.c:106-177 | Over every run of the kernel, the process that an entry has dispatched is charged in the next entry for the time between the two (unless the first was at time 0), and no other one is charged; the shell is reset on keyboard input, and every live process when the period is over |
| `Slices.RunTimeOfProcess` | egos-2000/grass/kernel.c:106-177 | So the total runtime of a process is the sum, modulo 2^64, of the times between its dispatches and the next entries |
| `Slices.EntryStatistics` | egos-2000/grass/kernel.c:75-146 | An entry counts a timer interrupt of the running process, and notes the first and the last time of dispatch; nothing else changes in these statistics |
| `Slices.NextPeriod` | egos-2000/grass/process.c:188-203 | The next periodic reset of a run comes in the first entry that is ten seconds or more after the last one |
| `Slices.FirstPeriod` | egos-2000/grass/process.c:188-203 | In a run from boot the first entry begins the period, without a reset |
| `Mlfq.TotalsOverRuns` | egos-2000/grass/process.c:146-148 | Both runtimes are the sum of all slices modulo 2^64 |
| `Mlfq.ChargeAgreesIff` | egos-2000/grass/process.c:149-160 | Charging agrees with the rule on unbounded integers exactly when the slice does not exceed what remains; an overshooting slice wraps around and does not demote |
| `Mlfq.IdealOverRuns` | egos-2000/grass/process.c:140-163 | As long as no slice overshoots, whole runs agree with the unbounded rule |
| `Mlfq.LevelByRuntime` | egos-2000/grass/process.c:140-163 | As long as no slice overshoots and no level is reset, the level of a process follows from its total runtime: the levels 0 to 3 last 100, 200, 300 and 400 ms |
| `Crc32.Compute` | egos-2000/apps/user/udp_demo.c:69-80 | The loops compute Checksum, which CrcPolynomial.ChecksumIsRemainder says is the frame check sequence |
| `CrcPolynomial.ChecksumIsRemainder` | egos-2000/apps/user/udp_demo.c:69-80 | For every message, the checksum is the complement of the remainder of its bits, with 32 zeros after them and the first 32 complemented, after division by the generator polynomial over GF(2) |
| `CrcPolynomial.ChecksumExactly` | egos-2000/apps/user/udp_demo.c:69-80 | This remainder is the only polynomial of degree below 32 by which they differ from a multiple of the generator |
| `CrcPolynomial.ShortMessages` | egos-2000/apps/user/udp_demo.c:69-80 | The checksum of no byte is 0, that of one zero byte 0xD202EF8D |
| `CrcPolynomial.PolynomialBit` | egos-2000/apps/user/udp_demo.c:76-76 | The constant of the code has the coefficients of the generator of clause 3.2.9, reflected |
| `CrcPolynomial.MessageFed` | egos-2000/apps/user/udp_demo.c:71-78 | The loops are a shift register that is fed the bits of the message, the lowest bit of each byte first |
| `Gf2.FeedIsDivision` | egos-2000/apps/user/udp_demo.c:71-78 | What such a register ends with is the remainder of the polynomial division |
| `Gf2.QuotientExists` | egos-2000/apps/user/udp_demo.c:71-78 | Every polynomial is a multiple of the generator plus its remainder |
| `Gf2.RemainderUnique` | egos-2000/apps/user/udp_demo.c:71-78 | Which is the only one of degree below 32 |
| `Crc32.Shift8` | egos-2000/apps/user/udp_demo.c:74-77 | The inner loop is eight steps of the shift register |
| `Crc32.MaskIsStep` | egos-2000/apps/user/udp_demo.c:75-76 | The mask selects the polynomial exactly when the low bit is set |
| `Crc32.StateConcat` | egos-2000/apps/user/udp_demo.c:71-78 | Processing two messages in turn is processing their concatenation |
| `Crc32.ComplementResidue` | egos-2000/apps/user/udp_demo.c:71-79 | From every state, the bytes of its complement lead to one and the same state |
| `Crc32.Residue` | egos-2000/apps/user/udp_demo.c:69-80 | For every message, the CRC of the message followed by its own CRC in little-endian order is 0x2144DF1C, which is how the frame is sent (line 156) |
| `InternetChecksum.Compute` | egos-2000/apps/user/udp_demo.c:82-96 | The loops terminate with the ones' complement sum of the 32-bit total, complemented if asked, never 0 then |
| `InternetChecksum.ChecksumMeans` | egos-2000/apps/user/udp_demo.c:82-96 | Without overflow of the total, the result is congruent to the sum of the words modulo 65535, and 0 only if all words are; the final one is congruent to its negative, and never 0 |
| `InternetChecksum.Example` | egos-2000/apps/user/udp_demo.c:82-96 | The example of section 3 of RFC 1071 |
| `InternetChecksum.Sum` | egos-2000/apps/user/udp_demo.c:85-86 | The 32-bit total of the 16-bit words |
| `InternetChecksum.Fold` | egos-2000/apps/user/udp_demo.c:88-89 | Folding terminates with the ones' complement sum |
| `InternetChecksum.FoldStep` | egos-2000/apps/user/udp_demo.c:88-89 | Folding the carry back in shrinks the sum and keeps its class |
| `InternetChecksum.PartsAgree` | egos-2000/apps/user/udp_demo.c:140-143 | Summing the pseudo-header first and the packet after it is summing both at once, unless the 32-bit total overflows |
| `InternetChecksum.NoOverflow` | egos-2000/apps/user/udp_demo.c:140-143 | No packet of up to 64 KB overflows the total |
| `InternetChecksum.ReceiverGetsAllOnes` | egos-2000/apps/user/udp_demo.c:130-143 | Summing the data with the checksum in its place gives 0xFFFF |
| `ParallelFor.MakeChunks` | group-16-5/simple-multithreader.h:69-113 | The chunks tile the range in order, one per thread, with sizes that differ by at most 1 |
| `ParallelFor.Sequentially` | group-16-5/simple-multithreader.h:95-121 | Whatever the jobs, running the threads one after the other is one of the interleavings |
| `ParallelFor.AnyThreadFirst` | group-16-5/simple-multithreader.h:95-121 | No choice is a dead end: whichever thread goes first, the rest can be interleaved |
| `ParallelFor.EachJobOnce` | group-16-5/simple-multithreader.h:95-121 | Under every interleaving each item is run as often as it occurs in the jobs |
| `ParallelFor.EachIndexOnce` | group-16-5/simple-multithreader.h:29-42 | Under every interleaving each index of the range is run exactly once |
| `ParallelFor.OrderIrrelevant` | group-16-5/simple-multithreader.h:29-63 | Bodies that commute give the same result in any order |
| `ParallelFor.Interleaved` | group-16-5/simple-multithreader.h:95-121 | If steps of different threads commute, every interleaving of the steps ends as the threads run one after the other |
| `ParallelFor.EachCellOnce` | group-16-5/simple-multithreader.h:44-63 | Under every interleaving each index pair is run exactly once |
| `ParallelFor.ParallelIsSequential` | group-16-5/simple-multithreader.h:69-121 | With bodies made of steps, where steps of different indices commute, the 1D loop ends as the sequential loop under every interleaving of single steps |
| `ParallelFor.ParallelIsSequential2` | group-16-5/simple-multithreader.h:130-186 | The same for the 2D loop and the nested sequential loops |
| `ParallelPrograms.VectorAdd` | group-16-5/vector.cpp:17-19 | The vector sum is right for every number of threads and every interleaving of reads and writes |
| `ParallelPrograms.MatrixMultiply` | group-16-5/matrix.cpp:24-28 | Every cell gets its dot product exactly once, whatever the interleaving of the reads and writes in the loops over k |
| `ParallelPrograms.ProductOfOnes` | group-16-5/matrix.cpp:24-30 | The test at the end of the program succeeds: two matrices of ones give the size in every cell |
| `DemandPaging.FaithfulExactly` | group-16-4/SimpleSmartLoader.c:69-138 | A faulted page equals the eager image on the bytes of the segment exactly when the first fault is below the end of the file bytes or the file bytes of that page are all zero |
| `DemandPaging.FirstFaultInZeroFill` | group-16-4/SimpleSmartLoader.c:128-138 | An input where it does not: a page with a file byte, first touched in its zero fill |
| `DemandPaging.Loader.PageFor` | group-16-4/SimpleSmartLoader.c:66-138 | What is mapped for a fault, byte by byte |
| `DemandPaging.Loader.MapSegment` | group-16-4/SimpleSmartLoader.c:35-189 | Exactly the page of the fault is mapped, with that content, and all counters stay in step with the mapped pages |
| `DemandPaging.Loader.TryLoad` | group-16-4/SimpleSmartLoader.c:192-223 | Succeeds exactly if the address is in a loadable segment, and otherwise changes nothing |
| `DemandPaging.Loader.Touch` | group-16-4/SimpleSmartLoader.c:225-241 | A fault is counted and served once per page; the program is killed exactly for addresses outside the image |
| `DemandPaging.Loader.Run` | group-16-4/SimpleSmartLoader.c:192-241 | For any run of accesses whose first touches are as in FaithfulExactly, the program reads what it would read had everything been loaded at the start; faults and allocations are equal in number |
| `DemandPaging.FirstTouchesAre` | group-16-4/SimpleSmartLoader.c:192-241 | The condition of that: the first access to each page of 4096 bytes is a faithful one |
| `DemandPaging.ReadGives` | group-16-4/SimpleSmartLoader.c:225-241 | What a read would give had everything been loaded: what the program has stored there last, or else the byte of the file, or 0 beyond the bytes of the file |
| `DemandPaging.Loader.TotalFragmentation` | group-16-4/SimpleSmartLoader.c:158-186 | Once every page has been touched, the total is 4096 times the number of pages less the sizes of the segments |
| `DemandPaging.AllTouched` | group-16-4/SimpleSmartLoader.c:158-186 | The same, as a fact about the sum over pages and segments |
| `DemandPaging.Loader.Cleanup` | group-16-4/SimpleSmartLoader.c:246-260 | The recorded ranges are all that is mapped, so unmapping them leaves nothing |
| `ElfLoad.Load` | egos-2000/library/elf/elf.c:17-81 | Succeeds exactly when there are frames for all pages of the segments and four more, takes exactly these, and leaves the process with its segments and arguments in place (ElfLoad.IsInPlace); where it halts, all frames are in use and the other processes see what they saw |
| `ElfLoad.IsInPlace` | egos-2000/library/elf/elf.c:17-81 | In addresses: every segment from 0x80000000 on has its pages, and each of its addresses the byte of the file at the same distance from the offset, or 0 after the last one; segments below add no page; the arguments, the page of system calls and two pages of stack are where they belong |
| `ElfLoad.FramesAccounted` | egos-2000/earth/cpu_mmu.c:18-42 | Every frame is unused, belongs to one page of one process, or is in use without a page |
| `ElfLoad.LoadSegments` | egos-2000/library/elf/elf.c:24-55 | Exactly the pages of the segments at RAM_START and above are added, each with its bytes of the file and zeros (ElfLoad.IsInPlace says which these are) |
| `ElfLoad.LoadSegment` | egos-2000/library/elf/elf.c:25-51 | Takes exactly max(ceil(filesz / 4096), floor((addr + memsz) / 4096) - floor(addr / 4096)) frames |
| `ElfLoad.LoadData` | egos-2000/library/elf/elf.c:34-45 | A page for every eight blocks, and every byte of the file in its place |
| `ElfLoad.LoadBlock` | egos-2000/library/elf/elf.c:34-45 | One turn of that loop |
| `ElfLoad.MapZeroed` | egos-2000/library/elf/elf.c:36-39 | A fresh frame, mapped and cleared |
| `ElfLoad.LoadArguments` | egos-2000/library/elf/elf.c:57-70 | The argument page has argc, the pointers and the strings |
| `ElfLoad.LoadCommon` | egos-2000/library/elf/elf.c:57-80 | Four frames: arguments, system call, and two pages of stack |
| `ElfLoad.ProcessPages` | egos-2000/library/elf/elf.c:17-81 | Afterwards the process has no other pages, and all other processes see what they saw |
| `ElfLoad.ProcessImage` | egos-2000/library/elf/elf.c:17-81 | At every address of a mapped page of a segment, the process finds the byte of the image |
| `ElfImage.AlignedImage` | egos-2000/library/elf/elf.c:25-45 | For a page-aligned address and a block-aligned offset these are the bytes of the file, then zeros to the end of the last page |
| `ElfImage.NeededPages` | egos-2000/library/elf/elf.c:25-51 | The pages that a segment adds, in addresses: none below 0x80000000, otherwise those of its bytes of the file and of its memory up to the last whole page |
| `ElfImage.MemoryIsMapped` | egos-2000/library/elf/elf.c:31-51 | All memory of an aligned segment is mapped exactly when its size is a multiple of the page size or its last page also holds bytes of the file |
| `ElfImage.PartialZeroFillUnmapped` | egos-2000/library/elf/elf.c:32-32 | An input where it is not: one byte of zero fill past a whole page |
| `ElfImage.CopyBlock` | egos-2000/library/elf/elf.c:41-44 | Copying the next block, or what is left of the file, extends the data in the page by exactly these bytes |
| `ElfArguments.PointersLead` | egos-2000/library/elf/elf.c:61-70 | Following argv[i] leads to the i-th string, inside the page |
| `ElfArguments.ArgumentsFound` | egos-2000/library/elf/elf.c:57-70 | argc is at 0x80300000, and the pointer to each argument leads to its 32 bytes on the same page |
| `Directory.DirLookup` | egos-2000/library/syscall/servers.c:33-44 | The loop returns the number after the first place where the name stands as a word followed by a blank, and -1 if there is none |
| `Directory.ScanPrinted` | egos-2000/library/syscall/servers.c:33-44 | A lookup in any printed directory gives the number after the first printed word that equals the name, or -1 |
| `Directory.PrintedColumns` | egos-2000/tools/mkfs.c:124-127 | A printed entry is its name, its number right-aligned in four columns, and a blank |
| `Directory.FirstHitIs` | egos-2000/library/syscall/servers.c:33-44 | The hit is the first entry with a word that equals the name |
| `Directory.AtoiReads` | egos-2000/library/syscall/servers.c:39-41 | A decimal number is read back up to the first other character, with its sign |
| `Directory.RoundTrip` | egos-2000/tools/mkfs.c:124-127 | Looking up a name in printed entries gives the number of the first entry of that name, or -1, exactly if the first printed word that equals the name is the name of that entry, or there is neither, or the number that follows a stray word happens to be the same |
| `Directory.PlainRoundTrip` | egos-2000/tools/mkfs.c:124-127 | For names that do not begin like a number, what follows a stray word reads as 0, so the lookup is right exactly if that word is the name of the first entry called so, or there is neither, or that entry has number 0 |
| `Directory.PlainLookup` | egos-2000/tools/mkfs.c:124-127 | With plain names and numbers below 1000 throughout, every lookup of a plain name is right |
| `Directory.FoundExactly` | egos-2000/tools/mkfs.c:126-126 | One printed entry is found under its name exactly when its number is below 1000 |
| `Directory.NumberTakenForName` | egos-2000/library/syscall/servers.c:39-41 | An input where a number is taken for a name |
| `Directory.ScanEntry` | egos-2000/library/syscall/servers.c:38-41 | One printed entry is found, or passed over as two words |
| `Terminal.TermRead` | egos-2000/library/syscall/servers.c:86-107 | The buffer ends up with the edited line and its terminator; the result is its length with the terminator, or 0 for an empty line |
| `Terminal.TypeAndErase` | egos-2000/library/syscall/servers.c:97-101 | A key that is erased again leaves no trace, unless it filled the buffer |
| `Terminal.EraseNothing` | egos-2000/library/syscall/servers.c:97-101 | Backspace on an empty line does nothing |
| `Terminal.FullLine` | egos-2000/library/syscall/servers.c:88-107 | A line that fills the buffer ends there |
| `Terminal.PlainLine` | egos-2000/library/syscall/servers.c:88-96 | Without Enter and Backspace the line is what was typed |

## Left out

- TreeDisk.Store.Write: offset 2^32 - 1 is excluded, because the recorded size wraps to 0 there and the walk may follow data as references; TreeDiskFiles.SizeAfterWriteCovers says that this is the only such offset, TreeDiskFiles.WalkAtLargestOffset what happens there.
- TreeDiskFiles.WalkAtLargestOffset: only the recorded size and the numbers of levels; the walk at that offset is not modelled.
- TreeDisk.Store.RecordSize: the same offset is excluded.
- TreeDisk.Store.MakeRoom: the same offset is excluded.
- TreeDisk.Store.Write: after a halt for lack of blocks the disk may hold a partly grown tree; nothing is said about it, and crash consistency is not modelled (writes are not journaled).
- TreeDiskFormat.Create: a disk that says it is formatted is left alone whatever it holds, as in the code; the store is then only opened if its content is consistent.
- SoftTlb.Mmu.Map: a page is mapped only once, into a frame fresh from the allocator; the code would let a second mapping of the same page share or shadow it.
- SoftTlb.Mmu.Store: a process touches only pages that it has mapped; what it finds elsewhere in the window is left over from others, as the code has no protection.
- Kernel.Kernel.Alloc: the counter of pids is unbounded here.
- KernelRuns.Drive: an operation on the process table that the system server would not ask for (Allowed) ends the run, like a halt.
- Kernel.Kernel.Free: the current process is not freed by itself, as in the system server; times and statistics printed there, which may come from another slot, are not modelled.
- Kernel.Kernel.Ecall: saved registers, program counters, cache flushes and more than one core are not modelled.
- Kernel.Kernel.FreeAllUsers: it is asked for by the system server, so the current process is not a user process.
- UserMemory.CarryRun: a load is one step of memory, when the process is made ready; the run stops at a process that does not fit, or whose page holds other bytes than the run says, which Machine.Drive cannot meet.
- Machine.Drive: what a process does to its own pages between two entries is not an event, except for the arguments of its calls (Isolation has such stores); a completed call is copied to its page at the end of the entry and not inside proc_try_recv, and pids stay below 2^31.
- CallPages.Decode: a status word other than PENDING counts as done, as the code only compares with PENDING; the kernel sets the status itself on entry.
- PageTables.PageTable.IdentityMap: page_table_map and page_table_switch are exercises that the repository leaves open.
- ElfLoad.Load: the blocks of the file come from a function and not from system calls, so other processes do not run in the middle of a load. The process has no pages yet and is not running, and segments do not share pages; the program headers are taken as parsed. The code clears neither the system call page nor the stack, so nothing is said about their content.
- DemandPaging.Loader.PageFor: offset and address of a segment agree modulo the page size, as the ELF format asks.
- DemandPaging.Loader.MapSegment: failures of mmap and realloc, and access permissions, are not modelled; segments share no page and offset and address agree modulo the page size, as the ELF format asks.
- InternetChecksum.Compute: bytes are unsigned, as char is on RISC-V.
- ParallelPrograms.VectorAdd: integers are unbounded; creation and joining of threads always succeed; each read and write of an array element is one step.
- Directory.DirLookup: the name is not longer than the text; otherwise the unsigned bound of the loop wraps around and the code reads past the buffer. atoi is taken without overflow.
- Terminal.TermRead: the echo is not modelled, and the length is at least 1; for a length of 0 the bound of the loop wraps around.
- Device drivers, interrupts and boot (dev_disk.c, dev_tty.c, cpu_intr.c, boot.c, assembly): memory-mapped registers.
- file0.c, treedisk_setsize, proc_sleep, proc_coresinfo, disk_write: stubs.
- The shells, system servers and user applications (message loops, prompts, fork, exec and pipes).
- group-16-3/scheduler.c: the queue is rebuilt in index order every round, so its rotation has no effect, and the rest depends on signals and shared memory.
- group-16/starter loaders: one mapping and a jump.
