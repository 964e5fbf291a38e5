# Krust verification

A Dafny model of the parts of the Krust kernel whose correctness is hardest to see from the code,
with proofs about every input, every run or every reachable state. `dafny verify dfyconfig.toml`
checks the whole project.

- **In-memory filesystem** (`MemfsTree`, `MemfsRename`, `SparseFile`, `Memfs`). The class `MemoryFs` holds the
  inode table, handles and quota counters. Every operation keeps the attached inodes a tree with right parents
  and link counts, and the counters equal to the live pages and inodes. A rename acts on the path-to-inode map
  exactly as it should. A sparse file is one flat byte sequence.
- **FAT12/16/32** (`BlockDevice`, `FatTable`, `FatChain`, `FatVolume`, `FatFile`, `FatFiles`), from sectors up
  to files: byte ranges over whole-sector transfers, bit-packed table entries in every copy of the table,
  allocation from a roving hint, the cycle guard, chains that stay apart, file reads and writes that refine a
  flat byte array, and any run over several open files.
- **Page tables** (`SupervisorOverlap`, `PageTables`, `Machine`, `AddressSpace`): the range walk against the
  processor's walk for one address, and address spaces that copy inherited branches before editing them.
- **Scheduler and CPU accounting** (`Accounting`, `Scheduler`): a state machine over the task queue, with exact
  conservation of CPU time over every run, in user and in kernel mode, and bounded waiting.
- **Paths** (`Paths`, `Utf8`, `Vfs`): normal forms, mounts and symbolic links. The kernel rewrites strings and starts
  over after every link; this is the walk on lists of names that never starts over. Where it is also the walk
  that takes dots and links as they come is said below.
- **Boot archive and directory listing** (`Cpio`, `Initrd`, `Dirents`): writer and reader pairs that invert each
  other, for every archive and every directory of an in-memory filesystem.
- **Module loader** (`ModuleLoader`): a recursive load that ends on every dependency graph, succeeds exactly
  when the module can be loaded, and else answers with the error of the one module at fault.

`Base` and `Bytes` hold the shared vocabulary. Clocks, memory for growing vectors, free page frames, module
`init` and `cleanup` outcomes, page-table reads and what inodes answer to a path lookup are parameters. Each
operation is one atomic step.

## Findings

Some things that one might expect do not hold. For each there is the exact condition under which it does,
and an input at which it fails.

- A FAT write past the end of a file does not clear the gap: the file then reads as after a plain write if and
  only if the stored bytes between the old size and the offset are zeros (`FatFile.WriteIsFlat`,
  `FatFile.FatInode.Write`); `FatFile.OldBytesShowUp` is an input where they are not. Zeros past the size are
  kept by every successful write.
- A FAT write that fails can leave traces (`FatFile.FatInode.Write`). It fails when its end does not fit 32
  bits, and then only after its bytes are stored: the file reads as before if and only if the write put the same
  bytes there (`FatFile.FailedWriteShows`, at an input `FatFile.FailedWriteIsSeen`). It also fails when too few
  clusters are free, and then has taken all of them. Clusters that a failed write took are lost, in use but in
  no file, if and only if the file had none before; `FatFile.LosesTheCluster` does this on a volume with one
  cluster.
- `range_overlaps_supervisor` fails closed by the lowest address that decides: an unreadable entry gives no
  answer if and only if no supervisor page lies below it (`SupervisorOverlap.RangeOverlapsSupervisor`, at an
  input `SupervisorOverlap.UnreadableBelowSupervisor`).
- A listing ends early, without an error, if and only if some record is larger than the buffer
  (`Dirents.ListsAllIff`, at an input `Dirents.BufferTooSmall`); 280 bytes are always enough
  (`Dirents.ListDirectory`).
- Two dots in a path take back the name before them without looking at it. This is what a walk name by name does
  as long as no name taken back is missing or a link (`Vfs.DotsFirstIsPhysical`); for dots right after a name in
  a directory that is reached, the two agree if and only if the name is there and leads to a place in that
  directory (`Vfs.DotsAfterName`). `Vfs.DotsAfterLink` is a tree where they differ.
- The string put together for a followed link is trimmed, which can change the last name of the path: it names
  what the link stands for if and only if it does not end in white space (`Vfs.FollowedNames`, at an input
  `Vfs.SpaceIsTrimmed`).
- Mapping a page that is mapped already works if and only if its entry is present and no large page; a PROT_NONE
  page is neither set over nor cleared, and gives `MapFailed` (`AddressSpace.AddressSpace.MapTwice`,
  `AddressSpace.NoAccessStays`, which ends with such an input).

## Model

| member | source | states |
|---|---|---|
| `SupervisorOverlap.Walk` | kernel/src/arch/x86_64/supervisor_overlap.rs:22-60 | The walk over one table decides its range as the lowest address that is not harmless does, by the walk for single addresses. |
| `SupervisorOverlap.VisitEntry` | kernel/src/arch/x86_64/supervisor_overlap.rs:34-57 | One entry, with the subtree below it, decides the part of the range it covers. |
| `SupervisorOverlap.RangeOverlapsSupervisor` | kernel/src/arch/x86_64/supervisor_overlap.rs:10-20 | No answer for an empty or out-of-bounds range; else Some(false) iff every address is harmless, Some(true) iff the first that is not reaches a supervisor leaf, None iff it cannot be read. |
| `SupervisorOverlap.Masks` | kernel/src/arch/x86_64/supervisor_overlap.rs:5-8 | The four masks take the present, user and page-size bits and the address as the processor reads them. |
| `SupervisorOverlap.EntryDecides` | kernel/src/arch/x86_64/supervisor_overlap.rs:34-57 | Skipping a missing entry, or taking the answer of the subtree, is right for all addresses under the entry. |
| `SupervisorOverlap.IndexOfCovered` | kernel/src/arch/x86_64/supervisor_overlap.rs:31-34 | Every address that an entry covers has that entry's index at that level. |
| `SupervisorOverlap.DecidesUnique` | kernel/src/arch/x86_64/supervisor_overlap.rs:10-60 | The per-address specification has one answer only. |
| `SupervisorOverlap.ReadableAnswer` | kernel/src/arch/x86_64/supervisor_overlap.rs:10-60 | When all reads succeed, the answer is Some, and true iff some address of the range reaches a leaf without user access at some level. |
| `SupervisorOverlap.UnreadableBelowSupervisor` | kernel/src/arch/x86_64/supervisor_overlap.rs:35 | An input with a supervisor page in the range and no answer, as a lower entry cannot be read. |
| `MemfsTree.PathUnique` | kernel/src/fs/memfs.rs:427-557 | In a tree, an inode has exactly one path. |
| `MemfsTree.MoveResolve` | kernel/src/fs/memfs.rs:528-555 | Moving an entry re-roots every path below it and leaves all other paths alone. |
| `MemfsTree.MoveKeepsTree` | kernel/src/fs/memfs.rs:528-555 | Moving an entry keeps parents, unique names, link counts and reachability. |
| `MemfsTree.DetachResolve` | kernel/src/fs/memfs.rs:271-276 | Detaching an entry removes its path and no other. |
| `MemfsTree.DetachKeepsTree` | kernel/src/fs/memfs.rs:271-276 | Detaching an entry keeps the rest a tree with right link counts. |
| `MemfsTree.GraftResolve` | kernel/src/fs/memfs.rs:427-455 | A new entry adds exactly its own path. |
| `MemfsTree.GraftKeepsTree` | kernel/src/fs/memfs.rs:427-455 | A new entry keeps the tree. |
| `MemfsRename.RenamePaths` | kernel/src/fs/memfs.rs:483-557 | After a rename every path under the old name is re-rooted at the new one, the replaced target is gone, all other paths are unchanged. |
| `MemfsRename.RenameKeepsTree` | kernel/src/fs/memfs.rs:483-557 | A rename keeps the tree. |
| `MemfsRename.RenameLeaves` | kernel/src/fs/memfs.rs:483-557 | A rename leaves types and file contents alone, changes one parent, and detaches exactly the replaced inode. |
| `SparseFile.Read` | kernel/src/fs/memfs.rs:338-368 | Read returns the exact slice of the flat bytes and leaves the rest of the buffer. |
| `SparseFile.ReadChunk` | kernel/src/fs/memfs.rs:353-364 | The part of a read inside one page, zeros where the page is missing. |
| `SparseFile.WriteData` | kernel/src/fs/memfs.rs:589-655 | A write reporting n bytes is the flat write of the first n bytes, with zero-filled gaps; errors only when nothing was written; pages used grow by the pages added. |
| `SparseFile.Truncate` | kernel/src/fs/memfs.rs:385-415 | Truncate is the flat resize; bytes past the end are zeros, so shrinking and growing exposes only zeros. |
| `SparseFile.WrittenIsFlat` | kernel/src/fs/memfs.rs:589-655 | Overwritten pages denote the flat write. |
| `SparseFile.ShrunkBytes` | kernel/src/fs/memfs.rs:385-415 | Dropping pages and clearing the last one removes exactly the bytes past the new size. |
| `SparseFile.AppendIsWriteAtEnd` | kernel/src/fs/memfs.rs:374-383 | An append is a write at the size. |
| `SparseFile.Step` | kernel/src/fs/memfs.rs:370-415 | One operation, whatever it is allowed to allocate, acts as the flat operation on the bytes it reports. |
| `SparseFile.Run` | kernel/src/fs/memfs.rs:338-415 | Every sequence of writes, appends and truncates denotes the flat run. |
| `Memfs.MemoryFs.Build` | kernel/src/fs/memfs.rs:99-116 | A new filesystem is a root directory, with one inode charged. |
| `Memfs.MemoryFs.Tmpfs` | kernel/src/fs/memfs.rs:88-97 | With memory, the mount options are refused exactly when the size is zero or not whole pages, the inode limit is zero, or the mode has more than twelve bits. |
| `Memfs.MemoryFs.Statfs` | kernel/src/fs/memfs.rs:137-153 | Free counts complement the live pages and inodes. |
| `Memfs.MemoryFs.Create` | kernel/src/fs/memfs.rs:427-455 | Fails with exactly the listed refusals and then changes nothing; else adds one path and charges one inode. Only valid names are ever listed. |
| `Memfs.MemoryFs.Unlink` | kernel/src/fs/memfs.rs:457-481 | Fails with exactly the listed refusals and then changes nothing; else removes one path, and the inode with its pages once nothing holds it. |
| `Memfs.MemoryFs.IsAncestor` | kernel/src/fs/memfs.rs:508-519 | The walk over parents ends, and finds the source iff it lies on the destination's path. |
| `Memfs.ValidateName` | kernel/src/fs/memfs.rs:231-239 | Refuses exactly the empty name, the two dot names, slashes, zero bytes and more than 255 bytes. |
| `Memfs.MemoryFs.CanReplace` | kernel/src/fs/memfs.rs:255-269 | An entry may be replaced iff both are directories and it is empty, or neither is; which error else. |
| `Memfs.MoveDecided` | kernel/src/fs/memfs.rs:483-527 | When names, source and destination allow a move, it is refused iff there is an entry in its place that may not be replaced, and with which error. |
| `Memfs.MemoryFs.Rename` | kernel/src/fs/memfs.rs:483-557 | Fails with exactly the listed refusals, and then namespace and links are unchanged; else moves the paths as above. Succeeds iff both names are good, the source is there, no directory goes below itself, and what is replaced may be: a directory by a directory and empty, a file by a file. |
| `Memfs.MemoryFs.Read` | kernel/src/fs/memfs.rs:338-368 | Reads a slice of the file's bytes, for both kinds of storage. |
| `Memfs.MemoryFs.Write` | kernel/src/fs/memfs.rs:370-373 | The flat write of the bytes it reports; no other file, path or counter changes but the pages of this file; each error, and a short write stops at a page that is missing and cannot be had. |
| `Memfs.MemoryFs.Append` | kernel/src/fs/memfs.rs:374-384 | Writes at the end and reports where that was; the errors and the short writes of a write there. |
| `Memfs.MemoryFs.Truncate` | kernel/src/fs/memfs.rs:385-415 | The flat resize, giving back the pages that go. |
| `Memfs.MemoryFs.DropHandle` | kernel/src/fs/memfs.rs:73-81 | The last handle of an unlinked inode gives back the inode and its pages. |
| `Memfs.MemoryFs.DropIfUnused` | kernel/src/fs/memfs.rs:73-81 | An inode goes exactly when it has no links and no handles. |
| `Memfs.MemoryFs.Run` | kernel/src/fs/memfs.rs:38-81 | Every run keeps the tree, valid names, and the counters equal to live pages and inodes (unlinked open ones included) and within the limits. |
| `Accounting.SwitchKeepsTotal` | kernel/src/process/accounting.rs:48-65 | Pausing, resuming and changing mode keep the time of each mode at that instant. |
| `Accounting.TimePasses` | kernel/src/process/accounting.rs:36-46 | A running clock gains exactly the time that passes, in its own mode; a paused one nothing. |
| `Accounting.ReapKeepsTotal` | kernel/src/process/accounting.rs:67-70 | What a reaped child used in each mode is added to its parent in that mode. |
| `Scheduler.Scheduler.Boot` | kernel/src/process/mod.rs:53-99 | The boot state has the invariant. |
| `Scheduler.Scheduler.AccountSwitch` | kernel/src/process/scheduler.rs:183-191 | Stops the old clock and starts the new one at one instant; the total is kept. |
| `Scheduler.Scheduler.SetTaskState` | kernel/src/process/scheduler.rs:158-177 | Sets one task's state, with its clock and cores, and keeps the total. |
| `Scheduler.Scheduler.FindNext` | kernel/src/process/scheduler.rs:201-213 | The scan finds the first runnable task in round-robin order, or there is none. |
| `Scheduler.Scheduler.ScheduleOn` | kernel/src/process/scheduler.rs:193-254 | Picks the next runnable task round robin, never a waiting or zombie one, and keeps the total. |
| `Scheduler.Scheduler.PreemptAndSwitch` | kernel/src/process/scheduler.rs:262-303 | Makes a waiting current task ready, then hands over to the next runnable one. |
| `Scheduler.Scheduler.SwitchToPid` | kernel/src/process/scheduler.rs:306-364 | Hands over to the named task exactly when it is another one, runnable and a valid target. |
| `Scheduler.Scheduler.PreemptIfHigherPriority` | kernel/src/process/scheduler.rs:405-469 | Hands over to the first runnable task of the highest priority, exactly when that is above the current one's. |
| `Scheduler.Scheduler.ReapZombieChild` | kernel/src/process/scheduler.rs:373-403 | Removes the first matching zombie child, adds its user and kernel time to the parent's, and keeps the current index on the current task; the time of each mode is kept when the parent is in the queue, and else loses exactly the child's. |
| `Scheduler.Scheduler.WaitForChild` | kernel/src/process/mod.rs:483-515 | One round of waiting: an error iff there is no such child, else a reaped child or none yet; the total is kept. |
| `Scheduler.Scheduler.ResumeCpuAccounting` | kernel/src/process/mod.rs:142-148 | Starts the current task's clock. |
| `Scheduler.Scheduler.PauseForIdle` | kernel/src/process/mod.rs:150-161 | Stops the current task's clock. |
| `Scheduler.Scheduler.SetCurrentTaskMode` | kernel/src/process/mod.rs:129-140 | Changes where time is booked and keeps the total. |
| `Scheduler.Scheduler.LowerCurrentPriority` | kernel/src/process/scheduler.rs:366-371 | Lowers the current task's priority, not below zero. |
| `Scheduler.Scheduler.ClearCoreTask` | kernel/src/process/scheduler.rs:495-501 | No core runs the task any more; other cores are as before. |
| `Scheduler.Scheduler.Fork` | kernel/src/process/mod.rs:406-477 | Adds a ready child with a fresh pid and no usage, and lowers the parent's priority by one; both errors, and then the queue is unchanged. |
| `Scheduler.Scheduler.ScheduleUntilRunning` | kernel/src/process/scheduler.rs:193-254 | Bounded waiting: a ready task runs within as many calls as there are tasks, at whatever times they are made. |
| `Scheduler.Scheduler.Run` | kernel/src/process/scheduler.rs:158-403 | Every run keeps pids unique, at most one task running, the index on the current task; in each mode, all usage is what it was plus the time a clock ran in that mode, and both together are never more than the time elapsed. |
| `Scheduler.DispatchKeeps` | kernel/src/process/scheduler.rs:183-254 | A hand-over keeps the invariant and the total. |
| `Scheduler.ReapKeeps` | kernel/src/process/scheduler.rs:373-403 | Reaping keeps pids unique and one clock running at most. |
| `Scheduler.ReapIndex` | kernel/src/process/scheduler.rs:392-400 | The shifted index still points at the current task. |
| `Scheduler.ReapCharged` | kernel/src/process/scheduler.rs:373-403 | Reaping by a parent in the queue keeps the time of each mode. |
| `Scheduler.ChargedLater` | kernel/src/process/accounting.rs:36-46 | Over all tasks and in each mode, only the current one's clock gains time. |
| `Scheduler.GainedOnce` | kernel/src/process/accounting.rs:36-46 | Between two switches the two modes together gain no more than the time between them. |
| `Scheduler.ReapBooks` | kernel/src/process/scheduler.rs:373-403 | The parent's reaped user and kernel time each grow by the child's own time in that mode and that of its reaped children. |
| `Scheduler.Nearer` | kernel/src/process/scheduler.rs:201-213 | Each call brings a ready task nearer to the scan's start. |
| `Accounting.BookedByMode` | kernel/src/process/accounting.rs:27-65 | Over every history of pauses, resumes and mode changes, each nanosecond a clock ran is booked once, under the mode it ran in. |
| `BlockDevice.MemoryBlockDevice.New` | kernel/src/drivers/block/mod.rs:20-30 | A device of whole sectors; an error iff the sector size is zero or does not divide the data. |
| `BlockDevice.MemoryBlockDevice.ReadSector` | kernel/src/drivers/block/mod.rs:46-55 | One sector's bytes, or the error for a number out of range. |
| `BlockDevice.MemoryBlockDevice.WriteSector` | kernel/src/drivers/block/mod.rs:57-66 | Replaces one sector's bytes. |
| `BlockDevice.MemoryBlockDevice.ReadBytes` | kernel/src/drivers/traits.rs:121-147 | Any byte range through whole sectors is the slice of the device's bytes; an error iff it passes the end. |
| `BlockDevice.MemoryBlockDevice.WriteBytes` | kernel/src/drivers/traits.rs:149-178 | Any byte range through read-modify-write of sectors is the splice; past the end an error after what fits. |
| `FatTable.WriteThenRead` | kernel/src/fs/fat.rs:680-744 | Writing entry c and reading any entry gives the masked value for c and the old value otherwise, for FAT12 nibbles, FAT16 and FAT32. |
| `FatTable.ReservedBitsKept` | kernel/src/fs/fat.rs:731-741 | A FAT32 write keeps the four reserved bits. |
| `FatTable.EntryBytes` | kernel/src/fs/fat.rs:680-703 | Where an entry's bits lie: twelve bits at one and a half bytes each, two bytes, or the low 28 bits of four. |
| `FatChain.WholeIsDistinct` | kernel/src/fs/fat.rs:786-810 | A walk that ends meets no cluster twice. |
| `FatChain.WholeMeansNoCycle` | kernel/src/fs/fat.rs:786-810 | If one walk from a cluster ends, none from it cycles. |
| `FatChain.Pigeonhole` | kernel/src/fs/fat.rs:786-810 | A walk without repetition is no longer than there are clusters. |
| `FatChain.ChainLonger` | kernel/src/fs/fat.rs:828-834 | Linking a fresh end to a chain lengthens it by one cluster. |
| `FatChain.ChainUntouched` | kernel/src/fs/fat.rs:705-744 | Writing an entry outside a chain leaves the chain. |
| `FatChain.EndMarks` | kernel/src/fs/fat.rs:640-654 | Which entries end a chain, by type. |
| `FatVolume.LayoutIsWellFormed` | kernel/src/fs/fat.rs:128-147 | The layout that `mount` computes puts tables and clusters inside the device, apart from each other. |
| `FatVolume.LayoutExact` | kernel/src/fs/fat.rs:128-147 | The root directory takes the fewest sectors that hold its entries of 32 bytes, the data begins right behind it, one cluster more would pass the last sector, and the type is FAT12 below 4085 clusters, FAT16 below 65525, FAT32 from there. |
| `FatVolume.LayoutRefused` | kernel/src/fs/fat.rs:875-905 | Refused exactly are a zero field, another sector size, more sectors than the device has, and fewer than tables and root directory take. |
| `FatVolume.ClusterToOffsetSucceeds` | kernel/src/fs/fat.rs:770-784 | The checked offset arithmetic succeeds for every cluster of the volume. |
| `FatVolume.ClusterToOffsetFails` | kernel/src/fs/fat.rs:770-784 | It fails exactly below cluster 2 and when the sector number does not fit 32 bits. |
| `FatVolume.ClusterWritten` | kernel/src/fs/fat.rs:764-784 | Bytes written inside a cluster change that cluster and neither tables, root directory nor other clusters. |
| `FatVolume.Volume.Mount` | kernel/src/fs/fat.rs:169-180 | A mounted volume is valid. |
| `FatVolume.Volume.ReadFatEntry` | kernel/src/fs/fat.rs:680-703 | Reads the entry of the table. |
| `FatVolume.Volume.WriteFatEntry` | kernel/src/fs/fat.rs:705-744 | Updates the entry in every copy of the table, byte for byte with the neighbour's nibble and the reserved bits kept; nothing else on the device changes. |
| `FatVolume.Volume.WriteCluster` | kernel/src/fs/fat.rs:764-784 | Splices bytes into one cluster. |
| `FatVolume.Volume.FindFree` | kernel/src/fs/fat.rs:746-762 | The first free cluster of a range, or there is none. |
| `FatVolume.Volume.AllocateCluster` | kernel/src/fs/fat.rs:746-768 | Fails iff no cluster is free, wherever the hint stands; else the first free cluster from the hint on, and then from the start, becomes a zeroed chain of its own. |
| `FatVolume.Volume.CollectChain` | kernel/src/fs/fat.rs:786-810 | Ends on every table; an error iff the walk cycles; an Ok chain is the whole walk, without repetition and no longer than the clusters. |
| `FatVolume.Volume.EnsureChainLen` | kernel/src/fs/fat.rs:812-837 | The old chain is a prefix of the new one, added clusters were free and are zeroed, all other chains stay and stay apart, exactly the added clusters leave the free ones; fails iff too few clusters are free, and then all are taken. |
| `FatVolume.Linked` | kernel/src/fs/fat.rs:823-834 | Linking a free cluster keeps all chains and their disjointness. |
| `FatFile.ChainSplice` | kernel/src/fs/fat.rs:413-424 | Writing inside one cluster of a chain is writing into the chain's bytes. |
| `FatFile.ChainGrown` | kernel/src/fs/fat.rs:812-837 | A grown chain holds its old bytes and then zeros. |
| `FatFile.UpdatedReadsBack` | kernel/src/fs/fat.rs:1124-1139 | An updated directory entry reads back as the new first cluster, its halves at bytes 20 and 26, and size at byte 28; its name and attributes stay. |
| `FatFile.WriteIsFlat` | kernel/src/fs/fat.rs:391-441 | A write through clusters is the plain write iff no old bytes show up in the gap; zeros past the size are kept. |
| `FatFile.OldBytesShowUp` | kernel/src/fs/fat.rs:391-441 | An input at which a write through clusters is not the plain write. |
| `FatFile.FailedWriteShows` | kernel/src/fs/fat.rs:403-428 | After a write that ends past 32 bits the file is as before iff the same bytes were put there. |
| `FatFile.FailedWriteIsSeen` | kernel/src/fs/fat.rs:403-428 | An input at which the failed write is seen. |
| `FatFile.LostAfter` | kernel/src/fs/fat.rs:403-428 | What a write took and the file does not keep is exactly what is lost. |
| `FatFile.LosesTheCluster` | kernel/src/fs/fat.rs:812-837 | On a volume with one cluster, a write of two clusters to an empty file fails and loses it. |
| `FatFile.FatInode.Skip` | kernel/src/fs/fat.rs:346-354 | Following entries from the k-th cluster reaches the target's cluster, or the chain is too short. |
| `FatFile.FatInode.Locate` | kernel/src/fs/fat.rs:332-354 | From the cache or from the start, the cluster that holds the offset. |
| `FatFile.FatInode.Copy` | kernel/src/fs/fat.rs:359-378 | Copies the stored bytes from an offset, cluster by cluster. |
| `FatFile.FatInode.Read` | kernel/src/fs/fat.rs:315-388 | The exact slice of the contents, whatever the cache holds; the cache then names the true chain element. |
| `FatFile.FatInode.WriteChain` | kernel/src/fs/fat.rs:409-424 | The loop over clusters is one splice into the chain's bytes. |
| `FatFile.FatInode.Store` | kernel/src/fs/fat.rs:403-424 | The chain grows as needed and the bytes are put at the offset. |
| `FatFile.FatInode.UpdateEntry` | kernel/src/fs/fat.rs:1124-1139 | The entry takes the new values; nothing else changes. |
| `FatFile.FatInode.Write` | kernel/src/fs/fat.rs:391-441 | When it succeeds, what it stores, the directory entry, and that nothing elsewhere changes; on failure, what the file reads as, the exact free clusters, and when clusters are lost. |
| `FatFiles.OtherStays` | kernel/src/fs/fat.rs:391-441 | A write leaves every other open file's chain, bytes, directory entry and disjointness as they were. |
| `FatFiles.WrittenAgrees` | kernel/src/fs/fat.rs:426-441 | After a write, failed or not, the directory entry on the volume says the file's first cluster and size. |
| `FatFiles.OpenFiles.Write` | kernel/src/fs/fat.rs:391-441 | Among files that share tables and directories, a write changes the file it is made to and no other. |
| `FatFiles.OpenFiles.Read` | kernel/src/fs/fat.rs:315-388 | A read changes no file. |
| `FatFiles.OpenFiles.Run` | kernel/src/fs/fat.rs:315-441 | Any interleaving of reads and writes: each file is the plain file its own successful writes give, and answers like it, until a write to it ends past 32 bits; entries and chains stay right in every run. |
| `PageTables.KernelReach` | kernel/src/mm/address_space.rs:59-75 | Walks in the kernel's tables depend on these tables only. |
| `PageTables.Isolated` | kernel/src/mm/address_space.rs:327-366 | Changing memory outside a space's own and the kernel's tables changes none of its walks. |
| `PageTables.BranchKeeps` | kernel/src/mm/address_space.rs:349-363 | Copying a branch before editing it changes no walk of the space. |
| `PageTables.EntryKeeps` | kernel/src/mm/address_space.rs:289-312 | Setting a page's entry in its private table changes that page and no other. |
| `Machine.UsableDistinct` | kernel/src/mm/frame_allocator.rs:52-68 | Counting through disjoint regions gives no frame twice. |
| `Machine.UsableExactly` | kernel/src/mm/frame_allocator.rs:52-68 | The usable frames are exactly the whole ones inside usable regions. |
| `Machine.Machine.constructor` | kernel/src/mm/frame_allocator.rs:19-26 | At first every usable frame is free. |
| `Machine.Machine.Allocate` | kernel/src/mm/frame_allocator.rs:28-41 | A frame that was free, or none iff none is. |
| `Machine.Machine.Deallocate` | kernel/src/mm/frame_allocator.rs:43-45 | Any frame is taken; the allocator stays sound iff the frame was given out and is none of the kernel's tables. |
| `Machine.Machine.MapTo` | kernel/src/mm/address_space.rs:289-297 | Contract of the mapper: sets the entry iff it is unused. |
| `Machine.Machine.Unmap` | kernel/src/mm/address_space.rs:298-299 | Contract of the mapper: clears the entry iff it maps a page. |
| `AddressSpace.Undisturbed` | kernel/src/mm/address_space.rs:346-366 | Isolation: changes to frames that are neither the space's nor the kernel's leave its pages, its frames and the kernel's pages as they are. |
| `AddressSpace.AddressSpace.New` | kernel/src/mm/address_space.rs:79-94 | A new space sees exactly the kernel's pages. |
| `AddressSpace.AddressSpace.PrivateStep` | kernel/src/mm/address_space.rs:329-364 | One level: no page leads elsewhere, and the next table is the space's own. |
| `AddressSpace.AddressSpace.MakePrivate` | kernel/src/mm/address_space.rs:327-366 | All tables on the way become the space's own; no page leads elsewhere, also after a failure. |
| `AddressSpace.AddressSpace.SetLeaf` | kernel/src/mm/address_space.rs:289-312 | Map, or unmap and map: succeeds iff the entry is unused or maps a page. |
| `AddressSpace.AddressSpace.MapPage` | kernel/src/mm/address_space.rs:269-325 | The page leads to a zeroed fresh frame with the flags asked for, user access added, and present unless bit 9 stands for no access; every other page leads where it led; only own and free frames change; which error comes when. |
| `AddressSpace.AddressSpace.MapTwice` | kernel/src/mm/address_space.rs:269-325 | Mapping a page again works, frames permitting, iff the first mapping left a present entry that is no large page. |
| `AddressSpace.NoAccessStays` | kernel/src/mm/address_space.rs:273-312 | A page can be mapped again iff its record is present and no larger page; a PROT_NONE page cannot. |
| `AddressSpace.AddressSpace.Rights` | kernel/src/mm/address_space.rs:269-278 | A page is writable only if the latest request for it asked for that, or the kernel's own page is. |
| `AddressSpace.AddressSpace.Clear` | kernel/src/mm/address_space.rs:106-117 | The space sees the kernel's pages again, and its page frames are free. |
| `AddressSpace.AddressSpace.Drop` | kernel/src/mm/address_space.rs:46-56 | Each owned frame is given back exactly once. |
| `AddressSpace.AddressSpace.Fork` | kernel/src/mm/address_space.rs:119-142 | The child's pages are copies in frames of its own; the parent is not disturbed; it fails only for want of frames, as records replay in order, and gives all frames back. |
| `AddressSpace.Spaces.MapPage` | kernel/src/mm/address_space.rs:269-325 | No other space is disturbed. |
| `AddressSpace.SameRecords` | kernel/src/mm/address_space.rs:126-130 | Each of the parent's records can be made after the child's copies of those before it. |
| `AddressSpace.Spaces.Fork` | kernel/src/mm/address_space.rs:119-142 | No space is disturbed. |
| `AddressSpace.Spaces.Exit` | kernel/src/mm/address_space.rs:46-56 | No other space is disturbed. |
| `AddressSpace.Spaces.Run` | kernel/src/mm/address_space.rs:33-366 | Every run keeps all spaces intact, with disjoint frames, each page leading to its latest record or to the kernel's page, and with the rights that were asked for it last. |
| `ModuleLoader.LoadableStep` | kernel/src/module/mod.rs:21-96 | A module can be loaded iff it is known, has not failed, its `init` succeeds and its dependencies can be loaded. |
| `ModuleLoader.CycleIsNotLoadable` | kernel/src/module/mod.rs:39-45 | A module that leads back to itself cannot be loaded. |
| `ModuleLoader.LaterSame` | kernel/src/module/mod.rs:58-70 | What a load has loaded and marked as failed changes nothing about what can be loaded. |
| `ModuleLoader.OneFault` | kernel/src/module/mod.rs:58-93 | There is one module at fault, and one error. |
| `ModuleLoader.SameFault` | kernel/src/module/mod.rs:58-70 | What is loaded before the first failure does not change which module is at fault. |
| `ModuleLoader.ModuleRegistry.Load` | kernel/src/module/mod.rs:21-96 | Ends on every graph, succeeds iff the module can be loaded, touches only modules it leads to, and leaves its callers' marks; the error is that of the first dependency that cannot be loaded, and so on down to the one at fault, or that of `init`; `init` runs after all dependencies are loaded. |
| `ModuleLoader.ModuleRegistry.LoadDependencies` | kernel/src/module/mod.rs:58-70 | Succeeds iff all dependencies can be loaded, and then they are; else the error is that of the first one that cannot. |
| `ModuleLoader.ModuleRegistry.RegisterKnown` | kernel/src/module/registry.rs:31-56 | Refuses invalid and loaded modules; else replaces the known module and clears its failure. |
| `ModuleLoader.ModuleRegistry.Register` | kernel/src/module/mod.rs:104-116 | The module is loaded iff it can be, and else the error says why; nothing that was loaded is lost. |
| `ModuleLoader.ModuleRegistry.FindDependent` | kernel/src/module/registry.rs:132-142 | Some loaded dependent, or there is none. |
| `ModuleLoader.ModuleRegistry.Unload` | kernel/src/module/registry.rs:96-115 | Succeeds iff the module is loaded, nothing loaded depends on it and `cleanup` succeeds. |
| `ModuleLoader.ModuleRegistry.Run` | kernel/src/module/registry.rs:31-115 | Between calls nothing is loading, nothing is both loaded and failed, and dependencies of loaded modules are loaded. |
| `Vfs.NormalizeAbsolutePath` | kernel/src/fs/vfs.rs:727-764 | The string built by appending and cutting at the last slash is the normal form of the path's names; NotFound iff nothing is left after trimming white space. |
| `Vfs.SpacesAre` | kernel/src/fs/vfs.rs:727-731 | What is trimmed are the characters with the Unicode property White_Space. |
| `Vfs.TrimIs` | kernel/src/fs/vfs.rs:727-731 | Trimming takes white space off both ends, and all of it. |
| `Vfs.NormalRefused` | kernel/src/fs/vfs.rs:727-731 | A path is refused iff it is nothing but white space. |
| `Vfs.CleanedPlain` | kernel/src/fs/vfs.rs:742-762 | A path in normal form stays as it is. |
| `Vfs.DotsAreLexical` | kernel/src/fs/vfs.rs:747-756 | Two dots take back a name without looking at it. |
| `Vfs.DotsFirstIsPhysical` | kernel/src/fs/vfs.rs:747-756 | Taking dots back first gives what a walk name by name gives, when no name taken back is missing or a link. |
| `Vfs.DotsAfterName` | kernel/src/fs/vfs.rs:747-756 | For dots right after a name, both agree iff the name is there and leads to a place in its own directory. |
| `Vfs.DotsAfterLink` | kernel/src/fs/vfs.rs:747-756 | A tree and a path where the two differ. |
| `Vfs.PhysicalJoin` | kernel/src/fs/vfs.rs:314-379 | The walk name by name over two lists is the walk over the second from where the first led. |
| `Vfs.CleanedJoin` | kernel/src/fs/vfs.rs:742-762 | What cleaning takes back from the names before a list, and what it leaves of the list. |
| `Vfs.SegmentsAbsolute` | kernel/src/fs/vfs.rs:766-783 | Joining names and splitting again gives the names. |
| `Vfs.CoversIsPrefix` | kernel/src/fs/vfs.rs:667-690 | The string test for a mount holds iff its names are the first names of the path, and the rest of the string holds the others. |
| `Vfs.BestIsDeepest` | kernel/src/fs/vfs.rs:667-679 | No mount that covers the path lies deeper than the chosen one. |
| `Vfs.SelectMount` | kernel/src/fs/vfs.rs:667-679 | The longest covering string is the deepest mount. |
| `Vfs.ResolvePath` | kernel/src/fs/vfs.rs:658-700 | The root of the deepest covering mount, and the names below it. |
| `Vfs.LookupRaw` | kernel/src/fs/vfs.rs:455-463 | The walk over the remaining names from the mount's root. |
| `Vfs.FindLink` | kernel/src/fs/vfs.rs:324-331 | The shortest prefix that is a link, or the first error. |
| `Vfs.ResolveSymlinkPath` | kernel/src/fs/vfs.rs:314-379 | The loop over strings, with its limit, is the resolution on names. |
| `Vfs.TenLinks` | kernel/src/fs/vfs.rs:320-378 | A row of n links, each to the next, resolves iff n is at most ten, and else gives the error for too many. |
| `Vfs.TenLinksFromTheFirst` | kernel/src/fs/vfs.rs:320-378 | So from the first link of the row, with none followed before. |
| `Vfs.LookupPath` | kernel/src/fs/vfs.rs:381-453 | The inode at the resolved path, or at the path as it is. |
| `Vfs.FollowedNames` | kernel/src/fs/vfs.rs:336-371 | The string for a followed link has the names the link stands for, then the rest of the path, iff it does not end in white space. |
| `Vfs.SpaceIsTrimmed` | kernel/src/fs/vfs.rs:336-371 | A link whose target ends in a space leads elsewhere. |
| `Vfs.StartingOverIsRedundant` | kernel/src/fs/vfs.rs:320-378 | Starting over after each link gives what a walk that looks at each name once gives, errors and limit included. |
| `Vfs.ResolvedIsLinkFree` | kernel/src/fs/vfs.rs:314-379 | A resolved path leads through no link. |
| `Vfs.LinkFreeStays` | kernel/src/fs/vfs.rs:314-379 | A path without links resolves to itself, so resolving twice is resolving once. |
| `Cpio.HexRoundTrip` | kernel/src/fs/initrd.rs:226-234 | A written header number reads back. |
| `Cpio.DigitsAre` | kernel/src/fs/initrd.rs:226-234 | Digits are written in lower case and read in both cases. |
| `Cpio.FieldAccepted` | kernel/src/fs/initrd.rs:226-234 | A field is accepted iff it is hexadecimal digits, possibly behind a plus sign. |
| `Cpio.EntryIs` | src/main.rs:459-490 | An entry is the magic, thirteen fields, the name with its end, and the data, with up to three zeros after each part. |
| `Cpio.HeaderFields` | src/main.rs:470-483 | The number in each of the thirteen fields. |
| `Cpio.AppendEntry` | src/main.rs:459-490 | Appends the bytes of one entry, padded to words. |
| `Cpio.Pad4` | src/main.rs:464-468 | Pads to the next multiple of four with zeros. |
| `Cpio.MakeArchive` | src/main.rs:446-457 | The entries in order and then the trailer. |
| `Cpio.EntryRoundTrip` | kernel/src/fs/initrd.rs:172-210 | Reading a written entry gives its name, type and bytes, and where the next one begins. |
| `Cpio.EntryAccepted` | kernel/src/fs/initrd.rs:172-210 | On arbitrary bytes, the reader takes exactly the entries that lie there with a known file type. |
| `Cpio.EntryRefused` | kernel/src/fs/initrd.rs:172-210 | Else an error: not supported iff only the type is unknown. |
| `Cpio.ModeTypeIs` | kernel/src/fs/initrd.rs:244-253 | The four bits of the mode that decide on the type. |
| `Utf8.Utf8IsCharacters` | kernel/src/fs/initrd.rs:199 | The check of a name accepts exactly the encodings of characters, one after the other. |
| `Initrd.NormalizeSplits` | kernel/src/fs/initrd.rs:213-224 | Normalising and splitting a path gives its names, whatever its slashes and dots. |
| `Initrd.SegmentsAre` | kernel/src/fs/initrd.rs:213-224 | The names of a path are the parts between its slashes that are neither empty nor a dot. |
| `Initrd.CanonicalSegments` | kernel/src/fs/initrd.rs:213-224 | Names joined by slashes are taken apart again. |
| `Initrd.InsertFinds` | kernel/src/fs/initrd.rs:280-350 | After an insertion: the new file, every file there was, directories on the way, nothing else. |
| `Initrd.InsertSucceeds` | kernel/src/fs/initrd.rs:280-350 | An insertion fails iff a file is in the way or the name is taken. |
| `Initrd.InsertFails` | kernel/src/fs/initrd.rs:280-350 | Which error: not a directory iff a file is on the way, else it exists already. |
| `Initrd.Parse` | kernel/src/fs/initrd.rs:25-57 | The archive loop against its recursive specification, with all errors. |
| `Initrd.ReadsBack` | kernel/src/fs/initrd.rs:25-57 | The reader builds the tree of the files the writer was given. |
| `Initrd.ArchiveRoundTrip` | src/main.rs:446-490 | The written archive is accepted iff the paths fit into one tree, which then holds exactly these files and bytes. |
| `Initrd.CanonicalRoundTrip` | src/main.rs:446-490 | So for all lists of distinct canonical names, none a path prefix of another and none the trailer. |
| `Dirents.RecordFields` | kernel/src/syscall/impls.rs:151-157 | Inode number, offset, length, type and name of a record read back; the first two in 64 bits. |
| `Dirents.PageFields` | kernel/src/syscall/impls.rs:151-158 | In a page, each record lies where those before it end, with its child's inode number and the position after the child. |
| `Dirents.DecodeRecords` | kernel/src/shell/commands.rs:724-744 | Decoding written records gives names and types in order. |
| `Dirents.WriteRecord` | kernel/src/syscall/impls.rs:151-158 | Writes one record in place and leaves the rest of the buffer. |
| `Dirents.Handle.ReadDir` | kernel/src/fs/memfs.rs:559-585 | The entries from the cursor on, in order, until the visitor wants no more; the cursor moves past them. |
| `Dirents.Handle.GetDents64` | kernel/src/syscall/impls.rs:111-165 | Whole records, as many as fit; the position moves past them; both error codes. |
| `Dirents.StopAfterPage` | kernel/src/syscall/impls.rs:145-149 | A page break does not move the end of the listing. |
| `Dirents.NothingTooLarge` | kernel/src/syscall/impls.rs:145-149 | 280 bytes hold every record. |
| `Dirents.DecodePage` | kernel/src/shell/commands.rs:724-744 | The inner loop against its specification, on arbitrary bytes. |
| `Dirents.ReadDirents` | kernel/src/shell/commands.rs:708-748 | Each entry once, in order, with name and type, up to the first that is larger than the buffer; with 280 bytes, all. |
| `Dirents.DirectoriesAreListable` | kernel/src/fs/memfs.rs:559-585 | Every directory of a valid in-memory filesystem lists valid names of inodes that are there. |
| `Dirents.ListDirectory` | kernel/src/shell/commands.rs:708-748 | For every such directory, 280 bytes give each child's name and type once, in order; both error codes. |
| `Dirents.ListsAllIff` | kernel/src/syscall/impls.rs:145-149 | The listing is complete iff every record fits the buffer. |
| `Dirents.BufferTooSmall` | kernel/src/syscall/impls.rs:145-149 | An input at which it is not. |

## Left out

- Locks: each operation is one atomic step, and nothing is claimed about lock acquisition.
- Mounting and unmounting, descriptor tables, reference counts and open files in kernel/src/fs/vfs.rs: not
  modelled.
- Vfs.DotsFirstIsPhysical: one way only; where a name taken back is missing or a link the two can still agree by
  chance, and `Vfs.DotsAfterName` says exactly when for dots right after a name.
- The inode of a path is what the filesystems answer, and does not change during a lookup.
- Owners, modes and times of inodes: not modelled.
- Inode numbers of memfs come from one counter for each filesystem here; in the kernel all filesystems share it.
- Memfs pages and FAT chains as values: page lists are passed to and returned from methods, so aliasing of page
  frames is not captured.
- FAT directories, long and short names, `create` and `lookup` in kernel/src/fs/fat.rs: a file is opened with
  its chain and the place of its entry.
- FAT volumes that are not well formed, broken chains and device errors; more than one open object for a file.
- The bytes of a FAT directory entry are found at a place given to `Open`; searching for it is not modelled.
- FatVolume.Volume.Mount: starts from the layout; reading the boot sector and making the root inode are not
  modelled.
- FatFiles.OpenFiles.Run: the contents of a file are followed only until a write to it ends past 32 bits, as its
  old bytes then lie past its size; `FatFile.FatInode.Write` says what such a write does.
- Machine.Machine.Allocate: memory for the list of recycled frames, `try_reserve` and `enable_recycling`, is not
  modelled.
- A machine whose physical offset or kernel root is not set.
- The inside of the x86_64 crate's mapper: `Machine.MapTo` and `Machine.Unmap` carry its contract for paths
  whose tables exist.
- Effective rights of a page: a private copy gives its upper entries all rights, so only the page's own entry
  limits them. Page entries are proved, their product over the levels is not.
- `map_segment`, `map_zeroed_region`, `write_bytes` of address spaces, TLB flushes and `activate`: not modelled.
- Scheduler.Scheduler.SwitchToPid: whether the saved context is valid is a parameter, and its repair is not
  modelled.
- Signals, `wake_one_tty_waiter`, the sleep between rounds of `wait_for_child`, and context switching.
- Tasks and their accounting are values in the queue: updates in place through references are modelled as
  replacing them.
- Module `init` and `cleanup` that call back into the registry: they are outcomes given from outside.
- The tree that the initrd reader builds is a value: inserting gives a new tree, so a partly changed tree after
  an error is not captured.
- Strings are their UTF-8 bytes; the lossy conversion in `read_dirents` is the identity on them and left out.
- Integer overflow of addresses and sizes beyond 64 bits, except where the code checks for it.
- Drivers, interrupts, consoles, ELF loading, procfs and the disk-image tools.
