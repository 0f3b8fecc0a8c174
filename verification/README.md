# OpenOS kernel models

A Dafny model of the parts of OpenOS (a small x86_64 kernel) whose correctness rests on an invariant, with proofs of
what those parts promise. Imperative source code is modelled by classes and methods with loops, proved against
specification functions; step systems are used where several CPUs, tasks or a device interleave.
`dafny verify dfyconfig.toml` verifies the whole project.

| file | models |
|---|---|
| `Bytes.dfy`, `Bits.dfy` | little-endian fields, splices and bitmaps shared by the other files |
| `BlockCache.dfy`, `BlockIo.dfy` | the 64-slot write-back sector cache, and 1024-byte blocks over it |
| `Ext2Layout.dfy`, `Ext2Tree.dfy`, `Ext2Growth.dfy`, `Ext2Content.dfy`, `Ext2Release.dfy` | ext2: groups and bitmaps, the direct/single/double/triple indirect pointer tree as a set of paths, growing it, the bytes of a file, and freeing it |
| `Ext2Space.dfy`, `Ext2Survival.dfy`, `Ext2Failure.dfy` | when ext2 finds no free block, what is left of a file when a write runs out of space, what a failed write can have changed, and what a write means for other files |
| `Ext2Inode.dfy`, `Ext2Dir.dfy`, `Ext2Directory.dfy` | inode encoding and slots, directory records in one block, whole directories |
| `Ext2Fs.dfy` | the ext2 driver itself, over a block store that may fail |
| `FrameAlloc.dfy`, `Dma.dfy` | physical frames and contiguous DMA buffers |
| `PageTree.dfy`, `PageTable.dfy` | the 4-level page table (section 4.5 of the Intel SDM, volume 3A) as a tree of tables, and map/unmap/protect on it |
| `Shm.dfy` | System V shared memory segments |
| `Elf.dfy`, `ElfPage.dfy`, `ElfMemory.dfy`, `ElfLoader.dfy` | program headers and the overlap check; the pages of a segment and the frames they take; physical memory during a load; the loader with its callback |
| `IntMutex.dfy` | the interrupt-safe spinlock as interleaved steps of CPUs and interrupt handlers |
| `VirtQueue.dfy`, `VirtioBlock.dfy` | the split virtqueue (section 2.6 of VirtIO 1.1; the source comment says 1.0) and one-sector requests |
| `FileLock.dfy` | advisory file locks |
| `Handles.dfy` | packed capability handles and the handle table |
| `Initrd.dfy` | the ramdisk archive: parser and packer |

How the outside is modelled:

- A device is a map from sector numbers to sectors. `faulty` says whether its operations may fail (the model then
  chooses freely); contracts say that an operation fails only if the store may fail, or space ran out. For ext2, "space
  ran out" is `ShortBy(geo, disk, n)`: taking fewer than n free blocks of the disk before the call leads to a disk on
  which alloc_block finds none, where n bounds the blocks that the operation takes.
- ext2 images have 1024-byte blocks and are well formed: bitmaps, inode tables and data do not overlap
  (`Geometry.Distinct`), and the inode size divides the block size (`SlotsTile`).
- Clocks, logging, memory fences, TLB flushes and the spinning of wait loops have no effect on the modelled state.

## Findings

Places where the source does less than its comments or a reader might expect; each has a lemma or a clause.

- `init_from_memory_map` rounds a range to page boundaries but always takes 8192 frames, so a range off the page
  boundaries can be overrun (`RegionOutsideRange`; exact condition in `RegionInsideRange`).
- `Inode::to_bytes` writes zeros over the fields that `Inode` does not keep; a rewrite is lossless exactly when they
  were zero (`RewriteLossless`).
- `alloc_block` gives up at the first group whose lowest clear bitmap bit lies past its blocks, without looking at
  later groups: `LostSpace` is a volume with a free block on which it finds none. It finds none exactly under
  `NoSpace`. When every group claims free blocks and the bits past its blocks are set, no free block is missed
  (`ShortMeansFew`).
- The block cache's comments describe flushing dirty entries on eviction; a dirty slot is never chosen as a victim.
- `map_page` runs out of frames exactly when more tables are missing than frames are free; it then leaves empty tables
  behind exactly when some frame was free (`MapPage`, `OutOfMemoryExample`). Translations are unaffected. With flags
  that lack PRESENT it leaves an empty table exactly when a table was missing.
- `shmget` that runs out of frames takes and loses every free frame (`ShmGet`, `LeakExample`). Segment ids repeat after
  2^32 creations; a creation keeps the table consistent exactly when its id is not in use (`ReusedId`).
- `cleanup_task_attachments` is not called when a process exits (kernel/src/task/scheduler.rs:704-735), and the exit
  frees every mapped frame, shared ones included (kernel/src/task/user.rs:401-493). The reference counts stay right
  exactly when the process had nothing attached, and the segments' frames exactly when no page of an attachment lies
  below a P4 entry that the exit walks (`ExitCounts`, `ExitFrames`, `ExitFreesNone`).
- `load_elf` writes past the frame of a segment's first page exactly when that page is copied and does not fit
  (`WritesOutsideIff`, `CopyLeavesPage`). The load's own pages are right all the same. Memory outside the load's frames
  and the page tables is kept exactly when each such copy does no harm, which is known before the load: the load takes
  the next frame too, or the bytes there are the copied ones already (`KeepsOutsideIff`). `load_elf` skips mapping a page
  when the file offset arithmetic overflows (`OverflowSkips`).
- The callbacks that `load_elf` is given take page-table frames from the same allocator and panic when there is none
  (kernel/src/task/user.rs:229-325): a load that lacks frames ends in an error or in a panic, depending on whether they
  run out at a page or inside the callback (`LoadElf`).
- `read_inode_data` cuts the logical block number to 32 bits, so positions from 4 TiB on read as positions modulo 4 TiB
  (`ReadInodeData`).
- `IntMutex` guards dropped in an order other than last-in-first-out can turn interrupts on under a held lock
  (`FifoDropUnmasks`; exact condition in `DropIsSafeIff`).
- Handles repeat after 2^28 insertions and from then on lead to another slot (`HandlesRepeat`,
  `FullTableAliases`). The comment in the source puts the bound at the generation counter.
- The ramdisk parser's comment says 268 bytes per entry; the code, followed here, uses 264.

## Model

| member | source | states |
|---|---|---|
| `SectorCache.BlockCache.ReadCached` | kernel/src/fs/block_cache.rs:140-179 | returned data is the view (cached data, else the device's sector); the view of every sector is unchanged even by evictions; a missing sector is cached in the oldest clean slot; nothing is returned only if the store failed, the sector does not exist or all 64 slots are dirty |
| `SectorCache.BlockCache.WriteCached` | kernel/src/fs/block_cache.rs:189-222 | the view changes at one key only; refused exactly when the key is not cached and all slots are dirty; the device is not touched |
| `SectorCache.BlockCache.FlushAll` | kernel/src/fs/block_cache.rs:229-248 | the view never changes even when writes fail; the result is the number of slots still dirty; it is positive only if the store can fail or a dirty sector does not exist |
| `SectorCache.BlockCache.FindLruVictim` | kernel/src/fs/block_cache.rs:106-123 | an unused slot, else the clean slot with the lowest stamp; none exactly when all slots are dirty (until the counter reaches its maximum) |
| `SectorCache.LowestStampOldest` | kernel/src/fs/block_cache.rs:88-123 | the clean slot with the lowest stamp is the one whose last access in the whole history of accesses is oldest |
| `SectorCache.ViewAfterReplace` | kernel/src/fs/block_cache.rs:158-176 | replacing a clean or own slot shows the new data at its key and every other key as before |
| `SectorCache.CoherentAfterReplace` | kernel/src/fs/block_cache.rs:158-176 | no key comes to be in two slots, and clean slots keep agreeing with the device |
| `BlockIo.ReadBlock` | kernel/src/fs/ext2.rs:437-459 | a block read through the cache is its two sectors as shown; what is shown does not change |
| `BlockIo.WriteBlock` | kernel/src/fs/ext2.rs:462-474 | a written block is shown as written, other blocks as before; a failure leaves the block old or with its first half written, and happens only when all slots are dirty; it does happen when they are and the first sector is not cached (until the counter reaches its maximum) |
| `Ext2Files.Ext2Fs.ResolveBlock` | kernel/src/fs/ext2.rs:521-554 | the pointer at the tree path of a logical block, 0 if unmapped; beyond the tree only an empty triple slot resolves |
| `Ext2Files.Ext2Fs.ReadIndirect` | kernel/src/fs/ext2.rs:557-567 | the entry of a pointer block, 0 for an absent one |
| `Ext2Files.Ext2Fs.ReadDoubleIndirect` | kernel/src/fs/ext2.rs:570-585 | the entry two levels down |
| `Ext2Files.Ext2Fs.ReadTripleIndirect` | kernel/src/fs/ext2.rs:588-603 | the entry three levels down |
| `Ext2Tree.PathOfInjective` | kernel/src/fs/ext2.rs:521-554 | different logical blocks have different tree positions |
| `Ext2Tree.PathOfSurjective` | kernel/src/fs/ext2.rs:521-554 | every leaf position is the position of some logical block |
| `Ext2Files.Ext2Fs.AllocBlock` | kernel/src/fs/ext2.rs:951-1001 | the block was free, is the lowest free one among groups that claim free blocks, and only its bit changes; unless the store fails, none is found exactly when the scan passes all groups or stops at one without a free block |
| `Ext2Space.LostSpace` | kernel/src/fs/ext2.rs:958-990 | a well-formed volume with a free block on which the scan stops in the group before |
| `Ext2Space.ShortMeansFew` | kernel/src/fs/ext2.rs:951-1001 | if every group claims free blocks and the bits past its blocks are set, an operation that needs at most n blocks runs short only when fewer than n are free |
| `Ext2Layout.UsedAfterMark` | kernel/src/fs/ext2.rs:951-1029 | marking a block changes the used state of that block only |
| `Ext2Files.Ext2Fs.SetBlockPointer` | kernel/src/fs/ext2.rs:819-864 | as seen by lookups a map update at one logical block: every other position keeps its pointer, at most three new pointer blocks come from free blocks, all tree blocks stay distinct, owned and marked used; it fails only on a store failure or when fewer than three blocks can still be allocated from the disk before the call, and then no block outside the file has changed; without a store failure the tree of the given pointers is then still well formed, with the same data blocks and contents |
| `Ext2Files.Ext2Fs.SetDoubleIndirectEntry` | kernel/src/fs/ext2.rs:875-893 | the same map update below a level-2 pointer block, with at most one new block |
| `Ext2Files.Ext2Fs.SetTripleIndirectEntry` | kernel/src/fs/ext2.rs:896-914 | the same map update below a level-3 pointer block, with at most two new blocks |
| `Ext2Files.Ext2Fs.WriteIndirectEntry` | kernel/src/fs/ext2.rs:867-872 | one entry of one pointer block changes; a failure can only have changed that block |
| `Ext2Content.MappedIsMapUpdate` | kernel/src/fs/ext2.rs:521-554 | the tree after a pointer update resolves the given logical block to the new block and every other one as before |
| `Ext2Growth.MappedStep` | kernel/src/fs/ext2.rs:819-914 | linking a fresh pointer block and then updating below it is again one map update |
| `Ext2Files.Ext2Fs.ReadInodeData` | kernel/src/fs/ext2.rs:706-750 | exactly the file's bytes from the offset, cut at the file size, with positions taken modulo 4 TiB; holes read as zeros; it fails only on a store failure, a tree that points outside the disk, or positions past the tree under a nonempty triple slot |
| `Ext2Files.Ext2Fs.WriteInodeData` | kernel/src/fs/ext2.rs:753-814 | written bytes read back, bytes of blocks mapped before and of blocks still unmapped are as before, size becomes max(old, offset + length); the inode is stored, other inodes and blocks outside the file are unchanged; the file only grows, by at most four free blocks for each block touched; it fails only on a store failure, for an inode number without a slot or when that many blocks cannot be allocated, and then nothing outside the file has changed but the block of the inode's slot; if it only ran out of space, nothing outside the file has changed at all and the file survives as its stored inode shows it |
| `Ext2Survival.SurvivedStuck` | kernel/src/fs/ext2.rs:764-797 | after a write that ran out of space the tree of the old pointers is well formed and only grew, a prefix of the data is written where it is mapped, and fewer blocks were taken than the write may need |
| `Ext2Survival.SurvivedOutside` | kernel/src/fs/ext2.rs:764-797 | then bytes outside the written range are as before, in blocks mapped before and in blocks still unmapped |
| `Ext2Survival.StuckBelowRoot` | kernel/src/fs/ext2.rs:819-864 | set_block_pointer that runs out of space below a fresh indirect block leaves the stored tree well formed with the same data blocks |
| `Ext2Failure.OtherContentKept` | kernel/src/fs/ext2.rs:753-814 | a write, finished or failed, leaves the tree and every byte of every other file whose blocks are disjoint from the written file's as they were |
| `Ext2Failure.OtherTreeKept` | kernel/src/fs/ext2.rs:753-814 | after a finished write every such file is still well formed and still shares no block with the grown file |
| `Ext2Files.Ext2Fs.WriteBytes` | kernel/src/fs/ext2.rs:764-797 | the copy loop keeps the written prefix readable and the rest of the file as it was, and takes at most four blocks for each block touched; a failure leaves everything outside the file as it was, and lack of space leaves the file well formed under its old pointers with a prefix of the data written |
| `Ext2Content.WrittenByMap` | kernel/src/fs/ext2.rs:772-780 | mapping a new block changes no byte of the file outside that block |
| `Ext2Content.WrittenByData` | kernel/src/fs/ext2.rs:782-797 | storing a chunk extends the written prefix and changes no other byte |
| `Ext2Files.Ext2Fs.FreeBlock` | kernel/src/fs/ext2.rs:1004-1029 | clears the block's bit and records a double free if it was clear |
| `Ext2Files.Ext2Fs.FreeInodeBlocks` | kernel/src/fs/ext2.rs:1278-1346 | clears exactly the bits of the blocks in the file's tree, each of them set until then (no double free) |
| `Ext2Files.Ext2Fs.WriteAllThenFree` | kernel/src/fs/ext2.rs:753-1346 | any successful sequence of writes followed by freeing leaves used exactly the blocks used before that were not in the file; from an empty inode the block bitmaps are restored bit for bit; it fails only on a store failure, without a slot, or when the blocks all writes may need cannot be allocated |
| `Ext2Release.SubtreeSplit` | kernel/src/fs/ext2.rs:1278-1346 | a subtree is its root block and the subtrees of its entries, which the nested loops free |
| `Ext2Release.FreeUndoesGrowth` | kernel/src/fs/ext2.rs:753-1346 | freeing the grown tree of a file gives back all blocks it took |
| `Ext2Inode.InodeRoundTrip` | kernel/src/fs/ext2.rs:267-331 | an inode encoded and decoded is the same inode |
| `Ext2Inode.RewriteLossless` | kernel/src/fs/ext2.rs:267-331 | decoding and encoding 128 stored bytes gives them back exactly when the bytes no field covers are zero |
| `Ext2Inode.SlotsDisjoint` | kernel/src/fs/ext2.rs:480-514 | different inode numbers have disjoint 128-byte slots inside the inode tables |
| `Ext2Inode.InodeAtWithInode` | kernel/src/fs/ext2.rs:917-945 | after storing inode n, n reads as stored and every other inode as before |
| `Ext2Files.Ext2Fs.ReadInode` | kernel/src/fs/ext2.rs:480-514 | the inode in the slot of its number; fails only for numbers without a slot, absent blocks or a store failure |
| `Ext2Files.Ext2Fs.WriteInode` | kernel/src/fs/ext2.rs:917-945 | only the slot of that inode changes; a failure can only have changed the block of the slot |
| `Ext2Dir.AddInBlock` | kernel/src/fs/ext2.rs:1113-1215 | the block stays tiled by records and its live list gains exactly the entry, by splitting a record's slack or reusing a dead record; none exactly when no record has room |
| `Ext2Dir.RemoveInBlock` | kernel/src/fs/ext2.rs:1218-1275 | the block stays tiled and its live list loses exactly the first entry with that name; its record is merged into the record before it exactly when that one is dead, and marked dead otherwise |
| `Ext2Dir.LaidUnique` | kernel/src/fs/ext2.rs:606-662 | a block is tiled by records in one way only |
| `Ext2Directory.ParseBlock` | kernel/src/fs/ext2.rs:620-660 | the visible live entries of one block, in order |
| `Ext2Files.Ext2Fs.ReadDirEntries` | kernel/src/fs/ext2.rs:606-662 | the visible entries of all blocks in order |
| `Ext2Files.Ext2Fs.FindEntry` | kernel/src/fs/ext2.rs:665-673 | the inode of the first visible entry with the name, or none if there is none |
| `Ext2Files.Ext2Fs.AddDirEntry` | kernel/src/fs/ext2.rs:1113-1215 | the listing gains exactly the entry at one place; the directory grows by a block exactly when no block had room, and then nothing outside it changes but its inode; a failure has changed nothing outside it but the block of its inode's slot; if it only ran out of space the directory lists the same entries |
| `Ext2Files.Ext2Fs.RemoveDirEntry` | kernel/src/fs/ext2.rs:1218-1275 | the listing loses exactly the first entry with the name, whose inode is returned; if there is none nothing changes |
| `Ext2Directory.GrowListing` | kernel/src/fs/ext2.rs:1194-1215 | a new last block appends exactly the entry it holds |
| `Ext2Directory.RewriteListing` | kernel/src/fs/ext2.rs:1113-1275 | rewriting one block changes its part of the listing only |
| `FrameAlloc.FrameAllocator.Init` | kernel/src/frame_alloc.rs:88-108 | the region keeps its bounds; exactly the first 256 frames are reserved |
| `FrameAlloc.FrameAllocator.InitFromMemoryMap` | kernel/src/frame_alloc.rs:119-204 | the first largest usable range above 32 MiB is chosen, else the default region; 8192 frames from its first page; reserved frames only below 2 MiB |
| `FrameAlloc.RegionInsideRange` | kernel/src/frame_alloc.rs:155-195 | the chosen region stays inside its range exactly when the range has 8192 whole pages; page-aligned ranges do |
| `FrameAlloc.RegionOutsideRange` | kernel/src/frame_alloc.rs:155-195 | a range off the page boundaries whose region runs past its end |
| `FrameAlloc.FrameAllocator.AllocFrame` | kernel/src/frame_alloc.rs:247-275 | the lowest free frame, aligned and inside the region, so outstanding frames are distinct and the bounds assertion holds; none exactly when all are used |
| `FrameAlloc.FrameAllocator.FreeFrame` | kernel/src/frame_alloc.rs:302-330 | frees exactly that frame; addresses outside the region are ignored |
| `FrameAlloc.TakenIff` | kernel/src/frame_alloc.rs:247-275 | over any number of allocations a frame that was free is taken exactly when more frames were taken than were free below it |
| `Dma.AllocDma` | kernel/src/memory/dma.rs:125-189 | takes exactly n consecutive frames or leaves the bitmap unchanged; succeeds exactly for valid requests whose lowest free frames are consecutive and below the limit; on success exactly the buffer is zeroed, otherwise no memory changes |
| `Dma.FreeDma` | kernel/src/memory/dma.rs:351-358 | frees the run, giving back the bitmap before the allocation |
| `Dma.AllocThenFree` | kernel/src/memory/dma.rs:125-358 | allocating and freeing restores the bitmap |
| `PageTables.PageTable.MapPage` | kernel/src/memory/pagetable.rs:123-217 | on success translate changes for exactly that page (for none if the flags lack PRESENT) and present entries stay; on every error, including running out of frames halfway down, translate is unchanged for all addresses; each error exactly when; AlreadyMapped and InvalidAddress change nothing at all; running out of frames leaves tables behind, which are empty, exactly when a frame was free; success leaves no empty table exactly when the flags include PRESENT or no table was missing |
| `PageTables.OutOfMemoryExample` | kernel/src/memory/pagetable.rs:142-206 | mapping below an absent P3 table with one free frame fails and leaves an empty table |
| `PageTables.PageTable.WalkOrCreate` | kernel/src/memory/pagetable.rs:142-206 | the table behind an entry, created from a free frame if absent; no mapping changes |
| `PageTables.PageTable.UnmapPage` | kernel/src/memory/pagetable.rs:229-309 | succeeds exactly for aligned pages with a page entry, returns their frame, and translate changes for exactly that page; errors change nothing; no empty table below the root remains if there was none; frames of removed tables are freed while in use |
| `PageTables.PageTable.Reclaim` | kernel/src/memory/pagetable.rs:48-70 | a table is unlinked and its frame freed exactly when it is empty; no mapping changes, and at most its parent becomes empty |
| `PageTables.PageTable.ProtectPage` | kernel/src/memory/pagetable.rs:409-458 | succeeds exactly for aligned mapped pages; the page entry keeps its frame and gets the flags; translate is unchanged for all addresses, except that the page stops translating if the flags lack PRESENT; no empty table arises exactly when they include PRESENT or the page's table has another page; errors change nothing |
| `PageTables.PageTable.TranslateWalk` | kernel/src/memory/pagetable.rs:315-365 | the walk computes the flat translation, including 1 GiB and 2 MiB pages |
| `PageTables.PageTable.FindFreeRange` | kernel/src/memory/pagetable.rs:377-400 | the lowest run of unmapped pages from the rounded hint below the user limit, or none if there is none |
| `PageTables.PageTable.MapThenUnmap` | kernel/src/memory/pagetable.rs:123-309 | from a tree without empty tables, mapping and unmapping a page restores every entry, every table and the set of allocated frames |
| `PageTree.SamePageSameWalk` | kernel/src/memory/pagetable.rs:137-140 | two addresses walk to the same page entry exactly when they have the same page number |
| `PageTree.OnePageTranslate` | kernel/src/memory/pagetable.rs:315-365 | changing one page entry changes the translation of that page only |
| `PageTree.SameEntries` | kernel/src/memory/pagetable.rs:229-309 | trees without empty tables that map the same pages with entries of a common tree are equal |
| `PageTree.LinkTable` | kernel/src/memory/pagetable.rs:142-206 | linking an empty table at a free frame adds just that table to the tree |
| `PageTree.UnlinkTable` | kernel/src/memory/pagetable.rs:63-70 | clearing the entry of an empty table removes just that table |
| `Shm.SharedMemory.ShmGet` | kernel/src/ipc/shm.rs:38-94 | an existing unmarked key yields its segment or AlreadyExists; otherwise a new segment of whole pages under the next id with frames that were free; each error exactly when; out of memory exactly when fewer frames are free than pages are needed, and then exactly the free frames are taken and lost; the state is consistent afterwards exactly unless a segment was created under an id in use, which cannot happen in the first 2^32 - 1 creations |
| `Shm.SharedMemory.ShmAt` | kernel/src/ipc/shm.rs:97-139 | one attachment and one reference more, or no change |
| `Shm.SharedMemory.ShmDt` | kernel/src/ipc/shm.rs:142-188 | the caller's first attachment at the address goes; a marked segment goes with its last attachment, freeing exactly its frames |
| `Shm.SharedMemory.MarkRemoval` | kernel/src/ipc/shm.rs:191-207 | an unattached segment is removed and its frames freed at once, an attached one is marked |
| `Shm.SharedMemory.CleanupTask` | kernel/src/ipc/shm.rs:210-243 | exactly that process's attachments go; only marked segments disappear; counts and frames stay consistent |
| `Shm.ExitCounts` | kernel/src/task/scheduler.rs:704-735 | an exit that does not clean up attachments keeps the counts right exactly when the process had none |
| `Shm.ExitFrames` | kernel/src/task/user.rs:401-493 | an exit frees the private pages, the page tables and every mapped shared page that is not below a P4 entry shared with the kernel; the segments' frames stay allocated exactly when no shared page is among these; a page that is has a free frame while its segment owns it |
| `Shm.ExitFreesNone` | kernel/src/task/user.rs:401-493 | a process whose attachments lie below P4 entries of its own frees no shared page exactly when it has no attachment |
| `Shm.DetachedOk` | kernel/src/ipc/shm.rs:172-186 | after a detach every count is again the number of live attachments over all tasks, and no marked segment is left unattached |
| `Shm.CreatedOk` | kernel/src/ipc/shm.rs:43-93 | a new segment keeps nonzero keys unique among unmarked segments |
| `Shm.FramesAdd` | kernel/src/ipc/shm.rs:60-93 | a new segment takes over frames no other segment has |
| `Shm.FreedExactly` | kernel/src/ipc/shm.rs:180-186 | removing a segment frees exactly its frames |
| `Shm.ReusedId` | kernel/src/ipc/shm.rs:74-92 | a creation keeps table, counts and frames consistent exactly when its id is not in use |
| `Shm.ReusedCounts` | kernel/src/ipc/shm.rs:74-92 | creating under an id in use keeps the counts right exactly when nothing is attached to it |
| `Shm.ReusedFrames` | kernel/src/ipc/shm.rs:74-92 | creating under an id in use loses the frames of the segment that was there, attached or not |
| `Shm.LeakExample` | kernel/src/ipc/shm.rs:60-72 | a request for two pages with one frame free fails and the frame is lost |
| `Elf.ParseProgramHeader` | kernel/src/elf.rs:294-320 | succeeds exactly when the header lies inside the input; its fields fit 64 bits |
| `Elf.ProgramHeaderRoundTrip` | kernel/src/elf.rs:294-320 | parsing the ELF64 layout of a header gives the header back |
| `Elf.CheckSegments` | kernel/src/elf.rs:347-378 | succeeds exactly when all headers are valid and no two segments share a page; otherwise the error is exactly that of the first header that does not pass; the collected ranges are those of the segments |
| `ElfLoader.Loader.LoadPage` | kernel/src/elf.rs:405-463 | the lowest free frame receives the page's bytes; memory outside it changes only where the copy runs past it; map_page is called for it unless the offset arithmetic overflows; out of memory exactly when no frame is free |
| `ElfLoader.Loader.LoadElf` | kernel/src/elf.rs:343-464 | for every callback that takes frames of the same allocator and writes only in page tables: on success no two segments share a page, exactly their pages are mapped, each once and with its permissions; on every outcome the frames of the mapped pages hold the page contents, and memory outside the frames that were allocated and the page tables changes only where a first page does not fit its frame; each end exactly when: the first header that does not pass decides between invalid and overlapping; otherwise the page or the callback at which the free frames run out, counting both, decides between out of memory and a panic of the callback |
| `ElfLoader.Loader.Callback` | kernel/src/task/user.rs:229-325 | takes its frames lowest first, changes memory in page tables only, and runs out exactly when fewer frames are free than it needs |
| `ElfMemory.ImageCorrect` | kernel/src/elf.rs:380-464 | every address of a segment with its file range inside the input is mapped by one call, to the file byte at vaddr + k for k < filesz and to zero up to the page ends, whatever the other segments are |
| `ElfPage.WritesOutsideIff` | kernel/src/elf.rs:420-457 | loading some page of a segment can change memory outside the frame of that page exactly when the segment's first page is copied and does not fit |
| `ElfMemory.KeepsOutsideIff` | kernel/src/elf.rs:380-464 | a successful load leaves all memory outside its frames and the page tables as it was exactly when, for every segment whose first page is copied and does not fit: the frame behind the one that this page will get is free and the load takes more frames after it, or the memory there outside the page tables holds the copied bytes already |
| `ElfPage.CopyLeavesPage` | kernel/src/elf.rs:436-457 | a segment of 16 bytes whose copy puts its last 8 bytes behind its frame |
| `ElfPage.OverflowSkips` | kernel/src/elf.rs:424-434 | a segment whose page is never mapped |
| `ElfPage.FailsHow` | kernel/src/elf.rs:405-463 | the page at which the frames run out is unique and decides how the load ends |
| `IntMutexes.LifoRunsSafe` | kernel/src/sync.rs:86-162 | in every interleaving of CPUs, interrupts and LIFO guard drops: one holder per mutex, holders have interrupts off so no handler can start, no wait for an interrupted context, and the last drop restores the flag |
| `IntMutexes.InvStep` | kernel/src/sync.rs:86-162 | every instruction of lock and unlock, every interrupt and return keeps the invariant |
| `IntMutexes.OutermostRestores` | kernel/src/sync.rs:86-129 | from a lock without guards to the next rest without guards, whatever interleaves, the interrupt flag is as before |
| `IntMutexes.DropIsSafeIff` | kernel/src/sync.rs:117-162 | a drop leaves interrupts off for the remaining guards exactly when it is not the first of several guards taken with interrupts on |
| `IntMutexes.FifoDropUnmasks` | kernel/src/sync.rs:117-162 | two guards dropped first-in-first-out leave a mutex held with interrupts on |
| `VirtQueues.VirtQueue.constructor` | kernel/src/drivers/virtio.rs:318-365 | the free list is the chain of all 16 descriptors |
| `VirtQueues.VirtQueue.AllocDesc` | kernel/src/drivers/virtio.rs:416-427 | takes the head of the free chain; fails exactly when none is free; the rest of the chain is intact |
| `VirtQueues.VirtQueue.FreeDesc` | kernel/src/drivers/virtio.rs:434-438 | the descriptor heads the chain again, one more is free |
| `VirtQueues.VirtQueue.Submit` | kernel/src/drivers/virtio.rs:447-461 | appended to the submissions; no submission the device has yet to fetch is overwritten, across index wraparound |
| `VirtQueues.VirtQueue.PollUsed` | kernel/src/drivers/virtio.rs:467-477 | returns completion number k on the k-th success, so each once and in order; none exactly when all were returned |
| `VirtQueues.AvailAfterSubmit` | kernel/src/drivers/virtio.rs:447-461 | the ring still holds every unfetched submission after one more |
| `VirtQueues.UsedAfterComplete` | kernel/src/drivers/virtio.rs:467-477 | the ring still holds every unpolled completion after one more |
| `VirtQueues.WrapEqual` | kernel/src/drivers/virtio.rs:470-475 | counters at most 16 apart are equal exactly when their 16-bit forms are |
| `VirtioBlock.ParsesBack` | kernel/src/drivers/virtio_block.rs:172-236 | the device reads from the descriptors and the buffer exactly the request that was asked for |
| `VirtioBlock.BlockDriver.TakeThree` | kernel/src/drivers/virtio_block.rs:160-170 | three descriptors or none; a partial allocation is given back |
| `VirtioBlock.BlockDriver.DoSectorIo` | kernel/src/drivers/virtio_block.rs:155-278 | on every exit the number of free descriptors is as before and no request is pending; success transfers exactly that sector, failure changes neither the disk nor the caller's data and happens only with too few descriptors, for a missing sector or on a device failure |
| `FileLocking.FileLocks.Flock` | kernel/src/fs/file_lock.rs:84-94 | each operation's answer and effect; unknown operations change nothing |
| `FileLocking.FileLocks.AcquireShared` | kernel/src/fs/file_lock.rs:100-158 | granted exactly when the caller holds a lock or nobody holds it exclusively; otherwise no change |
| `FileLocking.FileLocks.TryAcquireShared` | kernel/src/fs/file_lock.rs:302-337 | same answer and same next state as the non-blocking acquire |
| `FileLocking.FileLocks.AcquireExclusive` | kernel/src/fs/file_lock.rs:163-229 | granted exactly when no other task holds a lock, including the upgrade; otherwise no change |
| `FileLocking.FileLocks.TryAcquireExclusive` | kernel/src/fs/file_lock.rs:340-382 | same answer and same next state as the non-blocking acquire |
| `FileLocking.FileLocks.ReleaseLock` | kernel/src/fs/file_lock.rs:233-272 | exactly the caller's record goes, and the state is consistent |
| `FileLocking.FileLocks.ReleaseAllForTask` | kernel/src/fs/file_lock.rs:388-411 | equals releasing on every file |
| `FileLocking.StepFollows` | kernel/src/fs/file_lock.rs:84-411 | each atomic step follows the rule of advisory locks in terms of who holds what, and keeps count, pids, exclusivity and lock type consistent |
| `FileLocking.RunsFollow` | kernel/src/fs/file_lock.rs:84-411 | so does every interleaving of acquires, retries, upgrades, releases and task exits; an exclusive holder is the only holder |
| `Handles.PackUnpack` | kernel/src/handle.rs:146-176 | each field reads back, cut to its width |
| `Handles.UnpackPack` | kernel/src/handle.rs:146-176 | a 64-bit handle is its three fields |
| `Handles.NarrowedIsIssued` | kernel/src/handle.rs:186-192 | with_rights keeps the object and never adds rights |
| `Handles.DuplicateOk` | kernel/src/handle.rs:421-452 | the duplicate is a new handle to the same object with rights within the original's |
| `Handles.HandleForLife` | kernel/src/handle.rs:380-452 | over any run within 2^28 insertions an issued handle resolves to its own object exactly as long as no operation closes its slot, and to nothing for good afterwards, with rights within those of the original insert |
| `Handles.CloseRejects` | kernel/src/handle.rs:404-413 | a closed handle is rejected and no other issued handle is affected |
| `Handles.FullTableAliases` | kernel/src/handle.rs:380-401 | after any run, the handle of insertion n below 2^32 leads to slot n, and so to its object, exactly when n < 2^28; otherwise it resolves to whatever slot n % 2^28 holds |
| `Handles.HandlesRepeat` | kernel/src/handle.rs:146-152 | insertion n + 2^28 packs to the same value as insertion n |
| `Handles.HandleTable.InsertObject` | kernel/src/handle.rs:380-389 | the table gains one entry under the next slot |
| `Handles.HandleTable.Get` | kernel/src/handle.rs:393-401 | the object if slot and generation match |
| `Handles.HandleTable.CloseHandle` | kernel/src/handle.rs:404-413 | removes the entry exactly if slot and generation match |
| `Handles.HandleTable.DuplicateHandle` | kernel/src/handle.rs:421-452 | a new entry for the same object exactly if the handle is valid and carries the duplicate right |
| `Initrd.FindFile` | kernel/src/initrd.rs:129-139 | the first entry that parses and has the name, or none if there is none |
| `Initrd.CreateInitrd` | tools/mkinitrd/src/main.rs:29-76 | the loops produce the archive layout |
| `Initrd.GetFileOfArchive` | kernel/src/initrd.rs:91-123 | reading entry i of a packed archive gives the stored part of the name and the contents, for any names |
| `Initrd.NameSurvives` | tools/mkinitrd/src/main.rs:53-61 | a name is stored unchanged exactly when it has at most 255 bytes and no NUL |
| `Initrd.RoundTrip` | kernel/src/initrd.rs:91-123 | get_file(i) on the packed archive returns the i-th file, for any list of files |
| `Initrd.PackAndFind` | kernel/src/initrd.rs:129-139 | find_file on the packed archive returns the first file with the name |

## Left out

- Ext2Files.Ext2Fs.WriteInodeData: says nothing about the bytes around a partial write inside a newly allocated block, because the source does not zero it; offsets are below the end of the pointer tree, where the source would otherwise index out of bounds.
- Ext2Files.Ext2Fs.AddDirEntry: requires that names have at most 255 bytes, which the callers ensure, and that no block is mapped just past the directory's size. The source does not ensure the latter after a failed device write: for a directory of more than 12 blocks the new block is linked on disk (kernel/src/fs/ext2.rs:1207) before the inode with the new size is stored (1214), and the next call then replaces that pointer.
- Ext2Files.Ext2Fs.AllocBlock: group free counts are never updated by the source and act as a constant filter.
- Ext2Files.Ext2Fs.FreeInodeBlocks: for regular files and directories; fast symlinks keep text in the pointer array.
- PageTables.PageTable.MapPage: requires that the path has no huge P3 entry, where the source unwraps a table frame; page tables are not shared between roots.
- PageTables.PageTable.ProtectPage: requires no huge entry on the path, where the source unwraps a table frame.
- Shm.SharedMemory.ShmGet: the zeroing of a new segment's pages is not modelled.
- Shm.SharedMemory.ShmAt: the address search and the mapping of pages are parameters; page tables are modelled on their own.
- ElfLoader.Loader.LoadElf: the header's phoff and phnum are parameters, and phoff + 56 * phnum does not overflow; relocations, PT_DYNAMIC, the user stack and CR3 switching are not modelled. The callback is known by the frames it takes at each call and the bytes it leaves in page tables.
- VirtioBlock.BlockDriver.DoSectorIo: the number of unsuccessful polls is a parameter; that the device ever completes is not claimed. The placement of the rings in physical memory is not modelled.
- FileLocking.FileLocks.Flock: a blocked request returns `Waiting` and its retries are separate steps; that a waiter is ever served is not claimed. Counts do not wrap at 2^32 holders.
- IntMutexes.LifoRunsSafe: non-maskable interrupts and exceptions are not modelled; that a spinning CPU ever gets the lock is not claimed.
- Handles.HandleForLife: handles come from insert, duplicate and with_rights; guessing a handle value is not modelled.
- Mapping DMA buffers into user space: it repeats map_page over a range.
- ext2 inode allocation and freeing, path resolution, create/unlink/mkdir/rmdir/symlink: they combine the modelled operations with bitmap scans of the same kind as alloc_block.
- kernel/src/ipc/mod.rs channels and kernel/src/ipc/pipe.rs: short operations on library containers.
- kernel/src/fs/ramfs.rs, vfs.rs, procfs.rs, devfs.rs: flat tables, dispatch and formatting.
- Network, PCI, serial, VGA and keyboard drivers: register access.
- kernel/src/memory/allocator.rs: rests on a library allocator.
- The scheduler, system calls, and user programs.
