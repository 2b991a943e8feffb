# A model of the file store, the allocators and the schedulers

This project models the parts of the repository whose behaviour is hardest to see from one function at a time,
and proves what they do over all inputs and all runs. `dafny verify dfyconfig.toml` checks it.

**The file store of Lab3.** A file is a sequence of bytes; the code keeps it in sectors that an inode reaches
through 123 direct, 128 indirect and 128 x 128 doubly indirect entries, and the index sectors live in the same
sector space as the data. `Sectors` has the on-disk formats, `BufferCache` the 64-slot write-back clock cache
over a block device, `Bitmaps` and `SectorMap` the free map. `InodeTree` describes an inode's tree by who owns
each sector in use: every owned sector has one place in one inode's tree, so separation, injectivity and
conservation become statements about one map. `FileContents` says what bytes a tree holds, `Shortage` what a
reservation leaves that runs out of sectors, `FileStore` reserves and deallocates trees, and `Inodes` has the
inode operations. The main results: a read returns exactly the slice of the file, a write is exactly a splice
with zero fill and leaves all other files alone, reservation succeeds exactly when the data and index sectors
that are missing are free, deallocation releases each sector once, and the cache refines a plain disk over any
run, reading each sector once as long as it has room. No write changes the kind of a file. One property asked
of a write is false of the code: a write of no bytes at offset 0 of a nonempty file takes the path that
extends the file, because the sector of position -1 is looked up, and sets the length to 0 with all sectors
still reserved. `WriteAt` states that the file system stays intact if and only if the write is not of this
kind; `WriteNothing` and `LoseSector` are calls that show it, up to a sector that stays in use though no file
can reach it. Another is false when the sectors do not suffice: what a failed write or creation has taken is
not given back. It has then taken every free sector, and so the file system stays intact if and only if there
was none; and because the result of allocating an index sector is ignored, even then zeros go to sector 0, the
free map's inode, when the sector wanted is an index. `WriteAt` and `Create` state exactly when a failure does
no harm, and that it changes the contents of no file but the free map's; `WriteTooMuch` is a failure that
does.

**The small-block allocator of Lab1.** `Arenas` has the arithmetic of addresses and what it means for a heap
to be sound; `Pages` is the page pool; `Malloc` has malloc, free and realloc. Blocks in use never overlap,
every block is in use or on its free list once, pages go back exactly when nothing in them is in use, and the
bytes of other blocks never change. The promise that a block is at least as large as requested holds if and
only if the size is below 2^32 - 11: for larger sizes the additions of a 32-bit size_t wrap around and one
page is served, and realloc's copy overflows it exactly if the old block was larger. The comment in malloc.c
says that blocks up to 2 kB come from arenas; the code stops at 1 kB.

**Page replacement of Assignment 5.** `Pager` keeps the queue that the code keeps; `Paging` proves what
follows for whole traces: what either policy holds, LRU inclusion and fault monotonicity, which FIFO does not
have (`FifoAnomaly`), and that both policies are conservative.

**64-bit division.** `Arithmetic` proves udiv64, its quotient estimate and that the divide instruction never
traps; sdiv64 and the remainder functions with their exact conditions.

**The cart manager of Assignment 3.** `CartManager` is a state machine whose steps are those of the threads in
any interleaving, with carts arriving at any time: safety of every simulator call, freedom from deadlock,
termination, and one crossing for each cart.

**Library algorithms.** `Sorting` (in-place heapsort with its comparison count, binary search), `Format` and
`ReadInteger` (integers formatted by the printf family and read by atoi), `Ustar` (archive headers, IEEE Std
1003.1, pax utility, "ustar Interchange Format"). The names of accepted headers are stripped of antisocial
prefixes only at their start, so one like "a/../../x" still leaves the directory it is extracted into; `Ustar`
proves exactly which accepted names do not. A number is as wide as its field exactly if it is not padded both
ways; parse_conversion keeps that from happening but for a zero flag with a negative width given as an
argument.

**Scheduling.** `RoundRobin` and `Scheduler` (round robin of Assignment 4: bounded waiting, full quanta, each
thread in one place) and `Donation` (chained priority donation of Lab2: termination on any graph, and exactly
who is raised). Donation is there to keep threads from waiting for threads of lower priority. It does so along
the blockers that are recorded; but a waiter that does not outrank the lock's holder sleeps without a recorded
blocker, and if it is raised later, donation stops at it. `InversionArises` is such a case with three threads,
and `Acquire` states over all sleeping threads that inversion is kept away if and only if no sleeper is
stranded in this way.

Each module that changes state has a class with the fields that the code has; its methods are proved against
functions over plain values, and the lemmas are about those functions. `Basics` has the machine integers.

## Model

| member | source | states |
|---|---|---|
| `Inodes.FileSystem.ReadAt` | Lab3/pintos/src/filesys/inode.c:267-317 | the bytes read are exactly the slice of the file that lies in `size` bytes from `offset`, short at the end of the file; no file changes |
| `Inodes.FileSystem.WriteAt` | Lab3/pintos/src/filesys/inode.c:324-397 | with enough free sectors the write splices its bytes into the file, zero-fills a gap past the old end, leaves every other file as it was and every file of the kind it was, and takes exactly the sectors the new length calls for; the file system stays intact if and only if it is not a write of no bytes at offset 0 of a nonempty file, which sets the length to 0 and keeps the sectors. Without enough it writes nothing, takes every free sector, changes no contents but perhaps empties the free map's file, and leaves the file system intact if and only if no sector was free and, where the next one would be an index sector, the zeros over sector 0 lose nothing: the free map's file is absent, or empty and its open inode all zeros. Denied writes change nothing |
| `Inodes.FileSystem.WriteWithin` | Lab3/pintos/src/filesys/inode.c:347-397 | the chunked loop writes all bytes that lie within the length: one splice of the file, other files unchanged and no kind |
| `Inodes.FileSystem.WritePiece` | Lab3/pintos/src/filesys/inode.c:363-387 | a chunk goes through a full sector or a bounce buffer with the same effect, a splice that changes no file's kind |
| `Inodes.FileSystem.ReadPiece` | Lab3/pintos/src/filesys/inode.c:290-307 | a chunk read directly or through a bounce buffer is that part of the contents |
| `Inodes.FileSystem.Extend` | Lab3/pintos/src/filesys/inode.c:336-345 | succeeds exactly when the free sectors suffice; then the file is its old contents followed by zeros, and every file is of the kind it was; a recorded length that calls for fewer sectors than the tree holds leaves the file system broken; failure leaves what a failed write leaves |
| `Inodes.FileSystem.NotExtended` | Lab3/pintos/src/filesys/inode.c:340-341 | exactly when a failed reservation for an open file leaves the file system intact |
| `Inodes.FileSystem.NotCreated` | Lab3/pintos/src/filesys/inode.c:160-169 | the same for a new file: exactly when no sector was free |
| `Inodes.WriteNothing` | Lab3/pintos/src/filesys/inode.c:320-345 | a concrete sequence of calls: make a file of one byte, open it, write nothing at 0; the length is 0, its sector still mapped, the file system broken |
| `Inodes.WriteTooMuch` | Lab3/pintos/src/filesys/inode.c:336-341 | a concrete failure: with one sector free, writing 1025 bytes to a file of one byte writes nothing, takes that sector and leaves the file system broken |
| `Inodes.LoseSector` | Lab3/pintos/src/filesys/inode.c:231-253 | when that file is removed and closed its data sector stays in use for good |
| `Inodes.FileSystem.Record` | Lab3/pintos/src/filesys/inode.c:342-344 | the inode in memory and the one on disk agree afterwards |
| `Inodes.FileSystem.IndexToSector` | Lab3/pintos/src/filesys/inode.c:64-112 | walks to the sector whose one owner is the place of that data sector; -1 past the largest file |
| `Inodes.FileSystem.ByteToSector` | Lab3/pintos/src/filesys/inode.c:118-129 | -1 exactly for positions outside the file |
| `Inodes.FileSystem.AllocateInode` | Lab3/pintos/src/filesys/free-map.c:27-41 | an inode gets the lowest free sector, if any is free; files are unchanged |
| `Inodes.FileSystem.Create` | Lab3/pintos/src/filesys/inode.c:147-173 | succeeds exactly when data and index sectors fit; adds one file of zeros with the given kind and the magic number, changes no other; failure takes every free sector, and leaves the file system intact if and only if none was free |
| `Inodes.FileSystem.RecordNew` | Lab3/pintos/src/filesys/inode.c:165-169 | writing the inode adds the file, with its length of zeros, its kind and its magic number |
| `Inodes.FileSystem.Open` | Lab3/pintos/src/filesys/inode.c:179-219 | an open file gives the same inode with one more opener; otherwise a fresh inode joins the list; other inodes keep their counts |
| `Inodes.FileSystem.OpenFirst` | Lab3/pintos/src/filesys/inode.c:196-209 | the fresh inode holds what the sector holds, and is the only one for it |
| `Inodes.FileSystem.FindOpen` | Lab3/pintos/src/filesys/inode.c:184-194 | finds the open inode of a sector exactly when there is one |
| `Inodes.FileSystem.Remove` | Lab3/pintos/src/filesys/inode.c:257-262 | marks the file and nothing else; the file system stays intact exactly if the file is not the free map's own |
| `Inodes.FileSystem.Close` | Lab3/pintos/src/filesys/inode.c:231-253 | only the last close of a removed file frees its sectors: the inode and all below it, each once, 1 + FileTotal in all; all other files keep their contents, and the other inodes their places in the list |
| `Inodes.FileSystem.Free` | Lab3/pintos/src/filesys/inode.c:245-249 | releases exactly what the file owned and drops that file alone |
| `Inodes.FileSystem.ReleaseTree` | Lab3/pintos/src/filesys/inode.c:245-249 | releases the inode and, if its length fits its tree, all below it; with length 0 the inode alone, whatever is below |
| `FileStore.Store.Reserve` | Lab3/pintos/src/filesys/inode.c:491-529 | succeeds if and only if the missing data and index sectors are free; then maps exactly the sectors of both lengths, new data sectors are zero, old ones stay where they were, and the sectors in use grow by exactly FileTotal's difference; `num_sectors == 0` holds at the end. It changes nothing when nothing is missing. When it fails no sector is free any more, all those taken are below this inode, and no entry that was set has changed |
| `FileStore.Store.ReserveIndirect` | Lab3/pintos/src/filesys/inode.c:446-485 | at every level: succeeds if and only if the missing sectors are free, and then the tree has exactly its data sectors and only it grew; holds although the result of allocating an index sector is ignored; failure has taken every free sector |
| `FileStore.Store.ReserveEntries` | Lab3/pintos/src/filesys/inode.c:472-482 | the loop visits the entries that need it, `num_sectors` reaches 0, and failure means too few free sectors and none left |
| `FileStore.Store.ReserveEntry` | Lab3/pintos/src/filesys/inode.c:475-480 | what one round of the loop does, and that failing in it is failing of the whole tree |
| `FileStore.Store.ReserveRoot` | Lab3/pintos/src/filesys/inode.c:499-525 | the same for one of the inode's entries |
| `Shortage.FirstShort` | Lab3/pintos/src/filesys/inode.c:472-480 | the first entry that is short of sectors wants an index sector exactly when the tree does |
| `Shortage.FirstShortRoot` | Lab3/pintos/src/filesys/inode.c:497-525 | the same among the inode's entries: an index sector is wanted exactly at 123, 251 and every 128 data sectors from there |
| `Shortage.StuckAfter` | Lab3/pintos/src/filesys/inode.c:475-479 | failing below one entry after others were extended takes all that was free before the first |
| `Shortage.StuckStarved` | Lab3/pintos/src/filesys/inode.c:464-470 | failing below an index sector that could not be allocated leaves zeros in sector 0 and nothing else |
| `Shortage.KeptWrite` | Lab3/pintos/src/filesys/inode.c:481-484 | writing an index block back changes no entry that was set |
| `Shortage.UnpackRoundTrip` | Lab3/pintos/src/filesys/inode.c:464-484 | an index sector read and written back unchanged is the same sector |
| `Shortage.FilesSpoiled` | Lab3/pintos/src/filesys/inode.c:446-529 | a failed reservation changes the contents of no file, not even the one it was for, except that the free map's may be emptied |
| `Shortage.NoMore` | Lab3/pintos/src/filesys/inode.c:446-485 | two trees of one size at one place have the same sectors |
| `Shortage.LeakBreaks` | Lab3/pintos/src/filesys/inode.c:339-341 | a sector left over from a failed reservation means that its file is not intact |
| `Shortage.ZeroedInode` | Lab3/pintos/src/filesys/inode.c:466-469 | zeros over sector 0 leave all files intact if and only if the free map's file is empty or absent |
| `Shortage.StuckFiles` | Lab3/pintos/src/filesys/inode.c:339-341 | so: exactly when all files are intact after a failed reservation for a file |
| `Shortage.StuckNewFile` | Lab3/pintos/src/filesys/inode.c:160-169 | and for a new one |
| `FileStore.Store.ReserveIndex` | Lab3/pintos/src/filesys/inode.c:464-470 | a new index sector is zeroed; when none is free the entry stays 0 and the zeros overwrite sector 0 |
| `FileStore.Store.ReserveData` | Lab3/pintos/src/filesys/inode.c:454-462 | an absent data sector is allocated and zeroed, a present one kept |
| `FileStore.Store.DeallocateIndirect` | Lab3/pintos/src/filesys/inode.c:531-556 | releases each sector of the tree once and nothing else, Total in all; `num_sectors == 0` at every level |
| `FileStore.Store.Deallocate` | Lab3/pintos/src/filesys/inode.c:558-591 | releases each data and index sector once, n + [n > 123] + (n > 251 ? 1 + ceil((n - 251) / 128) : 0) in all; with length 0 it releases nothing, whatever the tree holds |
| `FileContents.SectorAtOwned` | Lab3/pintos/src/filesys/inode.c:64-112 | every mapped sector is the one sector with that place, so it is in use, and no two data sectors or files share it |
| `FileContents.NothingBeyond` | Lab3/pintos/src/filesys/inode.c:64-112 | no sector has a place past the end of the file |
| `FileContents.DataSectorsSeparate` | Lab3/pintos/src/filesys/inode.c:446-529 | the map from data sectors to disk sectors is injective over all files; no result is 0 or an inode |
| `FileContents.IndexSectorsSeparate` | Lab3/pintos/src/filesys/inode.c:464-484 | no data sector of any file is an index sector of any file |
| `FileContents.SectorAtKept` | Lab3/pintos/src/filesys/inode.c:454-461 | growing a file leaves every sector mapped before where it was |
| `FileContents.TreeSizeUnique` | Lab3/pintos/src/filesys/inode.c:41-45 | a tree has one size, so a length determines it |
| `FileContents.ReserveThenDeallocate` | Lab3/pintos/src/filesys/inode.c:446-591 | deallocating what was reserved restores the owners, and so the free map, of before |
| `FileContents.FileFrame` | Lab3/pintos/src/filesys/inode.c:64-112 | a file none of whose sectors were touched is intact and has the same contents |
| `FileContents.ExtendFile` | Lab3/pintos/src/filesys/inode.c:339-344 | growing the tree and recording the length appends zeros |
| `FileContents.WriteChunk` | Lab3/pintos/src/filesys/inode.c:378-386 | patching one data sector is a splice of the file |
| `FileContents.WriteChunkInFiles` | Lab3/pintos/src/filesys/inode.c:378-386 | and of that file alone |
| `FileContents.ReadChunk` | Lab3/pintos/src/filesys/inode.c:305-306 | part of a data sector is that part of the contents |
| `FileContents.ReadBack` | Lab3/pintos/src/filesys/inode.c:264-397 | reading where one has written gives the written bytes |
| `FileContents.ExtendInFiles` | Lab3/pintos/src/filesys/inode.c:339-344 | an extension changes one file and the number of sectors in use by exactly what its length calls for |
| `FileContents.RecordedKinds` | Lab3/pintos/src/filesys/inode.c:340-344 | recording a new length changes neither kind nor magic number of any file |
| `FileContents.ShrinkBreaks` | Lab3/pintos/src/filesys/inode.c:336-345 | a recorded length that calls for fewer sectors than are mapped always breaks the file system |
| `FileContents.CreateInFiles` | Lab3/pintos/src/filesys/inode.c:160-168 | reserving and writing a new inode adds one file of zeros |
| `FileContents.RemoveOneFile` | Lab3/pintos/src/filesys/inode.c:245-249 | giving up all of a file's sectors removes it and leaves the others intact |
| `InodeTree.OwnedFrame` | Lab3/pintos/src/filesys/inode.c:446-485 | a tree depends only on its own index sectors and owners |
| `InodeTree.GrownBeside` | Lab3/pintos/src/filesys/inode.c:475-480 | reserving below one entry leaves the trees at the others as they are |
| `InodeTree.ExtendEnd` | Lab3/pintos/src/filesys/inode.c:482-484 | with all entries done, writing the index block back completes a tree of the larger size |
| `InodeTree.MissingBelow` | Lab3/pintos/src/filesys/inode.c:475-479 | an entry that cannot be extended for want of sectors means the whole tree cannot |
| `InodeTree.TotalBelowStep` | Lab3/pintos/src/filesys/inode.c:531-556 | how many sectors an index sector's entries account for, entry by entry |
| `InodeTree.ReservingRest` | Lab3/pintos/src/filesys/inode.c:501-525 | the early returns skip only entries with nothing to gain |
| `InodeTree.PruningEnd` | Lab3/pintos/src/filesys/inode.c:548-555 | after its entries, releasing the index sector leaves nothing of the tree |
| `InodeTree.FreeingEnd` | Lab3/pintos/src/filesys/inode.c:568-589 | after the visited entries nothing of the file is left |
| `Sectors.PackRoundTrip` | Lab3/pintos/src/filesys/inode.c:31-33 | an index block written to a sector reads back the same |
| `Sectors.InodeRoundTrip` | Lab3/pintos/src/filesys/inode.c:17-29 | an inode written to its sector reads back the same |
| `Sectors.InodeLayout` | Lab3/pintos/src/filesys/inode.c:17-29 | where the 512 bytes of an inode hold what |
| `BufferCache.Cache.constructor` | Lab3/pintos/src/filesys/cache.c:25-36 | an empty cache, its hand at the first slot, shows the device as it is |
| `BufferCache.Cache.Flush` | Lab3/pintos/src/filesys/cache.c:42-52 | writes back a dirty slot and only it; what the cache shows is unchanged |
| `BufferCache.Cache.Close` | Lab3/pintos/src/filesys/cache.c:54-68 | afterwards the device itself holds what the cache showed, and every slot what it held |
| `BufferCache.Cache.Lookup` | Lab3/pintos/src/filesys/cache.c:75-88 | finds the slot of a sector exactly when there is one |
| `BufferCache.Cache.AdvanceHand` | Lab3/pintos/src/filesys/cache.c:100-116 | the hand stops at the first slot in circular order that is empty or unaccessed, or at its own when all are accessed; at most 64 second chances; every slot passed lost its access bit and no other did |
| `BufferCache.Cache.Evict` | Lab3/pintos/src/filesys/cache.c:95-127 | returns that slot, empty; it is written back if it was dirty, and the others are as the sweep left them |
| `BufferCache.Cache.Load` | Lab3/pintos/src/filesys/cache.c:135-146 | a hit changes nothing; a miss fills the slot where the clock stops, after writing it back if dirty, with one read of the device; every other slot is as the sweep left it |
| `BufferCache.Cache.Read` | Lab3/pintos/src/filesys/cache.c:130-153 | returns the last contents written to the sector; a hit sets only its access bit and does no I/O; a miss replaces the slot where the clock stops and rests there |
| `BufferCache.Cache.Write` | Lab3/pintos/src/filesys/cache.c:155-179 | changes that sector and no other; its slot is accessed and dirty, found or replaced as for a read |
| `BufferCache.HandAtRest` | Lab3/pintos/src/filesys/cache.c:100-116 | once every slot had its chance the hand stops |
| `BufferCache.StopsOnce` | Lab3/pintos/src/filesys/cache.c:100-116 | where the clock stops, and what the sweep leaves, is determined by the slots and the hand |
| `BufferCache.FillsNext` | Lab3/pintos/src/filesys/cache.c:90-127 | as long as a slot is empty nothing is thrown out: the next slot is filled |
| `BufferCache.AccessFills` | Lab3/pintos/src/filesys/cache.c:130-179 | while there is room a sector is read from the device the first time it is named, and only then |
| `BufferCache.ReplaceSlot` | Lab3/pintos/src/filesys/cache.c:118-150 | changing a slot keeps clean slots equal to the disk and no sector in two slots |
| `BufferCache.FlushKeepsCoherent` | Lab3/pintos/src/filesys/cache.c:48-51 | so does a write-back |
| `BufferCache.StoreKeepsCoherent` | Lab3/pintos/src/filesys/cache.c:174-176 | so does a store |
| `BufferCache.Replay` | Lab3/pintos/src/filesys/cache.c:54-179 | over any run the cache refines a plain disk: each read sees the last write, and after closing the device equals the plain disk; a run on a fresh cache that names at most 64 sectors reads each from the device exactly once |
| `BufferCache.ApplyKeepsLastStore` | Lab3/pintos/src/filesys/cache.c:130-179 | a plain disk holds in each sector the last contents stored there |
| `Bitmaps.Contains` | Lab3/pintos/src/lib/kernel/bitmap.c:248-263 | whether a stretch has a bit of the value |
| `Bitmaps.SetMultiple` | Lab3/pintos/src/lib/kernel/bitmap.c:216-228 | sets that stretch and no other bit |
| `Bitmaps.Scan` | Lab3/pintos/src/lib/kernel/bitmap.c:291-310 | the first run of the value, or none exists |
| `Bitmaps.ScanAndFlip` | Lab3/pintos/src/lib/kernel/bitmap.c:312-326 | flips that run and no other bit |
| `SectorMap.FreeMap.constructor` | Lab3/pintos/src/filesys/free-map.c:11-20 | just sectors 0 and 1 are in use, so 0 can mean absent |
| `SectorMap.FreeMap.Allocate` | Lab3/pintos/src/filesys/free-map.c:27-41 | takes the first free run, fails only if there is none |
| `SectorMap.FreeMap.Release` | Lab3/pintos/src/filesys/free-map.c:43-50 | gives back exactly the run, which is in use |
| `SectorMap.FreeMap.AllocateOne` | Lab3/pintos/src/filesys/free-map.c:27-41 | takes the lowest free sector exactly when one is free |
| `Malloc.Allocator.Malloc` | Lab1/pintos/src/threads/malloc.c:86-149 | null exactly for 0 bytes or when neither list nor pool can serve; otherwise a block that was not in use, as large as its class or pages, with just its new arena's pages taken and every other block in use as it was; no page is taken while the list of the class has a block, and the first on it is served |
| `Malloc.Allocator.MallocBig` | Lab1/pintos/src/threads/malloc.c:104-118 | the same for requests of whole pages, with the additions of a 32-bit size_t |
| `Malloc.Allocator.AddBlocks` | Lab1/pintos/src/threads/malloc.c:133-140 | all blocks of the new arena join the free list at its end, in order |
| `Malloc.Allocator.Free` | Lab1/pintos/src/threads/malloc.c:207-249 | the block is no longer in use; its pages go back exactly when no other block of the arena is in use; the block is overwritten and, if its arena stays, first on its list; the bytes of all blocks still in use are unchanged |
| `Malloc.Allocator.DropBlocks` | Lab1/pintos/src/threads/malloc.c:231-239 | removes exactly the arena's blocks from the free list, in place |
| `Malloc.Allocator.Realloc` | Lab1/pintos/src/threads/malloc.c:183-205 | the new block starts with as many bytes of the old one as both have room for; other blocks keep theirs; on failure nothing changes; the copy overflows the new block exactly if memory is found, the size is one of those that wrap around, and the old block has more than 4084 bytes |
| `Malloc.CopyFits` | Lab1/pintos/src/threads/malloc.c:194-201 | for a size that can be served the copy fits if and only if the size does not wrap around or the old block has at most 4084 bytes |
| `Malloc.CopyOverflows` | Lab1/pintos/src/threads/malloc.c:194-201 | a block of two pages reallocated to 2^32 - 1 bytes would overflow the one page served |
| `Malloc.Allocator.BlockSize` | Lab1/pintos/src/threads/malloc.c:172-181 | the number of bytes of the block |
| `Malloc.MallocInit` | Lab1/pintos/src/threads/malloc.c:70-84 | seven descriptors, 16 to 1024 bytes: the code stops below half a page, although its comment says 2 kB |
| `Malloc.ServedSuffices` | Lab1/pintos/src/threads/malloc.c:99-117 | a block is as large as requested if and only if the size is below 2^32 - 11 |
| `Malloc.ServedLeast` | Lab1/pintos/src/threads/malloc.c:99-117 | up to 1024 bytes the blocks are the smallest that are large enough; above, the pages are the fewest that hold the bytes and a header |
| `Malloc.WrappedServed` | Lab1/pintos/src/threads/malloc.c:107-116 | for the sizes above, one page is served |
| `Malloc.OthersUntouched` | Lab1/pintos/src/threads/malloc.c:220-223 | writing to one block never reaches another |
| `Arenas.LiveApart` | Lab1/pintos/src/threads/malloc.c:269-279 | blocks in use do not overlap |
| `Arenas.LiveInside` | Lab1/pintos/src/threads/malloc.c:269-279 | blocks in use lie in their arena's pages after the header |
| `Arenas.LiveAligned` | Lab1/pintos/src/threads/malloc.c:251-267 | the assertions of block_to_arena hold for every block in use |
| `Arenas.BlocksFill` | Lab1/pintos/src/threads/malloc.c:76-83 | an arena has as many blocks as its page has room for: 255 of 16 bytes, down to 3 of 1024 |
| `Arenas.BlockOnce` | Lab1/pintos/src/threads/malloc.c:120-149 | each block of each arena is in use, or on one free list exactly once |
| `Arenas.NothingKept` | Lab1/pintos/src/threads/malloc.c:225-240 | when no block is in use, every page has gone back and every list is empty |
| `Arenas.SomeLive` | Lab1/pintos/src/threads/malloc.c:230-239 | every arena has a block in use, so no page is kept for nothing |
| `Arenas.AddArena` | Lab1/pintos/src/threads/malloc.c:133-140 | a new arena keeps the heap sound |
| `Arenas.TakeBlock` | Lab1/pintos/src/threads/malloc.c:143-146 | so does taking the first free block, and free_cnt counts the rest |
| `Arenas.PutBlock` | Lab1/pintos/src/threads/malloc.c:227-231 | so does putting a block back; free_cnt never exceeds the arena's blocks |
| `Arenas.DropArena` | Lab1/pintos/src/threads/malloc.c:231-239 | so does giving an arena back when all its blocks are free, and none of them is in use |
| `Arenas.AddBig` | Lab1/pintos/src/threads/malloc.c:104-117 | so does a new big block, on pages of no other arena |
| `Arenas.DropBig` | Lab1/pintos/src/threads/malloc.c:243-246 | so does giving its pages back |
| `Pages.Pool.GetMultiple` | Lab1/pintos/src/threads/palloc.c:66-100 | the first run of free pages, now in use; null exactly when there is none |
| `Pages.Pool.FreeMultiple` | Lab1/pintos/src/threads/palloc.c:115-141 | those pages and no others are cleared and free |
| `Pager.Pager.Request` | Assignment5/pager.c:77-112 | the resident pages and the fetches are those of the policy's step, although the queue is only sorted on a fault |
| `Pager.Serve` | Assignment5/pager.c:44-112 | so for every trace with increasing times |
| `Pager.SortingUnique` | Assignment5/pager.c:30-32 | with distinct times the sorted queue is determined, whatever the sort |
| `Paging.LruKeepsMostRecent` | Assignment5/pager.c:95-112 | after any trace the resident pages are the k most recently requested distinct ones |
| `Paging.LruInclusion` | Assignment5/pager.c:95-112 | fewer frames hold a subset of what more frames hold |
| `Paging.LruFaultsMonotone` | Assignment5/pager.c:95-112 | more frames never fault more |
| `Paging.FifoKeepsLastFetched` | Assignment5/pager.c:81-94 | after any trace FIFO holds the k pages fetched last, the one fetched longest ago first |
| `Paging.FifoAnomaly` | Assignment5/pager.c:81-94 | with FIFO more frames can fault more: 10 fetches with four frames where three take 9 |
| `Paging.WindowFaults` | Assignment5/pager.c:81-112 | from any starting state, a window naming at most k pages causes at most one fetch for each |
| `Paging.Conservative` | Assignment5/pager.c:81-112 | so after any run before the window |
| `Arithmetic.Divl` | Lab3/pintos/src/lib/arithmetic.c:21-37 | the divide instruction, which must not be given a quotient of 2^32 or more |
| `Arithmetic.Nlz` | Lab3/pintos/src/lib/arithmetic.c:39-73 | shifting by the result brings the highest one bit to the top |
| `Arithmetic.Udiv64` | Lab3/pintos/src/lib/arithmetic.c:75-127 | the quotient for every dividend and every divisor but 0, with divl never trapping |
| `Arithmetic.DivideBySmall` | Lab3/pintos/src/lib/arithmetic.c:106-111 | long division by a 32-bit divisor |
| `Arithmetic.DivideByLarge` | Lab3/pintos/src/lib/arithmetic.c:121-124 | the shifted estimate, corrected, is the quotient |
| `Arithmetic.LongDivision` | Lab3/pintos/src/lib/arithmetic.c:82-105 | the partial quotient fits 32 bits and the parts add up |
| `Arithmetic.EstimateOffByOne` | Lab3/pintos/src/lib/arithmetic.c:122-124 | dividing by the leading bits gives the quotient or one more |
| `Arithmetic.EstimateCloses` | Lab3/pintos/src/lib/arithmetic.c:122-124 | the last line tells which of the two |
| `Arithmetic.HalfFits` | Lab3/pintos/src/lib/arithmetic.c:123-123 | the estimate's divide never traps |
| `Arithmetic.Umod64` | Lab3/pintos/src/lib/arithmetic.c:131-135 | right if and only if the remainder fits 32 bits |
| `Arithmetic.Sdiv64` | Lab3/pintos/src/lib/arithmetic.c:139-146 | rounds toward zero if and only if not INT64_MIN / -1, which gives INT64_MIN |
| `Arithmetic.Smod64` | Lab3/pintos/src/lib/arithmetic.c:150-154 | right if and only if the remainder fits a signed 32-bit integer |
| `Arithmetic.TruncatedDivision` | Lab3/pintos/src/lib/arithmetic.c:137-154 | quotient and remainder fit together and the remainder has the dividend's sign |
| `CartManager.OppositeEnd` | Assignment3/cartman.c:65-78 | the destination computed is the other end of the track, and crossing back returns |
| `CartManager.CallChangesOwners` | Assignment3/cartman.c:86-180 | what each call takes and gives up, and what it relies on |
| `CartManager.StartInvariant` | Assignment3/cartman.c:238-247 | the manager starts in a safe state |
| `CartManager.ArriveKeepsInvariant` | Assignment3/cartman.c:193-225 | an arrival keeps it safe |
| `CartManager.StepKeepsInvariant` | Assignment3/cartman.c:86-180 | so does every step of every thread |
| `CartManager.CallsAccepted` | Assignment3/cartman.h:17-51 | in every reachable state the next reserve, cross or release is one the simulator accepts: it reserves a free junction at an end of its cart's track before crossing, crosses once, from where it is, with both ends reserved, and releases what it reserved |
| `CartManager.CallsBeforeCrossing` | Assignment3/cartman.c:86-180 | a thread reserves and crosses only before its cart has crossed, and reserves only the ends of its track |
| `CartManager.ReservedIsHeld` | Assignment3/cartman.c:86-102 | a reserved junction has semaphore value 0 and one holder |
| `CartManager.FindEnabled` | Assignment3/cartman.c:83-102 | taking the lower junction first leaves a thread that can go on, whoever waits |
| `CartManager.DeadlockFree` | Assignment3/cartman.c:83-102 | no reachable state with an unfinished cart is stuck |
| `CartManager.StepProgresses` | Assignment3/cartman.c:86-185 | each step lowers the number of steps to go by one |
| `CartManager.RunsFinish` | Assignment3/cartman.c:47-247 | every run with any arrivals takes nine steps a cart at most, and one that cannot go on has every cart across, every semaphore at 1 and no junction reserved |
| `CartManager.EachCrossesOnce` | Assignment3/cartman.c:86-180 | in every run there are as many crossings as carts that have stopped waiting to cross |
| `CartManager.AllHaveCrossed` | Assignment3/cartman.c:47-247 | a run from the start that cannot go on has crossed once for each cart that arrived |
| `Sorting.Heapify` | Lab3/pintos/src/lib/stdlib.c:93-123 | restores the heap from element i on by permuting, with at most two comparisons a level |
| `Sorting.Sink` | Lab3/pintos/src/lib/stdlib.c:119-121 | one swap moves the one place out of order down |
| `Sorting.Largest` | Lab3/pintos/src/lib/stdlib.c:103-112 | the largest of an element and its children |
| `Sorting.BuildHeap` | Lab3/pintos/src/lib/stdlib.c:142-144 | the first loop makes the array a heap |
| `Sorting.SortHeap` | Lab3/pintos/src/lib/stdlib.c:146-151 | the second sorts it |
| `Sorting.Sort` | Lab3/pintos/src/lib/stdlib.c:125-152 | a permutation in ascending order for any comparator that orders, with at most 3 n log2 n comparisons |
| `Sorting.Extract` | Lab3/pintos/src/lib/stdlib.c:147-151 | moving the root behind the heap puts one more element in its final place |
| `Sorting.RootDominates` | Lab3/pintos/src/lib/stdlib.c:146-151 | the root of a heap is its largest element |
| `Sorting.BinarySearch` | Lab3/pintos/src/lib/stdlib.c:172-207 | finds a match exactly when there is one |
| `ReadInteger.Atoi` | Lab3/pintos/src/lib/stdlib.c:7-41 | the number the text starts with, and overflow exactly when it is no int: parsing as negative first loses nothing |
| `ReadInteger.SpaceIgnored` | Lab3/pintos/src/lib/stdlib.c:17-19 | any of the six white-space characters before a number make no difference |
| `ReadInteger.NothingRead` | Lab3/pintos/src/lib/stdlib.c:31-40 | any other character that is no sign and no digit reads as 0 |
| `ReadInteger.ReadDigits` | Lab3/pintos/src/lib/stdlib.c:31-40 | the digits' value, negated or not, or overflow exactly out of range |
| `ReadInteger.FormattedReadsBack` | Lab3/pintos/src/lib/stdio.c:462-547 | atoi of an int formatted in decimal is that int, INT_MIN included, for every width, precision and flags but grouping |
| `ReadInteger.PaddedReads` | Lab3/pintos/src/lib/stdlib.c:17-38 | padding, sign and leading zeros do not change the number read |
| `Format.FormatInteger` | Lab3/pintos/src/lib/stdio.c:469-547 | the text put out is the padded, signed and prefixed number |
| `Format.PlainNumeral` | Lab3/pintos/src/lib/stdio.c:482-513 | without flags, width and precision: the numeral of the value, after a minus if negative |
| `Format.NumeralStart` | Lab3/pintos/src/lib/stdio.c:501-522 | no numeral but that of 0, which is "0", starts with a zero |
| `Format.DigitsOfBase` | Lab3/pintos/src/lib/stdio.c:138-141 | digits are those of the base, in small letters for x and capitals for X |
| `Format.SeparatorsPlaced` | Lab3/pintos/src/lib/stdio.c:506-513 | a separator stands after each group of digits, from the right, and nowhere else |
| `Format.GroupingAdds` | Lab3/pintos/src/lib/stdio.c:508-509 | without the separators the digits are those without the flag |
| `Format.PrecisionMet` | Lab3/pintos/src/lib/stdio.c:515-524 | as many digits as the precision asks for, up to 63, by zeros before them; one more exactly where an octal number must start with a zero and does not |
| `Format.SignAndPrefix` | Lab3/pintos/src/lib/stdio.c:485-499 | when there is a sign and which, and when 0x or 0X |
| `Format.FieldWidth` | Lab3/pintos/src/lib/stdio.c:526-546 | the field is as wide as the width asked for, or as the number, if and only if a number that is too short is not to be padded both ways |
| `Format.PaddedTwice` | Lab3/pintos/src/lib/stdio.c:531-546 | a 7 in a field of 3, to the left and with zeros, takes 5 characters |
| `Format.NumberPlaced` | Lab3/pintos/src/lib/stdio.c:531-546 | the number is at the right end of its field, at the left one, or zeros follow its sign and prefix |
| `Format.FillBuffer` | Lab3/pintos/src/lib/stdio.c:501-524 | digits, zeros and the octal zero never leave the 64-byte buffer |
| `Format.BufferBound` | Lab3/pintos/src/lib/stdio.c:504-513 | 64 bits of digits with separators leave a place free in every base |
| `Format.DigitsValue` | Lab3/pintos/src/lib/stdio.c:506-513 | the digits are worth the value in every base, grouped or not |
| `Format.BufferedValue` | Lab3/pintos/src/lib/stdio.c:501-524 | precision zeros and the octal zero do not change that |
| `Format.OutputDup` | Lab3/pintos/src/lib/stdio.c:549-555 | the character so many times |
| `Format.EmitReversed` | Lab3/pintos/src/lib/stdio.c:543-544 | the buffer comes out most significant digit first |
| `Format.BufferOutput.Put` | Lab3/pintos/src/lib/stdio.c:44-52 | stores while there is room and counts always |
| `Format.Snprintf` | Lab3/pintos/src/lib/stdio.c:18-72 | as much of the text as fits and a terminator, nothing else is written, and the full length is returned |
| `Ustar.MakeHeader` | Lab3/pintos/src/lib/ustar.c:82-118 | succeeds exactly if the stripped name has at most 99 characters; then all 512 characters are those of the header, otherwise none changes |
| `Ustar.ParseHeader` | Lab3/pintos/src/lib/ustar.c:175-227 | the outcome of the checks in their order |
| `Ustar.MadeHeaderParses` | Lab3/pintos/src/lib/ustar.c:75-227 | a made header parses to the stripped name, the type and, for regular files, the size; a negative size is rejected |
| `Ustar.MadeFields` | Lab3/pintos/src/lib/ustar.c:101-112 | the other fields read back as mode 0644 or 0755, ids 0, root and the fixed time; the rest is null |
| `Ustar.EndIsNull` | Lab3/pintos/src/lib/ustar.c:190-197 | the end of the archive is exactly a block of null characters |
| `Ustar.AcceptedExactly` | Lab3/pintos/src/lib/ustar.c:190-226 | exactly which headers are accepted, and as what |
| `Ustar.ParsedIsStripped` | Lab3/pintos/src/lib/ustar.c:222-226 | whatever header is accepted, the name starts with no antisocial prefix, is not empty or "..", and the size is an int |
| `Ustar.AcceptedStaysInside` | Lab3/pintos/src/lib/ustar.c:56-73 | an accepted name stays inside every directory it is extracted into if and only if its components, counted from the start, never go up more often than down |
| `Ustar.AcceptedClimbs` | Lab3/pintos/src/lib/ustar.c:56-73 | "a/../../x" is made into a header, accepted, and climbs out of every directory |
| `Ustar.CorruptionDetected` | Lab3/pintos/src/lib/ustar.c:35-54 | changing any single octet outside the checksum field makes an accepted header rejected |
| `Ustar.CalculateChecksum` | Lab3/pintos/src/lib/ustar.c:35-54 | the sum of all octets with the checksum field as spaces |
| `Ustar.SumIgnoresField` | Lab3/pintos/src/lib/ustar.c:46-51 | the checksum does not depend on its own field |
| `Ustar.ParseOctalField` | Lab3/pintos/src/lib/ustar.c:120-162 | octal digits, at least one, with an end mark, worth at most ULONG_MAX, and nothing else |
| `Ustar.OctalTextValue` | Lab3/pintos/src/lib/ustar.c:102-115 | a number printed with %0<width>o fills the width and is worth the number |
| `Ustar.OctalReadsBack` | Lab3/pintos/src/lib/ustar.c:102-162 | a printed octal field parses to the number |
| `Ustar.StripAntisocialPrefixes` | Lab3/pintos/src/lib/ustar.c:56-73 | strips until no antisocial prefix is left: the result that the next two rows determine |
| `Ustar.StripPrefix` | Lab3/pintos/src/lib/ustar.c:68-71 | stripping "/", "./" or "../" before a name leaves what stripping the name leaves |
| `Ustar.StripPlain` | Lab3/pintos/src/lib/ustar.c:72-72 | a name without such a prefix stays as it is, but for the empty one and "..", which become "." |
| `Ustar.StrippedIsSafe` | Lab3/pintos/src/lib/ustar.c:56-73 | the result starts with no antisocial prefix, is not empty or "..", and is a suffix or "." |
| `Ustar.StripTwice` | Lab3/pintos/src/lib/ustar.c:65-73 | stripping again changes nothing |
| `Ustar.FieldWritten` | Lab3/pintos/src/lib/ustar.c:10-33 | writing into a field changes that field only |
| `Ustar.FieldFound` | Lab3/pintos/src/lib/ustar.c:10-33 | each field is found at its offset |
| `Ustar.HeaderSize` | Lab3/pintos/src/lib/ustar.c:88-88 | the fields take 512 characters |
| `Ustar.Strlcpy` | Lab3/pintos/src/lib/string.c:312-343 | as much of the string as fits and a terminator; nothing else is written |
| `Scheduler.Scheduler.SysExec` | Assignment4/scheduler.c:112-130 | a new thread joins the tail of the ready queue |
| `Scheduler.Scheduler.Tick` | Assignment4/scheduler.c:132-157 | the clock interrupt is the round-robin step, and dispatches exactly when it switches |
| `Scheduler.Scheduler.RunThread` | Assignment4/scheduler.c:72-84 | the head of the queue gets the CPU and a full quantum, the thread that ran goes to the tail |
| `Scheduler.Scheduler.SysExit` | Assignment4/scheduler.c:159-170 | the running thread leaves the CPU for good |
| `Scheduler.Scheduler.SysRead` | Assignment4/scheduler.c:172-190 | the running thread leaves the CPU |
| `Scheduler.Scheduler.IoComplete` | Assignment4/scheduler.c:192-202 | the thread known by its identifier joins the tail of the queue |
| `RoundRobin.StepConserves` | Assignment4/scheduler.c:37-202 | no callback loses or doubles a thread; only a start adds one |
| `RoundRobin.RunConserves` | Assignment4/scheduler.c:37-202 | in every run each started thread is in exactly one place: ready once, running, blocked or exited |
| `RoundRobin.DispatchedInBound` | Assignment4/scheduler.c:72-84 | a thread of the queue is dispatched within the running thread's rest and a quantum for each thread before it |
| `RoundRobin.BoundedWaiting` | Assignment4/scheduler.c:72-157 | so within p + 1 quanta at position p, whatever starts, exits, blocks or wakes up meanwhile |
| `RoundRobin.QuantumKept` | Assignment4/scheduler.c:72-157 | in every run a thread that a tick has dispatched keeps the CPU for its quantum, unless it exits or reads, whatever else happens |
| `RoundRobin.QuantumEnds` | Assignment4/scheduler.c:72-157 | at the tick after that it is switched, to the tail of the queue, exactly if another thread is ready; otherwise it gets another quantum |
| `RoundRobin.DispatchFresh` | Assignment4/scheduler.c:73-81 | every dispatch gives a full quantum |
| `RoundRobin.QuantumUsed` | Assignment4/scheduler.c:76-81 | a used-up quantum gives the CPU to the head of the queue |
| `RoundRobin.TickProgress` | Assignment4/scheduler.c:137-157 | each tick dispatches the thread or brings it nearer |
| `RoundRobin.RunKeepsLeft` | Assignment4/scheduler.c:147-155 | what is left of a quantum is always below the quantum |
| `Donation.Donate` | Lab2/pintos/src/threads/lock.c:196-202 | ends on any waits-for graph, cycles included, and leaves the priorities that donation along the chain gives |
| `Donation.DonatedExactly` | Lab2/pintos/src/threads/lock.c:196-202 | raises exactly the threads on the chain up to the first that waits for none or for one with enough priority, and lowers none |
| `Donation.BeforeAcquire` | Lab2/pintos/src/threads/lock.c:82-114 | a held lock notes its waiter, and a waiter of higher priority records its blocker and donates; recorded blockers stay held; if every thread with a recorded blocker waited for one of at least its priority, that is still so |
| `Donation.NoteWaiter` | Lab2/pintos/src/threads/lock.c:85-91 | the holder's list ends with the lock if it was not on it; every other list is as it was |
| `Donation.Acquire` | Lab2/pintos/src/threads/lock.c:76-118 | the priorities are those of donation or unchanged, the lock joins its holder's list and no other list changes; over all sleeping threads, recorded or not: without inversion before, there is none afterwards if and only if the donation strands no sleeper |
| `Donation.DonationPropagates` | Lab2/pintos/src/threads/lock.c:91-102 | among threads with a recorded blocker donation keeps priority inversion away, the new waiter included |
| `Donation.InversionExactly` | Lab2/pintos/src/threads/lock.c:91-116 | over all sleepers: after a donation nobody sleeps behind a lower priority if and only if no sleeper was raised whose lock its blocker does not name and whose lock's holder is below the donor and not raised itself |
| `Donation.InversionArises` | Lab2/pintos/src/threads/lock.c:93-94 | priorities 20, 10 and 30: the second sleeps on the first unrecorded, the third donates to it and it ends up above the one it sleeps behind |
| `Donation.SleeperExactly` | Lab2/pintos/src/threads/lock.c:196-202 | the same for one sleeper |
| `Donation.ChainNotLower` | Lab2/pintos/src/threads/lock.c:196-202 | where nobody waits for a lower priority, nothing along a chain of waiting has a lower priority than its start |

## Left out

- Inodes.FileSystem.ReadAt: offsets and sizes are not negative, and a bounce buffer can always be allocated, here and for writes.
- What operations do to a file system that an earlier failure has left broken, except that `LoseSector` releases what a truncated file still reaches.
- Lengths past 16635 sectors: an assertion in inode_reserve stops the system there, so writing and creating require less.
- Struct inode_disk is a value here, passed in and out of the functions that change it in place through a pointer; the inode in memory is an object.
- Locks, and threads that interleave within the cache and the inode layer; the free map's persistence through bitmap_write and bitmap_read; crashes.
- Block device drivers: a device is a sequence of sectors.
- Malloc.Allocator.Realloc: where the copy overflows the new block, what C leaves undefined is not followed: the state is the one before the copy.
- Malloc.Allocator.Malloc: the arena headers and the links of the free lists are kept beside the bytes of memory, not in them, and a free list is a sequence; the locks of the descriptors are not modelled.
- Pages.Pool.GetMultiple: one pool, without the flags that zero pages or stop the kernel, and addresses count from its base.
- calloc, the page directory and everything else above the page pool.
- Pager.Pager.Request: only first-in-first-out and least-recently-used; the other three policies are left out. queue.a is not part of this model: its sort is any sort, the pages in the queue are values, and a request comes at a later time than the one before.
- Arithmetic.Divl: the instruction itself is a contract.
- CartManager.CallsAccepted: the simulator is not part of this model beyond what cartman.h makes its reserve, cross and release exit for; carts are known to it. Taken literally, its condition that a cart be at the junction it reserves would forbid reserving the far end of the track, which cross asks for; the model reads it as an end of the track that the cart is at. The code's array of 17 semaphores bounds the number of tracks, which the model does not.
- Sorting.Sort: elements of one type stand for byte strings of one size, swapped whole.
- Format.FormatInteger: characters put out are appended to a text, which `Format.Snprintf` then stores; parsing a format string, strings and characters are left out.
- ReadInteger.Atoi: an int that overflows, which C leaves undefined, is an outcome of its own.
- Ustar.MakeHeader: names have no null character, as C strings do; the message printed for a long name is left out.
- Scheduler.Scheduler.Tick: only round robin; the waiting and turnaround times and the other algorithms are left out. The simulator calls back for the running thread only, and the quantum fits an int.
- Donation.Acquire: a thread sleeps until the lock is given to it, and waking up is left out, as is lock_release: it restores priorities from the latest waiter rather than the highest and never clears the blocker, so nothing is claimed of it. Every lock that a thread waits for is held, as donate relies on.
- Directories, file descriptors, partitions, the clock, the merge sorts of Assignments 1 and 2, and the simple string functions: no clean specification, or only easy members.
