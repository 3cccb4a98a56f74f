# NanosOS in Dafny

NanosOS is a small operating system in C for the ESP32-S3. This project models its scheduler and IPC, its file
system's data path, its three memory allocators, its Android Auto framing with CRC-32 and its clipped rectangle fill,
and proves what they promise. Code that works in place is modelled by classes and methods with the loops of the
source; each method is proved against functions on values, and the theorems are about those. Protocols with
interleavings are step systems whose steps are the atomic pieces of the code.

`dafny verify dfyconfig.toml` checks everything.

## How to read it

| files | component |
|---|---|
| Iteration, Crc32 | the checksum and its algebra |
| AapWire, AapTransport | frames, the receive loop |
| Framebuffer | clipping, fill, dirty bands |
| BlockCache, FileModel, NameModel, NanosFs | write-back cache, files, names, the file system |
| LinkedList, BitWord, Multiplication, Bytes, Tiling, BlockHeader, SizeClass | shared: list contents, machine words, arithmetic, memory cut into blocks, block headers, size classes |
| SegLists, HeapModel, Heap | the two-level segregated-fit heap |
| PsramHeap | the first-fit PSRAM heap |
| SlabModel, Slab | the slab caches on the heap |
| TaskLinks, SchedModel, SchedRuns, SchedTheorems, SchedMem, Scheduler, BootAndBoost | the scheduler |
| Timers, Semaphore, MessageRing, MessageQueue, Mutex | timers and IPC |

Pointers are addresses. A record that is reached through pointers (a block header, a task control block, a timer) is
an entry of a map from addresses to records, and 0 is NULL; so two lists that share a link field really share it.
A field such as `lists`, `tiles` or `where` is ghost: it names what the memory stands for, and the `Valid` predicates
say how. `stamp` and `clock` of the scheduler have no counterpart in C; they only number the waits so that "in order
of arrival" can be said, and no branch reads them. Machine words that are used as bit sets are sequences of 32 bits,
the CRC register is a 32-bit vector, and sizes are integers with the 32-bit wrap-around of `size_t` written out where
requests are rounded.

Where the code departs from its documentation or from the obvious claim, the exact condition is proved:

- find may return too small a block (`HeapModel.FindFitsIff`), which one k_malloc and one k_free bring about
  (`Heap.Tlsf.ReachMisserved`), also for the pages of the slab caches (`Slab.Slabs.ReachMisserved`); malloc then leaves
  a memory that no heap fits (`HeapModel.ShortBlockBreaksHeap`);
- a PSRAM request near 2^32 wraps to 0 bytes (`PsramHeap.WrappedRequestIff`);
- the boost leaves a ready owner in the queue of its old priority, and a waiting owner in its old place
  (`BootAndBoost.OwnerBoostIff`); such an owner is then removed from the wrong queue (`BootAndBoost.BoostMisremovesIff`);
- the first yield queues idle a second time (`BootAndBoost.FirstYieldIff`);
- starting a timer that is listed already, as every second start of a timer is, breaks the list
  (`Timers.StartKeepsListIff`);
- tasks may sleep beside a free permit or a free lock, and a give to a waiter may serve nobody (`Semaphore.NoLostIff`,
  `Semaphore.WokenTakesIff`, `MessageQueue.NoLostIff`, `MessageQueue.WokenReceivesIff`, `MessageQueue.WokenSendsIff`,
  `Mutex.NoLostIff`);
- a file created under a path longer than 59 characters is never found under it again
  (`NameModel.CreatedFoundIff`);
- clipping wraps for large or negative extents (`Framebuffer.ClipExactIff`);
- formatting a mounted file system leaves cache and descriptors as they were (`NanosFs.FileSystem.Format`): open
  descriptors then name inodes that are not in use, and blocks in the cache read as before the format;
- files are gone after every remount, because the bitmaps are saved by format only (`NanosFs.FileSystem.Mount`).

What is assumed of the world: flash reads and writes succeed in the file system (the cache alone also models failed
reads), a flash write stores the given bytes in erased cells and may leave anything in others, inode records are
stored as written, each inode has at most one open descriptor, the USB stream delivers what was sent, timer callbacks
leave the timer list alone, masked sections are atomic.

## Model

| member | source | states |
|---|---|---|
| Crc32.ChecksumIsRfc | nanos_os/usb/aap_transport.c:36-37 | the bitwise checksum equals the table-driven CRC-32 of section 8 of RFC 1952 on every byte string |
| Crc32.CheckValue | nanos_os/usb/aap_transport.c:36-37 | the checksum of the digits 1 to 9 is 0xCBF43926, the check value of CRC-32 |
| Crc32.BurstDetected | nanos_os/usb/aap_transport.c:36-37 | two messages of equal length that differ, and only inside four consecutive bytes, have different checksums |
| Crc32.BitStepUndone | nanos_os/usb/aap_transport.c:36-37 | one bit step is undone by a bit unstep, so it is a bijection of the register |
| Crc32.BitStepLinear | nanos_os/usb/aap_transport.c:36-37 | one bit step distributes over exclusive or |
| Crc32.AbsorbInjective | nanos_os/usb/aap_transport.c:36-37 | different registers stay different over any common tail of bytes |
| Crc32.SealedIsResidue | nanos_os/usb/aap_transport.c:36-37 | a frame ends in its own little-endian checksum exactly when the register over the whole frame reaches the fixed residue |
| Crc32.BurstBreaksSeal | nanos_os/usb/aap_transport.c:36-37 | a change inside four consecutive bytes of a frame, its checksum included, leaves a frame that does not check |
| Crc32.Crc32b | nanos_os/usb/aap_transport.c:36-37 | the two loops compute the RFC 1952 checksum of the first n bytes of the array |
| AapWire.StreamRoundTrip | nanos_os/usb/aap_transport.c:42-46 | for every list of sendable messages the receiver delivers, from the concatenated frames, the same channels and payloads with the two low bits of the flags set, counts every frame and byte, no error, and goes on with the bytes behind them |
| AapWire.OrThreeIsOr | nanos_os/usb/aap_transport.c:43 | the flags of a frame are those of the caller with the low byte or-ed with 3 and the high byte unchanged |
| AapWire.RoundTripIffSendable | nanos_os/usb/aap_transport.c:42-46 | one frame is delivered unchanged exactly when the channel is below 8 and the payload at most 16384 bytes |
| AapWire.BadCheckDropsOneFrame | nanos_os/usb/aap_transport.c:75-84 | a well-headed frame whose check fails costs one error and exactly its own bytes |
| AapWire.ReceiveFrame | nanos_os/usb/aap_transport.c:75-84 | one frame in front of any stream is consumed whole and counted once |
| AapWire.CutFrame | nanos_os/usb/aap_transport.c:75-84 | a frame cut off anywhere costs nothing when the header is not complete, else one error, unless only check bytes are missing and the variable they are read into happens to hold them |
| AapTransport.StreamSurvives | nanos_os/usb/aap_transport.c:42-46 | the round trip with the real checksum |
| AapTransport.BurstDropsOneFrame | nanos_os/usb/aap_transport.c:75-84 | a frame with a burst of up to four damaged bytes that leaves its length and some valid channel is dropped with one error and the stream behind it is read as if it had not been there |
| AapTransport.BuildFrame | nanos_os/usb/aap_transport.c:42-46 | byte by byte: channel, three zeros, the flags with both low bits set and the length low byte first, the payload, the little-endian checksum of all that; the rest of the buffer is untouched and the frame's length is returned |
| AapTransport.Receiver.RxOnce | nanos_os/usb/aap_transport.c:75-84 | one turn of the receive loop leaves stream and counters where the parser's verdict on the next frame puts them |
| AapTransport.Receiver.Drain | nanos_os/usb/aap_transport.c:71-84 | the loop run to the end of the stream has the totals of the parser specification |
| Framebuffer.ClipExactIff | nanos_os/gui/framebuffer.c:28-29 | the clipped rectangle is the part of the asked one on the screen exactly when no 16-bit sum wraps and no negative extent is turned around |
| Framebuffer.NonNegativeIsExact | nanos_os/gui/framebuffer.c:28-29 | for non-negative width and height clipping is exact |
| Framebuffer.NegativeWidthPaints | nanos_os/gui/framebuffer.c:28-29 | a concrete negative width that wraps in 16 bits and paints pixels nobody asked for |
| Framebuffer.PaintedPicture | nanos_os/gui/framebuffer.c:27-31 | after a fill with non-negative width and height a pixel has the colour if it was asked for and is unchanged otherwise |
| Framebuffer.MarkedBands | nanos_os/gui/framebuffer.c:26 | the bands from the first to the last marked one are exactly the 16-row bands that meet the rows |
| Framebuffer.MarkedIffPainted | nanos_os/gui/framebuffer.c:26-31 | a fill marks a band exactly when it paints a pixel in it, for every request |
| Framebuffer.Screen.Mark | nanos_os/gui/framebuffer.c:26 | exactly the bands that meet the rows become dirty, and none is cleaned |
| Framebuffer.Screen.FillRow | nanos_os/gui/framebuffer.c:31 | paired stores and the odd tail set exactly w pixels from d on |
| Framebuffer.Screen.FillRect | nanos_os/gui/framebuffer.c:27-31 | exactly the pixels of the clipped rectangle change, all to the colour, and exactly the bands it meets are marked |
| BlockCache.WriteBackKeepsViews | nanos_os/fs/nfs.c:39-44 | writing a dirty entry back and invalidating nothing else changes the view of no block |
| BlockCache.StoreSetsView | nanos_os/fs/nfs.c:53-57 | replacing a clean or unused entry sets the view of that block and of no other |
| BlockCache.VictimUnique | nanos_os/fs/nfs.c:39-41 | the eviction rule determines one slot: the first unused one, else the one with the least last-use time |
| BlockCache.SpoiledSlot | nanos_os/fs/nfs.c:49-51 | a failed read leaves all views intact exactly when the slot's old bytes survive under its old tag or the slot was unused |
| BlockCache.Cache.Find | nanos_os/fs/nfs.c:38 | finds the one valid entry of the block, or -1 when there is none |
| BlockCache.Cache.Evict | nanos_os/fs/nfs.c:39-44 | returns the victim, clean, with every view unchanged though flash must be erased before it is written; flash is written exactly when the victim was changed |
| BlockCache.Cache.ReadBlock | nanos_os/fs/nfs.c:45-52 | returns the view of the block, changes no view and caches no block twice; a hit leaves flash alone, a miss writes it only for a changed victim; the slot is stamped and a fetched block is clean; says what a failed read does |
| BlockCache.Cache.WriteBlock | nanos_os/fs/nfs.c:53-57 | changes the view of the block to the data and no other view; the block is marked as changed and stamped, and flash hears of it on eviction only |
| FileModel.PointersDistinct | nanos_os/fs/nfs.c:58-62 | direct pointers of all inodes name pairwise distinct allocated blocks of the data region |
| FileModel.AreasApart | nanos_os/fs/nfs.c:5-23 | superblock, journal, inode records and data blocks lie one behind the other on the flash, and the data blocks fill the rest of it |
| FileModel.ChunkRead | nanos_os/fs/nfs.c:111-114 | the bytes of one block from an offset on are the same stretch of the file's byte sequence |
| FileModel.ChunkWritten | nanos_os/fs/nfs.c:119-124 | patching one block at an offset patches the file's byte sequence at the position, overwriting or extending |
| FileModel.ContentFrame | nanos_os/fs/nfs.c:116-124 | a block that a file does not point to does not matter to its contents |
| FileModel.BooksInPlace | nanos_os/fs/nfs.c:123-125 | a write into an existing block keeps ownership and the balance of free and owned blocks |
| FileModel.BooksGrown | nanos_os/fs/nfs.c:122 | a write that takes a free block moves one block from free to owned: free blocks plus file blocks stay the data-block total |
| FileModel.WroteInPlace | nanos_os/fs/nfs.c:119-124 | such a write patches this file's bytes and leaves every other file's bytes alone |
| FileModel.WroteNewBlock | nanos_os/fs/nfs.c:119-124 | the same when a fresh block, filled with 0xFF, is taken first |
| FileModel.WroteTwice | nanos_os/fs/nfs.c:119-124 | two consecutive pieces amount to one write of both |
| FileModel.SizeWithinLimit | nanos_os/fs/nfs.c:119-125 | no file grows beyond the twelve direct blocks or the free space it can still get |
| FileModel.CountFreeTake | nanos_os/fs/nfs.c:60-61 | taking a free block lowers the number of zero bits of the bitmap by one |
| NameModel.OpenKeepsDescriptorsIff | nanos_os/fs/nfs.c:85-106 | one descriptor per inode survives an open exactly when the path is not open already or no descriptor results |
| NameModel.CloseKeepsDescriptors | nanos_os/fs/nfs.c:128 | close keeps that too |
| NameModel.CreatedFoundIff | nanos_os/fs/nfs.c:96-106 | a file just created is found again under its path exactly when the path fits in 59 characters |
| NameModel.LookupStable | nanos_os/fs/nfs.c:85-106 | opening one path does not change which inode another, fitting path names |
| NameModel.CloseThenReopen | nanos_os/fs/nfs.c:90-95 | after close, opening the same path finds the same inode at position 0 |
| NameModel.LongPathMakesTwoFiles | nanos_os/fs/nfs.c:96-106 | creating an overlong path twice makes two files |
| NameModel.StoredMatchesIff | nanos_os/fs/nfs.c:93-103 | the stored name matches the path again exactly when nothing was cut off |
| NameModel.WriteCommits | nanos_os/fs/nfs.c:116-127 | after a write the inode on the medium and in the descriptor agree and hold the patched bytes |
| NameModel.WriteCloseReopen | nanos_os/fs/nfs.c:85-128 | write, close and reopen by name yields a descriptor with the written bytes |
| NameModel.LookupSameNames | nanos_os/fs/nfs.c:90-95 | lookup depends on names only |
| NanosFs.FileSystem.Mount | nanos_os/fs/nfs.c:63-71 | a mounted system is valid, and no path is found after any mount, because the bitmaps are saved by format only |
| NanosFs.FileSystem.Format | nanos_os/fs/nfs.c:72-83 | in any session: all sectors are erased, no inode is in use, the books balance, no path is found; cache and descriptors stay, so the session stays sound exactly when no file is open and no clean cached copy differs from an erased sector |
| NanosFs.FileSystem.Open | nanos_os/fs/nfs.c:85-106 | an inode is taken exactly when the path names none, the create bit 0x10 is set, a descriptor is closed and an inode is unused; a path that names a file opens the first one at position 0 in the first closed descriptor; else the answer is -1 and nothing changes; no file's bytes change |
| NameModel.OpenSpecOpens | nanos_os/fs/nfs.c:85-106 | the same of the specification function, for every table of names, descriptors and inodes |
| NanosFs.FileSystem.Close | nanos_os/fs/nfs.c:128 | marks the one descriptor as closed and changes no other; -1 outside 0 to 15 |
| NanosFs.FileSystem.Read | nanos_os/fs/nfs.c:107-115 | returns exactly min(len, size - pos) bytes, those of the file at pos, moves pos behind them and changes no file |
| NanosFs.FileSystem.Write | nanos_os/fs/nfs.c:116-127 | writes the longest prefix there is room for at pos, overwriting or extending; other files keep their bytes, ownership and balance hold |
| NanosFs.FileSystem.AllocBlk | nanos_os/fs/nfs.c:58-62 | takes the first free data block, or fails when there is none |
| NanosFs.FileSystem.WriteLoop | nanos_os/fs/nfs.c:119-124 | the div and mod loop performs one write of the whole prefix |
| NanosFs.FileSystem.ReadLoop | nanos_os/fs/nfs.c:111-114 | the div and mod loop reads one contiguous stretch |
| SizeClass.MapMonotoneIff | nanos_os/mm/allocator.c:23-25 | for sizes 0 < a <= b the class of a is not behind that of b, except exactly when a is below 8 and b from 8 up to a + 7 |
| SizeClass.SlotBounds | nanos_os/mm/allocator.c:23-25 | a size lies between the bounds of its class; only the last class is unbounded |
| SizeClass.LowerInClass | nanos_os/mm/allocator.c:23-25 | the lower bound of a class is in it |
| SizeClass.ClassFitsIff | nanos_os/mm/allocator.c:34-37 | every block of the request's class or a later one is large enough exactly when the request is the lower bound of its class |
| SizeClass.BoundIffMultiple | nanos_os/mm/allocator.c:23-25 | lower bounds are the multiples of an eighth of the largest power of two below |
| SizeClass.SmallSizesAreBounds | nanos_os/mm/allocator.c:23-25 | every multiple of 16 below 256 is a lower bound |
| SegLists.InsertedOk | nanos_os/mm/allocator.c:26-28 | ins keeps every list doubly linked and in the class of its blocks, and both bitmap levels in step with the lists |
| SegLists.RemovedOk | nanos_os/mm/allocator.c:29-33 | rem does, at any place of a list |
| SegLists.BestSameLevel | nanos_os/mm/allocator.c:34-37 | a bit at or above the request's on its own level is the first non-empty class at or above the request's |
| SegLists.BestLaterLevel | nanos_os/mm/allocator.c:34-37 | otherwise the lowest bit of the next non-empty level is |
| SegLists.NoLevelLeft | nanos_os/mm/allocator.c:34-37 | otherwise no class at or above the request's has a block |
| HeapModel.RemovedHeap | nanos_os/mm/allocator.c:29-33 | rem turns a free block into a live one and the blocks still tile the heap with matching headers and lists |
| HeapModel.InsertedHeap | nanos_os/mm/allocator.c:26-28 | ins turns a live block into a free one with the same guarantee |
| HeapModel.SplitHeap | nanos_os/mm/allocator.c:51 | cutting a live block and inserting its rest keeps the heap tiled by described blocks |
| HeapModel.CutCommutes | nanos_os/mm/allocator.c:51 | giving the block its size after inserting the rest, as the code does, amounts to cutting first |
| HeapModel.CarveSize | nanos_os/mm/allocator.c:51-52 | a live block has the rounded size, or 16 bytes more when only 16 are left; a rest is split off exactly from 24 bytes on |
| HeapModel.BooksBalance | nanos_os/mm/allocator.c:51-55 | live and free bytes add up to the heap |
| HeapModel.BlocksApart | nanos_os/mm/allocator.c:46-55 | blocks share no byte and payloads are 16-aligned |
| HeapModel.FindFitsIff | nanos_os/mm/allocator.c:34-37 | find returns a large enough block in every well-formed heap where mm_heap_init can put one and that has room for the request, exactly when the rounded request is the lower bound of its class |
| HeapModel.BoundIsAdequate | nanos_os/mm/allocator.c:34-37 | for a lower bound, the block found is large enough |
| HeapModel.FreedServesIff | nanos_os/mm/allocator.c:26-37 | in every well-formed heap a block just freed serves the next request of its class, soundly exactly when it is large enough |
| HeapModel.ShortBlockFound | nanos_os/mm/allocator.c:34-37 | in every well-formed heap, after a block of 256 bytes was freed, find answers a request of 264 bytes, which rounds to 272, with that block |
| HeapModel.OnlyFreeServes | nanos_os/mm/allocator.c:34-37 | a heap with one large free block serves the request from it |
| HeapModel.ShortBlockBreaksHeap | nanos_os/mm/allocator.c:46-52 | from any well-formed heap in which find picks a block smaller than the request, rem and the split with the wrapped remainder leave a memory that no lists and no tiling fit |
| HeapModel.RoundedCoversIff | nanos_os/mm/allocator.c:47 | the rounded size covers request and header exactly below 2^32 - 23 |
| Heap.Tlsf.constructor | nanos_os/mm/allocator.c:39-44 | a fresh heap is one free block, well-formed |
| Heap.Tlsf.Ins | nanos_os/mm/allocator.c:26-28 | the pointer and bitmap writes are the insertion; payload bytes change only in the prv words of the block and the old head |
| Heap.Tlsf.Rem | nanos_os/mm/allocator.c:29-33 | the pointer and bitmap writes are the removal; payload bytes change only in the next block's prv word |
| Heap.Tlsf.Find | nanos_os/mm/allocator.c:34-37 | the head of the first non-empty class at or above the request's, or NULL iff there is none |
| Heap.Tlsf.Malloc | nanos_os/mm/allocator.c:46-52 | NULL iff the request is 0 or no class has a block; else the head of the best class is carved, used and fre move by the block's size, and bytes change in free blocks only |
| Heap.Tlsf.Release | nanos_os/mm/allocator.c:54-55 | the block becomes free at the head of its class's list; bytes of other live blocks are unchanged |
| Heap.Tlsf.MallocFree | nanos_os/mm/allocator.c:46-55 | one k_malloc and one k_free on a heap of one free block: of the requests of the freed block's class exactly those no larger than it are served soundly from then on, whatever room is left |
| Heap.Tlsf.ReachMisserved | nanos_os/mm/allocator.c:39-55 | for every request that is no lower bound of its class a run of mm_heap_init, k_malloc and k_free leads to a heap that has room for it and serves it too short a block |
| Heap.Tlsf.Realloc | nanos_os/mm/allocator.c:56-58 | all four cases; the common prefix of the contents is kept, the old block is freed, and when no block is found nothing changes |
| PsramHeap.Conservation | nanos_os/mm/allocator.c:62-75 | used, free bytes and 64 for each allocation that left exactly 64 add up to the region |
| PsramHeap.BlocksApart | nanos_os/mm/allocator.c:62-75 | blocks are disjoint multiples of 64 inside the region |
| PsramHeap.TakenOk | nanos_os/mm/allocator.c:66-73 | taking a block whole or in part keeps list, headers and tiling in agreement |
| PsramHeap.FreedOk | nanos_os/mm/allocator.c:74-75 | freeing does |
| PsramHeap.RoundedCoversIff | nanos_os/mm/allocator.c:66 | the rounded size covers request and header exactly below 2^32 - 71 |
| PsramHeap.WrappedRequestIff | nanos_os/mm/allocator.c:66-73 | after a request that rounds to 0 some list and tiling still fit the memory exactly when the list is empty or its first block has 64 bytes |
| PsramHeap.Heap.constructor | nanos_os/mm/allocator.c:62-65 | one free block over the region |
| PsramHeap.Heap.Search | nanos_os/mm/allocator.c:67-72 | the first block of the list that is large enough, with the link to it; none iff no free block is |
| PsramHeap.Heap.Alloc | nanos_os/mm/allocator.c:66-73 | every size, also one whose rounding wraps: NULL iff no single free block is large enough; else the first fit is taken, and used and the leak count follow; the heap stays described unless the request rounds to 0 and the first block has more than 64 bytes |
| PsramHeap.Heap.Release | nanos_os/mm/allocator.c:74-75 | the block heads the free list and used drops by its size |
| SlabModel.ObjectsApart | nanos_os/mm/allocator.c:77-92 | objects of all four caches are the same or share no byte |
| SlabModel.ObjectInBlock | nanos_os/mm/allocator.c:77-92 | every object lies in the payload of a live heap block |
| SlabModel.GrownOk | nanos_os/mm/allocator.c:87-88 | a new page adds 32 free objects: live plus free stays cnt |
| SlabModel.DrawnOk | nanos_os/mm/allocator.c:89-90 | the head of the free list was not live and becomes live; live plus free stays cnt |
| SlabModel.GivenOk | nanos_os/mm/allocator.c:91-92 | a freed object becomes free; live plus free stays cnt |
| SlabModel.GivenThenDrawn | nanos_os/mm/allocator.c:89-92 | the object freed last is the next one handed out, and the pool is then as before |
| SlabModel.PoolStays | nanos_os/mm/allocator.c:77-92 | the caches stay sound whatever the heap does as long as live blocks stay live |
| Slab.PageIsNoBound | nanos_os/mm/allocator.c:78-88 | the page request of no cache, 8208, 4112, 2064 or 1040 bytes, is the lower bound of its size class |
| Slab.Slabs.ReachMisserved | nanos_os/mm/allocator.c:46-90 | for each cache a run of mm_slab_init, k_malloc, k_free and k_slab_alloc leads to a valid state where the cache is empty, the heap has room for a page, and find answers the page request with too short a block |
| Slab.Slabs.Grow | nanos_os/mm/allocator.c:86-88 | where find picks a large enough block, the page comes from the heap and all its objects are free; nothing changes when the heap has no block |
| Slab.Slabs.Alloc | nanos_os/mm/allocator.c:85-90 | a zeroed object that no cache had live; NULL iff the cache is unknown or neither it nor the heap has room; no live object's bytes change |
| Slab.Slabs.Release | nanos_os/mm/allocator.c:91-92 | the object is free again and the bytes of the live ones are unchanged |
| Slab.Slabs.Init | nanos_os/mm/allocator.c:78-84 | on a fresh heap of enough bytes every cache starts with 32 free objects, and what is left stays one free block |
| TaskLinks.EnqueueRing | nanos_os/kernel/scheduler.c:26-32 | enqueueing keeps the ring and appends the task |
| TaskLinks.DequeueRing | nanos_os/kernel/scheduler.c:33-39 | removing at any place keeps the ring without the task |
| TaskLinks.InsertChain | nanos_os/kernel/scheduler.c:40-45 | linking in where a walk stops inserts the task there |
| SchedMem.RqEnqueueLinked | nanos_os/kernel/scheduler.c:26-32 | rq_enqueue appends to one ready queue and disturbs no other list, though all share the link fields; the bitmap stays in step |
| SchedMem.RqRemoveLinked | nanos_os/kernel/scheduler.c:33-39 | so does rq_remove |
| SchedMem.PutInLinked | nanos_os/kernel/scheduler.c:40-45 | so does the insertion into a waiting list |
| SchedMem.HighestIsTop | nanos_os/kernel/scheduler.c:24 | the highest bit is the highest priority with a ready task |
| SchedModel.EnteredPartition | nanos_os/kernel/scheduler.c:26-45 | a task put where its state says keeps every task in exactly one place |
| SchedModel.LeftPartition | nanos_os/kernel/scheduler.c:33-39 | a task taken off its list leaves all others in place |
| SchedModel.YieldPartition | nanos_os/kernel/scheduler.c:95-106 | a yield keeps every task in its place and runs the dispatched one |
| SchedModel.YieldPossible | nanos_os/kernel/scheduler.c:99-100 | with the idle task there is always a task to dispatch |
| SchedModel.WaitingPartition | nanos_os/kernel/scheduler.c:128-154 | the masked part of sleeping or blocking keeps the partition |
| SchedModel.WokenPartition | nanos_os/kernel/scheduler.c:77-81 | the wake-up loop does |
| SchedRuns.StepInv | nanos_os/kernel/scheduler.c:74-181 | every step keeps the partition, the order of every waiting list, future wake-up times and the slice bounds |
| SchedRuns.RunInv | nanos_os/kernel/scheduler.c:74-181 | so they hold in every state of every run |
| SchedRuns.InitialInv | nanos_os/kernel/scheduler.c:52-72 | they hold after kernel_init, with idle ready and current |
| SchedRuns.SortedInsert | nanos_os/kernel/scheduler.c:40-45 | inserting where the walk stops keeps a list sorted, equals in order of arrival |
| SchedRuns.Woken | nanos_os/kernel/scheduler.c:77-81 | a tick readies exactly the due sleepers, in queue order behind each ready queue, and moves nothing else |
| SchedRuns.YieldPicksHighest | nanos_os/kernel/scheduler.c:95-106 | after a yield the running task has a full slice and no ready task a higher priority |
| SchedRuns.TickLeavesHighest | nanos_os/kernel/scheduler.c:74-93 | after a tick no ready task has a higher priority than the current one |
| SchedTheorems.TickPreemptsIff | nanos_os/kernel/scheduler.c:87-91 | a tick takes the CPU from a running task exactly when its slice was down to 1 or a task of higher priority is ready or wakes; otherwise it goes on with one tick less |
| SchedTheorems.KeepsCpu | nanos_os/kernel/scheduler.c:87-105 | in every run a task that was given a full slice and makes no yielding call keeps the CPU for ten ticks unless a higher task is ready or wakes |
| SchedTheorems.SliceEnds | nanos_os/kernel/scheduler.c:87-105 | the tenth tick gives the CPU away, with a full slice |
| SchedTheorems.ExitIsFinal | nanos_os/kernel/scheduler.c:50 | in every run a task that exits stays dead and, once it has yielded, never has the CPU again, until its control block is reused |
| SchedTheorems.SleepIsExact | nanos_os/kernel/scheduler.c:128-134 | in every run a sleeper until w sleeps before w and is up in the first state at w |
| SchedTheorems.SleepCallIsExact | nanos_os/kernel/scheduler.c:128-134 | in every run task_sleep_ticks(n) called at tick t sleeps before t + n and is up in the first state at t + n |
| SchedTheorems.DueSorted | nanos_os/kernel/scheduler.c:77-81 | tasks that wake together become ready by time and then in the order of their calls |
| SchedTheorems.SleeperStep | nanos_os/kernel/scheduler.c:74-86 | one step wakes a sleeper exactly when it is the tick of its time |
| SchedTheorems.YieldAdvances | nanos_os/kernel/scheduler.c:95-106 | a yield dispatches a waiting task or moves it one place ahead |
| SchedTheorems.RunsInTime | nanos_os/kernel/scheduler.c:87-106 | a ready task with k ahead in its queue runs within 10 (k + 1) ticks of any run where no higher task has the CPU |
| Scheduler.Kernel.constructor | nanos_os/kernel/scheduler.c:52-58 | kernel_init queues idle and makes it current; the invariant holds, and tasks can be created from there |
| Scheduler.Kernel.Boot | nanos_os/kernel/scheduler.c:67-72 | kernel_start and the first yield, with whatever tasks were created meanwhile, come to one yield step when idle is alone in its queue |
| Scheduler.Kernel.Enqueue | nanos_os/kernel/scheduler.c:26-32 | the pointer and bitmap writes have the effect that SchedMem.RqEnqueueLinked describes on all lists |
| Scheduler.Kernel.Remove | nanos_os/kernel/scheduler.c:33-39 | the pointer and bitmap writes have the effect that SchedMem.RqRemoveLinked describes on all lists |
| Scheduler.Kernel.SleepStart | nanos_os/kernel/scheduler.c:40-45 | the walk and links put the task where the sorted insertion says |
| Scheduler.Kernel.BlockStart | nanos_os/kernel/scheduler.c:147-152 | the walks of the mutex and the semaphore do for their waiters |
| Scheduler.Kernel.WakeFirst | nanos_os/kernel/scheduler.c:159 | the first waiter becomes ready and leaves the list |
| Scheduler.Kernel.Yield | nanos_os/kernel/scheduler.c:95-106 | refines the yield step and keeps all invariants |
| Scheduler.Kernel.Tick | nanos_os/kernel/scheduler.c:74-93 | refines the tick step and keeps all invariants |
| Scheduler.Kernel.TaskCreate | nanos_os/kernel/scheduler.c:108-124 | rejects bad arguments without effect, else appends a ready task, also on the control block of a dead one |
| Scheduler.Kernel.ExitStart | nanos_os/kernel/scheduler.c:50 | the current task is dead and on no list |
| Scheduler.Kernel.TaskSleep | nanos_os/kernel/scheduler.c:128-134 | yields for 0 ticks, else sleeps and yields |
| BootAndBoost.BoostKeepsPartitionIff | nanos_os/kernel/scheduler.c:144 | the boost keeps every task in its place exactly when the owner is not ready |
| BootAndBoost.BoostKeepsOrderIff | nanos_os/kernel/scheduler.c:144-151 | the boost keeps places and the order of all waiting lists exactly when the owner is neither ready nor queued on a mutex behind a waiter below the new priority, or equal to it and later |
| BootAndBoost.OwnerBoostIff | nanos_os/kernel/scheduler.c:143-144 | in every state of mutex and scheduler the boost that a failed swap makes keeps places and orders exactly when the owner is neither ready nor out of turn |
| BootAndBoost.ReadyOwnerBoosted | nanos_os/kernel/scheduler.c:143-144 | a run from kernel_init reaches a failed swap whose boost of a ready owner breaks the queues |
| BootAndBoost.BoostMisremovesIff | nanos_os/kernel/scheduler.c:33-39 | after rq_remove took the head of queue p with priority r some lists still fit the memory exactly when r is p |
| BootAndBoost.RestoreKeepsInv | nanos_os/kernel/scheduler.c:158 | giving the running task its own priority back in k_mutex_unlock keeps the whole scheduler invariant |
| BootAndBoost.BoostByRequeue | nanos_os/kernel/scheduler.c:144 | remove, boost and enqueue keeps the partition |
| BootAndBoost.FirstYieldIff | nanos_os/kernel/scheduler.c:57-69 | the ring of queue 0 survives the first yield exactly when idle is alone in it |
| BootAndBoost.FirstYieldLosesTasks | nanos_os/kernel/scheduler.c:57-69 | whatever lists the memory then spells, idle is alone in queue 0: other tasks there are lost |
| Timers.FiresExactly | nanos_os/kernel/scheduler.c:82-86 | in every run a timer started at s fires at s + p, s + 2p, ... when periodic, once otherwise, and at no other tick |
| Timers.ArmedStep | nanos_os/kernel/scheduler.c:82-86 | every step keeps a started timer armed for its next multiple |
| Timers.NextStep | nanos_os/kernel/scheduler.c:85 | arming again at the tick itself stays on the multiples |
| Timers.StartKeepsListIff | nanos_os/kernel/scheduler.c:205-207 | for every list, timer and place the walk can stop at: some list the links then spell holds all timers exactly when the timer was not listed before |
| Timers.TimerList.Start | nanos_os/kernel/scheduler.c:202-208 | any timer, listed or not: fields and links are written as in the code; the links spell all timers afterwards iff it was not listed, and then it stands behind every timer up to the first that expires later |
| Timers.TimerList.Tick | nanos_os/kernel/scheduler.c:82-86 | the callbacks of exactly the due timers run, in list order, and each is armed again or switched off; timers that are not listed do not change |
| Semaphore.Ledger | nanos_os/kernel/scheduler.c:162-181 | under every interleaving the count is between 0 and max and initial + gives = count + takes + dropped + spent, so takes never exceed initial + gives |
| Semaphore.StepInv | nanos_os/kernel/scheduler.c:163-181 | every atomic piece keeps the ledger and the queue of blocked tasks |
| Semaphore.DropsIff | nanos_os/kernel/scheduler.c:179 | a step drops a permit exactly when it is a give at the maximum with nobody waiting |
| Semaphore.GiveWakes | nanos_os/kernel/scheduler.c:178 | a give with tasks waiting wakes the first of them and leaves the count and everybody else alone |
| Semaphore.GiveUpLeaves | nanos_os/kernel/scheduler.c:167-168 | a take that gives up is over and changes nothing else |
| Semaphore.CanGoOn | nanos_os/kernel/scheduler.c:163-181 | a task can make a step exactly when it is not asleep; after a failed attempt it may leave or block |
| Semaphore.GivesAddUp | nanos_os/kernel/scheduler.c:176-180 | in every run with nobody waiting and no take, k gives lead from count c to min(max, c + k) |
| Semaphore.NoLostStepIff | nanos_os/kernel/scheduler.c:163-181 | a step keeps nobody asleep beside a free permit exactly when it is not a block with the count above 0 |
| Semaphore.NoLostIff | nanos_os/kernel/scheduler.c:163-181 | in a run nobody ever sleeps beside a free permit exactly when no task blocks with the count above 0 |
| Semaphore.LostWakeup | nanos_os/kernel/scheduler.c:165-169 | such a run with a sleeper beside a free permit exists |
| Semaphore.WokenTakesIff | nanos_os/kernel/scheduler.c:165-178 | a give to a waiter that retries at once serves a take exactly when the count was above 0; otherwise the give is gone and the waiter blocks again behind the others |
| MessageRing.PutContents | nanos_os/kernel/scheduler.c:190-191 | a copy to the tail appends to the contents |
| MessageRing.TakeContents | nanos_os/kernel/scheduler.c:197-198 | a copy from the head removes the oldest item |
| MessageRing.Buffer.CopyIn | nanos_os/kernel/scheduler.c:190-191 | the bytes of one slot change and the items get the new one behind |
| MessageRing.Buffer.CopyOut | nanos_os/kernel/scheduler.c:197-198 | returns the oldest item and removes it |
| MessageQueue.QueueIsFifo | nanos_os/kernel/scheduler.c:182-200 | under every interleaving the items received followed by those stored are the items sent, in order |
| MessageQueue.Permits | nanos_os/kernel/scheduler.c:187-200 | both permit equations, with the gives lost on waiters |
| MessageQueue.NothingDropped | nanos_os/kernel/scheduler.c:182-200 | in every state of every run no give was dropped, so both permit equations hold with the gives spent on waiters alone |
| MessageQueue.SendThenReceive | nanos_os/kernel/scheduler.c:187-200 | with space free and nobody waiting, a send and then a receive pass without blocking, and the oldest item comes out |
| MessageQueue.CarriesItsItem | nanos_os/kernel/scheduler.c:187-193 | in every run a task copies in the item its call of k_msgq_send was given |
| MessageQueue.TimeoutLeaves | nanos_os/kernel/scheduler.c:188-195 | a call that times out is over and leaves queue and semaphores as they were |
| MessageQueue.CallGoesOn | nanos_os/kernel/scheduler.c:187-200 | in every reachable state each call has its next step unless its task is asleep on a semaphore |
| MessageQueue.CopiesAreSafe | nanos_os/kernel/scheduler.c:190-198 | no copy overwrites an unread slot or reads an empty one |
| MessageQueue.StepInv | nanos_os/kernel/scheduler.c:187-200 | every step of any sender or receiver keeps the accounts |
| MessageQueue.CopiesNeverStuck | nanos_os/kernel/scheduler.c:187-200 | in every state of a run an enabled copy finds its slot |
| MessageQueue.NoLostIff | nanos_os/kernel/scheduler.c:187-200 | in a run no sender or receiver ever sleeps beside a free permit exactly when none goes to sleep with one free |
| MessageQueue.WokenReceivesIff | nanos_os/kernel/scheduler.c:176-200 | the first waiting receiver, woken by a send and retrying at once, gets an item exactly when not_empty had a permit; otherwise it blocks again with the item in the queue |
| MessageQueue.WokenSendsIff | nanos_os/kernel/scheduler.c:176-200 | the first waiting sender, woken by a receive and retrying at once, gets a slot exactly when not_full had a permit; otherwise it blocks again with room in the queue |
| Mutex.MutualExclusion | nanos_os/kernel/scheduler.c:140-161 | in every interleaving of any tasks, whatever the scheduler and the boost do, locked is set iff exactly one task is between acquire and release |
| Mutex.SwapTakesIff | nanos_os/kernel/scheduler.c:142-143 | the swap takes the lock exactly when it is free |
| Mutex.LockThenUnlock | nanos_os/kernel/scheduler.c:140-158 | a task that finds the lock free takes it, owns it, and by its unlock leaves it free |
| Mutex.GiveUpLeaves | nanos_os/kernel/scheduler.c:145-146 | a lock call that gives up is over and leaves the lock alone |
| Mutex.CanGoOn | nanos_os/kernel/scheduler.c:140-161 | every task can go on; after a failed swap it may leave or block |
| Mutex.MutexStepInv | nanos_os/kernel/scheduler.c:140-161 | with fixed priorities, swap, owner write, block, unlock and every other kernel step keep exclusion, ownership, the queue of waiters and the scheduler in order |
| Mutex.MutexRunInv | nanos_os/kernel/scheduler.c:140-161 | so they hold in every state of every run of the mutex and the scheduler |
| Mutex.NoLostStepIff | nanos_os/kernel/scheduler.c:140-161 | a step keeps every waiter from waiting beside a free lock for which nobody is going to try, exactly when it does not put a task to sleep in that situation |
| Mutex.NoLostIff | nanos_os/kernel/scheduler.c:140-161 | in a run nobody ever waits beside a free lock that nobody is going to try for exactly when no task goes to sleep then |
| Mutex.OnlyHolderUnlocks | nanos_os/kernel/scheduler.c:155-158 | an unlock by anyone but the holder changes nothing; the holder's leaves nobody inside |
| Mutex.UnlockReadiesFirst | nanos_os/kernel/scheduler.c:159 | unlock readies the waiter of highest priority and, among those, the one that came first |

## Left out

- Heap.Tlsf.Malloc: requires that the block find picks is large enough and that the rounded size is not 0, because the code goes wrong otherwise (HeapModel.ShortBlockBreaksHeap); HeapModel.FindFitsIff gives the condition on the request alone.
- Heap.Tlsf.Realloc: requires in addition that the rounded size does not wrap, because the copy would overrun the new block.
- Timers.FiresExactly: its runs start each timer at most once, because a second start loses timers (Timers.StartKeepsListIff); k_timer_start never unlinks, and the repository has no call that does.
- Scheduler.Kernel.Tick: runs after kernel_start, so the scheduler_running test is always true; timers are in their own module.
- Mutex.MutexStepInv: fixed priorities; the boost is a step of its own in BootAndBoost (OwnerBoostIff), and so is its end in k_mutex_unlock (RestoreKeepsInv). Mutex.UnlockReadiesFirst and Mutex.NoLostIff rest on fixed priorities too. Recursion is not implemented by the code.
- NanosFs.FileSystem.Open: the truncate and append flags are stored and never looked at by the code; open on an unmounted system or a NULL path is not modelled.
- Liveness and time-outs of mutex, semaphore and queue waits: a waiter with a time-out is on no sleep queue, and wake-ups can be lost.
- Semaphores, mutexes and queues in the allocators and the file system: calls are sequential there.
- k_calloc, k_dma_alloc, statistics, logging: they add nothing to the allocators' logic.
- Slab.Slabs.Grow: requires that the block find picks for the page is large enough; no page size of any cache guarantees it (Slab.PageIsNoBound, Slab.Slabs.ReachMisserved).
- Slab.Slabs.Alloc: requires the same when the cache is empty.
- Scheduler.Kernel.Boot: ticks between kernel_start and the first yield are left out; with idle alone in its queue they only move the clock and idle's slice.
- Semaphore.WokenTakesIff: the woken task retries with no other step in between; Semaphore.NoLostIff and Semaphore.Ledger have no such limit.
- HeapModel.FindFitsIff: requests so near 2^32 that the smallest block of their class and the request itself do not fit below it together are left out.
- Scheduler.Kernel.TaskCreate: the control block is no task's or that of a dead task whose stack is not in use; the code does not look.
- MessageQueue.WokenReceivesIff: the woken task retries with no other step in between.
- MessageQueue.WokenSendsIff: the same for a sender.
- HeapModel.ShortBlockBreaksHeap: the address of the remainder does not run past 2^32.
- Slab.Slabs.Release: requires that the object is live in the cache named; the code cannot tell.
- Wrap-around of the 64-bit tick count and of statistics counters, task ids and the task table, stacks and names of tasks.
- Journal replay, indirect blocks, erase counts and wear levelling: described in the documentation, not implemented.
- The connection handshake, dispatch to handlers and transmit task of the Android Auto transport: the receive loop is modelled in the RUNNING state.
- Rounded rectangles, text, animation: floating-point geometry.
- Context switches, interrupt masking, registers, the second core: a switch is the change of the current task, a masked section is one step.
