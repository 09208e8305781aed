# Verified model of a RISC-V kernel's storage and memory core

A Dafny model of the state machines at the heart of the kernel: the lwext4 filesystem (directories with
their hash-tree index, the write-back block cache, the block and inode allocators, file reads and writes,
recursive directory removal) and the memory manager (page-run allocator, region list, Sv39 page tables with
demand paging, fork and teardown). Code that updates its data in place is modelled by classes and methods
over mutable state, each proved against a specification on values; the specifications carry the lemmas.
`dafny verify dfyconfig.toml` checks everything.

The modules, in the order they build on each other:

- `DirNames`: names, entries and the dots. `DirBlock`: one directory block as a list of records that tile it; insert, remove and find.
  `LinearAdd`: adding an entry in scan order. `DirIter`: the iterator over arbitrary directory bytes, and the
  bytes of blocks that hold such records.
- `HtreeImage`, `HtreeLookup`, `HtreeSort`, `HtreeSplit`, `HtreeUpdate`, `HtreeRules`, `Htree`: the two-level index lies in
  the blocks of the directory. Its meaning is one flat list of (hash, leaf) slots. Lookup searches that list;
  splits of nodes leave it alone; splits of leaves insert one slot. `DirMap`: the directory as a map from
  names to inodes.
- `BcacheSpec`, `Bcache`, `BlockDevice`, `CacheRun`: the cache with its address tree, LRU tree, dirty list,
  reference counts and nested write-back counter. The logical disk is what a reader must get: cached
  up-to-date contents, else the device's block. Every run of client operations refines a plain array of blocks.
- `Arith`, `Bitmap`, `BlockGroups`, `FreeMap`, `InodeBlocks`, `Balloc`, `Ialloc`: bitmaps, group arithmetic in
  its 32 and 64 bit widths, and the allocators with counters in groups, superblock and inode.
- `ByteIo`, `FileSpec`, `FileIo`: byte ranges through whole physical blocks; files as lists of blocks in any
  physical layout; reads and writes through an unaligned head, contiguous runs and a tail.
- `DirTree`, `DirRm`: the tree of directories and the traversal that removes a subtree without a stack.
- `PmmSpec`, `Pmm`: runs of pages, the records that describe them and the linked free list.
- `LinkTable`, `Regions`: the doubly linked region list with its last-hit cache.
- `PteBits`, `PageTree`, `Vmm`, `Fork`, `Teardown`: page-table entries bit by bit, the tree of tables against the
  hardware's walk, page faults, fork and teardown of one space.
- `Families`, `Worlds`, `Spaces`: all address spaces together. `Families` counts who maps what, `Worlds` adds regions,
  permissions and isolation, `Spaces` is the objects and every run over them. A run may create spaces, fork any of
  them, enter regions, fault pages in, store and end spaces; `Spaces.Lifecycle` says that nothing is lost.

What the code and its specifications share, bits, flags, lengths, limits, roundings and machine widths, is stated once more in
plain numbers (`Bitmap.BitmapDigit`, `DirIter.ReadBytes`, `BcacheSpec.RangeIs`, `PteBits.PageLayout`, `Vmm.FlagBits` and others).

Some purposes of the code hold only under a condition. The model keeps the code as it is and states the
condition exactly; concrete inputs show the failing side:

- `ext4_bmap_bit_find_clr` answers its start when a clear bit lies before the first multiple of 8
  (`Bitmap.AnswerIsClear`, `Bitmap.AnswerCanBeTaken`); the allocators never meet that case (`Balloc.NotBefore`).
- A leaf split needs live records of more than half a block, else every entry is listed twice
  (`HtreeSplit.SplitData`, `Htree.AddedByIndex`, `Htree.SparseBlockSplitsBadly`, `Htree.SparseByDeletions`).
- After a proper split the new entry is listed exactly when its half has room: always for blocks above 1024
  bytes, not always for blocks of 1024 (`Htree.AddedByIndex`, `Htree.BigBlocksAdd`, `Htree.LostEntry`, `Htree.LostRun`).
- With metadata checksums a split index node is refused by every later descent through it, and the directory loses its
  index flag; nothing it lists is lost (`Htree.AddedByIndex`, `Htree.GrownIsRefused`, `Htree.HalvedIsRefused`,
  `Htree.Directory.FindEntry`).
- Invalidating a range starts at its first block's buffer (`BcacheSpec.InvalidateReaches`,
  `BcacheSpec.InvalidateMisses`).
- LRU ids stay unique exactly as long as the next id is not in use, which can fail once the 32-bit counter has
  wrapped (`BcacheSpec.FindGetUnique`, `BcacheSpec.AllocUnique`, `BcacheSpec.WrappedCounter`).
- Freeing a run past its group clears padding bits unless groups fill their bitmaps, and then leaves the blocks
  behind the group in use (`Balloc.RoundEnd`, `Balloc.RestForgotten`).
- A free run that begins with a painted page is not refused by a second free, which breaks the list (`Pmm.RestRefused`,
  `Pmm.PMM.FreePagesAt`, `Pmm.SelfLinked`).
- A zero-page allocation leaves its run in the free list (`Pmm.ZeroPages`); page counts are C ints
  (`Pmm.EnoughPages`).
- `GetUsableVMR` adds in 64 bits: its answer is good exactly when the first place that passes does not wrap around
  (`Regions.UsableIsGood`, `Regions.UsableWraps`). Without regions it answers without regard to `end`
  (`Regions.UsableEmpty`, `Regions.UsableBeyond`).
- A solved page fault makes the page translate exactly when the address is below 2^38 and its region may be read, or
  executed and not written: write without read is a reserved encoding (`Vmm.FaultServes`, `Vmm.WriteNeedsRead`,
  `Vmm.WriteOnlyRun`). The hardware is taken to set the accessed and dirty bits itself, as section 4.3.1 of the
  RISC-V Privileged Architecture permits: the kernel never sets them (`PteBits.PageReads`), so on hardware that
  faults on a clear accessed bit no page would ever translate.
- A page fault in the kernel's region takes a large page of the kernel for a table (`Vmm.FaultStrays`,
  `Vmm.KernelFaultRun`, `Spaces.StraysInKernel`).
- A region without permissions makes entries that read as table pointers (`Vmm.NeedsPermission`).
- Byte positions assume a partition that starts on a block boundary (`ByteIo.Position`).
- Recursive removal frees an inode whatever its link count (`DirRm.HardLinkLeft`, `DirRm.Fs.DirRmFiles`,
  `DirRm.FreedTwice`).

## Model

| member | source | states |
|---|---|---|
| `DirBlock.FindInBlock` | Kernel/File/lwext4/ext4_dir.c:654-695 | answers with the first live record that has the name, or with none exactly when no live record has it |
| `DirBlock.TryInsert` | Kernel/File/lwext4/ext4_dir.c:580-652 | succeeds exactly when some record has room, at the first such record, reusing a dead record whole or cutting a live one behind its name, and records the given name, inode and type; a refused insertion changes nothing |
| `DirBlock.PlacedRecords` | Kernel/File/lwext4/ext4_dir.c:601-644 | the new record has the given name, inode and type; together with the record it was cut from it takes that one's place, and all others stay |
| `DirBlock.PlacedOk` | Kernel/File/lwext4/ext4_dir.c:601-644 | placing an entry keeps the records tiling the block exactly and adds just that entry to the block's name bindings |
| `DirBlock.RemoveAt` | Kernel/File/lwext4/ext4_dir.c:527-578 | walking from the block's start finds the direct predecessor; the block afterwards lists everything but the removed entry and still tiles |
| `DirBlock.DroppedOk` | Kernel/File/lwext4/ext4_dir.c:541-574 | merging a record into its predecessor, or leaving it dead in front, keeps the tiling and takes out just its entry |
| `DirBlock.DroppedKeepsPlace` | Kernel/File/lwext4/ext4_dir.c:541-574 | a removal does not move an iterator that stands on the removed record: the next byte position starts a record again, with the same records behind it |
| `DirBlock.FullMeansLive` | Kernel/File/lwext4/ext4_dir.c:580-652 | a block that refuses an entry of block size or less has live records |
| `LinearAdd.LinearInsert` | Kernel/File/lwext4/ext4_dir.c:370-445 | the entry goes to the first block with room, and only when none has any to a new block behind the others |
| `LinearAdd.LinearAddOk` | Kernel/File/lwext4/ext4_dir.c:370-445 | after the linear algorithm the scan meets exactly one more entry and every block still tiles, also when index blocks are written over as ordinary blocks |
| `LinearAdd.FreshBlockOk` | Kernel/File/lwext4/ext4_dir.c:427-440 | a new block tiles and lists just its entry, with and without the checksum tail, a dead record of 12 bytes with type 0xDE |
| `DirIter.DirIter.Set` | Kernel/File/lwext4/ext4_dir.c:159-190 | publishes the record at the position exactly when it is aligned, lies in its block and its name fits its length, by the little-endian numbers in its bytes; on arbitrary bytes |
| `DirIter.ReadBytes` | Include/File/lwext4_include/ext4_dir.h:75-134 | a record written to bytes, its inode in four of them, its length in two, its name length in one or two, reads back as it was |
| `DirIter.DirIter.Seek` | Kernel/File/lwext4/ext4_dir.c:198-257 | lands on the record at the position, at the end or on an error as the bytes say, whichever block was loaded before |
| `DirIter.DirIter.Next` | Kernel/File/lwext4/ext4_dir.c:270-287 | always ends, at the first live record behind the current one, at the end or at the first bad record |
| `DirIter.WalkNext` | Kernel/File/lwext4/ext4_dir.c:270-287 | stepping to the next live record is stepping to the next element of the walk over all records |
| `DirIter.WalkApart` | Kernel/File/lwext4/ext4_dir.c:159-190 | whatever the bytes are, the records exposed follow each other without overlap |
| `DirIter.HasChildren` | Kernel/File/lwext4/ext4.c:178-219 | true exactly when the walk meets a live entry other than the dots before it meets a bad record, an error exactly when the bad record comes first |
| `DirIter.ChildrenOfRecords` | Kernel/File/lwext4/ext4.c:178-219 | on blocks whose bytes are those of well formed records the walk reaches the end and the answer is whether some live record of any block has a name other than the dots |
| `DirIter.EmptyRun` | Kernel/File/lwext4/ext4.c:178-219 | an empty directory of any block size, ".." with the rest of the block as its length, is read to its end and has no children |
| `HtreeImage.HashRange` | Kernel/File/lwext4/ext4_hash.c:249-323 | every hash is even and below the end-of-file marker even with its continuation bit; it is the value of the hash function without its lowest bit, but for the two values that this would make the marker |
| `HtreeLookup.SearchNode` | Kernel/File/lwext4/ext4_dir_idx.c:570-582 | the binary search in an index block ends at the last entry whose hash does not exceed the wanted one |
| `HtreeLookup.GetLeaf` | Kernel/File/lwext4/ext4_dir_idx.c:535-636 | the descent through a well formed index ends at a slot that brackets the hash; it reports a bad index exactly when the root or a node on its way is damaged |
| `HtreeLookup.LandsRight` | Kernel/File/lwext4/ext4_dir_idx.c:535-636 | searching level by level is searching the flat list of all slots |
| `HtreeLookup.NextBlock` | Kernel/File/lwext4/ext4_dir_idx.c:645-712 | steps to the very next slot, across index blocks, exactly when that slot may continue the hash |
| `HtreeLookup.Covers` | Kernel/File/lwext4/ext4_dir_idx.c:767-817 | every slot whose range can hold the hash lies between the landing slot and its last continuation, so the search misses none |
| `HtreeLookup.DxFind` | Kernel/File/lwext4/ext4_dir_idx.c:714-831 | on a well formed index it finds a first match in a leaf, or proves that no leaf has the name, including equal hashes that spill over leaves and index blocks; a damaged descent is reported |
| `HtreeLookup.LinearFind` | Kernel/File/lwext4/ext4_dir.c:484-520 | the loop over the blocks computes the first match in block order |
| `HtreeLookup.ScanMeans` | Kernel/File/lwext4/ext4_dir.c:478-525 | the scan finds a name exactly when some leaf lists it; index blocks show it nothing but the dots |
| `HtreeLookup.IndexAgreesWithScan` | Kernel/File/lwext4/ext4_dir_idx.c:714-831 | for every name but the dots, the index finds an entry exactly when the scan of the same blocks does, and with unique names the same record |
| `HtreeLookup.DotsDiffer` | Kernel/File/lwext4/ext4_dir_idx.c:714-831 | the exception: the dots lie in the root, which the scan sees and the index search does not |
| `HtreeLookup.DotsVisible` | Kernel/File/lwext4/ext4_dir_idx.c:374-412 | what the scan sees in an index block: the root shows the names of one and two full stops and covers its index with the second, a node is one dead record |
| `HtreeSort.BubbleSort` | Kernel/File/lwext4/LWEXT4_Tools.cpp:239-257 | in place, the result is the list by hash: sorted, with equal hashes in their old order |
| `HtreeSort.OneSortedForm` | Kernel/File/lwext4/LWEXT4_Tools.cpp:239-257 | two sorted lists with equal hashes in the same order are equal, so the sort has just one possible result |
| `HtreeSplit.Collect` | Kernel/File/lwext4/ext4_dir_idx.c:927-959 | the sort array holds every live record of the block, in the order of the block, and nothing else |
| `HtreeSplit.FindMid` | Kernel/File/lwext4/ext4_dir_idx.c:988-1000 | the cut is where the packed records would exceed half a block; when they fill at most half of it there is none and the cut stays 0 |
| `HtreeSplit.Pack` | Kernel/File/lwext4/ext4_dir_idx.c:1012-1039 | the loops write the records one behind the other, the last one up to the block's end |
| `HtreeSplit.PackedOk` | Kernel/File/lwext4/ext4_dir_idx.c:1012-1039 | packing loses nothing, tiles the block and leaves all spare bytes in one place |
| `HtreeSplit.SplitData` | Kernel/File/lwext4/ext4_dir_idx.c:893-1066 | the split is the proper one of the leaf, the cut and both halves determined by its records, exactly when the live records exceed half a block; otherwise the old block stays and everything is written a second time; with checksums both blocks end in their tail |
| `HtreeSplit.HalvesOk` | Kernel/File/lwext4/ext4_dir_idx.c:984-1000 | the left half fits into half a block and with the next record of the sorted list would not; both halves are not empty and together hold all live records |
| `HtreeSplit.SplitIsProper` | Kernel/File/lwext4/ext4_dir_idx.c:984-1062 | cutting a sorted list there separates the hashes, with the continuation bit exactly when both sides hold the boundary hash |
| `HtreeUpdate.WithSlotFlat` | Kernel/File/lwext4/ext4_dir_idx.c:863-884 | inserting an index entry inserts its slot right behind the path's in the flat list |
| `HtreeUpdate.GrownOk` | Kernel/File/lwext4/ext4_dir_idx.c:1193-1225 | moving the root's entries to a new node changes no slot and leaves room at the path's position |
| `HtreeUpdate.HalvedOk` | Kernel/File/lwext4/ext4_dir_idx.c:1134-1192 | halving a full index node changes no slot and leaves room at the path's position, in whichever half it ends up |
| `HtreeRules.SplitHash` | Kernel/File/lwext4/ext4_dir_idx.c:1002-1062 | the new slot's hash lies between its neighbours and each half's entries lie in their slot's range |
| `HtreeRules.SplitLeaf` | Kernel/File/lwext4/ext4_dir_idx.c:893-1066 | a proper leaf split keeps the directory well formed and its listing unchanged |
| `HtreeRules.AddToLeaf` | Kernel/File/lwext4/ext4_dir_idx.c:1310-1332 | adding an entry to the leaf of the slot its hash falls into keeps the directory well formed and adds just that entry |
| `HtreeRules.TakeFromLeaf` | Kernel/File/lwext4/ext4_dir.c:527-578 | taking entries out of a leaf keeps the index well formed |
| `Htree.Directory.DxInit` | Kernel/File/lwext4/ext4_dir_idx.c:349-464 | a fresh index over one empty leaf, with the smaller limit and the tail where checksums are on, is well formed, lists nothing and has the limits that the lookup expects |
| `Htree.Directory.FindEntry` | Kernel/File/lwext4/ext4_dir.c:448-525 | finds a name exactly when the linear scan does, through the index or, when the descent meets damage and the flag is dropped, by the scan |
| `Htree.Directory.InsertIndexEntry` | Kernel/File/lwext4/ext4_dir_idx.c:863-884 | the entries behind the cursor move up and the new one takes their place |
| `Htree.Directory.SplitIndex` | Kernel/File/lwext4/ext4_dir_idx.c:1074-1229 | fails exactly when the node and the root above it are full; otherwise no slot changes, the path leads to the same slot and its index block has room |
| `Htree.Directory.SplitLeafBlock` | Kernel/File/lwext4/ext4_dir_idx.c:893-1066 | the old block keeps the left part, a new block takes the right one, and the index gets exactly its slot |
| `Htree.Directory.SplitAndInsert` | Kernel/File/lwext4/ext4_dir_idx.c:1316-1337 | after a proper split the directory stays well formed and the entry is listed exactly when the half its hash belongs to has room for it; after an improper one every entry of the leaf is listed twice |
| `Htree.Directory.AddEntry` | Kernel/File/lwext4/ext4_dir_idx.c:1231-1363 | refused exactly when the index blocks on its path are full; otherwise the listing grows by exactly the new entry, recorded with its type, through leaf split, node split and root growth, exactly when the leaf or its half of a proper split has room, and else it is lost; the one case left, a split of a leaf filled at most by half, lists its entries twice; with checksums, too, where the limits stay as the lookup expects them exactly when no index block was split; the root keeps its dots |
| `Htree.Directory.DirAddEntry` | Kernel/File/lwext4/ext4_dir.c:343-446 | adds through the index, or in scan order when there is none or the descent meets damage, and then clears the flag |
| `Htree.Directory.RemoveEntry` | Kernel/File/lwext4/ext4_dir.c:527-578 | through the index, in scan order without one, or in scan order after a damaged descent dropped the flag: listing and scan lose exactly one entry with the name, or the name was not listed and nothing changes; a well formed index stays well formed |
| `Htree.DropListed` | Kernel/File/lwext4/ext4_dir.c:541-571 | merging a live record away takes exactly its entry from the listing and from what the scan meets, and the blocks still tile |
| `Htree.BigBlocksAdd` | Kernel/File/lwext4/ext4_dir_idx.c:1325-1337 | with blocks of 1056 bytes or more, that is every block size above 1024, the half that an entry belongs to has room after every proper split, although the result of that insertion is overwritten |
| `Htree.LostEntry` | Kernel/File/lwext4/ext4_dir_idx.c:1325-1337 | with blocks of 1024 bytes an entry can be lost: a concrete leaf, full, where a name of 255 bytes is reported as added and never listed |
| `Htree.LossyOk` | Kernel/File/lwext4/ext4_dir_idx.c:988-1000 | a well formed directory that holds just this leaf |
| `Htree.LostRun` | Kernel/File/lwext4/ext4_dir_idx.c:1231-1363 | in it any new name of 255 bytes is reported as added and is not listed |
| `Htree.SparseBlockSplitsBadly` | Kernel/File/lwext4/ext4_dir_idx.c:988-1005 | for every block size of at least 1024 that is a multiple of 256 there is a leaf that has no room for a name yet fills at most half of its block |
| `Htree.SparseByDeletions` | Kernel/File/lwext4/ext4_dir.c:527-578 | deletions from a full leaf lead to that leaf, one entry after the other |
| `Htree.LimitsMean` | Kernel/File/lwext4/ext4_dir_idx.c:537-630 | when all limits are as the lookup expects them, no descent into a well formed index fails |
| `HtreeImage.LimitFills` | Kernel/File/lwext4/ext4_dir_idx.c:404-412 | a root or node limit is the largest number of 8-byte entries that fits behind the dots, and before the tail where checksums are on |
| `Htree.GrownIsRefused` | Kernel/File/lwext4/ext4_dir_idx.c:1084-1203 | after the root has grown, every descent fails with metadata checksums and none without: the new node's limit does not deduct the tail that the lookup deducts |
| `Htree.HalvedIsRefused` | Kernel/File/lwext4/ext4_dir_idx.c:1084-1203 | after a node was halved, exactly the descents to its upper half fail, and only with metadata checksums |
| `DirMap.UniqueIsOneEach` | Kernel/File/lwext4/ext4_dir.c:654-695 | no two records of a directory have one name exactly when its listing has every name once, so that it is a map from names to inodes |
| `DirMap.FindsInMap` | Kernel/File/lwext4/ext4_dir.c:448-525 | finding a name is looking it up in the map, found or not and with its inode |
| `DirMap.AddedToMap` | Kernel/File/lwext4/ext4_dir_idx.c:1231-1363 | adding a new name keeps the names unique exactly unless a leaf filled at most by half was split, and then updates the map with it, or leaves the map alone exactly when the entry was lost |
| `DirMap.RemovedFromMap` | Kernel/File/lwext4/ext4_dir.c:527-578 | removing a name keeps the names unique and takes exactly this name out of the map |
| `BcacheSpec.FlushOk` | Kernel/File/lwext4/ext4_blockdev.c:148-175 | writing a buffer back keeps the cache invariant and the logical disk |
| `BcacheSpec.DropOk` | Kernel/File/lwext4/ext4_bcache.c:159-176 | dropping a buffer that is not dirty keeps the invariant and the logical disk |
| `BcacheSpec.FindGetOk` | Kernel/File/lwext4/ext4_bcache.c:205-229 | referencing a cached block keeps the invariant and the logical disk, when no other buffer has the LRU id that comes next |
| `BcacheSpec.AllocOk` | Kernel/File/lwext4/ext4_bcache.c:231-265 | a new buffer over arbitrary memory shows a reader nothing, when no other buffer has the LRU id that comes next |
| `BcacheSpec.FindGetUnique` | Kernel/File/lwext4/ext4_bcache.c:205-229 | a get keeps the LRU ids unique, and with them the whole structure, exactly when the buffer was referenced already or no other cached buffer has the next id |
| `BcacheSpec.AllocUnique` | Kernel/File/lwext4/ext4_bcache.c:231-265 | a new buffer keeps the LRU ids unique, and with them the whole structure, exactly when no cached buffer has the next id |
| `BcacheSpec.EditOk` | Include/File/lwext4_include/ext4_bcache.h:184-187 | an edit marked dirty changes the logical disk at exactly its block |
| `BcacheSpec.FillOk` | Kernel/File/lwext4/ext4_blockdev.c:248-272 | filling a buffer from the device makes it hold the logical block and changes nothing a reader sees |
| `BcacheSpec.FreeOk` | Kernel/File/lwext4/ext4_bcache.c:267-312 | releasing a reference never changes the logical disk, whether the buffer is kept, queued, written or dropped |
| `BcacheSpec.InvalidateOk` | Kernel/File/lwext4/ext4_bcache.c:178-189 | invalidating a buffer makes its block read from the device again and no other |
| `BcacheSpec.InvalidateReaches` | Kernel/File/lwext4/ext4_bcache.c:191-203 | invalidating n blocks from one on, up to and without the sum, makes all of them read from the device exactly when the first is cached or none of them holds unwritten data |
| `BcacheSpec.RangeIs` | Kernel/File/lwext4/ext4_bcache.c:195 | the end that the walk compares with, first plus count less 1 in 64 bits, cuts off exactly the blocks outside the range |
| `BcacheSpec.InvalidateMisses` | Kernel/File/lwext4/ext4_bcache.c:191-203 | a concrete cache where a range keeps its unwritten block because the first block is not cached |
| `BcacheSpec.EvictOk` | Kernel/File/lwext4/ext4_blockdev.c:190-215 | one eviction keeps the invariant and the logical disk and takes exactly one unreferenced buffer |
| `BcacheSpec.Structure` | Kernel/File/lwext4/ext4_bcache.c:205-317 | the LRU order holds exactly the unreferenced buffers, the dirty list exactly the dirty ones among them, the count is right and clean buffers equal the device |
| `BcacheSpec.Durable` | Kernel/File/lwext4/ext4_blockdev.c:449-461 | with an empty dirty list the device holds every block that no client is using |
| `BcacheSpec.WrappedCounter` | Kernel/File/lwext4/ext4_bcache.c:205-229 | a concrete cache whose 32-bit LRU counter wraps onto an id in use: two buffers share it and a released one never enters the LRU order |
| `Bcache.Cache.Init` | Kernel/File/lwext4/ext4_bcache.c:68-81 | an empty cache shows the device's blocks |
| `Bcache.Cache.InsertDirtyNode` | Include/File/lwext4_include/ext4_bcache.h:204-209 | a buffer goes to the front of the dirty list unless it is there already |
| `Bcache.Cache.RemoveDirtyNode` | Include/File/lwext4_include/ext4_bcache.h:215-220 | a buffer leaves the dirty list |
| `Bcache.Cache.FlushBuf` | Kernel/File/lwext4/ext4_blockdev.c:148-175 | the pointer structure follows the specification of a flush |
| `Bcache.Cache.DropBuf` | Kernel/File/lwext4/ext4_bcache.c:159-176 | the buffer leaves both trees and the list, as the specification says |
| `Bcache.Cache.FindGet` | Kernel/File/lwext4/ext4_bcache.c:205-229 | null exactly when the block is not cached; the first reference takes the buffer out of the LRU tree and off the dirty list |
| `Bcache.Cache.Alloc` | Kernel/File/lwext4/ext4_bcache.c:231-265 | the cached buffer with one more reference, or a new one |
| `Bcache.Cache.Free` | Kernel/File/lwext4/ext4_bcache.c:267-312 | the last reference enters the LRU tree and queues, writes or drops the buffer, as the specification says |
| `Bcache.Cache.InvalidateBuf` | Kernel/File/lwext4/ext4_bcache.c:178-189 | both state bits are cleared and the buffer leaves the dirty list |
| `Bcache.Cache.EvictOne` | Kernel/File/lwext4/ext4_blockdev.c:194-212 | the evicted buffer is the one with the least LRU id, written before it is dropped |
| `BlockDevice.Shake` | Kernel/File/lwext4/ext4_blockdev.c:190-215 | ends with room in the cache or with every buffer referenced; what it evicts are the least recently used buffers and no more than it must; clients see nothing of it |
| `BlockDevice.GetNoread` | Kernel/File/lwext4/ext4_blockdev.c:217-246 | null exactly for a block the device does not have; otherwise one reference more and, unless all are referenced, no more buffers than the cache's size |
| `BlockDevice.Get` | Kernel/File/lwext4/ext4_blockdev.c:248-272 | the buffer holds the logical block, whatever its memory held |
| `BlockDevice.Edit` | Include/File/lwext4_include/ext4_bcache.h:184-187 | the only operation that changes the logical disk, at exactly the edited block |
| `BlockDevice.Set` | Kernel/File/lwext4/ext4_blockdev.c:274-283 | one reference less, nothing else a client can see |
| `BlockDevice.CacheFlush` | Kernel/File/lwext4/ext4_blockdev.c:449-461 | ends with an empty dirty list and every unused block on the device |
| `BlockDevice.CacheWriteBack` | Kernel/File/lwext4/ext4_blockdev.c:463-476 | the nested counter; when it is zero afterwards every unused block is on the device, else nothing is written |
| `BlockDevice.FlushLba` | Kernel/File/lwext4/ext4_blockdev.c:177-188 | the block is on the device afterwards |
| `BlockDevice.InvalidateLba` | Kernel/File/lwext4/ext4_bcache.c:191-203 | the loop over the address tree computes the specified view: with the first block cached every block of the range reads from the device, and every block before or behind it keeps its view, its validity and its dirty bit; references and LRU ids stay |
| `BlockDevice.Cleanup` | Kernel/File/lwext4/ext4_bcache.c:83-90 | the cache is empty and the device holds the logical disk |
| `CacheRun.StepInvalidates` | Kernel/File/lwext4/ext4_bcache.c:191-203 | on the array of blocks: what lies before or behind the range stays, what lies in it reads as something it held, and with a block of it in use nothing happens |
| `CacheRun.ServesInvalid` | Kernel/File/lwext4/ext4_bcache.c:178-203 | after an invalidation of blocks not in use each of them reads as it was or as something it held before, all others as they were |
| `CacheRun.Do` | Kernel/File/lwext4/ext4_blockdev.c:217-283 | every client operation, with any memory under a new buffer, answers as a plain array of blocks would and keeps the correspondence; a flush of a block or of all puts what the array has on the device |
| `CacheRun.Run` | Kernel/File/lwext4/ext4_blockdev.c:217-476 | a run of client operations of any length, invalidations of unused blocks included, on a cache of any size returns what a plain array of blocks returns and ends with the same contents on the device; of an invalidated block the array has what it holds or held once; up to the first operation that would take an LRU id in use, which takes at least 2^32 operations |
| `Bitmap.BitSet` | Include/File/lwext4_include/ext4_bitmap.h:51-54 | raises the byte of the bit by exactly 2 to the power of the bit modulo 8 when that binary digit was 0, else leaves it; no other bit changes |
| `Bitmap.BitClr` | Include/File/lwext4_include/ext4_bitmap.h:59-62 | lowers the byte of the bit by exactly 2 to the power of the bit modulo 8 when that binary digit was 1, else leaves it; no other bit changes |
| `Bitmap.IsBitClr` | Include/File/lwext4_include/ext4_bitmap.h:67-78 | true exactly when the binary digit of that number in the byte is 0 |
| `Bitmap.BitmapDigit` | Include/File/lwext4_include/ext4_bitmap.h:67-70 | bit i is binary digit i modulo 8 of byte i / 8 |
| `Bitmap.BitsFree` | Kernel/File/lwext4/ext4_bitmap.c:46-89 | clears exactly the bits of the range, through its bit-wise and byte-wise loops |
| `Bitmap.BitFindClr` | Kernel/File/lwext4/ext4_bitmap.c:91-159 | fails exactly when every bit of the range is set; otherwise its answer is the first clear bit, unless that lies before the first multiple of 8, when it is the start |
| `Bitmap.AnswerIsClear` | Kernel/File/lwext4/ext4_bitmap.c:97-111 | the answer is a clear bit exactly when the start itself is clear or everything before the next multiple of 8 is set |
| `Bitmap.AnswerCanBeTaken` | Kernel/File/lwext4/ext4_bitmap.c:97-111 | a concrete bitmap where the answer is a bit in use |
| `BlockGroups.AddressRoundTrip` | Include/File/lwext4_include/ext4_fs.h:94-117 | address to group and index and back is the identity exactly for 32-bit addresses other than 0 when the first data block is 1 |
| `BlockGroups.IndexRoundTrip` | Include/File/lwext4_include/ext4_fs.h:94-117 | group and index to address and back is the identity exactly when the address fits in 32 bits |
| `BlockGroups.Groups` | Kernel/File/lwext4/ext4_super.c:51-62 | the group count covers all blocks and the last group is not empty |
| `BlockGroups.BlocksInGroup` | Kernel/File/lwext4/ext4_super.c:64-74 | every group but the last has a block for each bit, the last one what is left of the total, and none has none; no block lies behind them |
| `FreeMap.FreeIsZero` | Include/File/lwext4_include/ext4_bitmap.h:67-78 | a block is free exactly when the binary digit of its place in its group's bitmap is 0 |
| `FreeMap.FreeSetAfter` | Kernel/File/lwext4/ext4_balloc.c:410-422 | changing one bit takes exactly that block out of the free blocks of the system and of its group, or puts it in |
| `FreeMap.RunAfter` | Kernel/File/lwext4/ext4_balloc.c:288-300 | clearing a run of bits adds exactly these blocks |
| `FreeMap.GroupsAddUp` | Kernel/File/lwext4/ext4_balloc.c:560-577 | the group counters add up to the number of free blocks |
| `InodeBlocks.CountRoundTrip` | Kernel/File/lwext4/ext4_inode.c:194-253 | a stored block count reads back exactly when it is below 2^48 or, for a huge file, whole blocks of which there are fewer than 2^48; a refused one changes nothing |
| `InodeBlocks.LessHolds` | Kernel/File/lwext4/ext4_inode.c:194-253 | a count read from the fields, less whole blocks, can be stored again |
| `Balloc.NotBefore` | Kernel/File/lwext4/ext4_balloc.c:428-452 | after the scan up to a multiple of 64 the bitmap search from an unaligned start answers with a clear bit |
| `Balloc.FirstIsLeast` | Kernel/File/lwext4/ext4_balloc.c:410-465 | the first clear bit from the goal on is the next free block of the goal's group |
| `Balloc.RoundStep` | Kernel/File/lwext4/ext4_balloc.c:261-336 | a round of freeing a run keeps the counters, the freed blocks and the place of the next round right |
| `Balloc.RoundEnd` | Kernel/File/lwext4/ext4_balloc.c:261-348 | after the last group nothing of the run is left, which is the assertion at its end; the padding bits survive exactly when the run fits its group or groups fill their bitmaps |
| `Balloc.Balloc.FreeNext` | Kernel/File/lwext4/ext4_balloc.c:261-336 | a pass of the loop keeps what the rounds keep, with the bits up to the end of the bitmap block |
| `Balloc.Balloc.SearchGoal` | Kernel/File/lwext4/ext4_balloc.c:410-465 | the three-part search meets the first clear bit from the goal's index on, or every bit is set |
| `Balloc.Balloc.SearchOther` | Kernel/File/lwext4/ext4_balloc.c:512-522 | the search of another group from index 0 meets its first clear bit |
| `Balloc.Balloc.TryOthers` | Kernel/File/lwext4/ext4_balloc.c:480-554 | the next group in cyclic order that has a free block, each group once, or no block is free |
| `Balloc.Balloc.Take` | Kernel/File/lwext4/ext4_balloc.c:556-583 | the bit, the group's, the superblock's and the inode's counts move together; an inode count its fields cannot hold leaves them alone |
| `Balloc.Balloc.AllocBlock` | Kernel/File/lwext4/ext4_balloc.c:353-584 | fails exactly when no block is free; otherwise hands out a free block, the one the goal and the cyclic order single out, whose binary digit in the bitmap was 0 and is 1 afterwards, and all counters stay equal to the number of clear bits |
| `Balloc.Balloc.TryAllocBlock` | Kernel/File/lwext4/ext4_balloc.c:586-666 | takes the block exactly when it is free, that is when its binary digit in the bitmap is 0; afterwards it is 1 |
| `Balloc.Balloc.FreeBlock` | Kernel/File/lwext4/ext4_balloc.c:153-232 | the block is free afterwards, its binary digit in the bitmap 0, and the counters still agree with the bitmaps exactly when it was in use |
| `Balloc.Balloc.FreeBlocks` | Kernel/File/lwext4/ext4_balloc.c:234-351 | the whole run is free afterwards and the padding intact exactly when the run fits its group or groups fill their bitmaps, and then the counters agree exactly when all of it was in use; a run that leaves its group but not the bitmap block is counted whole and freed only up to the group's end; in every case exactly the blocks become free whose bits the rounds take |
| `Balloc.BitsFreed` | Kernel/File/lwext4/ext4_balloc.c:288-300 | clearing bits of a group's bitmap frees the blocks of that group at these places, whichever other bits were cleared |
| `Ialloc.InodeRoundTrip` | Kernel/File/lwext4/ext4_ialloc.c:62-92 | inode numbers and their places are inverse on all valid numbers |
| `Ialloc.InodesInGroup` | Kernel/File/lwext4/ext4_super.c:76-86 | every group but the last has an inode for each bit, the last one what is left of the total, and none has none; exactly these are real |
| `Ialloc.BeforeIs` | Kernel/File/lwext4/ext4_ialloc.c:240-262 | the groups searched before another are those met in fewer steps from the last one used, around the end |
| `Ialloc.Ialloc.TryGroup` | Kernel/File/lwext4/ext4_ialloc.c:258-301 | a group whose counter is not zero has a clear bit, so the search in it never fails |
| `Ialloc.Ialloc.FindInode` | Kernel/File/lwext4/ext4_ialloc.c:233-365 | the walk ends; every group before the answer, in cyclic order from the start, has no free inode |
| `Ialloc.Ialloc.Take` | Kernel/File/lwext4/ext4_ialloc.c:303-351 | the bit and the counters move together, and the number of never used inodes stays when the inode lies below them, else becomes what lies behind it |
| `Ialloc.Ialloc.AllocInode` | Kernel/File/lwext4/ext4_ialloc.c:229-366 | fails exactly when no inode is free; otherwise the lowest free inode of the first group that has one, its binary digit 0 before and 1 after, the number of never used inodes exactly as it must be, and all counters right |
| `Ialloc.Ialloc.FreeInode` | Kernel/File/lwext4/ext4_ialloc.c:158-227 | the inode is free afterwards, its binary digit 0, and the counters agree exactly when it was in use |
| `PmmSpec.LiveApart` | Kernel/Memory/pmm.cpp:49-80 | no page lies in two runs, so two live allocations never share a page |
| `PmmSpec.Covered` | Kernel/Memory/pmm.cpp:6-31 | every page lies in a run |
| `PmmSpec.TakeTiles` | Kernel/Memory/pmm.cpp:54-75 | taking pages from a free run keeps the tiling and the order and leaves live runs alone |
| `PmmSpec.TakeCount` | Kernel/Memory/pmm.cpp:54-75 | the free pages become fewer by exactly the pages taken |
| `PmmSpec.GiveTiles` | Kernel/Memory/pmm.cpp:100-140 | giving a run back keeps the tiling and the order and counts its pages as free |
| `PmmSpec.MergeTiles` | Kernel/Memory/pmm.cpp:82-98 | joining a free run with the one behind it loses no page |
| `Pmm.PMM.Init` | Kernel/Memory/pmm.cpp:6-31 | one taken run for the table of records and one free run, whatever the records held |
| `Pmm.PMM.FindFit` | Kernel/Memory/pmm.cpp:49-76 | the walk stops at the first run that is long enough, or no run is |
| `Pmm.PMM.AllocPages` | Kernel/Memory/pmm.cpp:49-80 | first fit; null exactly when no free run is long enough; the linked list, the tiling and the count stay right and live runs stay as they are; a request for no pages hands out the first free run, marked and still listed |
| `Pmm.PMM.InsertPage` | Kernel/Memory/pmm.cpp:82-98 | joins the record with the one behind its run exactly when that one has zero flags |
| `Pmm.MergeStep` | Kernel/Memory/pmm.cpp:82-98 | a run behind a free one whose first record has zero flags is the next free run; joining the two keeps tiling, list and count |
| `Pmm.PMM.FindPre` | Kernel/Memory/pmm.cpp:112-128 | finds the place that keeps the list in address order; for a run that is in the list already, the run before it or itself |
| `Pmm.PMM.FreePagesAt` | Kernel/Memory/pmm.cpp:100-140 | a live run is given back; records with zero length or zero flags are refused, changing nothing; a free run whose first record kept nonzero flags is freed again: counted twice and linked to itself, and the allocator is no longer well formed, exactly then |
| `Pmm.SelfLinked` | Kernel/Memory/pmm.cpp:118-140 | entering a listed run a second time makes its record its own predecessor, joined or not, so the list is broken |
| `Pmm.RestRefused` | Kernel/Memory/pmm.cpp:54-66 | the free rest of a run that was cut is refused by a second free exactly when its first record has zero flags, which painting by an earlier owner can prevent |
| `Pmm.PMM.Malloc` | Kernel/Memory/pmm.cpp:149-175 | as first fit for the rounded page count, with the usage in every page's flags; the allocator stays well formed exactly unless usage 0 is painted on pages |
| `Pmm.PMM.Free` | Kernel/Memory/pmm.cpp:177-192 | any address in the first page of a run: as freeing the pages of that record, the damage by a second free included |
| `Pmm.EnoughPages` | Kernel/Memory/pmm.cpp:151-157 | the page count covers the bytes with less than a page of 4096 to spare exactly when it fits an int; a negative one reaches the allocator with 2^64 added |
| `Pmm.ZeroPages` | Kernel/Memory/pmm.cpp:49-66 | asking for no pages hands out a run that stays in the free list |
| `Pmm.AddrRoundTrip` | Include/Memory/pmm.hpp:51-59 | exactly the addresses of a page lead back to its record |
| `LinkTable.NxtInsert` | Include/Library/DataStructure/LinkTable.hpp:29-40 | inserting behind a node of a doubly linked list gives the doubly linked list with the node there |
| `LinkTable.PreInsert` | Include/Library/DataStructure/LinkTable.hpp:16-27 | inserting before a node does, too |
| `LinkTable.Remove` | Include/Library/DataStructure/LinkTable.hpp:42-58 | removing a node links its neighbours and leaves the node alone |
| `Regions.RegionList.FindVMR` | Include/Memory/vmm.hpp:542-555 | with its last-hit cache it always agrees with a full scan |
| `Regions.RegionList.FindSlot` | Include/Memory/vmm.hpp:520-535 | the walk ends at the place the order demands, or at a region that overlaps |
| `Regions.RegionList.InsertVMR` | Include/Memory/vmm.hpp:509-540 | faults exactly when the region overlaps another one; otherwise the list stays sorted and disjoint with the region in its place |
| `Regions.RegionList.RemoveVMR` | Include/Memory/vmm.hpp:557-567 | the region leaves the list and the cache |
| `Regions.RegionList.ClearVMR` | Include/Memory/vmm.hpp:426-431 | ends with an empty list |
| `Regions.RegionList.GetUsableVMR` | Include/Memory/vmm.hpp:597-612 | the loop computes the specified gap |
| `Regions.UsableIsFirst` | Include/Memory/vmm.hpp:597-612 | the answer is the first candidate, the lowest start or the end of a region, that passes the test, and 0 when none does |
| `Regions.UsableIsGood` | Include/Memory/vmm.hpp:597-612 | the answer is page-aligned, inside the rounded bounds and clear of every region exactly when the first candidate that passes the test, plus the rounded length, stays below 2^64 |
| `Regions.UsableBelow` | Include/Memory/vmm.hpp:597-612 | when the last region's end and the lowest start leave room for the length below 2^64, every answer but 0 is good |
| `Regions.UsableWraps` | Include/Memory/vmm.hpp:604-609 | a concrete request that passes by wrapping around, with a place that is not free |
| `Regions.UsableEmpty` | Include/Memory/vmm.hpp:602-603 | without regions the answer is the lowest start, good exactly when the rounded length fits before the rounded end |
| `Regions.PageDownIs` | Include/Memory/vmm.hpp:601 | rounding down gives the last page boundary up to the address |
| `Regions.PageUpIs` | Include/Memory/vmm.hpp:602-603 | rounding up gives the first page boundary from the address on, or 0 for the last 4095 addresses |
| `Regions.UsableBeyond` | Include/Memory/vmm.hpp:602-603 | a concrete request without regions whose answer lies beyond the end |
| `PteBits.PageReads` | Include/Memory/vmm.hpp:75-139 | an entry written for a page reads back its flags and page number whatever it held, with the accessed and dirty bits clear, and looks like a table pointer exactly without permissions |
| `PteBits.PageLayout` | Include/Memory/vmm.hpp:75-139 | bit by bit: valid, read, write, execute and user in the lowest five, zero in the next three, the page number from bit 10 on, all other bits as they were |
| `PteBits.TableReads` | Include/Memory/vmm.hpp:123-128 | an entry written for a table reads back as a valid table pointer |
| `PteBits.TableLayout` | Include/Memory/vmm.hpp:123-128 | bit by bit: only the lowest of the first four set, the page number from bit 10 on, all other bits as they were |
| `PteBits.KernelAddress` | Include/Memory/vmm.hpp:108-111 | page number and kernel address are inverse exactly for page-aligned addresses |
| `PageTree.WalkIsLeaf` | Include/Memory/vmm.hpp:164-185 | the Sv39 translation of sections 4.3.2 and 4.4 of the RISC-V Privileged Architecture, for every page whose walk goes through user space, gives the entry that the table tree holds for it, exactly when the address is canonical and the entry is not reserved |
| `PageTree.AddTableOk` | Include/Memory/vmm.hpp:650-657 | hanging an empty table into the tree changes no translation |
| `PageTree.SetLeafOk` | Include/Memory/vmm.hpp:681-692 | writing a level 0 entry changes exactly one page's translation |
| `PageTree.NewRootOk` | Include/Memory/vmm.hpp:212-217 | a fresh root with the kernel's four entries maps no user page |
| `Vmm.NeedsPermission` | Include/Memory/vmm.hpp:283-296 | a page's entry reads as a table pointer exactly when its region permits nothing, that is when the three lowest bits of its flags are 0 |
| `Vmm.FlagBits` | Include/Memory/vmm.hpp:255-261 | which binary digits of a region's flags permit reading, writing and executing and mark the kernel's and shared regions |
| `Vmm.VirtualMemorySpace.constructor` | Include/Memory/vmm.hpp:433-439 | a new space is well formed and maps nothing |
| `Vmm.VirtualMemorySpace.TableBehind` | Include/Memory/vmm.hpp:648-675 | the table behind an entry, made when it is missing, or nothing changes and no page is left |
| `Vmm.VirtualMemorySpace.MapNew` | Include/Memory/vmm.hpp:681-692 | one page gets a mapping to a fresh page; all else stays |
| `Vmm.VirtualMemorySpace.SolvePageFault` | Include/Memory/vmm.hpp:614-707 | on success exactly the slot of the faulting page is mapped in addition, to a page that was free and whose 4096 bytes are 0, with its region's flags; it runs out of memory exactly when the allocator has no more pages than tables are missing on the way; it strays exactly when a region holds the address and its slot is the kernel's; each other failure has its exact cause; failures map nothing |
| `Vmm.FaultStrays` | Include/Memory/vmm.hpp:648-659 | the root entry that a fault takes for a table is one of the space, or absent, exactly when the walk goes to user space; else it is a large page by which the hardware translates and behind which there is no table |
| `Vmm.KernelFaultRun` | Include/Memory/vmm.hpp:614-718 | a concrete new space and an access to the kernel's first page: the program may not use the large page there, and the fault takes that page for a table |
| `Vmm.Create` | Include/Memory/vmm.hpp:709-718 | a new space has the kernel's region, an empty page table and nothing else |
| `Vmm.FaultTranslates` | Include/Memory/vmm.hpp:614-707 | in the hardware's terms: every page whose walk goes to the faulting page's slot translates to a page whose 4096 bytes are 0, exactly when its address is canonical and the region's permissions are not reserved; every other page translates as before |
| `Vmm.FaultServes` | Include/Memory/vmm.hpp:283-296 | after a solved fault the page translates exactly when the address is below 2^38 and the region may be read, or executed and not written, by its flag bits; an access that these permit goes through exactly when the region is not the kernel's, either |
| `Vmm.WriteNeedsRead` | Include/Memory/vmm.hpp:283-296 | a region that may be written but not read, as the loader makes for such segments, never translates after a solved fault |
| `Vmm.WriteOnlyRun` | Include/Memory/vmm.hpp:614-707 | a concrete space with such a region: its fault is solved and its page does not translate |
| `Vmm.FaultAgain` | Include/Memory/vmm.hpp:679-696 | a second fault at a solved page is the one that is reported as unsolvable, because the page exists |
| `Vmm.UpperAlias` | Include/Memory/vmm.hpp:164-185 | a page of user space above 2^38 is not reached by its own address and appears at the upper address with the same slot |
| `Fork.CopyLeaf` | Include/Memory/vmm.hpp:396-407 | a page is shared with its count raised, or copied to a fresh page |
| `Fork.NoHuge` | Include/Memory/vmm.hpp:383-409 | the branch for huge pages is never taken for user regions |
| `Fork.CopyMemory` | Include/Memory/vmm.hpp:375-411 | the recursive copy reproduces exactly the region's mapped pages below the table and takes pages for nothing else |
| `Fork.CopyJoin` | Include/Memory/vmm.hpp:382-395 | copies of adjoining page ranges make up the copy of the whole |
| `Fork.NextRegion` | Include/Memory/vmm.hpp:740-747 | copying one region after the other gives the fork of all, because regions are disjoint |
| `Fork.CreateFrom` | Include/Memory/vmm.hpp:735-750 | the child has the parent's regions and a fork of its pages, every page it took is a table or mapped; it fails only when no page is left; the parent's tables stay |
| `Fork.ForkIsolates` | Include/Memory/vmm.hpp:735-750 | on every page: the parent translates as before; private pages have equal contents on pages the parent does not map; shared pages are the same with one reference more; the child maps nothing else; the hardware takes these entries exactly when the address is canonical and the permissions are not reserved |
| `Teardown.DropRef` | Include/Memory/vmm.hpp:235-238 | the last reference returns the page to the allocator |
| `Teardown.Destroy` | Include/Memory/vmm.hpp:225-243 | the recursion returns exactly the tables of the subtree and gives up exactly the user mappings below it |
| `Teardown.DestroySpace` | Include/Memory/vmm.hpp:720-729 | every table is returned once, every mapped page loses one reference and exactly the unshared ones are returned |
| `Families.FamilyEmpty` | Include/Memory/vmm.hpp:720-729 | without spaces, memory is what it was at the start: allocator, tables, data and reference counts |
| `Families.FamilyNew` | Include/Memory/vmm.hpp:433-439 | a new space's root joins the family; every count stays right |
| `Families.FamilyFault` | Include/Memory/vmm.hpp:614-707 | after a page fault in one of any number of spaces every page's count is still the number of spaces that map it, and tables and mapped pages account for all that the allocator has less |
| `Families.ForkRefs` | Include/Memory/vmm.hpp:735-750 | after a fork every page's count is the number of spaces, the child included, that map it |
| `Families.FamilyFork` | Include/Memory/vmm.hpp:735-750 | a fork adds the child to the family: no table is shared, no page lost, no count wrong, whoever else shares the pages |
| `Families.FamilyEnd` | Include/Memory/vmm.hpp:720-729 | destroying any one of the spaces leaves the family of the others: the pages they map stay, the counts are theirs |
| `Worlds.ChildIsolated` | Include/Memory/vmm.hpp:396-407 | a page that the child of a fork has in common with any other space is one of a region that is shared, at the same address in both |
| `Worlds.WorldFault` | Include/Memory/vmm.hpp:614-707 | a page fault keeps all spaces isolated and every mapped page inside a region of its space, with the region's permissions |
| `Worlds.WorldFork` | Include/Memory/vmm.hpp:735-750 | so does a fork of any space |
| `Worlds.WorldExit` | Include/Memory/vmm.hpp:720-729 | so does the end of any space |
| `Worlds.WorldWritten` | Include/Memory/vmm.hpp:396-407 | a program's store to a mapped page changes none of this, and nothing that memory held before the first space |
| `Worlds.UserAccess` | Include/Memory/vmm.hpp:283-296 | in every reachable state an access by a program that goes through meets a data page, by a user region of its own space that permits it: never a table, a free page or the kernel's pages |
| `Worlds.SharedAccess` | Include/Memory/vmm.hpp:396-407 | in every reachable state programs of two spaces reach the same page only at the same slot, in a region that both have as shared, and its count is at least 2 |
| `Spaces.DoTouch` | Include/Memory/vmm.hpp:614-707 | a page fault in space i maps the page to zeroes with the permissions of its region exactly when it has one, is not mapped yet and there are pages enough, else changes no mapping and no data; all other spaces and their regions stay and the system is well formed |
| `Spaces.StraysInKernel` | Include/Memory/vmm.hpp:709-718 | in a space with the kernel's region and user regions a fault goes astray exactly in the kernel's region |
| `Spaces.DoStore` | Include/Memory/vmm.hpp:164-185 | a store reaches exactly the page that the hardware's walk gives it, or is refused and changes nothing |
| `Spaces.DoEnter` | Include/Memory/vmm.hpp:508-540 | a region that overlaps none of its space enters the list, whatever the order |
| `Spaces.DoExit` | Include/Memory/vmm.hpp:720-729 | the end of a space returns its tables and unshared pages, gives up its other references and leaves all others well formed |
| `Spaces.DoNew` | Include/Memory/vmm.hpp:709-718 | a new space, with the kernel's region and root entries and nothing else, joins the system |
| `Spaces.DoFork` | Include/Memory/vmm.hpp:735-750 | a fork of any space, its pages copied or shared as their regions say, joins the system, or no page is left |
| `Spaces.Run` | Include/Memory/vmm.hpp:433-750 | every run of creations, forks of any space, new regions, page faults, stores and ends, in any order and with any number of spaces, goes through states each of which follows from the one before by what its command says, all of them well formed and isolated; it ends early only at a creation or fork for which no page is left |
| `Spaces.Lifecycle` | Include/Memory/vmm.hpp:433-750 | every run that leaves no space leaves memory exactly as it was: allocator, tables, data and reference counts |
| `ByteIo.Position` | Kernel/File/lwext4/ext4_blockdev.c:324-330 | block number and offset in the block address the right byte exactly when the partition starts on a block boundary |
| `ByteIo.Device.WriteBytes` | Kernel/File/lwext4/ext4_blockdev.c:313-381 | exactly the bytes of the range change, through read-modify-write of whole blocks; a range past the partition's end is refused |
| `ByteIo.Device.ReadBytes` | Kernel/File/lwext4/ext4_blockdev.c:383-447 | the buffer gets exactly the bytes of the range |
| `ByteIo.ReadBack` | Kernel/File/lwext4/ext4_blockdev.c:313-447 | what was written is read back |
| `ByteIo.Device.GetDirect` | Kernel/File/lwext4/ext4_blockdev.c:285-297 | reads the bytes of the logical blocks |
| `ByteIo.Device.SetDirect` | Kernel/File/lwext4/ext4_blockdev.c:299-311 | changes exactly the bytes of the logical blocks |
| `FileSpec.RunBytes` | Kernel/File/lwext4/ext4.c:1790-1827 | a stretch of a contiguous run on the medium is the same stretch of the file, for every layout of its blocks |
| `FileSpec.RunWritten` | Kernel/File/lwext4/ext4.c:1935-1990 | writing into a run changes exactly that stretch of the file, because no block is used twice |
| `FileSpec.OverlayReadsBack` | Kernel/File/lwext4/ext4.c:1852-2039 | overwriting or extending: the data where they were put, the old bytes elsewhere, the longer of both ends |
| `FileSpec.WrittenContent` | Kernel/File/lwext4/ext4.c:1852-2039 | the pieces of a finished write make up the overwritten or extended file |
| `FileIo.File.Gather` | Kernel/File/lwext4/ext4.c:1793-1808 | the blocks gathered are the longest physically contiguous run, and the block that ends it starts the next one |
| `FileIo.File.ReadRuns` | Kernel/File/lwext4/ext4.c:1790-1827 | the runs deliver all whole blocks of the request in order |
| `FileIo.File.Fread` | Kernel/File/lwext4/ext4.c:1690-1850 | reads the bytes of the file from the position on, as many as asked for and there are, and advances the position by the returned count; the result is EPERM for a file open for writing only and else EOK |
| `FileIo.File.AppendBlock` | Kernel/File/lwext4/ext4_fs.c:1643-1711 | a new last block shows nothing of what it held |
| `FileIo.File.GatherWrite` | Kernel/File/lwext4/ext4.c:1939-1966 | the longest contiguous run on the write side, with blocks appended behind the end of the file |
| `FileIo.File.WriteRuns` | Kernel/File/lwext4/ext4.c:1935-1990 | all whole blocks of the data reach the file in order |
| `FileIo.File.Fwrite` | Kernel/File/lwext4/ext4.c:1852-2039 | the file is overwritten or extended at the position, nothing else on the medium changes, and position, size and count follow |
| `DirTree.KeptOne` | Kernel/File/lwext4/ext4_dir.c:527-578 | taking one more inode out of a directory takes out exactly its entry |
| `DirTree.UnlinkedIs` | Kernel/File/lwext4/ext4.c:314-363 | unlinking a childless inode from a partly removed tree and freeing it gives the tree without exactly this inode, link counts included |
| `DirTree.ClosedMore` | Kernel/File/lwext4/ext4.c:3012-3050 | removing a childless inode never leaves a descendant without its ancestor |
| `DirRm.Fs.HasChildren` | Kernel/File/lwext4/ext4.c:178-219 | true exactly when the directory names an inode other than by the dots |
| `DirRm.Fs.Unlink` | Kernel/File/lwext4/ext4.c:314-363 | refuses exactly nodes with children; otherwise the name goes and the link counts follow |
| `DirRm.Fs.Visit` | Kernel/File/lwext4/ext4.c:2984-3050 | a child with children is left alone; any other one loses this name and its inode is freed whatever its link count |
| `DirRm.Fs.VisitEntry` | Kernel/File/lwext4/ext4.c:2984-3050 | a child with children is left and lies one level deeper in the subtree; a childless one goes, and nothing else |
| `DirRm.Fs.Scan` | Kernel/File/lwext4/ext4.c:2952-3068 | ends at a child with children, which becomes the current directory, or with a bare directory and the inode of its parent |
| `DirRm.Fs.Turn` | Kernel/File/lwext4/ext4.c:2950-3081 | every turn removes something, leaves a bare directory upwards or dives deeper, which is why the traversal ends |
| `DirRm.BelowIsGone` | Kernel/File/lwext4/ext4.c:3070-3081 | when the traversal ends everything below the goal went |
| `DirRm.Fs.LastUnlink` | Kernel/File/lwext4/ext4.c:3083-3136 | the last unlink frees the goal when its link count was two, or three of which one goes; otherwise the inode stays with one link less |
| `DirRm.Fs.DirRm` | Kernel/File/lwext4/ext4.c:2907-3147 | on a well formed tree the traversal without a stack ends, frees exactly the inodes of the subtree, each once, and leaves the tree without them |
| `DirRm.RestUnchanged` | Kernel/File/lwext4/ext4.c:2907-3147 | outside the subtree only the goal's parent changes, by one entry and one link, and the tree stays well formed |
| `DirRm.HardLinkLeft` | Kernel/File/lwext4/ext4.c:3026-3048 | a freed inode is still named afterwards exactly when another entry named it |
| `DirRm.Fs.DirRmFiles` | Kernel/File/lwext4/ext4.c:2907-3147 | the traversal of a directory that names only files, each any number of times, hands every entry's inode to the inode allocator, one after the other |
| `DirRm.FreedTwice` | Kernel/File/lwext4/ext4.c:2984-3050 | an inode is then freed more than once exactly when two entries name it |

## Left out

- Device errors, end-of-write callbacks, allocation failures inside lwext4 and journaling: every read, write and buffer allocation succeeds; transactions are transparent.
- Checksum contents: a checksum is not part of any state; where checksums change a layout (directory tails, node limits) they are a parameter or the stated condition.
- Hash functions: the hash of a name is an arbitrary function followed by the masking at the end of `ext2_htree_hash`.
- Record bytes: the index works on lists of records and index entries, `DirIter` relates record lists to bytes; the bytes that freed records keep are not modelled.
- `Htree.Directory.AddEntry`: after a split that is not proper it states the listing and not the exact image. When a full index refuses an entry, the source also releases a target block that it has not obtained yet, and when the descent fails it releases the blocks of a path it may not have set; the model has neither release.
- `HtreeSplit.SplitData`: with a cut of 0 the source reads the hash of element 0xFFFFFFFF of the sort array; that read is taken to succeed and its value is a parameter. With checksums, leaves end in their tail.
- Htree directories deeper than two levels, `ext4_dir_dx_reset_parent_inode`, and the dot entries of the root as removable names.
- Cache buffers flagged for flushing or as temporary by callers outside the modelled files, and block 0, which release refuses by an assertion.
- Trees of `misc/tree.h` are ordered maps and the dirty list is a sequence of buffers.
- Block numbers of 2^32 and more in the allocators: group and index arithmetic is exact in its 32-bit width, and the round trips state where it ends.
- `Vmm.VirtualMemorySpace.SolvePageFault`: user-space faults in regions without permissions are not modelled; `mmap` and the program loader always enter regions that may be written, and `Vmm.NeedsPermission` says what such an entry would read as. Where a fault strays, what the source then reads and writes in the kernel's large page is not modelled. Decoded entries have no global, accessed, dirty and software bits, and the bits above the page number are clear.
- `FileIo.File.Fread`: files without holes, positions within the file, reads below 2^32 bytes; the inline contents of short symbolic links are not modelled.
- `FileIo.File.Fwrite`: positions within the file and enough free blocks for the write; a write that runs out of blocks midway is not modelled, and blocks come from a given supply in place of the extent code.
- `FileIo.File.AppendBlock`: a given supply of fresh blocks stands for the extent and allocation code.
- The block cache under file I/O: `FileIo` reads and writes the medium directly; `CacheRun.Run` shows the cache transparent.
- `DirRm.Fs.DirRm`: inodes with exactly one name, true link counts below the limit of 65000, a directory other than the root, and the entry's name as the path lookup found it; the contents that truncation frees are not modelled. Positions count live entries.
- Page reference counts and page numbers are unbounded naturals; `Vmm` takes pages from a set, and `Pmm` gives the run allocator on its own.
- `Pmm.PMM.FreePagesAt`: a record inside a run, not the first, that holds a stale length and stale flags. `Pmm.PMM.Init` leaves the reference counts as they are, while `Vmm` starts from counts of 0 on free pages.
- `Pmm.PMM.Free`: an address in such a record.
- `Fork.CreateFrom`: needs one page for the root, as the source assumes; on lack of pages later the half-made child is only said to exist.
- `Spaces.Run`: regions that are removed or resized while their space lives, spaces shared by several threads, and accesses of the kernel; when pages run out for a new root or during a fork, which the source takes for a fault of the kernel, the run ends. `Spaces.Lifecycle` therefore says nothing about such runs but that no page is left.
- Regions that grow or shrink in place (heap and mmap), large pages, which are disabled, address-space switching and TLB fences.
- Slab caches, processes, semaphores, pipes, FAT32, the VFS layer, drivers and console output: mostly plumbing or hardware.
