# go-apfs verification model

go-apfs is a read-only parser for the Apple File System. This project models, in Dafny, the parts of it whose
correctness is not visible from one function body, and proves what those parts promise:

- **File data path**: `ReadFileRange` maps a byte range through extents, holes and blocks; the reader and seeker
  adapters put a cursor on top. The reference is a slice of the concatenated extents (`Cells`, `FileService`,
  `FileAdapters`).
- **Object-map lookup**: recursive descent, leaf scan, binary search and memo table (`ObjectMapTree`, `ObjectMapLookup`,
  `BinarySearcher`, `ObjectResolver`). The reference for the tree is the newest stored version not above the one asked
  for; that for the memo is the same resolution without it, and `ResolvedVersions` says how far that answer is the
  newest version.
- **Caches**: the block cache of the container reader, sequentially and as atomic steps of many readers
  (`ContainerReader`, `ConcurrentReads`), and the two-level LRU cache with its whole-run properties (`RecencyList`,
  `ObjectMapCache`, `BTreeService`).
- **Fletcher-64**: bounded sums against unbounded ones, the check words, and which changes are detected (`Fletcher`).
- **Codecs**: name hashing over two encodings, bitmap blocks, space-manager serialise/parse pairs, EFI driver assembly
  and PBKDF2 (`NameHash`, `Bitmap`, `ByteOrder`, `Buffers`, `SpaceManager`, `EfiDriver`, `Pbkdf2`).

`Outcomes`, `Arithmetic` and `Device` hold what these share. Code that updates state is a class with the source's
fields, or a method with the source's loops; each is proved against a function or predicate that says what it computes,
and the lemmas are about that. Sixty-four-bit arithmetic is written out: `U64` and `I64` wrap, and every other sum is
proved to fit. A panic is a value, `Panic`, distinct from an error.

## What turned out not to hold

Where the code falls short of what one would expect of it, the model keeps the code, a lemma gives a concrete case, and
another lemma says exactly when the expectation is met.

- A lookup can miss the newest version: `LookupCanMissNewest`. `LookupNewest` says when: the version is older than the
  one asked for and is the last key of a child that has a right sibling.
- A block number whose byte offset wraps around 2^64 is not rejected but read from the wrapped offset:
  `WrappedBlockIsRead` (block 2^52 of 4096 bytes is block 0). `BlockIsTrueIff` and `BlocksAreTrueIff` say when reads
  are right; `FinishedReadIsTrueIff`, `CachedBlockIsTrueIff` and `LoadIsTrueIff` carry this to concurrent readers and to
  node loads.
- A resolution can answer with an older version although a newer one is stored: a record after the object map's header
  hides the tree (`RecordHidesTree`) and later records (`FirstRecordWins`), and the most recent snapshot hides what is
  newer in the tree (`SnapshotHidesNewest`). `RecordAnswersNewestIff`, `FirstIsNewestIff` and `ResolvedNewest` say exactly
  when the newest version is the answer.
- A range whose `offset + length` wraps around 2^64 is not clipped to the end of the file but lost, or makes the reader
  panic: `WrappedRangeIsLost`. `ReadFileRange` says what is returned, `RangeIsDeliveredIff` when it is the range, and
  `RangePanicsIff` when it is a panic.
- A seek relative to the cursor or the end whose target lies at or beyond 2^64 wraps around instead of failing:
  `SeekIsRightIff`.
- A file whose extents do not cover its recorded size is never read to the end, without any error:
  `UncoveredNeverEnds`, and `RunReachesEnd`, in which the end is reported if and only if they cover it.
- Two readers that miss on the same block count it twice: `RaceOvercounts`. The counter is exact if and only if no
  insert was repeated (`CounterExactIff`), in particular if no two readers fetch the same block at the same time
  (`DistinctFetchesCountExactly`).
- The node cache forgets for which transaction it loaded a node: `CacheForgetsTransaction`, in which a cached node is also
  returned at a later transaction whose lookup would miss it. `GetNode` says which transaction a hit answers for, and
  `HitIsCurrentIff` and `HitOutlivesObject` say, of the stored versions, when that is the answer to the one asked for.
- An EFI extent whose size is negative as an int64 is skipped (`HugeExtentIsSkipped`), so that the driver can silently be
  made of other bytes (`WrongBytes`); one that wraps beyond that is cut (`WrappedExtentIsCut`). `ExtentIsTrueIff` and
  `DriverIsTrueIff` say exactly when an extent and the driver are read as they should be from every storage of a length;
  `DriverIsTrue` gives a condition on the extents alone.
- `VerifyChecksum` panics on an object of zero or four bytes, and on no other: `FourBytesPanic`, `VerdictPanicsIff`.
- Routing panics in a node whose table of contents holds some but not all entries counted, if no separator in it is at
  or above the key: `RouteCanPanic`, `RoutePanicsIff`. Without such internal nodes no lookup panics: `LookupNeverPanics`.
- A zone lookup panics for a negative device and a valid zone, and for nothing else: `ZonePanicsIff`.

## Model

| member | source | states |
|---|---|---|
| FileService.FileSystemService.ReadFileRange | internal/services/filesystem_service.go:1140-1233 | For every layout that fits: the requested range of the concatenated extents, clipped to the end, zeros for holes, an error if the device lacks a byte of it; if offset + length wraps, a panic, an error or nothing, depending on the extent that contains the offset. |
| FileService.FileSystemService.ReadExtents | internal/services/filesystem_service.go:1151-1232 | The extent loop, for one extent list. |
| FileService.FileSystemService.ReadFile | internal/services/filesystem_service.go:1124-1137 | The first `size` bytes of the concatenation; nothing for an empty file; an error for an unknown inode. |
| FileService.FileSystemService.ReadOverlap | internal/services/filesystem_service.go:1155-1222 | One turn of the extent loop obtains exactly the part of the extent inside the range. |
| FileService.FileSystemService.ReadExtent | internal/services/filesystem_service.go:1174-1221 | Part of one extent: zeros for a hole (a panic for 2^63 or more of them), otherwise the device's bytes or an error, if the part starts below 2^64 on the device. |
| FileService.FileSystemService.ReadPhysical | internal/services/filesystem_service.go:1186-1219 | The device's bytes at any 64-bit address, assembled from whole blocks with an offset into the first, or an error if it lacks one. |
| FileService.FileSystemService.ReadBlockwise | internal/services/filesystem_service.go:1191-1217 | The block loop ends, and yields the run of cells or fails exactly when one of its blocks is unreadable, before any block number can wrap. |
| FileService.OverlapPlain | internal/services/filesystem_service.go:1156-1171 | Without wrap-around the computed overlap is the intersection of extent and range. |
| FileService.OverlapWrapped | internal/services/filesystem_service.go:1156-1171 | When the end of the range wraps, exactly an extent that contains the offset and starts before the wrapped end is read from, and all of `length`. |
| FileService.WrappedRangeIsLost | internal/services/filesystem_service.go:1156-1177 | A ten-byte hole read from 5: to just below 2^64 it gives its last five bytes, to 2^64 nothing, to one byte further a panic. |
| FileService.RangeIsDeliveredIff | internal/services/filesystem_service.go:1140-1233 | If the device can supply the range, it is returned exactly if offset + length does not wrap or the offset is at or past the end. |
| FileService.RangePanicsIff | internal/services/filesystem_service.go:1174-1177 | Reading panics exactly if the range wraps and its offset lies in a hole that starts before the wrapped end. |
| FileService.WrappedRangeStops | internal/services/filesystem_service.go:1155-1224 | A wrapped range fails at the one extent that is read from: a panic for a hole, an error for another. |
| FileService.RunAcrossEnd | internal/services/filesystem_service.go:1191-1217 | A run of device bytes that reaches 2^64 is not available. |
| FileService.RangeGrows | internal/services/filesystem_service.go:1155-1224 | One more extent extends the result by its part of the range, or makes the whole range an error. |
| FileService.BlockExtendsRun | internal/services/filesystem_service.go:1198-1212 | One more block extends what has been read by the bytes taken from that block. |
| Cells.AdjacentReads | internal/services/filesystem_service.go:1140-1233 | Reading (o, a) and then (o + a, b) gives what reading (o, a + b) gives, errors included. |
| Cells.RangeOfReadableFile | internal/services/filesystem_service.go:1140-1233 | When the whole file is readable, every range of it is the slice of its bytes. |
| Device.CellIsDeviceByte | internal/services/container_reader.go:149-176 | Below 2^64 the byte reached through block number and remainder is the device's byte at that address, if the device holds the block. |
| Device.CellInPlace | internal/services/container_reader.go:149-176 | In a container of whole blocks, the byte reached through block number and remainder is the device's byte at that address. |
| FileAdapters.FileAdapter.Read | internal/services/file_adapters.go:38-64 | For every layout that fits: fills the buffer's front with the clipped range at the cursor, leaves the rest of it alone, moves the cursor by the bytes read, reports the end at or past the size; a read whose end wraps is not clipped. |
| FileAdapters.FileAdapter.Fetch | internal/services/file_adapters.go:43-53 | The range asked for gives that result, and never more than the room or than what is left. |
| FileAdapters.FileAdapter.Seek | internal/services/file_adapters.go:67-87 | Whence 0, 1 and 2 land at the distance from the start, the cursor and the end if that is a non-negative int64, and fail and stay put otherwise; a target at or beyond 2^64 wraps around. |
| FileAdapters.SeekPlaces | internal/services/file_adapters.go:67-87 | Where the three kinds of seek land; any other whence is an error. |
| FileAdapters.SeekIsRightIff | internal/services/file_adapters.go:67-87 | A seek lands where it should or fails as it should if and only if whence is invalid or the target lies below 2^64. |
| FileAdapters.SeekTells | internal/services/file_adapters.go:67-87 | Seeking by nothing from the cursor returns the cursor and moves nothing. |
| FileAdapters.SeeksAdd | internal/services/file_adapters.go:67-87 | Two seeks from the cursor land where one by the sum of their distances lands. |
| FileAdapters.SeeksBack | internal/services/file_adapters.go:67-87 | Seeking to the cursor from the start, or from the end, moves nothing. |
| FileAdapters.WrappedReadIsEmpty | internal/services/file_adapters.go:43-53 | A read whose end wraps around 2^64 returns no data and does not report the end. |
| FileAdapters.FileAdapter.ReadNext | internal/services/file_adapters.go:38-64 | One read of a file whose extents cover its size returns its next bytes, clipped to the size, and the end exactly at the size. |
| FileAdapters.FileAdapter.ReadAll | internal/services/file_adapters.go:38-64 | Reading through any positive buffer until the end is reported terminates, and returns everything from the cursor to the size. |
| FileAdapters.ReplyOfReadable | internal/services/file_adapters.go:38-64 | What a read of a readable file returns whether or not the extents cover the recorded size. |
| FileAdapters.ReadIsMemoryRead | internal/services/file_adapters.go:38-64 | With extents that cover the recorded size, a read answers as a cursor over the bytes in memory does. |
| FileAdapters.RunIsMemoryRun | internal/services/file_adapters.go:38-87 | Any run of reads and seeks answers, one by one, as the in-memory cursor does. |
| FileAdapters.PositionsStaySmall | internal/services/file_adapters.go:67-87 | No run of reads and seeks of the adapter takes the cursor out of the int64 range. |
| FileAdapters.RunReadsInOrder | internal/services/file_adapters.go:9-35 | Any run of reads of a readable file returns the bytes between its first and last position once and in order, and reports the end only at the recorded size. |
| FileAdapters.RunReachesEnd | internal/services/file_adapters.go:9-35 | With positive buffers, one read more than bytes are left returns all of them, and the end is reported if and only if the extents cover the recorded size. |
| FileAdapters.UncoveredNeverEnds | internal/services/file_adapters.go:9-35 | A ten-byte hole recorded as twenty bytes is read forever, without data and without error. |
| FileAdapters.RewindRereadsAll | internal/services/file_adapters.go:38-87 | After any operations of the adapter, a rewind and enough reads return the whole file. |
| ObjectMapTree.CompareKeys | internal/services/btree_object_resolver.go:522-538 | The sign of the comparison is the lexicographic order of (OID, XID), both directions. |
| ObjectMapTree.BestMatchIsNewest | internal/services/btree_object_resolver.go:243-290 | What the scan keeps is a matching entry with the greatest XID, and there is none exactly when nothing matches. |
| ObjectMapTree.BestMatchIsFirst | internal/services/btree_object_resolver.go:264-278 | Of several entries with the greatest XID the scan keeps the first. |
| ObjectMapTree.SearchLeafNode | internal/services/btree_object_resolver.go:224-291 | The loop over the table of contents ends with the scan's best match, skipping unusable entries. |
| ObjectMapTree.FirstCovering | internal/services/btree_object_resolver.go:305-333 | The first separator at or above the key, or none. |
| ObjectMapTree.FindChildNode | internal/services/btree_object_resolver.go:294-347 | The child of the first separator at or above the key, else the rightmost child, else an error; a panic exactly if the table holds some but not all entries counted and no separator covers the key. |
| ObjectMapTree.RoutePanicsIff | internal/services/btree_object_resolver.go:335-346 | Exactly when routing panics. |
| ObjectMapTree.RouteCanPanic | internal/services/btree_object_resolver.go:335-346 | Two keys counted, one separator (1, 1) present, (9, 9) asked for: routing panics. |
| ObjectMapTree.LookupNeverPanics | internal/services/btree_object_resolver.go:199-366 | A tree, sorted or not, none of whose internal nodes holds only part of its entries is searched without a panic. |
| ObjectMapTree.SearchBTreeNode | internal/services/btree_object_resolver.go:199-220 | The descent through container blocks terminates over every finite tree and equals the lookup on that tree. |
| ObjectMapTree.SearchChildNode | internal/services/btree_object_resolver.go:350-366 | The same for a child block, with an error for one that cannot be read or parsed. |
| ObjectMapLookup.LookupSound | internal/services/btree_object_resolver.go:199-366 | Over any finite tree, sorted or not, a returned address belongs to a stored entry of that OID with an XID not above the one asked. |
| ObjectMapLookup.LookupNewest | internal/services/btree_object_resolver.go:199-366 | Exact answer: the newest stored version is returned if it is the version asked for or is not the last key of a child with a right sibling; otherwise it is reported missing. |
| ObjectMapLookup.LookupAbsent | internal/services/btree_object_resolver.go:199-366 | With no version in the tree the answer is not found. |
| ObjectMapLookup.LookupExactKey | internal/services/btree_object_resolver.go:199-366 | Every stored key asked for exactly is found. |
| ObjectMapLookup.LookupCanMissNewest | internal/services/btree_object_resolver.go:294-347 | A two-leaf tree in which an object with version 5 is not found at version 7. |
| ObjectMapLookup.RoutedChild | internal/services/btree_object_resolver.go:294-347 | All children left of the one followed end below the key; it ends at or above it unless it is the last. |
| ObjectMapLookup.NewestIsNearRoute | internal/services/btree_object_resolver.go:294-347 | The newest version lies in the child followed or ends a child left of it. |
| ObjectMapLookup.LeafFindsNewest | internal/services/btree_object_resolver.go:224-291 | A sorted leaf that holds the newest version returns it. |
| BinarySearcher.SearchComposite | internal/parsers/btrees/btree_binary_searcher.go:219-261 | On strictly sorted keys, the index of the last version not above the one asked, or an error when there is none; never another object; an error at a missing entry or a key below 16 bytes. |
| BinarySearcher.CompositeAgreesWithScan | internal/parsers/btrees/btree_binary_searcher.go:219-261 | On a strictly sorted leaf the binary search and the linear scan settle on the same entry, or both on none. |
| BinarySearcher.SearchOid | internal/parsers/btrees/btree_binary_searcher.go:177-216 | With keys of 8 bytes or more sorted by OID: an entry of that OID, else the last one with a smaller OID; fails exactly when all OIDs are larger. |
| ObjectResolver.DecimalInjective | internal/services/btree_object_resolver.go:541-543 | Decimal numerals are injective. |
| ObjectResolver.CacheKeyInjective | internal/services/btree_object_resolver.go:541-543 | Equal "oid-xid" strings come from equal questions. |
| ObjectResolver.SearchManually | internal/services/btree_object_resolver.go:117-144 | The first matching record before an all-zero key, or an error. |
| ResolvedVersions.ManualIsFirst | internal/services/btree_object_resolver.go:117-144 | The records are answered by the first match before the all-zero key. |
| ResolvedVersions.ResolvedNeeds | internal/services/btree_object_resolver.go:46-68 | An answer needs a superblock with a non-zero object map that can be read, and a matching record or a tree. |
| ResolvedVersions.LiveEndsAtZero | internal/services/btree_object_resolver.go:127-130 | Records behind the first all-zero key are ignored; without one, all count. |
| ResolvedVersions.FirstIsNewestIff | internal/services/btree_object_resolver.go:117-144 | The first match is the newest version for every question if and only if newer versions are listed before older ones. |
| ResolvedVersions.FirstRecordWins | internal/services/btree_object_resolver.go:117-144 | Two records with version 5 first: it is the answer at transaction 10 although version 9 is stored. |
| ResolvedVersions.ResolvedNewest | internal/services/btree_object_resolver.go:84-114 | With no matching record, and the limit being the most recent snapshot if there is one not newer than asked, else the transaction asked for: a newest version within the limit is returned if and only if it lies at the limit or is not the last key of a child with a right sibling, and else reported missing; beyond the limit any answer is strictly older. |
| ResolvedVersions.SnapshotVersionIsFound | internal/services/btree_object_resolver.go:86-91 | A version stored at the most recent snapshot's own transaction is the answer from then on. |
| ResolvedVersions.ExactVersionIsFound | internal/services/btree_object_resolver.go:84-114 | Without a snapshot, or before it, a version stored at the transaction asked for is the answer. |
| ResolvedVersions.ResolvedAbsent | internal/services/btree_object_resolver.go:84-114 | With no matching record and no version in the tree the object is reported missing. |
| ResolvedVersions.SnapshotHidesNewest | internal/services/btree_object_resolver.go:86-91 | A leaf with versions 5 and 9 and a most recent snapshot 6 gives version 5 at transaction 10. |
| ResolvedVersions.SameAnswerIff | internal/services/btree_object_resolver.go:84-114 | An object resolved at one transaction has the same answer at another if and only if the newest versions for both are at one address and the second is reached. |
| ResolvedVersions.RecordAnswersNewestIff | internal/services/btree_object_resolver.go:93-102 | A matching record is the answer whatever the tree holds; it is the newest of all versions if and only if no record and no tree entry is newer. |
| ResolvedVersions.RecordHidesTree | internal/services/btree_object_resolver.go:93-102 | Version 5 in a record hides version 9 in the tree. |
| ObjectResolver.BTreeObjectResolver.ResolveVirtualObject | internal/services/btree_object_resolver.go:30-114 | Whatever was asked before, the answer is the one without a memo; only successes are remembered. |
| ObjectResolver.BTreeObjectResolver.Remember | internal/services/btree_object_resolver.go:107-113 | Remembering an answer keeps every memo entry equal to the uncached answer its key spells. |
| ObjectResolver.BTreeObjectResolver.ClearCache | internal/services/btree_object_resolver.go:546-551 | Empties the memo. |
| ContainerReader.ContainerReader.ReadBlock | internal/services/container_reader.go:139-182 | Returns what a read without the cache returns; afterwards a block that could be read is cached with that data, and a hit or a failure leaves the cache alone. |
| ContainerReader.ContainerReader.LoadBlock | internal/services/container_reader.go:149-176 | The uncached read: the bytes at the block's 64-bit offset, or an error outside the container or the device. |
| ContainerReader.ContainerReader.ReadBlocks | internal/services/container_reader.go:185-203 | The concatenation of the blocks, or an error if one cannot be read; the cache has seen the reads up to the first failure. |
| ContainerReader.ContainerReader.CacheBlock | internal/services/container_reader.go:207-218 | If the counter plus the block exceeds the limit, the cache is this block alone and the counter its length; else the block is added and the counter grows by its length. |
| ContainerReader.ContainerReader.ClearCache | internal/services/container_reader.go:251-257 | Empties the cache and its counter. |
| ContainerReader.BlockIsTrueIff | internal/services/container_reader.go:149-154 | A block read is right if and only if the offset does not wrap around 2^64 or the wrapped offset is rejected. |
| ContainerReader.WrappedBlockIsRead | internal/services/container_reader.go:149-154 | Block 2^52 of a one-block device with 4096-byte blocks is read as block 0. |
| ContainerReader.BlocksAreTrueIff | internal/services/container_reader.go:185-203 | A run of blocks is right if and only if it is empty, or the result's size is accepted and the run starts below 2^64 bytes or has a wrapped offset that is rejected. |
| ContainerReader.RunIsTrue | internal/services/container_reader.go:185-203 | A run that starts below 2^64 bytes is the contiguous slice, or an error if it is not all there. |
| ContainerReader.ReadBlocksIsSlice | internal/services/container_reader.go:185-203 | Inside the device, reading blocks reads the contiguous slice of its bytes. |
| ContainerReader.ReadBlocksPastEnd | internal/services/container_reader.go:185-203 | A run that ends beyond the device succeeds exactly if it starts at or beyond 2^64 bytes, its size is accepted and so is every wrapped offset; otherwise it is an error or a panic, never a short result. |
| ContainerReader.InsertCaches | internal/services/container_reader.go:207-218 | An inserted block is cached, together with exactly the blocks that were cached before or with none of them, and the counter says so. |
| ContainerReader.InsertExact | internal/services/container_reader.go:207-218 | Inserting a block that is not cached keeps the counter equal to the bytes held. |
| ContainerReader.InsertKeeps | internal/services/container_reader.go:207-218 | An insertion keeps every cached block what reading it gives and the counter at most max(limit, block size), and keeps it exact if the block was not cached. |
| ConcurrentReads.EveryInterleaving | internal/services/container_reader.go:139-218 | Under every interleaving of check, unlocked read, insert and clear: cached blocks and finished reads are what an uncached read returns, the counter is bounded and accounts for every repeated insert. |
| ConcurrentReads.FinishedReadIsTrueIff | internal/services/container_reader.go:139-182 | Under every interleaving a finished read returned what the device holds if and only if the offset does not wrap or was rejected. |
| ConcurrentReads.CachedBlockIsTrueIff | internal/services/container_reader.go:139-218 | Under every interleaving a cached block is what the device holds if and only if its offset does not wrap. |
| ConcurrentReads.StepKeepsInv | internal/services/container_reader.go:139-218 | Each single step keeps that invariant. |
| ConcurrentReads.InsertCounts | internal/services/container_reader.go:207-218 | An insert adds one block to the counter, whether or not the block was already cached. |
| ConcurrentReads.CounterExactIff | internal/services/container_reader.go:207-218 | The counter never undercounts, and is exact if and only if no cached block was inserted again. |
| ConcurrentReads.DistinctFetchesCountExactly | internal/services/container_reader.go:139-218 | If at no point of a run two readers fetch the same block, the counter is exact at every point. |
| ConcurrentReads.StepKeepsNoRepeats | internal/services/container_reader.go:139-218 | A step from a state in which no two readers fetch the same block repeats no insert and prepares none. |
| ConcurrentReads.UninterruptedRead | internal/services/container_reader.go:139-182 | The three steps, uninterrupted, are one sequential read. |
| ConcurrentReads.InsertedBlockIsHit | internal/services/container_reader.go:139-182 | Once a reader has inserted a block, the next check of that block finishes at once with it. |
| ConcurrentReads.ClearForgets | internal/services/container_reader.go:251-257 | After a clear no block is cached, the counter is zero, no reader has moved, and a check of any block misses. |
| ConcurrentReads.RaceOvercounts | internal/services/container_reader.go:139-218 | Two readers missing on one block leave one block cached and two counted. |
| ObjectMapCache.ObjectMapBTreeCache.constructor | internal/services/object_map_btree_cache.go:74-92 | Empty levels, with the default budgets for non-positive settings. |
| ObjectMapCache.ObjectMapBTreeCache.GetNode | internal/services/object_map_btree_cache.go:95-108 | The cached node, moved to the front; a miss changes nothing. |
| ObjectMapCache.ObjectMapBTreeCache.PutNode | internal/services/object_map_btree_cache.go:111-144 | A new node enters in front and the list is cut to the budget; a cached one is only moved and keeps its old value. |
| ObjectMapCache.ObjectMapBTreeCache.EvictOldestNode | internal/services/object_map_btree_cache.go:200-215 | Drops the least recently used node from list, map and counter. |
| ObjectMapCache.ObjectMapBTreeCache.InvalidateNode | internal/services/object_map_btree_cache.go:236-245 | Removes one node and leaves the order of the others. |
| ObjectMapCache.ObjectMapBTreeCache.GetBlock | internal/services/object_map_btree_cache.go:147-159 | The cached block, moved to the front; a miss changes nothing. |
| ObjectMapCache.ObjectMapBTreeCache.PutBlock | internal/services/object_map_btree_cache.go:162-197 | A new block keeps the longest most-recent prefix that fits the byte budget; a cached one is only moved. |
| ObjectMapCache.ObjectMapBTreeCache.EvictOldestBlock | internal/services/object_map_btree_cache.go:218-233 | Drops the least recently used block and its bytes. |
| ObjectMapCache.ObjectMapBTreeCache.InvalidateBlock | internal/services/object_map_btree_cache.go:248-257 | Removes one block and its bytes, and leaves the order of the others. |
| ObjectMapCache.ObjectMapBTreeCache.ClearNodeCache | internal/services/object_map_btree_cache.go:260-267 | Empties the node level only. |
| ObjectMapCache.ObjectMapBTreeCache.ClearBlockCache | internal/services/object_map_btree_cache.go:270-277 | Empties the block level only. |
| ObjectMapCache.ObjectMapBTreeCache.Clear | internal/services/object_map_btree_cache.go:280-291 | Empties both levels. |
| ObjectMapCache.DropBlock | internal/services/object_map_btree_cache.go:248-257 | Dropping a block lowers the bytes held by that block's length. |
| ObjectMapCache.TouchKeepsTotal | internal/services/object_map_btree_cache.go:147-159 | Moving a block to the front keeps the bytes held. |
| ObjectMapCache.GetOrPutBlock | internal/services/object_map_btree_cache.go:147-197 | A get, and a put if it missed, is one lookup event of such a run. |
| RecencyList.Inclusion | internal/services/object_map_btree_cache.go:95-144 | For one run of lookups, invalidations and clears, the smaller cache's recency list is a prefix of the larger one's. |
| RecencyList.HitsIncluded | internal/services/object_map_btree_cache.go:95-144 | A hit in the smaller cache is a hit in the larger one, at every point of every run. |
| RecencyList.StepKeepsPrefix | internal/services/object_map_btree_cache.go:95-144 | Each single event keeps the prefix relation. |
| RecencyList.RunIsMostRecent | internal/services/object_map_btree_cache.go:111-144 | A run of lookups leaves the first keys, up to the budget, of the order of recency. |
| RecencyList.ByRecencyIsByLastUse | internal/services/object_map_btree_cache.go:95-144 | The order of recency lists exactly the keys used, and before each of them exactly those used since its last use. |
| RecencyList.HitIffRecent | internal/services/object_map_btree_cache.go:95-108 | A key hits if and only if it was used before and fewer than the budget's number of distinct other keys were used since its last use. |
| RecencyList.FitIsLongest | internal/services/object_map_btree_cache.go:191-194 | What eviction leaves is the longest prefix within the byte budget. |
| RecencyList.OversizedEmpties | internal/services/object_map_btree_cache.go:162-197 | A block larger than the whole budget leaves the cache empty. |
| RecencyList.FittingStays | internal/services/object_map_btree_cache.go:162-197 | A new block that fits the budget stays, in front. |
| RecencyList.ByteInclusion | internal/services/object_map_btree_cache.go:147-197 | For one run of lookups, invalidations and clears, the block list of the smaller byte budget is a prefix of that of the larger one. |
| RecencyList.ByteStepKeepsPrefix | internal/services/object_map_btree_cache.go:147-197 | Each single event keeps that relation. |
| RecencyList.FitKeepsPrefix | internal/services/object_map_btree_cache.go:191-194 | What a smaller budget keeps of a shorter list is a prefix of what a larger one keeps of a longer list. |
| BTreeService.BTreeService.GetNode | internal/services/btree_service.go:332-409 | Through memo, node cache, block cache and container cache: a miss returns what an uncached load at the transaction asked for returns, a hit what it returned at the transaction it was loaded for; a success is one lookup event of the recency list, a failure leaves it. |
| BTreeService.BTreeService.FetchBlock | internal/services/btree_service.go:344-358 | What an uncached read of the block gives, whether cached or read; afterwards a block that fits the budget is cached with that data, and the block level has its new order. |
| BTreeService.FetchIsByteStep | internal/services/btree_service.go:344-358 | A successful fetch is one lookup event of the byte-budgeted recency list. |
| BTreeService.BTreeService.LoadNode | internal/services/btree_service.go:338-364 | A miss resolves, fetches and parses what an uncached load would, and leaves the block level as one fetch of the resolved block. |
| BTreeService.BTreeService.KeepNode | internal/services/btree_service.go:366-369 | A loaded node enters the node cache in front, for the transaction it was loaded at. |
| BTreeService.BTreeService.InvalidateCacheEntry | internal/services/btree_service.go:430-432 | One invalidation event of the recency list. |
| BTreeService.BTreeService.ClearCache | internal/services/btree_service.go:435-438 | One clear event; both levels are empty. |
| BTreeService.HitIsCurrentIff | internal/services/btree_service.go:332-336 | A hit for an object loaded at one transaction is right at another if and only if the newest version for the other is reached by the lookup and lies at the same address or holds the same node. |
| BTreeService.HitOutlivesObject | internal/services/btree_service.go:332-336 | If the object has no version at the transaction asked for, a hit is not what a load returns. |
| BTreeService.CacheForgetsTransaction | internal/services/btree_service.go:332-369 | An object with version 5 only loads at 5, is missed by the lookup at 7 and does not exist at 3; cached at 5, it is returned at all three. |
| BTreeService.LoadIsTrueIff | internal/services/btree_service.go:338-364 | A node load is the one from the device itself if and only if the resolved block's offset does not wrap, or is rejected, or does not parse. |
| BTreeService.BTreeService.Replay | internal/services/btree_service.go:332-438 | Any run of calls at one transaction leaves the recency list of the same run of events, failing loads left out. |
| BTreeService.ReplayOnBoth | internal/services/btree_service.go:332-438 | One run of calls on two services: the recency list of the smaller budget is a prefix of the larger one's, and every node it holds the other holds too. |
| Fletcher.ComputeFletcher64 | internal/parsers/objects/object_checksum_verifier.go:42-84 | Sums reduced once per 1024 words give the checksum of the unbounded definition, for data of any length. |
| Fletcher.SumChunk | internal/parsers/objects/object_checksum_verifier.go:46-71 | No 64-bit addition within a chunk overflows, and the sums stay congruent to the unbounded ones. |
| Fletcher.CheckValue | internal/parsers/objects/object_checksum_verifier.go:73-83 | The stored value holds the two check words of the sums. |
| Fletcher.VerifyChecksum | internal/parsers/objects/object_checksum_verifier.go:23-38 | False on a length that is no multiple of four, a panic below eight bytes, else whether the stored field is the checksum of the object with that field zeroed. |
| Fletcher.VerdictPanicsIff | internal/parsers/objects/object_checksum_verifier.go:23-38 | Verification panics exactly on objects of zero or four bytes. |
| Fletcher.FourBytesPanic | internal/parsers/objects/object_checksum_verifier.go:23-38 | It panics on the object 1, 2, 3, 4. |
| Fletcher.ZeroChecksum | internal/parsers/objects/object_checksum_verifier.go:30-34 | Zeroes the first eight bytes in place and nothing else, or panics on a shorter object. |
| Fletcher.ChecksumMakesSumsVanish | internal/parsers/objects/object_checksum_verifier.go:73-83 | Appending the checksum drives both sums to zero modulo 2^32 - 1. |
| Fletcher.OnlyChecksumMakesSumsVanish | internal/parsers/objects/object_checksum_verifier.go:73-83 | Of all fields of two non-zero 32-bit words, the checksum is the only one that makes both sums vanish. |
| Fletcher.SealedObjectVerifies | internal/parsers/objects/object_checksum_verifier.go:23-38 | An object stored with its own checksum in front verifies, whatever the field held before. |
| Fletcher.CheckWordsNonZero | internal/parsers/objects/object_checksum_verifier.go:73-83 | Both check words fit 32 bits and are never zero. |
| Fletcher.SameChecksumIff | internal/parsers/objects/object_checksum_verifier.go:42-84 | Two payloads share a checksum if and only if both sums agree modulo 2^32 - 1. |
| Fletcher.WordChangeDetected | internal/parsers/objects/object_checksum_verifier.go:42-84 | Changing one word goes unnoticed exactly when old and new agree modulo 2^32 - 1. |
| Fletcher.SwapDetected | internal/parsers/objects/object_checksum_verifier.go:42-84 | Swapping two words goes unnoticed exactly when their distance times their difference vanishes modulo 2^32 - 1. |
| Fletcher.AdjacentSwapDetected | internal/parsers/objects/object_checksum_verifier.go:42-84 | Swapping adjacent words goes unnoticed exactly when they agree modulo 2^32 - 1. |
| Fletcher.VerifyDetectsWordChange | internal/parsers/objects/object_checksum_verifier.go:23-38 | A verified object fails verification after any one-word change outside the field, except between 0 and 0xFFFFFFFF. |
| Fletcher.SummedWords | internal/parsers/objects/object_checksum_verifier.go:30-34 | The first two words enter the sums as zero and the others as they are, so the checksum field does not influence its own value. |
| NameHash.HashUTF8 | internal/services/name_hashing_service.go:17-54 | The loops compute the hash of the bytes, or with folding of the lower-cased runes; an undecodable byte is an error. |
| NameHash.HashUTF16 | internal/services/name_hashing_service.go:57-86 | The same for UTF-16 code units, low byte first. |
| NameHash.PlainHashClosed | internal/services/name_hashing_service.go:17-54 | The plain hash of n bytes is 5381 * 33^n plus the sum of each byte times 33 to the number of bytes behind it, modulo 2^32; zero for the empty name. |
| NameHash.HashOfA | internal/services/name_hashing_service.go:46-51 | The plain hash of the byte 0x61 is 177670. |
| NameHash.HashBytesClosed | internal/services/name_hashing_service.go:46-51 | The same from any starting value. |
| NameHash.PlainUnitsHash | internal/services/name_hashing_service.go:77-83 | The plain hash of code units is the plain hash of their bytes, low byte first. |
| NameHash.FoldUtf8 | internal/services/name_hashing_service.go:24-34 | Decoding ends, fails exactly on a bad byte, and otherwise gives the lower-cased runes in order. |
| NameHash.DecodeUtf8Rune | internal/services/name_hashing_service.go:90-125 | Decoding a non-empty input always takes at least one byte and never more than there are. |
| NameHash.DecodeUTF16 | internal/services/name_hashing_service.go:153-180 | The loop decodes surrogate pairs and single units as the definition does. |
| NameHash.DecodesIff | internal/services/name_hashing_service.go:90-125 | A name decodes if and only if it splits into lead bytes with the continuation bytes they announce. |
| NameHash.DecodeEncodeUtf8 | internal/services/name_hashing_service.go:90-125 | Decoding the UTF-8 encoding (section 3 of RFC 3629) of any scalar values gives them back. |
| NameHash.DecodeEncodeUtf16 | internal/services/name_hashing_service.go:153-180 | Decoding the UTF-16 encoding (section 2.1 of RFC 2781) of any scalar values gives them back. |
| NameHash.Utf16Lossless | internal/services/name_hashing_service.go:153-180 | Decoding any code units and writing the runes out again gives them back, unpaired surrogates included. |
| NameHash.FoldedHashesAgree | internal/services/name_hashing_service.go:17-86 | For all scalar values and every lower-casing, the folded hashes of the two encodings are equal. |
| NameHash.EncodeRuneIsUtf8 | internal/services/name_hashing_service.go:131-151 | A scalar value is encoded as section 3 of RFC 3629 says, padded with zeros. |
| NameHash.EncodedRuneDecodes | internal/services/name_hashing_service.go:131-151 | Every rune below 0x110000, surrogates included, decodes from its encoding. |
| NameHash.FoldByIdentity | internal/services/name_hashing_service.go:17-54 | Without case changes and without U+0000 the folded hash is the plain hash of the UTF-8 bytes. |
| NameHash.FoldedHashIsPlainHash | internal/services/name_hashing_service.go:24-45 | The folded hash of a name is the plain hash of its lower-cased form, if that has no U+0000. |
| NameHash.UntilZeroIsAll | internal/services/name_hashing_service.go:38-44 | Of an encoded rune the bytes before the first zero are hashed, and no others. |
| NameHash.RuneBeyondUnicode | internal/services/name_hashing_service.go:131-151 | A rune beyond U+10FFFF does not enter the hash. |
| NameHash.HashEncoded | internal/services/name_hashing_service.go:38-44 | The inner loop hashes an encoded rune up to its first zero byte. |
| Bitmap.GeneralBitmapBlock.constructor | internal/parsers/encryption_rolling/bitmap_reader.go:89-134 | Bit i of the parsed words is bit i mod 8 of its byte: little-endian byte 32 + i / 8, big-endian the byte as far from the other end of its word; also in a partial last word. |
| Bitmap.ParseBlock | internal/parsers/encryption_rolling/bitmap_reader.go:42-55 | Blocks below 40 bytes are rejected; any other has exactly the bits of its bytes, in either byte order. |
| Bitmap.GeneralBitmapBlock.IsBitSet | internal/parsers/encryption_rolling/bitmap_reader.go:162-174 | Membership in the set of bits; false beyond the block. |
| Bitmap.GeneralBitmapBlock.SetBit | internal/parsers/encryption_rolling/bitmap_reader.go:176-188 | Set insertion, every other bit unchanged; an index beyond the block changes nothing. |
| Bitmap.GeneralBitmapBlock.ClearBit | internal/parsers/encryption_rolling/bitmap_reader.go:190-202 | Set removal, every other bit unchanged; an index beyond the block changes nothing. |
| Bitmap.WordsHaveDataBits | internal/parsers/encryption_rolling/bitmap_reader.go:109-131 | The parsed words have exactly the bits of the block's bytes. |
| Bitmap.DataBitIs | internal/parsers/encryption_rolling/bitmap_reader.go:109-131 | Where bit i of a block lies: byte 32 + i / 8 little-endian, byte 32 + 8 * (i / 64) + 7 - (i mod 64) / 8 big-endian. |
| Bitmap.BitOfWithBit | internal/parsers/encryption_rolling/bitmap_reader.go:176-202 | Setting or clearing bit k of a word decides bit k and no other. |
| Bitmap.BitWeight | internal/parsers/encryption_rolling/bitmap_reader.go:176-188 | Setting a clear bit k adds 2^k. |
| Bitmap.BitOfFromLe | internal/parsers/encryption_rolling/bitmap_reader.go:109-131 | Bit i of a little-endian word is bit i mod 8 of its byte i / 8. |
| Bitmap.BitOfWord | internal/parsers/encryption_rolling/bitmap_reader.go:109-131 | Bit k of a word of eight bytes is bit k mod 8 of one of them, in either byte order. |
| SpaceManager.SerialiseTable | internal/parsers/space_manager/space_manager_reader.go:317-348 | The in-place writes leave the layout of the whole zone table. |
| SpaceManager.GetDataZoneInfo | internal/parsers/space_manager/space_manager_reader.go:317-348 | The reader over the serialised bytes holds the table itself, in either byte order. |
| SpaceManager.ParseTable | internal/parsers/space_manager/spaceman_datazone_info_reader.go:20-84 | Parses the two devices' eight zones each, or rejects a short buffer. |
| SpaceManager.TableReadsBack | internal/parsers/space_manager/space_manager_reader.go:165-202 | Serialise, then parse, is the identity on zone tables, whatever bytes follow. |
| SpaceManager.ZoneReadsBack | internal/parsers/space_manager/spaceman_allocation_zone_info_reader.go:38-73 | A zone written anywhere in a buffer reads back. |
| SpaceManager.ZoneLayoutIs | internal/parsers/space_manager/spaceman_allocation_zone_info_reader.go:38-73 | The zone's fields, in order: current start and end, previous boundaries, id, index, reserved. |
| SpaceManager.PreviousLayoutIs | internal/parsers/space_manager/spaceman_allocation_zone_info_reader.go:52-58 | Previous boundary i is its start and end at 16 * i. |
| SpaceManager.GetAllocationZoneReader | internal/parsers/space_manager/spaceman_datazone_info_reader.go:92-130 | Agrees with GetAllocationZone on every device and zone index, errors and the panic for a negative device included. |
| SpaceManager.ZonePanicsIff | internal/parsers/space_manager/spaceman_datazone_info_reader.go:133-138 | A zone lookup panics exactly for a negative device and a valid zone. |
| SpaceManager.ZoneOfParsedTable | internal/parsers/space_manager/spaceman_datazone_info_reader.go:133-138 | The zone of a parsed table is the one stored at byte 136 * (8 * device + zone). |
| SpaceManager.WriteZone | internal/parsers/space_manager/spaceman_datazone_info_reader.go:101-127 | The in-place writes leave the layout of a zone and touch nothing else. |
| SpaceManager.ReadZone | internal/parsers/space_manager/spaceman_allocation_zone_info_reader.go:38-73 | Parses each field of a zone at its offset. |
| SpaceManager.ParseChunkInfoBlock | internal/parsers/space_manager/chunk_info_block_reader.go:20-105 | The loops compute the block that those two lemmas describe. |
| SpaceManager.ChunkBlockReadsBack | internal/parsers/space_manager/chunk_info_block_reader.go:46-105 | A header of type 7, index, count and entries laid out one behind the other parse to that index and those entries, whatever follows. |
| SpaceManager.ChunkBlockRejectedIff | internal/parsers/space_manager/chunk_info_block_reader.go:20-42 | A block is rejected exactly if it is shorter than 40 bytes or than its count demands, or of another type. |
| SpaceManager.GetChunkInfoReader | internal/parsers/space_manager/chunk_info_block_reader.go:149-173 | Agrees with entry i, errors included. |
| SpaceManager.ChunkReadsBack | internal/parsers/space_manager/chunk_info_reader.go:40-70 | A chunk entry written anywhere in a buffer reads back. |
| SpaceManager.ChunkLayoutIs | internal/parsers/space_manager/chunk_info_reader.go:40-70 | The entry's fields, in order: transaction, address, block count, free count, bitmap address. |
| SpaceManager.CalculateTotals | internal/parsers/space_manager/chunk_info_block_reader.go:177-193 | The totals are the exact sums; the 64-bit accumulators cannot overflow. |
| SpaceManager.TotalsOfUpdate | internal/parsers/space_manager/chunk_info_block_reader.go:177-193 | Another entry changes the total of blocks by the difference of its block count, and that of free blocks by that of its free count. |
| ByteOrder.GetOfPut | internal/parsers/space_manager/space_manager_reader.go:317-348 | Fixed-width integers read back in either byte order. |
| ByteOrder.PutOfGet | internal/parsers/space_manager/space_manager_reader.go:165-202 | Writing what was read restores the bytes. |
| ByteOrder.PutDigit | internal/parsers/space_manager/space_manager_reader.go:317-348 | Byte i of an integer is its base-256 digit i, counted from the end if big-endian. |
| ByteOrder.PutExamples | internal/parsers/space_manager/space_manager_reader.go:317-348 | 0x01020304 is 4, 3, 2, 1 little-endian and 1, 2, 3, 4 big-endian. |
| EfiDriver.GetEFIDriverData | internal/parsers/efi_jumpstart/efi_driver_extractor.go:54-137 | The first declared bytes of the stretches that 64-bit arithmetic computes for the extents, or an error if invalid, too short or unreadable. |
| EfiDriver.ReadExtent | internal/parsers/efi_jumpstart/efi_driver_extractor.go:72-117 | One turn of the loop reads the part of the extent still needed, nothing of an empty one, or fails. |
| EfiDriver.DriverInRange | internal/parsers/efi_jumpstart/efi_driver_extractor.go:54-137 | With extents inside the storage, exactly the first declared bytes of their contents, and failure if and only if they cover fewer. |
| EfiDriver.DriverNeedsMagic | internal/parsers/efi_jumpstart/efi_driver_extractor.go:49-57 | Only a jumpstart with the magic 'RDSJ' and version 1 yields a driver. |
| EfiDriver.DriverIsTrueIff | internal/parsers/efi_jumpstart/efi_driver_extractor.go:54-137 | From every storage of a length the driver is the one the extents describe, without wrap-around, if and only if the first declared addresses read are the true ones, or both are unreadable. |
| EfiDriver.DriverIsTrue | internal/parsers/efi_jumpstart/efi_driver_extractor.go:54-137 | It is if every extent reached before the driver is complete is exact. |
| EfiDriver.DriverIsTrueInInt64 | internal/parsers/efi_jumpstart/efi_driver_extractor.go:54-137 | In particular if no extent starts or spans beyond the int64 range. |
| EfiDriver.ExtentIsTrueIff | internal/parsers/efi_jumpstart/efi_driver_extractor.go:76-105 | From every storage of a length an extent is read as it should be, as far as the room goes, if and only if it is exact, or reading it both is and should be an error. |
| EfiDriver.ExtentIsExactIff | internal/parsers/efi_jumpstart/efi_driver_extractor.go:76-93 | The computed start and, up to the room, size are the true ones if and only if the extent is empty, or its start is an int64 and its size is below 2^63 or wraps to no less than the room. |
| EfiDriver.HugeExtentIsSkipped | internal/parsers/efi_jumpstart/efi_driver_extractor.go:77-97 | An extent of 2^63 bytes is treated as empty. |
| EfiDriver.WrongBytes | internal/parsers/efi_jumpstart/efi_driver_extractor.go:76-97 | After a skipped extent of 2^63 bytes the driver is silently taken from the extent that follows. |
| EfiDriver.WrappedExtentIsCut | internal/parsers/efi_jumpstart/efi_driver_extractor.go:76-97 | One block more than 2^64 bytes is read as one block. |
| Pbkdf2.Derive | internal/services/crypto_service.go:23-41 | The in-place loops fill the key with the first keyLen octets of T1, T2, ... (section 5.2 of RFC 2898); a negative key length panics. |
| Pbkdf2.Pbkdf2Block | internal/services/crypto_service.go:44-75 | One block is the XOR of the iterated U values; an iteration count below one counts as one. |
| Pbkdf2.BlockIndexIs | internal/services/crypto_service.go:48-54 | The four octets of the block number, most significant first, make up the number below 2^32. |
| Pbkdf2.FillBlock | internal/services/crypto_service.go:28-38 | One turn extends the filled prefix by its block, truncated for the last one. |
| Pbkdf2.XorInto | internal/services/crypto_service.go:68-70 | XORs a digest into the accumulator in place. |
| Pbkdf2.ShorterKeyIsPrefix | internal/services/crypto_service.go:23-41 | A shorter key is a prefix of a longer one. |
| Pbkdf2.OneBlockKey | internal/services/crypto_service.go:23-75 | A 32-octet key is the pseudorandom function of salt and 0, 0, 0, 1 after one iteration, and its XOR with its own successor after two. |
| Pbkdf2.StreamBlock | internal/services/crypto_service.go:23-41 | Block i of the key stream is T of i. |

## Left out

- FileService.FileSystemService.ReadFileRange: says nothing about the bytes when the extents' total size or an extent's device addresses exceed 2^64, where the running offsets wrap, or when a hole has 2^63 bytes or more, whose zeros one slice cannot hold; compressed extents are not modelled.
- FileService.FileSystemService.ReadExtents: the same limits.
- FileService.FileSystemService.ReadFile: the same limits.
- FileService.FileSystemService.ReadOverlap: the same limits.
- FileService.FileSystemService.ReadExtent: says nothing about a part that starts at 2^64 or beyond on the device, where its address wraps; compressed extents are not modelled.
- FileAdapters.FileAdapter.Read: the data clause covers layouts within these limits. FileReaderAdapter's Read is the same code and is not given twice.
- FileAdapters.FileAdapter.Fetch: the same.
- BTreeService.BTreeService.GetNode: GetRootNode and GetChildNode are the same code and are one method.
- BTreeService.BTreeService.Replay: runs at one transaction only; with several, a hit can succeed where a load fails, and inclusion between two budgets is lost.
- EfiDriver.DriverIsTrue: a sufficient condition on the extents; DriverIsTrueIff is the exact one, on the addresses they lead to.
- BinarySearcher.SearchComposite: states the index of the entry only, not the value bytes and child number that are copied from it.
- BinarySearcher.SearchOid: the same.
- BinarySearcher.CompositeAgreesWithScan: agreement is on the entry only. The searcher takes a value from the front of the node and the resolver from its end, so the value bytes they hand back for that entry need not be the same.
- Fletcher.SumChunk, FileService's ReadExtents, ReadOverlap, ReadExtent, ReadPhysical and ReadBlockwise, FileAdapter.Fetch, EfiDriver.ReadExtent, BTreeService's LoadNode and KeepNode, and the Write and Read methods of SpaceManager are loops or loop bodies of one source function each, given as methods of their own.
- ObjectMapLookup.LookupNewest: the tree convention is the one findChildNode relies on (separator i is the largest key under child i); nothing is claimed about Apple's on-disk convention.
- ObjectMapTree.SearchBTreeNode: a container whose child pointers form a cycle has no finite tree; on such input the code need not terminate.
- Byte offsets inside a B-tree node, table-of-contents entry sizes and key/value extraction: behind the decoded node; every way in which decoding can fail is a value the search loops branch on.
- The fixed-size binary searches: their keys are cut to eight bytes, so the composite one cannot succeed.
- Memory exhaustion and the platform's limit on one allocation, which can be far below 2^63 bytes: make panics here only for lengths that are no int64.
- Concurrent use of the LRU cache, whose methods each hold one lock throughout, and of the resolver memo, which is looked up under a read lock, released while resolving, and written under a write lock: both are sequential here.
- Statistics, hit rates, utilisation percentages, nil checks of the LRU cache, and its element type: the recency lists hold keys only.
- The device is an immutable byte sequence; files, viper settings, logging and internal/disk/dmg.go are not part of this model.
- Unicode lower-casing is an arbitrary function and HMAC-SHA-256 an arbitrary pseudorandom function.
- Overlong forms and encoded surrogates, which decodeUTF8Rune accepts beyond RFC 3629: decoded as the code does, with no claim about them.
- The device and free-queue serialisers of the space manager, and the single-record field readers: the same kind as the zone and chunk pairs, with nothing harder.
- Filesystem-tree navigation that guesses value sizes, scanning fallbacks, placeholder paths: heuristics with no firm specification.
