# atlant-fs, modelled in Dafny

atlant-fs is a file system kept in one backing file, laid out like ext2. Block 0 holds the superblock. The block
bitmaps, the inode bitmaps, the inode tables and the data blocks follow it. An inode is a fixed-size record. It holds
the file's size, its block count, the layout of its i-block area and the i-block itself. A small file keeps its bytes
inline in the i-block. A small directory keeps its entry list there. A larger one switches to a block mapping, which
holds direct block ids and indirect trees of pointer blocks. A directory's entries are variable-length records,
aligned to 8 bytes, that tile each block without gaps. Paths (`AtlantPath`) are byte strings of names separated by '/'.

The model follows the Java sources class by class:

- `java_int`, `bytes`, `fields`, `block`, `disk`, `wrappers`: Java integer widths, `ByteBuffer` field access, block
  ids and ranges, the backing file as numbered blocks, and exceptions as `Result` errors.
- `super_block`, `file_type`, `iblock_type`: the on-disk codecs with their round trips.
- `bitmap`, `bitmap_region`: the bit-level bitmap and the regions that reserve and free ids. `BitmapRegion.Region` is
  a class over the cached bitmaps and the `current` hint.
- `inode`, `inode_table`: the inode record, its own bookkeeping around i-block operations, and the inode table with
  its cache.
- `indirect_block`, `indirect_block_store`, `block_mapping`, `abstract_block_mapping`, `block_mapping_store`: the
  indirect trees, the mapping of logical blocks to block ids, and how both are stored.
- `file_block_mapping`: a regular file's bytes over its data blocks, with `write` and `read`.
- `dir_entry`, `entry_list`, `dir_entry_list`, `dir_block_mapping`, `dir_tree_node`: directory entries, entry lists,
  directories spread over blocks, and the hashed index node.
- `path_names`, `path_normalize`, `path_resolve`, `path_ops`, `path_prefix`, `path_relativize`, `path_object`:
  `AtlantPath`.

Objects whose fields the source updates in place are classes. Their methods are proved against pure specification
functions of the old state, and the properties are lemmas about those functions. Byte-level loops (`initOffsets`,
`doGetResolved`, `normalize`, `relativize`, `compareTo`, `startsWith`, `endsWith`) are methods with loop invariants
over arrays.

## Model

| member | source | states |
|---|---|---|
| JavaInt.Wrap32 | src/main/java/org/atlantfs/Block.java:25-35 | the `int` a Java `int` expression yields: congruent to the exact value modulo 2^32, and equal to it when it is in range |
| JavaInt.Wrap16 | src/main/java/org/atlantfs/DirEntry.java:197-199 | the `short` a narrowing cast yields: congruent modulo 2^16, equal to the value when it fits |
| JavaInt.Wrap64 | src/main/java/org/atlantfs/Inode.java:183 | the `long` arithmetic of sizes: congruent modulo 2^64, equal to the value when it fits |
| JavaInt.Wrap32Congruent | src/main/java/org/atlantfs/Block.java:25-35 | values equal modulo 2^32 wrap to the same `int` |
| JavaInt.Wrap32AddWrapped | src/main/java/org/atlantfs/Block.java:25-35 | wrapping an intermediate sum does not change the wrapped total, on either side |
| JavaInt.JDivRem | src/main/java/org/atlantfs/InodeTableRegion.java:71-77 | Java's truncating `/` and `%` for a positive divisor recombine to the dividend, the remainder is below the divisor in magnitude and has the dividend's sign, and both agree with Euclidean division on non-negative dividends |
| Bytes.DecodeEncodeLE | src/test/java/org/atlantfs/util/ByteBufferUtil.java:13-18 | little-endian decoding of an encoded unsigned value gives the value |
| Bytes.EncodeDecodeLE | src/test/java/org/atlantfs/util/ByteBufferUtil.java:13-18 | encoding a decoded byte string gives the same bytes |
| Bytes.DecodeEncodeSigned | src/test/java/org/atlantfs/util/ByteBufferUtil.java:13-18 | a signed field written with `putShort`/`putInt`/`putLong` reads back as the value written |
| Bytes.EncodeDecodeSigned | src/test/java/org/atlantfs/util/ByteBufferUtil.java:13-18 | a signed field read and written back gives the bytes read |
| Fields.GetPutShort | src/main/java/org/atlantfs/DirEntry.java:133-175 | a short put at an index reads back at that index whatever bytes surround it |
| Fields.GetPutInt | src/main/java/org/atlantfs/DirEntry.java:133-175 | an int put at an index reads back at that index whatever bytes surround it |
| Fields.GetPutLong | src/main/java/org/atlantfs/Inode.java:70-97 | a long put at an index reads back at that index whatever bytes surround it |
| Fields.PutGetInt | src/main/java/org/atlantfs/DirEntry.java:133-175 | an int read at an index and written back leaves the bytes unchanged |
| Fields.PutGetLong | src/main/java/org/atlantfs/Inode.java:70-97 | a long read at an index and written back leaves the bytes unchanged |
| Block.Id.Plus | src/main/java/org/atlantfs/Block.java:25-27 | `plus` adds exactly when the sum is an `int`, and wraps otherwise |
| Block.Id.Minus | src/main/java/org/atlantfs/Block.java:33-35 | `minus(int)` subtracts exactly when the difference is an `int` |
| Block.Id.MinusId | src/main/java/org/atlantfs/Block.java:29-31 | `minus(Id)` is `minus` by the other id's value |
| Block.PlusMinus | src/main/java/org/atlantfs/Block.java:25-35 | adding then subtracting the same amount gives the block back, overflow or not |
| Block.MinusPlus | src/main/java/org/atlantfs/Block.java:25-35 | subtracting then adding the same amount gives the block back, overflow or not |
| Block.MinusIdPlus | src/main/java/org/atlantfs/Block.java:25-31 | the distance between two blocks added to the lower one gives the upper one |
| Block.CompareStrict | src/main/java/org/atlantfs/Block.java:37-43 | `lessThan` and `greaterThan` are converse, irreflexive, exclusive strict orders and one of less, greater or equal holds |
| Block.RangeOf | src/main/java/org/atlantfs/Block.java:53-57 | `Range.of` succeeds exactly for a non-negative start and a positive length, keeping both; otherwise the assertion fails |
| Disk.Disk.WriteBlock | src/main/java/org/atlantfs/AbstractBitmapRegion.java:203-205 | the written block holds the new bytes and every other block is unchanged |
| FileType.Read | src/main/java/org/atlantfs/FileType.java:19-27 | an empty buffer underflows; codes 0 to 2 give the type with that code; any other byte is an illegal argument |
| FileType.Write | src/main/java/org/atlantfs/FileType.java:29-31 | one byte, the type's code |
| FileType.ReadWrite | src/main/java/org/atlantfs/FileType.java:19-31 | a written type reads back as that type whatever follows it |
| FileType.CodeInjective | src/main/java/org/atlantfs/FileType.java:7-9 | distinct types have distinct codes |
| IBlockType.IBlockType.FileType | src/main/java/org/atlantfs/IBlockType.java:8-18 | the first three layouts are regular-file layouts and the last three directory layouts |
| IBlockType.Read | src/main/java/org/atlantfs/IBlockType.java:32-43 | an empty buffer underflows; codes 1 to 6 give the layout with that code; any other byte, 0 included, is an illegal argument |
| IBlockType.Write | src/main/java/org/atlantfs/IBlockType.java:49-51 | one byte, the layout's code |
| IBlockType.ReadWrite | src/main/java/org/atlantfs/IBlockType.java:32-51 | a written layout reads back as that layout whatever follows it |
| IBlockType.WriteRead | src/main/java/org/atlantfs/IBlockType.java:32-51 | a byte that reads as a layout is written back unchanged |
| IblockType.Read | src/main/java/org/atlantfs/IblockType.java:31-42 | codes 1 to 6 are accepted, with the code read |
| IblockType.Write | src/main/java/org/atlantfs/IblockType.java:48-50 | one byte, the layout's code |
| IblockType.AgreesWithIBlockType | src/main/java/org/atlantfs/IblockType.java:31-42 | the two revisions of the layout code accept the same bytes, with the same code and owner, and reject the rest with the same error |
| IblockType.ReadWrite | src/main/java/org/atlantfs/IblockType.java:31-50 | a written layout reads back as that layout |
| Bitmap.FirstClear | src/test/java/org/atlantfs/BitmapTest.java:31-67 | the lowest clear bit at or after the start, or NOT_FOUND exactly when every bit from the start is set |
| Bitmap.Reserve | src/test/java/org/atlantfs/BitmapTest.java:31-67 | `reserve()` sets the lowest clear bit and returns it, every bit below it being set; a full bitmap answers NOT_FOUND and is unchanged |
| Bitmap.Free | src/test/java/org/atlantfs/BitmapTest.java:109-136 | `free(bit)` answers true exactly when the bit was in range and set; the bit is then clear and every other bit unchanged |
| Bitmap.ReserveThenFree | src/test/java/org/atlantfs/BitmapTest.java:163-180 | freeing the bit `reserve()` returned answers true and restores the bitmap |
| Bitmap.RunEnd | src/test/java/org/atlantfs/BitmapTest.java:68-107 | a run of clear bits from its start, at most the requested length, ends at a set bit, the end of the bitmap or the cap |
| Bitmap.SetRanges | src/test/java/org/atlantfs/BitmapTest.java:68-107 | the bitmap keeps its length with the ranges' bits set |
| Bitmap.ClearRanges | src/test/java/org/atlantfs/BitmapTest.java:137-160 | `free(range)`: the bitmap keeps its length with the ranges' bits cleared |
| Bitmap.RunsTakeAvailable | src/test/java/org/atlantfs/BitmapTest.java:68-107 | `reserve(n)` takes exactly min(n, number of clear bits) bits |
| Bitmap.RunsShape | src/test/java/org/atlantfs/BitmapTest.java:68-107 | the runs `reserve(n)` takes lie within the bitmap, cover only clear bits, and are ascending and separated |
| Bitmap.RunsLowest | src/test/java/org/atlantfs/BitmapTest.java:68-107 | every clear bit is either taken or above every taken run: the lowest clear bits are taken first |
| Bitmap.ClearAfterSet | src/test/java/org/atlantfs/BitmapTest.java:137-160 | clearing ranges that were clear before being set restores the bitmap |
| Bitmap.ReserveRunsThenFree | src/test/java/org/atlantfs/BitmapTest.java:68-160 | freeing every range `reserve(n)` took restores the bitmap |
| Bitmap.SetRangesGrows | src/test/java/org/atlantfs/BitmapTest.java:68-107 | setting ranges never clears a bit |
| BitmapRegion.Offsets | src/main/java/org/atlantfs/AbstractBitmapRegion.java:233-237 | `applyOffset(b, ranges)`: one id range per bit range, in order, each starting at the id of its first bit with the same length |
| BitmapRegion.ApplyOffsetInverse | src/main/java/org/atlantfs/InodeBitmapRegion.java:13-15 | the id of bit p of bitmap b maps back to bitmap b and bit p, for inode ids (shifted by one) and block ids alike |
| BitmapRegion.ApplyOffsetInjective | src/main/java/org/atlantfs/DataBitmapRegion.java:12-14 | distinct (bitmap, bit) pairs name distinct ids in both kinds of region |
| BitmapRegion.DataMappingAsWritten | src/main/java/org/atlantfs/AbstractBitmapRegion.java:225-231 | for data-block regions the mapping the model uses is exactly `toBitmapNumber`/`toBitmapOffset` as written |
| BitmapRegion.InodeOffsetAsWrittenMisses | src/main/java/org/atlantfs/AbstractBitmapRegion.java:225-231 | as written, inode 1 (bit 0 of bitmap 0) is mapped back to bit 1, not bit 0 |
| BitmapRegion.InodeFreeAsWrittenLeaks | src/main/java/org/atlantfs/AbstractBitmapRegion.java:151-168 | as written, on a blank inode region `free` of the inode `reserve()` returned finds bit 1 already clear, reports no change, and bit 0 stays set |
| BitmapRegion.FirstNonFull | src/main/java/org/atlantfs/AbstractBitmapRegion.java:58-69 | the first bitmap from `current` on with a clear bit, every bitmap skipped being full; none when all from `current` on are full |
| BitmapRegion.Multi | src/main/java/org/atlantfs/AbstractBitmapRegion.java:108-142 | `reserveMultiple` on values: the bitmap count and disk size are kept |
| BitmapRegion.MultiRecurse | src/main/java/org/atlantfs/AbstractBitmapRegion.java:121-131 | a level that is not the last and did not complete the request passes the rest to the next level |
| BitmapRegion.MultiEnd | src/main/java/org/atlantfs/AbstractBitmapRegion.java:121-134 | the last level short of bits fails with out-of-memory and frees what it took; a level that completes ends the recursion, writing its bitmap unless `current` left the region |
| BitmapRegion.Region.Init | src/main/java/org/atlantfs/AbstractBitmapRegion.java:42-50 | every bitmap block, in memory and on disk, is zero and `current` is 0 |
| BitmapRegion.Region.Write | src/main/java/org/atlantfs/AbstractBitmapRegion.java:203-205 | the bitmap in memory is written to its block; nothing else changes |
| BitmapRegion.Region.ReserveSingle | src/main/java/org/atlantfs/AbstractBitmapRegion.java:86-106 | a full bitmap moves `current` past it and changes nothing else; otherwise its lowest clear bit is set, written, and its id returned |
| BitmapRegion.Region.Reserve | src/main/java/org/atlantfs/AbstractBitmapRegion.java:58-69 | result and new state are those of the reserve specification over the old state |
| BitmapRegion.Region.ReserveMultiple | src/main/java/org/atlantfs/AbstractBitmapRegion.java:108-142 | result and new state are those of `Multi` over the old state |
| BitmapRegion.Region.TakeLevel | src/main/java/org/atlantfs/AbstractBitmapRegion.java:109-120 | the level takes the runs `Bitmap.reserve(size)` takes and moves `current` past a bitmap with nothing to give |
| BitmapRegion.Region.ReserveRest | src/main/java/org/atlantfs/AbstractBitmapRegion.java:126-131 | a level asking the next one for the rest ends in the state `Multi` describes |
| BitmapRegion.Region.FinishLevel | src/main/java/org/atlantfs/AbstractBitmapRegion.java:132-137 | the end of a level: out-of-memory frees the level's runs, other errors pass through, success writes the bitmap |
| BitmapRegion.Region.ReserveSize | src/main/java/org/atlantfs/AbstractBitmapRegion.java:78-84 | `reserve(size)` is `Multi` from `current`, and a success hands out exactly `size` ids |
| BitmapRegion.Region.Free | src/main/java/org/atlantfs/AbstractBitmapRegion.java:151-168 | the new state is the `free(id)` specification: a set bit is cleared, written, and pulls `current` back; a clear bit changes nothing |
| BitmapRegion.Region.ClearLevel | src/main/java/org/atlantfs/AbstractBitmapRegion.java:192-195 | one visited bitmap gets its new bits in memory and on disk and pulls `current` back to it |
| BitmapRegion.Region.FreeRangesLevel | src/main/java/org/atlantfs/AbstractBitmapRegion.java:187-199 | one bitmap's turn in `free(ranges)` is the specification's step for it |
| BitmapRegion.Region.FreeRanges | src/main/java/org/atlantfs/AbstractBitmapRegion.java:181-201 | `free(ranges)` ends in the state of the specification that visits the bitmaps in ascending order |
| BitmapRegion.Region.FreeIdsLevel | src/main/java/org/atlantfs/BitmapRegion.java:177-190 | one bitmap's turn in the older `free(ids)` is the specification's step for it |
| BitmapRegion.Region.FreeIds | src/main/java/org/atlantfs/BitmapRegion.java:171-192 | the older `free(ids)` ends in the state of the specification that visits the bitmaps in ascending order |
| BitmapRegion.MultiSum | src/main/java/org/atlantfs/AbstractBitmapRegion.java:78-84 | a completed `reserveMultiple` hands out exactly the number of ids asked for (the source's assertion at line 81) |
| BitmapRegion.SumOffsets | src/main/java/org/atlantfs/AbstractBitmapRegion.java:233-237 | converting bit ranges to id ranges keeps the total length |
| BitmapRegion.ReserveLowest | src/main/java/org/atlantfs/AbstractBitmapRegion.java:58-106 | `reserve()` hands out the lowest clear bit of the first non-full bitmap from `current` on; that bit is now set in memory and on disk and nothing else changed; a failure means every bitmap from `current` on is full |
| BitmapRegion.ReserveInodeNotNull | src/main/java/org/atlantfs/InodeBitmapRegion.java:13-15 | an inode region never hands out inode 0, the "no inode" id |
| BitmapRegion.FirstInodeIsRoot | src/main/java/org/atlantfs/InodeBitmapRegion.java:13-15 | the first reservation on a blank inode region is inode 1, the root directory |
| BitmapRegion.ReserveThenFreeSpec | src/main/java/org/atlantfs/AbstractBitmapRegion.java:58-168 | freeing the id `reserve()` returned restores every bitmap, writes the restored bitmap and leaves `current` on it |
| BitmapRegion.ReservePreservesFullBelow | src/main/java/org/atlantfs/AbstractBitmapRegion.java:31-36 | `reserve()` keeps the meaning of `current`: every bitmap before it is full |
| BitmapRegion.FreePreservesFullBelow | src/main/java/org/atlantfs/AbstractBitmapRegion.java:151-168 | `free(id)` keeps every bitmap before `current` full, never raises `current`, leaves it inside the region after a change, and changes nothing when the bit was clear |
| BitmapRegion.MultiOutOfMemoryIff | src/main/java/org/atlantfs/AbstractBitmapRegion.java:108-142 | `reserveMultiple(b, size)` runs out of memory exactly when bitmaps b onwards hold fewer than `size` clear bits (or b is past the region) |
| BitmapRegion.MultiOutOfMemoryRestores | src/main/java/org/atlantfs/AbstractBitmapRegion.java:135-137 | a `reserveMultiple` that runs out of memory leaves every bitmap, in memory and on disk, as it found it |
| BitmapRegion.LastLevelRestores | src/main/java/org/atlantfs/AbstractBitmapRegion.java:123-125 | a level that fails as the last one leaves the bitmaps as they were |
| BitmapRegion.RestoreStep | src/main/java/org/atlantfs/AbstractBitmapRegion.java:135-137 | a level whose next level failed and restored the bitmaps also restores its own |
| BitmapRegion.AfterNextOutOfMemory | src/main/java/org/atlantfs/AbstractBitmapRegion.java:135-137 | a level passes on an out-of-memory answer, and only that one, after freeing its runs |
| BitmapRegion.LocalRangesMembers | src/main/java/org/atlantfs/AbstractBitmapRegion.java:182-186 | the ranges freed in bitmap b are exactly the list's ranges that start in it, as bit offsets |
| BitmapRegion.LocalIdsMembers | src/main/java/org/atlantfs/BitmapRegion.java:172-176 | the bits freed in bitmap b are exactly the offsets of the ids that lie in it |
| BitmapRegion.FreeRangesEffect | src/main/java/org/atlantfs/AbstractBitmapRegion.java:181-201 | what `free(ranges)` does to each bitmap: a visited bitmap has its local ranges cleared, and is written and pulls `current` back only when it has some; `current` never rises |
| BitmapRegion.FreeRangesClears | src/main/java/org/atlantfs/AbstractBitmapRegion.java:181-201 | after `free(ranges)` every bit of every range is clear |
| BitmapRegion.FreeIdsEffect | src/main/java/org/atlantfs/BitmapRegion.java:171-192 | what the older `free(ids)` does to each bitmap, in the same terms |
| BitmapRegion.FreeIdsClears | src/main/java/org/atlantfs/BitmapRegion.java:171-192 | after the older `free(ids)` the bit of every id is clear and `current` is at or below its bitmap |
| BlockMapping.Slots | src/main/java/org/atlantfs/AbstractBlockMapping.java:156-158 | the direct slots a mapping can fill: `numberOfDirectBlocks` in Java division, or none when that is negative |
| BlockMapping.DirectBlocksExamples | src/main/java/org/atlantfs/AbstractBlockMapping.java:156-162 | inodes of 32, 64 and 128 bytes have 1, 9 and 25 direct slots |
| BlockMapping.SlotsFit | src/main/java/org/atlantfs/AbstractBlockMapping.java:156-162 | the direct slots and the three indirect roots fit in the i-block |
| BlockMapping.LeavesOfSizes | src/main/java/org/atlantfs/AbstractBlockMapping.java:42-47 | the leaves of well-formed trees number the sum of their sizes |
| BlockMapping.MappedCount | src/main/java/org/atlantfs/AbstractBlockMapping.java:42-47 | in a well-shaped mapping the directs and the trees' leaves number `blocksCount`, which is within the capacity |
| BlockMapping.LevelLayout | src/main/java/org/atlantfs/AbstractBlockMapping.java:74-83 | tree i holds logical blocks directs + (sum of the full capacities of the trees before it) onward, and only the last tree may be partly filled |
| BlockMapping.LookupMapped | src/main/java/org/atlantfs/AbstractBlockMapping.java:67-85 | `get(n)` by walking the directs then each tree by its `maxSize` answers the n-th mapped block, or IndexOutOfBounds outside 0..blocksCount |
| BlockMapping.LookupLevels | src/main/java/org/atlantfs/AbstractBlockMapping.java:74-84 | the walk over the trees from level i answers the n-th mapped block when it exists |
| BlockMapping.GetAt | src/main/java/org/atlantfs/AbstractBlockMapping.java:77-80 | a block found in tree i is the mapped block at that logical number, or out of bounds past the count |
| BlockMapping.GetPast | src/main/java/org/atlantfs/AbstractBlockMapping.java:84 | a walk that passes every tree is past `blocksCount`, so the IndexOutOfBoundsException is right |
| BlockMapping.SeekSpot | src/main/java/org/atlantfs/AbstractBlockMapping.java:97-119 | the level loop of `add` stops at the first level that is missing or has room for the new logical block |
| BlockMapping.DirectSpot | src/main/java/org/atlantfs/AbstractBlockMapping.java:90-96 | below the direct count the mapping has no tree and the new block goes to the next direct slot |
| BlockMapping.IndirectStart | src/main/java/org/atlantfs/AbstractBlockMapping.java:97 | from the direct count on, every direct slot is filled |
| BlockMapping.LastLevelSpot | src/main/java/org/atlantfs/AbstractBlockMapping.java:109-117 | the level with room for the next block is the last tree, and the block goes at its end |
| BlockMapping.NewLevelSpot | src/main/java/org/atlantfs/AbstractBlockMapping.java:99-108 | a missing level is reached only with the previous tree full, and the block is its first leaf |
| BlockMapping.AddFull | src/main/java/org/atlantfs/AbstractBlockMapping.java:120 | an `add` that passes all three levels happens only at full capacity |
| BlockMapping.AddNewLevel | src/main/java/org/atlantfs/AbstractBlockMapping.java:99-108 | `IndirectBlock.init` at a new level either runs out of memory or yields a tree of that depth whose one leaf is the new block, and the shape is kept |
| BlockMapping.AddLastLevel | src/main/java/org/atlantfs/AbstractBlockMapping.java:109-117 | adding to the last tree either runs out of memory or appends the block to its leaves, keeping the shape |
| BlockMapping.PushDirect | src/main/java/org/atlantfs/AbstractBlockMapping.java:90-96 | a direct added below the direct count keeps the mapping well shaped |
| BlockMapping.PushLevel | src/main/java/org/atlantfs/AbstractBlockMapping.java:99-108 | a new one-leaf tree after full trees keeps the shape and appends its leaf |
| BlockMapping.GrowLast | src/main/java/org/atlantfs/AbstractBlockMapping.java:109-117 | growing the last tree by one leaf keeps the shape and appends that leaf |
| AbstractBlockMapping.Mapping.constructor | src/main/java/org/atlantfs/AbstractBlockMapping.java:21-23 | a new mapping is empty and well shaped |
| AbstractBlockMapping.Mapping.Read | src/main/java/org/atlantfs/AbstractBlockMapping.java:25-50 | `read` fails exactly when reading the i-block or a tree fails, with that error; otherwise the directs, trees and count are those the i-block and disk describe and nothing is dirty |
| AbstractBlockMapping.Mapping.ReadIds | src/main/java/org/atlantfs/AbstractBlockMapping.java:29-41 | the first loop of `read` takes the i-block's ids up to an id 0, the first ones filling the direct slots and the rest naming tree roots; a partial id underflows |
| AbstractBlockMapping.Mapping.ReadTrees | src/main/java/org/atlantfs/BlockMapping.java:42-46 | the second loop reads tree j at depth j and sums their sizes in `int` arithmetic, stopping at the first failure |
| AbstractBlockMapping.Mapping.Flush | src/main/java/org/atlantfs/AbstractBlockMapping.java:52-65 | `flush` writes the directs' and roots' ids then a terminator; on success the dirty blocks are handed over and cleared, otherwise nothing changes |
| AbstractBlockMapping.Mapping.WriteIblock | src/main/java/org/atlantfs/AbstractBlockMapping.java:57-62 | the ids written one after the other, then an id 0 when room remains, over the i-block |
| AbstractBlockMapping.Mapping.Size | src/main/java/org/atlantfs/AbstractBlockMapping.java:151-154 | `size()` is the number of mapped blocks times the block size |
| AbstractBlockMapping.Mapping.Delete | src/main/java/org/atlantfs/AbstractBlockMapping.java:123-130 | `delete()` frees the directs, then every tree's blocks; as a multiset they are the mapped blocks plus the pointer blocks |
| AbstractBlockMapping.Mapping.FreeLevels | src/main/java/org/atlantfs/BlockMapping.java:124-135 | the loop of `delete`: the directs, then each tree freed in turn |
| AbstractBlockMapping.Mapping.Get | src/main/java/org/atlantfs/AbstractBlockMapping.java:67-85 | `get(n)` is the n-th mapped block, or IndexOutOfBounds outside 0..blocksCount |
| AbstractBlockMapping.Mapping.Add | src/main/java/org/atlantfs/AbstractBlockMapping.java:87-121 | `add` appends the block to the mapped blocks and counts it, marking the block or the last tree dirty; it fails with IndexOutOfBounds exactly at full capacity, otherwise only for want of memory, and a failure changes nothing |
| AbstractBlockMapping.Mapping.AddDirect | src/main/java/org/atlantfs/AbstractBlockMapping.java:90-96 | a block below the direct count goes to a direct slot and is marked dirty |
| AbstractBlockMapping.Mapping.AddIndirect | src/main/java/org/atlantfs/AbstractBlockMapping.java:97-120 | from the direct count on, the block goes to the first tree with room or to a new tree; failure changes nothing |
| AbstractBlockMapping.Mapping.FindLevel | src/main/java/org/atlantfs/AbstractBlockMapping.java:97-118 | the level loop stops at the level the block belongs to, with the index within that level |
| AbstractBlockMapping.Mapping.AddLevel | src/main/java/org/atlantfs/AbstractBlockMapping.java:99-108 | a new tree holding the block is appended and marked dirty, or nothing changes for want of memory |
| AbstractBlockMapping.Mapping.AddToLevel | src/main/java/org/atlantfs/AbstractBlockMapping.java:109-117 | the block is added to the last tree, which is marked dirty, or nothing changes for want of memory |
| BlockMappingStore.IblockIdsAligned | src/main/java/org/atlantfs/AbstractBlockMapping.java:29-41 | on an i-block of whole ids, `read` takes the same ids as a pointer block's `read` |
| BlockMappingStore.FlushThenReadIds | src/main/java/org/atlantfs/AbstractBlockMapping.java:25-65 | `flush` of ids that fit succeeds, keeps the length, writes the ids then a terminator, keeps the bytes after it, and `read` takes the ids back |
| BlockMappingStore.FlushFullIds | src/main/java/org/atlantfs/AbstractBlockMapping.java:57-62 | ids that fill the i-block are written with no terminator and read back |
| BlockMappingStore.FlushTerminatedIds | src/main/java/org/atlantfs/AbstractBlockMapping.java:57-62 | ids that leave room are followed by an id 0 and read back |
| BlockMappingStore.ReadLevelsStored | src/main/java/org/atlantfs/AbstractBlockMapping.java:37-46 | reading the roots of stored well-formed trees, root k at depth k, gives the trees back |
| BlockMappingStore.ReadLevelsDepths | src/main/java/org/atlantfs/AbstractBlockMapping.java:37-46 | the trees read have the roots' ids and depth equal to their position |
| BlockMappingStore.ReadTableShape | src/main/java/org/atlantfs/AbstractBlockMapping.java:25-50 | a mapping `read` builds fills the direct slots before any tree and has at most three trees, tree i of depth i |
| BlockMappingStore.FlushThenReadMapping | src/main/java/org/atlantfs/AbstractBlockMapping.java:25-65 | a well-shaped mapping flushed then read back gives the same directs, trees and count |
| BlockMappingStore.ReadBack | src/main/java/org/atlantfs/AbstractBlockMapping.java:25-50 | an i-block holding the directs and roots and a disk holding the trees read as that mapping |
| BlockMappingStore.IdsFit | src/main/java/org/atlantfs/AbstractBlockMapping.java:156-162 | the directs and the roots always fit in the i-block |
| BlockMappingStore.EncodeIdsAppend | src/main/java/org/atlantfs/AbstractBlockMapping.java:57-58 | writing two lists of ids is writing their concatenation |
| IndirectBlock.IdsPerBlock | src/main/java/org/atlantfs/IndirectBlock.java:218-220 | a pointer block of any allowed block size holds at least one id and exactly fills with them |
| IndirectBlock.MaxSize | src/main/java/org/atlantfs/IndirectBlock.java:214-216 | `maxSize` is at least one and, like the `(int) Math.pow` cast, never above `Integer.MAX_VALUE` |
| IndirectBlock.IdsOf | src/main/java/org/atlantfs/IndirectBlock.java:236-238 | the ids of a node's children, position by position |
| IndirectBlock.FreedOfStep | src/main/java/org/atlantfs/IndirectBlock.java:176-180 | deleting the children one after the other frees what each child's `delete` frees, in order |
| IndirectBlock.MaxSizeStep | src/main/java/org/atlantfs/IndirectBlock.java:214-216 | one more level multiplies the capacity by at most the ids per block and never lowers it |
| IndirectBlock.RoomForChild | src/main/java/org/atlantfs/IndirectBlock.java:144-158 | a node with room below its `maxSize` whose children are full has room for one more pointer |
| IndirectBlock.Locate | src/main/java/org/atlantfs/IndirectBlock.java:118-125 | `get` divides the index by the child capacity to pick a child within range and takes the remainder inside it |
| IndirectBlock.NextSpot | src/main/java/org/atlantfs/IndirectBlock.java:139-152 | the unsigned division of `size` in `add` picks the last child when it has room and one past it when it is full |
| IndirectBlock.InitChain | src/main/java/org/atlantfs/IndirectBlock.java:40-63 | `init` rejects a negative depth, runs out of memory exactly when fewer than depth + 1 blocks are free, and otherwise roots the chain at the block reserved last |
| IndirectBlock.InitShape | src/main/java/org/atlantfs/IndirectBlock.java:40-63 | a chain built by `init` is well formed, has the requested depth, size 1, the leaf as its only leaf, and is dirty |
| IndirectBlock.InitBlocks | src/main/java/org/atlantfs/IndirectBlock.java:49-57 | the chain's pointer blocks are exactly the depth + 1 blocks reserved |
| IndirectBlock.ChildBound | src/main/java/org/atlantfs/IndirectBlock.java:137 | a well-formed node never holds more than `maxSize` leaves |
| IndirectBlock.LeavesCount | src/main/java/org/atlantfs/IndirectBlock.java:85-95 | a well-formed node's `size` counts its leaves |
| IndirectBlock.LeavesOfFull | src/main/java/org/atlantfs/IndirectBlock.java:90 | full children of capacity m hold count times m leaves, the `full` term of `readSize` |
| IndirectBlock.LeavesOfSplit | src/main/java/org/atlantfs/IndirectBlock.java:176-180 | the leaves of a child list are those of its prefix then those of its suffix |
| IndirectBlock.LeavesOfAt | src/main/java/org/atlantfs/IndirectBlock.java:119-125 | the leaf reached by child k and index r is the leaf at k times the capacity plus r |
| IndirectBlock.GetLeaf | src/main/java/org/atlantfs/IndirectBlock.java:113-133 | `get(i)` is the i-th leaf for 0 <= i < size and IndexOutOfBounds otherwise |
| IndirectBlock.AddAppends | src/main/java/org/atlantfs/IndirectBlock.java:135-165 | `add` fails with NotEnoughSpace exactly at `maxSize`, otherwise only for want of memory; on success it returns the old size as the index and appends the leaf |
| IndirectBlock.AddAtAppends | src/main/java/org/atlantfs/IndirectBlock.java:144-165 | the private `add(index, leaf)` at index `size` appends the leaf or runs out of memory |
| IndirectBlock.AddAtInner | src/main/java/org/atlantfs/IndirectBlock.java:145-158 | above depth 0 the leaf goes into the last child or into a new chain |
| IndirectBlock.AddInLast | src/main/java/org/atlantfs/IndirectBlock.java:148-153 | when the last child has room, the leaf is appended inside it and the child is marked dirty |
| IndirectBlock.DescendLast | src/main/java/org/atlantfs/IndirectBlock.java:147-153 | the unsigned division picks the last child, and the recursive call's result is put back in its place |
| IndirectBlock.LastAppended | src/main/java/org/atlantfs/IndirectBlock.java:150-153 | a leaf appended to the last child is appended to the node, which records that child as dirty |
| IndirectBlock.ReplaceLast | src/main/java/org/atlantfs/IndirectBlock.java:150-164 | replacing the last child by one with one more leaf keeps the node well formed and its leaves in order |
| IndirectBlock.AddNewChain | src/main/java/org/atlantfs/IndirectBlock.java:154-158 | when every child is full a new chain of depth - 1 holding the leaf is appended, or memory runs out |
| IndirectBlock.AddThenGet | src/main/java/org/atlantfs/IndirectBlock.java:113-165 | after `add`, `get(size)` is the new leaf and every earlier index reads as before |
| IndirectBlock.AddPointerAppends | src/main/java/org/atlantfs/IndirectBlock.java:183-196 | `addPointer` fails exactly when the block is full of pointers; otherwise it appends the pointer and the pointed leaves and adds their count to `size` |
| IndirectBlock.FreedAll | src/main/java/org/atlantfs/IndirectBlock.java:167-181 | `delete` frees every pointer block of the tree and every leaf, each once |
| IndirectBlock.FreedOfAll | src/main/java/org/atlantfs/IndirectBlock.java:176-180 | deleting a list of children frees their pointer blocks and their leaves |
| IndirectBlockStore.ReadPointers | src/main/java/org/atlantfs/IndirectBlock.java:71-80 | the loop of `read` takes ids until an id 0 or the end of the block |
| IndirectBlockStore.EncodeIds | src/main/java/org/atlantfs/IndirectBlock.java:104 | each pointer is written as one four-byte id |
| IndirectBlockStore.IdsFromEncode | src/main/java/org/atlantfs/IndirectBlock.java:74-80 | ids written before a terminated tail read back as the same ids |
| IndirectBlockStore.IdsFromCons | src/main/java/org/atlantfs/IndirectBlock.java:74-79 | reading stops at an id 0 and otherwise keeps the id and goes on |
| IndirectBlockStore.EncodeIdsFrom | src/main/java/org/atlantfs/IndirectBlock.java:71-80 | a block of whole ids holds the ids `read` takes, followed by an id 0 or the end |
| IndirectBlockStore.WriteThenRead | src/main/java/org/atlantfs/IndirectBlock.java:102-108 | writing more pointers than fit overflows the buffer; otherwise the block has the block size and reads back the same ids |
| IndirectBlockStore.ReadStored | src/main/java/org/atlantfs/IndirectBlock.java:65-95 | reading a stored well-formed tree from its root at its depth gives the tree back, clean |
| IndirectBlockStore.ReadInner | src/main/java/org/atlantfs/IndirectBlock.java:81-95 | above depth 0 the size read is (pointers - 1) times the child capacity plus the last child's size, in `int` arithmetic |
| IndirectBlockStore.CleanInner | src/main/java/org/atlantfs/IndirectBlock.java:85-95 | a well-formed inner node's size is what `readSize` computes from its children |
| IndirectBlockStore.ReadInnerStep | src/main/java/org/atlantfs/IndirectBlock.java:65-95 | reading an inner node is reading its ids, its children one level down and its size |
| IndirectBlockStore.ReadChildrenStored | src/main/java/org/atlantfs/IndirectBlock.java:202-204 | stored children read back, through `indirectReader`, as themselves |
| IndirectBlockStore.CleanOfLast | src/main/java/org/atlantfs/IndirectBlock.java:92-94 | reading keeps the number of children and the last child's size |
| IndirectBlockStore.FlushThenRead | src/main/java/org/atlantfs/IndirectBlock.java:97-111 | `flush` writes the block only when dirty, then the written block reads back as the node's pointers and the dirty blocks are handed over and cleared |
| FileBlockMapping.Splice | src/main/java/org/atlantfs/FileBlockMapping.java:97-98 | bytes written into a stretch of an image land at that stretch, and every other byte is unchanged |
| FileBlockMapping.BlockEnd | src/main/java/org/atlantfs/FileBlockMapping.java:88-90 | the block holding a position ends after it, at most one block later |
| FileBlockMapping.AppendZeroesLastByte | src/main/java/org/atlantfs/FileBlockMapping.java:50-55 | the zero-fill of the last block as written overwrites the last byte of a two-byte file when one byte is appended (see Findings) |
| FileBlockMapping.FillLastKeepsFile | src/main/java/org/atlantfs/FileBlockMapping.java:43-57 | the intended zero-fill of the last block changes only bytes between the end of the file and the write position, and sets them to zero |
| FileBlockMapping.BlockPosition | src/main/java/org/atlantfs/FileBlockMapping.java:88-89 | the block number and offset of a position add back up to it, with the offset inside a block |
| FileBlockMapping.Position | src/main/java/org/atlantfs/FileBlockMapping.java:88-89 | the same split as a function, used by the specifications |
| FileBlockMapping.PositionUnique | src/main/java/org/atlantfs/FileBlockMapping.java:88-89 | a position has exactly one block number and offset |
| FileBlockMapping.SameBlock | src/main/java/org/atlantfs/FileBlockMapping.java:42-45 | a position lies in one block only, so the two divisions of `write` agree |
| FileBlockMapping.BlockEndAt | src/main/java/org/atlantfs/FileBlockMapping.java:65-66 | the last block is filled up to the end of its block |
| FileBlockMapping.BlockEndOrder | src/main/java/org/atlantfs/FileBlockMapping.java:86-90 | positions up to the end of a block share that end, and later positions end later |
| FileBlockMapping.FlatLength | src/main/java/org/atlantfs/FileBlockMapping.java:7 | an image of n full blocks holds n times the block size bytes |
| FileBlockMapping.FlatUpdate | src/main/java/org/atlantfs/FileBlockMapping.java:95-98 | rewriting block k rewrites its stretch of the image and nothing else |
| FileBlockMapping.FlatSplit | src/main/java/org/atlantfs/FileBlockMapping.java:95-98 | the image around one block is the images before it, its bytes, and the images after it |
| FileBlockMapping.FlatConcat | src/main/java/org/atlantfs/FileBlockMapping.java:72-74 | appended blocks extend the image |
| FileBlockMapping.FlatPut | src/main/java/org/atlantfs/FileBlockMapping.java:97-98 | writing into block k at an offset writes into the image at the block's start plus that offset |
| FileBlockMapping.SpliceInside | src/main/java/org/atlantfs/FileBlockMapping.java:97-98 | writing into a stretch of the image is writing into the image |
| FileBlockMapping.FlatSameBytes | src/main/java/org/atlantfs/FileBlockMapping.java:46-55 | a zero-fill that rewrites a block with its own bytes leaves the image as it was |
| FileBlockMapping.FlatAppend | src/main/java/org/atlantfs/FileBlockMapping.java:92-93 | a block added at the end extends the image by its bytes |
| FileBlockMapping.SpliceZeros | src/main/java/org/atlantfs/FileBlockMapping.java:48-54 | zeros written over zeros change nothing |
| FileBlockMapping.WrittenPadded | src/main/java/org/atlantfs/FileBlockMapping.java:58-83 | the zero-filled blocks added before the write do not change what the write produces |
| FileBlockMapping.WrittenContents | src/main/java/org/atlantfs/FileBlockMapping.java:37-107 | after a write the buffer is at the write position, the file before it is unchanged, the bytes between the old end and the position are zero and the bytes after the buffer are unchanged |
| FileBlockMapping.ReadCountClosed | src/main/java/org/atlantfs/FileBlockMapping.java:110-124 | counting the bytes of `read` block by block gives the closed form: nothing at or past the size, otherwise `min(remaining, size − off)`, up to the end of the file or the room in the buffer |
| FileBlockMapping.WriteThenRead | src/main/java/org/atlantfs/FileBlockMapping.java:37-124 | after writing a buffer, reading at the same position with the same room gives the buffer back |
| FileBlockMapping.FileMapping.Init | src/main/java/org/atlantfs/FileBlockMapping.java:19-24 | `init(inode, data)`: one block holding the inline data, with the file's bytes written |
| FileBlockMapping.FileMapping.Add | src/main/java/org/atlantfs/FileBlockMapping.java:73 | a block is appended unless the mapping is full, which fails with IndexOutOfBounds and changes nothing (the reservation of the block is not modelled, see Left out) |
| FileBlockMapping.FileMapping.Read | src/main/java/org/atlantfs/FileBlockMapping.java:110-124 | `read` returns the image bytes from the position up to the end of the file or the room in the buffer (`ReadLength`, never past the size); it fails only when they run past the blocks |
| FileBlockMapping.FileMapping.Write | src/main/java/org/atlantfs/FileBlockMapping.java:37-107 | `write` writes the whole buffer at the position, zero-filling from the end of the file (corrected, see Findings), grows the image to the end of the block of the last byte and keeps the mapping valid for the new size; in this model it fails only at capacity (see Left out) |
| FileBlockMapping.FileMapping.FillGap | src/main/java/org/atlantfs/FileBlockMapping.java:38-83 | the part of `write` before the copy: the image only grows by zeros, up to the end of the block of the write position |
| FileBlockMapping.FileMapping.FillPast | src/main/java/org/atlantfs/FileBlockMapping.java:58-83 | a write past the last block fills it, appends empty blocks and a block for the position, growing the image by zeros; in this model it fails only at capacity (see Left out) |
| FileBlockMapping.FileMapping.AppendEmpty | src/main/java/org/atlantfs/FileBlockMapping.java:72-74 | empty blocks appended one by one grow the image by zeros, or stop at capacity (the only failure in this model, see Left out) |
| FileBlockMapping.FileMapping.FillLastBlock | src/main/java/org/atlantfs/FileBlockMapping.java:43-57 | the zero-fill of the last block keeps the image and leaves it with data unless the file and the offset are empty |
| FileBlockMapping.FileMapping.EndLastBlock | src/main/java/org/atlantfs/FileBlockMapping.java:61-71 | the zero-fill to the end of the last block keeps the image |
| FileBlockMapping.FileMapping.CopyIn | src/main/java/org/atlantfs/FileBlockMapping.java:84-104 | the copy loop writes the buffer from the position and grows the image to the end of the block of its last byte, or fails at capacity (the only failure in this model, see Left out) |
| FileBlockMapping.GapBlock | src/main/java/org/atlantfs/FileBlockMapping.java:75-80 | the block added at the write position is zeros with the bytes before `(int) position % blockSize` written |
| FileBlockMapping.CopyBlocks | src/main/java/org/atlantfs/FileBlockMapping.java:86-104 | the copy loop over the blocks equals its recursive specification |
| FileBlockMapping.CopyTurn | src/main/java/org/atlantfs/FileBlockMapping.java:87-103 | one turn of the copy either stops at capacity or copies at least one byte and leaves the rest of the copy to do |
| FileBlockMapping.Turn | src/main/java/org/atlantfs/FileBlockMapping.java:91-98 | one turn keeps every block full size and adds a block only past the last one |
| FileBlockMapping.CopyFromTurn | src/main/java/org/atlantfs/FileBlockMapping.java:87-103 | one turn of the copy, unfolded: fail at capacity past the last block, else put the piece and go on |
| FileBlockMapping.CopyFromWrites | src/main/java/org/atlantfs/FileBlockMapping.java:84-104 | the copy writes the buffer over the image from the position and grows it to the end of the block of the last byte, or fails at capacity |
| FileBlockMapping.CopyGrowWrites | src/main/java/org/atlantfs/FileBlockMapping.java:91-93 | a copy whose first piece goes into a new block keeps that promise |
| FileBlockMapping.CopyPutWrites | src/main/java/org/atlantfs/FileBlockMapping.java:94-98 | a copy whose first piece goes into an existing block keeps that promise |
| FileBlockMapping.CopyRestWrites | src/main/java/org/atlantfs/FileBlockMapping.java:99-104 | after the first piece, the rest of the copy completes the promise |
| FileBlockMapping.GrowTurn | src/main/java/org/atlantfs/FileBlockMapping.java:91-93 | the first turn into a new block writes the piece at the position |
| FileBlockMapping.PutTurn | src/main/java/org/atlantfs/FileBlockMapping.java:94-98 | the first turn into block k writes the piece at the position |
| FileBlockMapping.GrowFirst | src/main/java/org/atlantfs/FileBlockMapping.java:91-98 | a piece written into a new block lands in the image, which grows by a block |
| FileBlockMapping.PutFirst | src/main/java/org/atlantfs/FileBlockMapping.java:94-98 | a piece written into an existing block lands in the image, whose length is kept |
| FileBlockMapping.CopyCompose | src/main/java/org/atlantfs/FileBlockMapping.java:86-104 | a first turn followed by the rest of the copy is the whole copy |
| FileBlockMapping.ChunkLength | src/main/java/org/atlantfs/FileBlockMapping.java:88-93 | the first piece lands in an existing block or in the next block, which starts at the end of the image |
| FileBlockMapping.CopyFirstPut | src/main/java/org/atlantfs/FileBlockMapping.java:94-98 | the first piece inside an existing block is a write that does not grow the image |
| FileBlockMapping.CopyFirstGrow | src/main/java/org/atlantfs/FileBlockMapping.java:91-93 | the first piece into a new block is a write that grows the image by one block |
| FileBlockMapping.SpliceWritten | src/main/java/org/atlantfs/FileBlockMapping.java:97-98 | writing into the image without growing it is a splice |
| FileBlockMapping.CopyLengthCompose | src/main/java/org/atlantfs/FileBlockMapping.java:86-104 | two copies in a row grow the image as one copy of both |
| FileBlockMapping.WrittenCompose | src/main/java/org/atlantfs/FileBlockMapping.java:86-104 | two writes in a row, the second where the first ended, are one write of both |
| FileBlockMapping.ZeroAfter | src/main/java/org/atlantfs/FileBlockMapping.java:46-55 | the last block of a file whose tail is zero is zero past the end of the file |
| FileBlockMapping.LastOffset | src/main/java/org/atlantfs/FileBlockMapping.java:51 | the offset of the last byte of the file, plus one, is the size within its last block |
| FileBlockMapping.ReadPiece | src/main/java/org/atlantfs/FileBlockMapping.java:118-121 | the piece of a block that `read` copies is the matching stretch of the image |
| FileBlockMapping.ReadBlocks | src/main/java/org/atlantfs/FileBlockMapping.java:110-124 | the loop of `read` returns the image bytes from the position, `min(remaining, size − off)` of them, or IndexOutOfBounds past the blocks |
| FileBlockMapping.ReadTurn | src/main/java/org/atlantfs/FileBlockMapping.java:113-122 | one turn of `read` stops at the size, fails past the last block, or copies at least one more byte, up to the end of the block, of the file or of the room, that agrees with the image |
| FileBlockMapping.ReadStep | src/main/java/org/atlantfs/FileBlockMapping.java:114-121 | the piece copied by a turn extends what was read, in agreement with the image |
| FileBlockMapping.ReadLengthStep | src/main/java/org/atlantfs/FileBlockMapping.java:113-122 | one turn of `read` takes a block's piece up to the end of the block or of the file, or the room left, and the rest is counted from after it |
| FileBlockMapping.LengthsAfterWrite | src/main/java/org/atlantfs/FileBlockMapping.java:37-107 | after a write the new size lies within the last block of the new image |
| DirEntry.Aligned | src/main/java/org/atlantfs/DirEntry.java:303-311 | `aligned` is a multiple of 8 that holds the eight header bytes and the name, and less than 8 bytes more than that |
| DirEntry.AlignedLeast | src/main/java/org/atlantfs/DirEntry.java:303-311 | every aligned length that holds the header and the name is at least `aligned` |
| DirEntry.SplitLengths | src/main/java/org/atlantfs/DirEntry.java:190-205 | the slack left by a split of an aligned entry is aligned |
| DirEntry.AlignedExamples | src/test/java/org/atlantfs/DirEntryTest.java:104-119 | the values of the source's `aligned` test table |
| DirEntry.Entry.Rename | src/main/java/org/atlantfs/DirEntry.java:177-188 | `rename` refuses a name over 255 bytes; it answers false and changes nothing when the name's aligned size exceeds the length; otherwise it takes the name, marks the entry dirty and answers true |
| DirEntry.Entry.Split | src/main/java/org/atlantfs/DirEntry.java:190-205 | `split` refuses an empty entry and one that cannot be split; otherwise this entry shrinks to its aligned size and the new entry, with the given inode, type and name, covers the rest, right after it |
| DirEntry.Entry.GrowAfter | src/main/java/org/atlantfs/DirEntry.java:249-253 | `growAfter` adds the size to the `short` length, keeping the position, and fails its invariant check exactly when the result breaks it |
| DirEntry.Entry.GrowBefore | src/main/java/org/atlantfs/DirEntry.java:237-240 | `growBefore` moves the position back by the size and adds it to the length, and fails its check exactly when the result breaks it |
| DirEntry.Entry.Init | src/main/java/org/atlantfs/DirEntry.java:255-267 | `init` refuses a non-empty entry and a name whose aligned size exceeds the length; otherwise the entry takes the inode, type and name in place and is dirty |
| DirEntry.Entry.Delete | src/main/java/org/atlantfs/DirEntry.java:276-284 | `delete` empties the entry in place, keeping position and length, and leaves an empty entry untouched |
| DirEntry.Entry.Header | src/main/java/org/atlantfs/DirEntry.java:164-172 | the header `flush` writes is eight bytes plus the name |
| DirEntry.Entry.Flush | src/main/java/org/atlantfs/DirEntry.java:164-175 | `flush` writes the header and name at the position, leaves every other byte, and keeps the buffer's length |
| DirEntry.Entry.Flushed | src/main/java/org/atlantfs/DirEntry.java:174 | after `flush` the entry is clean and otherwise the same |
| DirEntry.Entry.Normal | src/main/java/org/atlantfs/DirEntry.java:133-162 | what `read` returns for a flushed entry keeps its place, length and inode, is clean, and has no name without an inode |
| DirEntry.SplitExamples | src/test/java/org/atlantfs/DirEntryTest.java:144-172 | the first row of the source's `split` table |
| DirEntry.SplitExamplesLongName | src/test/java/org/atlantfs/DirEntryTest.java:144-172 | the other rows of the `split` table |
| DirEntry.CanBeSplitExamples | src/test/java/org/atlantfs/DirEntryTest.java:185-232 | the source's `canBeSplit` and `rename` tables |
| DirEntry.Create | src/main/java/org/atlantfs/DirEntry.java:96-111 | the constructor checks the invariant on the new fields and yields exactly those fields |
| DirEntry.Empty | src/main/java/org/atlantfs/DirEntry.java:113-117 | `empty(length)` succeeds exactly for an aligned length that holds the header, giving an empty dirty entry at position 0 |
| DirEntry.GrowSucceeds | src/main/java/org/atlantfs/DirEntry.java:237-253 | growing a valid entry without overflow succeeds exactly for an aligned size; growing after keeps the start, growing before keeps the end |
| DirEntry.GrowExact | src/main/java/org/atlantfs/DirEntry.java:237-253 | a grow that passes its check did not wrap around the `short` length |
| DirEntry.Checked | src/main/java/org/atlantfs/DirEntry.java:295-301 | the invariant check passes exactly on a valid entry |
| DirEntry.NameLength | src/main/java/org/atlantfs/DirEntry.java:148 | the name length byte as `read` takes it: a signed Java `byte` as written, its unsigned value as intended |
| DirEntry.ReadAt | src/main/java/org/atlantfs/DirEntry.java:133-162 | `read` returns a valid clean entry placed at the index and inside the buffer, with the name bytes that follow the header; a too-small length is an IllegalArgument and a short buffer an underflow |
| DirEntry.HeaderParts | src/main/java/org/atlantfs/DirEntry.java:164-172 | the inode, length, name length, type and name sit at offsets 0, 4, 6, 7 and 8 of the header |
| DirEntry.HeaderAnywhere | src/main/java/org/atlantfs/DirEntry.java:164-172 | the header does not depend on the entry's position |
| DirEntry.HeaderFields | src/main/java/org/atlantfs/DirEntry.java:133-150 | `read` decodes from a flushed header the inode, length, name length and type that were written |
| DirEntry.ReadHeader | src/main/java/org/atlantfs/DirEntry.java:133-175 | `read` at an index holding a flushed header gives the entry back, placed there |
| DirEntry.ReadFlush | src/main/java/org/atlantfs/DirEntry.java:133-175 | `read` after `flush` gives the entry back, clean |
| DirEntry.ReadZeros | src/main/java/org/atlantfs/DirEntry.java:138-141 | a block of zeros holds no entry: its length field fails the minimum |
| DirEntry.SignedNameLengthLosesLongNames | src/main/java/org/atlantfs/DirEntry.java:148 | as written, an entry with a 128-byte name flushes but cannot be read back (negative array size); read unsigned it comes back (see Findings) |
| DirEntry.DirEntry.Of | src/main/java/org/atlantfs/DirEntry.java:96-103 | the object holds the entry it is made from |
| DirEntry.DirEntry.Read | src/main/java/org/atlantfs/DirEntry.java:133-162 | `read` as a method: a new object for the entry `ReadAt` finds, or its error |
| DirEntry.DirEntry.Flush | src/main/java/org/atlantfs/DirEntry.java:164-175 | `flush` returns the written buffer and leaves the object clean |
| DirEntry.DirEntry.Rename | src/main/java/org/atlantfs/DirEntry.java:177-188 | the object's fields and the answer are those of `Entry.Rename` |
| DirEntry.DirEntry.Split | src/main/java/org/atlantfs/DirEntry.java:190-205 | the object's fields and the new object are those of `Entry.Split` |
| DirEntry.DirEntry.GrowBefore | src/main/java/org/atlantfs/DirEntry.java:237-240 | the object's fields and the check are those of `Entry.GrowBefore` |
| DirEntry.DirEntry.GrowAfter | src/main/java/org/atlantfs/DirEntry.java:249-253 | the object's fields and the check are those of `Entry.GrowAfter` |
| DirEntry.DirEntry.Init | src/main/java/org/atlantfs/DirEntry.java:255-267 | the object's fields and the outcome are those of `Entry.Init` |
| DirEntry.DirEntry.Delete | src/main/java/org/atlantfs/DirEntry.java:276-284 | the object's fields become those of `Entry.Delete` |
| EntryList.SumConcat | src/main/java/org/atlantfs/DirEntryList.java:186 | the bytes covered by two runs of entries add up |
| EntryList.SumSameLengths | src/main/java/org/atlantfs/DirEntryList.java:186 | entries with the same lengths cover the same number of bytes |
| EntryList.Checked | src/main/java/org/atlantfs/DirEntryList.java:32-36 | the constructor's `checkInvariant` passes exactly on a valid list, which it returns unchanged |
| EntryList.ListedConcat | src/main/java/org/atlantfs/DirEntryList.java:79-81 | the records listed by two runs of entries are those of the first then those of the second |
| EntryList.New | src/main/java/org/atlantfs/DirEntryList.java:38-44 | `DirEntryList(length)`: one empty entry over the whole length, valid when the length is an aligned `short` that holds a header |
| EntryList.Iterate | src/main/java/org/atlantfs/DirEntryList.java:79-81 | `iterator` yields nothing for an empty list and every entry otherwise |
| EntryList.IterateListed | src/main/java/org/atlantfs/DirEntryList.java:79-81 | an empty list lists nothing, and iterating yields exactly the named entries plus perhaps empty ones |
| EntryList.FirstWhere | src/main/java/org/atlantfs/DirEntryList.java:154-156 | the lowest index satisfying a test, or none |
| EntryList.FindByName | src/main/java/org/atlantfs/DirEntryList.java:150-158 | `findByName` gives the first entry with the name and NoSuchFile when there is none or the list is empty; the older revision also skips entries without an inode (src/main/java/org/atlantfs/BlockDirEntity.java:117-125) |
| EntryList.Get | src/main/java/org/atlantfs/DirEntryList.java:98-101 | `get` gives an entry of the list with that name, or NoSuchFile exactly when `findByName` fails |
| EntryList.FirstFit | src/main/java/org/atlantfs/DirEntryList.java:160-165 | `findByAvailableSpace` picks the first entry whose slack holds the new name, or none |
| EntryList.Add | src/main/java/org/atlantfs/DirEntryList.java:83-96 | `add` keeps the list valid and its length, and lists one record more: the empty list's entry takes the name in place, otherwise the first entry with room is split and the new entry follows it; no room is DirEntryListOutOfMemory (IllegalState in src/main/java/org/atlantfs/BlockDirEntity.java:127-132) |
| EntryList.AddToEmpty | src/main/java/org/atlantfs/DirEntryList.java:86-88 | the lone empty entry takes the new name when it fits |
| EntryList.AddBySplit | src/main/java/org/atlantfs/DirEntryList.java:90-92 | the entry with room is split and the new entry is inserted right after it |
| EntryList.Insert | src/main/java/org/atlantfs/DirEntryList.java:91-92 | the split entry keeps its record and the new entry covers the rest of its bytes |
| EntryList.SumReplace | src/main/java/org/atlantfs/DirEntryList.java:186 | replacing a stretch of entries changes the bytes covered by the difference |
| EntryList.ValidReplace | src/main/java/org/atlantfs/DirEntryList.java:184-188 | replacing entries by valid entries keeps every entry valid |
| EntryList.NoGapsReplace | src/main/java/org/atlantfs/DirEntryList.java:190-202 | replacing entries by gapless entries over the same bytes leaves no gap |
| EntryList.SplitKeepsInvariant | src/main/java/org/atlantfs/DirEntryList.java:90-94 | a split into two adjacent entries over the same bytes keeps `checkInvariant` |
| EntryList.SplitListed | src/main/java/org/atlantfs/DirEntryList.java:90-92 | the split lists the new entry's record in addition |
| EntryList.MergeIntoPrevious | src/main/java/org/atlantfs/DirEntryList.java:138-140 | giving an entry's bytes to the previous entry keeps the invariant and lists every record but that entry's |
| EntryList.MergeIntoNext | src/main/java/org/atlantfs/DirEntryList.java:141-143 | giving the first entry's bytes to the next one, growing backwards, keeps the invariant and lists every record but the first |
| EntryList.DeleteAt | src/main/java/org/atlantfs/DirEntryList.java:129-148 | `delete(index)` marks a lone entry empty, otherwise merges it into its neighbour: the list is the old one with entry `index - 1` grown by the deleted entry's length (for index 0, entry 1 grown backwards to position 0), marked dirty, and every other entry unchanged; it stays valid and lists every record but that entry's |
| EntryList.Merged | src/main/java/org/atlantfs/DirEntryList.java:137-145 | the entries left by deleting entry `i` of two or more: the entry before it (entry 1 for the first, moved to entry 0's position) holds the `short` sum of the two lengths and is dirty, the rest are unchanged |
| EntryList.DeleteOnly | src/main/java/org/atlantfs/DirEntryList.java:132-136 | the lone entry is emptied in place |
| EntryList.GiveToPrevious | src/main/java/org/atlantfs/DirEntryList.java:138-145 | the entry's bytes go to the previous entry, whose length becomes the sum of the two and which is marked dirty; the entry leaves the list and every other entry is unchanged |
| EntryList.GiveToNext | src/main/java/org/atlantfs/DirEntryList.java:141-145 | the first entry's bytes go to the next entry, which starts at the first one's position, has the sum of the two lengths and is marked dirty; the first entry leaves the list and the rest are unchanged |
| EntryList.ListedRemove | src/main/java/org/atlantfs/DirEntryList.java:145 | taking an entry out of the list takes its record out of the listing |
| EntryList.ListedReplace | src/main/java/org/atlantfs/DirEntryList.java:139-143 | replacing an entry trades its record for the new one's |
| EntryList.SameExtent | src/main/java/org/atlantfs/DirEntryList.java:134 | changing an entry but not its place keeps the invariant |
| EntryList.Delete | src/main/java/org/atlantfs/DirEntryList.java:120-127 | `delete(name)` fails with NoSuchFile exactly when `findByName` does; otherwise it deletes the entry found |
| EntryList.Rename | src/main/java/org/atlantfs/DirEntryList.java:103-118 | `rename` as intended: NoSuchFile exactly when the name is missing; a failure leaves the list as it was; otherwise the entry is renamed in place or relocated |
| EntryList.RenameAt | src/main/java/org/atlantfs/DirEntryList.java:108-116 | a name over 255 bytes is an IllegalArgument; a name that fits the entry replaces its own; otherwise the entry is relocated, and success lists the record under its new name |
| EntryList.Relocate | src/main/java/org/atlantfs/DirEntryList.java:113-116 | the relocation deletes the entry and adds it again under the new name, and on failure the list is left as it was |
| EntryList.RenameAsWritten | src/main/java/org/atlantfs/DirEntryList.java:103-118 | `rename` as written: it agrees with `Rename` whenever it succeeds, but a failed relocation keeps the half-done list |
| EntryList.RenameAsWrittenLosesEntry | src/main/java/org/atlantfs/DirEntryList.java:113-115 | renaming the first of two 16-byte entries to a 9-byte name loses the entry: it is deleted and adding it back runs out of room (see Findings) |
| EntryList.Resize | src/main/java/org/atlantfs/DirEntryList.java:167-173 | `resize` refuses to shrink; otherwise the last entry grows by the `short` difference and the length is taken; the list stays valid exactly for an aligned difference below 0x8000 |
| EntryList.GrowLastBy | src/main/java/org/atlantfs/DirEntryList.java:171-172 | when the last entry keeps its invariant after growing, the list keeps its records, has no gap and covers the new length |
| EntryList.SumAligned | src/main/java/org/atlantfs/DirEntryList.java:186 | aligned entries cover an aligned number of bytes |
| EntryList.LastWithin | src/main/java/org/atlantfs/DirEntryList.java:171 | the last entry lies within the bytes the entries cover |
| EntryList.GrowLast | src/main/java/org/atlantfs/DirEntryList.java:59 | the last entry growing by d bytes covers d more bytes and lists the same records |
| EntryList.RecoverValid | src/main/java/org/atlantfs/DirEntryList.java:52-62 | the catch block of `read` fails only on an assertion; it keeps what was read and covers the rest of the buffer, and it succeeds when the length is an aligned `short` |
| EntryList.RecoverLast | src/main/java/org/atlantfs/DirEntryList.java:58-60 | when entries were read, the last one grows over the rest |
| EntryList.ReadFromValid | src/main/java/org/atlantfs/DirEntryList.java:46-69 | `read` from an index gives valid entries covering the buffer when its length is a `short`; its only failure is an assertion |
| EntryList.ReadList | src/main/java/org/atlantfs/DirEntryList.java:46-69 | `read` of a whole buffer gives a valid list of its length, or an assertion failure |
| EntryList.ReadZerosIsNew | src/main/java/org/atlantfs/DirEntryList.java:46-69 | a zeroed block reads as the new list of its size |
| EntryList.ValidSuffix | src/main/java/org/atlantfs/DirEntryList.java:184-188 | the entries after any index are valid and cover no negative number of bytes |
| EntryList.WriteEntries | src/main/java/org/atlantfs/DirEntryList.java:72-76 | `write` flushes each entry where the previous one ended and leaves the bytes before the start alone |
| EntryList.WriteList | src/main/java/org/atlantfs/DirEntryList.java:72-76 | `write` needs a buffer of exactly the list's length and keeps that length |
| EntryList.FlushedAll | src/main/java/org/atlantfs/DirEntryList.java:74 | after `write` every entry is clean |
| EntryList.Normalized | src/main/java/org/atlantfs/DirEntryList.java:46-69 | what `read` gives back for entries written one after another |
| EntryList.NormalizedInPlace | src/main/java/org/atlantfs/DirEntryList.java:186-187 | entries laid out without gaps already sit where `read` puts them |
| EntryList.WriteStep | src/main/java/org/atlantfs/DirEntryList.java:74 | `write` flushes the first entry and goes on where it ends |
| EntryList.WriteNext | src/main/java/org/atlantfs/DirEntryList.java:74 | what `write` puts from entry i on is what writing those entries alone puts |
| EntryList.WrittenHeader | src/main/java/org/atlantfs/DirEntryList.java:74 | the bytes `write` leaves at an entry's place start with its header |
| EntryList.ReadStepTo | src/main/java/org/atlantfs/DirEntryList.java:49-51 | an entry read at an index is followed by what `read` finds where it ends |
| EntryList.WrittenHeaders | src/main/java/org/atlantfs/DirEntryList.java:72-76 | `write` leaves every entry's header where the entry goes |
| EntryList.ReadHeaders | src/main/java/org/atlantfs/DirEntryList.java:46-69 | reading bytes that hold the entries' headers gives each entry back, clean, where its header is |
| EntryList.ReadFirstHeader | src/main/java/org/atlantfs/DirEntryList.java:49-51 | the first header reads back as its entry and the rest follow where it ends |
| EntryList.NoGapsCons | src/main/java/org/atlantfs/DirEntryList.java:190-202 | an entry followed by gapless entries starting where it ends has no gap |
| EntryList.NormalizedLayout | src/main/java/org/atlantfs/DirEntryList.java:46-69 | `read` lays out what it reads as written, without gaps |
| EntryList.ReadWriteList | src/main/java/org/atlantfs/DirEntryList.java:46-76 | `read` of what `write` put gives the same entries back, clean, with empty entries as `read` gives them |
| DirEntryList.DirEntryList.Of | src/main/java/org/atlantfs/DirEntryList.java:32-36 | the object holds the list it is made from |
| DirEntryList.DirEntryList.New | src/main/java/org/atlantfs/DirEntryList.java:38-44 | `DirEntryList(length)` as an object: exactly the list `EntryList.New` gives, or its error |
| DirEntryList.DirEntryList.Read | src/main/java/org/atlantfs/DirEntryList.java:46-69 | the read loop, with its catch block, builds exactly the list `EntryList.ReadList` gives, or its error |
| DirEntryList.DirEntryList.Write | src/main/java/org/atlantfs/DirEntryList.java:72-76 | `write` returns what `EntryList.WriteList` writes, keeps the length and leaves every entry clean |
| DirEntryList.DirEntryList.WriteEntry | src/main/java/org/atlantfs/DirEntryList.java:74 | one turn of `write`: entry i is flushed at the index and the index moves past it, on the way to the whole write |
| DirEntryList.DirEntryList.Iterator | src/main/java/org/atlantfs/DirEntryList.java:79-81 | `iterator` yields nothing for an empty list, otherwise every entry, and lists the list's records |
| DirEntryList.DirEntryList.IsEmpty | src/main/java/org/atlantfs/DirEntryList.java:180-182 | `isEmpty` is one entry without inode, and such a list lists nothing |
| DirEntryList.DirEntryList.IsDirty | src/main/java/org/atlantfs/DirEntryList.java:204-206 | `isDirty` answers whether some entry is dirty |
| DirEntryList.DirEntryList.FindByName | src/main/java/org/atlantfs/DirEntryList.java:150-158 | the index `EntryList.FindByName` gives, naming an entry with that name |
| DirEntryList.DirEntryList.Get | src/main/java/org/atlantfs/DirEntryList.java:98-101 | the entry `EntryList.Get` gives, one of the list's entries with that name |
| DirEntryList.DirEntryList.Add | src/main/java/org/atlantfs/DirEntryList.java:83-96 | the list and result of `EntryList.Add`, so one record more and a valid list on success |
| DirEntryList.DirEntryList.AddToEmpty | src/main/java/org/atlantfs/DirEntryList.java:86-88 | the lone entry is initialised in place, as `EntryList.AddToEmpty` |
| DirEntryList.DirEntryList.AddBySplit | src/main/java/org/atlantfs/DirEntryList.java:90-92 | the entry with room is split and the new entry inserted after it, as `EntryList.AddBySplit` |
| DirEntryList.DirEntryList.DeleteAt | src/main/java/org/atlantfs/DirEntryList.java:129-148 | the list and result of `EntryList.DeleteAt` (the merged layout, every other entry unchanged), valid afterwards |
| DirEntryList.DirEntryList.Delete | src/main/java/org/atlantfs/DirEntryList.java:120-127 | the list and result of `EntryList.Delete`, valid afterwards |
| DirEntryList.DirEntryList.Rename | src/main/java/org/atlantfs/DirEntryList.java:103-118 | the list and result of `EntryList.Rename`, the intended rename, valid afterwards (see Findings) |
| DirEntryList.DirEntryList.RenameAt | src/main/java/org/atlantfs/DirEntryList.java:108-116 | the rename of the entry found, as `EntryList.RenameAt` |
| DirEntryList.DirEntryList.Relocate | src/main/java/org/atlantfs/DirEntryList.java:113-116 | delete then add under the new name, the list put back when that fails, as `EntryList.Relocate` |
| DirEntryList.DirEntryList.Resize | src/main/java/org/atlantfs/DirEntryList.java:167-173 | the list and result of `EntryList.Resize`, valid for an allowed length |
| DirTreeNode.EncodeDx | src/main/java/org/atlantfs/DirTreeNode.java:64-67 | `DxEntry.write` puts eight bytes |
| DirTreeNode.ReadDx | src/main/java/org/atlantfs/DirTreeNode.java:58-62 | `DxEntry.read` fails with an underflow exactly when fewer than eight bytes remain |
| DirTreeNode.ReadEncodeDx | src/main/java/org/atlantfs/DirTreeNode.java:58-67 | an entry written anywhere in a buffer reads back unchanged |
| DirTreeNode.EncodeReadDx | src/main/java/org/atlantfs/DirTreeNode.java:58-67 | reading eight bytes and writing the entry back reproduces them |
| DirTreeNode.IsSorted | src/main/java/org/atlantfs/DirTreeNode.java:36-44 | `isSorted` as written fails on an empty node and otherwise answers whether no hash is below the FIRST hash |
| DirTreeNode.IsSortedFixed | src/main/java/org/atlantfs/DirTreeNode.java:36-44 | `isSorted` as intended answers whether the hashes never decrease |
| DirTreeNode.SortedExtend | src/main/java/org/atlantfs/DirTreeNode.java:38-42 | a sorted prefix stays sorted when the next hash is not below the last one |
| DirTreeNode.IsSortedTooWeak | src/main/java/org/atlantfs/DirTreeNode.java:36-44 | the check as written accepts every sorted node but also the unsorted `[1, 3, 2]` (see Findings) |
| DirTreeNode.CheckInvariant | src/main/java/org/atlantfs/DirTreeNode.java:30-34 | `checkInvariant` passes exactly on a non-empty node that the written `isSorted` accepts |
| DirTreeNode.FirstAbove | src/main/java/org/atlantfs/DirTreeNode.java:22-26 | the scan of `get` stops at an index from its start to the end |
| DirTreeNode.FirstAboveSpec | src/main/java/org/atlantfs/DirTreeNode.java:22-26 | every entry the scan skips has a hash at most h, and the one it stops at exceeds h |
| DirTreeNode.Get | src/main/java/org/atlantfs/DirTreeNode.java:16-28 | `get` fails on an empty node, is an IllegalState when the first hash exceeds h, and otherwise returns the block of the entry before the first hash above h, or of the last entry |
| DirTreeNode.SortedCoversLast | src/main/java/org/atlantfs/DirTreeNode.java:16-28 | on a sorted node the entry `get` lands on is the last one whose hash is at most h |
| DirTreeNode.UnsortedLookup | src/main/java/org/atlantfs/DirTreeNode.java:16-44 | on `[1, 3, 2]`, which the written check accepts, a lookup of 2 lands on the first entry although the last one matches |
| DirBlockMapping.AllListedReplace | src/main/java/org/atlantfs/DirBlockMapping.java:99-101 | replacing one block's list exchanges its records and keeps every other block's |
| DirBlockMapping.AllListedAppend | src/main/java/org/atlantfs/DirBlockMapping.java:73-76 | an appended block adds its records after all the others |
| DirBlockMapping.Refusal | src/main/java/org/atlantfs/DirBlockMapping.java:64-71 | `add` passes over a block exactly when the block has no room (an out-of-memory answer), and such a block is left as it was |
| DirBlockMapping.FirstWithRoom | src/main/java/org/atlantfs/DirBlockMapping.java:63-72 | the loop of `add` stops at the first block with room, every block before it having none |
| DirBlockMapping.NewList | src/main/java/org/atlantfs/DirBlockMapping.java:73 | a new block's list lists nothing and its length is a `short` |
| DirBlockMapping.NewBlock | src/main/java/org/atlantfs/DirBlockMapping.java:73-74 | the block appended when none has room is a valid list of the block size holding one entry with the inode, type and name, or the error of reserving it |
| DirBlockMapping.AddStepSpec | src/main/java/org/atlantfs/DirBlockMapping.java:60-78 | `add` puts the entry, with the inode, type and name, in the first block with room or in a new block; only that block changes and the directory lists exactly one record more |
| DirBlockMapping.SwapBlock | src/main/java/org/atlantfs/DirBlockMapping.java:99-101 | exchanging a block's list for one with other records exchanges them in the directory |
| DirBlockMapping.AddInBlock | src/main/java/org/atlantfs/DirBlockMapping.java:65-68 | an entry added to a block is listed once more, and the blocks stay valid |
| DirBlockMapping.AddNewBlock | src/main/java/org/atlantfs/DirBlockMapping.java:73-77 | a new block with its one entry lists that entry once more |
| DirBlockMapping.Locate | src/main/java/org/atlantfs/DirBlockMapping.java:83-91 | the name-based loops act on the first of the inode's blocks holding the name; none is NoSuchFile, and a count beyond the blocks is out of bounds |
| DirBlockMapping.RenameStepSpec | src/main/java/org/atlantfs/DirBlockMapping.java:94-108 | `rename` fails without change; on success only the first block holding the name changes and the directory lists the renamed record instead of the old one |
| DirBlockMapping.RenameInBlock | src/main/java/org/atlantfs/DirBlockMapping.java:99-101 | renaming in a block that holds the name cannot be NoSuchFile; a failure leaves it, a success swaps the record |
| DirBlockMapping.DeleteNameStepSpec | src/main/java/org/atlantfs/DirBlockMapping.java:110-124 | `delete(name)` changes nothing when the name is missing; on success only the first block holding the name changes and the directory lists one record fewer |
| DirBlockMapping.DeleteInBlock | src/main/java/org/atlantfs/DirBlockMapping.java:115-117 | deleting from a block that holds the name fails only on an assertion and otherwise drops that record |
| DirBlockMapping.IteratedAgree | src/main/java/org/atlantfs/DirBlockMapping.java:30-58 | the iterator as written and as intended agree when no later block is empty |
| DirBlockMapping.IteratedListsAll | src/main/java/org/atlantfs/DirBlockMapping.java:30-58 | the intended iteration over all blocks yields every record the directory lists, in order |
| DirBlockMapping.HasNextAgrees | src/main/java/org/atlantfs/DirBlockMapping.java:39-50 | the first `hasNext` answers whether the loop receives anything |
| DirBlockMapping.EmptiedShape | src/main/java/org/atlantfs/DirBlockMapping.java:30-58 | the example: three valid blocks, the first two emptied by deletes, the third listing one file |
| DirBlockMapping.IteratorSkipsBlocks | src/main/java/org/atlantfs/DirBlockMapping.java:39-50 | as written the iteration stops at the second, empty block and never reaches the file in the third (see Findings) |
| DirBlockMapping.DeleteLosesFile | src/main/java/org/atlantfs/DirBlockMapping.java:126-132 | as written `delete()` finds nothing in the example and deletes a directory that lists a file |
| DirBlockMapping.DirMapping.Of | src/main/java/org/atlantfs/DirBlockMapping.java:15-17 | a mapping over the given blocks, nothing flushed |
| DirBlockMapping.DirMapping.Init | src/main/java/org/atlantfs/DirBlockMapping.java:23-28 | `init`: the reserved block holds the list resized to the block size, the only block, keeping every record; the reservation's error otherwise |
| DirBlockMapping.DirMapping.Add | src/main/java/org/atlantfs/DirBlockMapping.java:60-78 | `add` as a method: the blocks and result of `AddStep`, the changed block flushed |
| DirBlockMapping.DirMapping.Store | src/main/java/org/atlantfs/DirBlockMapping.java:66-68 | the block takes its new list and is flushed when the operation succeeded |
| DirBlockMapping.DirMapping.Append | src/main/java/org/atlantfs/DirBlockMapping.java:73-77 | the new block is appended and flushed unless reserving failed or the mapping is full (the mapping's own reservations are not modelled, see Left out) |
| DirBlockMapping.DirMapping.TryBlocks | src/main/java/org/atlantfs/DirBlockMapping.java:63-72 | the loop stops at `FirstWithRoom` with that block's `add` |
| DirBlockMapping.DirMapping.Get | src/main/java/org/atlantfs/DirBlockMapping.java:80-92 | `get` gives the entry of the first block holding the name, or the search's error |
| DirBlockMapping.DirMapping.Rename | src/main/java/org/atlantfs/DirBlockMapping.java:94-108 | `rename` as a method: the blocks and result of `RenameStep`, the changed block flushed |
| DirBlockMapping.DirMapping.TryRename | src/main/java/org/atlantfs/DirBlockMapping.java:97-106 | the loop stops at the block `Locate` finds with that block's `rename` |
| DirBlockMapping.DirMapping.DeleteName | src/main/java/org/atlantfs/DirBlockMapping.java:110-124 | `delete(name)` as a method: the blocks and result of `DeleteNameStep`, the changed block flushed |
| DirBlockMapping.DirMapping.TryDelete | src/main/java/org/atlantfs/DirBlockMapping.java:113-122 | the loop stops at the block `Locate` finds with that block's `delete` |
| DirBlockMapping.DirMapping.Iterator | src/main/java/org/atlantfs/DirBlockMapping.java:30-58 | a for-each loop over `iterator()` as written |
| DirBlockMapping.DirMapping.IteratorFixed | src/main/java/org/atlantfs/DirBlockMapping.java:30-58 | the intended iteration, which over all blocks lists every record of the directory |
| DirBlockMapping.DirMapping.Delete | src/main/java/org/atlantfs/DirBlockMapping.java:126-132 | `delete()` as written: DirectoryNotEmpty when the first `hasNext` is true, otherwise the directory is deleted |
| DirBlockMapping.DirMapping.DeleteFixed | src/main/java/org/atlantfs/DirBlockMapping.java:126-132 | `delete()` as intended never deletes a directory that lists a record |
| Inode.Id.Minus | src/main/java/org/atlantfs/Inode.java:379-381 | `minus(int)` subtracts in `int` arithmetic: exact whenever the difference is an `int` |
| Inode.Id.MinusId | src/main/java/org/atlantfs/Inode.java:375-377 | `minus(Id)` is `minus` of the other id's value |
| Inode.RangeOf | src/main/java/org/atlantfs/Inode.java:393-397 | `Range.of` accepts exactly a non-negative start and a positive length, and keeps them |
| Inode.IBlockLength | src/main/java/org/atlantfs/Inode.java:333-335 | the i-block is the inode less the 16 header bytes |
| Inode.Encode | src/main/java/org/atlantfs/Inode.java:87-97 | `write` puts 16 header bytes and then the i-block |
| Inode.Write | src/main/java/org/atlantfs/Inode.java:87-97 | `write` succeeds exactly when the record fills the inode; a longer record overflows the buffer and a shorter one fails the closing assertion |
| Inode.Read | src/main/java/org/atlantfs/Inode.java:70-85 | `read` needs exactly an inode's bytes, rejects an unknown layout code at byte 12 and a layout without reader, and otherwise gives the fields and the i-block as bytes (the layout's reader is not applied, see Left out) |
| Inode.WriteFits | src/main/java/org/atlantfs/Inode.java:87-97 | a record fits exactly when its i-block has `iBlockLength` bytes |
| Inode.ReadWrite | src/main/java/org/atlantfs/Inode.java:70-97 | reading a written record gives it back, for every layout with a reader |
| Inode.EncodeFields | src/main/java/org/atlantfs/Inode.java:87-97 | size at bytes 0-7, blocks count at 8-11, layout code at 12, i-block from 16 |
| Inode.WriteRead | src/main/java/org/atlantfs/Inode.java:70-97 | writing a record that was read reproduces the bytes, the three padding bytes coming back as zeros |
| Inode.GrownSize | src/main/java/org/atlantfs/Inode.java:183 | `Math.max(size, position + initial + written)` never lowers the size and, without `long` overflow, covers the bytes written |
| Inode.Inode.CreateRegularFile | src/main/java/org/atlantfs/Inode.java:58-62 | `createRegularFile`: size 0, no blocks, inline data |
| Inode.Inode.CreateDirectory | src/main/java/org/atlantfs/Inode.java:64-68 | `createDirectory`: size 0, no blocks, an inline entry list |
| Inode.Inode.EnsureDirectory | src/main/java/org/atlantfs/Inode.java:319-323 | `ensureDirectory` passes exactly on a directory and is an IllegalState on a regular file |
| Inode.Inode.EnsureRegularFile | src/main/java/org/atlantfs/Inode.java:313-317 | `ensureRegularFile` passes exactly on a regular file and is an IllegalState on a directory |
| Inode.Inode.Flush | src/main/java/org/atlantfs/Inode.java:268-270 | `flush` stores the whole current record and changes no field |
| Inode.Inode.ReserveBlock | src/main/java/org/atlantfs/Inode.java:239-243 | `reserveBlock` returns the allocator's answer and counts one block more only when it succeeded |
| Inode.Inode.ReserveBlocks | src/main/java/org/atlantfs/Inode.java:245-256 | `reserveBlocks(n)` counts one block more whatever n is, as documented there |
| Inode.Inode.UpgradeInlineData | src/main/java/org/atlantfs/Inode.java:226-237 | the upgrade's assertions accept only inline data with a non-negative size and no blocks; a successful upgrade switches to a block mapping and marks the inode dirty |
| Inode.Inode.UpgradeInlineDirList | src/main/java/org/atlantfs/Inode.java:209-224 | only an inline list without blocks upgrades; afterwards the layout is a block mapping, the size `blocksCount * blockSize` and the inode dirty |
| Inode.Inode.Write | src/main/java/org/atlantfs/Inode.java:177-195 | `write` on a non-file is an IllegalState; otherwise the i-block's answer, and on DataOutOfMemory one upgrade and a retry; the size grows by `GrownSize` and the record is stored on success |
| Inode.Inode.Read | src/main/java/org/atlantfs/Inode.java:197-207 | `read` on a directory is an IllegalState, otherwise the i-block's answer |
| Inode.Inode.Get | src/main/java/org/atlantfs/Inode.java:126-134 | `get(name)` on a regular file is an IllegalState, otherwise the i-block's answer |
| Inode.Inode.UpdateDirectory | src/main/java/org/atlantfs/Inode.java:109-149 | `add` and `rename` on a non-directory are an IllegalState; otherwise the i-block's answer, and when the inline list is out of memory one upgrade and a retry; success stores the record |
| Inode.Inode.DeleteName | src/main/java/org/atlantfs/Inode.java:151-160 | `delete(name)` on a non-directory is an IllegalState; otherwise the i-block's answer, stored on success |
| Inode.GuardsExclusive | src/main/java/org/atlantfs/Inode.java:305-323 | every layout is a directory or a regular file and never both, so exactly one of the guards passes |
| InodeTableRegion.RecordAddress | src/main/java/org/atlantfs/InodeTableRegion.java:71-77 | `calcBlock` and `calcPosition` address byte `(id - 1) * inodeSize` of the table, the position lying inside the block, while nothing overflows |
| InodeTableRegion.Offset | src/main/java/org/atlantfs/InodeTableRegion.java:72-76 | the byte offset of a record equals its `int` computation when that does not overflow |
| InodeTableRegion.CalcExamples | src/test/java/org/atlantfs/InodeTableRegionTest.java:74-116 | rows of the source's `calcBlock` and `calcPosition` tables |
| InodeTableRegion.NullAddress | src/main/java/org/atlantfs/InodeTableRegion.java:61-77 | id 0 passes the limit check and addresses the first block at a negative position, Java's remainder keeping the sign |
| InodeTableRegion.MaxInodeCount | src/main/java/org/atlantfs/InodeTableRegion.java:67-69 | `maxInodeCount` is blocks times records per block whenever that fits an `int` |
| InodeTableRegion.RecordInTable | src/main/java/org/atlantfs/InodeTableRegion.java:61-77 | when records divide blocks evenly, every id from 1 up to the limit has its whole record inside one of the table's blocks |
| InodeTableRegion.RecordsPerBlock | src/main/java/org/atlantfs/InodeTableRegion.java:67-69 | with q whole records per block the limit is blocks times q, without overflow |
| InodeTableRegion.Decompose | src/main/java/org/atlantfs/InodeTableRegion.java:72-76 | record k lies in block k / q of the n blocks at row (k % q) times the record size |
| InodeTableRegion.AddressOf | src/main/java/org/atlantfs/InodeTableRegion.java:71-77 | the address functions on a record a blocks and row bytes into the table give block first + a and position row |
| InodeTableRegion.Region.CheckInodeIdLimit | src/main/java/org/atlantfs/InodeTableRegion.java:61-65 | `checkInodeIdLimit` rejects exactly the ids above `maxInodeCount`, as out of bounds |
| InodeTableRegion.Region.Read | src/main/java/org/atlantfs/InodeTableRegion.java:28-31 | `read`: a region around the root read from disk, with an empty cache |
| InodeTableRegion.Region.Empty | src/main/java/org/atlantfs/InodeTableRegion.java:11-13 | the region before its root exists |
| InodeTableRegion.Region.Get | src/main/java/org/atlantfs/InodeTableRegion.java:33-36 | `get` rejects ids above the limit; a cached inode is returned without reading; otherwise the inode is read and cached |
| InodeTableRegion.Region.CreateInode | src/main/java/org/atlantfs/InodeTableRegion.java:46-53 | `createInode` passes on the bitmap's failure, rejects an id above the limit, and otherwise writes and caches a new inode with the reserved id |
| InodeTableRegion.Region.CreateFile | src/main/java/org/atlantfs/InodeTableRegion.java:38-40 | `createFile` succeeds exactly for a reserved id within the limit and caches a new regular file with that id |
| InodeTableRegion.Region.CreateDirectory | src/main/java/org/atlantfs/InodeTableRegion.java:42-44 | `createDirectory` succeeds exactly for a reserved id within the limit and caches a new directory with that id |
| InodeTableRegion.Region.Delete | src/main/java/org/atlantfs/InodeTableRegion.java:55-59 | `delete` rejects ids above the limit; otherwise the id is freed and leaves the cache |
| InodeTableRegion.New | src/main/java/org/atlantfs/InodeTableRegion.java:15-26 | the constructor without a root succeeds exactly when the first reservation is ROOT and within the limit, the root being a new directory |
| SuperBlock.Encode | src/main/java/org/atlantfs/SuperBlock.java:55-63 | `flush` writes exactly LENGTH bytes |
| SuperBlock.Read | src/main/java/org/atlantfs/SuperBlock.java:34-48 | `read` rejects a wrong magic first, skips the reserved short, needs the buffer to end after the five fields, and reads them at their offsets |
| SuperBlock.ReadEncode | src/main/java/org/atlantfs/SuperBlock.java:34-63 | reading what `flush` wrote gives the same geometry |
| SuperBlock.EncodeRead | src/main/java/org/atlantfs/SuperBlock.java:34-63 | flushing what was read gives the bytes back, with the reserved short as zero |
| SuperBlock.LayoutContiguous | src/main/java/org/atlantfs/SuperBlock.java:103-117 | the block bitmaps start at block 1, and each region starts where the previous one ends |
| SuperBlock.SuperBlock.Init | src/main/java/org/atlantfs/SuperBlock.java:23-32 | `init`: the configured geometry, dirty |
| SuperBlock.SuperBlock.FromBytes | src/main/java/org/atlantfs/SuperBlock.java:34-48 | a superblock read from block 0 holds the geometry read and is clean |
| SuperBlock.SuperBlock.Flush | src/main/java/org/atlantfs/SuperBlock.java:50-66 | `flush` writes block 0 only when dirty, with the encoding of the geometry, and leaves the superblock clean |
| PathNames.StartsExact | src/main/java/org/atlantfs/AtlantPath.java:315-343 | the starts the scan finds in a range are exactly the name starts there (a non-'/' byte at the front or after a '/'), each once, increasing |
| PathNames.OffsetsExact | src/main/java/org/atlantfs/AtlantPath.java:315-343 | `offsets` holds exactly the name starts of the path, in increasing order |
| PathNames.NameBounds | src/main/java/org/atlantfs/AtlantPath.java:112-118 | a name found by `getName`'s length computation is non-empty, inside the path and ends before the next name starts |
| PathNames.Name | src/main/java/org/atlantfs/AtlantPath.java:107-122 | a name is never empty and never starts with '/' |
| PathNames.GetName | src/main/java/org/atlantfs/AtlantPath.java:107-122 | `getName` throws IllegalArgumentException exactly for an index outside 0 to the count minus one |
| PathNames.Subpath | src/main/java/org/atlantfs/AtlantPath.java:124-140 | `subpath` throws IllegalArgumentException exactly unless 0 <= begin < end <= count |
| PathNames.Window | src/main/java/org/atlantfs/AtlantPath.java:130-139 | the bytes from the start of name b to the end of name e - 1 hold exactly names b to e - 1 |
| PathNames.SubpathNames | src/main/java/org/atlantfs/AtlantPath.java:107-140 | `subpath(b, e)` has e - b names, its name k being name b + k of the path, and `subpath(b, b + 1)` is `getName(b)` |
| PathNames.GetRoot | src/main/java/org/atlantfs/AtlantPath.java:59-65 | `getRoot` gives "/" exactly for an absolute path, none otherwise |
| PathNames.ParentNames | src/main/java/org/atlantfs/AtlantPath.java:84-98 | `getParent` gives none exactly for a path without names or with a single relative name at its start; otherwise the parent holds the path's names but the last, in order |
| PathNames.FileNameIsLast | src/main/java/org/atlantfs/AtlantPath.java:67-82 | `getFileName` gives none exactly for a path without names; otherwise a path with one name, the last of the path |
| PathNames.InitOffsets | src/main/java/org/atlantfs/AtlantPath.java:315-343 | the two passes of `initOffsets` compute exactly the name starts |
| PathNormalize.ScanFacts | src/main/java/org/atlantfs/AtlantPath.java:359-378 | the first scan keeps a path exactly when it has no '\\', no "//" and no NUL; it refuses only paths holding NUL; it rewrites from a '\\' or from the first '/' of a "//", everything before being clean |
| PathNormalize.CollapseFacts | src/main/java/org/atlantfs/AtlantPath.java:389-401 | the copy loop never writes '\\' or "//", never writes '/' first after a '/', keeps NUL bytes and never grows |
| PathNormalize.CollapseShrinks | src/main/java/org/atlantfs/AtlantPath.java:389-401 | a leading "//" is written once at most, so the copy is shorter |
| PathNormalize.RewriteClean | src/main/java/org/atlantfs/AtlantPath.java:380-406 | the rewrite seeded with the byte before its start gives a clean path without a trailing '/' |
| PathNormalize.RewriteSpec | src/main/java/org/atlantfs/AtlantPath.java:366-371 | the rewrite case always changes the path, refuses exactly the paths holding NUL, and otherwise yields a clean path without a trailing '/' |
| PathNormalize.RewriteChanges | src/main/java/org/atlantfs/AtlantPath.java:380-406 | from whatever previous byte, a rewrite never returns the path it was given |
| PathNormalize.NormalizedSpec | src/main/java/org/atlantfs/AtlantPath.java:28-35 | the normalising constructor keeps a path exactly when it is clean, throws InvalidPathException exactly for a path holding NUL, and otherwise stores a clean path, without trailing '/' when rewritten |
| PathNormalize.NormalizedIdempotent | src/main/java/org/atlantfs/AtlantPath.java:359-406 | normalising a stored path again changes nothing |
| PathNormalize.RewriteKeepsDoubleSlash | src/main/java/org/atlantfs/AtlantPath.java:387-392 | as written, the rewrite starts with previous byte 0, so "a/\\b" is stored as "a//b", which is not clean and would be normalised again to "a/b"; the corrected rewrite gives "a/b" |
| PathNormalize.Normalize | src/main/java/org/atlantfs/AtlantPath.java:359-378 | the scan loop returns the corrected normalised path or the InvalidPathException |
| PathNormalize.NormalizeFrom | src/main/java/org/atlantfs/AtlantPath.java:380-406 | `normalize(byte[], int)` on an array returns the rewrite from `index` with previous byte k: the front unchanged, the rest collapsed, one trailing '/' dropped, or InvalidPathException on NUL |
| PathNormalize.CopyFront | src/main/java/org/atlantfs/AtlantPath.java:381-386 | the first loop copies the bytes before `index` unchanged |
| PathNormalize.TrimSlash | src/main/java/org/atlantfs/AtlantPath.java:402-405 | one trailing '/' is dropped when more than one byte was written, then the first j bytes are returned |
| PathResolve.FoldKeepsNoDots | src/main/java/org/atlantfs/AtlantPath.java:428-459 | resolution keeps no "." and no "..", except leading ".." of a relative path; an absolute path keeps none |
| PathResolve.FoldKeepsPlainNames | src/main/java/org/atlantfs/AtlantPath.java:452-458 | names that are neither "." nor ".." are all kept, in order |
| PathResolve.DotDotCancels | src/main/java/org/atlantfs/AtlantPath.java:436-440 | ".." right after a kept name cancels it |
| PathResolve.FoldNamesFromPath | src/main/java/org/atlantfs/AtlantPath.java:428-459 | every kept name is one of the path's names |
| PathResolve.JoinedStart | src/main/java/org/atlantfs/AtlantPath.java:432-433 | written out after the start, the output begins with '/' exactly for an absolute path |
| PathResolve.ResolvedKeepsAbsolute | src/main/java/org/atlantfs/AtlantPath.java:408-463 | `getResolved` keeps a path absolute or relative |
| PathResolve.DotStartsName | src/main/java/org/atlantfs/AtlantPath.java:408-418 | a path holding a '.' has a name, so `doGetResolved` walks at least one |
| PathResolve.ViewPush | src/main/java/org/atlantfs/AtlantPath.java:452-458 | writing a kept name: the output gets a separator when needed, then the name, and the name's start is pushed on `lastM` |
| PathResolve.ViewPop | src/main/java/org/atlantfs/AtlantPath.java:437-439 | a cancelling ".." cuts the output back to the top of `lastM` and pops it |
| PathResolve.ViewUp | src/main/java/org/atlantfs/AtlantPath.java:444-449 | an uncancelled ".." in a relative path is written like a name, without a mark |
| PathResolve.DotAgrees | src/main/java/org/atlantfs/AtlantPath.java:431-443 | "." (and an uncancelled ".." in an absolute path) writes at most the leading '/' and keeps what resolution keeps |
| PathResolve.PopAgrees | src/main/java/org/atlantfs/AtlantPath.java:436-440 | the retreat of `lastM` follows the cancelling of the last kept name |
| PathResolve.UpAgrees | src/main/java/org/atlantfs/AtlantPath.java:444-449 | writing ".." out follows keeping a leading ".." |
| PathResolve.PushAgrees | src/main/java/org/atlantfs/AtlantPath.java:452-458 | writing a name and pushing its mark follows keeping it |
| PathResolve.WalkMeaning | src/main/java/org/atlantfs/AtlantPath.java:428-459 | after any names, the loop's output and `lastM` stack are the kept names written out and where each begins |
| PathResolve.WalkResolves | src/main/java/org/atlantfs/AtlantPath.java:428-462 | after all names, dropping one trailing '/' gives the kept names written out |
| PathResolve.RoomBefore | src/main/java/org/atlantfs/AtlantPath.java:424-458 | the output never catches up with the input: before name i it leaves room for the separator, after it it ends no later than the name does in the path |
| PathResolve.NameAt | src/main/java/org/atlantfs/AtlantPath.java:429-430 | `n` and `len` of the loop are where name i lies in the path |
| PathResolve.DotNames | src/main/java/org/atlantfs/AtlantPath.java:431-436 | the byte tests recognise exactly the names "." and ".." |
| PathResolve.Copy | src/main/java/org/atlantfs/AtlantPath.java:447-448 | `while (len-- > 0) to[m++] = path[n++]` appends the name's bytes to the output |
| PathResolve.Separate | src/main/java/org/atlantfs/AtlantPath.java:452-455 | a '/' is written first for an absolute path, and after a name not ending in '/' |
| PathResolve.StepBytes | src/main/java/org/atlantfs/AtlantPath.java:429-458 | one turn of the loop on the arrays performs one step of the walk |
| PathResolve.WalkName | src/main/java/org/atlantfs/AtlantPath.java:428-459 | one turn keeps the arrays equal to the walk over one more name |
| PathResolve.DoGetResolved | src/main/java/org/atlantfs/AtlantPath.java:420-463 | `doGetResolved` returns the kept names written out, "/" first for an absolute path, with no trailing '/' beyond a lone "/" |
| PathResolve.GetResolved | src/main/java/org/atlantfs/AtlantPath.java:408-418 | `getResolved` returns an empty path and a path without '.' as they are, and resolves the others |
| PathOps.OffsetsJoin | src/main/java/org/atlantfs/AtlantPath.java:204-213 | joining two paths with one '/' gives the name starts of the first, then those of the second moved past the separator |
| PathOps.NamesJoin | src/main/java/org/atlantfs/AtlantPath.java:204-213 | joining a path and a path that starts with a name, with one '/', joins their names |
| PathOps.RootHasNoName | src/main/java/org/atlantfs/AtlantPath.java:315-343 | "/" has no name |
| PathOps.ToAbsolute | src/main/java/org/atlantfs/AtlantPath.java:264-273 | `toAbsolutePath` returns an absolute path as it is, and puts '/' in front of a relative one, the rest unchanged |
| PathOps.ToAbsoluteNames | src/main/java/org/atlantfs/AtlantPath.java:264-273 | making a path absolute keeps its names, and doing it twice is doing it once |
| PathOps.Resolve | src/main/java/org/atlantfs/AtlantPath.java:196-215 | `resolve` returns an absolute other as it is; otherwise this path, a '/' unless it already ends with one, then the other, absolute as this path is; an empty path fails on its last byte with an index out of bounds |
| PathOps.ResolveJoinsNames | src/main/java/org/atlantfs/AtlantPath.java:196-215 | resolving a relative path gives this path's names followed by the other's |
| PathOps.TrimmedNames | src/main/java/org/atlantfs/AtlantPath.java:196-215 | a path without trailing '/' keeps its names when the '/' is trimmed |
| PathOps.ParentResolvesFileName | src/main/java/org/atlantfs/AtlantPath.java:67-98 | for a stored path with a parent, resolving the file name against the parent gives the path back |
| PathOps.CompareZero | src/main/java/org/atlantfs/AtlantPath.java:287-303 | `compareTo` is zero exactly for equal byte strings |
| PathOps.CompareSwap | src/main/java/org/atlantfs/AtlantPath.java:287-303 | swapping the paths negates `compareTo` |
| PathOps.CompareTransitive | src/main/java/org/atlantfs/AtlantPath.java:287-303 | the order of `compareTo` is transitive |
| PathOps.CompareTo | src/main/java/org/atlantfs/AtlantPath.java:287-303 | the loop over the common length, comparing bytes as unsigned, then the lengths, computes the lexicographic comparison |
| PathOps.Equals | src/main/java/org/atlantfs/AtlantPath.java:42-47 | `equals` holds exactly for a path of the same file system with the same bytes |
| PathObject.ResolvedPathAbsolute | src/main/java/org/atlantfs/AtlantPath.java:351-357 | the resolved path is absolute, and an absolute path is resolved as it is |
| PathObject.Path.constructor | src/main/java/org/atlantfs/AtlantPath.java:23-26 | the non-normalising constructor keeps file system and bytes, with nothing computed yet |
| PathObject.Path.InitOffsets | src/main/java/org/atlantfs/AtlantPath.java:315-349 | `initOffsets` leaves the offsets field holding the name starts of the path, and nothing else changes |
| PathObject.Path.GetNameCount | src/main/java/org/atlantfs/AtlantPath.java:100-104 | `getNameCount` is the number of names, and the offsets are kept |
| PathObject.Path.GetResolvedPath | src/main/java/org/atlantfs/AtlantPath.java:351-357 | `getResolvedPath` returns the resolved absolute form and keeps it in the field |
| PathObject.Path.Equals | src/main/java/org/atlantfs/AtlantPath.java:42-47 | `equals` on path objects: same file system and same bytes |
| PathPrefix.PathStartsWith | src/main/java/org/atlantfs/AtlantPath.java:142-158 | `startsWith` holds only when both are absolute or both relative and the other's bytes lead this path's; an empty other inside a non-empty relative path fails with an index out of bounds, and exactly then |
| PathPrefix.StartsWith | src/main/java/org/atlantfs/AtlantPath.java:142-158 | the byte loop computes `startsWith` |
| PathPrefix.StartsWithSelf | src/main/java/org/atlantfs/AtlantPath.java:142-158 | a path starts with itself |
| PathPrefix.StartsWithNames | src/main/java/org/atlantfs/AtlantPath.java:142-158 | for stored paths without trailing '/', a path that starts with another holds the other's names first |
| PathPrefix.NamesStartWith | src/main/java/org/atlantfs/AtlantPath.java:142-158 | conversely, a stored path starts with any non-empty stored path, absolute as it is, whose names lead its own |
| PathPrefix.SameNamesSamePath | src/main/java/org/atlantfs/AtlantPath.java:28-35 | two stored paths without trailing '/', absolute alike and with the same names, are the same bytes |
| PathPrefix.Rebuilt | src/main/java/org/atlantfs/AtlantPath.java:28-35 | a stored path without trailing '/' is its names written out after its start |
| PathPrefix.ParentShape | src/main/java/org/atlantfs/AtlantPath.java:84-98 | the parent of a stored path is itself stored-form, without trailing '/', absolute as the path is, and shorter |
| PathPrefix.ParentThenLast | src/main/java/org/atlantfs/AtlantPath.java:67-98 | a stored path is its parent, a separator when needed, then its last name |
| PathPrefix.NoNameShape | src/main/java/org/atlantfs/AtlantPath.java:315-343 | a stored path without names is empty or "/" |
| PathPrefix.EndIndex | src/main/java/org/atlantfs/AtlantPath.java:164-171 | one trailing '/' is dropped unless the path is that byte |
| PathPrefix.PathEndsWith | src/main/java/org/atlantfs/AtlantPath.java:160-185 | when `endsWith` holds for a non-empty other, the other's bytes (trailing '/' dropped) end this path's |
| PathPrefix.EndsWith | src/main/java/org/atlantfs/AtlantPath.java:160-185 | the backward loop computes `endsWith` |
| PathPrefix.EndsWithSelf | src/main/java/org/atlantfs/AtlantPath.java:160-185 | a path ends with itself |
| PathPrefix.EndsWithFileName | src/main/java/org/atlantfs/AtlantPath.java:67-82 | a path ends with its file name |
| PathRelativize.CommonSpec | src/main/java/org/atlantfs/AtlantPath.java:227-234 | the count of shared names: all names before it are equal in both paths, and the next, when both have one, differs |
| PathRelativize.UpsOut | src/main/java/org/atlantfs/AtlantPath.java:243-250 | the leading part is n times "..", each followed by '/' while more of the result follows |
| PathRelativize.Relative | src/main/java/org/atlantfs/AtlantPath.java:217-256 | a result of `relativize` for different paths is non-empty and relative; equal paths give the empty path; an absolute and a relative path give IllegalArgumentException; paths with the same names but different bytes give a negative array size |
| PathRelativize.DotsNames | src/main/java/org/atlantfs/AtlantPath.java:243-250 | n times ".." joined by '/' has n names ".." |
| PathRelativize.RestNames | src/main/java/org/atlantfs/AtlantPath.java:251-254 | the bytes copied from the other's first unshared name hold exactly its unshared names |
| PathRelativize.RelativeNames | src/main/java/org/atlantfs/AtlantPath.java:217-256 | the result's names are ".." for each of this path's unshared names, then the other's unshared names |
| PathRelativize.UpsCancel | src/main/java/org/atlantfs/AtlantPath.java:436-440 | plain names followed by as many ".." leave resolution where it was |
| PathRelativize.CancelThenRest | src/main/java/org/atlantfs/AtlantPath.java:428-459 | plain names, as many "..", then more names resolve as the more names alone would |
| PathRelativize.ResolvedRelativeNames | src/main/java/org/atlantfs/AtlantPath.java:196-256 | resolving the result against this path gives this path's names, as many "..", then the other's unshared names |
| PathRelativize.RelativeThenResolve | src/main/java/org/atlantfs/AtlantPath.java:196-256 | when this path's unshared names are plain, resolving the result against it gives a path that is absolute as the other is and whose resolution keeps the same names as the other's |
| PathRelativize.EqualsNameAt | src/main/java/org/atlantfs/AtlantPath.java:465-489 | `equalsNameAt` holds exactly when name `index` is the same in both paths |
| PathRelativize.CountCommon | src/main/java/org/atlantfs/AtlantPath.java:228-234 | the while loop counts exactly the shared leading names |
| PathRelativize.WriteUps | src/main/java/org/atlantfs/AtlantPath.java:242-250 | the loop writes n times "..", with '/' after each while room is left |
| PathRelativize.CopyRest | src/main/java/org/atlantfs/AtlantPath.java:251-254 | `System.arraycopy` puts the other's bytes from the first unshared name at the end of the result |
| PathRelativize.Relativize | src/main/java/org/atlantfs/AtlantPath.java:217-256 | the method returns exactly `relativize`'s result or its exception |

## Left out

- The I/O plumbing (`AtlantFileSystem`, `AtlantFileSystemProvider`, `AtlantChannel`, `AtlantFileChannel`) is not part of this model. The backing file is the block map of `Disk`, and reading or writing a block cannot fail.
- Concurrency is not modelled: the inode's read/write lock, the bitmaps' `lock`/`unlock`, the atomic `current` of a bitmap region and the volatile fields of a path. Every operation runs alone.
- `Cache` holds soft references, so a hit depends on the garbage collector. Caches are plain maps that never drop an entry.
- `Bitmap.java` only reads and writes itself through a channel. The bit-level bitmap is modelled on the behaviour its tests assert.
- `Data.read`/`Data.write` are not part of this model. A data block is its bytes plus the count of bytes in use.
- The delegating classes are not modelled: `DirEntryListBlock`, `DirListBlock`, `DirEntryListIblock`, `DirListIblock`, `DirInode` and `FileInode`. Neither are the stale `BlockList` and `InodeTable`, `DirTree` (reached only through block reads) or `AtlantConfig`.
- Logging, statistics counters and exception messages are not modelled. An exception is its kind (`Wrappers.Error`).
- `AtlantPath.toRealPath` (it asks the provider for access), `toUri` (it returns null), `register` (unsupported), `toString` and `hashCode` are not modelled. Neither is `checkPath`: its null and provider-mismatch cases cannot arise for Dafny values.
- PathRelativize.Relative: the "equal paths" case compares bytes only. The source's `equals` also requires the same file system object.
- IndirectBlock.MaxSize: `Math.pow` computes in `double`, and the model computes the power on integers. The two agree: the `double` is exact below 2^53, and the `(int)` cast saturates at `Integer.MAX_VALUE` well before that. The model writes out the saturation.
- DirEntry names are byte sequences. The default charset of `String.getBytes` and `String.length` is not modelled.
- DirTreeNode: the hash of a name (`String.hashCode`) is not computed. A lookup is given the hash.
- DirTreeNode: `read` returns an empty node in the source, so it is not modelled.
- Inode: `delete()` is not modelled, because the call that would free the inode is commented out.
- Bytes.DecodeLE: every multi-byte field is read and written little-endian. Only the tests' buffer helper sets that order; a buffer left in Java's default big-endian order is not modelled.
- Fields.PutInt: the same holds for every field codec built on `Bytes`, for the superblock, inodes, directory entries, dx entries and pointer blocks alike.
- FileBlockMapping.FileMapping.Write: the `(int)` casts of file positions (lines 42-89) are not modelled. Positions past 2^31 bytes wrap in the source and do not in the model.
- FileBlockMapping.FileMapping.Write: `DataBlock.write` is taken to write the whole slice it is given, so the early exit of the read and write loops on a short count is not modelled.
- Inode.Inode.Write: the outcomes of the i-block's own `write` (`first`), of the upgrade (`init`) and of the retried write (`retry`) are parameters. The model states the inode's part around them: the guards, the single upgrade, the retry, and the size and block count.
- Inode.Inode.UpdateDirectory: in the same way, the outcomes of `add`/`rename` on the i-block, of the upgrade and of the retry are parameters.
- Inode.Inode.DeleteName: the i-block's outcome is a parameter.
- Inode.Inode.ReserveBlock: the bitmap region's answer is a parameter. Inode.Inode.ReserveBlocks is modelled the same way.
- IndirectBlock.Init: indirect blocks are values, a tree rebuilt along the path that changes. The lazy loading of children through `computeIfAbsent` and the sharing of child objects are not modelled. Ids reserved before an `init` fails halfway are not returned to the region, as in the source, and the model does not track them.
- IndirectBlockStore.Flush: flushing is modelled one block at a time. The recursive write of `dirtyBlocks` is not.
- BitmapRegion.Multi: when the `current` hint is already past the last bitmap, the source loads the block after the region, reserves bits in it, and then fails its invariant check. The model answers out of memory and leaves the state unchanged.
- BitmapRegion.Region.Free: requires the id's bitmap to lie inside the region. The source accepts any id and loads whatever block it names.
- FileBlockMapping.FileMapping.Add: the reservation in `DataBlock.init` (DataBlock.java:42-43), which fails with BitmapRegionOutOfMemory when the region is full, is not modelled, and neither are the indirect blocks that the mapping's own `add` reserves, which can run out the same way. In this model adding a block fails only at capacity.
- FileBlockMapping.FileMapping.Write: for the same reason, out of memory during `write` (FileBlockMapping.java:73, 76 and 92) is not modelled, and neither is the state the source leaves after it: the zero fill and the blocks appended before the failure stay. The model's failure is the capacity one, after which it states only that the blocks keep their shape.
- FileBlockMapping.FileMapping.FillPast: fails only at capacity in this model; the out-of-memory of the blocks it reserves (FileBlockMapping.java:73, 76) is not modelled.
- FileBlockMapping.FileMapping.AppendEmpty: fails only at capacity in this model; the out-of-memory of each empty block's reservation (FileBlockMapping.java:73) is not modelled.
- FileBlockMapping.FileMapping.CopyIn: fails only at capacity in this model; the out-of-memory of the blocks the copy loop reserves (FileBlockMapping.java:92) is not modelled.
- DirBlockMapping.DirMapping.Append: the failed reservation of the new block is a parameter, but the indirect blocks that the mapping's own `add` reserves are not modelled, so out of memory there does not arise.
- FileBlockMapping.FileMapping.Read: `Data.read(long, ByteBuffer)` is not part of this model. Each turn is taken to copy the block from the offset to the end of the block, of the file or of the room in the buffer, whichever comes first.
- Inode.Read: the i-block is returned as bytes. The layout's reader (`iBlockType.create`, Inode.java:79), the inode's `checkInvariant` (:82) and the closing assertion that the reader consumed the whole buffer (:83) are not applied, so failures of those readers do not show in `Inode.Read`. The readers are modelled in their own modules, for example `EntryList.ReadList`.
- IndirectBlock.AddAppends: the guard `size + 1 > maxSize` (IndirectBlock.java:137) is computed on unbounded integers. In Java it wraps when `size` is `Integer.MAX_VALUE`, which needs `maxSize` to saturate at `Integer.MAX_VALUE` and the mapping to be full; that case is not modelled.

## Findings

| source | as written | input that shows it | evidently intended | confidence | as-written member | corrected member |
|---|---|---|---|---|---|---|
| src/main/java/org/atlantfs/AbstractBitmapRegion.java:225-231 | `toBitmapNumber`/`toBitmapOffset` divide the id as it is. They do not undo the `+ 1` of the inode region's `applyOffset` (InodeBitmapRegion.java:13-15). | A fresh inode region: `reserve()` returns inode 1 (bit 0). `free(1)` then looks at bit 1, finds it clear and leaves bit 0 set for good. | subtract the region's shift before dividing | not executed | BitmapRegion.InodeFreeAsWrittenLeaks | BitmapRegion.ApplyOffsetInverse |
| src/main/java/org/atlantfs/FileBlockMapping.java:51 | The zero fill of the last existing block starts at `lastExistingPosition % blockSize`, the offset of the file's last byte. Line 65 adds `+ 1`; this line does not. | A file "AB" in one 8-byte block, written at position 2: the fill zeroes the "B". | start the fill just after the last byte, as line 65 does | not executed | FileBlockMapping.AppendZeroesLastByte | FileBlockMapping.FillLastKeepsFile |
| src/main/java/org/atlantfs/DirEntry.java:148 | The name length is read with `buffer.get()`, a signed byte, although `flush` writes up to 255. | An entry with a 128-byte name flushes fine. Reading it back allocates `new byte[-128]`. | read the length unsigned (`& 0xFF`) | not executed | DirEntry.SignedNameLengthLosesLongNames | DirEntry.ReadFlush |
| src/main/java/org/atlantfs/DirEntryList.java:104-118 | A rename that does not fit in place deletes the entry first, then adds it again. When the add fails, the entry is gone. The older BlockDirEntity.java:76-88 does the same. | Two 16-byte entries "a" and "b" in a 32-byte list; rename "a" to a 9-byte name: the add fails and "a" is no longer listed. | leave the list unchanged when the relocated entry does not fit | not executed | EntryList.RenameAsWrittenLosesEntry | EntryList.Rename |
| src/main/java/org/atlantfs/AtlantPath.java:387-392 | The rewrite starts with previous byte `k = 0`, so a '\\' right after a '/' before the rewrite point becomes a second '/'. | "a/\\b" is stored as "a//b". | start `k` at the byte before `index` | not executed | PathNormalize.RewriteKeepsDoubleSlash | PathNormalize.NormalizedSpec |
| src/main/java/org/atlantfs/DirBlockMapping.java:39-50 | `hasNext` moves to the next block once. If that block yields nothing, the iteration stops, even when later blocks hold entries. | Three blocks: the first two emptied, the third holding a file. The iteration yields nothing. | skip every block that yields nothing | not executed | DirBlockMapping.IteratorSkipsBlocks | DirBlockMapping.IteratedListsAll |
| src/main/java/org/atlantfs/DirBlockMapping.java:126-132 | `delete()` refuses a directory only when the first `hasNext` is true, so it inherits the previous row's stop. | The same three blocks: the directory is deleted with its file. | refuse whenever any block lists an entry | not executed | DirBlockMapping.DeleteLosesFile | DirBlockMapping.DirMapping.DeleteFixed |
| src/main/java/org/atlantfs/DirTreeNode.java:36-44 | `isSorted` never advances `last`, so it compares every hash with the first one only. | Hashes [1, 3, 2] pass the check, and a lookup of 2 then lands on the first entry's block. | compare each hash with the one before it | not executed | DirTreeNode.UnsortedLookup | DirTreeNode.SortedCoversLast |
