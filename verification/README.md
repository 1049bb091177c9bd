# A verified model of the raw object store

The repository stores objects directly on a block device. One device holds two superblock
copies, a data region, and two index regions of 256 shard slots each. This project models that
engine and three parts built on it, and proves what they promise: a block codec that detects
damage, an allocator whose free list is always exactly the unused space, store operations that
refine a plain map from keys to objects, a commit protocol that survives power failures at any
point, uploads in parts, readers that follow a writer, paginated listings, consistent hashing,
and the byte accounting of the device heat map.

`dafny verify dfyconfig.toml` checks everything.

## How it is put together

| file | contents |
|---|---|
| `Crc32c.dfy` | CRC-32C bit by bit (section 12.1 of RFC 3720), its linearity and what it detects |
| `Blocks.dfy`, `Streaming.dfy`, `ExtentIo.dfy` | the 4096-byte block codec; chunked writers and readers over a device |
| `Disk.dfy` | a device with stable contents, a cache and pending writes; what a power failure leaves |
| `Allocator.dfy`, `Index.dfy`, `Layout.dfy`, `Space.dfy` | free list, sharded index, free space as the complement of the extents |
| `Superblock.dfy`, `Recovery.dfy` | the commit record and what open reads back from a device |
| `Protocol.dfy`, `CrashSafety.dfy`, `CrashRuns.dfy`, `TornWrites.dfy`, `FlushSteps.dfy` | the flush as a state machine, its invariant, whole runs with crashes, torn and failed writes |
| `Objects.dfy`, `Store.dfy` | the plain map a store stands for; the store class |
| `Formatting.dfy`, `Opening.dfy`, `Multipart.dfy`, `Reader.dfy` | format, open with integrity scan, multipart upload, reload |
| `Listing.dfy`, `JumpHash.dfy`, `HeatMap.dfy` | listing pages, placement, heat map |
| `Witness.dfy` | a serializer that meets the laws the model assumes of one |
| `Instances.dfy` | reachable states in which the limits of the flush protocol show |

The main lines of argument:

* **Refinement.** `RawStore.Objects()` decodes, for every index entry, the bytes its extent
  holds now. `Put`, `PutWithMeta`, `PutFromFile`, `Copy`, `Rename`, `Delete`, `UpdateMetadata`,
  `SetMetaLen` and multipart `Complete` each equal the corresponding update of that map; `Get`,
  `GetRange` and `GetMetadata` return what the map holds. Each of them also is one `MutateNext`
  step of the crash protocol, and a failed one leaves index, free list and objects as they were
  and fails only for a listed reason (`PutRefused`): on a device that does not fail, an operation
  with valid arguments and room for its data succeeds.
* **Space.** `Valid()` says that the free list is canonical and covers exactly the unused data
  region, and that a store with a dirty shard says it needs a flush. A canonical list is determined by what it covers (`CanonicalUnique`), so in every
  state the incrementally maintained list equals the one rebuilt from the index.
* **Crashes.** A power failure keeps, byte by byte, the durable value or the value of any pending
  write. The invariant `Inv` holds in every state of every run; whatever a crash leaves, open
  loads the last commit or the one in progress, whole.
* **Damage.** One changed byte of a stored extent is noticed by exactly the reads and open modes
  that look at its block: a full read always, a partial read if it covers the block
  (`PartialReadDamage`), the default open scan if it is the first block and a full verification
  always (`DamageNoticed`); the scan then drops that entry alone (`ScanDropsDamaged`).
* **Formats** are fixed by absolute positions and check values, not only by round trips:
  `EncodedBlock`, `AcceptedExactly`, `Residue`, `ShardIsLowByte`, `CheckPlacements`.
* **Limits of the source's design** are stated as they are, with the exact condition. An
  overflow-checked build stops at an empty range on a block boundary; any other build wraps
  around and delivers it (`ReadBlockRange`, `GetRange`). A put from a file stores the right
  object exactly when the file reports the length that is read (`PutFromFile`). A flush that
  gives up leaves a valid store exactly when no earlier shard was dirty (`FlushIndex`); otherwise
  the next flush is safe exactly when what it writes over a committed slot agrees with it
  (`AbortedFlushSafeExactly`), and `AbortedFlushHappens` reaches a store where it does not. With
  the primary torn, an index is recovered exactly when the backup's slot entries still load to it
  (`TornPrimaryIndex`); `StaleBackupLoses` reaches a device that then does not open. An aborted
  upload restores the index exactly when no part key was in use and no stored part's key had a
  tombstone (`UploadThenAbort`), which open can leave (`OpenTombstonesParts`). The default open
  scan does not notice a reused extent (`DefaultMissesReuse`). A reader may see a commit that a
  crash takes back (`VisibleMayBeLost`) and then misses the next one (`LostCommitHidesNext`).

Assumptions that come in as parameters: the shard serializer is an encoding with a left inverse
(`ShardCodec.Lawful`), compressors decompress what they compress (`Compressor.Lawful`), the
outcome of each device request is decided by an arbitrary plan, and the current time is an
argument. Both laws can be met (`SomeCodecIsLawful`, `SomeCompressorIsLawful`). Each store
operation is one atomic step because the source holds its write lock.

## Model

| member | source | states |
|---|---|---|
| Crc32c.ComputeCrc | demo/check_hash.py:5-16 | the byte-and-bit loop computes CRC-32C of the data |
| Crc32c.CheckValue | demo/check_hash.py:5-16 | the standard check value: "123456789" has checksum 0xE3069283 |
| Crc32c.AppendIsConcat | rawobjstr/src/store.rs:159-178 | continuing a checksum over a further chunk is the checksum of the concatenation |
| Crc32c.RegisterInjective | demo/check_hash.py:5-16 | over the same data, different register states never meet: each shift is injective because the polynomial's top bit is set |
| Crc32c.BurstDetected | demo/check_hash.py:5-16 | data that differ only in a window of up to four bytes have different checksums, at any length and position |
| Crc32c.SingleByteDetected | demo/check_hash.py:5-16 | changing any single byte changes the checksum |
| Crc32c.Residue | rawobjstr/src/extent.rs:50-51 | data followed by its little-endian checksum always has the residue of CRC-32C |
| Blocks.RoundTrip | rawobjstr/src/extent.rs:32-92 | decoding an encoded payload gives the payload |
| Blocks.EncodeLength | rawobjstr/src/extent.rs:10-25 | an encoding is exactly as long as the padded extent size |
| Blocks.EncodedBlock | rawobjstr/src/extent.rs:32-54 | the format: every block is the little-endian CRC of the rest, the piece of the payload, and zeros behind its end |
| Blocks.EncodeConcat | rawobjstr/src/extent.rs:32-54 | a whole number of pieces encodes on its own: encoding distributes over the cut |
| Blocks.DecodeLength | rawobjstr/src/extent.rs:74-92 | successful decoding delivers exactly the expected length, as far as there are blocks |
| Blocks.RangeIsSlice | rawobjstr/src/extent.rs:94-123 | decoding only the blocks that cover a non-empty in-bounds range gives that slice of the whole content |
| Blocks.RangeReadExactly | rawobjstr/src/extent.rs:94-123 | a partial read of any blocks, intact or not, succeeds exactly when the covering blocks are good and then delivers the bytes they hold |
| Blocks.DamageDetected | rawobjstr/src/extent.rs:58-92 | damage within four consecutive bytes of one field of one block makes decoding of the whole extent fail |
| Blocks.SingleByteDamageDetected | rawobjstr/src/extent.rs:58-92 | changing any single byte of an encoded extent of any length makes decoding fail |
| Blocks.RangeDamageDetected | rawobjstr/src/extent.rs:94-123 | a damaged byte of an encoding spoils exactly the partial reads that cover its block; the others still get their slice |
| Streaming.FillBlock | rawobjstr/src/extent.rs:156-165 | fills one zeroed block of a buffer in place with padded data behind its CRC, and nothing else |
| Streaming.EncodeBatch | rawobjstr/src/extent.rs:145-166 | one batch buffer is the encoding of its slice of the payload |
| Streaming.EncodeAndWriteBatched | rawobjstr/src/extent.rs:133-173 | leaves exactly the reference encoding on the device; touches no byte outside the extent even when a write fails |
| Streaming.StreamingBlockWriter.WriteChunk | rawobjstr/src/extent.rs:217-232 | any chunk, of any size, extends what has been fed, writing only inside the extent |
| Streaming.StreamingBlockWriter.SealBlock | rawobjstr/src/extent.rs:250-263 | a full partial block moves into the batch without changing what has been fed |
| Streaming.StreamingBlockWriter.FlushBatch | rawobjstr/src/extent.rs:265-274 | writes the batch behind the blocks already written |
| Streaming.StreamingBlockWriter.Finish | rawobjstr/src/extent.rs:234-248 | for every way of cutting a payload into chunks the device ends with the reference encoding of the whole |
| Streaming.ReadAndDecodeBatched | rawobjstr/src/extent.rs:283-314 | batched reading equals decoding the whole extent, errors included |
| Streaming.DecodeBlocks | rawobjstr/src/extent.rs:74-92 | the decoding loop equals the recursive decoding |
| Streaming.DecodeBlockRange | rawobjstr/src/extent.rs:94-123 | the range loop equals the recursive range decoding |
| Streaming.StreamingBlockReader.NextChunk | rawobjstr/src/extent.rs:350-371 | chunks are non-empty and concatenate to the decoded payload; an error means the extent does not decode |
| Streaming.BlockReaderIo.Read | rawobjstr/src/extent.rs:408-446 | reads of any sizes hand out the payload in order; zero bytes means all of it has been handed out; after an error every read fails |
| Allocators.CanonicalUnique | rawobjstr/src/allocator.rs:9-14 | two sorted, coalesced lists that cover the same bytes are equal entry for entry |
| Allocators.ExtentAllocator.constructor | rawobjstr/src/allocator.rs:18-27 | a new allocator covers exactly the data region |
| Allocators.ExtentAllocator.FromFreeList | rawobjstr/src/allocator.rs:33-62 | keeps exactly the usable entries, sorted; a canonical in-bounds list is kept as it is |
| Allocators.ExtentAllocator.FreeSpace | rawobjstr/src/allocator.rs:70-72 | the sum of the entry sizes |
| Allocators.ExtentAllocator.FirstFit | rawobjstr/src/allocator.rs:81-84 | finds the entry with the lowest offset at which a long enough free run starts, or none if there is none |
| Allocators.ExtentAllocator.Alloc | rawobjstr/src/allocator.rs:77-109 | returns the lowest fitting free run and removes exactly it; fails only when no contiguous run is long enough, reporting the largest |
| Allocators.ExtentAllocator.PartitionPoint | rawobjstr/src/allocator.rs:114-116 | the insertion point that keeps the list sorted |
| Allocators.ExtentAllocator.Free | rawobjstr/src/allocator.rs:112-139 | adds exactly the freed bytes and stays sorted and coalesced |
| Indexes.ShardsMergeToIndex | rawobjstr/src/store.rs:953-972 | merging the 256 shards of an index gives the index back |
| Indexes.SameShardsSameIndex | rawobjstr/src/index.rs:9-11 | indexes with equal shards are equal |
| Indexes.ShardIsLowByte | rawobjstr/src/index.rs:9-11 | the shard of a key is the lowest byte of its CRC-32C |
| Indexes.FreeListUnique | rawobjstr/src/store.rs:36-66 | an index has only one free list |
| Layouts.CollectPlacements | rawobjstr/src/store.rs:42-52 | every entry that passes the filter exactly once, sorted by offset |
| Layouts.GapsAreFree | rawobjstr/src/store.rs:54-65 | the gaps between ordered extents are canonical, cover exactly what the extents do not, and add up with them to the region |
| Layouts.RebuildFreeList | rawobjstr/src/store.rs:36-66 | for well placed entries the rebuilt list covers exactly the unused space, and used plus free equals the data region |
| Layouts.FindOverlaps | rawobjstr/src/store.rs:1822-1837 | reports exactly the pairs of neighbours in offset order that overlap |
| Layouts.RunsOverExactly | rawobjstr/src/store.rs:1822-1837 | in offset order an extent runs into its neighbour exactly if they share a byte, and no two extents share one exactly if none does |
| Layouts.FreeListConsistent | rawobjstr/src/store.rs:1847-1859 | accepts exactly the lists whose entries are in bounds, non-empty and do not run into the next |
| Superblocks.CopyRoundTrip | rawobjstr/src/superblock.rs:93-202 | a written copy validates and reads back as the same superblock |
| Superblocks.LocateChecksum | rawobjstr/src/superblock.rs:119-136 | the probe loop finds the checksum field at byte 60, whatever the other fields hold |
| Superblocks.ToBytes | rawobjstr/src/superblock.rs:93-140 | produces the copy; fails exactly when the record does not fit 4096 bytes |
| Superblocks.CopyFields | rawobjstr/src/superblock.rs:93-140 | a written copy has every field at its absolute offset, little-endian |
| Superblocks.Parse | rawobjstr/src/superblock.rs:142-202 | accepts exactly what the reference validation accepts, with the same errors |
| Superblocks.AcceptedExactly | rawobjstr/src/superblock.rs:142-202 | exactly which blocks are accepted, by the numbers at absolute offsets; what is read is the number at the offset of each field; which error otherwise |
| Superblocks.MagicIs | rawobjstr/src/lib.rs:165-165 | the magic number is the eight bytes "RAWOBJST" |
| Superblocks.CopyDamageDetected | rawobjstr/src/superblock.rs:169-199 | damage in a window of up to four bytes, inside or clear of the checksum field, makes a valid copy fail |
| Recovery.SlotsApart | rawobjstr/src/store.rs:947-951 | shard slots lie in the index regions and never overlap |
| Recovery.SlotsLaidOut | rawobjstr/src/store.rs:782-786 | the two index regions fill the end of the device, each cut into 256 slots |
| Recovery.StoredLoads | rawobjstr/src/store.rs:953-972 | if every active slot holds its shard, loading succeeds and gives the whole index |
| Recovery.UnwrittenLoadsEmpty | rawobjstr/src/store.rs:953-972 | slots of length zero hold no entries |
| Recovery.HeldIsChosen | rawobjstr/src/store.rs:921-932 | a valid primary at least as new as the backup is the one chosen |
| Recovery.ChoosesNewest | rawobjstr/src/store.rs:921-932 | no valid copy is newer than the chosen one, the primary wins a tie, and an error means that none is valid |
| CrashSafety.UnmarkedShardsMatch | rawobjstr/src/store.rs:96-99 | in every reachable idle state a shard not marked dirty reads back from disk as it is in memory |
| CrashSafety.CrashRecovers | rawobjstr/src/store.rs:914-972 | whatever a crash keeps, open loads the last commit, or the new one while the primary is being written |
| CrashSafety.FlushKeepsInv | rawobjstr/src/store.rs:1315-1365 | every device request of a flush keeps the invariant |
| CrashSafety.MutateKeepsInv | rawobjstr/src/store.rs:150-216 | every store operation that writes only to unused space and marks what it changes keeps the invariant |
| CrashSafety.MidOperationCrash | rawobjstr/src/store.rs:150-216 | a crash after any of the writes of an operation recovers the last commit, so an operation may be one step |
| CrashSafety.CrashKeepsInv | rawobjstr/src/store.rs:914-1223 | crash and open keep the invariant |
| CrashRuns.RunKeepsInv | rawobjstr/src/store.rs:1283-1365 | the invariant holds at every point of every run from a formatted device, with any number of crashes |
| CrashRuns.EveryCrashRecovers | rawobjstr/src/store.rs:914-972 | at any point of any run a further crash recovers exactly the last committed index or that of the flush in progress |
| CrashRuns.TxnNeverDecreases | rawobjstr/src/store.rs:1349-1351 | the committed transaction id never decreases, not even across crashes |
| CrashRuns.FlushCommits | rawobjstr/src/store.rs:1283-1370 | a completed flush commits the whole in-memory index although it writes only dirty shards, clears all flags, and changes the superblock in exactly these fields: the dirty slots flipped with their lengths and checksums, the id advanced by one and kept as the previous id, the total of the slot lengths |
| CrashRuns.SlotSumNext | rawobjstr/src/store.rs:1352-1357 | the recorded total is the sum over all slots |
| CrashRuns.KeptThroughout | rawobjstr/src/store.rs:150-216 | an extent in continuous use since the last commit stays among the kept ones |
| CrashRuns.FlushedObjectSurvives | rawobjstr/src/store.rs:1349-1365 | an object of the last flush whose extent stays in use keeps exactly its flushed bytes through any crash |
| TornWrites.TornPrimaryFallsBack | rawobjstr/src/store.rs:921-932 | with the primary torn, the last commit record is recovered if and only if the backup is its superblock |
| TornWrites.TornPrimaryIndex | rawobjstr/src/store.rs:921-972 | with the primary torn, an index is recovered if and only if the shards under the backup's slot entries still load to it |
| Recovery.LoadsShardwise | rawobjstr/src/store.rs:953-972 | shards that hold only their own keys load to an index if and only if each loads to its part of it |
| TornWrites.TornImageExists | rawobjstr/src/store.rs:1360-1362 | while the primary is being written a crash can always leave a copy that fails validation |
| TornWrites.StaleBackupReachable | rawobjstr/src/store.rs:1360-1364 | a crash behind the durable primary, and a reopen, leave an idle writer whose backup is one commit old |
| Instances.StaleBackupLoses | rawobjstr/src/store.rs:914-972 | a reachable device with a stale backup that a torn primary write makes unreadable |
| TornWrites.TornCrashRecovers | rawobjstr/src/store.rs:1332-1365 | if superblock writes may tear, a crash in a flush that began with equal copies recovers the old or the new index whole |
| TornWrites.CopiesStayInAgreement | rawobjstr/src/store.rs:1360-1364 | operations and flush steps keep that precondition; a completed flush re-establishes it |
| TornWrites.AbortedFlushInOrder | rawobjstr/src/store.rs:1324-1346 | after a flush gives up at a shard, the writer's invariant holds if and only if no earlier shard was dirty |
| TornWrites.AbortedFlushLosesCommit | rawobjstr/src/store.rs:1324-1346 | one byte in which the next flush differs from the committed slot is enough: a crash that keeps it leaves a device that does not open |
| TornWrites.AbortedFlushSafeExactly | rawobjstr/src/store.rs:1324-1346 | after an aborted flush, rewriting a flipped shard recovers the commit from every crash if and only if its bytes agree with the committed slot where they overlap |
| Instances.AbortedFlushHappens | rawobjstr/src/store.rs:1315-1347 | a reachable store with two dirty shards, the later overflowing, whose next flush can lose the commit |
| FlushSteps.FailedShardWrite | rawobjstr/src/store.rs:1339-1342 | a shard write that stops after any prefix harms nothing committed |
| FlushSteps.FailedPrimary | rawobjstr/src/store.rs:1360-1362 | a primary write that stops after any prefix leaves the old or the new commit |
| FlushSteps.FailedBackup | rawobjstr/src/store.rs:1363-1365 | a backup write that stops after any prefix leaves the new commit |
| FlushSteps.FlushLeavesData | rawobjstr/src/store.rs:1283-1365 | no flush step changes a byte of the data region |
| Objects.WrittenIsIntact | rawobjstr/src/store.rs:129-216 | a payload written in its stored form, compressed or not, reads back as itself |
| Objects.CompressedIfShorter | rawobjstr/src/store.rs:129-147 | a payload is compressed only from 4096 bytes on, only on a compressing device and only if that is shorter |
| Objects.ObjectsFrame | rawobjstr/src/store.rs:150-216 | writes outside all live extents change no object |
| ExtentIo.WritePayload | rawobjstr/src/store.rs:156-189 | both write paths, below and above 8 MB, leave the same encoding and checksum |
| ExtentIo.StreamChunks | rawobjstr/src/store.rs:2250-2274 | chunks of any sizes from a file end as one encoding with the checksum of the whole |
| ExtentIo.CopyBlocks | rawobjstr/src/store.rs:385-411 | copies an extent's raw blocks exactly and writes nothing else |
| ExtentIo.RewriteSuffix | rawobjstr/src/store.rs:2512-2556 | streams the old body and the new metadata into a fresh extent; fails as corrupt only if the source extent is |
| ExtentIo.ReadBlockRange | rawobjstr/src/store.rs:319-357 | reads only the covering blocks; of any extent, damaged or not, delivers what they hold or reports corruption exactly if one is bad; an overflow-checked build stops at an empty range on a block boundary |
| ExtentIo.PartialReadDamage | rawobjstr/src/store.rs:342-355 | one damaged byte in a stored extent: a partial read reports it exactly if it covers the block, and otherwise delivers the slice of the payload |
| Stores.RawStore.PrepareExtent | rawobjstr/src/allocator.rs:77-109 | reserves the lowest free run clear of every live extent and of the index regions; fails only when there is none |
| Stores.RawStore.Abandon | rawobjstr/src/store.rs:168-187 | giving a reservation back restores the free list entry for entry and leaves all objects unchanged |
| Stores.RawStore.Adopt | rawobjstr/src/store.rs:191-216 | pointing a key at a written extent frees its old one, marks its shard, and keeps every other object |
| Stores.RawStore.Put | rawobjstr/src/store.rs:103-216 | updates the map at the key, clears its tombstone, and records size, checksum, metadata length, time and transaction of what was written; on error nothing has changed, and the only errors are an empty payload, a long key, no free run of the needed length, and a failing device |
| Stores.RawStore.PutWithMeta | rawobjstr/src/store.rs:2173-2196 | body and metadata read back separately; oversized metadata is refused |
| Stores.RawStore.PutFromFile | rawobjstr/src/store.rs:2209-2303 | the store stays valid if the bytes read need no more blocks than the reported length, the object is right if and only if the two lengths are equal, and otherwise the encoding runs on past the extent |
| Stores.RawStore.UpdateMetadata | rawobjstr/src/store.rs:2468-2583 | replaces the metadata, keeps the body of an intact object, changes no other entry; the error cases |
| Stores.RawStore.SetMetaLen | rawobjstr/src/store.rs:2378-2393 | moves the boundary between body and metadata of one object; every other field and entry stays |
| Stores.RawStore.Copy | rawobjstr/src/store.rs:365-435 | the destination becomes the same object (a damaged source makes a damaged copy), stamped anew; other entries and tombstones stay |
| Stores.RawStore.Delete | rawobjstr/src/store.rs:2908-2924 | removes one object and frees exactly its extent |
| Stores.RawStore.Rename | rawobjstr/src/store.rs:3060-3094 | moves the entry as it is, without touching the device, dropping what the destination had; other entries and tombstones stay |
| Stores.RawStore.Get | rawobjstr/src/store.rs:219-248 | returns the payload the map holds, or the error its extent gives |
| Stores.RawStore.GetRange | rawobjstr/src/store.rs:292-358 | the slice of the payload; of a damaged entry, what the covering blocks hold if they are good and corruption otherwise; clamped for compressed objects with the error a full read gives, refused above 1 GB; the exact condition under which an overflow-checked build stops |
| Stores.RawStore.GetMetadata | rawobjstr/src/store.rs:2352-2372 | the metadata suffix of the object the map holds; of a damaged entry, what a range read of it gives |
| Stores.RawStore.FlushShards | rawobjstr/src/store.rs:1315-1347 | writes exactly the dirty shards to their inactive slots, as the state machine does; stops at the first that overflows, with nothing changed if none before it was dirty; recorded lengths are cut to 32 bits |
| Stores.RawStore.FlushIndex | rawobjstr/src/store.rs:1283-1371 | with lengths and ids that fit their widths: on success the whole run of the state machine, with all objects unchanged; on any failure every crash still recovers the old or the new commit; after an overflow the store is valid if and only if no earlier shard was dirty. At the last transaction id an overflow-checked build stops with nothing changed |
| Stores.RawStore.VerifyLayout | rawobjstr/src/store.rs:1822-1866 | in every reachable state: no overlaps, space accounted, free list consistent |
| Stores.RawStore.Repair | rawobjstr/src/store.rs:1883-1920 | rebuilding the free list of a healthy store leaves it unchanged entry for entry |
| Stores.RawStore.ClearTombstones | rawobjstr/src/store.rs:1982-2001 | drops all tombstones and marks every shard that held one |
| Formatting.Format | rawobjstr/src/store.rs:758-858 | leaves an empty store on a committed, empty index with equal superblock copies, the first commit field by field, and the largest key limit that was asked for and fits a slot; each error and its condition |
| Formatting.FormatThenPut | rawobjstr/src/store.rs:758-858 | on a device that does not fail, a fresh store takes any first key up to that limit and any payload that fits the data region |
| Formatting.SomeFormatted | rawobjstr/src/store.rs:758-858 | every geometry and serializer that format accepts has a formatted device |
| Opening.ReadSuperblock | rawobjstr/src/store.rs:914-932 | the valid copy with the higher transaction id, the primary on a tie |
| Opening.Load | rawobjstr/src/store.rs:914-972 | loads exactly what the recovery function says of any device image, errors included |
| Opening.CheckEntry | rawobjstr/src/store.rs:1065-1158 | what each open mode demands of an entry's extent, as `DamageNoticed` decides it |
| Opening.DefaultIsFirstBlock | rawobjstr/src/store.rs:1068-1104 | the default scan accepts an extent exactly if its first block is good, whatever lies behind it |
| Opening.DamageNoticed | rawobjstr/src/store.rs:1065-1158 | a sound entry passes every mode; with one byte changed it fails the default scan exactly if the byte is in the first block, and a full verification always |
| Opening.Scan | rawobjstr/src/store.rs:974-1223 | drops the entries out of bounds, the later of overlapping neighbours and what fails the mode's check, tombstones what failed, purges uploaded parts, marks every changed shard |
| Opening.ScanDropsDamaged | rawobjstr/src/store.rs:1065-1192 | if the mode notices a damaged byte, open drops exactly that entry, leaves a tombstone and marks its shard; otherwise the damage changes nothing |
| Opening.PartsPurged | rawobjstr/src/store.rs:1175-1192 | no open leaves an uploaded part; every other entry stays exactly if it verifies |
| Opening.MisplacedAre | rawobjstr/src/store.rs:974-1041 | every entry out of bounds is dropped, and otherwise only one that starts inside another |
| Opening.Open | rawobjstr/src/store.rs:905-1260 | after any crash open succeeds unless the device is write-protected, records no key length or an unknown compression, and says which; the store continues in order from the recovered commit with the recorded compressor and key limit, its free list exactly the space no survivor uses |
| Opening.FullVerifyKeepsOnlyGood | rawobjstr/src/store.rs:1108-1163 | survivors decode to the recorded size and checksum; every other non-temporary entry has a tombstone |
| Opening.IntactVerifies | rawobjstr/src/store.rs:1065-1158 | an intact object passes every open mode |
| Opening.DefaultMissesReuse | rawobjstr/src/store.rs:1065-1107 | the default scan accepts a stale entry over a reused extent; a full scan accepts it if and only if the checksums collide |
| Opening.FlushedObjectReadable | rawobjstr/src/store.rs:1349-1365 | end to end: a flushed object whose extent stayed in use has its content after any crash and any open, whether that flush or the one in progress is recovered |
| Objects.SomeCompressorIsLawful | rawobjstr/src/lib.rs:301-352 | the laws assumed of compressors can be met by one that shortens a payload |
| Witness.SomeCodecIsLawful | rawobjstr/src/index.rs:23-38 | the laws assumed of the shard serializer can be met, with an empty shard of two bytes |
| Multipart.PartKeysDiffer | rawobjstr/src/store.rs:3176-3180 | parts of one upload have different, temporary keys |
| Multipart.PartKeyExample | rawobjstr/src/store.rs:3176-3180 | part keys are decimal, highest digit first |
| Multipart.StreamParts | rawobjstr/src/store.rs:3354-3390 | parts of their recorded lengths are read in order and leave the encoding of their concatenation, with no write outside the extent |
| Multipart.RawMultipartUpload.PutPart | rawobjstr/src/store.rs:3176-3189 | stores a part as its own object under the next temporary key |
| Multipart.RawMultipartUpload.Complete | rawobjstr/src/store.rs:3191-3448 | the destination takes an entry and the parts and their extents are gone; on error index, free list and part keys are as before. If the parts have their recorded lengths, the destination holds their concatenation, compressed under the same conditions as a single payload, and the only errors are a missing or unreadable part, no room and a failing device |
| Multipart.RawMultipartUpload.Abort | rawobjstr/src/store.rs:3450-3463 | removes exactly the parts |
| Multipart.UploadThenComplete | rawobjstr/src/store.rs:3176-3448 | a successful upload puts the concatenation at the destination and drops what the part keys held; nothing else changes if and only if no part key was in use |
| Multipart.UploadThenAbort | rawobjstr/src/store.rs:3450-3463 | an aborted upload drops exactly the entries under the part keys and the tombstones of stored parts; index and free list are restored entry for entry exactly under the stated conditions |
| Multipart.OpenTombstonesParts | rawobjstr/src/store.rs:1042-1192 | after open a part key has a tombstone if and only if it had one or its entry did not verify |
| Multipart.SomePartIsTombstoned | rawobjstr/src/store.rs:1108-1192 | a device on which open tombstones a part key |
| Reader.LiveLoads | rawobjstr/src/store.rs:914-972 | between any two writer steps a full load of the live device succeeds |
| Reader.VisibleAdvances | rawobjstr/src/store.rs:1332-1365 | a writer step shows a reader the same commit or the next transaction id |
| Reader.StaysInStep | rawobjstr/src/store.rs:1406-1498 | a snapshot never becomes newer than what the writer shows |
| Reader.ReaderFollows | rawobjstr/src/store.rs:1406-1498 | over any crash-free run of writer steps and reloads the reader is never ahead and its transaction id only grows |
| Reader.VisibleMayBeLost | rawobjstr/src/store.rs:1360-1362 | a crash before the primary is durable can take back a commit a reader has seen |
| Reader.LostCommitHidesNext | rawobjstr/src/store.rs:1420-1422 | after a lost commit the next flush gets the same transaction id, so a reader that holds the lost one reloads nothing |
| Reader.OneFlushTells | rawobjstr/src/store.rs:1424-1434 | for a reader one flush behind, equal slot entries always mean equal shards |
| Reader.IndexReader.ReloadIndex | rawobjstr/src/store.rs:1406-1498 | equal ids reload nothing; otherwise the result is the committed index if and only if equal slot entries meant equal shards |
| Reader.IndexReader.Follow | rawobjstr/src/store.rs:1406-1498 | between writer steps a reload gives the visible superblock, its id does not go back, and the index is what a full load gives if and only if equal slot entries meant equal shards |
| Listing.ValidateKey | objstrd/src/adapter.rs:217-227 | rejects exactly keys with a ".." or marker component |
| Listing.ComponentsAre | objstrd/src/adapter.rs:217-227 | components put together with slashes are the key, and none has a slash in it |
| Listing.LessExactly | objstrd/src/adapter.rs:1712-1721 | names are ordered by their first difference, a proper prefix first |
| Listing.FindsFirst | objstrd/src/adapter.rs:1731-1731 | a delimiter is found where it occurs first, and missed only if it occurs nowhere |
| Listing.StoreKeyRoundTrip | objstrd/src/adapter.rs:199-205 | a valid key comes back from the name it is stored under |
| Listing.DecodeInjective | objstrd/src/adapter.rs:1693-1704 | different stored names without trailing slash stand for different keys |
| Listing.EntryOfEntry | objstrd/src/adapter.rs:1729-1749 | common prefixes and keys never coincide, and grouping is idempotent |
| Listing.EntryIs | objstrd/src/adapter.rs:1729-1749 | a key is grouped up to and including the first delimiter behind the prefix, and stands for itself if there is none |
| Listing.Classify | objstrd/src/adapter.rs:1707-1749 | what one key adds to a page: itself, its common prefix, or nothing |
| Listing.Collect | objstrd/src/adapter.rs:1683-1772 | keys and common prefixes behind the token, each once |
| Listing.MergeLines | objstrd/src/adapter.rs:1789-1825 | merges the least lines in order, up to the limit |
| Listing.TokenIsLast | objstrd/src/adapter.rs:1832-1845 | the larger of last key and last prefix is the last merged line |
| Listing.ListPage | objstrd/src/adapter.rs:1651-1845 | a page lists the first lines behind the token; truncated exactly when lines remain; the token is the last line |
| Listing.ListAll | objstrd/src/adapter.rs:1651-1845 | following the tokens ends, and the pages list every key and common prefix exactly once in order |
| Listing.ListedUnique | objstrd/src/adapter.rs:1774-1845 | the result is determined by the lines, so the page size does not matter |
| Listing.TwoNames | objstrd/src/adapter.rs:1651-1845 | an instance: order, internal names, stray and trailing markers |
| Listing.BehindStart | objstrd/src/adapter.rs:1651-1845 | an instance: prefix and start-after |
| Listing.TwoGroups | objstrd/src/adapter.rs:1651-1845 | an instance: two names grouped into one common prefix |
| JumpHash.JumpsForward | shardedobjstr/src/replication.rs:17-21 | every jump strictly increases |
| JumpHash.KeyStream | shardedobjstr/src/replication.rs:19-19 | the generator gives one at zero and adds the multiplier modulo 2^64 for each next key |
| JumpHash.DivisorIs | shardedobjstr/src/replication.rs:20-20 | the divisor counts the multiples of 2^33 up to the key |
| JumpHash.ExactStepIs | shardedobjstr/src/replication.rs:20-20 | the exact step is the whole part of the quotient |
| JumpHash.FloatStepAdvances | shardedobjstr/src/replication.rs:20-20 | the floating-point step jumps forward under any rounding that keeps order and is exact on whole numbers up to 2^53 |
| JumpHash.FloatIsExact | shardedobjstr/src/replication.rs:20-20 | in double precision, however it rounds, the step is the exact one unless the quotient is within a relative 2^-50 of a whole number |
| JumpHash.ExactIsDouble | shardedobjstr/src/replication.rs:20-20 | not rounding at all is one of the roundings these results speak of |
| JumpHash.JumpConsistentHash | shardedobjstr/src/replication.rs:14-23 | ends, and gives the last landing point before the jumps leave the buckets |
| JumpHash.CheckPlacements | shardedobjstr/src/replication.rs:14-23 | check values: keys 5, 3 and 6 of ten buckets land in 4, 8 and 9, key 10 of five in 2, under every double-precision rounding |
| JumpHash.GrowthMovesOnlyToNew | shardedobjstr/src/replication.rs:1-10 | growing from m to n buckets leaves a key where it is or moves it to a bucket not below m |
| JumpHash.Factor | shardedobjstr/src/replication.rs:31-34 | the clamped replication factor is between one and the number of shards |
| JumpHash.ReplicaTargets | demo/check_hash.py:41-49 | the ring walk yields the clamped number of pairwise different shards, starting at home |
| HeatMap.Tiled | rawobjstr/src/store.rs:1695-1711 | in every window extents and gaps add up to the region |
| HeatMap.ChunksFit | objstrd/src/viz.rs:1146-1153 | chunks cover the device and none starts behind its end |
| HeatMap.OverlapCounts | objstrd/src/viz.rs:1164-1168 | the overlap of an extent with a chunk counts the bytes that lie in both |
| HeatMap.TallyExtent | objstrd/src/viz.rs:1159-1174 | adds to every chunk exactly the bytes of the extent inside it |
| HeatMap.TallyAll | objstrd/src/viz.rs:1155-1190 | bytes per chunk, and extents counted once, where they start |
| HeatMap.ComputeHeat | objstrd/src/viz.rs:1145-1197 | every chunk gets exactly the bytes of the extents and gaps inside it and the number of extents that start in it; used, free and dead add up per chunk and to the device size; dead is exactly superblocks plus index regions |

## Left out

- Superblock fields that `to_bytes` fills with constants (magic, version) and the checksum itself are not fields of the model's record; they are written and checked by `CopyBytes` and `FromBytes`.
- Bincode is concrete for the superblock and an abstract left-invertible encoding for shards; `to_bytes` of a shard never fails.
- Compressors, MD5 and random streams appear only through their round-trip laws; the stream compressors of multipart complete are one function of the parts.
- Device reads never fail, and a failed write reaches some prefix of its data. A failed write or sync during a flush is treated as the end of that writer: crash images still recover, later operations of the same process are not covered.
- Stores.RawStore.FlushIndex: the commit is promised when every dirty shard is shorter than 4 GB and the next transaction id fits 64 bits (`Countable`), because the source cuts shard lengths to 32 bits and increments the id unchecked; beyond that it is stated that an overflow-checked build stops before writing and that the recorded lengths are cut (`LengthsCut`). The pre-bucketing loop of the shards is the function `Shard`.
- Stores.RawStore.FlushShards: the run of the state machine is promised under the same condition as for FlushIndex.
- Stores.RawStore.Repair: the commit it ends with is promised under the same condition as for FlushIndex, which it calls; the free list is unchanged in every case.
- Multipart.RawMultipartUpload.Complete: objects and crash safety are promised when no stored part decodes to a length other than the recorded one (`PartsSound`), because the source sizes the destination from the recorded lengths; otherwise only index, free list, part keys and space accounting are, and a write past the end of the device is taken to fail at once.
- Reader.IndexReader.Follow: the free-list rebuild of a read-write reload is not modelled.
- Formatting.Format: takes one of the thirteen known compression codes, and assumes that the empty shard serializes to less than 64 KB and that the device is smaller than 2^64 bytes; creating and reopening the file is not modelled.
- ExtentIo.ReadBlockRange: says nothing of a range that ends before it starts.
- Stores.RawStore.PutFromFile: a write past the end of the device is taken to fail at once.
- Opening.Scan: tombstone reasons are not modelled; overlap removal compares neighbours only, so the store is proved in order for indexes the store flushed itself, not for arbitrary ones.
- HeatMap.ComputeHeat: balances for well placed entries on a device of at least the minimum size; the superblock's device size is taken to be the device's size.
- Listing.ListPage: takes the stored names below the bucket as given, no key stored twice; the store-side directory listing, ETags, owners and URL encoding are not modelled.
- Alignment is computed by rounding up, not with the source's bit mask; the two agree for the power-of-two alignment the store uses.
- Read-only mode, write protection flags other than at open, conditional puts, `copy_if_not_exists`, `rename_if_not_exists`, raw gets, listings of the raw store, import, export and scrubbing add only single-branch facts.
- Streaming GETs that outlive the read lock are not atomic in the source and nothing is claimed about them.
- Concurrency inside the store: the source holds one lock around each operation, so operations are atomic steps here.
- Cluster administration, health and recovery of sharded stores, HTTP handling, configuration and logging are not part of this model.
