/** The store: device, index, allocator and superblock, updated in place by one operation
    at a time. */
module Stores {
  import opened Crc32c
  import opened Base
  import opened Seqs
  import opened Blocks
  import opened Disks
  import opened Streaming
  import opened Allocators
  import opened Indexes
  import opened Layouts
  import opened Superblocks
  import opened Recovery
  import opened Protocol
  import opened CrashSafety
  import opened CrashRuns
  import opened FlushSteps
  import opened Objects
  import opened Space
  import opened ExtentIo

  class RawStore {
    const io: Device
    const g: Geometry
    const codec: ShardCodec
    const z: Compressor
    const maxKeyLength: nat
    var allocator: ExtentAllocator
    var index: Index
    var superblock: Superblock
    var shardDirty: seq<bool>
    var dirty: bool

    /** History of the protocol: the last commit, the device at that time, and the extents
        in use ever since. */
    ghost var com: Commit
    ghost var image: seq<byte>
    ghost var kept: set<Extent>

    ghost function State(): Machine
      reads this, io
    {
      Machine(Sys(io.disk, index, superblock, shardDirty, Idle), com, image, kept)
    }

    /** The allocator holds exactly the space no entry uses. */
    ghost predicate SpaceOk()
      reads this, allocator
    {
      g.Valid() && Placed(index.files, g.DataEnd()) && FreeListOk(allocator.freeList, index.files, g.DataEnd())
    }

    ghost predicate Valid()
      reads this, io, allocator
    {
      z.Lawful() && Inv(codec, g, State()) && SpaceOk() && Noted(shardDirty, dirty)
    }

    /** The plain map this store stands for. */
    ghost function Objects(): map<Key, Object>
      reads this, io
    {
      ObjectsOf(z, io.disk.live, index.files)
    }

    constructor (io: Device, g: Geometry, codec: ShardCodec, z: Compressor, maxKeyLength: nat,
                 allocator: ExtentAllocator, index: Index, superblock: Superblock, shardDirty: seq<bool>, dirty: bool,
                 ghost com: Commit, ghost image: seq<byte>, ghost kept: set<Extent>)
      ensures this.io == io && this.g == g && this.codec == codec && this.z == z && this.maxKeyLength == maxKeyLength
      ensures this.allocator == allocator && this.index == index && this.superblock == superblock
      ensures this.shardDirty == shardDirty && this.dirty == dirty
      ensures this.com == com && this.image == image && this.kept == kept
    {
      this.io, this.g, this.codec, this.z, this.maxKeyLength := io, g, codec, z, maxKeyLength;
      this.allocator, this.index, this.superblock, this.shardDirty := allocator, index, superblock, shardDirty;
      this.dirty := dirty;
      this.com, this.image, this.kept := com, image, kept;
    }

    // ---- Space -----------------------------------------------------------

    method Take(n: nat) returns (r: Result<nat>)
      requires SpaceOk() && n > 0 && n % BLOCK == 0
      modifies allocator
      ensures r.Ok? ==>
        && ReservedOk(allocator.freeList, index.files, Extent(r.value, n), g.DataEnd())
        && Unused(index.files, Extent(r.value, n), g.DataEnd())
        && forall y :: AllFree(old(allocator.freeList), y, n) ==> r.value <= y
      ensures r.Err? ==>
        && allocator.freeList == old(allocator.freeList) && r.error.NoSpace?
        && forall y :: !AllFree(allocator.freeList, y, n)
    {
      hide Covers, Total, Placed, Used, Canonical, Aligned;
      ghost var fl := allocator.freeList;
      r := allocator.Alloc(n);
      if r.Ok? {
        Reserve(fl, allocator.freeList, index.files, r.value, n, g.DataEnd());
      }
    }

    method Release(e: Extent, ghost fl: seq<Extent>)
      requires g.Valid() && FreeListOk(fl, index.files, g.DataEnd()) && e.len > 0
      requires ReservedOk(allocator.freeList, index.files, e, g.DataEnd()) && Unused(index.files, e, g.DataEnd())
      modifies allocator
      ensures allocator.freeList == fl
    {
      hide Covers, Total, Used, FreeListOk;
      ghost var fl1 := allocator.freeList;
      NothingCovered(fl1, index.files, e, g.DataEnd());
      allocator.Free(e.off, e.len);
      assert Extent(e.off, e.len) == e;
      GiveBack(fl, fl1, allocator.freeList, index.files, e, g.DataEnd());
    }

    /** Point `key` at a reserved extent, freeing the one it had. */
    method Install(key: Key, info: ExtentInfo, clearTombstone: bool)
      requires g.Valid() && Placed(index.files, g.DataEnd()) && WellPlaced(info, g.DataEnd()) && |shardDirty| == NUM_SHARDS
      requires ReservedOk(allocator.freeList, index.files, info.Place(), g.DataEnd())
      requires Unused(index.files, info.Place(), g.DataEnd())
      modifies this`index, this`shardDirty, this`dirty, allocator
      ensures index.files == old(index.files)[key := info]
      ensures index.tombs == if clearTombstone then old(index.tombs) - {key} else old(index.tombs)
      ensures shardDirty == old(shardDirty)[ShardFor(key) := true] && dirty
      ensures SpaceOk()
    {
      hide Covers, Total, Used, ShardFor, FreeListOk, Canonical;
      ghost var files, fl := index.files, allocator.freeList;
      NothingCovered(fl, files, info.Place(), g.DataEnd());
      PlacedInstall(files, key, info, g.DataEnd());
      if key in index.files {
        var oldInfo := index.files[key];
        assert WellPlaced(oldInfo, g.DataEnd());
        assert Canonical(fl);
        allocator.Free(oldInfo.offset, oldInfo.paddedSize);
        InstallOver(fl, allocator.freeList, files, key, info, g.DataEnd());
      } else {
        InstallFresh(fl, files, key, info, g.DataEnd());
      }
      index := Index(index.files[key := info], if clearTombstone then index.tombs - {key} else index.tombs);
      shardDirty := shardDirty[ShardFor(key) := true];
      dirty := true;
    }

    /** The store is as it was in `m`, except that `e` is reserved and may have been written. */
    ghost predicate Preparing(m: Machine, e: Extent, fl: seq<Extent>)
      reads this, io, allocator
    {
      Reserved(codec, g, m, State(), e, fl, allocator.freeList) && Noted(shardDirty, dirty)
    }

    /** Reserve an extent of `padded` bytes. */
    method PrepareExtent(padded: nat) returns (r: Result<Extent>)
      requires Valid() && padded > 0 && padded % BLOCK == 0
      modifies allocator
      ensures r.Ok? ==> Preparing(State(), r.value, old(allocator.freeList)) && io.disk == old(io.disk)
      ensures r.Ok? ==> InRegion(r.value, g.DataEnd())
      ensures r.Ok? ==> r.value.len == padded && r.value.End() <= |io.disk.live|
      ensures r.Ok? ==> forall y :: AllFree(old(allocator.freeList), y, padded) ==> r.value.off <= y
      ensures r.Err? ==> Valid() && allocator.freeList == old(allocator.freeList)
      ensures r.Err? ==> r.error.NoSpace? && forall y :: !AllFree(allocator.freeList, y, padded)
    {
      hide Inv, ObjectsOf, WroteWithin, ReservedOk, Unused, FreeListOk;
      Idling(codec, g, State());
      var taken := Take(padded);
      if taken.Err? {
        return Err(taken.error);
      }
      var e := Extent(taken.value, padded);
      OnDevice(codec, g, State(), e);
      WroteNothing(io.disk, e.off, e.End());
      r := Ok(e);
    }

    /** Reserve space for an extent of `size` content bytes. */
    method Prepare(size: nat) returns (r: Result<Extent>)
      requires Valid() && size > 0
      modifies allocator
      ensures r.Ok? ==> Preparing(State(), r.value, old(allocator.freeList)) && io.disk == old(io.disk)
      ensures r.Ok? ==> InRegion(r.value, g.DataEnd())
      ensures r.Ok? ==> r.value.len == NumBlocks(size) * BLOCK && r.value.End() <= |io.disk.live|
      ensures r.Ok? ==> forall y :: AllFree(old(allocator.freeList), y, r.value.len) ==> r.value.off <= y
      ensures r.Err? ==> Valid() && allocator.freeList == old(allocator.freeList)
      ensures r.Err? ==> NoRoom(r.error, size, allocator.freeList)
    {
      hide Inv, ObjectsOf, WroteWithin, ReservedOk, Unused, FreeListOk, Preparing;
      var paddedSize := PaddedExtentSize(size);
      if paddedSize.Err? {
        return Err(paddedSize.error);
      }
      r := PrepareExtent(paddedSize.value);
    }

    /** `e` is reserved, whatever has been written. */
    ghost predicate Staged(e: Extent, fl: seq<Extent>)
      reads this, allocator
    {
      && g.Valid() && Placed(index.files, g.DataEnd()) && FreeListOk(fl, index.files, g.DataEnd()) && |shardDirty| == NUM_SHARDS
      && ReservedOk(allocator.freeList, index.files, e, g.DataEnd()) && Unused(index.files, e, g.DataEnd())
    }

    lemma PreparingStaged(m: Machine, e: Extent, fl: seq<Extent>)
      requires Preparing(m, e, fl)
      ensures Staged(e, fl)
    {
      hide Inv, WroteWithin, Placed, FreeListOk, ReservedOk, Unused;
      InvPlaced(codec, g, m);
      Idling(codec, g, m);
    }

    /** Give the reservation back. `good` says that all writes stayed inside it. */
    method GiveUp(e: Extent, ghost m: Machine, ghost fl: seq<Extent>, ghost good: bool)
      requires Staged(e, fl) && e.len > 0 && (good ==> z.Lawful() && Preparing(m, e, fl))
      modifies this`kept, allocator
      ensures SpaceOk() && allocator.freeList == fl
      ensures good ==> Valid() && MutateNext(g, m, State()) && Objects() == ObjectsOf(z, m.sys.disk.live, m.sys.idx.files)
    {
      hide Inv, ObjectsOf, MutateNext, Placed;
      if good {
        Written(codec, g, z, m, io.disk, e);
      }
      hide WroteWithin;
      Release(e, fl);
      if good {
        kept := kept * PlaceSet(index.files);
      }
    }

    /** Give up: the reservation goes back and nothing has happened but writes to free space. */
    method Abandon(e: Extent, ghost m: Machine, ghost fl: seq<Extent>)
      requires z.Lawful() && Preparing(m, e, fl) && e.len > 0
      modifies this`kept, allocator
      ensures Valid() && MutateNext(g, m, State()) && allocator.freeList == fl
      ensures Objects() == ObjectsOf(z, m.sys.disk.live, m.sys.idx.files)
    {
      hide Inv, ObjectsOf, MutateNext, SpaceOk, Staged, Reserved;
      PreparingStaged(m, e, fl);
      GiveUp(e, m, fl, true);
    }

    /** Finish: `key` now lives in the reserved extent. */
    method Adopt(key: Key, info: ExtentInfo, clearTombstone: bool, ghost m: Machine, ghost fl: seq<Extent>)
      requires z.Lawful() && Preparing(m, info.Place(), fl) && WellPlaced(info, g.DataEnd())
      modifies this`index, this`shardDirty, this`dirty, this`kept, allocator
      ensures Valid() && MutateNext(g, m, State())
      ensures index.files == m.sys.idx.files[key := info]
      ensures index.tombs == if clearTombstone then m.sys.idx.tombs - {key} else m.sys.idx.tombs
      ensures ObjectsOf(z, io.disk.live, m.sys.idx.files) == ObjectsOf(z, m.sys.disk.live, m.sys.idx.files)
    {
      hide Inv, ObjectsOf, MutateNext, Placed, ShardFor, WellPlaced, DirtyMarked;
      Written(codec, g, z, m, io.disk, info.Place());
      InvPlaced(codec, g, m);
      Idling(codec, g, m);
      hide WroteWithin, FreeWrites;
      Install(key, info, clearTombstone);
      MarkOne(m.sys.idx, index, m.sys.dirty, key);
      kept := kept * PlaceSet(index.files);
      Mutated(codec, g, m, State());
    }

    /** Point `key` at the reserved extent. `good` says that all writes stayed inside it, and
        that it reads back as `obj`. */
    method Settle(key: Key, info: ExtentInfo, ghost obj: Object, ghost m: Machine, ghost fl: seq<Extent>, ghost good: bool)
      requires Staged(info.Place(), fl) && WellPlaced(info, g.DataEnd())
      requires good ==> z.Lawful() && Preparing(m, info.Place(), fl) && Intact(z, io.disk.live, info) && ObjectOf(z, io.disk.live, info) == obj
      modifies this`index, this`shardDirty, this`dirty, this`kept, allocator
      ensures SpaceOk() && |shardDirty| == NUM_SHARDS
      ensures index.files == old(index.files)[key := info] && index.tombs == old(index.tombs) - {key}
      ensures good ==> Valid() && MutateNext(g, m, State()) && Objects() == ObjectsOf(z, m.sys.disk.live, m.sys.idx.files)[key := obj]
    {
      hide Inv, ObjectsOf, MutateNext, Placed, ShardFor, WellPlaced, DirtyMarked, Intact;
      if good {
        Written(codec, g, z, m, io.disk, info.Place());
        Idling(codec, g, m);
      }
      hide WroteWithin, FreeWrites;
      Install(key, info, true);
      if good {
        MarkOne(m.sys.idx, index, m.sys.dirty, key);
        kept := kept * PlaceSet(index.files);
        Mutated(codec, g, m, State());
        ObjectsUpdate(z, io.disk.live, m.sys.idx.files, key, info, obj);
      }
    }

    /** Finish with an entry that reads back as `obj`. */
    method AdoptObject(key: Key, info: ExtentInfo, ghost obj: Object, ghost m: Machine, ghost fl: seq<Extent>)
      requires z.Lawful() && Preparing(m, info.Place(), fl) && WellPlaced(info, g.DataEnd())
      requires Intact(z, io.disk.live, info) && ObjectOf(z, io.disk.live, info) == obj
      modifies this`index, this`shardDirty, this`dirty, this`kept, allocator
      ensures Valid() && MutateNext(g, m, State()) && key !in index.tombs
      ensures index.files == m.sys.idx.files[key := info] && index.tombs == m.sys.idx.tombs - {key}
      ensures Objects() == ObjectsOf(z, m.sys.disk.live, m.sys.idx.files)[key := obj]
    {
      hide Inv, ObjectsOf, MutateNext, WellPlaced, Intact, Reserved, Staged, SpaceOk;
      ReservedIndex(codec, g, m, State(), info.Place(), fl, allocator.freeList);
      PreparingStaged(m, info.Place(), fl);
      Settle(key, info, obj, m, fl, true);
    }

    // ---- Put -------------------------------------------------------------

    /** Store a payload (body and metadata already concatenated). */
    method Put(key: Key, payload: seq<byte>, metaLen: nat, now: nat) returns (r: Result<()>)
      requires Valid()
      modifies this, io, allocator
      ensures Valid() && allocator == old(allocator) && MutateNext(g, old(State()), State())
      ensures r.Ok? ==> Objects() == old(Objects())[key := Object(payload, metaLen)] && key !in index.tombs
      ensures r.Ok? ==> OnlyKeyChanged(old(index), index, key)
      ensures r.Ok? ==> Stamped(index.files, key, superblock.txnId, now)
      ensures r.Ok? ==> StoredAs(z, index.files, key, payload, metaLen)
      ensures r.Err? ==>
        index == old(index) && allocator.freeList == old(allocator.freeList) && Objects() == old(Objects())
      ensures payload == [] ==> r == Err(EmptyPayload)
      ensures payload != [] && |key| > maxKeyLength ==> r == Err(KeyTooLong(|key|, maxKeyLength))
      ensures r.Err? ==> PutRefused(r.error, key, maxKeyLength, |StoredForm(z, payload).0|, old(allocator.freeList), io.Reliable())
    {
      hide Inv, SpaceOk, ObjectsOf, MutateNext, Encode, Crc, ShardFor;
      Idling(codec, g, State());
      if payload == [] {
        return Err(EmptyPayload);
      }
      if |key| > maxKeyLength {
        return Err(KeyTooLong(|key|, maxKeyLength));
      }
      var (stored, uncompressed) := StoredForm(z, payload);
      r := PutStored(key, stored, uncompressed, metaLen, now, payload);
    }

    /** Allocate, write and install an already chosen stored form. */
    method PutStored(key: Key, stored: seq<byte>, uncompressed: nat, metaLen: nat, now: nat, ghost payload: seq<byte>)
      returns (r: Result<()>)
      requires Valid() && payload != [] && (stored, uncompressed) == StoredForm(z, payload)
      modifies this, io, allocator
      ensures Valid() && allocator == old(allocator) && MutateNext(g, old(State()), State())
      ensures r.Ok? ==> Objects() == old(Objects())[key := Object(payload, metaLen)] && key !in index.tombs
      ensures r.Ok? ==> OnlyKeyChanged(old(index), index, key)
      ensures r.Ok? ==> Stamped(index.files, key, superblock.txnId, now)
      ensures r.Ok? ==> StoredAs(z, index.files, key, payload, metaLen)
      ensures r.Err? ==>
        index == old(index) && allocator.freeList == old(allocator.freeList) && Objects() == old(Objects())
      ensures r.Err? ==> NoRoom(r.error, |stored|, old(allocator.freeList)) || (r.error.Io? && !io.Reliable())
    {
      hide Inv, ObjectsOf, MutateNext, Encode, Crc, ShardFor, WroteWithin, SpaceOk, Reserved, Placed;
      ghost var m, fl := State(), allocator.freeList;
      Idling(codec, g, m);
      StoredNonEmpty(z, payload);
      var prepared := Prepare(|stored|);
      if prepared.Err? {
        return Err(prepared.error);
      }
      var e := prepared.value;
      ghost var start := State();
      var ok, crc := WritePayload(io, e.off, stored);
      StillReserved(codec, g, m, start, io.disk, e, fl, allocator.freeList);
      if !ok {
        Abandon(e, m, fl);
        return Err(Io);
      }
      var info := ExtentInfo(e.off, |stored|, e.len, crc, superblock.txnId, now, metaLen, uncompressed);
      WrittenIsIntact(z, io.disk.live, payload, info);
      hide Intact;
      AdoptObject(key, info, Object(payload, metaLen), m, fl);
      r := Ok(());
    }

    /** Concatenate body and metadata and store them as one payload. */
    method PutWithMeta(key: Key, body: seq<byte>, metadata: seq<byte>, now: nat) returns (r: Result<()>)
      requires Valid()
      modifies this, io, allocator
      ensures Valid() && MutateNext(g, old(State()), State())
      ensures r.Ok? ==>
        && key in Objects() && Objects()[key].Body() == body && Objects()[key].Meta() == metadata
        && Objects() == old(Objects())[key := Objects()[key]]
      ensures r.Ok? ==> OnlyKeyChanged(old(index), index, key) && Stamped(index.files, key, superblock.txnId, now)
      ensures r.Ok? ==> StoredAs(z, index.files, key, body + metadata, |metadata|)
      ensures r.Err? ==>
        index == old(index) && allocator.freeList == old(allocator.freeList) && Objects() == old(Objects())
      ensures |metadata| > U16_MAX ==> r == Err(MetadataTooLarge(|metadata|, U16_MAX))
      ensures r.Err? && |metadata| <= U16_MAX ==>
        PutRefused(r.error, key, maxKeyLength, |StoredForm(z, body + metadata).0|, old(allocator.freeList), io.Reliable())
    {
      hide Inv, SpaceOk, ObjectsOf, MutateNext;
      Idling(codec, g, State());
      if |metadata| > U16_MAX {
        return Err(MetadataTooLarge(|metadata|, U16_MAX));
      }
      assert (body + metadata)[..|body|] == body && (body + metadata)[|body|..] == metadata;
      r := Put(key, body + metadata, |metadata|, now);
    }

    /** Store a payload that is read from a file in chunks of any sizes. The extent is sized by
        the length the file reports. The object is right exactly when that is the number of
        bytes read, and the rest of the store is safe as long as they need no more blocks. */
    method PutFromFile(key: Key, reported: nat, chunks: seq<seq<byte>>, metaLen: nat, now: nat) returns (r: Result<()>)
      requires Valid()
      modifies this, io, allocator
      ensures z.enabled || reported == 0 || Contained(reported, chunks) ==>
        Valid() && MutateNext(g, old(State()), State()) && Objects() - {key} == old(Objects()) - {key}
      ensures r.Ok? && (z.enabled || reported == |Concat(chunks)|) ==>
        Objects() == old(Objects())[key := Object(Concat(chunks), metaLen)]
      ensures r.Ok? && !z.enabled ==>
        && (HoldsObject(Objects(), key, Object(Concat(chunks), metaLen)) <==> reported == |Concat(chunks)|)
        && Spilled(io.disk.live, index.files, key, reported, Concat(chunks))
      ensures r.Ok? ==> Stamped(index.files, key, superblock.txnId, now) && OnlyKeyChanged(old(index), index, key)
      ensures r.Err? ==> index == old(index) && allocator.freeList == old(allocator.freeList)
      ensures r.Err? && (z.enabled || reported == |Concat(chunks)|) ==>
        && Objects() == old(Objects())
        && PutRefused(r.error, key, maxKeyLength, |StoredForm(z, Concat(chunks)).0|, old(allocator.freeList), io.Reliable())
    {
      hide Inv, ObjectsOf, MutateNext, SpaceOk, Reserved, Concat, Spilled, Intact, Payload;
      ghost var m, fl := State(), allocator.freeList;
      Idling(codec, g, m);
      if z.enabled {
        r := Put(key, Concat(chunks), metaLen, now);
        SameBut(old(Objects()), Objects(), key);
        return;
      }
      if reported == 0 {
        return Err(EmptyPayload);
      }
      if |key| > maxKeyLength {
        return Err(KeyTooLong(|key|, maxKeyLength));
      }
      var prepared := Prepare(reported);
      if prepared.Err? {
        return Err(prepared.error);
      }
      if NumBlocks(|Concat(chunks)|) <= NumBlocks(reported) {
        r := StreamFile(key, prepared.value, reported, chunks, metaLen, now, m, fl);
      } else {
        r := StreamOver(key, prepared.value, reported, chunks, metaLen, now, m, fl);
      }
      if r.Ok? {
        SpilledObject(z, io.disk.live, index.files, key, reported, Concat(chunks));
      }
    }

    /** The bytes read need no more blocks than were reserved. */
    method StreamFile(key: Key, e: Extent, reported: nat, chunks: seq<seq<byte>>, metaLen: nat, now: nat, ghost m: Machine, ghost fl: seq<Extent>)
      returns (r: Result<()>)
      requires z.Lawful() && Preparing(m, e, fl) && io.disk == m.sys.disk && InRegion(e, g.DataEnd()) && e.End() <= |io.disk.live|
      requires reported > 0 && Contained(reported, chunks) && e.len == NumBlocks(reported) * BLOCK
      modifies this, io, allocator
      ensures Valid() && MutateNext(g, m, State()) && Objects() - {key} == old(Objects()) - {key}
      ensures r.Ok? && reported == |Concat(chunks)| ==> Objects() == old(Objects())[key := Object(Concat(chunks), metaLen)]
      ensures r.Ok? ==> Spilled(io.disk.live, index.files, key, reported, Concat(chunks))
      ensures r.Ok? ==> Stamped(index.files, key, superblock.txnId, now) && OnlyKeyChanged(old(index), index, key) && index.files[key].metaLen == metaLen
      ensures r.Err? ==> index == old(index) && allocator.freeList == fl && Objects() == old(Objects())
      ensures r.Err? ==> r.error.Io? && !io.Reliable()
    {
      hide Inv, ObjectsOf, MutateNext, Encode, Crc, WroteWithin, SpaceOk, Reserved, Placed, Concat, Intact;
      ghost var start := State();
      assert index == m.sys.idx by { ReservedIndex(codec, g, m, start, e, fl, allocator.freeList); }
      BlocksInOrder(|Concat(chunks)|, reported);
      var ok, crc := StreamChunks(io, e.off, chunks);
      WroteWithinWiden(m.sys.disk, io.disk, e.off, e.off + NumBlocks(|Concat(chunks)|) * BLOCK, e.off, e.End());
      StillReserved(codec, g, m, start, io.disk, e, fl, allocator.freeList);
      if !ok {
        Abandon(e, m, fl);
        return Err(Io);
      }
      var info := ExtentInfo(e.off, reported, e.len, crc, superblock.txnId, now, metaLen, 0);
      if reported == |Concat(chunks)| {
        PlainIsIntact(z, io.disk.live, Concat(chunks), info);
      }
      Adopt(key, info, true, m, fl);
      ObjectsPut(z, io.disk.live, m.sys.idx.files, key, info);
      r := Ok(());
    }

    /** The file turned out longer than reported by whole blocks: the writer runs over the end
        of the extent into whatever follows it. */
    method StreamOver(key: Key, e: Extent, reported: nat, chunks: seq<seq<byte>>, metaLen: nat, now: nat, ghost m: Machine, ghost fl: seq<Extent>)
      returns (r: Result<()>)
      requires Preparing(m, e, fl) && InRegion(e, g.DataEnd()) && reported > 0 && e.len == NumBlocks(reported) * BLOCK
      modifies this, io, allocator
      ensures r.Ok? ==> Spilled(io.disk.live, index.files, key, reported, Concat(chunks))
      ensures r.Ok? ==> Stamped(index.files, key, superblock.txnId, now) && OnlyKeyChanged(old(index), index, key) && index.files[key].metaLen == metaLen
      ensures r.Err? ==> index == old(index) && allocator.freeList == fl
    {
      hide Inv, Encode, Crc, WroteWithin, FreeListOk, ReservedOk, Unused, Placed, Concat, ShardFor;
      InvPlaced(codec, g, m);
      Idling(codec, g, m);
      var ok, crc := false, 0;
      if e.off + NumBlocks(|Concat(chunks)|) * BLOCK <= |io.disk.live| {
        ghost var d := io.disk;
        ok, crc := StreamChunks(io, e.off, chunks);
        WroteSize(d, io.disk, e.off, e.off + NumBlocks(|Concat(chunks)|) * BLOCK);
      }
      if !ok {
        Release(e, fl);
        return Err(Io);
      }
      Install(key, ExtentInfo(e.off, reported, e.len, crc, superblock.txnId, now, metaLen, 0), true);
      r := Ok(());
    }

    // ---- Metadata ----------------------------------------------------------

    /** Replace an object's metadata and keep its body. */
    method UpdateMetadata(key: Key, metadata: seq<byte>, now: nat) returns (r: Result<()>)
      requires Valid()
      modifies this, io, allocator
      ensures Valid() && allocator == old(allocator) && MutateNext(g, old(State()), State())
      ensures r.Ok? ==>
        key in old(index.files) && key !in index.tombs && MetadataReplaced(old(Objects()), Objects(), key, metadata)
      ensures r.Ok? ==> OnlyKeyChanged(old(index), index, key) && Stamped(index.files, key, superblock.txnId, now)
      ensures r.Err? ==>
        index == old(index) && allocator.freeList == old(allocator.freeList) && Objects() == old(Objects())
      ensures |metadata| > U16_MAX ==> r == Err(MetadataTooLarge(|metadata|, U16_MAX))
      ensures |metadata| <= U16_MAX && key !in old(index.files) ==> r == Err(NotFound)
      ensures key in old(Objects()) && |metadata| <= U16_MAX ==>
        MetadataOutcome(z, old(index.files)[key].uncompressedSize > 0, old(Objects())[key], metadata, r, key, maxKeyLength,
                        old(allocator.freeList), io.Reliable())
    {
      hide Inv, SpaceOk, ObjectsOf, MutateNext, Intact, Payload;
      Idling(codec, g, State());
      if |metadata| > U16_MAX {
        return Err(MetadataTooLarge(|metadata|, U16_MAX));
      }
      ObjectsAt(z, io.disk.live, index.files, key);
      if key !in index.files {
        return Err(NotFound);
      }
      var info := index.files[key];
      if info.uncompressedSize > 0 {
        r := UpdateCompressedMetadata(key, metadata, now);
      } else {
        r := UpdatePlainMetadata(key, metadata, now);
      }
    }

    /** The body of a compressed object, decompressed in memory. */
    method CompressedBody(key: Key) returns (r: Result<seq<byte>>)
      requires Valid() && key in index.files && index.files[key].uncompressedSize > 0
      ensures key in Objects() ==> r == Ok(Objects()[key].Body())
    {
      hide Inv, SpaceOk, ObjectsOf, Intact, Payload;
      var info := index.files[key];
      ObjectsAt(z, io.disk.live, index.files, key);
      var bodySize := SaturatingSub(info.uncompressedSize, info.metaLen);
      if bodySize == 0 {
        return Ok([]);
      }
      var got := Get(key);
      if got.Err? {
        return Err(got.error);
      }
      if |got.value| < bodySize {
        return Err(Panic);
      }
      r := Ok(got.value[..bodySize]);
    }

    /** The buffered path: decompress, replace the suffix, put. */
    method UpdateCompressedMetadata(key: Key, metadata: seq<byte>, now: nat) returns (r: Result<()>)
      requires Valid() && key in index.files && index.files[key].uncompressedSize > 0
      modifies this, io, allocator
      ensures Valid() && allocator == old(allocator) && MutateNext(g, old(State()), State())
      ensures r.Ok? ==> key !in index.tombs && MetadataReplaced(old(Objects()), Objects(), key, metadata)
      ensures r.Ok? ==> OnlyKeyChanged(old(index), index, key) && Stamped(index.files, key, superblock.txnId, now)
      ensures r.Err? ==>
        index == old(index) && allocator.freeList == old(allocator.freeList) && Objects() == old(Objects())
      ensures key in old(Objects()) ==>
        MetadataOutcome(z, old(index.files)[key].uncompressedSize > 0, old(Objects())[key], metadata, r, key, maxKeyLength,
                        old(allocator.freeList), io.Reliable())
    {
      hide Inv, SpaceOk, ObjectsOf, MutateNext, Intact, Payload, MetadataReplaced;
      Idling(codec, g, State());
      var body := CompressedBody(key);
      if body.Err? {
        return Err(body.error);
      }
      r := Put(key, body.value + metadata, |metadata|, now);
      if r.Ok? {
        Replaced(old(Objects()), Objects(), key, body.value, metadata);
      }
    }

    /** The streaming path, for objects stored as they are. */
    method UpdatePlainMetadata(key: Key, metadata: seq<byte>, now: nat) returns (r: Result<()>)
      requires Valid() && key in index.files && index.files[key].uncompressedSize == 0
      modifies this, io, allocator
      ensures Valid() && allocator == old(allocator) && MutateNext(g, old(State()), State())
      ensures r.Ok? ==>
        key in old(index.files) && key !in index.tombs && MetadataReplaced(old(Objects()), Objects(), key, metadata)
      ensures r.Ok? ==> OnlyKeyChanged(old(index), index, key) && Stamped(index.files, key, superblock.txnId, now)
      ensures r.Err? ==>
        index == old(index) && allocator.freeList == old(allocator.freeList) && Objects() == old(Objects())
      ensures key in old(Objects()) ==>
        MetadataOutcome(z, old(index.files)[key].uncompressedSize > 0, old(Objects())[key], metadata, r, key, maxKeyLength,
                        old(allocator.freeList), io.Reliable())
    {
      hide Inv, ObjectsOf, MutateNext, Encode, Crc, ShardFor, WroteWithin, SpaceOk, FreeListOk, ReservedOk, Intact, ContentAt;
      ghost var m, fl := State(), allocator.freeList;
      Idling(codec, g, m);
      var info := index.files[key];
      var bodySize := SaturatingSub(info.size, info.metaLen);
      assert WellPlaced(info, g.DataEnd()) by { InvPlaced(codec, g, m); }
      OnDeviceToo(codec, g, m, info);
      PlainObject(z, io.disk.live, index.files, key);
      hide Placed;
      var size := bodySize + |metadata|;
      if size == 0 {
        return Err(EmptyPayload);
      }
      var prepared := Prepare(size);
      if prepared.Err? {
        return Err(prepared.error);
      }
      r := RewriteInto(prepared.value, key, metadata, now, m, fl);
    }

    /** Stream the body and the new metadata into the reserved extent and switch over. */
    method RewriteInto(e: Extent, key: Key, metadata: seq<byte>, now: nat, ghost m: Machine, ghost fl: seq<Extent>)
      returns (r: Result<()>)
      requires z.Lawful() && Preparing(m, e, fl) && io.disk == m.sys.disk && key in index.files
      requires index.files[key].uncompressedSize == 0
      requires
        var size := SaturatingSub(index.files[key].size, index.files[key].metaLen) + |metadata|;
        size > 0 && e.len == NumBlocks(size) * BLOCK
      modifies this, io, allocator
      ensures Valid() && allocator == old(allocator) && MutateNext(g, m, State())
      ensures r.Ok? ==> key !in index.tombs && MetadataReplaced(old(Objects()), Objects(), key, metadata)
      ensures r.Ok? ==> OnlyKeyChanged(old(index), index, key) && Stamped(index.files, key, superblock.txnId, now)
      ensures r.Err? ==> index == old(index) && allocator.freeList == fl && Objects() == old(Objects())
      ensures r.Err? ==> (r.error.DataCorruption? && key !in old(Objects())) || (r.error.Io? && !io.Reliable())
    {
      hide Inv, ObjectsOf, MutateNext, Encode, Crc, WroteWithin, SpaceOk, Intact, ContentAt, Reserved, MetadataReplaced, Placed, ObjectOf;
      var info := index.files[key];
      var bodySize := SaturatingSub(info.size, info.metaLen);
      ghost var start := State();
      RewriteReady(key, e, m, fl);
      PlainObject(z, io.disk.live, index.files, key);
      var crc, body := RewriteSuffix(io, info.offset, info.size, bodySize, e.off, metadata);
      StillReserved(codec, g, m, start, io.disk, e, fl, allocator.freeList);
      if crc.Err? {
        Abandon(e, m, fl);
        return Err(crc.error);
      }
      var info' := ExtentInfo(e.off, bodySize + |metadata|, e.len, crc.value, superblock.txnId, now, |metadata|, 0);
      PlainIsIntact(z, io.disk.live, body + metadata, info');
      AdoptObject(key, info', Object(body + metadata, |metadata|), m, fl);
      NewSuffix(z, m.sys.disk.live, m.sys.idx.files, key, body, metadata, Objects());
      r := Ok(());
    }

    lemma RewriteReady(key: Key, e: Extent, m: Machine, fl: seq<Extent>)
      requires Preparing(m, e, fl) && key in index.files
      ensures index == m.sys.idx && g.Valid() && e.End() <= |io.disk.live| && InRegion(e, g.DataEnd())
      ensures WellPlaced(index.files[key], g.DataEnd()) && index.files[key].Place().End() <= |io.disk.live|
      ensures index.files[key].Place().Disjoint(e)
    {
      hide Inv, WroteWithin, FreeListOk, ReservedOk;
      InvPlaced(codec, g, m);
      OnDeviceToo(codec, g, m, index.files[key]);
      OnDevice(codec, g, m, e);
      WroteSize(m.sys.disk, io.disk, e.off, e.End());
    }

    /** Record how many trailing bytes of an object are metadata. */
    method SetMetaLen(key: Key, metaLen: nat) returns (r: Result<()>)
      requires Valid()
      modifies this
      ensures Valid() && MutateNext(g, old(State()), State())
      ensures r.Ok? <==> key in old(index.files)
      ensures r.Ok? ==>
        Objects() == if key in old(Objects()) then old(Objects())[key := Object(old(Objects())[key].payload, metaLen)]
                     else old(Objects())
      ensures r.Ok? ==> index == Index(old(index.files)[key := old(index.files)[key].(metaLen := metaLen)], old(index.tombs))
      ensures r.Err? ==> r == Err(NotFound) && index == old(index)
    {
      hide Inv, ObjectsOf, MutateNext, ShardFor, Placed, FreeListOk, FreeWrites, DirtyMarked, Intact;
      ghost var m := State();
      Idling(codec, g, m);
      if key !in index.files {
        return Err(NotFound);
      }
      var info := index.files[key].(metaLen := metaLen);
      SameSpace(allocator.freeList, index.files, key, info, g.DataEnd());
      MetaLenObjects(z, io.disk.live, index.files, key, info);
      index := Index(index.files[key := info], index.tombs);
      MarkOne(m.sys.idx, index, shardDirty, key);
      shardDirty := shardDirty[ShardFor(key) := true];
      dirty := true;
      NoWrites(io.disk, m.sys.idx.files, g.DataEnd());
      kept := kept * PlaceSet(index.files);
      Mutated(codec, g, m, State());
      r := Ok(());
    }

    // ---- Copy, rename, delete --------------------------------------------

    /** Copy an object's blocks as they are. A damaged source makes a damaged copy. */
    method Copy(from: Key, to: Key, now: nat) returns (r: Result<()>)
      requires Valid()
      modifies this, io, allocator
      ensures Valid() && MutateNext(g, old(State()), State())
      ensures r.Ok? ==> from in old(index.files) && index.tombs == old(index.tombs)
      ensures r.Ok? ==>
        Objects() == if from in old(Objects()) then old(Objects())[to := old(Objects())[from]] else old(Objects()) - {to}
      ensures r.Ok? ==> CopiedTo(old(index.files), index.files, from, to, superblock.txnId, now)
      ensures r.Err? ==>
        index == old(index) && allocator.freeList == old(allocator.freeList) && Objects() == old(Objects())
      ensures |to| > maxKeyLength ==> r == Err(KeyTooLong(|to|, maxKeyLength))
      ensures |to| <= maxKeyLength && from !in old(index.files) ==> r == Err(NotFound)
      ensures r.Err? && from in old(index.files) ==>
        PutRefused(r.error, to, maxKeyLength, old(index.files)[from].size, old(allocator.freeList), io.Reliable())
    {
      hide Inv, ObjectsOf, MutateNext, ShardFor, WroteWithin, SpaceOk, FreeListOk, ReservedOk, Intact, SameBytes;
      ghost var m, fl := State(), allocator.freeList;
      Idling(codec, g, m);
      if |to| > maxKeyLength {
        return Err(KeyTooLong(|to|, maxKeyLength));
      }
      if from !in index.files {
        return Err(NotFound);
      }
      var info := index.files[from];
      InvPlaced(codec, g, m);
      assert WellPlaced(info, g.DataEnd());
      hide Placed;
      var prepared := PrepareExtent(info.paddedSize);
      if prepared.Err? {
        return Err(prepared.error);
      }
      var e := prepared.value;
      assert info.Place().Disjoint(e);
      OnDeviceToo(codec, g, m, info);
      var ok := CopyBlocks(io, info.offset, e.off, info.paddedSize);
      if !ok {
        Abandon(e, m, fl);
        return Err(Io);
      }
      WroteSize(m.sys.disk, io.disk, e.off, e.End());
      var copy := info.(offset := e.off, createdTxn := superblock.txnId, lastModified := now);
      CopiedEntry(z, m.sys.disk.live, io.disk.live, info, copy);
      Adopt(to, copy, false, m, fl);
      CopiedObjects(z, m.sys.disk.live, io.disk.live, m.sys.idx.files, from, to, copy);
      r := Ok(());
    }

    /** Give an entry's extent back. The entry itself is about to go. */
    method FreeEntry(key: Key)
      requires SpaceOk() && key in index.files
      modifies allocator
      ensures FreeListOk(allocator.freeList, index.files - {key}, g.DataEnd()) && Placed(index.files - {key}, g.DataEnd())
    {
      hide Covers, Used, Canonical, Total;
      ghost var fl := allocator.freeList;
      var info := index.files[key];
      assert WellPlaced(info, g.DataEnd());
      InUseNotFree(fl, index.files, key, g.DataEnd());
      allocator.Free(info.offset, info.paddedSize);
      Remove(fl, allocator.freeList, index.files, key, g.DataEnd());
    }

    /** Remove an entry and free its extent. */
    method Delete(key: Key)
      requires Valid()
      modifies this, allocator
      ensures Valid() && MutateNext(g, old(State()), State()) && io.disk == old(io.disk)
      ensures allocator == old(allocator)
      ensures index.files == old(index.files) - {key} && index.tombs == old(index.tombs)
      ensures Objects() == old(Objects()) - {key}
    {
      hide Inv, ObjectsOf, MutateNext, SpaceOk;
      Idling(codec, g, State());
      Drop(key, true);
    }

    /** The removal itself. `good` says that the store is in order. */
    method Drop(key: Key, ghost good: bool)
      requires SpaceOk() && |shardDirty| == NUM_SHARDS && (good ==> Valid())
      modifies this, allocator
      ensures SpaceOk() && |shardDirty| == NUM_SHARDS && allocator == old(allocator) && io.disk == old(io.disk)
      ensures index.files == old(index.files) - {key} && index.tombs == old(index.tombs)
      ensures good ==> Valid() && MutateNext(g, old(State()), State()) && Objects() == old(Objects()) - {key}
    {
      hide Inv, ObjectsOf, MutateNext, ShardFor, Placed, FreeListOk, FreeWrites, DirtyMarked;
      ghost var m := State();
      if good {
        Idling(codec, g, m);
      }
      ObjectsRemove(z, io.disk.live, index.files, key);
      NoWrites(io.disk, index.files, g.DataEnd());
      if key in index.files {
        FreeEntry(key);
        index := Index(index.files - {key}, index.tombs);
        MarkOne(m.sys.idx, index, shardDirty, key);
        shardDirty := shardDirty[ShardFor(key) := true];
        dirty := true;
        if good {
          kept := kept * PlaceSet(index.files);
          Mutated(codec, g, m, State());
        }
      } else {
        assert index.files - {key} == index.files;
      }
    }

    /** Move an entry to another key, dropping what that key had. */
    method Rename(from: Key, to: Key) returns (r: Result<()>)
      requires Valid()
      modifies this, allocator
      ensures Valid() && MutateNext(g, old(State()), State()) && io.disk == old(io.disk)
      ensures allocator == old(allocator)
      ensures r.Ok? <==> from in old(index.files) && |to| <= maxKeyLength
      ensures index.tombs == old(index.tombs)
      ensures r.Ok? ==> index.files == (old(index.files) - {from})[to := old(index.files)[from]]
      ensures r.Ok? ==>
        Objects() == if from in old(Objects()) then (old(Objects()) - {from})[to := old(Objects())[from]]
                     else old(Objects()) - {from, to}
      ensures r.Err? ==> index == old(index) && allocator.freeList == old(allocator.freeList)
      ensures |to| > maxKeyLength ==> r == Err(KeyTooLong(|to|, maxKeyLength))
      ensures |to| <= maxKeyLength && from !in old(index.files) ==> r == Err(NotFound)
    {
      hide Inv, ObjectsOf, MutateNext, ShardFor, Placed, FreeListOk, FreeWrites, DirtyMarked, Intact;
      ghost var m, files := State(), index.files;
      Idling(codec, g, m);
      if |to| > maxKeyLength {
        return Err(KeyTooLong(|to|, maxKeyLength));
      }
      if from !in index.files {
        return Err(NotFound);
      }
      var info := index.files[from];
      var rest := index.files - {from};
      ghost var cleared := files;
      if to in rest {
        FreeEntry(to);
        cleared := files - {to};
      }
      MoveKey(allocator.freeList, cleared, from, to, g.DataEnd());
      index := Index(rest[to := info], index.tombs);
      assert index.files == (cleared - {from})[to := info];
      MarkTwo(m.sys.idx, index, shardDirty, from, to);
      shardDirty := shardDirty[ShardFor(from) := true];
      shardDirty := shardDirty[ShardFor(to) := true];
      dirty := true;
      NoWrites(io.disk, files, g.DataEnd());
      kept := kept * PlaceSet(index.files);
      Mutated(codec, g, m, State());
      RenamedObjects(z, io.disk.live, files, from, to);
      r := Ok(());
    }

    // ---- Flush -----------------------------------------------------------

    /** Write shard `i` to the slot that is not active and flip its entry in memory. The entry
        records the length on 32 bits. */
    method FlushShard(i: nat) returns (r: Result<()>)
      requires Writable(g, State().sys) && i < NUM_SHARDS && shardDirty[i]
      modifies this`superblock, io
      ensures Writable(g, State().sys)
      ensures r.Ok? ==> ShardOut(codec, g, old(State()).sys, State().sys, i)
      ensures r.Err? && r.error.ShardOverflow? ==> r.error.shard == i && State() == old(State()) && !SlotHolds(codec, g, State().sys, i)
      ensures r.Err? && !r.error.ShardOverflow? ==>
        r.error.Io? && !io.Reliable() && ShardCutShort(codec, g, old(State()).sys, State().sys, i)
    {
      hide Checksum, Shard, Patch, WroteWithin;
      ghost var d := io.disk;
      var bytes := codec.enc(Shard(index, i));
      if |bytes| > g.SlotSize() {
        return Err(ShardOverflow(i, |bytes|, g.SlotSize()));
      }
      var slot := 1 - superblock.slots[i].active;
      SlotsApart(g, slot, i, 0, 0);
      var ok := io.Pwrite(g.SlotOffset(slot, i), bytes);
      WroteSize(d, io.disk, g.SlotOffset(slot, i), g.SlotOffset(slot, i) + |bytes|);
      if !ok {
        return Err(Io);
      }
      superblock := superblock.(slots := superblock.slots[i := SlotMeta(slot, |bytes| % U32_LIMIT, Checksum(bytes))]);
      r := Ok(());
    }

    /** Write every dirty shard. */
    method FlushShards() returns (r: Result<()>)
      requires Inv(codec, g, State())
      modifies this`superblock, io
      ensures Writable(g, State().sys) && superblock.txnId == old(superblock.txnId)
      ensures r.Ok? ==> forall i :: 0 <= i < NUM_SHARDS && shardDirty[i] ==>
        superblock.slots[i].size == |codec.enc(Shard(index, i))| % U32_LIMIT
      ensures r.Err? ==> r.error.ShardOverflow? || (r.error.Io? && !io.Reliable())
      ensures r.Err? && r.error.ShardOverflow? && NoneBelow(shardDirty, r.error.shard) ==> State() == old(State())
      ensures Countable(codec, old(State()).sys) && r.Ok? ==>
        && CanFlush(codec, g, old(State()).sys)
        && FlushRun(codec, g, old(State()), 257) == State().(sys := State().sys.(phase := Writing(NUM_SHARDS)))
      ensures Countable(codec, old(State()).sys) && r.Err? ==>
        && Recoverable(codec, g, io.disk, com, Commit(superblock, index))
        && (r.error.ShardOverflow? ==> Aborted(codec, g, State(), r.error.shard))
    {
      hide Inv, FlushRun, Recoverable, SlotHolds, ShardOut, ShardCutShort, Aborted, CanFlush, Shard, Passed;
      ghost var m := State();
      PassStart(codec, g, m);
      for i := 0 to NUM_SHARDS
        invariant Passed(codec, g, m, State(), i)
      {
        ghost var before := State();
        PassShape(codec, g, m, before, i);
        if shardDirty[i] {
          r := FlushShard(i);
          if r.Err? {
            PassFails(codec, g, m, before, State(), i, r);
            return;
          }
        }
        PassNext(codec, g, m, before, State(), i);
      }
      PassEnd(codec, g, m, State());
      r := Ok(());
    }

    /** Sync the shards before anything points to them. */
    method SyncShards(ghost m: Machine, ghost good: bool) returns (r: Result<()>)
      requires good ==> Inv(codec, g, m) && m.sys.phase.Idle? && CanFlush(codec, g, m.sys)
      requires good ==> FlushRun(codec, g, m, 257) == State().(sys := State().sys.(phase := Writing(NUM_SHARDS)))
      modifies io
      ensures |io.disk.live| == old(|io.disk.live|)
      ensures r.Err? ==> r.error.Io? && !io.Reliable()
      ensures good && r.Ok? ==> FlushRun(codec, g, m, 258) == State().(sys := State().sys.(phase := ShardsSynced))
      ensures good && r.Err? ==> Recoverable(codec, g, io.disk, m.com, Commit(superblock, index))
    {
      hide Inv, FlushRun, Recoverable, CanFlush, Steppable;
      if good {
        FlushRunStep(codec, g, m, 257);
      }
      var ok := io.Sync();
      if !ok {
        if good {
          InvRecoverable(codec, g, FlushRun(codec, g, m, 257));
        }
        return Err(Io);
      }
      r := Ok(());
    }

    /** Write and sync the primary copy of the next superblock. The transaction id is
        incremented on 64 bits. */
    method WritePrimary(ghost m: Machine, ghost good: bool) returns (r: Result<()>)
      requires Writable(g, State().sys)
      requires good ==> Inv(codec, g, m) && m.sys.phase.Idle? && CanFlush(codec, g, m.sys) && superblock.txnId == m.sys.sb.txnId
      requires good ==> FlushRun(codec, g, m, 258) == State().(sys := State().sys.(phase := ShardsSynced))
      modifies this`superblock, io
      ensures Writable(g, State().sys) && superblock.slots == old(superblock.slots)
      ensures r.Err? ==> r.error.Io? && !io.Reliable()
      ensures good && r.Ok? ==> FlushRun(codec, g, m, 260).sys == State().sys.(phase := PrimaryDurable)
      ensures good && r.Err? ==> Recoverable(codec, g, io.disk, m.com, Commit(superblock, index))
    {
      hide Inv, FlushRun, Recoverable, CanFlush, Steppable, CopyBytes, WroteWithin, Patch;
      ghost var p := FlushRun(codec, g, m, 258);
      if good {
        RoomForNext(codec, g, m.sys);
        FlushRunStep(codec, g, m, 258);
      }
      superblock := NextSuperblock(superblock).(txnId := (superblock.txnId + 1) % U64_LIMIT);
      var bytes := ToBytes(superblock);
      ghost var d := io.disk;
      var ok := io.Pwrite(0, bytes.value);
      WroteSize(d, io.disk, 0, SUPERBLOCK_SIZE);
      if !ok {
        if good {
          ghost var k: nat :| k <= |bytes.value| && io.disk == p.sys.disk.Written(0, bytes.value[..k]);
          FailedPrimary(codec, g, p, k);
        }
        return Err(Io);
      }
      p := FlushRun(codec, g, m, 259);
      if good {
        FlushRunStep(codec, g, m, 259);
      }
      ok := io.Sync();
      if !ok {
        if good {
          InvRecoverable(codec, g, p);
        }
        return Err(Io);
      }
      r := Ok(());
    }

    /** Write and sync the backup copy; the flags are cleared last. */
    method WriteBackup(ghost m: Machine, ghost good: bool) returns (r: Result<()>)
      requires Writable(g, State().sys)
      requires good ==> Inv(codec, g, m) && m.sys.phase.Idle? && CanFlush(codec, g, m.sys)
      requires good ==> FlushRun(codec, g, m, 260).sys == State().sys.(phase := PrimaryDurable)
      modifies this`shardDirty, this`com, this`image, this`kept, io
      ensures r.Ok? ==> shardDirty == seq(NUM_SHARDS, _ => false)
      ensures r.Err? ==> r.error.Io? && !io.Reliable()
      ensures good && r.Ok? ==> State() == FlushRun(codec, g, m, FLUSH_STEPS)
      ensures good && r.Err? ==> Recoverable(codec, g, io.disk, m.com, Commit(superblock, index))
    {
      hide Inv, FlushRun, Recoverable, CanFlush, Steppable, CopyBytes, WroteWithin, Patch;
      ghost var p := FlushRun(codec, g, m, 260);
      if good {
        FlushRunStep(codec, g, m, 260);
      }
      var bytes := ToBytes(superblock);
      var ok := io.Pwrite(SUPERBLOCK_SIZE, bytes.value);
      if !ok {
        if good {
          ghost var k: nat :| k <= |bytes.value| && io.disk == p.sys.disk.Written(SUPERBLOCK_SIZE, bytes.value[..k]);
          FailedBackup(codec, g, p, k);
          NewIsEnough(codec, g, io.disk, m.com, p.com);
        }
        return Err(Io);
      }
      p := FlushRun(codec, g, m, 261);
      if good {
        FlushRunStep(codec, g, m, 261);
      }
      ok := io.Sync();
      if !ok {
        if good {
          InvRecoverable(codec, g, p);
          NewIsEnough(codec, g, io.disk, m.com, p.com);
        }
        return Err(Io);
      }
      shardDirty := seq(NUM_SHARDS, _ => false);
      com, image, kept := p.com, p.image, p.kept;
      r := Ok(());
    }

    /** Persist the index: the dirty shards, then the superblock that points to them. The
        promises hold as long as lengths and transaction id fit their fields (`Countable`). */
    method FlushIndex(build: Build) returns (r: Result<()>)
      requires Valid()
      modifies this, io
      ensures index == old(index) && allocator == old(allocator)
      ensures old(superblock.txnId) + 1 >= U64_LIMIT && build.Checked? ==> r == Err(Panic) && State() == old(State())
      ensures r.Ok? ==> !dirty && shardDirty == seq(NUM_SHARDS, _ => false) && LengthsCut(codec, index, old(shardDirty), superblock)
      ensures Countable(codec, old(State()).sys) && r.Ok? ==>
        && Valid() && CanFlush(codec, g, old(State()).sys) && Objects() == old(Objects())
        && State() == FlushRun(codec, g, old(State()), FLUSH_STEPS) && com == Commit(superblock, index)
      ensures Countable(codec, old(State()).sys) && r.Err? ==>
        && Recoverable(codec, g, io.disk, old(com), Commit(superblock, index)) && (r.error.ShardOverflow? || !io.Reliable())
      ensures Countable(codec, old(State()).sys) && r.Err? && r.error.ShardOverflow? ==>
        Aborted(codec, g, State(), r.error.shard) && (Valid() <==> NoneBelow(old(shardDirty), r.error.shard))
    {
      hide Inv, FlushRun, Recoverable, CanFlush, Placed, FreeListOk, ObjectsOf, Aborted, Shard;
      ghost var m, good := State(), Countable(codec, State().sys);
      if superblock.txnId + 1 >= U64_LIMIT && build.Checked? {
        return Err(Panic);
      }
      r := FlushShards();
      if r.Err? {
        if good && r.error.ShardOverflow? {
          AbortedInOrder(codec, g, State(), r.error.shard);
        }
        return;
      }
      r := SyncShards(m, good);
      if r.Err? {
        return;
      }
      r := WritePrimary(m, good);
      if r.Err? {
        return;
      }
      r := WriteBackup(m, good);
      if r.Err? {
        return;
      }
      dirty := false;
      if good {
        FlushCommits(codec, g, m);
        FlushLeavesData(codec, g, m, FLUSH_STEPS);
        assert Placed(index.files, g.DataEnd()) by { InvPlaced(codec, g, m); }
        SameDataSameObjects(z, m.sys.disk.live, io.disk.live, index.files, g.DataEnd());
      }
    }

    // ---- Maintenance -----------------------------------------------------

    /** The layout part of a full verification: it finds nothing wrong, ever. */
    method VerifyLayout() returns (overlapping: seq<(Key, Key)>, accounted: bool, consistent: bool)
      requires Valid()
      ensures overlapping == [] && accounted && consistent
    {
      hide Inv, Canonical, Covers, Total, Used, Gaps, Places, ByOffset, PlacementSet;
      var all := (_: ExtentInfo) => true;
      var list := CollectPlacements(index.files, all);
      overlapping := FindOverlaps(list);
      var totalFree := allocator.FreeSpace();
      accounted := Total(Places(list)) + totalFree == g.DataEnd() - DATA_START;
      consistent := FreeListConsistent(allocator.freeList, g.DataEnd());
      LayoutInOrder(list, index.files, all, allocator.freeList, g.DataEnd());
    }

    /** Rebuild the free list from the index and flush. A healthy store keeps the free list
        it has, entry for entry. */
    method Repair(build: Build) returns (r: Result<()>)
      requires Valid()
      modifies this, io
      ensures index == old(index) && allocator.freeList == old(allocator.freeList)
      ensures Countable(codec, old(State()).sys) && r.Ok? ==>
        Valid() && Objects() == old(Objects()) && State() == FlushRun(codec, g, old(State()), FLUSH_STEPS)
      ensures Countable(codec, old(State()).sys) && r.Err? ==>
        Recoverable(codec, g, io.disk, old(com), Commit(superblock, index)) && (r.error.ShardOverflow? || !io.Reliable())
    {
      hide Inv, Placed, FreeListOk, FlushRun, Recoverable, CanFlush, ObjectsOf, Aborted;
      InvPlaced(codec, g, State());
      var used, free := RebuildFreeList(index.files, g.DataEnd());
      FreeListUnique(free, allocator.freeList, index.files, g.DataEnd());
      assert Canonical(free) && FreeInBounds(free, g.DataEnd()) by { HealthyList(free, index.files, g.DataEnd()); }
      allocator := new ExtentAllocator.FromFreeList(free, DATA_START, g.DataEnd());
      r := FlushIndex(build);
    }

    /** Drop all tombstones, marking the shards that held one. */
    method ClearTombstones() returns (count: nat)
      requires Valid()
      modifies this
      ensures Valid() && MutateNext(g, old(State()), State()) && allocator == old(allocator)
      ensures index == Index(old(index.files), map[]) && Objects() == old(Objects())
      ensures count == |old(index.tombs)|
    {
      hide Inv, ObjectsOf, MutateNext, ShardFor, Placed, FreeListOk, FreeWrites, DirtyMarked;
      ghost var m := State();
      Idling(codec, g, m);
      count := |index.tombs|;
      if count == 0 {
        return;
      }
      var rest := index.tombs.Keys;
      var flags := shardDirty;
      while rest != {}
        invariant rest <= index.tombs.Keys && |flags| == NUM_SHARDS
        invariant forall i :: 0 <= i < NUM_SHARDS && shardDirty[i] ==> flags[i]
        invariant forall k :: k in index.tombs && k !in rest ==> flags[ShardFor(k)]
        decreases rest
      {
        var k :| k in rest;
        flags := flags[ShardFor(k) := true];
        rest := rest - {k};
      }
      index := Index(index.files, map[]);
      TombsMarked(m.sys.idx, index, m.sys.dirty, flags);
      shardDirty := flags;
      dirty := true;
      NoWrites(io.disk, index.files, g.DataEnd());
      kept := kept * PlaceSet(index.files);
      assert Placed(index.files, g.DataEnd()) by { InvPlaced(codec, g, m); }
      Mutated(codec, g, m, State());
    }

    // ---- Reads -----------------------------------------------------------

    /** Read and verify a whole payload. */
    method Get(key: Key) returns (r: Result<seq<byte>>)
      requires Valid()
      ensures key !in index.files ==> r == Err(NotFound)
      ensures key in index.files ==> r == Payload(z, io.disk.live, index.files[key])
      ensures key in Objects() ==> r == Ok(Objects()[key].payload)
    {
      hide Decode, Inv, FreeListOk;
      if key !in index.files {
        return Err(NotFound);
      }
      var info := index.files[key];
      assert WellPlaced(info, g.DataEnd());
      OnDeviceToo(codec, g, State(), info);
      var content := ReadAndDecodeBatched(io, info.offset, info.size);
      if content.Err? {
        return Err(content.error);
      }
      if info.uncompressedSize > 0 {
        match z.decompress(content.value) {
          case None => return Err(Io);
          case Some(payload) => return Ok(payload);
        }
      }
      r := Ok(content.value);
    }

    /** Read bytes `[start, end)` of a payload, only as many blocks as needed if it is stored
        as it is. */
    method GetRange(key: Key, start: nat, end: nat, build: Build) returns (r: Result<seq<byte>>)
      requires Valid()
      ensures key !in index.files ==> r == Err(NotFound)
      ensures key in Objects() && |io.disk.live| < U64_LIMIT ==>
        RangeOutcome(Objects()[key].payload, index.files[key].uncompressedSize > 0, start, end, build, r)
      ensures key in index.files ==> AnyRead(z, io.disk.live, index.files[key], start, end, r)
    {
      hide Inv, FreeListOk, Intact, Payload, ContentAt, ObjectsOf, PartialRead;
      ObjectsAt(z, io.disk.live, index.files, key);
      if key !in index.files {
        return Err(NotFound);
      }
      var info := index.files[key];
      if info.uncompressedSize > 0 {
        if info.uncompressedSize > COMPRESSED_RANGE_READ_MAX {
          return Err(RangeTooLarge);
        }
        var full := Get(key);
        if full.Err? {
          return full;
        }
        var stop := Min(end, |full.value|);
        assert full == Payload(z, io.disk.live, info);
        return Ok(full.value[Min(start, stop)..stop]);
      }
      assert WellPlaced(info, g.DataEnd());
      OnDeviceToo(codec, g, State(), info);
      PlainObject(z, io.disk.live, index.files, key);
      r := ReadBlockRange(io, info.offset, start, end, build, info.size);
    }

    /** Read only the metadata suffix. */
    method GetMetadata(key: Key, build: Build) returns (r: Result<seq<byte>>)
      requires Valid()
      ensures key !in index.files ==> r == Err(NotFound)
      ensures key in Objects() && |io.disk.live| < U64_LIMIT ==>
        r == if index.files[key].uncompressedSize > COMPRESSED_RANGE_READ_MAX && index.files[key].metaLen > 0
             then Err(RangeTooLarge) else Ok(Objects()[key].Meta())
      ensures key in index.files && index.files[key].metaLen == 0 ==> r == Ok([])
      ensures key in index.files && index.files[key].metaLen > 0 ==>
        var size := LogicalSize(index.files[key]);
        AnyRead(z, io.disk.live, index.files[key], SaturatingSub(size, index.files[key].metaLen), size, r)
    {
      hide Inv, FreeListOk, Intact, Payload, AnyRead;
      ObjectsAt(z, io.disk.live, index.files, key);
      if key !in index.files {
        return Err(NotFound);
      }
      var info := index.files[key];
      assert WellPlaced(info, g.DataEnd());
      if info.metaLen == 0 {
        assert key in Objects() ==> Objects()[key].Meta() == [];
        return Ok([]);
      }
      var size := LogicalSize(info);
      r := GetRange(key, SaturatingSub(size, info.metaLen), size, build);
      if key in Objects() {
        WholeSuffix(Objects()[key], SaturatingSub(size, info.metaLen));
      }
    }
  }

  /** `key` is new or replaced, its tombstone is gone, and nothing else is different. */
  ghost predicate OnlyKeyChanged(idx: Index, idx': Index, key: Key) {
    key in idx'.files && idx'.files == idx.files[key := idx'.files[key]] && idx'.tombs == idx.tombs - {key}
  }

  /** `to` is new or replaced; it is the entry of `from` at another place and time. */
  ghost predicate CopiedTo(files: map<Key, ExtentInfo>, files': map<Key, ExtentInfo>, from: Key, to: Key, txn: nat, now: nat) {
    && from in files && to in files' && files' == files[to := files'[to]]
    && files'[to] == files[from].(offset := files'[to].offset, createdTxn := txn, lastModified := now)
  }

  /** What an entry records of its payload. */
  ghost predicate StoredAs(z: Compressor, files: map<Key, ExtentInfo>, key: Key, payload: seq<byte>, metaLen: nat) {
    && key in files && files[key].metaLen == metaLen && files[key].crc == Crc(StoredForm(z, payload).0)
    && (files[key].size, files[key].uncompressedSize) == (|StoredForm(z, payload).0|, StoredForm(z, payload).1)
  }

  /** When an entry was written, and under which transaction. */
  ghost predicate Stamped(files: map<Key, ExtentInfo>, key: Key, txn: nat, now: nat) {
    key in files && files[key].createdTxn == txn && files[key].lastModified == now
  }

  /** A store with a dirty shard says that it needs a flush. */
  ghost predicate Noted(flags: seq<bool>, dirty: bool) {
    forall i :: 0 <= i < |flags| && flags[i] ==> dirty
  }

  /** `now` is `m`, except that `e` has been taken from the free list `fl`, which leaves
      `fl'`, and may have been written. */
  ghost predicate Reserved(c: ShardCodec, g: Geometry, m: Machine, now: Machine, e: Extent, fl: seq<Extent>, fl': seq<Extent>) {
    && Inv(c, g, m) && m.sys.phase.Idle? && g.Valid() && now == m.(sys := m.sys.(disk := now.sys.disk))
    && WroteWithin(m.sys.disk, now.sys.disk, e.off, e.End()) && FreeListOk(fl, m.sys.idx.files, g.DataEnd())
    && ReservedOk(fl', m.sys.idx.files, e, g.DataEnd()) && Unused(m.sys.idx.files, e, g.DataEnd())
  }

  /** Writing into the reserved extent changes nothing else. */
  lemma StillReserved(c: ShardCodec, g: Geometry, m: Machine, now: Machine, d: Disk, e: Extent, fl: seq<Extent>, fl': seq<Extent>)
    requires Reserved(c, g, m, now, e, fl, fl') && WroteWithin(now.sys.disk, d, e.off, e.End())
    ensures Reserved(c, g, m, now.(sys := now.sys.(disk := d)), e, fl, fl')
    ensures |d.live| == |m.sys.disk.live|
  {
    hide Inv, WroteWithin, FreeListOk, ReservedOk, Unused;
    WroteMore(m.sys.disk, now.sys.disk, d, e.off, e.End(), e.off, e.End());
    WroteSize(m.sys.disk, d, e.off, e.End());
  }

  ghost predicate InRegion(e: Extent, dataEnd: nat) {
    DATA_START <= e.off && e.End() <= dataEnd && e.off % BLOCK == 0
  }

  /** Range reads of compressed objects above this size are refused. */
  const COMPRESSED_RANGE_READ_MAX: nat := 0x4000_0000

  /** What a range read of an intact object returns. Compressed objects clamp the range;
      objects stored as they are deliver any range inside the payload, except that an
      overflow-checked build stops at an empty range on a block boundary. */
  ghost predicate RangeOutcome(payload: seq<byte>, compressed: bool, start: nat, end: nat, build: Build, r: Result<seq<byte>>) {
    if compressed then
      if |payload| > COMPRESSED_RANGE_READ_MAX then r == Err(RangeTooLarge)
      else r == Ok(payload[Min(start, Min(end, |payload|))..Min(end, |payload|)])
    else start <= end <= |payload| ==>
      r == if OnBoundary(start, end) && build.Checked? then Err(Panic) else Ok(payload[start..end])
  }

  /** What reading a range of any entry gives, intact or not: of an entry stored as it is, what
      the covering blocks hold; of a compressed one, a slice of what a full read gives, or the
      error of that read. */
  ghost predicate AnyRead(z: Compressor, live: seq<byte>, info: ExtentInfo, start: nat, end: nat, r: Result<seq<byte>>) {
    if info.uncompressedSize == 0 then start < end < U64_LIMIT && |live| < U64_LIMIT ==> PartialRead(live, info.offset, start, end, r)
    else if info.uncompressedSize > COMPRESSED_RANGE_READ_MAX then r == Err(RangeTooLarge)
    else match Payload(z, live, info)
      case Err(error) => r == Err(error)
      case Ok(payload) => r == Ok(payload[Min(start, Min(end, |payload|))..Min(end, |payload|)])
  }

  /** `key` has new metadata and, if it was intact before, its old body; nothing else changed. */
  ghost predicate MetadataReplaced(before: map<Key, Object>, after: map<Key, Object>, key: Key, metadata: seq<byte>) {
    && key in after && after == before[key := after[key]] && after[key].Meta() == metadata
    && (key in before ==> after[key].Body() == before[key].Body())
  }

  /** What was read needs no more blocks than what was reported. */
  ghost predicate Contained(reported: nat, chunks: seq<seq<byte>>) {
    NumBlocks(|Concat(chunks)|) <= NumBlocks(reported)
  }

  ghost predicate HoldsObject(objects: map<Key, Object>, key: Key, obj: Object) {
    key in objects && objects[key] == obj
  }

  /** The entry has the reported size, and the encoding of all that was read starts at its
      offset, however long it is. */
  ghost predicate Spilled(live: seq<byte>, files: map<Key, ExtentInfo>, key: Key, reported: nat, payload: seq<byte>) {
    && key in files && files[key].size == reported && files[key].paddedSize == NumBlocks(reported) * BLOCK
    && files[key].uncompressedSize == 0 && files[key].offset + NumBlocks(|payload|) * BLOCK <= |live|
    && live[files[key].offset..files[key].offset + NumBlocks(|payload|) * BLOCK] == Encode(payload)
  }

  /** An entry of another size does not read back as what was read. */
  lemma SpilledObject(z: Compressor, live: seq<byte>, files: map<Key, ExtentInfo>, key: Key, reported: nat, payload: seq<byte>)
    requires Spilled(live, files, key, reported, payload)
    ensures key in ObjectsOf(z, live, files) ==> |ObjectsOf(z, live, files)[key].payload| == reported
  {
    hide Intact, Payload, Encode, ObjectsOf;
    ObjectsAt(z, live, files, key);
  }

  lemma SameBut(a: map<Key, Object>, b: map<Key, Object>, key: Key)
    requires b == a || (key in b && b == a[key := b[key]])
    ensures b - {key} == a - {key}
  {}

  lemma BlocksInOrder(a: nat, b: nat)
    requires NumBlocks(a) <= NumBlocks(b)
    ensures NumBlocks(a) * BLOCK <= NumBlocks(b) * BLOCK
  {}

  lemma ReservedIndex(c: ShardCodec, g: Geometry, m: Machine, now: Machine, e: Extent, fl: seq<Extent>, fl': seq<Extent>)
    requires Reserved(c, g, m, now, e, fl, fl')
    ensures now.sys.idx == m.sys.idx
  {
    hide Inv, WroteWithin, FreeListOk, ReservedOk, Unused;
  }

  /** Whatever an entry holds, pointing a key at it concerns that key only. */
  lemma ObjectsPut(z: Compressor, live: seq<byte>, files: map<Key, ExtentInfo>, key: Key, info: ExtentInfo)
    ensures ObjectsOf(z, live, files[key := info]) - {key} == ObjectsOf(z, live, files) - {key}
    ensures Intact(z, live, info) ==>
      ObjectsOf(z, live, files[key := info]) == ObjectsOf(z, live, files)[key := ObjectOf(z, live, info)]
  {
    hide Intact;
    if Intact(z, live, info) {
      ObjectsUpdate(z, live, files, key, info, ObjectOf(z, live, info));
    } else {
      ObjectsUpdateDamaged(z, live, files, key, info);
    }
    SameBut(ObjectsOf(z, live, files), ObjectsOf(z, live, files), key);
  }

  /** There is no run of free space for `size` content bytes, or they are too many for 64 bits. */
  ghost predicate NoRoom(error: Error, size: nat, fl: seq<Extent>) {
    || (error.NoSpace? && forall y :: !AllFree(fl, y, NumBlocks(size) * BLOCK))
    || (error.ExtentInvalid? && NumBlocks(size) * BLOCK >= U64_LIMIT)
  }

  /** The only reasons for which storing `size` bytes under `key` may fail. */
  ghost predicate PutRefused(error: Error, key: Key, maxKeyLength: nat, size: nat, fl: seq<Extent>, reliable: bool) {
    || (error.EmptyPayload? && size == 0)
    || (error == KeyTooLong(|key|, maxKeyLength) && |key| > maxKeyLength)
    || NoRoom(error, size, fl)
    || (error.Io? && !reliable)
  }

  /** Replacing the metadata of an intact object fails only as a put of what it would store
      may fail, and does so as empty when nothing would be left. */
  ghost predicate MetadataOutcome(z: Compressor, compressed: bool, obj: Object, metadata: seq<byte>, r: Result<()>,
                                  key: Key, maxKeyLength: nat, fl: seq<Extent>, reliable: bool) {
    var payload := obj.Body() + metadata;
    && (payload == [] ==> r == Err(EmptyPayload))
    && (r.Err? ==>
          PutRefused(r.error, key, maxKeyLength, if compressed then |StoredForm(z, payload).0| else |payload|, fl, reliable))
  }

  lemma WholeSuffix(obj: Object, start: nat)
    requires start == SaturatingSub(|obj.payload|, obj.metaLen)
    ensures obj.payload[start..|obj.payload|] == obj.Meta()
  {}

  lemma Replaced(before: map<Key, Object>, after: map<Key, Object>, key: Key, body: seq<byte>, metadata: seq<byte>)
    requires after == before[key := Object(body + metadata, |metadata|)]
    requires key in before ==> body == before[key].Body()
    ensures MetadataReplaced(before, after, key, metadata)
  {
    var obj := Object(body + metadata, |metadata|);
    assert obj.Body() == body && obj.Meta() == metadata;
  }

  lemma ObjectsAt(z: Compressor, live: seq<byte>, files: map<Key, ExtentInfo>, key: Key)
    ensures key in ObjectsOf(z, live, files) <==> key in files && Intact(z, live, files[key])
    ensures key in ObjectsOf(z, live, files) ==>
      && ObjectsOf(z, live, files)[key] == ObjectOf(z, live, files[key])
      && |ObjectsOf(z, live, files)[key].payload| == LogicalSize(files[key])
      && ObjectsOf(z, live, files)[key].metaLen == files[key].metaLen
  {
    hide Intact, Payload;
    if key in files && Intact(z, live, files[key]) {
      IntactSize(z, live, files[key]);
    }
  }

  /** The body of an intact object stored as it is, in terms of its extent. */
  lemma PlainObject(z: Compressor, live: seq<byte>, files: map<Key, ExtentInfo>, key: Key)
    requires key in files && files[key].uncompressedSize == 0
    requires files[key].offset + NumBlocks(files[key].size) * BLOCK <= |live|
    ensures
      var info := files[key];
      var content, bodySize := ContentAt(live, info.offset, info.size), SaturatingSub(info.size, info.metaLen);
      key in ObjectsOf(z, live, files) ==>
        && content.Ok? && bodySize <= |content.value| && ObjectsOf(z, live, files)[key].payload == content.value
        && ObjectsOf(z, live, files)[key].Body() == content.value[..bodySize]
  {
    hide Decode, Crc;
    ObjectsAt(z, live, files, key);
  }

  lemma NewSuffix(z: Compressor, live: seq<byte>, files: map<Key, ExtentInfo>, key: Key, body: seq<byte>, metadata: seq<byte>, after: map<Key, Object>)
    requires key in files && files[key].uncompressedSize == 0
    requires files[key].offset + NumBlocks(files[key].size) * BLOCK <= |live|
    requires |body| == SaturatingSub(files[key].size, files[key].metaLen)
    requires
      var content := ContentAt(live, files[key].offset, files[key].size);
      content.Ok? ==> body <= content.value
    requires after == ObjectsOf(z, live, files)[key := Object(body + metadata, |metadata|)]
    ensures MetadataReplaced(ObjectsOf(z, live, files), after, key, metadata)
  {
    hide ContentAt, ObjectsOf;
    PlainObject(z, live, files, key);
    Replaced(ObjectsOf(z, live, files), after, key, body, metadata);
  }

  lemma MetaLenObjects(z: Compressor, live: seq<byte>, files: map<Key, ExtentInfo>, key: Key, info: ExtentInfo)
    requires key in files && info == files[key].(metaLen := info.metaLen)
    ensures
      var before := ObjectsOf(z, live, files);
      ObjectsOf(z, live, files[key := info])
        == if key in before then before[key := Object(before[key].payload, info.metaLen)] else before
  {
    hide Decode, Crc;
    assert Intact(z, live, info) <==> Intact(z, live, files[key]);
    assert Payload(z, live, info) == Payload(z, live, files[key]);
    hide Intact;
    if Intact(z, live, info) {
      ObjectsUpdate(z, live, files, key, info, ObjectOf(z, live, info));
    } else {
      ObjectsUpdateDamaged(z, live, files, key, info);
    }
  }

  /** A flush has given up at shard `n`, which overflows its slot. */
  ghost predicate Aborted(c: ShardCodec, g: Geometry, m: Machine, n: nat) {
    Midway(c, g, m, n) && n < NUM_SHARDS && m.sys.dirty[n] && !SlotHolds(c, g, m.sys, n)
  }

  /** No shard below `n` is dirty. */
  ghost predicate NoneBelow(flags: seq<bool>, n: nat) {
    forall i :: 0 <= i < n && i < |flags| ==> !flags[i]
  }

  lemma AbortedInOrder(c: ShardCodec, g: Geometry, m: Machine, n: nat)
    requires Aborted(c, g, m, n) && m.sys.phase.Idle?
    ensures Inv(c, g, m) ==> NoneBelow(m.sys.dirty, n)
  {
    hide Midway, Inv;
    MidwayInOrder(c, g, m, n);
  }

  /** What the flush needs of the store to run at all. */
  ghost predicate Writable(g: Geometry, s: Sys) {
    Shaped(g, s) && forall i :: 0 <= i < NUM_SHARDS ==> s.sb.slots[i].active <= 1
  }

  /** Every dirty shard's length fits 32 bits, and the next transaction id 64. */
  ghost predicate Countable(c: ShardCodec, s: Sys) {
    && s.sb.txnId + 1 < U64_LIMIT
    && forall i :: 0 <= i < |s.dirty| && s.dirty[i] ==> |c.enc(Shard(s.idx, i))| < U32_LIMIT
  }

  /** Shard `i` was written to its inactive slot and its entry flipped, with the length cut to
      32 bits. */
  ghost predicate ShardOut(c: ShardCodec, g: Geometry, s: Sys, s': Sys, i: nat) {
    && Writable(g, s) && i < NUM_SHARDS && SlotHolds(c, g, s, i)
    && (var slot, bytes := 1 - s.sb.slots[i].active, c.enc(Shard(s.idx, i));
        && g.SlotOffset(slot, i) + |bytes| <= |s.disk.live|
        && s' == s.(disk := s.disk.Written(g.SlotOffset(slot, i), bytes),
                    sb := s.sb.(slots := s.sb.slots[i := SlotMeta(slot, |bytes| % U32_LIMIT, Checksum(bytes))])))
  }

  /** The write of shard `i` stopped after some bytes, and its entry was not flipped. */
  ghost predicate ShardCutShort(c: ShardCodec, g: Geometry, s: Sys, s': Sys, i: nat) {
    && Writable(g, s) && i < NUM_SHARDS && SlotHolds(c, g, s, i)
    && (var off, bytes := g.SlotOffset(1 - s.sb.slots[i].active, i), c.enc(Shard(s.idx, i));
        && off + |bytes| <= |s.disk.live|
        && exists k: nat :: k <= |bytes| && s' == s.(disk := s.disk.Written(off, bytes[..k])))
  }

  /** What one shard of a flush leaves, as far as its length fits 32 bits. */
  lemma AfterShard(c: ShardCodec, g: Geometry, m: Machine, m': Machine, i: nat, r: Result<()>)
    requires Midway(c, g, m, i) && i < NUM_SHARDS && m.sys.dirty[i] && m' == m.(sys := m'.sys)
    requires |c.enc(Shard(m.sys.idx, i))| < U32_LIMIT
    requires r.Ok? ==> ShardOut(c, g, m.sys, m'.sys, i)
    requires r.Err? && r.error.ShardOverflow? ==> m' == m && !SlotHolds(c, g, m.sys, i)
    requires r.Err? && !r.error.ShardOverflow? ==> ShardCutShort(c, g, m.sys, m'.sys, i)
    ensures r.Ok? ==> ShardWritten(c, g, m.sys, m'.sys, i) && Midway(c, g, m', i + 1)
    ensures r.Err? && r.error.ShardOverflow? ==> Aborted(c, g, m', i)
    ensures r.Err? ==> Recoverable(c, g, m'.sys.disk, m.com, InProgress(m'))
  {
    hide Midway, Checksum, Recoverable, Shard, Patch;
    if r.Ok? {
      MidwayNext(c, g, m, i);
    } else if r.error.ShardOverflow? {
      MidwayRecoverable(c, g, m, i, InProgress(m'));
    } else {
      var off, bytes := g.SlotOffset(1 - m.sys.sb.slots[i].active, i), c.enc(Shard(m.sys.idx, i));
      var k: nat :| k <= |bytes| && m'.sys == m.sys.(disk := m.sys.disk.Written(off, bytes[..k]));
      FailedShardWrite(c, g, m, i, k, InProgress(m'));
    }
  }

  /** The entries of the shards that were dirty hold their lengths cut to 32 bits, which is
      right for exactly those that fit. */
  ghost predicate LengthsCut(c: ShardCodec, idx: Index, dirty: seq<bool>, sb: Superblock) {
    |sb.slots| == |dirty| && forall i :: 0 <= i < |dirty| && dirty[i] ==>
      sb.slots[i].size == |c.enc(Shard(idx, i))| % U32_LIMIT
  }

  lemma IdleWritable(c: ShardCodec, g: Geometry, m: Machine)
    requires Inv(c, g, m) && m.sys.phase.Idle?
    ensures Writable(g, m.sys)
  {
    hide Early, KeptUnharmed, Placed, SuperblockOk;
    forall i | 0 <= i < NUM_SHARDS
      ensures m.sys.sb.slots[i].active <= 1
    {
      EarlyActive(c, g, m, 0, i);
    }
  }

  /** The flush of `m` has dealt with the shards below `i`. */
  ghost predicate Passed(c: ShardCodec, g: Geometry, m: Machine, now: Machine, i: nat) {
    && Inv(c, g, m) && m.sys.phase.Idle? && now == m.(sys := m.sys.(disk := now.sys.disk, sb := now.sys.sb))
    && Writable(g, now.sys) && now.sys.sb.txnId == m.sys.sb.txnId && (NoneBelow(m.sys.dirty, i) ==> now == m)
    && (forall j :: 0 <= j < i && j < NUM_SHARDS && m.sys.dirty[j] ==>
          SlotHolds(c, g, m.sys, j) && now.sys.sb.slots[j].size == |c.enc(Shard(m.sys.idx, j))| % U32_LIMIT)
    && (Countable(c, m.sys) ==> Midway(c, g, now, i))
    && (Countable(c, m.sys) && CanFlush(c, g, m.sys) ==> FlushRun(c, g, m, i + 1) == m.(sys := now.sys.(phase := Writing(i))))
  }

  lemma PassStart(c: ShardCodec, g: Geometry, m: Machine)
    requires Inv(c, g, m) && m.sys.phase.Idle?
    ensures Passed(c, g, m, m, 0)
  {
    hide Inv, Midway, FlushRun, CanFlush, SlotHolds, Shard;
    IdleWritable(c, g, m);
    MidwayStart(c, g, m);
    if CanFlush(c, g, m.sys) {
      FlushEnters(c, g, m);
    }
  }

  lemma PassShape(c: ShardCodec, g: Geometry, m: Machine, now: Machine, i: nat)
    requires Passed(c, g, m, now, i)
    ensures Writable(g, now.sys) && now == m.(sys := m.sys.(disk := now.sys.disk, sb := now.sys.sb))
  {
    hide Inv, Midway, FlushRun, CanFlush, SlotHolds, Shard, Countable;
  }

  lemma PassNext(c: ShardCodec, g: Geometry, m: Machine, now: Machine, now': Machine, i: nat)
    requires Passed(c, g, m, now, i) && i < NUM_SHARDS && Writable(g, now.sys) && now' == now.(sys := now'.sys)
    requires if now.sys.dirty[i] then ShardOut(c, g, now.sys, now'.sys, i) else now' == now
    ensures Passed(c, g, m, now', i + 1)
  {
    hide Inv, Midway, FlushRun, CanFlush, SlotHolds, Shard, Checksum, ShardOut, ShardWritten;
    if now.sys.dirty[i] {
      OutSizes(c, g, now.sys, now'.sys, i);
      SameIndexHolds(c, g, now.sys, m.sys, i);
    }
    if Countable(c, m.sys) {
      if now.sys.dirty[i] {
        AfterShard(c, g, now, now', i, Ok(()));
      } else {
        MidwaySkip(c, g, now, i);
      }
      if CanFlush(c, g, m.sys) {
        FlushPastShard(c, g, m, now.sys, now'.sys, i);
      }
    }
  }

  lemma OutSizes(c: ShardCodec, g: Geometry, s: Sys, s': Sys, i: nat)
    requires ShardOut(c, g, s, s', i)
    ensures SlotHolds(c, g, s, i) && Writable(g, s') && s' == s.(disk := s'.disk, sb := s'.sb) && s'.sb.txnId == s.sb.txnId
    ensures forall j :: 0 <= j < NUM_SHARDS ==>
      s'.sb.slots[j].size == if j == i then |c.enc(Shard(s.idx, i))| % U32_LIMIT else s.sb.slots[j].size
  {
    hide Checksum, Patch, Shard, SlotHolds;
  }

  lemma SameIndexHolds(c: ShardCodec, g: Geometry, s: Sys, s0: Sys, i: nat)
    requires SlotHolds(c, g, s, i) && s.idx == s0.idx
    ensures SlotHolds(c, g, s0, i)
  {}

  lemma PassFails(c: ShardCodec, g: Geometry, m: Machine, now: Machine, now': Machine, i: nat, r: Result<()>)
    requires Passed(c, g, m, now, i) && i < NUM_SHARDS && Writable(g, now.sys) && now.sys.dirty[i] && now' == now.(sys := now'.sys) && r.Err?
    requires r.error.ShardOverflow? ==> now' == now && !SlotHolds(c, g, now.sys, i)
    requires !r.error.ShardOverflow? ==> ShardCutShort(c, g, now.sys, now'.sys, i)
    ensures now'.sys.sb.txnId == m.sys.sb.txnId && (r.error.ShardOverflow? && NoneBelow(m.sys.dirty, i) ==> now' == m)
    ensures Countable(c, m.sys) ==>
      Recoverable(c, g, now'.sys.disk, m.com, InProgress(now')) && (r.error.ShardOverflow? ==> Aborted(c, g, now', i))
  {
    hide Inv, Midway, FlushRun, CanFlush, SlotHolds, Shard, Recoverable, Aborted;
    if Countable(c, m.sys) {
      AfterShard(c, g, now, now', i, r);
    }
  }

  lemma PassEnd(c: ShardCodec, g: Geometry, m: Machine, now: Machine)
    requires Passed(c, g, m, now, NUM_SHARDS)
    ensures Writable(g, now.sys) && now.sys.sb.txnId == m.sys.sb.txnId && now.sys.idx == m.sys.idx && now.sys.dirty == m.sys.dirty
    ensures forall i :: 0 <= i < NUM_SHARDS && m.sys.dirty[i] ==> now.sys.sb.slots[i].size == |c.enc(Shard(m.sys.idx, i))| % U32_LIMIT
    ensures Countable(c, m.sys) ==>
      CanFlush(c, g, m.sys) && FlushRun(c, g, m, 257) == now.(sys := now.sys.(phase := Writing(NUM_SHARDS)))
  {
    hide Inv, Midway, FlushRun, SlotHolds, Shard, CanFlush;
    if Countable(c, m.sys) {
      EveryShardFits(c, g, m.sys);
    }
  }

  lemma RoomForNext(c: ShardCodec, g: Geometry, s: Sys)
    requires CanFlush(c, g, s)
    ensures s.sb.txnId + 1 < U64_LIMIT
  {}

  lemma NewIsEnough(c: ShardCodec, g: Geometry, d: Disk, before: Commit, after: Commit)
    requires Recoverable(c, g, d, after, after)
    ensures Recoverable(c, g, d, before, after)
  {
    hide Recover, AtomicCrash;
  }

  lemma EveryShardFits(c: ShardCodec, g: Geometry, s: Sys)
    requires Countable(c, s) && forall j :: 0 <= j < |s.dirty| && s.dirty[j] ==> SlotHolds(c, g, s, j)
    ensures CanFlush(c, g, s)
  {}

  lemma SameDataSameObjects(z: Compressor, live: seq<byte>, live': seq<byte>, files: map<Key, ExtentInfo>, dataEnd: nat)
    requires Placed(files, dataEnd) && DATA_START <= dataEnd <= |live| == |live'|
    requires live'[DATA_START..dataEnd] == live[DATA_START..dataEnd]
    ensures ObjectsOf(z, live', files) == ObjectsOf(z, live, files)
  {
    hide Intact, Payload, Stored, Placed;
    forall k | k in files
      ensures Intact(z, live, files[k]) <==> Intact(z, live', files[k])
      ensures Payload(z, live, files[k]) == Payload(z, live', files[k])
    {
      assert WellPlaced(files[k], dataEnd) by { PlacedAt(files, k, dataEnd); }
      SameDataSameEntry(z, live, live', files[k], dataEnd);
    }
  }

  lemma PlacedAt(files: map<Key, ExtentInfo>, k: Key, dataEnd: nat)
    requires Placed(files, dataEnd) && k in files
    ensures WellPlaced(files[k], dataEnd)
  {
    hide WellPlaced;
  }

  lemma SameDataSameEntry(z: Compressor, live: seq<byte>, live': seq<byte>, info: ExtentInfo, dataEnd: nat)
    requires WellPlaced(info, dataEnd) && DATA_START <= dataEnd <= |live| == |live'|
    requires live'[DATA_START..dataEnd] == live[DATA_START..dataEnd]
    ensures Intact(z, live, info) <==> Intact(z, live', info)
    ensures Payload(z, live, info) == Payload(z, live', info)
  {
    hide Intact, Payload, Stored;
    var e := info.Place();
    SliceSlice(live, DATA_START, dataEnd, e.off - DATA_START, e.End() - DATA_START);
    SliceSlice(live', DATA_START, dataEnd, e.off - DATA_START, e.End() - DATA_START);
    SameExtentSameEntry(z, live, live', info, info);
  }

  ghost predicate FreeInBounds(fl: seq<Extent>, dataEnd: nat) {
    forall i :: 0 <= i < |fl| ==> DATA_START <= fl[i].off && fl[i].End() <= dataEnd
  }

  lemma HealthyList(fl: seq<Extent>, files: map<Key, ExtentInfo>, dataEnd: nat)
    requires FreeListOk(fl, files, dataEnd)
    ensures Canonical(fl) && FreeInBounds(fl, dataEnd)
  {
    forall i | 0 <= i < |fl|
      ensures DATA_START <= fl[i].off && fl[i].End() <= dataEnd
    {
      FreeInRegion(fl, files, dataEnd, i);
    }
  }

  lemma LayoutInOrder(list: seq<Placement>, files: map<Key, ExtentInfo>, keep: ExtentInfo -> bool, fl: seq<Extent>, dataEnd: nat)
    requires multiset(list) == multiset(PlacementSet(files, keep)) && ByOffset(list)
    requires Placed(files, dataEnd) && DATA_START <= dataEnd && (forall k :: k in files ==> keep(files[k]))
    requires FreeListOk(fl, files, dataEnd)
    ensures forall i: nat :: !RunsOver(list, i)
    ensures Total(Places(list)) + Total(fl) == dataEnd - DATA_START
    ensures forall i :: 0 <= i < |fl| ==>
      && DATA_START <= fl[i].off && fl[i].End() <= dataEnd && fl[i].len > 0
      && (i + 1 < |fl| ==> fl[i].End() <= fl[i + 1].off)
  {
    hide FreeListOk, Placed, Total, Gaps, ByOffset, PlacementSet;
    PlacedInOrder(list, files, keep, dataEnd);
    RebuiltIsFree(list, files, keep, dataEnd);
    FreeListUnique(Gaps(Places(list), DATA_START, dataEnd), fl, files, dataEnd);
    forall i | 0 <= i < |fl|
      ensures DATA_START <= fl[i].off && fl[i].End() <= dataEnd && fl[i].len > 0
      ensures i + 1 < |fl| ==> fl[i].End() <= fl[i + 1].off
    {
      FreeInRegion(fl, files, dataEnd, i);
    }
    forall i: nat | i + 1 < |list|
      ensures !RunsOver(list, i)
    {
      assert Places(list)[i].End() <= Places(list)[i + 1].off;
    }
  }

  lemma TombsMarked(idx: Index, idx': Index, dirty: seq<bool>, flags: seq<bool>)
    requires idx' == Index(idx.files, map[]) && |dirty| == |flags| == NUM_SHARDS
    requires forall i :: 0 <= i < NUM_SHARDS && dirty[i] ==> flags[i]
    requires forall k :: k in idx.tombs ==> flags[ShardFor(k)]
    ensures DirtyMarked(idx, dirty, idx', flags)
  {
    hide ShardFor;
    forall i | 0 <= i < NUM_SHARDS
      ensures Shard(idx', i) != Shard(idx, i) ==> flags[i]
    {
      if forall k :: k in idx.tombs ==> ShardFor(k) != i {
        assert Shard(idx, i).tombs == map[];
      }
    }
  }

  lemma MarkTwo(idx: Index, idx': Index, dirty: seq<bool>, a: Key, b: Key)
    requires idx.files - {a} - {b} == idx'.files - {a} - {b} && idx.tombs == idx'.tombs && |dirty| == NUM_SHARDS
    ensures DirtyMarked(idx, dirty, idx', dirty[ShardFor(a) := true][ShardFor(b) := true])
  {
    hide ShardFor, DirtyMarked;
    var mid := Index(if a in idx'.files then idx.files[a := idx'.files[a]] else idx.files - {a}, idx.tombs);
    assert idx.files - {a} == mid.files - {a};
    assert mid.files - {b} == idx'.files - {b} by { MidAgrees(idx.files, idx'.files, a, b); }
    MarkOne(idx, mid, dirty, a);
    MarkOne(mid, idx', dirty[ShardFor(a) := true], b);
    DirtyTwice(idx, dirty, mid, dirty[ShardFor(a) := true], idx', dirty[ShardFor(a) := true][ShardFor(b) := true]);
  }

  lemma MidAgrees<V>(f: map<Key, V>, f': map<Key, V>, a: Key, b: Key)
    requires f - {a} - {b} == f' - {a} - {b}
    ensures (if a in f' then f[a := f'[a]] else f - {a}) - {b} == f' - {b}
  {
    var mid := if a in f' then f[a := f'[a]] else f - {a};
    forall k | k != b
      ensures k in mid <==> k in f'
      ensures k in f' ==> mid[k] == f'[k]
    {
      if k != a {
        assert k in f - {a} - {b} <==> k in f;
        assert k in f' - {a} - {b} <==> k in f';
        assert k in f' ==> (f' - {a} - {b})[k] == f'[k];
        assert k in f ==> (f - {a} - {b})[k] == f[k];
      }
    }
  }

  lemma RenamedObjects(z: Compressor, live: seq<byte>, files: map<Key, ExtentInfo>, from: Key, to: Key)
    requires from in files
    ensures
      var before := ObjectsOf(z, live, files);
      ObjectsOf(z, live, (files - {from})[to := files[from]])
        == if from in before then (before - {from})[to := before[from]] else before - {from, to}
  {
    hide Intact;
    ObjectsRemove(z, live, files, from);
    var before, rest := ObjectsOf(z, live, files), files - {from};
    if Intact(z, live, files[from]) {
      ObjectsUpdate(z, live, rest, to, files[from], ObjectOf(z, live, files[from]));
    } else {
      ObjectsUpdateDamaged(z, live, rest, to, files[from]);
      assert before - {from} - {to} == before - {from, to};
    }
  }

  lemma OnDeviceToo(c: ShardCodec, g: Geometry, m: Machine, info: ExtentInfo)
    requires Inv(c, g, m) && WellPlaced(info, g.DataEnd())
    ensures info.Place().End() <= |m.sys.disk.live|
  {
    hide PhaseOk, Placed, KeptUnharmed, SuperblockOk;
  }

  lemma CopiedEntry(z: Compressor, live: seq<byte>, live': seq<byte>, info: ExtentInfo, copy: ExtentInfo)
    requires copy == info.(offset := copy.offset, createdTxn := copy.createdTxn, lastModified := copy.lastModified)
    requires info.paddedSize == NumBlocks(info.size) * BLOCK
    requires SameBytes(live', copy.offset, live, info.offset, info.paddedSize)
    ensures Intact(z, live, info) <==> Intact(z, live', copy)
    ensures Intact(z, live, info) ==> ObjectOf(z, live, info) == ObjectOf(z, live', copy)
  {
    SameExtentSameEntry(z, live, live', info, copy);
    hide Intact;
  }

  lemma CopiedObjects(z: Compressor, live: seq<byte>, live': seq<byte>, files: map<Key, ExtentInfo>, from: Key, to: Key, copy: ExtentInfo)
    requires from in files && ObjectsOf(z, live', files) == ObjectsOf(z, live, files)
    requires Intact(z, live, files[from]) <==> Intact(z, live', copy)
    requires Intact(z, live, files[from]) ==> ObjectOf(z, live, files[from]) == ObjectOf(z, live', copy)
    ensures
      var before := ObjectsOf(z, live, files);
      ObjectsOf(z, live', files[to := copy]) == if from in before then before[to := before[from]] else before - {to}
  {
    hide Intact;
    if Intact(z, live, files[from]) {
      ObjectsUpdate(z, live', files, to, copy, ObjectOf(z, live', copy));
    } else {
      ObjectsUpdateDamaged(z, live', files, to, copy);
    }
  }

  lemma StoredNonEmpty(z: Compressor, payload: seq<byte>)
    requires z.Lawful() && payload != []
    ensures StoredForm(z, payload).0 != []
  {}

  lemma InvPlaced(c: ShardCodec, g: Geometry, m: Machine)
    requires Inv(c, g, m)
    ensures g.Valid() && Placed(m.sys.idx.files, g.DataEnd())
  {
    hide PhaseOk, KeptUnharmed, Placed;
  }

  lemma Idling(c: ShardCodec, g: Geometry, m: Machine)
    requires Inv(c, g, m) && m.sys.phase.Idle?
    ensures MutateNext(g, m, m) && Shaped(g, m.sys) && g.Valid() && |m.sys.dirty| == NUM_SHARDS
  {
    hide Early, Placed, SuperblockOk, Unharmed;
    NoWrites(m.sys.disk, m.sys.idx.files, g.DataEnd());
    assert m.kept * PlaceSet(m.sys.idx.files) == m.kept;
  }

  lemma OnDevice(c: ShardCodec, g: Geometry, m: Machine, e: Extent)
    requires Inv(c, g, m) && Unused(m.sys.idx.files, e, g.DataEnd())
    ensures e.End() <= |m.sys.disk.live| && InRegion(e, g.DataEnd())
  {
    hide PhaseOk, Placed, KeptUnharmed, SuperblockOk;
  }

  /** After writes confined to an unused extent, whatever came of them. */
  lemma Written(c: ShardCodec, g: Geometry, z: Compressor, m: Machine, d: Disk, e: Extent)
    requires Inv(c, g, m) && m.sys.phase.Idle? && Unused(m.sys.idx.files, e, g.DataEnd())
    requires WroteWithin(m.sys.disk, d, e.off, e.End())
    ensures |d.live| == |m.sys.disk.live| && FreeWrites(m.sys.disk, d, m.sys.idx.files, g.DataEnd())
    ensures ObjectsOf(z, d.live, m.sys.idx.files) == ObjectsOf(z, m.sys.disk.live, m.sys.idx.files)
    ensures
      var m' := m.(sys := m.sys.(disk := d), kept := m.kept * PlaceSet(m.sys.idx.files));
      MutateNext(g, m, m') && Inv(c, g, m')
  {
    hide PhaseOk, KeptUnharmed, SuperblockOk, ObjectsOf, Inv;
    assert Common(c, g, m) by { InvCommon(c, g, m); }
    WritesToUnused(m.sys.disk, d, m.sys.idx.files, e, g.DataEnd());
    ObjectsFrame(z, m.sys.disk, d, m.sys.idx.files, g.DataEnd(), e.off, e.End());
    hide WroteWithin, FreeWrites, Placed;
    var m' := m.(sys := m.sys.(disk := d), kept := m.kept * PlaceSet(m.sys.idx.files));
    MutateKeepsInv(c, g, m, m');
  }

  lemma InvCommon(c: ShardCodec, g: Geometry, m: Machine)
    requires Inv(c, g, m)
    ensures Common(c, g, m)
  {
    hide PhaseOk, KeptUnharmed;
  }

  lemma Mutated(c: ShardCodec, g: Geometry, m: Machine, m': Machine)
    requires Inv(c, g, m) && m.sys.phase == m'.sys.phase == Idle && m'.sys.sb == m.sys.sb && g.Valid()
    requires FreeWrites(m.sys.disk, m'.sys.disk, m.sys.idx.files, g.DataEnd()) && Placed(m'.sys.idx.files, g.DataEnd())
    requires DirtyMarked(m.sys.idx, m.sys.dirty, m'.sys.idx, m'.sys.dirty)
    requires m' == m.(sys := m'.sys, kept := m.kept * PlaceSet(m'.sys.idx.files))
    ensures MutateNext(g, m, m') && Inv(c, g, m')
  {
    hide Inv, FreeWrites, Placed, DirtyMarked;
    MutateKeepsInv(c, g, m, m');
  }
}
