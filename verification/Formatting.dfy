/** Formatting a device: 256 empty shards, then both superblock copies. */
module Formatting {
  import opened Crc32c
  import opened Base
  import opened Blocks
  import opened Disks
  import opened Allocators
  import opened Indexes
  import opened Superblocks
  import opened Recovery
  import opened Protocol
  import opened CrashSafety
  import opened CrashRuns
  import opened TornWrites
  import opened Objects
  import opened Stores

  const MAX_KEY_LENGTH_HARD_CEILING: nat := 0x1_0000
  const SHARD_OVERHEAD: nat := 98

  function EmptySlot(codec: ShardCodec): SlotMeta {
    SlotMeta(0, |codec.enc(NOTHING)|, Checksum(codec.enc(NOTHING)))
  }

  function FirstSuperblock(codec: ShardCodec, g: Geometry, flags: nat, maxKeyLength: nat, compression: nat): (sb: Superblock)
    requires g.Valid()
    ensures |sb.slots| == NUM_SHARDS
  {
    Superblock(flags, g.deviceSize, BLOCK, g.DataEnd(), |codec.enc(NOTHING)| * NUM_SHARDS, 1, 0, g.DataEnd(), 0, 0, 0,
               g.slotCapacity, seq(NUM_SHARDS, _ => EmptySlot(codec)), maxKeyLength, compression)
  }

  /** The first `n` slots of region A hold the empty shard. */
  ghost predicate EmptyBelow(codec: ShardCodec, g: Geometry, live: seq<byte>, n: nat)
    requires g.Valid()
  {
    forall i :: 0 <= i < n && i < NUM_SHARDS ==> ShardStored(codec, g, live, EmptySlot(codec), NOTHING, i)
  }

  method WriteEmptyShards(io: Device, codec: ShardCodec, g: Geometry) returns (ok: bool)
    requires codec.Lawful() && g.Valid() && |io.disk.live| == g.deviceSize && |codec.enc(NOTHING)| <= g.SlotSize()
    modifies io
    ensures |io.disk.live| == g.deviceSize
    ensures ok ==> EmptyBelow(codec, g, io.disk.live, NUM_SHARDS)
    ensures io.Reliable() ==> ok
  {
    hide ShardStored, Checksum, Patch;
    var bytes := codec.enc(NOTHING);
    for i := 0 to NUM_SHARDS
      invariant |io.disk.live| == g.deviceSize && EmptyBelow(codec, g, io.disk.live, i)
    {
      SlotsApart(g, 0, i, 0, 0);
      ghost var live := io.disk.live;
      ok := io.Pwrite(g.SlotOffset(0, i), bytes);
      if !ok {
        return;
      }
      StoredHere(codec, g, live, 0, i, NOTHING);
      forall j | 0 <= j < i
        ensures ShardStored(codec, g, io.disk.live, EmptySlot(codec), NOTHING, j)
      {
        StoredBeside(codec, g, live, 0, i, bytes, EmptySlot(codec), NOTHING, j);
      }
    }
    ok := true;
  }

  method WriteCopies(io: Device, bytes: seq<byte>) returns (ok: bool)
    requires |bytes| == SUPERBLOCK_SIZE && DATA_START <= |io.disk.live|
    modifies io
    ensures |io.disk.live| == old(|io.disk.live|)
    ensures ok ==>
      var live := Patch(Patch(old(io.disk.live), 0, bytes), SUPERBLOCK_SIZE, bytes);
      io.disk == Disk(live, live, [])
    ensures io.Reliable() ==> ok
  {
    hide Patch;
    ok := io.Pwrite(0, bytes);
    if !ok {
      return;
    }
    ok := io.Pwrite(SUPERBLOCK_SIZE, bytes);
    if !ok {
      return;
    }
    ok := io.Sync();
  }

  lemma CopiesWritten(codec: ShardCodec, g: Geometry, live: seq<byte>, sb: Superblock)
    requires g.Valid() && |live| == g.deviceSize && SuperblockOk(sb, g) && sb.slots == seq(NUM_SHARDS, _ => EmptySlot(codec))
    requires EmptyBelow(codec, g, live, NUM_SHARDS)
    ensures
      var live' := Patch(Patch(live, 0, CopyBytes(sb)), SUPERBLOCK_SIZE, CopyBytes(sb));
      Holds(codec, g, live', Commit(sb, NOTHING)) && live'[4096..8192] == CopyBytes(sb)
  {
    hide ShardStored, Checksum, Patch, CopyBytes, Encodable, FromBytes;
    var bytes := CopyBytes(sb);
    var mid := Patch(live, 0, bytes);
    var live' := Patch(mid, SUPERBLOCK_SIZE, bytes);
    PatchInside(live, 0, bytes);
    PatchOutside(mid, SUPERBLOCK_SIZE, bytes, 0, 4096);
    PatchInside(mid, SUPERBLOCK_SIZE, bytes);
    CopyRoundTrip(sb);
    forall i | 0 <= i < NUM_SHARDS
      ensures ShardStored(codec, g, live', sb.slots[i], Shard(NOTHING, i), i)
    {
      assert Shard(NOTHING, i) == NOTHING;
      StoredAfterPatch(codec, g, live, 0, bytes, sb.slots[i], NOTHING, i);
      StoredAfterPatch(codec, g, mid, SUPERBLOCK_SIZE, bytes, sb.slots[i], NOTHING, i);
    }
  }

  lemma FirstIsOk(codec: ShardCodec, g: Geometry, flags: nat, maxKeyLength: nat, compression: nat)
    requires g.Valid() && g.deviceSize < U64_LIMIT && |codec.enc(NOTHING)| < 0x1_0000
    requires flags < 4 && maxKeyLength < U32_LIMIT && compression < 256
    ensures SuperblockOk(FirstSuperblock(codec, g, flags, maxKeyLength, compression), g)
  {
    hide Checksum;
    var sb := FirstSuperblock(codec, g, flags, maxKeyLength, compression);
    assert Pow256(1) == 256 && Pow256(4) == U32_LIMIT && Pow256(8) == U64_LIMIT;
    SlotFits(0, |codec.enc(NOTHING)|, Checksum(codec.enc(NOTHING)));
  }

  datatype FormatOptions = FormatOptions(directIo: bool, indexSlotSize: nat, maxKeyLength: nat, compression: nat) {
    predicate SlotSizeOk() {
      indexSlotSize >= INDEX_REGION_SIZE && indexSlotSize % INDEX_REGION_SIZE == 0
    }
  }

  /** Why a device is not formatted, if so: index slots are whole multiples of 16 MB, keys have
      at most 64 KB, and there is room for both superblocks, one block and both index slots. */
  ghost function FormatRefusal(opts: FormatOptions, size: nat): Option<Error> {
    var slot := opts.indexSlotSize;
    if slot == 0 || slot % 16777216 != 0 then Some(InvalidIndexSlotSize(slot))
    else if opts.maxKeyLength > 65536 then Some(MaxKeyLengthTooLarge(opts.maxKeyLength, 65536))
    else if size < 12288 + 2 * slot then Some(DeviceTooSmall(size, 12288 + 2 * slot))
    else None
  }

  /** `limit` is the largest key length that is asked for and leaves 98 bytes of a slot. */
  predicate KeyLimit(asked: nat, slotSize: nat, limit: nat) {
    && limit <= asked && (limit == 0 || limit + 98 <= slotSize)
    && (limit == asked || limit + 98 == slotSize)
  }

  /** The first commit: transaction 1 of this device, with no previous one, every slot active
      in the first region. */
  ghost predicate FirstCommit(sb: Superblock, opts: FormatOptions, g: Geometry, emptySize: nat)
    requires g.Valid()
  {
    && sb.txnId == 1 && sb.prevTxnId == sb.prevIndexSize == sb.prevIndexChecksum == 0
    && sb.deviceSize == g.deviceSize && sb.indexRegionOffset == sb.prevIndexOffset == g.DataEnd() && sb.slotCapacity == g.slotCapacity
    && sb.blockAlignment == 4096 && sb.indexRegionSize == 256 * emptySize && sb.indexChecksum == 0
    && (sb.flags == if opts.directIo then 1 else 0)
    && |sb.slots| == 256 && forall i :: 0 <= i < 256 ==> sb.slots[i].active == 0 && sb.slots[i].size == emptySize
  }

  lemma FirstIsFirst(codec: ShardCodec, g: Geometry, opts: FormatOptions, maxKeyLength: nat)
    requires g.Valid()
    ensures FirstCommit(FirstSuperblock(codec, g, if opts.directIo then 1 else 0, maxKeyLength, opts.compression), opts, g, |codec.enc(NOTHING)|)
  {
    hide Checksum;
    var sb := FirstSuperblock(codec, g, if opts.directIo then 1 else 0, maxKeyLength, opts.compression);
    assert forall i :: 0 <= i < 256 ==> sb.slots[i] == EmptySlot(codec);
  }

  /** Format a device of the size of `io` and open it. */
  method Format(io: Device, opts: FormatOptions, codec: ShardCodec, zs: Compressors) returns (r: Result<RawStore>)
    requires codec.Lawful() && LawfulCodes(zs) && |codec.enc(NOTHING)| < 0x1_0000
    requires |io.disk.live| < U64_LIMIT && opts.compression <= LAST_COMPRESSION
    modifies io
    ensures
      var refusal := FormatRefusal(opts, old(|io.disk.live|));
      if refusal.Some? then r == Err(refusal.value) && io.disk == old(io.disk) else io.Reliable() ==> r.Ok?
    ensures r.Ok? ==>
      var s := r.value;
      && fresh(s) && fresh(s.allocator) && s.io == io && s.g == Geometry(old(|io.disk.live|), opts.indexSlotSize)
      && s.Valid() && s.Objects() == map[] && s.z == zs(opts.compression) && s.superblock.compression == opts.compression
      && Formatted(codec, s.g, s.State()) && CopiesAgree(s.State())
      && s.maxKeyLength == s.superblock.maxKeyLength && KeyLimit(opts.maxKeyLength, s.g.SlotSize(), s.maxKeyLength)
      && FirstCommit(s.superblock, opts, s.g, |codec.enc(NOTHING)|)
  {
    hide Holds, SuperblockOk, EmptyBelow, CopyBytes, Patch, Checksum, FirstCommit;
    if !opts.SlotSizeOk() {
      return Err(InvalidIndexSlotSize(opts.indexSlotSize));
    }
    if opts.maxKeyLength > MAX_KEY_LENGTH_HARD_CEILING {
      return Err(MaxKeyLengthTooLarge(opts.maxKeyLength, MAX_KEY_LENGTH_HARD_CEILING));
    }
    if |io.disk.live| < MinDeviceSize(opts.indexSlotSize) {
      return Err(DeviceTooSmall(|io.disk.live|, MinDeviceSize(opts.indexSlotSize)));
    }
    var g := Geometry(|io.disk.live|, opts.indexSlotSize);
    var maxKey := Min(opts.maxKeyLength, SaturatingSub(g.SlotSize(), SHARD_OVERHEAD));
    var ok := WriteEmptyShards(io, codec, g);
    if !ok {
      return Err(Io);
    }
    var sb := FirstSuperblock(codec, g, if opts.directIo then 1 else 0, maxKey, opts.compression);
    FirstIsOk(codec, g, sb.flags, maxKey, opts.compression);
    FirstIsFirst(codec, g, opts, maxKey);
    CopiesWritten(codec, g, io.disk.live, sb);
    var bytes := ToBytes(sb);
    ok := WriteCopies(io, bytes.value);
    if !ok {
      return Err(Io);
    }
    var allocator := new ExtentAllocator(DATA_START, g.DataEnd());
    var store := new RawStore(io, g, codec, zs(opts.compression), maxKey, allocator, NOTHING, sb, seq(NUM_SHARDS, _ => false), false,
                              Commit(sb, NOTHING), io.disk.live, {});
    FreshStore(store);
    r := Ok(store);
  }

  ghost predicate RoomForFirst(opts: FormatOptions, g: Geometry, z: Compressor, key: Key, payload: seq<byte>) {
    && payload != [] && |key| <= opts.maxKeyLength && |key| + 98 <= g.SlotSize()
    && DATA_START + NumBlocks(|StoredForm(z, payload).0|) * BLOCK + 2 * g.slotCapacity <= g.deviceSize
  }

  /** Format a device and store a first object. On a device that does not fail, every key up to
      the length asked for that fits its shard alone can be used, and every payload that fits
      the data region. */
  method FormatThenPut(io: Device, opts: FormatOptions, codec: ShardCodec, zs: Compressors, key: Key, payload: seq<byte>, metaLen: nat, now: nat)
    returns (r: Result<RawStore>)
    requires codec.Lawful() && LawfulCodes(zs) && |codec.enc(NOTHING)| < 0x1_0000
    requires |io.disk.live| < U64_LIMIT && opts.compression <= LAST_COMPRESSION
    modifies io
    ensures r.Ok? ==> fresh(r.value) && r.value.Valid() && r.value.Objects() == map[key := Object(payload, metaLen)]
    ensures
      var g := Geometry(old(|io.disk.live|), opts.indexSlotSize);
      io.Reliable() && FormatRefusal(opts, g.deviceSize).None? && RoomForFirst(opts, g, zs(opts.compression), key, payload) ==> r.Ok?
  {
    hide ObjectsOf, Inv, Formatted, FirstCommit, StoredForm, CopiesAgree, NumBlocks;
    var formatted := Format(io, opts, codec, zs);
    if formatted.Err? {
      return formatted;
    }
    var s := formatted.value;
    ghost var fl, n := s.allocator.freeList, |StoredForm(s.z, payload).0|;
    FormattedEmpty(codec, s.g, s.State());
    if DATA_START + NumBlocks(n) * BLOCK <= s.g.DataEnd() {
      WholeRegionFree(fl, NumBlocks(n) * BLOCK, s.g.DataEnd());
    }
    if payload != [] {
      StoredNonEmpty(s.z, payload);
    }
    var done := s.Put(key, payload, metaLen, now);
    if done.Err? {
      return Err(done.error);
    }
    assert map[][key := Object(payload, metaLen)] == map[key := Object(payload, metaLen)];
    r := Ok(s);
  }

  lemma FormattedEmpty(codec: ShardCodec, g: Geometry, m: Machine)
    requires Formatted(codec, g, m)
    ensures m.sys.idx == NOTHING
  {
    hide Holds, SuperblockOk;
  }

  lemma WholeRegionFree(fl: seq<Extent>, n: nat, dataEnd: nat)
    requires FreeListOk(fl, map[], dataEnd) && DATA_START + n <= dataEnd
    ensures AllFree(fl, DATA_START, n)
  {
    hide Covers, Canonical, Aligned;
  }

  lemma FreshStore(s: RawStore)
    requires s.z.Lawful() && Formatted(s.codec, s.g, s.State()) && Noted(s.shardDirty, s.dirty)
    requires Canonical(s.allocator.freeList) && Aligned(s.allocator.freeList)
    requires forall x :: Covers(s.allocator.freeList, x) <==> DATA_START <= x < s.g.DataEnd()
    ensures s.Valid() && s.Objects() == map[]
  {
    hide Holds, SuperblockOk, Canonical, Covers, Aligned, Inv;
    FormattedInv(s.codec, s.g, s.State());
  }

  // ---- A formatted device as a value -------------------------------------

  /** A device of zeros with the empty shard in the first `n` slots of region A. */
  ghost function EmptyDevice(codec: ShardCodec, g: Geometry, n: nat): (img: seq<byte>)
    requires g.Valid() && |codec.enc(NOTHING)| <= g.SlotSize() && n <= NUM_SHARDS
    ensures |img| == g.deviceSize
  {
    if n == 0 then seq(g.deviceSize, _ => 0)
    else
      SlotsApart(g, 0, n - 1, 0, 0);
      Patch(EmptyDevice(codec, g, n - 1), g.SlotOffset(0, n - 1), codec.enc(NOTHING))
  }

  lemma {:induction false} EmptyDeviceHolds(codec: ShardCodec, g: Geometry, n: nat)
    requires codec.Lawful() && g.Valid() && |codec.enc(NOTHING)| <= g.SlotSize() && n <= NUM_SHARDS
    ensures EmptyBelow(codec, g, EmptyDevice(codec, g, n), n)
    decreases n
  {
    hide ShardStored, Checksum, Patch;
    if n > 0 {
      EmptyDeviceHolds(codec, g, n - 1);
      var before := EmptyDevice(codec, g, n - 1);
      SlotsApart(g, 0, n - 1, 0, 0);
      StoredHere(codec, g, before, 0, n - 1, NOTHING);
      forall j | 0 <= j < n - 1
        ensures ShardStored(codec, g, EmptyDevice(codec, g, n), EmptySlot(codec), NOTHING, j)
      {
        StoredBeside(codec, g, before, 0, n - 1, codec.enc(NOTHING), EmptySlot(codec), NOTHING, j);
      }
    }
  }

  /** Every geometry and serializer that format accepts has a formatted device. */
  lemma SomeFormatted(codec: ShardCodec, g: Geometry) returns (m: Machine)
    requires codec.Lawful() && g.Valid() && g.deviceSize < U64_LIMIT
    requires |codec.enc(NOTHING)| <= g.SlotSize() && |codec.enc(NOTHING)| < 0x1_0000
    ensures Formatted(codec, g, m) && CopiesAgree(m)
    ensures m.com.sb.slots == seq(NUM_SHARDS, _ => EmptySlot(codec)) && m.com.sb.txnId == 1
  {
    hide Holds, SuperblockOk, EmptyBelow, CopyBytes, Patch, Checksum, EmptyDevice;
    var sb := FirstSuperblock(codec, g, 0, MAX_KEY_LENGTH_HARD_CEILING, 0);
    FirstIsOk(codec, g, 0, MAX_KEY_LENGTH_HARD_CEILING, 0);
    EmptyDeviceHolds(codec, g, NUM_SHARDS);
    var bare := EmptyDevice(codec, g, NUM_SHARDS);
    CopiesWritten(codec, g, bare, sb);
    var img := Patch(Patch(bare, 0, CopyBytes(sb)), SUPERBLOCK_SIZE, CopyBytes(sb));
    m := Machine(Sys(Disk(img, img, []), NOTHING, sb, seq(NUM_SHARDS, _ => false), Idle), Commit(sb, NOTHING), img, {});
  }
}
