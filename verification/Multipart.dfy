/** Multipart uploads: parts are stored as objects under temporary keys, then concatenated
    into one object. */
module Multipart {
  import opened Crc32c
  import opened Base
  import opened Blocks
  import opened Disks
  import opened Streaming
  import opened Allocators
  import opened Indexes
  import opened Superblocks
  import opened Recovery
  import opened Protocol
  import opened CrashSafety
  import opened Objects
  import opened Space
  import opened ExtentIo
  import opened Stores
  import opened Opening

  // ---- Part keys ---------------------------------------------------------

  const SLASH: byte := 0x2f

  function Decimal(n: nat): (r: seq<byte>)
    ensures r != []
  {
    if n < 10 then [ByteOf(48 + n)] else Decimal(n / 10) + [ByteOf(48 + n % 10)]
  }

  function FromDecimal(s: seq<byte>): int {
    if s == [] then 0 else 10 * FromDecimal(s[..|s| - 1]) + ByteValue(s[|s| - 1]) - 48
  }

  lemma {:induction false} DecimalRoundTrip(n: nat)
    ensures FromDecimal(Decimal(n)) == n
  {
    hide ByteOf, ByteValue;
    if n >= 10 {
      DecimalRoundTrip(n / 10);
      ByteRoundTrip(48 + n % 10);
      LastDigit(Decimal(n / 10), ByteOf(48 + n % 10));
    } else {
      ByteRoundTrip(48 + n);
      LastDigit([], ByteOf(48 + n));
      assert [] + [ByteOf(48 + n)] == [ByteOf(48 + n)];
    }
  }

  lemma LastDigit(s: seq<byte>, b: byte)
    ensures FromDecimal(s + [b]) == 10 * FromDecimal(s) + ByteValue(b) - 48
  {
    assert (s + [b])[..|s|] == s;
  }

  function PartKey(upload: nat, part: nat): Key {
    MULTIPART_PREFIX + Decimal(upload) + [SLASH] + Decimal(part)
  }

  /** Parts of one upload have different keys, all of them temporary. */
  lemma PartKeysDiffer(upload: nat, i: nat, j: nat)
    ensures Temporary(PartKey(upload, i))
    ensures i != j ==> PartKey(upload, i) != PartKey(upload, j)
  {
    var stem := MULTIPART_PREFIX + Decimal(upload) + [SLASH];
    assert PartKey(upload, i)[..|MULTIPART_PREFIX|] == MULTIPART_PREFIX;
    assert PartKey(upload, i)[|stem|..] == Decimal(i) && PartKey(upload, j)[|stem|..] == Decimal(j);
    DecimalRoundTrip(i);
    DecimalRoundTrip(j);
  }

  /** "__raw_multipart_tmp/12/305": decimal numbers, highest digit first. */
  lemma PartKeyExample()
    ensures PartKey(12, 305) == MULTIPART_PREFIX + [0x31, 0x32, 0x2f, 0x33, 0x30, 0x35]
  {
    hide Decimal, ByteOf;
    DigitBytes();
    OneDigit(1);
    MoreDigits(1, 2);
    OneDigit(3);
    MoreDigits(3, 0);
    MoreDigits(30, 5);
    assert Decimal(12) == [0x31, 0x32] && Decimal(305) == [0x33, 0x30, 0x35];
  }

  lemma DigitBytes()
    ensures ByteOf(48) == 0x30 && ByteOf(49) == 0x31 && ByteOf(50) == 0x32 && ByteOf(51) == 0x33 && ByteOf(53) == 0x35
  {}

  lemma OneDigit(d: nat)
    requires d < 10
    ensures Decimal(d) == [ByteOf(48 + d)]
  {}

  lemma MoreDigits(n: nat, d: nat)
    requires n > 0 && d < 10
    ensures Decimal(10 * n + d) == Decimal(n) + [ByteOf(48 + d)]
  {}

  // ---- Writing the parts one after the other -----------------------------

  function SumSizes(infos: seq<ExtentInfo>): nat {
    if infos == [] then 0 else SumSizes(infos[..|infos| - 1]) + LogicalSize(infos[|infos| - 1])
  }

  /** `parts` are what reading the extents gives, with the recorded lengths. */
  ghost predicate Contents(z: Compressor, live: seq<byte>, infos: seq<ExtentInfo>, parts: seq<seq<byte>>) {
    |parts| == |infos| && forall i :: 0 <= i < |infos| ==> ReadsAs(z, live, infos[i], parts[i])
  }

  ghost predicate ReadsAs(z: Compressor, live: seq<byte>, info: ExtentInfo, part: seq<byte>) {
    Payload(z, live, info) == Ok(part) && |part| == LogicalSize(info)
  }

  lemma {:induction false} SumIsLength(z: Compressor, live: seq<byte>, infos: seq<ExtentInfo>, parts: seq<seq<byte>>)
    requires Contents(z, live, infos, parts)
    ensures |Concat(parts)| == SumSizes(infos)
    decreases |infos|
  {
    hide Payload;
    if infos != [] {
      var n := |infos| - 1;
      SumIsLength(z, live, infos[..n], parts[..n]);
      assert ReadsAs(z, live, infos[n], parts[n]);
    }
  }

  /** No part decodes to a length other than the recorded one. */
  ghost predicate Sound(z: Compressor, live: seq<byte>, info: ExtentInfo) {
    Payload(z, live, info).Ok? ==> |Payload(z, live, info).value| == LogicalSize(info)
  }

  /** Some part cannot be read back. */
  ghost predicate Unreadable(z: Compressor, live: seq<byte>, infos: seq<ExtentInfo>) {
    exists i :: 0 <= i < |infos| && Payload(z, live, infos[i]).Err?
  }

  method ReadPart(io: Device, z: Compressor, info: ExtentInfo) returns (r: Result<seq<byte>>)
    requires info.Place().End() <= |io.disk.live| && info.paddedSize == NumBlocks(info.size) * BLOCK
    ensures r == Payload(z, io.disk.live, info)
  {
    hide Decode;
    var content :- ReadAndDecodeBatched(io, info.offset, info.size);
    if info.uncompressedSize > 0 {
      match z.decompress(content)
      case None => return Err(Io);
      case Some(payload) => return Ok(payload);
    }
    r := Ok(content);
  }

  /** Every extent is on the device. */
  ghost predicate OnDisk(live: seq<byte>, infos: seq<ExtentInfo>) {
    forall i :: 0 <= i < |infos| ==>
      infos[i].Place().End() <= |live| && infos[i].paddedSize == NumBlocks(infos[i].size) * BLOCK
  }

  ghost predicate SoundParts(z: Compressor, live: seq<byte>, infos: seq<ExtentInfo>) {
    forall i :: 0 <= i < |infos| ==> Sound(z, live, infos[i])
  }

  /** Every extent is clear of `[a, b)`. */
  ghost predicate Clear(infos: seq<ExtentInfo>, a: nat, b: nat) {
    forall i :: 0 <= i < |infos| ==> infos[i].Place().End() <= a || b <= infos[i].offset
  }

  method ReadParts(io: Device, z: Compressor, infos: seq<ExtentInfo>) returns (r: Result<seq<seq<byte>>>)
    requires OnDisk(io.disk.live, infos)
    ensures r.Ok? && SoundParts(z, io.disk.live, infos) ==> Contents(z, io.disk.live, infos, r.value)
    ensures r.Err? ==> Unreadable(z, io.disk.live, infos)
  {
    hide Payload;
    var parts := [];
    ghost var good := SoundParts(z, io.disk.live, infos);
    for i := 0 to |infos|
      invariant good ==> Contents(z, io.disk.live, infos[..i], parts)
    {
      var part := ReadPart(io, z, infos[i]);
      if part.Err? {
        return Err(part.error);
      }
      assert good ==> ReadsAs(z, io.disk.live, infos[i], part.value);
      parts := parts + [part.value];
    }
    assert infos[..|infos|] == infos;
    r := Ok(parts);
  }

  lemma SamePart(z: Compressor, d: Disk, d': Disk, info: ExtentInfo, a: nat, b: nat)
    requires WroteWithin(d, d', a, b) && info.Place().End() <= |d.live| && info.paddedSize == NumBlocks(info.size) * BLOCK
    requires info.Place().End() <= a || b <= info.offset
    ensures |d'.live| == |d.live| && Payload(z, d'.live, info) == Payload(z, d.live, info)
  {
    hide Payload, Intact;
    WroteOutside(d, d', a, b, info.offset, info.Place().End());
    SameExtentSameEntry(z, d.live, d'.live, info, info);
  }

  lemma SumPrefix(infos: seq<ExtentInfo>, i: nat)
    requires i < |infos|
    ensures SumSizes(infos[..i + 1]) == SumSizes(infos[..i]) + LogicalSize(infos[i])
  {
    assert infos[..i + 1][..i] == infos[..i];
  }

  lemma {:induction false} SumGrows(infos: seq<ExtentInfo>, i: nat)
    requires i <= |infos|
    ensures SumSizes(infos[..i]) <= SumSizes(infos)
    decreases |infos| - i
  {
    if i < |infos| {
      SumPrefix(infos, i);
      SumGrows(infos, i + 1);
    } else {
      assert infos[..i] == infos;
    }
  }

  lemma ConcatNext(parts: seq<seq<byte>>, part: seq<byte>)
    ensures Concat(parts + [part]) == Concat(parts) + part
  {
    assert (parts + [part])[..|parts|] == parts;
  }

  /** Read the parts in order and stream them into one extent, reserved for their recorded
      sizes. `good` says that the parts have those sizes. */
  method StreamParts(io: Device, z: Compressor, infos: seq<ExtentInfo>, dst: nat, ghost good: bool)
    returns (r: Result<bv32>, ghost parts: seq<seq<byte>>)
    requires dst + NumBlocks(SumSizes(infos)) * BLOCK <= |io.disk.live| && OnDisk(io.disk.live, infos)
    requires good ==> SoundParts(z, io.disk.live, infos) && Clear(infos, dst, dst + NumBlocks(SumSizes(infos)) * BLOCK)
    modifies io
    ensures |io.disk.live| == old(|io.disk.live|)
    ensures good ==> WroteWithin(old(io.disk), io.disk, dst, dst + NumBlocks(SumSizes(infos)) * BLOCK)
    ensures good && r.Ok? ==>
      && Contents(z, old(io.disk).live, infos, parts) && |Concat(parts)| == SumSizes(infos) && r.value == Crc(Concat(parts))
      && io.disk.live[dst..dst + NumBlocks(SumSizes(infos)) * BLOCK] == Encode(Concat(parts))
    ensures good && r.Err? ==> Unreadable(z, old(io.disk).live, infos) || (r.error.Io? && !io.Reliable())
  {
    hide Encode, Crc, WroteWithin, Payload, Concat, SumSizes, NumBlocks, Contents;
    ghost var d0 := io.disk;
    ghost var limit := if good then dst + NumBlocks(SumSizes(infos)) * BLOCK else |d0.live|;
    var writer := new StreamingBlockWriter(io, dst);
    var crc: bv32 := 0;
    var fed: nat := 0;
    parts := [];
    WroteNothing(d0, dst, limit);
    StartStream(z, d0.live, infos);
    for i := 0 to |infos|
      invariant fresh(writer) && writer.io == io && writer.extentOffset == dst && writer.Valid()
      invariant WroteWithin(d0, io.disk, dst, limit) && |io.disk.live| == |d0.live|
      invariant crc == Crc(writer.Fed()) && |writer.Fed()| == fed && dst + NumBlocks(fed) * BLOCK <= limit
      invariant good ==> writer.Fed() == Concat(parts) && fed == SumSizes(infos[..i]) && Contents(z, d0.live, infos[..i], parts)
    {
      var part := ReadPart(io, z, infos[i]);
      if good {
        SamePart(z, d0, io.disk, infos[i], dst, limit);
        if part.Ok? {
          NextFits(z, d0.live, infos, i, parts, part.value);
        }
      }
      if part.Err? {
        return Err(part.error), parts;
      }
      if dst + NumBlocks(fed + |part.value|) * BLOCK > |io.disk.live| {
        return Err(Io), parts;
      }
      var ok;
      ok, crc := FeedChunk(writer, part.value, crc, d0, limit);
      if !ok {
        return Err(Io), parts;
      }
      fed := fed + |part.value|;
      parts := parts + [part.value];
    }
    assert infos[..|infos|] == infos;
    ghost var d1 := io.disk;
    var ok := writer.Finish(limit);
    WroteMore(d0, d1, io.disk, dst, limit, dst, limit);
    WroteSize(d0, io.disk, dst, limit);
    r := if ok then Ok(crc) else Err(Io);
  }

  lemma StartStream(z: Compressor, live: seq<byte>, infos: seq<ExtentInfo>)
    ensures Crc([]) == 0 && Concat([]) == [] && SumSizes(infos[..0]) == 0 && Contents(z, live, infos[..0], []) && NumBlocks(0) == 0
  {
    assert infos[..0] == [];
  }

  /** The next part of its recorded size still fits. */
  lemma NextFits(z: Compressor, live: seq<byte>, infos: seq<ExtentInfo>, i: nat, parts: seq<seq<byte>>, part: seq<byte>)
    requires i < |infos| && SoundParts(z, live, infos) && Contents(z, live, infos[..i], parts)
    requires Payload(z, live, infos[i]) == Ok(part)
    ensures Contents(z, live, infos[..i + 1], parts + [part]) && Concat(parts + [part]) == Concat(parts) + part
    ensures SumSizes(infos[..i]) + |part| == SumSizes(infos[..i + 1])
    ensures NumBlocks(SumSizes(infos[..i]) + |part|) * BLOCK <= NumBlocks(SumSizes(infos)) * BLOCK
  {
    hide Payload, Concat, SumSizes;
    SumPrefix(infos, i);
    SumGrows(infos, i + 1);
    MoreBlocks(SumSizes(infos[..i + 1]), SumSizes(infos));
    ConcatNext(parts, part);
    assert Sound(z, live, infos[i]) && ReadsAs(z, live, infos[i], part);
  }

  /** Parts compressed as one stream read back as their concatenation. */
  lemma CompositeIsIntact(z: Compressor, live: seq<byte>, parts: seq<seq<byte>>, info: ExtentInfo)
    requires z.Lawful() && info.size == |z.compressParts(parts)| && info.crc == Crc(z.compressParts(parts))
    requires info.uncompressedSize == |Concat(parts)| > 0
    requires info.offset + NumBlocks(info.size) * BLOCK <= |live|
    requires live[info.offset..info.offset + NumBlocks(info.size) * BLOCK] == Encode(z.compressParts(parts))
    ensures Intact(z, live, info) && ObjectOf(z, live, info) == Object(Concat(parts), info.metaLen)
  {
    hide Decode, Encode, Crc;
    RoundTrip(z.compressParts(parts));
  }

  // ---- The upload --------------------------------------------------------

  class RawMultipartUpload {
    const store: RawStore
    const location: Key
    const uploadId: nat
    var partCount: nat
    var partKeys: seq<Key>

    constructor (store: RawStore, location: Key, uploadId: nat)
      ensures this.store == store && this.location == location && this.uploadId == uploadId
      ensures partCount == 0 && partKeys == []
    {
      this.store, this.location, this.uploadId := store, location, uploadId;
      partCount, partKeys := 0, [];
    }

    /** The keys are those of the last `|partKeys|` parts handed in. */
    ghost predicate Valid()
      reads this
    {
      && |partKeys| <= partCount
      && forall i :: 0 <= i < |partKeys| ==> partKeys[i] == PartKey(uploadId, partCount - |partKeys| + i)
    }

    /** Store a part under its own temporary key. */
    method PutPart(data: seq<byte>, now: nat) returns (r: Result<()>)
      requires Valid() && store.Valid()
      modifies this, store, store.io, store.allocator
      ensures Valid() && store.Valid() && store.allocator == old(store.allocator)
      ensures MutateNext(store.g, old(store.State()), store.State())
      ensures partCount == old(partCount) + 1 && partKeys == old(partKeys) + [PartKey(uploadId, old(partCount))]
      ensures
        var key := PartKey(uploadId, old(partCount));
        && (r.Ok? ==> store.Objects() == old(store.Objects())[key := Object(data, 0)])
        && (r.Ok? ==> OnlyKeyChanged(old(store.index), store.index, key))
        && (r.Err? ==> store.index == old(store.index) && store.Objects() == old(store.Objects()))
      ensures r.Err? ==>
        PutRefused(r.error, PartKey(uploadId, old(partCount)), store.maxKeyLength, |StoredForm(store.z, data).0|,
                   old(store.allocator.freeList), store.io.Reliable())
    {
      hide Inv, ObjectsOf, MutateNext, Decimal;
      var key := PartKey(uploadId, partCount);
      partCount := partCount + 1;
      partKeys := partKeys + [key];
      r := store.Put(key, data, 0, now);
    }

    /** Remove the stored parts and free their extents. `good` says that the store is in order. */
    method DropParts(ghost m: Machine, ghost good: bool)
      requires store.SpaceOk() && |store.shardDirty| == NUM_SHARDS
      requires good ==> store.Valid() && MutateNext(store.g, m, store.State())
      modifies this`partKeys, store, store.allocator
      ensures store.SpaceOk() && store.allocator == old(store.allocator) && store.io.disk == old(store.io.disk) && partKeys == []
      ensures store.index == Index(old(store.index.files) - KeySet(old(partKeys)), old(store.index.tombs))
      ensures good ==> store.Valid() && MutateNext(store.g, m, store.State())
      ensures good ==> store.Objects() == old(store.Objects()) - KeySet(old(partKeys))
    {
      hide Inv, ObjectsOf, MutateNext, Placed, FreeListOk;
      ghost var files, objects := store.index.files, store.Objects();
      var keys := partKeys;
      assert files - KeySet(keys[..0]) == files && objects - KeySet(keys[..0]) == objects;
      for i := 0 to |keys|
        invariant store.SpaceOk() && |store.shardDirty| == NUM_SHARDS
        invariant store.allocator == old(store.allocator) && store.io.disk == old(store.io.disk)
        invariant store.index == Index(files - KeySet(keys[..i]), old(store.index.tombs))
        invariant good ==> store.Valid() && MutateNext(store.g, m, store.State()) && store.Objects() == objects - KeySet(keys[..i])
      {
        ghost var m1 := store.State();
        store.Drop(keys[i], good);
        if good {
          FewerPlaces(m1.sys.idx.files, {keys[i]});
          MutateThenShrink(store.g, m, m1, store.State());
        }
        MinusNext(files, keys, i);
        MinusNext(objects, keys, i);
      }
      assert keys[..|keys|] == keys;
      partKeys := [];
    }

    /** Look up the stored parts. */
    method PartInfos() returns (r: Result<seq<ExtentInfo>>)
      ensures r.Ok? ==> Looked(store.index.files, partKeys, r.value)
      ensures r.Err? ==> r == Err(NotFound) && exists i :: 0 <= i < |partKeys| && partKeys[i] !in store.index.files
    {
      var infos := [];
      for i := 0 to |partKeys|
        invariant Looked(store.index.files, partKeys[..i], infos)
      {
        if partKeys[i] !in store.index.files {
          return Err(NotFound);
        }
        infos := infos + [store.index.files[partKeys[i]]];
      }
      assert partKeys[..|partKeys|] == partKeys;
      r := Ok(infos);
    }

    /** Write already compressed parts and point the destination at them, with `total` as the
        recorded size. */
    method WriteCompressed(compressed: seq<byte>, total: nat, now: nat, ghost parts: seq<seq<byte>>) returns (r: Result<()>)
      requires store.Valid() && compressed == store.z.compressParts(parts) && total > 0
      modifies store, store.io, store.allocator
      ensures store.Valid() && store.allocator == old(store.allocator) && MutateNext(store.g, old(store.State()), store.State())
      ensures r.Ok? ==> OnlyKeyChanged(old(store.index), store.index, location)
      ensures r.Ok? ==> Entered(store.index.files, location, compressed, total, store.superblock.txnId, now)
      ensures store.superblock == old(store.superblock)
      ensures r.Ok? && total == |Concat(parts)| ==> store.Objects() == old(store.Objects())[location := Object(Concat(parts), 0)]
      ensures r.Err? ==> Untouched(old(store.index), old(store.allocator.freeList), old(store.Objects()))
      ensures r.Err? ==> NoRoom(r.error, |compressed|, old(store.allocator.freeList)) || (r.error.Io? && !store.io.Reliable())
    {
      hide Inv, ObjectsOf, MutateNext, Encode, Crc, WroteWithin, RawStore.SpaceOk, Reserved, Placed, Concat, Intact;
      ghost var m, fl := store.State(), store.allocator.freeList;
      Idling(store.codec, store.g, m);
      assert compressed != [];
      var prepared := store.Prepare(|compressed|);
      if prepared.Err? {
        return Err(prepared.error);
      }
      var e := prepared.value;
      ghost var start := store.State();
      var ok, crc := StreamPayload(store.io, e.off, compressed);
      StillReserved(store.codec, store.g, m, start, store.io.disk, e, fl, store.allocator.freeList);
      if !ok {
        store.Abandon(e, m, fl);
        return Err(Io);
      }
      var info := ExtentInfo(e.off, |compressed|, e.len, crc, store.superblock.txnId, now, 0, total);
      if total == |Concat(parts)| {
        CompositeIsIntact(store.z, store.io.disk.live, parts, info);
      }
      store.Adopt(location, info, true, m, fl);
      ObjectsPut(store.z, store.io.disk.live, m.sys.idx.files, location, info);
      r := Ok(());
    }

    /** Stream the parts from their extents and point the destination at the result. */
    method WriteJoined(infos: seq<ExtentInfo>, now: nat, ghost good: bool) returns (r: Result<()>, ghost parts: seq<seq<byte>>)
      requires store.Valid() && SumSizes(infos) > 0 && Looked(store.index.files, partKeys, infos)
      requires good ==> SoundParts(store.z, store.io.disk.live, infos)
      modifies store, store.io, store.allocator
      ensures store.SpaceOk() && |store.shardDirty| == NUM_SHARDS && store.allocator == old(store.allocator)
      ensures r.Ok? ==> OnlyKeyChanged(old(store.index), store.index, location)
      ensures r.Err? ==> store.index == old(store.index) && store.allocator.freeList == old(store.allocator.freeList)
      ensures good ==> Joined(infos, parts, r, old(store.State()), old(store.Objects()), old(store.allocator.freeList))
      ensures good && r.Ok? ==> Entered(store.index.files, location, Concat(parts), 0, old(store.superblock.txnId), now)
    {
      hide Inv, ObjectsOf, MutateNext, Encode, Crc, WroteWithin, RawStore.SpaceOk, FreeListOk, ReservedOk, Placed, Concat, Intact, Contents, OnDisk, Clear, SumSizes;
      parts := [];
      ghost var m, fl := store.State(), store.allocator.freeList;
      Idling(store.codec, store.g, m);
      var size := SumSizes(infos);
      assert store.SpaceOk();
      var prepared := store.Prepare(size);
      if prepared.Err? {
        return Err(prepared.error), parts;
      }
      var e := prepared.value;
      ghost var start := store.State();
      store.PreparingStaged(m, e, fl);
      PartsOnDisk(store.codec, store.g, m, partKeys, infos);
      PartsClear(m.sys.idx.files, partKeys, infos, e, store.g.DataEnd());
      hide Unused, Reserved, RawStore.Staged;
      var crc;
      crc, parts := StreamParts(store.io, store.z, infos, e.off, good);
      if good {
        StillReserved(store.codec, store.g, m, start, store.io.disk, e, fl, store.allocator.freeList);
      }
      if crc.Err? {
        store.GiveUp(e, m, fl, good);
        return Err(crc.error), parts;
      }
      var info := ExtentInfo(e.off, size, e.len, crc.value, store.superblock.txnId, now, 0, 0);
      if good {
        PlainIsIntact(store.z, store.io.disk.live, Concat(parts), info);
      }
      store.Settle(location, info, Object(Concat(parts), 0), m, fl, good);
      r := Ok(());
    }

    /** What joining parts of their recorded sizes comes to, from state `m` with `objects` and
        free list `fl`. */
    ghost predicate Joined(infos: seq<ExtentInfo>, parts: seq<seq<byte>>, r: Result<()>, m: Machine, objects: map<Key, Object>, fl: seq<Extent>)
      reads store, store.io, store.allocator
    {
      && store.Valid() && MutateNext(store.g, m, store.State())
      && (r.Ok? ==> Contents(store.z, m.sys.disk.live, infos, parts) && store.Objects() == objects[location := Object(Concat(parts), 0)])
      && (r.Err? ==> Untouched(m.sys.idx, fl, objects) && JoinRefused(r.error, store.z, m.sys.disk.live, infos, fl, store.io.Reliable()))
    }

    /** Write the parts as one object, compressed if that helps. `good` says that the parts have
        their recorded sizes. */
    method WriteComposite(infos: seq<ExtentInfo>, now: nat, ghost good: bool) returns (r: Result<()>, ghost parts: seq<seq<byte>>)
      requires store.Valid() && SumSizes(infos) > 0 && Looked(store.index.files, partKeys, infos)
      requires good ==> SoundParts(store.z, store.io.disk.live, infos)
      modifies store, store.io, store.allocator
      ensures store.SpaceOk() && |store.shardDirty| == NUM_SHARDS && store.allocator == old(store.allocator)
      ensures r.Ok? ==> OnlyKeyChanged(old(store.index), store.index, location)
      ensures r.Err? ==> store.index == old(store.index) && store.allocator.freeList == old(store.allocator.freeList)
      ensures good ==> Joined(infos, parts, r, old(store.State()), old(store.Objects()), old(store.allocator.freeList))
      ensures good && r.Ok? ==>
        StoredTogether(store.z, store.index.files, location, parts, old(store.superblock.txnId), now)
    {
      hide Inv, ObjectsOf, MutateNext, RawStore.SpaceOk, Concat, Contents, OnDisk, SoundParts, SumSizes, Unreadable, Entered;
      ghost var read: seq<seq<byte>> := [];
      Idling(store.codec, store.g, store.State());
      var total := SumSizes(infos);
      if store.z.enabled && total >= COMPRESS_MIN {
        PartsOnDisk(store.codec, store.g, store.State(), partKeys, infos);
        var contents := ReadParts(store.io, store.z, infos);
        if contents.Err? {
          return Err(contents.error), [];
        }
        if good {
          SumIsLength(store.z, store.io.disk.live, infos, contents.value);
        }
        read := contents.value;
        var compressed := store.z.compressParts(contents.value);
        if |compressed| < total {
          r := WriteCompressed(compressed, total, now, contents.value);
          Idling(store.codec, store.g, store.State());
          parts := contents.value;
          return;
        }
      }
      ghost var live := store.io.disk.live;
      r, parts := WriteJoined(infos, now, good);
      if good && r.Ok? {
        SumIsLength(store.z, live, infos, parts);
        if store.z.enabled && total >= COMPRESS_MIN {
          ContentsUnique(store.z, live, infos, parts, read);
        }
      }
    }

    /** Every stored part decodes to its recorded length, if it decodes at all. */
    ghost predicate PartsSound()
      reads this, store, store.io
    {
      forall i :: 0 <= i < |partKeys| && partKeys[i] in store.index.files ==>
        Sound(store.z, store.io.disk.live, store.index.files[partKeys[i]])
    }

    /** Concatenate the parts into one object at `location` and drop them. */
    method Complete(now: nat) returns (r: Result<()>, ghost parts: seq<seq<byte>>)
      requires Valid() && store.Valid()
      modifies this, store, store.io, store.allocator
      ensures Valid() && store.SpaceOk() && store.allocator == old(store.allocator)
      ensures old(PartsSound()) ==> store.Valid() && MutateNext(store.g, old(store.State()), store.State())
      ensures old(PartsSound()) && r.Ok? ==>
        && PartsWere(store.z, old(store.io.disk.live), old(store.index.files), old(partKeys), parts)
        && (location !in old(partKeys) ==> StoredTogether(store.z, store.index.files, location, parts, old(store.superblock.txnId), now))
        && store.Objects() == old(store.Objects())[location := Object(Concat(parts), 0)] - KeySet(old(partKeys))
      ensures r.Ok? ==> partKeys == [] && Gathered(old(store.index), store.index, location, KeySet(old(partKeys)))
      ensures r.Err? ==>
        && partKeys == old(partKeys) && store.index == old(store.index) && store.allocator.freeList == old(store.allocator.freeList)
      ensures old(partKeys) == [] ==> r == Err(EmptyPayload)
      ensures old(PartsSound()) && r.Err? ==> store.Objects() == old(store.Objects())
      ensures old(PartsSound()) && r.Err? && old(partKeys) != [] ==>
        CompleteRefused(r.error, store.z, old(store.State()), old(partKeys), old(store.allocator.freeList), store.io.Reliable())
    {
      hide Inv, ObjectsOf, MutateNext, RawStore.SpaceOk, Concat, Sound, SumSizes, Contents, JoinRefused, OnlyKeyChanged, Gathered;
      parts := [];
      Idling(store.codec, store.g, store.State());
      assert store.SpaceOk();
      if partKeys == [] {
        return Err(EmptyPayload), parts;
      }
      var infos := PartInfos();
      if infos.Err? {
        return Err(infos.error), parts;
      }
      ghost var m, good := store.State(), PartsSound();
      PartsNonEmpty(store.codec, store.g, m, partKeys, infos.value);
      r, parts := WriteComposite(infos.value, now, good);
      if r.Err? {
        return;
      }
      hide StoredTogether;
      if good {
        PartsOf(store.z, m.sys.disk.live, m.sys.idx.files, partKeys, infos.value, parts);
      }
      Gather(m.sys.idx, store.index, location, KeySet(partKeys));
      DropParts(m, good);
    }

    /** A failed step left index, free list and objects as they were. */
    ghost predicate Untouched(index: Index, fl: seq<Extent>, objects: map<Key, Object>)
      reads store, store.io, store.allocator
    {
      store.index == index && store.allocator.freeList == fl && store.Objects() == objects
    }

    /** Give the upload up. */
    method Abort()
      requires Valid() && store.Valid()
      modifies this, store, store.allocator
      ensures Valid() && store.Valid() && MutateNext(store.g, old(store.State()), store.State())
      ensures store.allocator == old(store.allocator) && partKeys == [] && store.io.disk == old(store.io.disk) && store.dirty
      ensures store.index == Index(old(store.index.files) - KeySet(old(partKeys)), old(store.index.tombs))
      ensures store.Objects() == old(store.Objects()) - KeySet(old(partKeys))
    {
      hide Inv, ObjectsOf, MutateNext, Placed, FreeListOk;
      Idling(store.codec, store.g, store.State());
      DropParts(store.State(), true);
      store.dirty := true;
    }
  }

  /** What the entry of a completed upload records: compressed under the same conditions as a
      single payload. */
  ghost predicate StoredTogether(z: Compressor, files: map<Key, ExtentInfo>, location: Key, parts: seq<seq<byte>>, txn: nat, now: nat) {
    var total, compressed := |Concat(parts)|, z.compressParts(parts);
    if z.enabled && total >= 4096 && |compressed| < total then Entered(files, location, compressed, total, txn, now)
    else Entered(files, location, Concat(parts), 0, txn, now)
  }

  ghost predicate Entered(files: map<Key, ExtentInfo>, key: Key, content: seq<byte>, expanded: nat, txn: nat, now: nat) {
    && Stamped(files, key, txn, now) && files[key].size == |content| && files[key].crc == Crc(content)
    && files[key].uncompressedSize == expanded && files[key].metaLen == 0
  }

  lemma ContentsUnique(z: Compressor, live: seq<byte>, infos: seq<ExtentInfo>, a: seq<seq<byte>>, b: seq<seq<byte>>)
    requires Contents(z, live, infos, a) && Contents(z, live, infos, b)
    ensures a == b
  {
    hide Payload;
    forall i | 0 <= i < |infos|
      ensures a[i] == b[i]
    {
      assert ReadsAs(z, live, infos[i], a[i]) && ReadsAs(z, live, infos[i], b[i]);
    }
  }

  ghost predicate Looked(files: map<Key, ExtentInfo>, keys: seq<Key>, infos: seq<ExtentInfo>) {
    |infos| == |keys| && forall i :: 0 <= i < |keys| ==> keys[i] in files && infos[i] == files[keys[i]]
  }

  /** `parts` are the contents stored under `keys`. */
  ghost predicate PartsWere(z: Compressor, live: seq<byte>, files: map<Key, ExtentInfo>, keys: seq<Key>, parts: seq<seq<byte>>) {
    |parts| == |keys| && forall i :: 0 <= i < |keys| ==> keys[i] in files && ReadsAs(z, live, files[keys[i]], parts[i])
  }

  /** `location` has been written and then the part keys removed. */
  ghost predicate Gathered(idx: Index, idx': Index, location: Key, keys: set<Key>) {
    && idx'.files - {location} == idx.files - {location} - keys && idx'.files.Keys !! keys
    && idx'.tombs == idx.tombs - {location}
  }

  lemma Gather(idx: Index, idx': Index, location: Key, keys: set<Key>)
    requires OnlyKeyChanged(idx, idx', location)
    ensures Gathered(idx, Index(idx'.files - keys, idx'.tombs), location, keys)
  {
    assert idx'.files - keys - {location} == idx.files - {location} - keys;
  }

  lemma PartsOf(z: Compressor, live: seq<byte>, files: map<Key, ExtentInfo>, keys: seq<Key>, infos: seq<ExtentInfo>, parts: seq<seq<byte>>)
    requires Looked(files, keys, infos) && Contents(z, live, infos, parts)
    ensures PartsWere(z, live, files, keys, parts)
  {
    hide ReadsAs;
    forall i | 0 <= i < |keys|
      ensures ReadsAs(z, live, files[keys[i]], parts[i])
    {
      assert infos[i] == files[keys[i]];
    }
  }

  lemma PartsOnDisk(c: ShardCodec, g: Geometry, m: Machine, keys: seq<Key>, infos: seq<ExtentInfo>)
    requires Inv(c, g, m) && Looked(m.sys.idx.files, keys, infos)
    ensures OnDisk(m.sys.disk.live, infos)
  {
    hide Inv;
    InvPlaced(c, g, m);
    forall i | 0 <= i < |infos|
      ensures infos[i].Place().End() <= |m.sys.disk.live| && infos[i].paddedSize == NumBlocks(infos[i].size) * BLOCK
    {
      assert WellPlaced(m.sys.idx.files[keys[i]], g.DataEnd());
      OnDeviceToo(c, g, m, infos[i]);
    }
  }

  lemma PartsNonEmpty(c: ShardCodec, g: Geometry, m: Machine, keys: seq<Key>, infos: seq<ExtentInfo>)
    requires Inv(c, g, m) && Looked(m.sys.idx.files, keys, infos) && keys != []
    ensures SumSizes(infos) > 0
  {
    hide Inv;
    InvPlaced(c, g, m);
    assert WellPlaced(m.sys.idx.files[keys[|keys| - 1]], g.DataEnd());
  }

  /** Stored parts are clear of an unused extent. */
  lemma PartsClear(files: map<Key, ExtentInfo>, keys: seq<Key>, infos: seq<ExtentInfo>, e: Extent, dataEnd: nat)
    requires Looked(files, keys, infos) && Unused(files, e, dataEnd)
    ensures Clear(infos, e.off, e.End())
  {
    forall i | 0 <= i < |infos|
      ensures infos[i].Place().End() <= e.off || e.End() <= infos[i].offset
    {
      assert files[keys[i]].Place().Disjoint(e);
    }
  }

  /** The only reasons for which joining stored parts may fail: one cannot be read, there is no
      room for the result, compressed or not, or the device fails. */
  ghost predicate JoinRefused(error: Error, z: Compressor, live: seq<byte>, infos: seq<ExtentInfo>, fl: seq<Extent>, reliable: bool) {
    || Unreadable(z, live, infos)
    || (exists n: nat :: 0 < n <= SumSizes(infos) && NoRoom(error, n, fl))
    || (error.Io? && !reliable)
  }

  /** The only reasons for which completing an upload may fail: a part is gone, or the parts
      cannot be joined. */
  ghost predicate CompleteRefused(error: Error, z: Compressor, m: Machine, keys: seq<Key>, fl: seq<Extent>, reliable: bool) {
    || (error.NotFound? && exists i :: 0 <= i < |keys| && keys[i] !in m.sys.idx.files)
    || exists infos :: Looked(m.sys.idx.files, keys, infos) && JoinRefused(error, z, m.sys.disk.live, infos, fl, reliable)
  }

  ghost function KeySet(keys: seq<Key>): set<Key> {
    set k | k in keys
  }

  lemma MinusNext<V>(m: map<Key, V>, keys: seq<Key>, i: nat)
    requires i < |keys|
    ensures m - KeySet(keys[..i]) - {keys[i]} == m - KeySet(keys[..i + 1])
  {
    assert keys[..i + 1] == keys[..i] + [keys[i]];
    assert KeySet(keys[..i + 1]) == KeySet(keys[..i]) + {keys[i]};
  }

  // ---- Whole uploads -----------------------------------------------------

  ghost function PartKeys(uploadId: nat, n: nat): seq<Key> {
    seq(n, (i: nat) => PartKey(uploadId, i))
  }

  /** The keys of the first `n` parts. */
  ghost function PartSet(uploadId: nat, n: nat): set<Key> {
    KeySet(PartKeys(uploadId, n))
  }

  /** The keys of the parts that were stored. */
  ghost function StoredKeys(uploadId: nat, results: seq<Result<()>>): set<Key> {
    set i | 0 <= i < |results| && results[i].Ok? :: PartKey(uploadId, i)
  }

  lemma PartKeysNext(uploadId: nat, n: nat)
    ensures PartKeys(uploadId, n + 1) == PartKeys(uploadId, n) + [PartKey(uploadId, n)]
    ensures PartSet(uploadId, n + 1) == PartSet(uploadId, n) + {PartKey(uploadId, n)}
    ensures forall k :: k in PartSet(uploadId, n + 1) ==> Temporary(k)
  {
    hide PartKey;
    assert PartKeys(uploadId, n + 1) == PartKeys(uploadId, n) + [PartKey(uploadId, n)];
    forall i | 0 <= i <= n
      ensures Temporary(PartKey(uploadId, i))
    {
      PartKeysDiffer(uploadId, i, i);
    }
  }

  lemma StoredNext(uploadId: nat, results: seq<Result<()>>, r: Result<()>)
    ensures StoredKeys(uploadId, results + [r])
      == StoredKeys(uploadId, results) + if r.Ok? then {PartKey(uploadId, |results|)} else {}
  {
    hide PartKey;
    var all := results + [r];
    forall k | k in StoredKeys(uploadId, results)
      ensures k in StoredKeys(uploadId, all)
    {
      var i :| 0 <= i < |results| && results[i].Ok? && PartKey(uploadId, i) == k;
      assert all[i] == results[i];
    }
    assert all[|results|] == r;
  }

  /** Two maps that differ at most in `keys`, and then at `key` too. */
  lemma HiddenNext<V>(base: map<Key, V>, m: map<Key, V>, m': map<Key, V>, keys: set<Key>, key: Key)
    requires m - keys == base - keys && m' - {key} == m - {key}
    ensures m' - (keys + {key}) == base - (keys + {key})
  {
    assert m' - (keys + {key}) == m' - {key} - keys;
    assert m - (keys + {key}) == m - {key} - keys;
    assert m - (keys + {key}) == m - keys - {key};
    assert base - (keys + {key}) == base - keys - {key};
  }

  lemma NoKeys<V>(m: map<Key, V>)
    ensures m - {} == m
  {}

  /** What is left of the old index is all of it exactly when nothing was taken from it. */
  lemma RestoredExactly(idx: Index, idx': Index, parts: set<Key>, stored: set<Key>)
    requires idx' == Index(idx.files - parts, idx.tombs - stored)
    ensures idx' == idx <==> idx.files.Keys !! parts && idx.tombs.Keys !! stored
  {
    assert idx.files.Keys !! parts <==> idx.files - parts == idx.files by { MinusNothing(idx.files, parts); }
    assert idx.tombs.Keys !! stored <==> idx.tombs - stored == idx.tombs by { MinusNothing(idx.tombs, stored); }
  }

  lemma MinusNothing<V>(m: map<Key, V>, keys: set<Key>)
    ensures m.Keys !! keys <==> m - keys == m
  {
    assert (m - keys).Keys == m.Keys - keys;
    if m - keys == m {
      assert m.Keys == m.Keys - keys;
    }
  }

  /** Dropping entries changes the free list, if there were any. */
  lemma FreeListTells(fl: seq<Extent>, fl': seq<Extent>, files: map<Key, ExtentInfo>, keys: set<Key>, dataEnd: nat)
    requires FreeListOk(fl, files, dataEnd) && FreeListOk(fl', files - keys, dataEnd) && Placed(files, dataEnd)
    ensures fl' == fl <==> files.Keys !! keys
  {
    hide Canonical, Aligned;
    if files.Keys !! keys {
      MinusNothing(files, keys);
      FreeListUnique(fl, fl', files, dataEnd);
    } else {
      var k :| k in files && k in keys;
      var x := files[k].offset;
      assert WellPlaced(files[k], dataEnd);
      assert files[k].Place().Has(x) && Used(files, x);
      assert !Used(files - keys, x) by { OnlyOwner(files, keys, k, x); }
      assert Covers(fl', x) && !Covers(fl, x);
    }
  }

  lemma OnlyOwner(files: map<Key, ExtentInfo>, keys: set<Key>, k: Key, x: int)
    requires k in files && k in keys && files[k].Place().Has(x)
    requires forall i, j :: i in files && j in files && i != j ==> files[i].Place().Disjoint(files[j].Place())
    ensures !Used(files - keys, x)
  {
    forall j | j in files - keys
      ensures !(files - keys)[j].Place().Has(x)
    {
      assert files[j].Place().Disjoint(files[k].Place());
    }
  }

  /** Upload parts and abort, with nothing in between. Exactly the entries under the part keys
      are gone, with their space, and the tombstones of the parts that were stored. So index
      and free list are restored, entry for entry, exactly when no part key was in use and no
      stored part's key had a tombstone. */
  method UploadThenAbort(store: RawStore, location: Key, uploadId: nat, parts: seq<seq<byte>>, now: nat)
    returns (results: seq<Result<()>>)
    requires store.Valid()
    modifies store, store.io, store.allocator
    ensures store.Valid() && store.allocator == old(store.allocator) && |results| == |parts|
    ensures
      var keys, stored := PartSet(uploadId, |parts|), StoredKeys(uploadId, results);
      && store.index == Index(old(store.index.files) - keys, old(store.index.tombs) - stored)
      && store.Objects() == old(store.Objects()) - keys
      && (store.index == old(store.index) <==> old(store.index.files).Keys !! keys && old(store.index.tombs).Keys !! stored)
      && (store.allocator.freeList == old(store.allocator.freeList) <==> old(store.index.files).Keys !! keys)
  {
    hide Inv, ObjectsOf, MutateNext, PartKey, KeySet, StoredKeys, FreeListOk, Placed;
    ghost var idx, objects, fl := store.index, store.Objects(), store.allocator.freeList;
    var upload := new RawMultipartUpload(store, location, uploadId);
    assert PartKeys(uploadId, 0) == [];
    results := [];
    NothingStored(uploadId);
    NoKeys(idx.tombs);
    for i := 0 to |parts|
      invariant fresh(upload) && upload.store == store && upload.uploadId == uploadId && upload.Valid()
      invariant store.Valid() && store.allocator == old(store.allocator) && upload.partCount == i == |results|
      invariant upload.partKeys == PartKeys(uploadId, i)
      invariant store.index.tombs == idx.tombs - StoredKeys(uploadId, results)
      invariant store.index.files - PartSet(uploadId, i) == idx.files - PartSet(uploadId, i)
      invariant store.Objects() - PartSet(uploadId, i) == objects - PartSet(uploadId, i)
    {
      ghost var before, was := store.index, store.Objects();
      var r := upload.PutPart(parts[i], now);
      PartKeysNext(uploadId, i);
      StoredNext(uploadId, results, r);
      ghost var key := PartKey(uploadId, i);
      HiddenNext(idx.files, before.files, store.index.files, PartSet(uploadId, i), key);
      HiddenNext(objects, was, store.Objects(), PartSet(uploadId, i), key);
      results := results + [r];
    }
    upload.Abort();
    RestoredExactly(idx, store.index, PartSet(uploadId, |parts|), StoredKeys(uploadId, results));
    InvPlaced(store.codec, store.g, old(store.State()));
    FreeListTells(fl, store.allocator.freeList, idx.files, PartSet(uploadId, |parts|), store.g.DataEnd());
  }

  lemma NothingStored(uploadId: nat)
    ensures StoredKeys(uploadId, []) == {} && PartSet(uploadId, 0) == {}
  {}

  /** Open can leave such a tombstone: a part whose extent does not verify any more is
      tombstoned before uploaded parts are purged. */
  lemma OpenTombstonesParts(mode: OpenMode, live: seq<byte>, idx: Index, txn: nat, uploadId: nat, i: nat)
    ensures
      var scanned, key := ScannedIndex(mode, live, idx, txn), PartKey(uploadId, i);
      && key !in scanned.files
      && (key in scanned.tombs <==> key in idx.tombs || (key in idx.files && !Verifies(mode, live, idx.files[key])))
  {
    hide PartKey, Verifies;
    PartKeysDiffer(uploadId, i, i);
  }

  /** A device on which that happens: the extent of part 0 of upload 0 holds other content. */
  lemma SomePartIsTombstoned()
    ensures exists live: seq<byte>, idx: Index ::
      Placed(idx.files, |live|) && PartKey(0, 0) in ScannedIndex(FullVerify, live, idx, 1).tombs
  {
    hide PartKey, Decode, Encode, Crc;
    var other: seq<byte> := [0];
    EncodeLength(other);
    var live := seq(DATA_START, _ => 0 as byte) + Encode(other);
    var info := ExtentInfo(DATA_START, 1, BLOCK, if Crc(other) == 0 then 1 else 0, 0, 0, 0, 0);
    var idx := Index(map[PartKey(0, 0) := info], map[]);
    assert live[DATA_START..DATA_START + BLOCK] == Encode(other);
    DefaultMissesReuse(live, info, other);
    OpenTombstonesParts(FullVerify, live, idx, 1, 0, 0);
    assert Placed(idx.files, |live|);
  }

  /** The first `n` parts are stored, and nothing else has changed. */
  ghost predicate Holding(objects: map<Key, Object>, now: map<Key, Object>, uploadId: nat, parts: seq<seq<byte>>, n: nat) {
    && n <= |parts| && now - PartSet(uploadId, n) == objects - PartSet(uploadId, n)
    && forall i :: 0 <= i < n ==> PartKey(uploadId, i) in now && now[PartKey(uploadId, i)] == Object(parts[i], 0)
  }

  lemma HoldingNext(objects: map<Key, Object>, was: map<Key, Object>, uploadId: nat, parts: seq<seq<byte>>, n: nat)
    requires Holding(objects, was, uploadId, parts, n) && n < |parts|
    ensures Holding(objects, was[PartKey(uploadId, n) := Object(parts[n], 0)], uploadId, parts, n + 1)
  {
    hide PartKey, KeySet;
    var key := PartKey(uploadId, n);
    var now := was[key := Object(parts[n], 0)];
    PartKeysNext(uploadId, n);
    assert now - {key} == was - {key};
    HiddenNext(objects, was, now, PartSet(uploadId, n), key);
    forall i | 0 <= i < n
      ensures PartKey(uploadId, i) in now && now[PartKey(uploadId, i)] == Object(parts[i], 0)
    {
      PartKeysDiffer(uploadId, i, n);
    }
  }

  lemma PartsAreSound(z: Compressor, live: seq<byte>, files: map<Key, ExtentInfo>, key: Key)
    requires key in ObjectsOf(z, live, files)
    ensures Sound(z, live, files[key]) && Payload(z, live, files[key]) == Ok(ObjectsOf(z, live, files)[key].payload)
  {
    hide Stored, Crc;
    ObjectsAt(z, live, files, key);
  }

  lemma PartsMatch(z: Compressor, live: seq<byte>, files: map<Key, ExtentInfo>, objects: map<Key, Object>, uploadId: nat, parts: seq<seq<byte>>, read: seq<seq<byte>>)
    requires Holding(objects, ObjectsOf(z, live, files), uploadId, parts, |parts|)
    requires PartsWere(z, live, files, PartKeys(uploadId, |parts|), read)
    ensures read == parts
  {
    hide PartKey, ObjectsOf, Payload;
    forall i | 0 <= i < |parts|
      ensures read[i] == parts[i]
    {
      PartsAreSound(z, live, files, PartKey(uploadId, i));
      assert PartKeys(uploadId, |parts|)[i] == PartKey(uploadId, i);
      assert ReadsAs(z, live, files[PartKey(uploadId, i)], read[i]);
    }
  }

  /** Upload parts and complete, with nothing in between. The destination holds their
      concatenation, whichever way it is written, and whatever the part keys held is gone. So
      nothing but the destination changes exactly when no part key was in use before. */
  method UploadThenComplete(store: RawStore, location: Key, uploadId: nat, parts: seq<seq<byte>>, now: nat)
    returns (r: Result<()>)
    requires store.Valid()
    modifies store, store.io, store.allocator
    ensures store.Valid() && store.allocator == old(store.allocator)
    ensures r.Ok? ==>
      var keys, after := PartSet(uploadId, |parts|), old(store.Objects())[location := Object(Concat(parts), 0)];
      && store.Objects() == after - keys && store.index.files.Keys !! keys
      && (!Temporary(location) ==> (store.Objects() == after <==> old(store.Objects()).Keys !! keys))
    ensures r.Err? ==> store.Objects() - PartSet(uploadId, |parts|) == old(store.Objects()) - PartSet(uploadId, |parts|)
    ensures parts == [] ==> r == Err(EmptyPayload)
  {
    hide Inv, ObjectsOf, MutateNext, PartKey, KeySet, Holding, RawStore.SpaceOk, Concat, Payload, PartsWere;
    ghost var objects := store.Objects();
    var upload := new RawMultipartUpload(store, location, uploadId);
    HoldingNone(objects, uploadId, parts);
    for i := 0 to |parts|
      invariant fresh(upload) && upload.store == store && upload.location == location && upload.uploadId == uploadId
      invariant upload.Valid() && store.Valid() && store.allocator == old(store.allocator) && upload.partCount == i
      invariant upload.partKeys == PartKeys(uploadId, i)
      invariant Holding(objects, store.Objects(), uploadId, parts, i)
    {
      HoldingSoFar(objects, store.Objects(), uploadId, parts, i);
      HoldingNext(objects, store.Objects(), uploadId, parts, i);
      r := upload.PutPart(parts[i], now);
      PartKeysNext(uploadId, i);
      if r.Err? {
        return;
      }
    }
    ghost var live, files, was := store.io.disk.live, store.index.files, store.Objects();
    HeldAreSound(store.z, live, files, objects, uploadId, parts);
    HoldingSoFar(objects, was, uploadId, parts, |parts|);
    ghost var read;
    r, read := upload.Complete(now);
    if r.Ok? {
      PartsMatch(store.z, live, files, objects, uploadId, parts, read);
      PlacedAtLocation(objects, was, PartSet(uploadId, |parts|), location, Object(Concat(parts), 0));
      TemporaryParts(uploadId, |parts|);
    }
  }

  /** Entries outside the part keys are as before, also while parts are being stored. */
  lemma HoldingSoFar(objects: map<Key, Object>, now: map<Key, Object>, uploadId: nat, parts: seq<seq<byte>>, n: nat)
    requires Holding(objects, now, uploadId, parts, n)
    ensures now - PartSet(uploadId, |parts|) == objects - PartSet(uploadId, |parts|)
  {
    hide PartKey;
    var few, all := PartSet(uploadId, n), PartSet(uploadId, |parts|);
    assert few <= all by {
      forall k | k in few
        ensures k in all
      {
        var i :| 0 <= i < n && PartKeys(uploadId, n)[i] == k;
        assert PartKeys(uploadId, |parts|)[i] == k;
      }
    }
    assert now - all == now - few - all && objects - all == objects - few - all;
  }

  lemma TemporaryParts(uploadId: nat, n: nat)
    ensures forall k :: k in PartSet(uploadId, n) ==> Temporary(k)
  {
    hide PartKey;
    forall k | k in PartSet(uploadId, n)
      ensures Temporary(k)
    {
      var i :| 0 <= i < n && PartKeys(uploadId, n)[i] == k;
      PartKeysDiffer(uploadId, i, i);
    }
  }

  lemma HeldAreSound(z: Compressor, live: seq<byte>, files: map<Key, ExtentInfo>, objects: map<Key, Object>, uploadId: nat, parts: seq<seq<byte>>)
    requires Holding(objects, ObjectsOf(z, live, files), uploadId, parts, |parts|)
    ensures
      var keys := PartKeys(uploadId, |parts|);
      forall i :: 0 <= i < |keys| && keys[i] in files ==> Sound(z, live, files[keys[i]])
  {
    hide PartKey, ObjectsOf, Sound;
    forall i | 0 <= i < |parts|
      ensures PartKey(uploadId, i) in files ==> Sound(z, live, files[PartKey(uploadId, i)])
    {
      PartsAreSound(z, live, files, PartKey(uploadId, i));
    }
  }

  lemma HoldingNone(objects: map<Key, Object>, uploadId: nat, parts: seq<seq<byte>>)
    ensures PartKeys(uploadId, 0) == [] && Holding(objects, objects, uploadId, parts, 0)
  {}

  lemma PlacedAtLocation(objects: map<Key, Object>, was: map<Key, Object>, keys: set<Key>, location: Key, obj: Object)
    requires was - keys == objects - keys
    ensures
      var after := objects[location := obj];
      && was[location := obj] - keys == after - keys
      && (location !in keys ==> (after - keys == after <==> objects.Keys !! keys))
  {
    var after := objects[location := obj];
    assert was[location := obj] - keys == if location in keys then was - keys else (was - keys)[location := obj];
    assert after - keys == if location in keys then objects - keys else (objects - keys)[location := obj];
    MinusNothing(after, keys);
    assert after.Keys == objects.Keys + {location};
  }
}
