/** What open reads back from a device image: the superblock choice and the shard load. */
module Recovery {
  import opened Crc32c
  import opened Base
  import opened Seqs
  import opened Indexes
  import opened Superblocks

  /** Device size and index slot capacity fix where everything lies. */
  datatype Geometry = Geometry(deviceSize: nat, slotCapacity: nat) {
    predicate Valid() {
      slotCapacity > 0 && deviceSize >= MinDeviceSize(slotCapacity)
    }

    function SlotSize(): nat { slotCapacity / NUM_SHARDS }

    function DataEnd(): nat
      requires Valid()
    {
      deviceSize - 2 * slotCapacity
    }

    function SlotOffset(region: nat, i: nat): nat
      requires Valid()
    {
      (if region == 0 then deviceSize - 2 * slotCapacity else deviceSize - slotCapacity) + i * SlotSize()
    }
  }

  /** Slots lie in their region, one behind the other. */
  lemma SlotsApart(g: Geometry, region: nat, i: nat, region': nat, j: nat)
    requires g.Valid() && region <= 1 && region' <= 1 && i < NUM_SHARDS && j < NUM_SHARDS
    ensures g.DataEnd() <= g.SlotOffset(region, i) && g.SlotOffset(region, i) + g.SlotSize() <= g.deviceSize
    ensures i != j || region != region' ==>
      g.SlotOffset(region, i) + g.SlotSize() <= g.SlotOffset(region', j) ||
      g.SlotOffset(region', j) + g.SlotSize() <= g.SlotOffset(region, i)
  {
    var z := g.SlotSize();
    NextSlot(i, NUM_SHARDS, z);
    NextSlot(j, NUM_SHARDS, z);
    if i < j {
      NextSlot(i, j, z);
    } else if j < i {
      NextSlot(j, i, z);
    }
  }

  /** The first region lies right behind the data, the second one fills the rest of the device,
      each cut into 256 slots. */
  lemma SlotsLaidOut(g: Geometry, i: nat)
    requires g.Valid() && i < 256
    ensures g.SlotOffset(0, i) == g.DataEnd() + i * (g.slotCapacity / 256)
    ensures g.SlotOffset(1, i) == g.DataEnd() + g.slotCapacity + i * (g.slotCapacity / 256)
    ensures g.DataEnd() + g.slotCapacity + g.slotCapacity == g.deviceSize && DATA_START + 4096 <= g.DataEnd()
  {}

  lemma NextSlot(i: nat, j: nat, z: nat)
    requires i < j
    ensures 0 <= i * z && i * z + z <= j * z
  {
    assert (j - i - 1) * z >= 0;
    assert j * z == i * z + z + (j - i - 1) * z;
  }

  /** The serializer of shards, an injective encoding decided outside the model. */
  datatype ShardCodec = ShardCodec(enc: Index -> seq<byte>, dec: seq<byte> -> Option<Index>) {
    ghost predicate Lawful() {
      forall s: Index :: enc(s) != [] && dec(enc(s)) == Some(s)
    }
  }

  const NOTHING: Index := Index(map[], map[])

  function ReadShard(c: ShardCodec, g: Geometry, img: seq<byte>, m: SlotMeta, i: nat): Result<Index>
    requires g.Valid()
  {
    if m.size == 0 then Ok(NOTHING) else
    var off := g.SlotOffset(m.active, i);
    if |img| < off + m.size then Err(Io) else
    var bytes := img[off..off + m.size];
    if Checksum(bytes) != m.crc then Err(IndexCorrupt) else
    match c.dec(bytes)
    case None => Err(Bincode)
    case Some(shard) => Ok(shard)
  }

  /** Read shards `0 .. n` and merge them, stopping at the first that fails. */
  function LoadShards(c: ShardCodec, g: Geometry, img: seq<byte>, slots: seq<SlotMeta>, n: nat): Result<Index>
    requires g.Valid() && n <= |slots|
  {
    if n == 0 then Ok(NOTHING) else
    var below :- LoadShards(c, g, img, slots, n - 1);
    var shard :- ReadShard(c, g, img, slots[n - 1], n - 1);
    Ok(Merge(below, shard))
  }

  /** The valid copy with the higher transaction id; the primary on a tie. */
  function ChooseSuperblock(img: seq<byte>): Result<Superblock>
    requires |img| >= DATA_START
  {
    var a, b := FromBytes(img[0..4096]), FromBytes(img[4096..8192]);
    if a.Ok? && b.Ok? then (if a.value.txnId >= b.value.txnId then a else b)
    else if a.Ok? then a
    else if b.Ok? then b
    else Err(SuperblockCorrupt)
  }

  /** No valid copy is newer than the one chosen, and the primary wins a tie. */
  lemma ChoosesNewest(img: seq<byte>)
    requires |img| >= DATA_START
    ensures
      var a, b, chosen := FromBytes(img[0..4096]), FromBytes(img[4096..8192]), ChooseSuperblock(img);
      && (chosen.Ok? <==> a.Ok? || b.Ok?)
      && (chosen.Err? ==> chosen.error == SuperblockCorrupt)
      && (chosen.Ok? ==> chosen == a || chosen == b)
      && (chosen.Ok? && a.Ok? ==> a.value.txnId < chosen.value.txnId || chosen == a)
      && (chosen.Ok? && b.Ok? ==> b.value.txnId <= chosen.value.txnId)
  {
    hide FromBytes;
  }

  function GeometryOf(deviceSize: nat, sb: Superblock): Geometry {
    Geometry(deviceSize, if sb.slotCapacity > 0 then sb.slotCapacity else INDEX_REGION_SIZE)
  }

  datatype Commit = Commit(sb: Superblock, idx: Index)

  /** Superblock and index as open loads them, before any integrity scan. */
  function Recover(c: ShardCodec, img: seq<byte>): Result<Commit> {
    if |img| < DATA_START then Err(Io) else
    var sb :- ChooseSuperblock(img);
    var g := GeometryOf(|img|, sb);
    if !g.Valid() then Err(DeviceTooSmall(|img|, MinDeviceSize(g.slotCapacity)))
    else if |sb.slots| != NUM_SHARDS then Err(Io)
    else
      var idx :- LoadShards(c, g, img, sb.slots, NUM_SHARDS);
      Ok(Commit(sb, idx))
  }

  // ---- A committed index on a device -------------------------------------

  /** The bytes a slot entry points to decode to `shard`. */
  ghost predicate ShardStored(c: ShardCodec, g: Geometry, img: seq<byte>, m: SlotMeta, shard: Index, i: nat)
    requires g.Valid()
  {
    && m.active <= 1 && 0 < m.size <= g.SlotSize()
    && var off := g.SlotOffset(m.active, i);
       off + m.size <= |img| && Checksum(img[off..off + m.size]) == m.crc && c.dec(img[off..off + m.size]) == Some(shard)
  }

  ghost predicate IndexStored(c: ShardCodec, g: Geometry, img: seq<byte>, com: Commit)
    requires g.Valid()
  {
    |com.sb.slots| == NUM_SHARDS &&
    forall i :: 0 <= i < NUM_SHARDS ==> ShardStored(c, g, img, com.sb.slots[i], Shard(com.idx, i), i)
  }

  lemma LoadNone(c: ShardCodec, g: Geometry, img: seq<byte>, slots: seq<SlotMeta>)
    requires g.Valid()
    ensures LoadShards(c, g, img, slots, 0) == Ok(NOTHING)
  {}

  lemma LoadNext(c: ShardCodec, g: Geometry, img: seq<byte>, slots: seq<SlotMeta>, i: nat)
    requires g.Valid() && i < |slots| && LoadShards(c, g, img, slots, i).Ok?
    ensures
      var shard := ReadShard(c, g, img, slots[i], i);
      LoadShards(c, g, img, slots, i + 1)
        == if shard.Ok? then Ok(Merge(LoadShards(c, g, img, slots, i).value, shard.value)) else Err(shard.error)
  {
    hide ReadShard;
  }

  /** Slots that were never written hold nothing. */
  lemma {:induction false} UnwrittenLoadsEmpty(c: ShardCodec, g: Geometry, img: seq<byte>, slots: seq<SlotMeta>, n: nat)
    requires g.Valid() && n <= |slots| && forall i :: 0 <= i < n ==> slots[i].size == 0
    ensures LoadShards(c, g, img, slots, n) == Ok(NOTHING)
    decreases n
  {
    if n > 0 {
      UnwrittenLoadsEmpty(c, g, img, slots, n - 1);
    }
  }

  lemma {:induction false} LoadFails(c: ShardCodec, g: Geometry, img: seq<byte>, slots: seq<SlotMeta>, i: nat, n: nat)
    requires g.Valid() && i <= n <= |slots| && LoadShards(c, g, img, slots, i).Err?
    ensures LoadShards(c, g, img, slots, n) == LoadShards(c, g, img, slots, i)
    decreases n
  {
    hide ReadShard;
    if i < n {
      LoadFails(c, g, img, slots, i, n - 1);
    }
  }

  lemma StoredReads(c: ShardCodec, g: Geometry, img: seq<byte>, com: Commit, i: nat)
    requires g.Valid() && IndexStored(c, g, img, com) && i < NUM_SHARDS
    ensures ReadShard(c, g, img, com.sb.slots[i], i) == Ok(Shard(com.idx, i))
  {
    hide Checksum, Shard;
    assert ShardStored(c, g, img, com.sb.slots[i], Shard(com.idx, i), i);
  }

  lemma {:induction false} OneBadShardFails(c: ShardCodec, g: Geometry, img: seq<byte>, slots: seq<SlotMeta>, i: nat, n: nat)
    requires g.Valid() && i < n <= |slots| && ReadShard(c, g, img, slots[i], i).Err?
    ensures LoadShards(c, g, img, slots, n).Err?
    decreases n
  {
    hide ReadShard;
    if i < n - 1 {
      OneBadShardFails(c, g, img, slots, i, n - 1);
    }
  }

  /** Only what lies behind the first superblock copy matters to the shards. */
  lemma {:induction false} SameTailLoads(c: ShardCodec, g: Geometry, a: seq<byte>, b: seq<byte>, slots: seq<SlotMeta>, n: nat)
    requires g.Valid() && |a| == |b| == g.deviceSize && a[4096..|a|] == b[4096..|b|] && n <= |slots|
    ensures LoadShards(c, g, a, slots, n) == LoadShards(c, g, b, slots, n)
    decreases n
  {
    hide Checksum, ReadShard;
    if n > 0 {
      SameTailLoads(c, g, a, b, slots, n - 1);
      SameTailReads(c, g, a, b, slots[n - 1], n - 1);
    }
  }

  lemma SameTailReads(c: ShardCodec, g: Geometry, a: seq<byte>, b: seq<byte>, meta: SlotMeta, i: nat)
    requires g.Valid() && |a| == |b| == g.deviceSize && a[4096..|a|] == b[4096..|b|]
    ensures ReadShard(c, g, a, meta, i) == ReadShard(c, g, b, meta, i)
  {
    hide Checksum;
    var off := g.SlotOffset(meta.active, i);
    assert 4096 <= off;
    if off + meta.size <= |a| {
      SliceSlice(a, 4096, |a|, off - 4096, off - 4096 + meta.size);
      SliceSlice(b, 4096, |b|, off - 4096, off - 4096 + meta.size);
    }
  }

  /** Shards that hold only their own keys load to `idx` exactly when each loads to its part. */
  lemma LoadsShardwise(c: ShardCodec, g: Geometry, img: seq<byte>, slots: seq<SlotMeta>, idx: Index)
    requires g.Valid() && |slots| == NUM_SHARDS
    requires forall i :: 0 <= i < NUM_SHARDS ==> ReadsOwn(c, g, img, slots, i)
    ensures LoadShards(c, g, img, slots, NUM_SHARDS) == Ok(idx)
      <==> forall i :: 0 <= i < NUM_SHARDS ==> ReadShard(c, g, img, slots[i], i) == Ok(Shard(idx, i))
  {
    hide ReadShard, LoadShards, Shard;
    if forall i :: 0 <= i < NUM_SHARDS ==> ReadShard(c, g, img, slots[i], i).Ok? {
      var shards := seq(NUM_SHARDS, i requires 0 <= i < NUM_SHARDS => ReadShard(c, g, img, slots[i], i).value);
      LoadsMerged(c, g, img, slots, shards, NUM_SHARDS);
      assert shards[..NUM_SHARDS] == shards;
      forall i | 0 <= i < NUM_SHARDS
        ensures Shard(shards[i], i) == shards[i]
      {
        assert ReadsOwn(c, g, img, slots, i);
      }
      OwnShards(shards);
      if forall i :: 0 <= i < NUM_SHARDS ==> ReadShard(c, g, img, slots[i], i) == Ok(Shard(idx, i)) {
        ShardsMergeToIndex(idx, shards);
      }
    } else {
      var i :| 0 <= i < NUM_SHARDS && ReadShard(c, g, img, slots[i], i).Err?;
      OneBadShardFails(c, g, img, slots, i, NUM_SHARDS);
    }
  }

  /** A shard that can be read holds only keys of its own. */
  ghost predicate ReadsOwn(c: ShardCodec, g: Geometry, img: seq<byte>, slots: seq<SlotMeta>, i: nat)
    requires g.Valid() && i < |slots|
  {
    var shard := ReadShard(c, g, img, slots[i], i);
    shard.Ok? ==> Shard(shard.value, i) == shard.value
  }

  lemma {:induction false} LoadsMerged(c: ShardCodec, g: Geometry, img: seq<byte>, slots: seq<SlotMeta>, shards: seq<Index>, n: nat)
    requires g.Valid() && n <= |slots| == |shards|
    requires forall i :: 0 <= i < |slots| ==> ReadShard(c, g, img, slots[i], i) == Ok(shards[i])
    ensures LoadShards(c, g, img, slots, n) == Ok(MergeShards(shards[..n]))
    decreases n
  {
    hide ReadShard, LoadShards;
    if n == 0 {
      LoadNone(c, g, img, slots);
    } else {
      LoadsMerged(c, g, img, slots, shards, n - 1);
      LoadNext(c, g, img, slots, n - 1);
      assert shards[..n][..n - 1] == shards[..n - 1];
    }
  }

  lemma {:induction false} LoadedBelow(c: ShardCodec, g: Geometry, img: seq<byte>, com: Commit, n: nat)
    requires g.Valid() && IndexStored(c, g, img, com) && n <= NUM_SHARDS
    ensures LoadShards(c, g, img, com.sb.slots, n) == Ok(MergeShards(seq(n, (i: nat) => Shard(com.idx, i))))
    decreases n
  {
    hide LoadShards, ReadShard, ShardStored, Shard;
    var shards := seq(n, (i: nat) => Shard(com.idx, i));
    if n == 0 {
      LoadNone(c, g, img, com.sb.slots);
    } else {
      LoadedBelow(c, g, img, com, n - 1);
      assert shards[..n - 1] == seq(n - 1, (i: nat) => Shard(com.idx, i));
      LoadNext(c, g, img, com.sb.slots, n - 1);
      StoredReads(c, g, img, com, n - 1);
    }
  }

  lemma StoredLoads(c: ShardCodec, g: Geometry, img: seq<byte>, com: Commit)
    requires g.Valid() && IndexStored(c, g, img, com)
    ensures LoadShards(c, g, img, com.sb.slots, NUM_SHARDS) == Ok(com.idx)
  {
    hide LoadShards, IndexStored;
    LoadedBelow(c, g, img, com, NUM_SHARDS);
    ShardsMergeToIndex(com.idx, seq(NUM_SHARDS, (i: nat) => Shard(com.idx, i)));
  }

  /** A superblock that can be written and read back on this device. */
  ghost predicate SuperblockOk(sb: Superblock, g: Geometry) {
    Encodable(sb) && |sb.slots| == NUM_SHARDS && sb.blockAlignment > 0 && sb.slotCapacity == g.slotCapacity
  }

  /** The primary copy is `sb`; the backup is older, the same, or invalid. */
  ghost predicate SuperHeld(img: seq<byte>, sb: Superblock)
    requires |img| >= DATA_START && |sb.slots| == NUM_SHARDS
  {
    img[0..4096] == CopyBytes(sb) &&
    (FromBytes(img[4096..8192]).Ok? ==> FromBytes(img[4096..8192]).value.txnId <= sb.txnId)
  }

  lemma HeldIsChosen(img: seq<byte>, sb: Superblock, g: Geometry)
    requires |img| >= DATA_START && SuperblockOk(sb, g) && SuperHeld(img, sb)
    ensures ChooseSuperblock(img) == Ok(sb)
  {
    hide FromBytes, CopyBytes, Encodable;
    CopyRoundTrip(sb);
  }

  lemma ChosenRecovers(c: ShardCodec, g: Geometry, img: seq<byte>, com: Commit)
    requires g.Valid() && |img| == g.deviceSize && SuperblockOk(com.sb, g) && IndexStored(c, g, img, com)
    requires ChooseSuperblock(img) == Ok(com.sb)
    ensures Recover(c, img) == Ok(com)
  {
    hide LoadShards, IndexStored, ChooseSuperblock, Encodable;
    StoredLoads(c, g, img, com);
  }

  lemma StoredElsewhere(c: ShardCodec, g: Geometry, a: seq<byte>, b: seq<byte>, com: Commit)
    requires g.Valid() && |a| == |b| && IndexStored(c, g, a, com)
    requires forall i :: 0 <= i < NUM_SHARDS ==>
      var off := g.SlotOffset(com.sb.slots[i].active, i);
      b[off..off + com.sb.slots[i].size] == a[off..off + com.sb.slots[i].size]
    ensures IndexStored(c, g, b, com)
  {
    hide Checksum;
    forall i | 0 <= i < NUM_SHARDS
      ensures ShardStored(c, g, b, com.sb.slots[i], Shard(com.idx, i), i)
    {
      assert ShardStored(c, g, a, com.sb.slots[i], Shard(com.idx, i), i);
      var off := g.SlotOffset(com.sb.slots[i].active, i);
      assert b[off..off + com.sb.slots[i].size] == a[off..off + com.sb.slots[i].size];
    }
  }
}
