/** The in-memory index, its 256 shards, and where its entries lie on the device. */
module Indexes {
  import opened Crc32c
  import opened Base
  import opened Blocks
  import opened Allocators

  /** Object path as UTF-8 bytes. */
  type Key = seq<byte>

  datatype ExtentInfo = ExtentInfo(
    offset: nat, size: nat, paddedSize: nat, crc: bv32, createdTxn: nat, lastModified: nat, metaLen: nat,
    uncompressedSize: nat)
  {
    function Place(): Extent { Extent(offset, paddedSize) }
  }

  datatype Tombstone = Tombstone(size: nat, crc: bv32, lastModified: nat, txn: nat)

  datatype Index = Index(files: map<Key, ExtentInfo>, tombs: map<Key, Tombstone>)

  /** "__raw_multipart_tmp/", in front of the keys that hold uploaded parts. */
  const MULTIPART_PREFIX: Key :=
    [0x5f, 0x5f, 0x72, 0x61, 0x77, 0x5f, 0x6d, 0x75, 0x6c, 0x74, 0x69, 0x70, 0x61, 0x72, 0x74, 0x5f, 0x74, 0x6d, 0x70, 0x2f]

  predicate Temporary(key: Key) {
    MULTIPART_PREFIX <= key
  }

  function ShardFor(key: Key): (s: nat)
    ensures s < NUM_SHARDS
  {
    (Crc(key) & 0xFF) as int
  }

  /** The shard of a key is the lowest byte of its checksum, the first one stored. */
  lemma ShardIsLowByte(key: Key)
    ensures ShardFor(key) == CrcBytes(Crc(key))[0] as int
    ensures key == [0x31, 0x32, 0x33, 0x34, 0x35, 0x36, 0x37, 0x38, 0x39] ==> ShardFor(key) == 0x83
  {
    hide Crc;
    CheckValue();
  }

  /** The part of the index that belongs to shard `i`; also the unit written to disk. */
  function Shard(idx: Index, i: nat): Index {
    Index(map k | k in idx.files && ShardFor(k) == i :: idx.files[k],
          map k | k in idx.tombs && ShardFor(k) == i :: idx.tombs[k])
  }

  /** Merging the shards below `n`, as the open-time loop does. */
  function Merge(a: Index, b: Index): Index {
    Index(a.files + b.files, a.tombs + b.tombs)
  }

  function MergeShards(shards: seq<Index>): Index {
    if shards == [] then Index(map[], map[])
    else Merge(MergeShards(shards[..|shards| - 1]), shards[|shards| - 1])
  }

  ghost predicate ShardsOf(idx: Index, shards: seq<Index>) {
    forall i :: 0 <= i < |shards| ==> shards[i] == Shard(idx, i)
  }

  lemma AddShard<V>(m: map<Key, V>, n: nat)
    ensures (map k | k in m && ShardFor(k) < n :: m[k]) + (map k | k in m && ShardFor(k) == n :: m[k])
         == map k | k in m && ShardFor(k) < n + 1 :: m[k]
  {
    hide ShardFor;
  }

  lemma {:induction false} MergedBelow(idx: Index, shards: seq<Index>)
    requires ShardsOf(idx, shards)
    ensures MergeShards(shards).files == map k | k in idx.files && ShardFor(k) < |shards| :: idx.files[k]
    ensures MergeShards(shards).tombs == map k | k in idx.tombs && ShardFor(k) < |shards| :: idx.tombs[k]
    decreases |shards|
  {
    hide ShardFor;
    if shards != [] {
      var n := |shards| - 1;
      MergedBelow(idx, shards[..n]);
      AddShard(idx.files, n);
      AddShard(idx.tombs, n);
    }
  }

  /** The 256 shards of an index, merged, are the index. */
  lemma ShardsMergeToIndex(idx: Index, shards: seq<Index>)
    requires |shards| == NUM_SHARDS && ShardsOf(idx, shards)
    ensures MergeShards(shards) == idx
  {
    hide ShardFor;
    MergedBelow(idx, shards);
    assert MergeShards(shards).files == idx.files;
    assert MergeShards(shards).tombs == idx.tombs;
  }

  lemma SameShardsSameIndex(a: Index, b: Index)
    requires forall i :: 0 <= i < NUM_SHARDS ==> Shard(a, i) == Shard(b, i)
    ensures a == b
  {
    var shards := seq(NUM_SHARDS, (i: nat) => Shard(a, i));
    ShardsMergeToIndex(a, shards);
    ShardsMergeToIndex(b, shards);
  }

  /** Merging shards that hold only their own keys keeps each of them apart. */
  lemma {:induction false} OwnShards(shards: seq<Index>)
    requires forall i :: 0 <= i < |shards| ==> Shard(shards[i], i) == shards[i]
    ensures ShardsOf(MergeShards(shards), shards)
    ensures KeysBelow(MergeShards(shards), |shards|)
    decreases |shards|
  {
    hide ShardFor, Shard;
    if shards != [] {
      var n := |shards| - 1;
      OwnShards(shards[..n]);
      var below, last := MergeShards(shards[..n]), shards[n];
      forall i | 0 <= i <= n
        ensures Shard(Merge(below, last), i) == shards[i]
      {
        MergedApart(below, last, n, i);
      }
      MergedBound(below, last, n);
    }
  }

  ghost predicate KeysBelow(idx: Index, n: nat) {
    (forall k :: k in idx.files ==> ShardFor(k) < n) && (forall k :: k in idx.tombs ==> ShardFor(k) < n)
  }

  lemma MergedApart(below: Index, last: Index, n: nat, i: nat)
    requires KeysBelow(below, n) && Shard(last, n) == last && i <= n
    ensures Shard(Merge(below, last), i) == if i == n then last else Shard(below, i)
  {
    hide ShardFor;
    OwnKeys(last, n);
    var merged, goal := Shard(Merge(below, last), i), if i == n then last else Shard(below, i);
    assert merged.files == goal.files;
    assert merged.tombs == goal.tombs;
  }

  lemma MergedBound(below: Index, last: Index, n: nat)
    requires KeysBelow(below, n) && Shard(last, n) == last
    ensures KeysBelow(Merge(below, last), n + 1)
  {
    hide ShardFor;
    OwnKeys(last, n);
  }

  lemma OwnKeys(shard: Index, n: nat)
    requires Shard(shard, n) == shard
    ensures forall k :: k in shard.files ==> ShardFor(k) == n
    ensures forall k :: k in shard.tombs ==> ShardFor(k) == n
  {
    hide ShardFor;
    assert forall k :: k in shard.files ==> k in Shard(shard, n).files;
    assert forall k :: k in shard.tombs ==> k in Shard(shard, n).tombs;
  }

  // ---- Placement ---------------------------------------------------------

  /** An entry lies inside the data region, on whole blocks, and spans its encoding. */
  predicate WellPlaced(info: ExtentInfo, dataEnd: nat) {
    && DATA_START <= info.offset && info.offset + info.paddedSize <= dataEnd
    && info.paddedSize > 0 && info.paddedSize == NumBlocks(info.size) * BLOCK && info.Place().OnBlocks()
  }

  ghost predicate Placed(files: map<Key, ExtentInfo>, dataEnd: nat) {
    && (forall k :: k in files ==> WellPlaced(files[k], dataEnd))
    && (forall k, k' :: k in files && k' in files && k != k' ==> files[k].Place().Disjoint(files[k'].Place()))
  }

  ghost predicate Used(files: map<Key, ExtentInfo>, x: int) {
    exists k :: k in files && files[k].Place().Has(x)
  }

  /** The free list is exactly the unused part of the data region. */
  ghost predicate FreeListOk(fl: seq<Extent>, files: map<Key, ExtentInfo>, dataEnd: nat) {
    && Canonical(fl) && Aligned(fl)
    && forall x :: Covers(fl, x) <==> DATA_START <= x < dataEnd && !Used(files, x)
  }

  lemma FreeListUnique(a: seq<Extent>, b: seq<Extent>, files: map<Key, ExtentInfo>, dataEnd: nat)
    requires FreeListOk(a, files, dataEnd) && FreeListOk(b, files, dataEnd)
    ensures a == b
  {
    CanonicalUnique(a, b);
  }
}
