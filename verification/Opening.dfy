/** Opening a device: loading the committed index, the integrity scan, and the store built
    on what is left. */
module Opening {
  import opened Crc32c
  import opened Base
  import opened Seqs
  import opened Blocks
  import opened Disks
  import opened Streaming
  import opened Allocators
  import opened Indexes
  import opened Layouts
  import opened Superblocks
  import opened Recovery
  import opened Protocol
  import opened CrashSafety
  import opened CrashRuns
  import opened Objects
  import opened Stores

  // ---- Loading -----------------------------------------------------------

  /** Read both copies and pick the valid one with the higher transaction id. */
  method ReadSuperblock(io: Device) returns (r: Result<Superblock>)
    requires DATA_START <= |io.disk.live|
    ensures r == ChooseSuperblock(io.disk.live)
  {
    hide FromBytes;
    var a := io.Pread(0, SUPERBLOCK_SIZE);
    var b := io.Pread(SUPERBLOCK_SIZE, SUPERBLOCK_SIZE);
    var sb0 := Parse(a);
    var sb1 := Parse(b);
    match (sb0, sb1)
    case (Ok(x), Ok(y)) => r := if x.txnId >= y.txnId then sb0 else sb1;
    case (Ok(_), Err(_)) => r := sb0;
    case (Err(_), Ok(_)) => r := sb1;
    case (Err(_), Err(_)) => r := Err(SuperblockCorrupt);
  }

  /** Read every shard and merge them into one index. */
  method ReadShards(io: Device, codec: ShardCodec, g: Geometry, slots: seq<SlotMeta>) returns (r: Result<Index>)
    requires g.Valid()
    ensures r == LoadShards(codec, g, io.disk.live, slots, |slots|)
  {
    hide LoadShards, Checksum;
    var index := NOTHING;
    assert LoadShards(codec, g, io.disk.live, slots, 0) == Ok(NOTHING) by { LoadNone(codec, g, io.disk.live, slots); }
    for i := 0 to |slots|
      invariant LoadShards(codec, g, io.disk.live, slots, i) == Ok(index)
    {
      LoadNext(codec, g, io.disk.live, slots, i);
      var meta := slots[i];
      var off := g.SlotOffset(meta.active, i);
      var shard := NOTHING;
      if meta.size != 0 {
        if |io.disk.live| < off + meta.size {
          LoadFails(codec, g, io.disk.live, slots, i + 1, |slots|);
          return Err(Io);
        }
        var bytes := io.Pread(off, meta.size);
        if Checksum(bytes) != meta.crc {
          LoadFails(codec, g, io.disk.live, slots, i + 1, |slots|);
          return Err(IndexCorrupt);
        }
        var decoded := codec.dec(bytes);
        if decoded.None? {
          LoadFails(codec, g, io.disk.live, slots, i + 1, |slots|);
          return Err(Bincode);
        }
        shard := decoded.value;
      }
      index := Merge(index, shard);
    }
    r := Ok(index);
  }

  /** Load superblock and index. */
  method Load(io: Device, codec: ShardCodec) returns (r: Result<Commit>)
    ensures r == Recover(codec, io.disk.live)
    ensures r.Ok? ==> GeometryOf(|io.disk.live|, r.value.sb).Valid()
  {
    hide ChooseSuperblock, LoadShards;
    if |io.disk.live| < DATA_START {
      return Err(Io);
    }
    var sb :- ReadSuperblock(io);
    var g := GeometryOf(|io.disk.live|, sb);
    if |io.disk.live| < MinDeviceSize(g.slotCapacity) {
      return Err(DeviceTooSmall(|io.disk.live|, MinDeviceSize(g.slotCapacity)));
    }
    if |sb.slots| != NUM_SHARDS {
      return Err(Io);
    }
    var index :- ReadShards(io, codec, g, sb.slots);
    r := Ok(Commit(sb, index));
  }

  // ---- Integrity scan ----------------------------------------------------

  datatype OpenMode = Default | FullVerify | SkipVerify

  /** What each mode demands of an entry's extent. */
  predicate Verifies(mode: OpenMode, live: seq<byte>, info: ExtentInfo) {
    match mode
    case Default => info.offset + BLOCK <= |live| && VerifyBlock(live[info.offset..info.offset + BLOCK]).Ok?
    case FullVerify =>
      PaddedExtentSize(info.size).Ok? && Stored(live, info).Ok? && Crc(Stored(live, info).value) == info.crc
    case SkipVerify => true
  }

  method CheckEntry(io: Device, mode: OpenMode, info: ExtentInfo) returns (ok: bool)
    ensures ok == Verifies(mode, io.disk.live, info)
  {
    hide VerifyBlock, Decode, Crc;
    match mode
    case Default =>
      if info.offset + BLOCK > |io.disk.live| {
        return false;
      }
      var raw := io.Pread(info.offset, BLOCK);
      ok := VerifyBlock(raw).Ok?;
    case FullVerify =>
      var len := PaddedExtentSize(info.size);
      if len.Err? || info.offset + len.value > |io.disk.live| {
        return false;
      }
      var raw := io.Pread(info.offset, len.value);
      var content := DecodeBlocks(raw, info.size);
      ok := content.Ok? && Crc(content.value) == info.crc;
    case SkipVerify =>
      ok := true;
  }

  method StaleKeys(io: Device, mode: OpenMode, files: map<Key, ExtentInfo>) returns (stale: set<Key>)
    ensures stale == set k | k in files && !Verifies(mode, io.disk.live, files[k])
  {
    hide Verifies;
    stale := {};
    var rest := files.Keys;
    while rest != {}
      invariant rest <= files.Keys
      invariant stale == set k | k in files && k !in rest && !Verifies(mode, io.disk.live, files[k])
      decreases rest
    {
      var k :| k in rest;
      var ok := CheckEntry(io, mode, files[k]);
      if !ok {
        stale := stale + {k};
      }
      rest := rest - {k};
    }
  }

  ghost function OutOfBounds(files: map<Key, ExtentInfo>, dataEnd: nat): set<Key> {
    set k | k in files && !InDataRegion(files[k], dataEnd)
  }

  /** The later of each overlapping pair of neighbours. */
  ghost function LaterKeys(list: seq<Placement>): set<Key> {
    set i | 0 <= i < |list| && RunsOver(list, i) :: list[i + 1].key
  }

  /** `list` names every entry of `files` once, in offset order. */
  ghost predicate InOffsetOrder(list: seq<Placement>, files: map<Key, ExtentInfo>) {
    ByOffset(list) && multiset(list) == multiset(PlacementSet(files, _ => true))
  }

  /** `bad` are the entries out of bounds and, of the others, the later of each overlapping
      pair of neighbours. Entries with equal offsets may be listed in any order. */
  ghost predicate Misplaced(files: map<Key, ExtentInfo>, dataEnd: nat, bad: set<Key>) {
    var out := OutOfBounds(files, dataEnd);
    exists list :: InOffsetOrder(list, files - out) && bad == out + LaterKeys(list)
  }

  method MisplacedKeys(files: map<Key, ExtentInfo>, dataEnd: nat) returns (bad: set<Key>)
    ensures Misplaced(files, dataEnd, bad) && bad <= files.Keys
  {
    hide ByOffset, PlacementSet, RunsOver;
    var out := set k | k in files && !InDataRegion(files[k], dataEnd);
    var all := (_: ExtentInfo) => true;
    var list := CollectPlacements(files - out, all);
    var pairs := FindOverlaps(list);
    var later := set p | p in pairs :: p.1;
    SameFilter(files - out, all);
    LaterAre(list, pairs, later);
    ListedKeys(list, files - out);
    bad := out + later;
    assert out == OutOfBounds(files, dataEnd) && InOffsetOrder(list, files - out) && bad == out + LaterKeys(list);
  }

  /** `info` lies in the data region and is not empty. */
  ghost predicate Inside(info: ExtentInfo, dataEnd: nat) {
    8192 <= info.offset && info.paddedSize > 0 && info.offset + info.paddedSize <= dataEnd
  }

  /** Everything out of bounds is misplaced, and otherwise only what starts inside another
      entry that is not. */
  lemma MisplacedAre(files: map<Key, ExtentInfo>, dataEnd: nat, bad: set<Key>, k: Key)
    requires Misplaced(files, dataEnd, bad) && k in files
    ensures !Inside(files[k], dataEnd) ==> k in bad
    ensures k in bad && Inside(files[k], dataEnd) ==>
      exists j :: j in files && j != k && Inside(files[j], dataEnd) && files[j].offset <= files[k].offset < files[j].Place().End()
  {
    hide PlacementSet;
    var out := OutOfBounds(files, dataEnd);
    var list: seq<Placement> :| InOffsetOrder(list, files - out) && bad == out + LaterKeys(list);
    if k in bad && Inside(files[k], dataEnd) {
      var i :| 0 <= i < |list| && RunsOver(list, i) && list[i + 1].key == k;
      ListedEntry(list, files - out, i);
      ListedEntry(list, files - out, i + 1);
      ListedOnce(list, PlacementSet(files - out, _ => true), i, i + 1);
      assert list[i].place.off <= list[i + 1].place.off;
    }
  }

  lemma ListedEntry(list: seq<Placement>, files: map<Key, ExtentInfo>, i: nat)
    requires multiset(list) == multiset(PlacementSet(files, _ => true)) && i < |list|
    ensures list[i].key in files && list[i].place == files[list[i].key].Place()
  {
    assert list[i] in multiset(list);
    assert list[i] in PlacementSet(files, _ => true);
  }

  lemma SameFilter(files: map<Key, ExtentInfo>, all: ExtentInfo -> bool)
    requires forall e: ExtentInfo :: all(e)
    ensures PlacementSet(files, all) == PlacementSet(files, _ => true)
  {}

  lemma LaterAre(list: seq<Placement>, pairs: seq<(Key, Key)>, later: set<Key>)
    requires forall p :: p in pairs <==> exists i: nat :: RunsOver(list, i) && p == (list[i].key, list[i + 1].key)
    requires later == set p | p in pairs :: p.1
    ensures later == LaterKeys(list)
  {
    forall k | k in LaterKeys(list)
      ensures k in later
    {
      var i :| 0 <= i < |list| && RunsOver(list, i) && list[i + 1].key == k;
      assert (list[i].key, list[i + 1].key) in pairs;
    }
  }

  lemma ListedKeys(list: seq<Placement>, files: map<Key, ExtentInfo>)
    requires multiset(list) == multiset(PlacementSet(files, _ => true))
    ensures LaterKeys(list) <= files.Keys
  {
    forall i: nat | RunsOver(list, i)
      ensures list[i + 1].key in files
    {
      assert list[i + 1] in multiset(list);
      assert list[i + 1] in PlacementSet(files, _ => true);
    }
  }

  /** An index the store flushed itself has nothing misplaced. */
  lemma NothingMisplaced(files: map<Key, ExtentInfo>, dataEnd: nat, bad: set<Key>)
    requires Placed(files, dataEnd) && Misplaced(files, dataEnd, bad)
    ensures bad == {}
  {
    hide Placed, InOffsetOrder;
    NoneMisplaced(files, dataEnd);
    var out := OutOfBounds(files, dataEnd);
    assert out == {} && files - out == files;
    var list :| InOffsetOrder(list, files - out) && bad == out + LaterKeys(list);
    NoneRunsOver(list, files, dataEnd);
  }

  lemma NoneRunsOver(list: seq<Placement>, files: map<Key, ExtentInfo>, dataEnd: nat)
    requires Placed(files, dataEnd) && InOffsetOrder(list, files)
    ensures LaterKeys(list) == {}
  {
    hide Placed, ByOffset, PlacementSet;
    PlacedInOrder(list, files, _ => true, dataEnd);
    forall i | 0 <= i < |list|
      ensures !RunsOver(list, i)
    {
      if i + 1 < |list| {
        assert Places(list)[i].End() <= Places(list)[i + 1].off;
      }
    }
  }

  lemma NoneMisplaced(files: map<Key, ExtentInfo>, dataEnd: nat)
    requires Placed(files, dataEnd)
    ensures forall k :: k in files ==> InDataRegion(files[k], dataEnd)
  {
    forall k | k in files
      ensures InDataRegion(files[k], dataEnd)
    {
      assert WellPlaced(files[k], dataEnd);
    }
  }

  /** Flags for exactly the shards of the keys the scan touched. */
  method MarkShards(keys: set<Key>) returns (flags: seq<bool>)
    ensures |flags| == NUM_SHARDS
    ensures forall i :: 0 <= i < NUM_SHARDS ==> (flags[i] <==> exists k :: k in keys && ShardFor(k) == i)
  {
    hide ShardFor;
    flags := seq(NUM_SHARDS, _ => false);
    var rest := keys;
    while rest != {}
      invariant rest <= keys && |flags| == NUM_SHARDS
      invariant forall i :: 0 <= i < NUM_SHARDS ==> (flags[i] <==> exists k :: k in keys && k !in rest && ShardFor(k) == i)
      decreases rest
    {
      var k :| k in rest;
      ghost var before, was := flags, rest;
      flags := flags[ShardFor(k) := true];
      rest := rest - {k};
      forall i | 0 <= i < NUM_SHARDS
        ensures flags[i] <==> exists j :: j in keys && j !in rest && ShardFor(j) == i
      {
        if before[i] {
          var j :| j in keys && j !in was && ShardFor(j) == i;
          assert j !in rest;
        }
      }
    }
  }

  /** The index after the scan and the purge of uploaded parts: what verifies stays, what
      does not leaves a tombstone. */
  function ScannedIndex(mode: OpenMode, live: seq<byte>, idx: Index, txn: nat): Index {
    Index(map k | k in idx.files && Verifies(mode, live, idx.files[k]) && !Temporary(k) :: idx.files[k],
          idx.tombs + map k | k in idx.files && !Verifies(mode, live, idx.files[k]) :: Grave(idx.files[k], txn))
  }

  function Grave(info: ExtentInfo, txn: nat): Tombstone {
    Tombstone(info.size, info.crc, info.lastModified, txn)
  }

  /** Scan a loaded index. */
  method Scan(io: Device, mode: OpenMode, com: Commit, g: Geometry) returns (index: Index, flags: seq<bool>)
    requires g.Valid()
    ensures OpenScan(com.idx, index, flags)
    ensures exists bad ::
      && Misplaced(com.idx.files, g.DataEnd(), bad)
      && index == ScannedIndex(mode, io.disk.live, Index(com.idx.files - bad, com.idx.tombs), com.sb.txnId + 1)
    ensures Placed(com.idx.files, g.DataEnd()) ==> index == ScannedIndex(mode, io.disk.live, com.idx, com.sb.txnId + 1)
  {
    hide Verifies, Placed, OpenScan, ShardFor, ScannedIndex, Temporary, Misplaced;
    var files := com.idx.files;
    var misplaced := MisplacedKeys(files, g.DataEnd());
    var left := files - misplaced;
    var stale := StaleKeys(io, mode, left);
    var tombs := com.idx.tombs + map k | k in stale :: Grave(left[k], com.sb.txnId + 1);
    var temporary := set k | k in left && k !in stale && Temporary(k);
    index := Index(left - stale - temporary, tombs);
    flags := MarkShards(misplaced + stale + temporary);
    assert index.files == files - (misplaced + stale + temporary);
    ScanMarks(com.idx, index, misplaced + stale + temporary, flags);
    ScanLeaves(mode, io.disk.live, Index(left, com.idx.tombs), com.sb.txnId + 1, stale, index);
    if Placed(files, g.DataEnd()) {
      NothingMisplaced(files, g.DataEnd(), misplaced);
      assert files - misplaced == files;
    }
  }

  lemma ScanLeaves(mode: OpenMode, live: seq<byte>, idx: Index, txn: nat, stale: set<Key>, idx': Index)
    requires stale == set k | k in idx.files && !Verifies(mode, live, idx.files[k])
    requires idx'.files == idx.files - stale - (set k | k in idx.files && k !in stale && Temporary(k))
    requires idx'.tombs == idx.tombs + map k | k in stale :: Grave(idx.files[k], txn)
    ensures idx' == ScannedIndex(mode, live, idx, txn)
  {
    hide Verifies, Temporary;
    var goal := ScannedIndex(mode, live, idx, txn);
    assert idx'.files == goal.files;
    assert idx'.tombs == goal.tombs;
  }

  lemma ScanMarks(idx: Index, idx': Index, keys: set<Key>, flags: seq<bool>)
    requires idx'.files == idx.files - keys && |flags| == NUM_SHARDS
    requires forall k :: k !in keys ==> (k in idx'.tombs <==> k in idx.tombs) && (k in idx.tombs ==> idx'.tombs[k] == idx.tombs[k])
    requires forall i :: 0 <= i < NUM_SHARDS ==> (flags[i] <==> exists k :: k in keys && ShardFor(k) == i)
    ensures OpenScan(idx, idx', flags)
  {
    hide ShardFor;
    forall i | 0 <= i < NUM_SHARDS
      ensures Shard(idx', i) != Shard(idx, i) ==> flags[i]
    {
      if !flags[i] {
        assert forall k :: k in keys ==> ShardFor(k) != i;
        assert Shard(idx', i).files == Shard(idx, i).files;
        assert Shard(idx', i).tombs == Shard(idx, i).tombs;
      }
    }
  }

  // ---- Open --------------------------------------------------------------

  const FLAG_WRITE_PROTECT: nat := 2

  /** Open for writing. `before` is the state of the writer that was using the device when
      it stopped, in whatever way; it is history only. */
  method Open(io: Device, codec: ShardCodec, zs: Compressors, mode: OpenMode, ghost g: Geometry, ghost before: Machine)
    returns (r: Result<RawStore>)
    requires LawfulCodes(zs) && io.disk == Disk(io.disk.live, io.disk.live, [])
    ensures Recover(codec, io.disk.live).Err? ==> r == Err(Recover(codec, io.disk.live).error)
    ensures r.Ok? ==> fresh(r.value) && fresh(r.value.allocator) && r.value.io == io && Recover(codec, io.disk.live).Ok?
    ensures r.Ok? ==> r.value.z == zs(r.value.superblock.compression) && r.value.superblock == Recover(codec, io.disk.live).value.sb
    ensures r.Ok? ==> r.value.maxKeyLength == r.value.superblock.maxKeyLength > 0
    ensures r.Ok? ==>
      var slot := r.value.superblock.slotCapacity;
      r.value.g == Geometry(|io.disk.live|, if slot == 0 then 16777216 else slot)
    ensures Inv(codec, g, before) && AtomicCrash(g, before.sys.disk, io.disk.live) ==>
      && Recover(codec, io.disk.live).Ok?
      && (if r.Ok? then OpenRefusal(Recover(codec, io.disk.live).value.sb) == None
          else OpenRefusal(Recover(codec, io.disk.live).value.sb) == Some(r.error))
      && (r.Ok? ==> Opened(r.value, mode, g, before))
  {
    hide Inv, Recover, AtomicCrash, CrashNext, ScannedIndex, Placed, FreeListOk, OpenScan;
    var loaded := Load(io, codec);
    if Inv(codec, g, before) && AtomicCrash(g, before.sys.disk, io.disk.live) {
      LoadedInPlace(codec, g, before, io.disk.live);
    }
    if loaded.Err? {
      return Err(loaded.error);
    }
    var com := loaded.value;
    var geometry := GeometryOf(|io.disk.live|, com.sb);
    var index, flags := Scan(io, mode, com, geometry);
    if Protected(com.sb) {
      return Err(WriteProtected);
    }
    var used, free := RebuildFreeList(index.files, geometry.DataEnd());
    var allocator := new ExtentAllocator.FromFreeList(free, DATA_START, geometry.DataEnd());
    if com.sb.maxKeyLength == 0 || com.sb.compression > LAST_COMPRESSION {
      return Err(Io);
    }
    var z := zs(com.sb.compression);
    var store := new RawStore(io, geometry, codec, z, com.sb.maxKeyLength, allocator, index, com.sb, flags,
                              exists i :: 0 <= i < |flags| && flags[i], com, io.disk.live, PlaceSet(index.files));
    if Inv(codec, g, before) && AtomicCrash(g, before.sys.disk, io.disk.live) {
      StoreIsOpen(store, mode, free, g, before);
    }
    r := Ok(store);
  }

  /** The second of the flag bits is set. */
  predicate Protected(sb: Superblock) {
    sb.flags / FLAG_WRITE_PROTECT % 2 == 1
  }

  /** Why a device may not be opened for writing, if so. */
  ghost function OpenRefusal(sb: Superblock): Option<Error> {
    if sb.flags / 2 % 2 == 1 then Some(WriteProtected)
    else if sb.maxKeyLength == 0 || sb.compression >= 13 then Some(Io)
    else None
  }

  /** The store continues what a crash left: it is in order, it stands on the recovered
      commit, and its index is what the scan leaves of that commit. */
  ghost predicate Opened(store: RawStore, mode: OpenMode, g: Geometry, before: Machine)
    reads store, store.io, store.allocator
  {
    && store.g == g && store.Valid()
    && CrashNext(store.codec, g, before, store.State(), store.io.disk.live)
    && store.index == ScannedIndex(mode, store.io.disk.live, store.com.idx, store.com.sb.txnId + 1)
  }

  lemma LoadedInPlace(c: ShardCodec, g: Geometry, before: Machine, img: seq<byte>)
    requires Inv(c, g, before) && AtomicCrash(g, before.sys.disk, img)
    ensures g.Valid() && Recover(c, img).Ok? && GeometryOf(|img|, Recover(c, img).value.sb) == g
    ensures Placed(Recover(c, img).value.idx.files, g.DataEnd())
  {
    hide PhaseOk, KeptUnharmed, Placed, Recover, CrashImage, Encodable, Holds;
    CrashRecovers(c, g, before, img);
  }

  lemma StoreIsOpen(store: RawStore, mode: OpenMode, free: seq<Extent>, g: Geometry, before: Machine)
    requires store.z.Lawful() && store.g == g && Inv(store.codec, g, before)
    requires store.io.disk == Disk(store.io.disk.live, store.io.disk.live, [])
    requires AtomicCrash(g, before.sys.disk, store.io.disk.live)
    requires Recover(store.codec, store.io.disk.live) == Ok(store.com) && store.superblock == store.com.sb
    requires store.image == store.io.disk.live && store.kept == PlaceSet(store.index.files)
    requires OpenScan(store.com.idx, store.index, store.shardDirty) && Noted(store.shardDirty, store.dirty)
    requires store.index == ScannedIndex(mode, store.io.disk.live, store.com.idx, store.com.sb.txnId + 1)
    requires g.Valid() && (Placed(store.index.files, g.DataEnd()) ==> FreeListOk(free, store.index.files, g.DataEnd()))
    requires Canonical(free) && FreeInBounds(free, g.DataEnd()) ==> store.allocator.freeList == free
    ensures Opened(store, mode, g, before)
  {
    hide Inv, Recover, AtomicCrash, ScannedIndex, Placed, FreeListOk, OpenScan, Canonical;
    CrashKeepsInv(store.codec, g, before, store.State(), store.io.disk.live);
    InvPlaced(store.codec, g, store.State());
    HealthyList(free, store.index.files, g.DataEnd());
  }

  // ---- What a full verification leaves -----------------------------------

  /** After a FullVerify open every surviving entry decodes to content of the recorded size
      and checksum, and every other entry of the recovered index that was not an uploaded
      part has a tombstone. */
  lemma FullVerifyKeepsOnlyGood(live: seq<byte>, idx: Index, txn: nat, k: Key)
    requires k in idx.files
    ensures
      var scanned, info := ScannedIndex(FullVerify, live, idx, txn), idx.files[k];
      if k in scanned.files then
        scanned.files[k] == info && Stored(live, info).Ok? && |Stored(live, info).value| == info.size
        && Crc(Stored(live, info).value) == info.crc
      else Temporary(k) || (k in scanned.tombs && scanned.tombs[k] == Tombstone(info.size, info.crc, info.lastModified, txn))
  {
    hide Decode, Crc;
    var info := idx.files[k];
    if Stored(live, info).Ok? {
      DecodeLength(live[info.offset..info.offset + NumBlocks(info.size) * BLOCK], info.size);
    }
  }

  /** No open leaves an uploaded part, and every other entry stays exactly if it verifies. */
  lemma PartsPurged(mode: OpenMode, live: seq<byte>, idx: Index, txn: nat, k: Key)
    ensures k in ScannedIndex(mode, live, idx, txn).files
      <==> k in idx.files && Verifies(mode, live, idx.files[k]) && !(MULTIPART_PREFIX <= k)
    ensures k !in idx.files ==> (k in ScannedIndex(mode, live, idx, txn).tombs <==> k in idx.tombs)
  {
    hide Verifies;
  }

  /** An intact object passes every mode. */
  lemma IntactVerifies(mode: OpenMode, z: Compressor, live: seq<byte>, info: ExtentInfo)
    requires Intact(z, live, info) && info.size > 0 && PaddedExtentSize(info.size).Ok?
    ensures Verifies(mode, live, info)
  {
    hide Decode, Crc, VerifyBlock;
    var raw := live[info.offset..info.offset + NumBlocks(info.size) * BLOCK];
    DecodedPiece(raw, info.size, 0);
    SliceSlice(live, info.offset, info.offset + NumBlocks(info.size) * BLOCK, 0, BLOCK);
    assert raw[0 * BLOCK..(0 + 1) * BLOCK] == live[info.offset..info.offset + BLOCK];
  }

  /** An extent that was freed and now holds another object of the same size. The default
      scan accepts the stale entry whatever was written; a full verification accepts it
      exactly when the checksums of the two objects collide. */
  lemma DefaultMissesReuse(live: seq<byte>, info: ExtentInfo, other: seq<byte>)
    requires other != [] && info.size == |other| && PaddedExtentSize(info.size).Ok?
    requires info.offset + NumBlocks(|other|) * BLOCK <= |live|
    requires live[info.offset..info.offset + NumBlocks(|other|) * BLOCK] == Encode(other)
    ensures Verifies(Default, live, info)
    ensures Verifies(FullVerify, live, info) <==> Crc(other) == info.crc
  {
    hide Decode, Crc, VerifyBlock, Encode;
    var raw := live[info.offset..info.offset + NumBlocks(|other|) * BLOCK];
    RoundTrip(other);
    DecodedPiece(raw, info.size, 0);
    SliceSlice(live, info.offset, info.offset + NumBlocks(info.size) * BLOCK, 0, BLOCK);
    assert raw[0 * BLOCK..(0 + 1) * BLOCK] == live[info.offset..info.offset + BLOCK];
  }

  // ---- What the scan notices ---------------------------------------------

  /** Byte `pos` of the extent, which holds `payload` as recorded, is not `b`. */
  ghost predicate Damageable(live: seq<byte>, info: ExtentInfo, payload: seq<byte>, pos: nat, b: byte) {
    && payload != [] && info.size == |payload| && info.crc == Crc(payload) && PaddedExtentSize(info.size).Ok?
    && info.offset + NumBlocks(info.size) * BLOCK <= |live|
    && live[info.offset..info.offset + NumBlocks(info.size) * BLOCK] == Encode(payload)
    && pos < NumBlocks(info.size) * BLOCK && live[info.offset + pos] != b
  }

  /** Which modes notice a damaged byte: the default scan in the first block only, a full
      verification anywhere, none at all if verification is skipped. */
  predicate Notices(mode: OpenMode, pos: nat) {
    match mode
    case Default => pos < BLOCK
    case FullVerify => true
    case SkipVerify => false
  }

  /** The default scan accepts an extent exactly if its first block is good. */
  lemma DefaultIsFirstBlock(live: seq<byte>, info: ExtentInfo)
    requires info.size > 0 && info.offset + NumBlocks(info.size) * BLOCK <= |live|
    ensures
      var raw := live[info.offset..info.offset + NumBlocks(info.size) * BLOCK];
      Verifies(Default, live, info) <==> BlockOk(raw, 0)
  {
    hide VerifyBlock;
    SliceSlice(live, info.offset, info.offset + NumBlocks(info.size) * BLOCK, 0, BLOCK);
    var raw := live[info.offset..info.offset + NumBlocks(info.size) * BLOCK];
    assert raw[0 * BLOCK..(0 + 1) * BLOCK] == live[info.offset..info.offset + BLOCK];
  }

  /** A sound entry passes every mode; with one byte changed it fails exactly those that
      notice. */
  lemma DamageNoticed(mode: OpenMode, live: seq<byte>, info: ExtentInfo, payload: seq<byte>, pos: nat, b: byte)
    requires Damageable(live, info, payload, pos, b)
    ensures Verifies(mode, live, info)
    ensures Verifies(mode, live[info.offset + pos := b], info) <==> !Notices(mode, pos)
  {
    hide Decode, Crc, Encode, BlockOk;
    var n := NumBlocks(info.size) * BLOCK;
    var live', good := live[info.offset + pos := b], Encode(payload);
    assert good[pos] == live[info.offset + pos];
    assert live'[info.offset..info.offset + n] == good[pos := b];
    match mode
    case Default =>
      hide Verifies;
      DefaultIsFirstBlock(live, info);
      DefaultIsFirstBlock(live', info);
      EncodedOk(payload);
      assert BlockOk(good, 0);
      OtherBlocksOk(good, pos, b, 0);
    case FullVerify =>
      RoundTrip(payload);
      SingleByteDamageDetected(payload, pos, b);
    case SkipVerify =>
  }

  /** Only an entry's own extent matters to its verification. */
  lemma SameExtentVerifies(mode: OpenMode, live: seq<byte>, live': seq<byte>, info: ExtentInfo)
    requires info.size > 0 && |live| == |live'| && info.offset + NumBlocks(info.size) * BLOCK <= |live|
    requires live[info.offset..info.offset + NumBlocks(info.size) * BLOCK] == live'[info.offset..info.offset + NumBlocks(info.size) * BLOCK]
    ensures Verifies(mode, live, info) <==> Verifies(mode, live', info)
  {
    hide Decode, Crc, BlockOk;
    if mode.Default? {
      hide Verifies;
      DefaultIsFirstBlock(live, info);
      DefaultIsFirstBlock(live', info);
    }
  }

  /** The scan of a device with one damaged byte in the extent of `k`: if the mode notices, it
      drops exactly that entry, leaves a tombstone and marks the shard; otherwise it leaves
      what it would have left of the undamaged device. */
  lemma ScanDropsDamaged(mode: OpenMode, live: seq<byte>, idx: Index, dataEnd: nat, txn: nat, k: Key, payload: seq<byte>, pos: nat, b: byte)
    requires Placed(idx.files, dataEnd) && dataEnd <= |live| && k in idx.files && !Temporary(k)
    requires Damageable(live, idx.files[k], payload, pos, b)
    ensures
      var sound := ScannedIndex(mode, live, idx, txn);
      var after := ScannedIndex(mode, live[idx.files[k].offset + pos := b], idx, txn);
      && k in sound.files
      && after == (if Notices(mode, pos) then Index(sound.files - {k}, sound.tombs[k := Grave(idx.files[k], txn)]) else sound)
      && (Notices(mode, pos) ==> AlwaysMarked(idx, after, ShardFor(k)))
  {
    hide Verifies, Placed, Temporary, Damageable, Notices, ShardFor, OpenScan, ScannedIndex, AlwaysMarked;
    InExtent(live, idx.files[k], payload, pos, b);
    var live' := live[idx.files[k].offset + pos := b];
    DamageNoticed(mode, live, idx.files[k], payload, pos, b);
    forall j | j in idx.files && j != k
      ensures Verifies(mode, live, idx.files[j]) <==> Verifies(mode, live', idx.files[j])
    {
      OtherEntry(mode, live, idx.files, dataEnd, k, payload, pos, b, j);
    }
    OneVerdict(mode, live, live', idx, txn, k);
    if Notices(mode, pos) {
      DroppedMarks(idx, ScannedIndex(mode, live', idx, txn), k);
    }
  }

  /** Two devices on which only the entry `k` may verify differently. */
  lemma OneVerdict(mode: OpenMode, live: seq<byte>, live': seq<byte>, idx: Index, txn: nat, k: Key)
    requires k in idx.files && !Temporary(k) && Verifies(mode, live, idx.files[k])
    requires forall j :: j in idx.files && j != k ==> (Verifies(mode, live, idx.files[j]) <==> Verifies(mode, live', idx.files[j]))
    ensures
      var sound, after := ScannedIndex(mode, live, idx, txn), ScannedIndex(mode, live', idx, txn);
      && k in sound.files
      && after == if Verifies(mode, live', idx.files[k]) then sound
                  else Index(sound.files - {k}, sound.tombs[k := Grave(idx.files[k], txn)])
  {
    hide Verifies, Temporary, Grave, ScannedIndex, Without;
    var fails := set j | j in idx.files && !Verifies(mode, live, idx.files[j]);
    var fails' := set j | j in idx.files && !Verifies(mode, live', idx.files[j]);
    ScannedBy(mode, live, idx, txn, fails);
    ScannedBy(mode, live', idx, txn, fails');
    assert fails' == if Verifies(mode, live', idx.files[k]) then fails else fails + {k};
    OneMoreFails(idx, txn, fails, k);
  }

  /** The index without the entries that fail. */
  function Without(idx: Index, txn: nat, fails: set<Key>): Index {
    Index(map k | k in idx.files && k !in fails && !Temporary(k) :: idx.files[k],
          idx.tombs + map k | k in idx.files && k in fails :: Grave(idx.files[k], txn))
  }

  lemma ScannedBy(mode: OpenMode, live: seq<byte>, idx: Index, txn: nat, fails: set<Key>)
    requires fails == set j | j in idx.files && !Verifies(mode, live, idx.files[j])
    ensures ScannedIndex(mode, live, idx, txn) == Without(idx, txn, fails)
  {
    hide Verifies, Temporary, Grave;
    assert ScannedIndex(mode, live, idx, txn).files == Without(idx, txn, fails).files;
    assert ScannedIndex(mode, live, idx, txn).tombs == Without(idx, txn, fails).tombs;
  }

  lemma OneMoreFails(idx: Index, txn: nat, fails: set<Key>, k: Key)
    requires k in idx.files && k !in fails && !Temporary(k)
    ensures k in Without(idx, txn, fails).files
    ensures Without(idx, txn, fails + {k}).files == Without(idx, txn, fails).files - {k}
    ensures Without(idx, txn, fails + {k}).tombs == Without(idx, txn, fails).tombs[k := Grave(idx.files[k], txn)]
  {
    hide Temporary, Grave;
  }

  lemma InExtent(live: seq<byte>, info: ExtentInfo, payload: seq<byte>, pos: nat, b: byte)
    requires Damageable(live, info, payload, pos, b)
    ensures info.offset + pos < |live|
  {}

  /** Whatever the scan marks between these indexes, shard `i` is among it. */
  ghost predicate AlwaysMarked(idx: Index, idx': Index, i: nat)
    requires i < NUM_SHARDS
  {
    forall flags :: OpenScan(idx, idx', flags) ==> |flags| == NUM_SHARDS && flags[i]
  }

  lemma DroppedMarks(idx: Index, idx': Index, k: Key)
    requires k in idx.files && k !in idx'.files
    ensures AlwaysMarked(idx, idx', ShardFor(k))
  {
    hide ShardFor;
    assert k in Shard(idx, ShardFor(k)).files && k !in Shard(idx', ShardFor(k)).files;
  }

  lemma OtherEntry(mode: OpenMode, live: seq<byte>, files: map<Key, ExtentInfo>, dataEnd: nat, k: Key, payload: seq<byte>, pos: nat, b: byte, j: Key)
    requires Placed(files, dataEnd) && dataEnd <= |live| && k in files && j in files && j != k
    requires Damageable(live, files[k], payload, pos, b)
    ensures Verifies(mode, live, files[j]) <==> Verifies(mode, live[files[k].offset + pos := b], files[j])
  {
    hide Verifies, Encode, Crc;
    var live', info := live[files[k].offset + pos := b], files[j];
    assert WellPlaced(files[k], dataEnd) && WellPlaced(info, dataEnd) && files[k].Place().Disjoint(info.Place());
    assert live'[info.offset..info.Place().End()] == live[info.offset..info.Place().End()];
    SameExtentVerifies(mode, live, live', info);
  }

  /** `k` is part of the last flush at the start of `trace`, and its extent stays in use. */
  ghost predicate FlushedAndKept(c: ShardCodec, g: Geometry, trace: seq<Machine>, k: Key) {
    && trace != [] && Inv(c, g, trace[0]) && k in trace[0].com.idx.files
    && trace[0].com.idx.files[k].Place() in trace[0].kept
    && InUseThroughout(c, g, trace, trace[0].com.idx.files[k].Place())
  }

  /** Entries for the same content. Renaming an object or moving its metadata boundary keeps it
      so. */
  predicate SameContent(a: ExtentInfo, b: ExtentInfo) {
    a.Place() == b.Place() && a.size == b.size && a.crc == b.crc && a.uncompressedSize == b.uncompressedSize
  }

  ghost predicate SamePayload(a: map<Key, Object>, k: Key, b: map<Key, Object>, k': Key) {
    k in a && k' in b && a[k].payload == b[k'].payload
  }

  /** End to end: an object that was intact when last flushed, and whose extent has been in use
      ever since, is there with the same bytes after any crash and any open. If the crash
      recovers that flush, it is there under its key; if it recovers the flush in progress,
      some entry still has the extent, and every entry for that content reads as the object. */
  lemma FlushedObjectReadable(c: ShardCodec, g: Geometry, z: Compressor, trace: seq<Machine>, k: Key, mode: OpenMode, img: seq<byte>, k': Key)
    requires FlushedAndKept(c, g, trace, k) && g.deviceSize < U64_LIMIT
    requires k in ObjectsOf(z, trace[0].image, trace[0].com.idx.files)
    requires AtomicCrash(g, trace[|trace| - 1].sys.disk, img)
    ensures Recover(c, img).Ok?
    ensures
      var com, m, now := trace[0].com, trace[|trace| - 1], Recover(c, img).value;
      && (now == com || (m.sys.phase.PrimaryPending? && now == InProgress(m)))
      && com.idx.files[k].Place() in PlaceSet(now.idx.files)
      && (k' in now.idx.files && SameContent(com.idx.files[k], now.idx.files[k']) && !Temporary(k') ==>
            SamePayload(ObjectsOf(z, trace[0].image, com.idx.files), k,
                        ObjectsOf(z, img, ScannedIndex(mode, img, now.idx, now.sb.txnId + 1).files), k'))
  {
    hide Inv, Intact, Payload, Recover, AtomicCrash, Verifies, Uneventful;
    var com, m := trace[0].com, trace[|trace| - 1];
    var info := com.idx.files[k];
    assert WellPlaced(info, g.DataEnd()) && g.Valid() && |trace[0].image| == g.deviceSize by {
      CommittedPlace(c, g, trace[0], k);
    }
    FlushedObjectSurvives(c, g, trace, k, img);
    assert info.Place() in PlaceSet(com.idx.files) && info.Place() in PlaceSet(m.sys.idx.files);
    var now := Recover(c, img).value;
    if k' in now.idx.files && SameContent(info, now.idx.files[k']) {
      SameExtentSameEntry(z, trace[0].image, img, info, now.idx.files[k']);
      IntactVerifies(mode, z, img, now.idx.files[k']);
    }
  }

  lemma CommittedPlace(c: ShardCodec, g: Geometry, m: Machine, k: Key)
    requires Inv(c, g, m) && k in m.com.idx.files
    ensures g.Valid() && WellPlaced(m.com.idx.files[k], g.DataEnd()) && |m.image| == g.deviceSize
  {
    hide PhaseOk, KeptUnharmed, SuperblockOk;
  }
}
