/** The flush protocol as a state machine, one step per device request, with power
    failures possible between any two of them. */
module Protocol {
  import opened Crc32c
  import opened Base
  import opened Disks
  import opened Allocators
  import opened Indexes
  import opened Superblocks
  import opened Recovery

  // ---- The writer --------------------------------------------------------

  /** How far the running flush has come. */
  datatype Phase = Idle | Writing(next: nat) | ShardsSynced | PrimaryPending | PrimaryDurable | BackupPending

  /** The device and the writer's memory: index, superblock and per-shard dirty flags. */
  datatype Sys = Sys(disk: Disk, idx: Index, sb: Superblock, dirty: seq<bool>, phase: Phase)

  function SlotSum(slots: seq<SlotMeta>): nat {
    if slots == [] then 0 else slots[0].size + SlotSum(slots[1..])
  }

  /** The superblock that commits what the slots now describe. */
  function NextSuperblock(sb: Superblock): Superblock {
    sb.(prevTxnId := sb.txnId, txnId := sb.txnId + 1, indexRegionSize := SlotSum(sb.slots))
  }

  /** Every dirty shard fits its slot and its length field, and the counter has room. */
  ghost predicate CanFlush(c: ShardCodec, g: Geometry, s: Sys) {
    && s.sb.txnId + 1 < U64_LIMIT
    && forall i :: 0 <= i < |s.dirty| && s.dirty[i] ==>
         |c.enc(Shard(s.idx, i))| <= g.SlotSize() && |c.enc(Shard(s.idx, i))| < U32_LIMIT
  }

  ghost predicate Shaped(g: Geometry, s: Sys) {
    g.Valid() && |s.disk.live| == g.deviceSize && |s.sb.slots| == |s.dirty| == NUM_SHARDS
  }

  /** Write shard `i` to the slot that is not active and flip its entry. */
  function WriteShard(c: ShardCodec, g: Geometry, s: Sys, i: nat): Sys
    requires Shaped(g, s) && i < NUM_SHARDS && s.sb.slots[i].active <= 1
    requires g.SlotOffset(1 - s.sb.slots[i].active, i) + |c.enc(Shard(s.idx, i))| <= g.deviceSize
  {
    var slot, bytes := 1 - s.sb.slots[i].active, c.enc(Shard(s.idx, i));
    s.(disk := s.disk.Written(g.SlotOffset(slot, i), bytes),
       sb := s.sb.(slots := s.sb.slots[i := SlotMeta(slot, |bytes|, Checksum(bytes))]))
  }

  ghost predicate Steppable(c: ShardCodec, g: Geometry, s: Sys) {
    && Shaped(g, s)
    && (s.phase.Idle? || s.phase.Writing? || s.phase.ShardsSynced? ==> CanFlush(c, g, s))
    && forall i :: 0 <= i < NUM_SHARDS ==> s.sb.slots[i].active <= 1
  }

  lemma SlotRoom(c: ShardCodec, g: Geometry, s: Sys, i: nat)
    requires Steppable(c, g, s) && CanFlush(c, g, s) && i < NUM_SHARDS && s.dirty[i]
    ensures g.SlotOffset(1 - s.sb.slots[i].active, i) + |c.enc(Shard(s.idx, i))| <= g.deviceSize
  {
    SlotsApart(g, 1 - s.sb.slots[i].active, i, 0, 0);
  }

  /** One device request of a flush. */
  ghost function FlushStep(c: ShardCodec, g: Geometry, s: Sys): Sys
    requires Steppable(c, g, s)
  {
    match s.phase
    case Idle => s.(phase := Writing(0))
    case Writing(i) =>
      if i >= NUM_SHARDS then s.(disk := s.disk.Synced(), phase := ShardsSynced)
      else if s.dirty[i] then
        SlotRoom(c, g, s, i);
        WriteShard(c, g, s, i).(phase := Writing(i + 1))
      else s.(phase := Writing(i + 1))
    case ShardsSynced =>
      var sb := NextSuperblock(s.sb);
      s.(disk := s.disk.Written(0, CopyBytes(sb)), sb := sb, phase := PrimaryPending)
    case PrimaryPending => s.(disk := s.disk.Synced(), phase := PrimaryDurable)
    case PrimaryDurable => s.(disk := s.disk.Written(SUPERBLOCK_SIZE, CopyBytes(s.sb)), phase := BackupPending)
    case BackupPending => s.(disk := s.disk.Synced(), dirty := seq(NUM_SHARDS, _ => false), phase := Idle)
  }

  // ---- The writer with its history ---------------------------------------

  ghost function PlaceSet(files: map<Key, ExtentInfo>): set<Extent> {
    set k | k in files :: files[k].Place()
  }

  /** `com` is the last committed superblock and index, `image` the device when it was
      committed (or recovered), `kept` the extents that have been in use ever since. */
  datatype Machine = Machine(sys: Sys, com: Commit, image: seq<byte>, kept: set<Extent>)

  ghost function FlushNext(c: ShardCodec, g: Geometry, m: Machine): Machine
    requires Steppable(c, g, m.sys)
  {
    var s := FlushStep(c, g, m.sys);
    if m.sys.phase.PrimaryPending?
    then Machine(s, Commit(s.sb, s.idx), s.disk.durable, PlaceSet(s.idx.files))
    else m.(sys := s)
  }

  /** Writes of one store operation: confined to data space that no entry of `files` uses. */
  ghost predicate FreeWrites(d: Disk, d': Disk, files: map<Key, ExtentInfo>, dataEnd: nat) {
    && d'.durable == d.durable && |d'.live| == |d.live|
    && |d.pending| <= |d'.pending| && d'.pending[..|d.pending|] == d.pending
    && (forall k :: |d.pending| <= k < |d'.pending| ==>
          d'.pending[k].Within(DATA_START, dataEnd) &&
          forall f :: f in files ==> !d'.pending[k].Touches(files[f].offset, files[f].Place().End()))
    && (forall i :: 0 <= i < |d.live| && (!(DATA_START <= i < dataEnd) || Used(files, i)) ==> d'.live[i] == d.live[i])
  }

  /** Flags are only ever raised, and raised for every shard whose contents changed. */
  ghost predicate DirtyMarked(idx: Index, dirty: seq<bool>, idx': Index, dirty': seq<bool>) {
    && |dirty| == |dirty'| == NUM_SHARDS
    && (forall i :: 0 <= i < NUM_SHARDS && dirty[i] ==> dirty'[i])
    && (forall i :: 0 <= i < NUM_SHARDS && Shard(idx', i) != Shard(idx, i) ==> dirty'[i])
  }

  /** Any store operation between flushes, successful or not. */
  ghost predicate MutateStep(g: Geometry, s: Sys, s': Sys) {
    && g.Valid() && s.phase == s'.phase == Idle && s'.sb == s.sb
    && FreeWrites(s.disk, s'.disk, s.idx.files, g.DataEnd())
    && Placed(s'.idx.files, g.DataEnd())
    && DirtyMarked(s.idx, s.dirty, s'.idx, s'.dirty)
  }

  ghost predicate MutateNext(g: Geometry, m: Machine, m': Machine) {
    MutateStep(g, m.sys, m'.sys) && m' == m.(sys := m'.sys, kept := m.kept * PlaceSet(m'.sys.idx.files))
  }

  /** What the open-time scan may do to a recovered index: drop entries, adjust
      tombstones, and mark every shard it changed. */
  ghost predicate OpenScan(idx: Index, idx': Index, dirty': seq<bool>) {
    && |dirty'| == NUM_SHARDS
    && (forall k :: k in idx'.files ==> k in idx.files && idx'.files[k] == idx.files[k])
    && (forall i :: 0 <= i < NUM_SHARDS && Shard(idx', i) != Shard(idx, i) ==> dirty'[i])
  }

  /** A power failure leaves `img`, with each superblock copy written all-or-nothing. */
  ghost predicate AtomicCrash(g: Geometry, d: Disk, img: seq<byte>) {
    g.Valid() && CrashImage(d, img) && |img| == g.deviceSize && |d.durable| == g.deviceSize &&
    AtomicAt(d, img, 0, SUPERBLOCK_SIZE) && AtomicAt(d, img, SUPERBLOCK_SIZE, SUPERBLOCK_SIZE)
  }

  ghost predicate CrashNext(c: ShardCodec, g: Geometry, m: Machine, m': Machine, img: seq<byte>) {
    && AtomicCrash(g, m.sys.disk, img) && Recover(c, img).Ok?
    && m'.com == Recover(c, img).value && m'.image == img && m'.kept == PlaceSet(m'.sys.idx.files)
    && m'.sys == Sys(Disk(img, img, []), m'.sys.idx, m'.com.sb, m'.sys.dirty, Idle)
    && OpenScan(m'.com.idx, m'.sys.idx, m'.sys.dirty)
  }
}
