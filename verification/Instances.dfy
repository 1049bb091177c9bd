/** Reachable states in which the limits of the protocol show: a flush that gives up part-way,
    and a stale backup. */
module Instances {
  import opened Crc32c
  import opened Base
  import opened Indexes
  import opened Superblocks
  import opened Recovery
  import opened Protocol
  import opened CrashSafety
  import opened CrashRuns
  import opened TornWrites
  import opened FlushSteps
  import opened Space
  import opened Stores
  import opened Formatting
  import opened Witness

  const CAPACITY: nat := 0x200_0000
  /** Two data blocks, and slots of 128 KB. */
  const SMALL: Geometry := Geometry(0x4000 + 2 * CAPACITY, CAPACITY)

  /** Keys of shards 0 and 131. */
  const FIRST: Key := []
  const LATER: Key := [0x31, 0x32, 0x33, 0x34, 0x35, 0x36, 0x37, 0x38, 0x39]

  function Block(at: nat, time: nat): ExtentInfo {
    ExtentInfo(at, 1, BLOCK, 0, 0, time, 0, 0)
  }

  lemma TheShards()
    ensures ShardFor(FIRST) == 0 && ShardFor(LATER) == 131
  {
    assert Crc(FIRST) == 0;
    CheckValue();
    assert (0xE306_9283 as bv32) & 0xFF == 0x83;
  }

  /** An index with these entries has each alone in its shard. */
  lemma AloneInShard(files: map<Key, ExtentInfo>, k: Key)
    requires files.Keys <= {FIRST, LATER} && k in files
    ensures Shard(Index(files, map[]), ShardFor(k)) == OneEntry(k, files[k])
  {
    TheShards();
    hide ShardFor;
    assert Shard(Index(files, map[]), ShardFor(k)).files == map[k := files[k]];
  }

  /** The formatted device, after entries have been changed. */
  lemma Changed(c: ShardCodec, m: Machine, files: map<Key, ExtentInfo>, flags: seq<bool>) returns (m': Machine)
    requires SMALL.Valid() && Reachable(c, SMALL, m) && m.sys.phase.Idle? && Placed(files, SMALL.DataEnd())
    requires DirtyMarked(m.sys.idx, m.sys.dirty, Index(files, map[]), flags)
    ensures MutateNext(SMALL, m, m') && Reachable(c, SMALL, m') && Inv(c, SMALL, m')
    ensures m' == m.(sys := m.sys.(idx := Index(files, map[]), dirty := flags), kept := m'.kept)
  {
    hide Placed, DirtyMarked, Reachable, Inv;
    m' := m.(sys := m.sys.(idx := Index(files, map[]), dirty := flags), kept := m.kept * PlaceSet(files));
    NoWrites(m.sys.disk, m.sys.idx.files, SMALL.DataEnd());
    ReachedNext(c, SMALL, m, m');
    ReachedInv(c, SMALL, m');
  }

  lemma SmallFits(at: nat, time: nat)
    requires at <= 0x2000 && time <= 0x2000
    ensures |Codec().enc(OneEntry(FIRST, Block(at, time)))| <= SMALL.SlotSize()
  {
    hide Enc;
    SmallEntrySize(Block(at, time), 0x2000);
  }

  // ---- A flush that gives up part-way ------------------------------------

  lemma {:induction false} MidwaySkips(c: ShardCodec, g: Geometry, m: Machine, a: nat, b: nat)
    requires Midway(c, g, m, a) && a <= b <= NUM_SHARDS && |m.sys.dirty| == NUM_SHARDS
    requires forall i :: a <= i < b ==> !m.sys.dirty[i]
    ensures Midway(c, g, m, b)
    decreases b - a
  {
    hide Midway;
    if a < b {
      MidwaySkip(c, g, m, a);
      MidwaySkips(c, g, m, a + 1, b);
    }
  }

  /** Two bytes that decode to the empty shard do not start with a one. */
  lemma EmptyStart(s: seq<byte>)
    requires |s| == 2 && s[0] == 1
    ensures Dec(s) != Some(NOTHING)
  {
    assert GetNats(s, 0) == GetNats(s[1..], 1);
    assert GetNats(s[1..][1..], 0) == [] && GetNats(s[1..][1..], 2) == [];
  }

  /** The committed copy of an empty shard starts with something else. */
  lemma CommittedStart(m: Machine, img: seq<byte>)
    requires SMALL.Valid() && Holds(Codec(), SMALL, img, m.com) && |m.com.sb.slots| == NUM_SHARDS
    requires m.com.idx == NOTHING && m.com.sb.slots[0].size == 2
    ensures
      var at := SMALL.SlotOffset(m.com.sb.slots[0].active, 0);
      at + 2 <= |img| && img[at] != 1
  {
    hide SuperHeld, Checksum, Dec, Enc;
    assert ShardStored(Codec(), SMALL, img, m.com.sb.slots[0], Shard(m.com.idx, 0), 0);
    assert Shard(NOTHING, 0) == NOTHING;
    var at := SMALL.SlotOffset(m.com.sb.slots[0].active, 0);
    var bytes := img[at..at + 2];
    assert bytes[0] == img[at];
    if bytes[0] == 1 {
      EmptyStart(bytes);
    }
  }

  /** A reachable store with two dirty shards, the later of which overflows its slot: the flush
      gives up between them, and the next one writes the first over its committed copy. A crash
      there can lose the commit. */
  lemma AbortedFlushHappens() returns (m: Machine, m': Machine)
    ensures Reachable(Codec(), SMALL, m) && m.sys.phase.Idle? && |m.sys.dirty| == NUM_SHARDS && m.sys.dirty[0]
    ensures ShardWritten(Codec(), SMALL, m.sys, m'.sys, 0) && m' == m.(sys := m'.sys)
    ensures Aborted(Codec(), SMALL, m', 131) && !Inv(Codec(), SMALL, m') && m.com.sb.slots[0].active == 0
    ensures
      var at := SMALL.SlotOffset(m.com.sb.slots[0].active, 0);
      && at + |Codec().enc(Shard(m'.sys.idx, 0))| <= |m'.sys.disk.live|
      && !AllRecover(Codec(), SMALL, m'.sys.disk.Written(at, Codec().enc(Shard(m'.sys.idx, 0))), m.com)
  {
    hide Inv, Reachable, AllRecover, Midway, AtLiveSlot, Checksum, Shard, Codec;
    m := TwoDirty();
    var c := Codec();
    TwoReady(m);
    MidwayStart(c, SMALL, m);
    MidwayNext(c, SMALL, m, 0);
    m' := m.(sys := WriteShard(c, SMALL, m.sys, 0));
    WhichAreMarked();
    hide BothMarked;
    MidwaySkips(c, SMALL, m', 1, 131);
    AbortedInOrder(c, SMALL, m', 131);
    Overwrites(m');
  }

  ghost function BothMarked(): seq<bool> {
    seq(NUM_SHARDS, _ => false)[0 := true][131 := true]
  }

  lemma WhichAreMarked()
    ensures forall i :: 0 <= i < NUM_SHARDS ==> (BothMarked()[i] <==> i == 0 || i == 131)
  {}

  function TwoEntries(): Index {
    Index(map[FIRST := Block(0x2000, 0), LATER := Block(0x3000, 200_000)], map[])
  }

  /** A formatted device with two unflushed entries, in shards 0 and 131. */
  lemma TwoDirty() returns (m: Machine)
    ensures Reachable(Codec(), SMALL, m) && m.sys.phase.Idle? && m.sys.idx == TwoEntries() && m.sys.dirty == BothMarked()
    ensures m.com.idx == NOTHING && |m.com.sb.slots| == NUM_SHARDS && m.com.sb.slots[0] == EmptySlot(Codec())
  {
    hide Inv, Reachable, Checksum, DirtyMarked, Holds, SuperblockOk, MutateNext, Placed, Codec, BothMarked;
    SomeCodecIsLawful();
    var c := Codec();
    var m0 := SomeFormatted(c, SMALL);
    ReachedFormatted(c, SMALL, m0);
    TwoMarked();
    TwoPlaced(TwoEntries().files);
    m := Changed(c, m0, TwoEntries().files, BothMarked());
  }

  lemma TwoMarked()
    ensures DirtyMarked(NOTHING, seq(NUM_SHARDS, _ => false), TwoEntries(), BothMarked())
  {
    hide ShardFor, DirtyMarked;
    TheShards();
    assert NOTHING.files - {FIRST} - {LATER} == TwoEntries().files - {FIRST} - {LATER};
    MarkTwo(NOTHING, TwoEntries(), seq(NUM_SHARDS, _ => false), FIRST, LATER);
  }

  lemma TwoReady(m: Machine)
    requires Reachable(Codec(), SMALL, m) && m.sys.phase.Idle? && m.sys.idx == TwoEntries()
    requires |m.com.sb.slots| == NUM_SHARDS && m.com.sb.slots[0] == EmptySlot(Codec())
    ensures Inv(Codec(), SMALL, m) && Shaped(SMALL, m.sys) && m.com.sb.slots[0].size == 2
    ensures SlotHolds(Codec(), SMALL, m.sys, 0) && |Codec().enc(Shard(m.sys.idx, 0))| < U32_LIMIT && !SlotHolds(Codec(), SMALL, m.sys, 131)
    ensures |Codec().enc(Shard(m.sys.idx, 0))| >= 2 && Codec().enc(Shard(m.sys.idx, 0))[0] == 1
  {
    hide Inv, Reachable, Codec, Checksum, Shard, MutateNext;
    SomeCodecIsLawful();
    ReachedInv(Codec(), SMALL, m);
    Idling(Codec(), SMALL, m);
    TwoSizes(m.sys);
  }

  lemma TwoSizes(s: Sys)
    requires s.idx == TwoEntries()
    ensures SlotHolds(Codec(), SMALL, s, 0) && |Codec().enc(Shard(s.idx, 0))| < U32_LIMIT && !SlotHolds(Codec(), SMALL, s, 131)
    ensures |Codec().enc(Shard(s.idx, 0))| >= 2 && Codec().enc(Shard(s.idx, 0))[0] == 1
  {
    hide Enc, Dec, Shard, ShardFor;
    TheShards();
    var files := s.idx.files;
    AloneInShard(files, FIRST);
    AloneInShard(files, LATER);
    SmallFits(0x2000, 0);
    OneEntrySize(LATER, files[LATER]);
    OneEntrySize(FIRST, files[FIRST]);
  }

  lemma TwoPlaced(files: map<Key, ExtentInfo>)
    requires files == TwoEntries().files
    ensures SMALL.Valid() && Placed(files, SMALL.DataEnd())
  {}

  /** What the next flush would write over the committed copy of shard 0 differs from it. */
  lemma Overwrites(m: Machine)
    requires Midway(Codec(), SMALL, m, 131) && m.sys.dirty[0] && SlotHolds(Codec(), SMALL, m.sys, 0)
    requires m.com.idx == NOTHING && m.com.sb.slots[0].size == 2
    requires |Codec().enc(Shard(m.sys.idx, 0))| >= 2 && Codec().enc(Shard(m.sys.idx, 0))[0] == 1
    ensures
      var at := SMALL.SlotOffset(m.com.sb.slots[0].active, 0);
      && at + |Codec().enc(Shard(m.sys.idx, 0))| <= |m.sys.disk.live|
      && !AllRecover(Codec(), SMALL, m.sys.disk.Written(at, Codec().enc(Shard(m.sys.idx, 0))), m.com)
  {
    hide AllRecover, Enc, Dec, Early, Common, Shard, Holds, Spared, SuperblockOk;
    var shard := Shard(m.sys.idx, 0);
    assert AtLiveSlot(Codec(), SMALL, m, 131, 0, shard);
    LiveSlot(Codec(), SMALL, m, 131, 0, shard);
    AbortedFlushSafeExactly(Codec(), SMALL, m, 131, 0, shard);
    CommittedStart(m, m.sys.disk.durable);
  }

  // ---- A stale backup ----------------------------------------------------

  lemma OnlyFirstDirty(s: Sys, time: nat)
    requires s.idx == Index(map[FIRST := Block(0x2000, time)], map[]) && time <= 0x2000 && s.sb.txnId + 1 < U64_LIMIT
    requires forall i :: 0 <= i < |s.dirty| && s.dirty[i] ==> i == 0
    ensures CanFlush(Codec(), SMALL, s)
  {
    hide Enc, Shard, ShardFor;
    TheShards();
    AloneInShard(s.idx.files, FIRST);
    SmallFits(0x2000, time);
  }

  lemma OnePlaced(time: nat)
    ensures SMALL.Valid() && Placed(map[FIRST := Block(0x2000, time)], SMALL.DataEnd())
  {}

  /** After a first flush, cut short behind its primary copy: the backup is that of the
      formatted device, and shard 0 is in its second slot. */
  lemma FirstFlush() returns (m: Machine, sb: Superblock)
    ensures Reachable(Codec(), SMALL, m) && Inv(Codec(), SMALL, m) && m.sys.phase.Idle? && Shaped(SMALL, m.sys)
    ensures SuperblockOk(sb, SMALL) && |sb.slots| == NUM_SHARDS && BackupIs(m, CopyBytes(sb)) && sb.slots[0] == EmptySlot(Codec())
    ensures m.sys.idx == Index(map[FIRST := Block(0x2000, 0)], map[]) && m.sys.dirty == seq(NUM_SHARDS, _ => false)
    ensures m.sys.sb.slots[0].active == 1 && m.sys.sb.txnId == 2
  {
    hide Inv, Reachable, Enc, Dec, Checksum, Shard, ShardFor, DirtyMarked, FlushRun, CanFlush, CopyBytes, SuperblockOk, Holds, CrashNext;
    SomeCodecIsLawful();
    var c := Codec();
    var m0 := SomeFormatted(c, SMALL);
    ReachedFormatted(c, SMALL, m0);
    TheShards();
    OnePlaced(0);
    var one := map[FIRST := Block(0x2000, 0)];
    assert NOTHING.files - {FIRST} == one - {FIRST};
    MarkOne(NOTHING, Index(one, map[]), m0.sys.dirty, FIRST);
    ReachedInv(c, SMALL, m0);
    var m1 := Changed(c, m0, one, m0.sys.dirty[0 := true]);
    CopiesStayInAgreement(c, SMALL, m0, m1);
    OnlyFirstDirty(m1.sys, 0);
    StaleBackupReachable(c, SMALL, m1);
    var q := FlushRun(c, SMALL, m1, 260);
    ReachedByFlush(c, SMALL, m1, 260);
    m, sb := Reopened(q.sys.disk.durable, q.com), m0.com.sb;
    ReachedNext(c, SMALL, q, m);
    FlushWrote(c, SMALL, m1, 0);
    Idling(c, SMALL, m);
  }

  /** The state of the device when the second flush has written its primary copy. */
  lemma SecondFlush() returns (p: Machine, sb: Superblock)
    ensures Reachable(Codec(), SMALL, p) && Inv(Codec(), SMALL, p) && p.sys.phase.PrimaryPending?
    ensures SuperblockOk(sb, SMALL) && |sb.slots| == NUM_SHARDS && BackupIs(p, CopyBytes(sb)) && sb.slots[0] == EmptySlot(Codec())
    ensures
      var off := SMALL.SlotOffset(0, 0);
      off + 2 <= |p.sys.disk.durable| && p.sys.disk.durable[off..off + 2] == [1, 0]
  {
    hide Inv, Reachable, Enc, Dec, Checksum, Shard, ShardFor, DirtyMarked, FlushRun, CanFlush, CopyBytes, SuperblockOk, BackupIs;
    var m2;
    m2, sb := FirstFlush();
    var c := Codec();
    TheShards();
    OnePlaced(1);
    var two := map[FIRST := Block(0x2000, 1)];
    assert m2.sys.idx.files - {FIRST} == two - {FIRST};
    MarkOne(m2.sys.idx, Index(two, map[]), m2.sys.dirty, FIRST);
    var m3 := Changed(c, m2, two, m2.sys.dirty[0 := true]);
    BackupUntouched(c, SMALL, m2, m3, CopyBytes(sb));
    OnlyFirstDirty(m3.sys, 1);
    FlushKeepsBackup(c, SMALL, m3, CopyBytes(sb), 259);
    ReachedByFlush(c, SMALL, m3, 259);
    FlushReaches(c, SMALL, m3, 259);
    FlushWrote(c, SMALL, m3, 0);
    p := FlushRun(c, SMALL, m3, 259);
    AloneInShard(two, FIRST);
    OneEntrySize(FIRST, two[FIRST]);
    FirstTwo(p.sys.disk.durable, SMALL.SlotOffset(0, 0), c.enc(Shard(m3.sys.idx, 0)));
  }

  lemma FirstTwo(img: seq<byte>, off: nat, bytes: seq<byte>)
    requires off + |bytes| <= |img| && img[off..off + |bytes|] == bytes && |bytes| >= 2 && bytes[0] == 1 && bytes[1] == 0
    ensures img[off..off + 2] == [1, 0]
  {
    assert img[off] == img[off..off + |bytes|][0] && img[off + 1] == img[off..off + |bytes|][1];
  }

  /** From a formatted device: a flush, a crash after its primary copy, a second flush of the
      same shard, and a torn primary copy. Open falls back to the backup, whose slot entry now
      points at overwritten bytes, and the device does not open. */
  lemma StaleBackupLoses() returns (p: Machine, img: seq<byte>)
    ensures Reachable(Codec(), SMALL, p) && p.sys.phase.PrimaryPending?
    ensures TornCrash(SMALL, p.sys.disk, img) && Recover(Codec(), img).Err?
  {
    hide Inv, Reachable, Enc, Dec, Checksum, CopyBytes, FromBytes, Recover, TornCrash, Encodable, LoadShards;
    var sb;
    p, sb := SecondFlush();
    img := TornImageExists(Codec(), SMALL, p);
    var durable := p.sys.disk.durable;
    CopyRoundTrip(sb);
    SomeCodecIsLawful();
    var zero: seq<byte> := [0, 0];
    assert zero[0 := 1] == [1, 0];
    ChangedByteShows(zero, 0, 1);
    assert |durable| == SMALL.deviceSize by { PendingSize(Codec(), SMALL, p); }
    assert GeometryOf(|durable|, sb) == SMALL;
    assert ReadShard(Codec(), SMALL, durable, sb.slots[0], 0).Err?;
    OneBadShardFails(Codec(), SMALL, durable, sb.slots, 0, NUM_SHARDS);
    TornPrimaryIndex(Codec(), SMALL, p, img, if Recover(Codec(), img).Ok? then Recover(Codec(), img).value.idx else NOTHING);
  }

  lemma PendingSize(c: ShardCodec, g: Geometry, p: Machine)
    requires Inv(c, g, p) && p.sys.phase.PrimaryPending?
    ensures |p.sys.disk.durable| == g.deviceSize
  {
    hide KeptUnharmed, Placed, Holds, SuperblockOk, IndexStored, CopyBytes;
  }
}
