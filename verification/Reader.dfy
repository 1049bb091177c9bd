/** A read-only reader beside a writer: it reloads the shards whose slot entries changed. */
module Reader {
  import opened Base
  import opened Disks
  import opened Indexes
  import opened Superblocks
  import opened Recovery
  import opened Protocol
  import opened CrashSafety
  import opened CrashRuns
  import opened TornWrites
  import opened FlushSteps

  // ---- What a reader can see ---------------------------------------------

  /** The commit that a load of the live device gives. */
  ghost function Visible(m: Machine): Commit {
    if m.sys.phase.PrimaryPending? then InProgress(m) else m.com
  }

  lemma VisibleHolds(c: ShardCodec, g: Geometry, m: Machine)
    requires Inv(c, g, m)
    ensures g.Valid() && SuperblockOk(Visible(m).sb, g) && Holds(c, g, m.sys.disk.live, Visible(m))
  {
    hide Holds, SuperblockOk, KeptUnharmed, IndexStored, CopyBytes, Spared, Clean, SlotsEncodable, Placed, CanFlush;
    if m.sys.phase.PrimaryPending? {
      NewPrimaryHolds(c, g, m);
    } else if m.sys.phase.BackupPending? {
      NewBackupHolds(c, g, m.sys.disk.durable, m.com);
    }
  }

  /** Between any two steps of the writer, a full load succeeds and gives that commit. */
  lemma LiveLoads(c: ShardCodec, g: Geometry, m: Machine)
    requires Inv(c, g, m)
    ensures Recover(c, m.sys.disk.live) == Ok(Visible(m))
  {
    hide Inv, Holds, SuperblockOk, Recover;
    VisibleHolds(c, g, m);
    HoldsRecovers(c, g, m.sys.disk.live, Visible(m));
  }

  /** A step of the writer shows a reader the same commit, or one with a higher id. */
  lemma VisibleAdvances(c: ShardCodec, g: Geometry, m: Machine, m': Machine)
    requires Inv(c, g, m)
    requires MutateNext(g, m, m') || (Steppable(c, g, m.sys) && m' == FlushNext(c, g, m))
    ensures Visible(m') == Visible(m) || Visible(m').sb.txnId == Visible(m).sb.txnId + 1
  {
    hide Holds, SuperblockOk, KeptUnharmed, IndexStored, CopyBytes, Spared, Clean, SlotsEncodable, Placed, CanFlush, Patch, Checksum, DirtyMarked, FreeWrites;
  }

  /** A reader may see a commit before it is durable: a crash at that point can take it back. */
  lemma VisibleMayBeLost(c: ShardCodec, g: Geometry, m: Machine)
    requires Inv(c, g, m) && m.sys.phase.PrimaryPending?
    ensures AtomicCrash(g, m.sys.disk, m.sys.disk.durable) && Recover(c, m.sys.disk.durable) == Ok(m.com)
    ensures Visible(m).sb.txnId == m.com.sb.txnId + 1
  {
    hide Holds, SuperblockOk, KeptUnharmed, IndexStored, CopyBytes, Recover, Patch, Placed;
    HoldsRecovers(c, g, m.sys.disk.durable, m.com);
    KeepsAll(g, m.sys.disk);
  }

  lemma KeepsAll(g: Geometry, d: Disk)
    requires g.Valid() && |d.durable| == g.deviceSize
    ensures AtomicCrash(g, d, d.durable)
  {}

  // ---- The reader --------------------------------------------------------

  /** Equal slot entries stand for equal shards. */
  ghost predicate SlotsTell(a: Commit, b: Commit) {
    && |a.sb.slots| == |b.sb.slots| == NUM_SHARDS
    && forall i :: 0 <= i < NUM_SHARDS && a.sb.slots[i] == b.sb.slots[i] ==> Shard(a.idx, i) == Shard(b.idx, i)
  }

  lemma MidwayTells(c: ShardCodec, g: Geometry, m: Machine, n: nat, i: nat)
    requires Midway(c, g, m, n) && n == NUM_SHARDS && i < NUM_SHARDS && m.sys.sb.slots[i] == m.com.sb.slots[i]
    ensures Shard(m.com.idx, i) == Shard(m.sys.idx, i)
  {
    hide Spared, SlotsEncodable, SuperblockOk, Placed, SuperHeld, Checksum, Shard;
    assert ShardStored(c, g, m.sys.disk.live, m.com.sb.slots[i], Shard(m.com.idx, i), i);
    assert m.com.sb.slots[i].active <= 1;
    assert !m.sys.dirty[i];
    assert ShardStored(c, g, m.sys.disk.live, m.sys.sb.slots[i], Shard(m.sys.idx, i), i);
  }

  /** For a reader one flush behind, slot entries always tell: no assumption is needed. */
  lemma OneFlushTells(c: ShardCodec, g: Geometry, m: Machine)
    requires Inv(c, g, m) && m.sys.phase.Idle? && CanFlush(c, g, m.sys)
    ensures SlotsTell(m.com, FlushRun(c, g, m, FLUSH_STEPS).com)
  {
    hide Inv, CanFlush, FlushRun, Midway, Steppable, CopyBytes, Shard;
    FlushMidway(c, g, m, NUM_SHARDS);
    var p := FlushRun(c, g, m, 257);
    FlushRunStep(c, g, m, 257);
    FlushRunStep(c, g, m, 258);
    FlushRunStep(c, g, m, 259);
    FlushRunStep(c, g, m, 260);
    FlushRunStep(c, g, m, 261);
    assert FlushRun(c, g, m, 262).com.sb.slots == p.sys.sb.slots;
    assert |m.com.sb.slots| == NUM_SHARDS by { MidwaySlots(c, g, p, NUM_SHARDS); }
    forall i | 0 <= i < NUM_SHARDS && m.com.sb.slots[i] == p.sys.sb.slots[i]
      ensures Shard(m.com.idx, i) == Shard(m.sys.idx, i)
    {
      MidwayTells(c, g, p, NUM_SHARDS, i);
    }
  }

  lemma MidwaySlots(c: ShardCodec, g: Geometry, m: Machine, n: nat)
    requires Midway(c, g, m, n)
    ensures |m.com.sb.slots| == NUM_SHARDS && Shaped(g, m.sys)
  {
    hide Early, SuperblockOk, Placed;
  }

  /** `snapshot` is the visible commit or an older one. */
  ghost predicate InStep(snapshot: Commit, m: Machine) {
    snapshot == Visible(m) || snapshot.sb.txnId < Visible(m).sb.txnId
  }

  lemma StaysInStep(c: ShardCodec, g: Geometry, m: Machine, m': Machine, snapshot: Commit)
    requires Inv(c, g, m) && InStep(snapshot, m)
    requires MutateNext(g, m, m') || (Steppable(c, g, m.sys) && m' == FlushNext(c, g, m))
    ensures InStep(snapshot, m')
  {
    hide Inv, MutateNext, Steppable, FlushNext, Visible;
    VisibleAdvances(c, g, m, m');
  }

  /** Entries of shard `i` taken out and those of `shard` put in. */
  function ReplaceShard(idx: Index, i: nat, shard: Index): Index {
    Index((map k | k in idx.files && ShardFor(k) != i :: idx.files[k]) + shard.files,
          (map k | k in idx.tombs && ShardFor(k) != i :: idx.tombs[k]) + shard.tombs)
  }

  lemma Replaced<V>(m: map<Key, V>, source: map<Key, V>, i: nat, j: nat)
    ensures
      var m' := (map k | k in m && ShardFor(k) != i :: m[k]) + (map k | k in source && ShardFor(k) == i :: source[k]);
      (map k | k in m' && ShardFor(k) == j :: m'[k])
        == if j == i then map k | k in source && ShardFor(k) == i :: source[k] else map k | k in m && ShardFor(k) == j :: m[k]
  {
    hide ShardFor;
  }

  lemma ReplacedShard(idx: Index, source: Index, i: nat, j: nat)
    ensures Shard(ReplaceShard(idx, i, Shard(source, i)), j) == if j == i then Shard(source, i) else Shard(idx, j)
  {
    hide ShardFor;
    Replaced(idx.files, source.files, i, j);
    Replaced(idx.tombs, source.tombs, i, j);
  }

  class IndexReader {
    const io: Device
    const g: Geometry
    const codec: ShardCodec
    var superblock: Superblock
    var index: Index

    constructor (io: Device, g: Geometry, codec: ShardCodec, superblock: Superblock, index: Index)
      ensures this.io == io && this.g == g && this.codec == codec && Snapshot() == Commit(superblock, index)
    {
      this.io, this.g, this.codec, this.superblock, this.index := io, g, codec, superblock, index;
    }

    ghost function Snapshot(): Commit
      reads this
    {
      Commit(superblock, index)
    }

    /** The primary copy, or the backup if the primary does not validate. */
    method ReadCommitRecord() returns (r: Result<Superblock>)
      requires DATA_START <= |io.disk.live|
      ensures r == if FromBytes(io.disk.live[0..4096]).Ok? then FromBytes(io.disk.live[0..4096])
                   else FromBytes(io.disk.live[4096..8192])
    {
      hide FromBytes;
      var bytes := io.Pread(0, SUPERBLOCK_SIZE);
      r := Parse(bytes);
      if r.Err? {
        bytes := io.Pread(SUPERBLOCK_SIZE, SUPERBLOCK_SIZE);
        r := Parse(bytes);
      }
    }

    method ReadSlot(meta: SlotMeta, i: nat) returns (r: Result<Index>)
      requires g.Valid()
      ensures r == ReadShard(codec, g, io.disk.live, meta, i)
    {
      hide Checksum;
      if meta.size == 0 {
        return Ok(NOTHING);
      }
      var off := g.SlotOffset(meta.active, i);
      if |io.disk.live| < off + meta.size {
        return Err(Io);
      }
      var bytes := io.Pread(off, meta.size);
      if Checksum(bytes) != meta.crc {
        return Err(IndexCorrupt);
      }
      match codec.dec(bytes)
      case None => return Err(Bincode);
      case Some(shard) => return Ok(shard);
    }

    /** Read the shards whose slot entries differ. `com` is what the device holds. */
    method ReloadShards(slots: seq<SlotMeta>, ghost com: Commit) returns (r: Result<()>)
      requires g.Valid() && |slots| == |superblock.slots| == NUM_SHARDS
      modifies this`index
      ensures IndexStored(codec, g, io.disk.live, com) && com.sb.slots == slots ==>
        r.Ok? && (index == com.idx <==> SlotsTell(old(Snapshot()), com))
    {
      hide ShardFor, ShardStored, Shard, ReplaceShard, ReadShard;
      ghost var good := IndexStored(codec, g, io.disk.live, com) && com.sb.slots == slots;
      ghost var before := index;
      for i := 0 to NUM_SHARDS
        invariant good ==> forall j :: 0 <= j < i ==>
          Shard(index, j) == if superblock.slots[j] == slots[j] then Shard(before, j) else Shard(com.idx, j)
        invariant good ==> forall j :: i <= j < NUM_SHARDS ==> Shard(index, j) == Shard(before, j)
      {
        if superblock.slots[i] != slots[i] {
          var shard := ReadSlot(slots[i], i);
          if good {
            StoredReads(codec, g, io.disk.live, com, i);
            forall j | 0 <= j < NUM_SHARDS
              ensures Shard(ReplaceShard(index, i, Shard(com.idx, i)), j) == if j == i then Shard(com.idx, i) else Shard(index, j)
            {
              ReplacedShard(index, com.idx, i, j);
            }
          }
          if shard.Err? {
            index := ReplaceShard(index, i, NOTHING);
            return Err(shard.error);
          }
          index := ReplaceShard(index, i, shard.value);
        }
      }
      if good && SlotsTell(Commit(superblock, before), com) {
        SameShardsSameIndex(index, com.idx);
      }
      r := Ok(());
    }

    /** Bring the index up to date with the device. `com` is what the device holds. An equal
        transaction id is taken for an equal commit, and an equal slot entry for an equal
        shard. */
    method ReloadIndex(ghost com: Commit) returns (r: Result<bool>)
      requires g.Valid() && DATA_START <= |io.disk.live| && |superblock.slots| == NUM_SHARDS
      modifies this
      ensures Holds(codec, g, io.disk.live, com) && SuperblockOk(com.sb, g) ==>
        if old(superblock).txnId == com.sb.txnId then r == Ok(false)
        else r == Ok(true) && superblock == com.sb && (index == com.idx <==> SlotsTell(old(Snapshot()), com))
      ensures r == Ok(false) ==> Snapshot() == old(Snapshot())
      ensures r.Err? ==> superblock == old(superblock)
    {
      hide FromBytes, CopyBytes, SlotsTell, IndexStored, Encodable;
      if Holds(codec, g, io.disk.live, com) && SuperblockOk(com.sb, g) {
        CopyRoundTrip(com.sb);
      }
      var sb :- ReadCommitRecord();
      if sb.txnId == superblock.txnId {
        return Ok(false);
      }
      if |sb.slots| != NUM_SHARDS {
        return Err(Panic);
      }
      var _ :- ReloadShards(sb.slots, com);
      superblock := sb;
      r := Ok(true);
    }

    /** Reloading between two steps of a writer: the superblock is what a full load gives, and
        its transaction id does not go back. The index is, too, exactly when equal slot entries
        meant equal shards. */
    method Follow(ghost m: Machine) returns (r: Result<bool>)
      requires Inv(codec, g, m) && io.disk == m.sys.disk && InStep(Snapshot(), m) && |superblock.slots| == NUM_SHARDS
      modifies this
      ensures Recover(codec, io.disk.live) == Ok(Visible(m)) && superblock == Visible(m).sb
      ensures Snapshot() == Visible(m) <==> SlotsTell(old(Snapshot()), Visible(m))
      ensures r == Ok(old(superblock).txnId != superblock.txnId) && old(superblock).txnId <= superblock.txnId
    {
      hide Inv, Holds, SuperblockOk, Recover, Shard;
      VisibleHolds(codec, g, m);
      LiveLoads(codec, g, m);
      assert |io.disk.live| == g.deviceSize by { HeldSize(codec, g, io.disk.live, Visible(m)); }
      r := ReloadIndex(Visible(m));
    }
  }

  // ---- Whole runs --------------------------------------------------------

  /** A writer and a reader of the same device. */
  datatype Joint = Joint(m: Machine, snapshot: Commit)

  /** The writer takes a step, or the reader reloads. */
  ghost predicate JointNext(c: ShardCodec, g: Geometry, a: Joint, b: Joint) {
    || (b.snapshot == a.snapshot && (MutateNext(g, a.m, b.m) || (Steppable(c, g, a.m.sys) && b.m == FlushNext(c, g, a.m))))
    || (b.m == a.m && SlotsTell(a.snapshot, Visible(a.m)) && b.snapshot == Visible(a.m))
  }

  ghost predicate JointRun(c: ShardCodec, g: Geometry, trace: seq<Joint>) {
    && trace != [] && Inv(c, g, trace[0].m) && InStep(trace[0].snapshot, trace[0].m)
    && forall i :: 0 <= i < |trace| - 1 ==> JointNext(c, g, trace[i], trace[i + 1])
  }

  /** Over any run without crashes, however writer steps and reloads alternate, the reader is
      never ahead of the writer, may reload at any point, and its transaction id only grows. */
  lemma {:induction false} ReaderFollows(c: ShardCodec, g: Geometry, trace: seq<Joint>, i: nat, j: nat)
    requires JointRun(c, g, trace) && i <= j < |trace|
    ensures Inv(c, g, trace[j].m) && InStep(trace[j].snapshot, trace[j].m)
    ensures trace[i].snapshot.sb.txnId <= trace[j].snapshot.sb.txnId
    decreases j
  {
    hide Inv, MutateNext, Steppable, FlushNext, Visible, SlotsTell;
    if j > 0 {
      ReaderFollows(c, g, trace, if i < j then i else j - 1, j - 1);
      var a, b := trace[j - 1], trace[j - 1 + 1];
      assert JointNext(c, g, a, b);
      if b.snapshot == a.snapshot && (MutateNext(g, a.m, b.m) || (Steppable(c, g, a.m.sys) && b.m == FlushNext(c, g, a.m))) {
        StaysInStep(c, g, a.m, b.m, a.snapshot);
        NextKeepsInv(c, g, a.m, b.m);
      }
    }
  }

  /** What a lost commit costs a reader that has seen it: the writer that starts over on the
      previous commit gives its next flush the same transaction id, whatever it commits. A
      reader that still holds the lost commit then takes it for the new one, and reloads
      nothing. */
  lemma LostCommitHidesNext(c: ShardCodec, g: Geometry, m: Machine, m1: Machine, m2: Machine)
    requires Inv(c, g, m) && m.sys.phase.PrimaryPending?
    requires CrashNext(c, g, m, m1, m.sys.disk.durable) && MutateNext(g, m1, m2) && CanFlush(c, g, m2.sys)
    ensures
      var lost, next := Visible(m), FlushRun(c, g, m2, FLUSH_STEPS);
      && next.sys.phase.Idle? && Visible(next) == Commit(next.sys.sb, m2.sys.idx)
      && Visible(next).sb.txnId == lost.sb.txnId && (InStep(lost, next) <==> lost == Visible(next))
  {
    hide Inv, CanFlush, FlushRun, Recover, AtomicCrash, MutateStep, OpenScan;
    VisibleMayBeLost(c, g, m);
    CrashKeepsInv(c, g, m, m1, m.sys.disk.durable);
    MutateKeepsInv(c, g, m1, m2);
    SamePrevious(g, m1, m2);
    FlushCommits(c, g, m2);
  }

  lemma SamePrevious(g: Geometry, m: Machine, m': Machine)
    requires MutateNext(g, m, m')
    ensures m'.sys.phase.Idle? && m'.sys.sb == m.sys.sb
  {
    hide FreeWrites, Placed, DirtyMarked;
  }
}
