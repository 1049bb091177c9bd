/** What a flush leaves behind when a device request fails part-way: the old commit or the
    new one, whatever a power failure then keeps. */
module FlushSteps {
  import opened Crc32c
  import opened Base
  import opened Disks
  import opened Indexes
  import opened Superblocks
  import opened Recovery
  import opened Protocol
  import opened CrashSafety
  import opened CrashRuns
  import opened TornWrites

  /** Whatever a power failure leaves of `d`, open loads one of two commits. */
  ghost predicate Recoverable(c: ShardCodec, g: Geometry, d: Disk, before: Commit, after: Commit) {
    forall img :: AtomicCrash(g, d, img) ==> Recover(c, img) == Ok(before) || Recover(c, img) == Ok(after)
  }

  lemma InvRecoverable(c: ShardCodec, g: Geometry, m: Machine)
    requires Inv(c, g, m)
    ensures Recoverable(c, g, m.sys.disk, m.com, InProgress(m))
  {
    hide Inv, Recover, AtomicCrash;
    forall img | AtomicCrash(g, m.sys.disk, img)
      ensures Recover(c, img) == Ok(m.com) || Recover(c, img) == Ok(InProgress(m))
    {
      CrashRecovers(c, g, m, img);
    }
  }

  lemma HoldsRecoverable(c: ShardCodec, g: Geometry, d: Disk, com: Commit, after: Commit)
    requires g.Valid() && SuperblockOk(com.sb, g) && Holds(c, g, d.durable, com) && Spared(g, d, com)
    ensures Recoverable(c, g, d, com, after)
  {
    hide Holds, Recover, SuperblockOk, Spared, CrashImage;
    forall img | AtomicCrash(g, d, img)
      ensures Recover(c, img) == Ok(com)
    {
      assert |com.sb.slots| == NUM_SHARDS by { HeldSlots(c, g, d.durable, com); }
      CrashHolds(c, g, d, com, img);
      HoldsRecovers(c, g, img, com);
    }
  }


  /** A shard write that stops after `k` bytes harms nothing that is committed. */
  lemma FailedShardWrite(c: ShardCodec, g: Geometry, m: Machine, n: nat, k: nat, after: Commit)
    requires Midway(c, g, m, n) && n < NUM_SHARDS && m.sys.dirty[n] && SlotHolds(c, g, m.sys, n)
    requires k <= |c.enc(Shard(m.sys.idx, n))| && m.sys.sb.slots[n].active <= 1
    ensures
      var off := g.SlotOffset(1 - m.sys.sb.slots[n].active, n);
      off + k <= |m.sys.disk.live| &&
      Recoverable(c, g, m.sys.disk.Written(off, c.enc(Shard(m.sys.idx, n))[..k]), m.com, after)
  {
    hide Holds, SuperblockOk, Spared, Clean, SlotsEncodable, Placed, Recoverable;
    InactiveSlotApart(c, g, m.sys.disk.durable, m.com, n, k);
    var off := g.SlotOffset(1 - m.sys.sb.slots[n].active, n);
    HeldSlots(c, g, m.sys.disk.durable, m.com);
    WriteSpares(g, m.sys.disk, m.com, off, c.enc(Shard(m.sys.idx, n))[..k]);
    HoldsRecoverable(c, g, m.sys.disk.Written(off, c.enc(Shard(m.sys.idx, n))[..k]), m.com, after);
  }

  /** A superblock copy cut short is not there at all. */
  lemma ShortCopyCrash(d: Disk, img: seq<byte>, at: nat, data: seq<byte>, k: nat)
    requires k < |data| && at + |data| <= |d.durable| && d.pending == [Write(at, data[..k])]
    requires CrashImage(d, img) && |img| == |d.durable| && AtomicAt(d, img, at, |data|)
    ensures img == d.durable
  {
    hide CrashImage;
    var n := |d.durable|;
    CrashKeepsUntouched(d, img, 0, at);
    CrashKeepsUntouched(d, img, at + |data|, n);
    InThree(img, at, at + |data|);
    InThree(d.durable, at, at + |data|);
  }

  lemma FailedCopy(c: ShardCodec, g: Geometry, d: Disk, at: nat, data: seq<byte>, k: nat, com: Commit, after: Commit)
    requires g.Valid() && SuperblockOk(com.sb, g) && Holds(c, g, d.durable, com)
    requires d.pending == [] && |d.live| == |d.durable| == g.deviceSize
    requires (at == 0 || at == SUPERBLOCK_SIZE) && |data| == SUPERBLOCK_SIZE && k < |data|
    ensures Recoverable(c, g, d.Written(at, data[..k]), com, after)
  {
    hide Holds, Recover, SuperblockOk, CrashImage;
    var d' := d.Written(at, data[..k]);
    forall img | AtomicCrash(g, d', img)
      ensures Recover(c, img) == Ok(com)
    {
      ShortCopyCrash(d', img, at, data, k);
      HoldsRecovers(c, g, img, com);
    }
  }

  /** A failed write of the primary copy, after the shards have been synced. */
  lemma FailedPrimary(c: ShardCodec, g: Geometry, m: Machine, k: nat)
    requires Inv(c, g, m) && m.sys.phase.ShardsSynced? && k <= SUPERBLOCK_SIZE
    ensures
      var sb := NextSuperblock(m.sys.sb);
      |sb.slots| == NUM_SHARDS && SUPERBLOCK_SIZE <= |m.sys.disk.live| &&
      Recoverable(c, g, m.sys.disk.Written(0, CopyBytes(sb)[..k]), m.com, Commit(sb, m.sys.idx))
  {
    hide Holds, SuperblockOk, SlotsEncodable, Placed, CopyBytes, IndexStored, KeptUnharmed, CanFlush, Recoverable;
    var sb := NextSuperblock(m.sys.sb);
    if k < SUPERBLOCK_SIZE {
      FailedCopy(c, g, m.sys.disk, 0, CopyBytes(sb), k, m.com, Commit(sb, m.sys.idx));
    } else {
      assert CopyBytes(sb)[..k] == CopyBytes(sb);
      FlushKeepsInv(c, g, m);
      InvRecoverable(c, g, FlushNext(c, g, m));
    }
  }

  /** A failed write of the backup copy: the new commit stands. */
  lemma FailedBackup(c: ShardCodec, g: Geometry, m: Machine, k: nat)
    requires Inv(c, g, m) && m.sys.phase.PrimaryDurable? && k <= SUPERBLOCK_SIZE
    ensures
      |m.sys.sb.slots| == NUM_SHARDS && DATA_START <= |m.sys.disk.live| &&
      Recoverable(c, g, m.sys.disk.Written(SUPERBLOCK_SIZE, CopyBytes(m.sys.sb)[..k]), m.com, m.com)
  {
    hide Holds, SuperblockOk, SlotsEncodable, Placed, CopyBytes, KeptUnharmed, CanFlush, Recoverable;
    var data := CopyBytes(m.sys.sb);
    if k < SUPERBLOCK_SIZE {
      FailedCopy(c, g, m.sys.disk, SUPERBLOCK_SIZE, data, k, m.com, m.com);
    } else {
      assert data[..k] == data;
      FlushKeepsInv(c, g, m);
      InvRecoverable(c, g, FlushNext(c, g, m));
    }
  }

  // ---- Following a flush -------------------------------------------------

  ghost predicate SlotHolds(c: ShardCodec, g: Geometry, s: Sys, i: nat) {
    |c.enc(Shard(s.idx, i))| <= g.SlotSize()
  }

  /** `s'` is `s` after shard `i` was written to its inactive slot. */
  ghost predicate ShardWritten(c: ShardCodec, g: Geometry, s: Sys, s': Sys, i: nat) {
    && Shaped(g, s) && i < NUM_SHARDS && s.sb.slots[i].active <= 1 && SlotHolds(c, g, s, i)
    && g.SlotOffset(1 - s.sb.slots[i].active, i) + |c.enc(Shard(s.idx, i))| <= g.deviceSize
    && s' == WriteShard(c, g, s, i)
  }

  lemma FlushPastShard(c: ShardCodec, g: Geometry, m: Machine, s: Sys, s': Sys, i: nat)
    requires Inv(c, g, m) && m.sys.phase.Idle? && CanFlush(c, g, m.sys) && i < NUM_SHARDS
    requires FlushRun(c, g, m, i + 1) == m.(sys := s.(phase := Writing(i))) && |s.dirty| == NUM_SHARDS
    requires if s.dirty[i] then ShardWritten(c, g, s, s', i) else s' == s
    ensures FlushRun(c, g, m, i + 2) == m.(sys := s'.(phase := Writing(i + 1)))
  {
    hide Inv, CanFlush, FlushRun, Checksum, Patch;
    FlushRunStep(c, g, m, i + 1);
    assert i + 1 + 1 == i + 2;
  }

  /** The space of objects is left alone by every flush step. */
  lemma {:induction false} FlushLeavesData(c: ShardCodec, g: Geometry, m: Machine, n: nat)
    requires Inv(c, g, m) && m.sys.phase.Idle? && CanFlush(c, g, m.sys) && n <= FLUSH_STEPS
    ensures g.Valid() && |FlushRun(c, g, m, n).sys.disk.live| == |m.sys.disk.live| == g.deviceSize
    ensures FlushRun(c, g, m, n).sys.disk.live[DATA_START..g.DataEnd()] == m.sys.disk.live[DATA_START..g.DataEnd()]
    decreases n
  {
    hide CanFlush, FlushRun, FlushNext, PhaseOk, KeptUnharmed, SuperblockOk, Placed;
    if n == 0 {
      assert FlushRun(c, g, m, 0) == m by { NoSteps(c, g, m); }
    } else {
      FlushLeavesData(c, g, m, n - 1);
      FlushRunStep(c, g, m, n - 1);
      StepLeavesData(c, g, FlushRun(c, g, m, n - 1));
    }
  }

  lemma StepLeavesData(c: ShardCodec, g: Geometry, p: Machine)
    requires Inv(c, g, p) && Steppable(c, g, p.sys)
    ensures |FlushNext(c, g, p).sys.disk.live| == |p.sys.disk.live| == g.deviceSize
    ensures FlushNext(c, g, p).sys.disk.live[DATA_START..g.DataEnd()] == p.sys.disk.live[DATA_START..g.DataEnd()]
  {
    hide KeptUnharmed, SuperblockOk, Placed, Patch, CopyBytes, Checksum, Early, Holds, IndexStored;
    var d := p.sys.disk;
    match p.sys.phase
    case Idle =>
    case Writing(i) =>
      if i < NUM_SHARDS && p.sys.dirty[i] {
        var slot := 1 - p.sys.sb.slots[i].active;
        SlotsApart(g, slot, i, 0, 0);
        PatchOutside(d.live, g.SlotOffset(slot, i), c.enc(Shard(p.sys.idx, i)), DATA_START, g.DataEnd());
      }
    case ShardsSynced => PatchOutside(d.live, 0, CopyBytes(NextSuperblock(p.sys.sb)), DATA_START, g.DataEnd());
    case PrimaryPending =>
    case PrimaryDurable => PatchOutside(d.live, SUPERBLOCK_SIZE, CopyBytes(p.sys.sb), DATA_START, g.DataEnd());
    case BackupPending =>
  }

  lemma MidwayRecoverable(c: ShardCodec, g: Geometry, m: Machine, n: nat, after: Commit)
    requires Midway(c, g, m, n)
    ensures Recoverable(c, g, m.sys.disk, m.com, after)
  {
    hide Holds, SuperblockOk, Spared, Clean, SlotsEncodable, Placed, Recoverable;
    HoldsRecoverable(c, g, m.sys.disk, m.com, after);
  }

  /** The writer has dealt with the shards below `n`. */
  ghost predicate Midway(c: ShardCodec, g: Geometry, m: Machine, n: nat) {
    Common(c, g, m) && n <= NUM_SHARDS && |m.com.sb.slots| == NUM_SHARDS && Early(c, g, m, n) && Flipped(m, n)
  }

  lemma MidwayStart(c: ShardCodec, g: Geometry, m: Machine)
    requires Inv(c, g, m) && m.sys.phase.Idle?
    ensures Midway(c, g, m, 0)
  {
    hide Early, KeptUnharmed, Placed, Encodable;
  }

  /** A writer that gave up at shard `n` is still in order only if it had flipped nothing. */
  lemma MidwayInOrder(c: ShardCodec, g: Geometry, m: Machine, n: nat)
    requires Midway(c, g, m, n) && n < NUM_SHARDS && m.sys.phase.Idle?
    ensures Inv(c, g, m) ==> forall i :: 0 <= i < n ==> !m.sys.dirty[i]
  {
    hide KeptUnharmed, SuperblockOk, Placed;
    assert Inv(c, g, m) ==> Early(c, g, m, 0) by { hide Early; }
    hide Early;
    AbortedFlushInOrder(c, g, m, n);
  }

  lemma MidwaySkip(c: ShardCodec, g: Geometry, m: Machine, n: nat)
    requires Midway(c, g, m, n) && n < NUM_SHARDS && !m.sys.dirty[n]
    ensures Midway(c, g, m, n + 1)
  {
    hide Holds, SuperblockOk, Spared, SlotsEncodable, Placed, ShardStored;
  }

  lemma MidwayNext(c: ShardCodec, g: Geometry, m: Machine, n: nat)
    requires Midway(c, g, m, n) && n < NUM_SHARDS && m.sys.dirty[n] && SlotHolds(c, g, m.sys, n)
    requires |c.enc(Shard(m.sys.idx, n))| < U32_LIMIT
    ensures m.sys.sb.slots[n].active <= 1
    ensures g.SlotOffset(1 - m.sys.sb.slots[n].active, n) + |c.enc(Shard(m.sys.idx, n))| <= g.deviceSize
    ensures Midway(c, g, m.(sys := WriteShard(c, g, m.sys, n)), n + 1)
  {
    hide Early, SuperblockOk, Placed, Checksum, Patch;
    FlipOne(c, g, m, n);
    WrittenStaysValid(m.sys.disk, g.SlotOffset(1 - m.sys.sb.slots[n].active, n), c.enc(Shard(m.sys.idx, n)));
  }

  /** The first step only enters the flush. */
  lemma FlushEnters(c: ShardCodec, g: Geometry, m: Machine)
    requires Inv(c, g, m) && m.sys.phase.Idle? && CanFlush(c, g, m.sys)
    ensures FlushRun(c, g, m, 1) == m.(sys := m.sys.(phase := Writing(0)))
  {
    hide Inv, CanFlush, FlushRun, Steppable;
    FlushRunStep(c, g, m, 0);
    NoSteps(c, g, m);
  }

  lemma {:induction false} FlushMidway(c: ShardCodec, g: Geometry, m: Machine, n: nat)
    requires Inv(c, g, m) && m.sys.phase.Idle? && CanFlush(c, g, m.sys) && n <= NUM_SHARDS
    ensures Midway(c, g, FlushRun(c, g, m, n + 1), n)
    decreases n
  {
    hide Inv, CanFlush, FlushRun, Midway, Steppable, Checksum;
    if n == 0 {
      FlushEnters(c, g, m);
      MidwayStart(c, g, m);
      SamePhase(c, g, m, FlushRun(c, g, m, 1), 0);
    } else {
      FlushMidway(c, g, m, n - 1);
      FlushRunStep(c, g, m, n);
      var p := FlushRun(c, g, m, n);
      if p.sys.dirty[n - 1] {
        DirtyFits(c, g, m.sys, p.sys, n - 1);
        MidwayNext(c, g, p, n - 1);
        SamePhase(c, g, p.(sys := WriteShard(c, g, p.sys, n - 1)), FlushNext(c, g, p), n);
      } else {
        MidwaySkip(c, g, p, n - 1);
        SamePhase(c, g, p, FlushNext(c, g, p), n);
      }
    }
  }

  lemma DirtyFits(c: ShardCodec, g: Geometry, s: Sys, s': Sys, i: nat)
    requires CanFlush(c, g, s) && s'.idx == s.idx && s'.dirty == s.dirty && i < |s.dirty| && s.dirty[i]
    ensures SlotHolds(c, g, s', i) && |c.enc(Shard(s'.idx, i))| < U32_LIMIT
  {}

  lemma SamePhase(c: ShardCodec, g: Geometry, m: Machine, m': Machine, n: nat)
    requires Midway(c, g, m, n) && m' == m.(sys := m'.sys) && m'.sys == m.sys.(phase := m'.sys.phase)
    ensures Midway(c, g, m', n)
  {
    hide Holds, Spared, Clean, SlotsEncodable, SuperblockOk, Placed;
    assert Clean(c, g, m'.sys, n) by { SameClean(c, g, m.sys, m'.sys, n); }
  }

  lemma SameClean(c: ShardCodec, g: Geometry, s: Sys, s': Sys, n: nat)
    requires Shaped(g, s) && Clean(c, g, s, n) && s' == s.(phase := s'.phase)
    ensures Clean(c, g, s', n)
  {
    hide ShardStored;
  }

  /** Shard `j` is in the slot that was not active when the flush of `m` began. */
  ghost predicate InOtherSlot(c: ShardCodec, g: Geometry, m: Machine, slots: seq<SlotMeta>, img: seq<byte>, j: nat) {
    && g.Valid() && j < |slots| == |m.sys.sb.slots| && m.sys.sb.slots[j].active <= 1
    && (var slot, bytes := 1 - m.sys.sb.slots[j].active, c.enc(Shard(m.sys.idx, j));
        var off := g.SlotOffset(slot, j);
        && slots[j] == SlotMeta(slot, |bytes|, Checksum(bytes)) && |bytes| <= g.SlotSize() && off + |bytes| <= |img|
        && img[off..off + |bytes|] == bytes)
  }

  /** Every dirty shard the flush has passed is on the device, byte for byte. */
  lemma {:induction false} FlushWrites(c: ShardCodec, g: Geometry, m: Machine, n: nat, j: nat)
    requires Inv(c, g, m) && m.sys.phase.Idle? && CanFlush(c, g, m.sys) && j < n <= NUM_SHARDS
    requires |m.sys.dirty| == NUM_SHARDS && m.sys.dirty[j]
    ensures
      var p := FlushRun(c, g, m, n + 1);
      InOtherSlot(c, g, m, p.sys.sb.slots, p.sys.disk.live, j)
    decreases n
  {
    hide Inv, CanFlush, FlushRun, Midway, Steppable, Checksum, Patch, InOtherSlot, Shard;
    var p := FlushRun(c, g, m, n);
    FlushRunStep(c, g, m, n);
    FlushMidway(c, g, m, n - 1);
    if p.sys.dirty[n - 1] {
      DirtyFits(c, g, m.sys, p.sys, n - 1);
      MidwayNext(c, g, p, n - 1);
    }
    if j == n - 1 {
      SlotUnchanged(c, g, m, p, j);
      WrittenHere(c, g, m, p.sys, j);
    } else {
      FlushWrites(c, g, m, n - 1, j);
      if p.sys.dirty[n - 1] {
        WrittenBeside(c, g, m, p.sys, n - 1, j);
      }
    }
  }

  lemma SlotUnchanged(c: ShardCodec, g: Geometry, m: Machine, p: Machine, j: nat)
    requires Inv(c, g, m) && m.sys.phase.Idle? && Midway(c, g, p, j) && j < NUM_SHARDS && p.com == m.com
    ensures Shaped(g, p.sys) && Shaped(g, m.sys) && p.sys.sb.slots[j] == m.sys.sb.slots[j]
  {
    hide Holds, Spared, Clean, SlotsEncodable, SuperblockOk, Placed, KeptUnharmed, CanFlush;
    IdleSuperblock(c, g, m);
  }

  lemma WrittenHere(c: ShardCodec, g: Geometry, m: Machine, s: Sys, j: nat)
    requires Shaped(g, s) && Shaped(g, m.sys) && j < NUM_SHARDS && s.idx == m.sys.idx && s.sb.slots[j] == m.sys.sb.slots[j]
    requires s.sb.slots[j].active <= 1 && |c.enc(Shard(s.idx, j))| <= g.SlotSize()
    requires g.SlotOffset(1 - s.sb.slots[j].active, j) + |c.enc(Shard(s.idx, j))| <= g.deviceSize
    ensures InOtherSlot(c, g, m, WriteShard(c, g, s, j).sb.slots, WriteShard(c, g, s, j).disk.live, j)
  {
    hide Checksum, Patch, Shard;
    PatchInside(s.disk.live, g.SlotOffset(1 - s.sb.slots[j].active, j), c.enc(Shard(s.idx, j)));
  }

  lemma WrittenBeside(c: ShardCodec, g: Geometry, m: Machine, s: Sys, i: nat, j: nat)
    requires Shaped(g, s) && i < NUM_SHARDS && j < NUM_SHARDS && i != j && InOtherSlot(c, g, m, s.sb.slots, s.disk.live, j)
    requires s.sb.slots[i].active <= 1 && |c.enc(Shard(s.idx, i))| <= g.SlotSize()
    requires g.SlotOffset(1 - s.sb.slots[i].active, i) + |c.enc(Shard(s.idx, i))| <= g.deviceSize
    ensures InOtherSlot(c, g, m, WriteShard(c, g, s, i).sb.slots, WriteShard(c, g, s, i).disk.live, j)
  {
    hide Checksum, Patch, Shard;
    var slot, other := 1 - s.sb.slots[i].active, 1 - m.sys.sb.slots[j].active;
    SlotsApart(g, slot, i, other, j);
    var off := g.SlotOffset(other, j);
    PatchOutside(s.disk.live, g.SlotOffset(slot, i), c.enc(Shard(s.idx, i)), off, off + |c.enc(Shard(m.sys.idx, j))|);
  }

  /** While and after the primary is written, the flushed shards are durable. */
  lemma FlushWrote(c: ShardCodec, g: Geometry, m: Machine, j: nat)
    requires Inv(c, g, m) && m.sys.phase.Idle? && CanFlush(c, g, m.sys) && j < NUM_SHARDS
    requires |m.sys.dirty| == NUM_SHARDS && m.sys.dirty[j]
    ensures
      var p, q := FlushRun(c, g, m, 259), FlushRun(c, g, m, 260);
      InOtherSlot(c, g, m, p.sys.sb.slots, p.sys.disk.durable, j) && q.com.sb.slots == p.sys.sb.slots
  {
    hide Inv, CanFlush, FlushRun, Steppable, CopyBytes, InOtherSlot, Patch;
    FlushWrites(c, g, m, NUM_SHARDS, j);
    FlushRunStep(c, g, m, 257);
    FlushRunStep(c, g, m, 258);
    FlushRunStep(c, g, m, 259);
  }
}
