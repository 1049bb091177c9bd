/** Two limits of the protocol, each with the exact condition under which it holds:
    superblock writes that tear, and flushes that fail part-way. */
module TornWrites {
  import opened Crc32c
  import opened Base
  import opened Seqs
  import opened Disks
  import opened Indexes
  import opened Superblocks
  import opened Recovery
  import opened Protocol
  import opened CrashSafety
  import opened CrashRuns

  // ---- Torn superblocks --------------------------------------------------

  /** The copy at `a` is as it was, as it was being written, or fails validation. */
  ghost predicate TornAt(d: Disk, img: seq<byte>, a: nat)
    requires |img| == |d.durable| && a + SUPERBLOCK_SIZE <= |img|
  {
    AtomicAt(d, img, a, SUPERBLOCK_SIZE) || FromBytes(img[a..a + SUPERBLOCK_SIZE]).Err?
  }

  ghost predicate TornCrash(g: Geometry, d: Disk, img: seq<byte>) {
    g.Valid() && CrashImage(d, img) && |img| == |d.durable| == g.deviceSize &&
    TornAt(d, img, 0) && TornAt(d, img, SUPERBLOCK_SIZE)
  }

  /** Until the new primary copy is durable, the backup is the committed superblock. */
  ghost predicate CopiesAgree(m: Machine) {
    !m.sys.phase.PrimaryDurable? && !m.sys.phase.BackupPending? ==>
      && DATA_START <= |m.sys.disk.durable| == |m.sys.disk.live| && |m.com.sb.slots| == NUM_SHARDS
      && m.sys.disk.durable[4096..8192] == CopyBytes(m.com.sb)
      && m.sys.disk.live[4096..8192] == CopyBytes(m.com.sb)
  }

  /** With the primary torn, open falls back to the backup: it recovers the last commit
      exactly when the backup is that commit's superblock. */
  lemma TornPrimaryFallsBack(c: ShardCodec, g: Geometry, m: Machine, img: seq<byte>)
    requires Inv(c, g, m) && m.sys.phase.PrimaryPending? && TornCrash(g, m.sys.disk, img)
    requires FromBytes(img[0..4096]).Err?
    ensures ChooseSuperblock(img).Ok? ==> ChooseSuperblock(img) == FromBytes(m.sys.disk.durable[4096..8192])
    ensures Recover(c, img) == Ok(m.com) <==> FromBytes(m.sys.disk.durable[4096..8192]) == Ok(m.com.sb)
  {
    hide SuperHeld, Encodable, CopyBytes, CrashImage, Fits, FromBytes, LoadShards, ShardStored, KeptUnharmed;
    var d := m.sys.disk;
    CrashKeepsUntouched(d, img, 4096, g.deviceSize);
    SliceSlice(img, 4096, g.deviceSize, 0, 4096);
    SliceSlice(d.durable, 4096, g.deviceSize, 0, 4096);
    assert img[4096..8192] == d.durable[4096..8192];
    if FromBytes(img[4096..8192]) == Ok(m.com.sb) {
      TailStored(c, g, d.durable, img, m.com);
      ChosenRecovers(c, g, img, m.com);
    }
  }

  lemma TailStored(c: ShardCodec, g: Geometry, a: seq<byte>, b: seq<byte>, com: Commit)
    requires g.Valid() && |a| == |b| == g.deviceSize && Holds(c, g, a, com)
    requires a[4096..g.deviceSize] == b[4096..g.deviceSize]
    ensures IndexStored(c, g, b, com)
  {
    hide SuperHeld, IndexStored;
    forall i | 0 <= i < NUM_SHARDS
      ensures
        var off := g.SlotOffset(com.sb.slots[i].active, i);
        off + com.sb.slots[i].size <= |b| &&
        b[off..off + com.sb.slots[i].size] == a[off..off + com.sb.slots[i].size]
    {
      ActiveSlotInBounds(c, g, a, com, i);
      var off := g.SlotOffset(com.sb.slots[i].active, i);
      SliceSlice(a, 4096, g.deviceSize, off - 4096, off - 4096 + com.sb.slots[i].size);
      SliceSlice(b, 4096, g.deviceSize, off - 4096, off - 4096 + com.sb.slots[i].size);
    }
    HeldIsStored(c, g, a, com);
    StoredElsewhere(c, g, a, b, com);
  }

  lemma HeldIsStored(c: ShardCodec, g: Geometry, img: seq<byte>, com: Commit)
    requires g.Valid() && Holds(c, g, img, com)
    ensures IndexStored(c, g, img, com)
  {}

  lemma TornBackupRecovers(c: ShardCodec, g: Geometry, m: Machine, img: seq<byte>)
    requires Inv(c, g, m) && m.sys.phase.BackupPending? && TornCrash(g, m.sys.disk, img)
    requires FromBytes(img[4096..8192]).Err?
    ensures Recover(c, img) == Ok(m.com)
  {
    hide Encodable, CopyBytes, CrashImage, Fits, FromBytes, ShardStored, KeptUnharmed, Recover;
    var d := m.sys.disk;
    CrashKeepsUntouched(d, img, 0, 4096);
    CrashKeepsUntouched(d, img, 8192, g.deviceSize);
    forall i | 0 <= i < NUM_SHARDS
      ensures
        var off := g.SlotOffset(m.com.sb.slots[i].active, i);
        off + m.com.sb.slots[i].size <= |img| &&
        img[off..off + m.com.sb.slots[i].size] == d.durable[off..off + m.com.sb.slots[i].size]
    {
      ActiveSlotInBounds(c, g, d.durable, m.com, i);
      var off := g.SlotOffset(m.com.sb.slots[i].active, i);
      CrashKeepsUntouched(d, img, off, off + m.com.sb.slots[i].size);
    }
    StoredElsewhere(c, g, d.durable, img, m.com);
    hide IndexStored;
    HeldIsChosen(img, m.com.sb, g);
    ChosenRecovers(c, g, img, m.com);
  }

  lemma UntouchedIsAtomic(g: Geometry, d: Disk, img: seq<byte>)
    requires g.Valid() && CrashImage(d, img) && |img| == |d.durable| == g.deviceSize && d.Untouched(0, DATA_START)
    ensures AtomicCrash(g, d, img)
  {
    CrashKeepsUntouched(d, img, 0, 4096);
    CrashKeepsUntouched(d, img, 4096, 8192);
  }

  /** Even if superblock writes tear, a crash anywhere in a flush that began with both
      copies equal recovers the old or the new index, whole. */
  lemma TornCrashRecovers(c: ShardCodec, g: Geometry, m: Machine, img: seq<byte>)
    requires Inv(c, g, m) && CopiesAgree(m) && TornCrash(g, m.sys.disk, img)
    ensures Recover(c, img) == Ok(m.com) || (m.sys.phase.PrimaryPending? && Recover(c, img) == Ok(InProgress(m)))
  {
    hide SuperHeld, IndexStored, Recover, Encodable, CopyBytes, CrashImage, Fits, FromBytes, KeptUnharmed;
    var d := m.sys.disk;
    if m.sys.phase.PrimaryPending? && FromBytes(img[0..4096]).Err? {
      TornPrimaryFallsBack(c, g, m, img);
      CopyRoundTrip(m.com.sb);
    } else if m.sys.phase.BackupPending? && FromBytes(img[4096..8192]).Err? {
      TornBackupRecovers(c, g, m, img);
    } else {
      WholeCopies(c, g, m, img);
      CrashRecovers(c, g, m, img);
    }
  }

  lemma WholeCopies(c: ShardCodec, g: Geometry, m: Machine, img: seq<byte>)
    requires Inv(c, g, m) && TornCrash(g, m.sys.disk, img)
    requires m.sys.phase.PrimaryPending? ==> FromBytes(img[0..4096]).Ok?
    requires m.sys.phase.BackupPending? ==> FromBytes(img[4096..8192]).Ok?
    ensures AtomicCrash(g, m.sys.disk, img)
  {
    hide SuperHeld, IndexStored, Encodable, CopyBytes, CrashImage, Fits, FromBytes, KeptUnharmed;
    var d := m.sys.disk;
    if m.sys.phase.PrimaryPending? {
      CrashKeepsUntouched(d, img, 4096, 8192);
    } else if m.sys.phase.BackupPending? {
      CrashKeepsUntouched(d, img, 0, 4096);
    } else {
      UntouchedIsAtomic(g, d, img);
    }
  }

  /** The backup, in the cache and on stable storage. */
  ghost predicate BackupIs(m: Machine, bytes: seq<byte>) {
    && DATA_START <= |m.sys.disk.durable| == |m.sys.disk.live|
    && m.sys.disk.durable[4096..8192] == bytes && m.sys.disk.live[4096..8192] == bytes
  }

  /** Until the new primary copy is durable nothing touches the backup. */
  lemma BackupUntouched(c: ShardCodec, g: Geometry, m: Machine, m': Machine, bytes: seq<byte>)
    requires Inv(c, g, m) && BackupIs(m, bytes) && !m.sys.phase.PrimaryDurable? && !m.sys.phase.BackupPending?
    requires MutateNext(g, m, m') || (Steppable(c, g, m.sys) && m' == FlushNext(c, g, m))
    ensures BackupIs(m', bytes)
  {
    hide Holds, IndexStored, SuperblockOk, CopyBytes, Fits, KeptUnharmed, Placed, ShardStored, Checksum, Patch;
    var d := m.sys.disk;
    if MutateNext(g, m, m') {
      FreeWritesOutside(d, m'.sys.disk, m.sys.idx.files, g.DataEnd(), 4096, 8192);
    } else {
      match m.sys.phase
      case Idle =>
      case Writing(n) =>
        if n < NUM_SHARDS && m.sys.dirty[n] {
          WriteShardEarly(c, g, m, n);
          PatchOutside(d.live, g.SlotOffset(1 - m.sys.sb.slots[n].active, n), c.enc(Shard(m.sys.idx, n)), 4096, 8192);
        }
      case ShardsSynced =>
        PatchOutside(d.live, 0, CopyBytes(NextSuperblock(m.sys.sb)), 4096, 8192);
      case PrimaryPending =>
    }
  }

  /** Operations and flush steps keep both copies in agreement; a completed flush
      re-establishes it. */
  lemma CopiesStayInAgreement(c: ShardCodec, g: Geometry, m: Machine, m': Machine)
    requires Inv(c, g, m) && CopiesAgree(m)
    requires MutateNext(g, m, m') || (Steppable(c, g, m.sys) && m' == FlushNext(c, g, m))
    ensures CopiesAgree(m')
  {
    hide Holds, IndexStored, SuperblockOk, CopyBytes, Fits, KeptUnharmed, Placed, ShardStored, Checksum, Early, CanFlush;
    if m.sys.phase.BackupPending? {
      PatchInside(m.sys.disk.durable, SUPERBLOCK_SIZE, CopyBytes(m.sys.sb));
    } else if !m.sys.phase.PrimaryDurable? {
      BackupUntouched(c, g, m, m', CopyBytes(m.com.sb));
    }
  }

  // ---- Stale backups -----------------------------------------------------

  lemma {:induction false} FlushKeepsBackup(c: ShardCodec, g: Geometry, m: Machine, bytes: seq<byte>, n: nat)
    requires Inv(c, g, m) && m.sys.phase.Idle? && CanFlush(c, g, m.sys) && BackupIs(m, bytes) && n <= 260
    ensures BackupIs(FlushRun(c, g, m, n), bytes)
    decreases n
  {
    hide Inv, CanFlush, FlushRun, Steppable, FlushNext, BackupIs;
    if n == 0 {
      NoSteps(c, g, m);
    } else {
      FlushKeepsBackup(c, g, m, bytes, n - 1);
      FlushRunStep(c, g, m, n - 1);
      BackupUntouched(c, g, FlushRun(c, g, m, n - 1), FlushRun(c, g, m, n), bytes);
    }
  }

  /** The writer that open builds on a device where it finds nothing to drop. */
  ghost function Reopened(img: seq<byte>, com: Commit): Machine {
    Machine(Sys(Disk(img, img, []), com.idx, com.sb, seq(NUM_SHARDS, _ => false), Idle), com, img, PlaceSet(com.idx.files))
  }

  /** A crash after the new primary copy is durable, and before the backup is written, leaves
      an idle writer on the new commit whose backup is still the old one. */
  lemma StaleBackupReachable(c: ShardCodec, g: Geometry, m: Machine)
    requires Inv(c, g, m) && m.sys.phase.Idle? && CanFlush(c, g, m.sys) && CopiesAgree(m)
    ensures |m.com.sb.slots| == NUM_SHARDS
    ensures
      var p := FlushRun(c, g, m, 260);
      var m' := Reopened(p.sys.disk.durable, p.com);
      && Inv(c, g, p) && CrashNext(c, g, p, m', p.sys.disk.durable) && Inv(c, g, m')
      && p.com == Commit(p.sys.sb, m.sys.idx) && m'.com.sb.txnId == m.com.sb.txnId + 1 && m'.com.idx == m.sys.idx
      && BackupIs(m', CopyBytes(m.com.sb)) && !CopiesAgree(m')
  {
    hide Inv, CanFlush, FlushRun, Recover, AtomicCrash, CopyBytes, Shard;
    var p := FlushRun(c, g, m, 260);
    FlushKeepsBackup(c, g, m, CopyBytes(m.com.sb), 260);
    FlushReaches(c, g, m, 260);
    IdleSuperblock(c, g, m);
    NothingPending(c, g, p);
    CrashRecovers(c, g, p, p.sys.disk.durable);
    var m' := Reopened(p.sys.disk.durable, p.com);
    CrashKeepsInv(c, g, p, m', p.sys.disk.durable);
    OtherCopies(c, g, m, p);
  }

  lemma IdleSuperblock(c: ShardCodec, g: Geometry, m: Machine)
    requires Inv(c, g, m) && m.sys.phase.Idle?
    ensures m.sys.sb == m.com.sb
  {
    hide KeptUnharmed, Placed, Holds, Spared, Clean, SlotsEncodable, Encodable;
    assert m.sys.sb.slots == m.com.sb.slots;
  }

  lemma NothingPending(c: ShardCodec, g: Geometry, p: Machine)
    requires Inv(c, g, p) && p.sys.phase.PrimaryDurable?
    ensures AtomicCrash(g, p.sys.disk, p.sys.disk.durable)
  {
    hide KeptUnharmed, Placed, Holds, SuperblockOk;
    assert |p.sys.disk.durable| == g.deviceSize;
  }

  /** Superblocks with different ids have different copies. */
  lemma OtherCopies(c: ShardCodec, g: Geometry, m: Machine, p: Machine)
    requires Inv(c, g, m) && Inv(c, g, p) && m.com.sb.txnId != p.com.sb.txnId
    ensures |m.com.sb.slots| == |p.com.sb.slots| == NUM_SHARDS && CopyBytes(m.com.sb) != CopyBytes(p.com.sb)
  {
    hide PhaseOk, KeptUnharmed, Placed, CopyBytes, FromBytes, Encodable;
    CopyRoundTrip(m.com.sb);
    CopyRoundTrip(p.com.sb);
  }

  /** While the primary is being written a crash can always tear it: keeping a single byte of
      the new copy in which the two differ already fails validation. */
  lemma TornImageExists(c: ShardCodec, g: Geometry, m: Machine) returns (img: seq<byte>)
    requires Inv(c, g, m) && m.sys.phase.PrimaryPending?
    ensures TornCrash(g, m.sys.disk, img) && FromBytes(img[0..4096]).Err?
  {
    hide KeptUnharmed, Placed, CopyBytes, FromBytes, Encodable, IndexStored;
    var d := m.sys.disk;
    var was, now := CopyBytes(m.com.sb), CopyBytes(m.sys.sb);
    CopyRoundTrip(m.com.sb);
    CopyRoundTrip(m.sys.sb);
    assert d.durable[0..4096] == was && was != now;
    var p :| 0 <= p < SUPERBLOCK_SIZE && was[p] != now[p];
    img := d.durable[p := now[p]];
    OneByteTorn(was, p, now[p]);
    assert img[0..4096] == was[p := now[p]];
    forall x | 0 <= x < |img|
      ensures Possible(d, x, img[x])
    {
      if x == p {
        assert d.pending[0].Touches(x, x + 1) && img[x] == d.pending[0].data[x - 0];
      }
    }
    assert img[4096..8192] == d.durable[4096..8192];
  }

  lemma OneByteTorn(copy: seq<byte>, p: nat, b: byte)
    requires |copy| == SUPERBLOCK_SIZE && p < |copy| && copy[p] != b && FromBytes(copy).Ok?
    ensures FromBytes(copy[p := b]).Err?
  {
    hide FromBytes;
    assert copy == copy[..p] + [copy[p]] + copy[p + 1..];
    assert copy[p := b] == copy[..p] + [b] + copy[p + 1..];
    CopyDamageDetected(copy[..p], [copy[p]], [b], copy[p + 1..]);
  }

  /** The shards under the backup's slot entries load to `idx`. */
  ghost predicate BackupLoads(c: ShardCodec, img: seq<byte>, idx: Index)
    requires |img| >= DATA_START
  {
    var b := FromBytes(img[4096..8192]);
    && b.Ok? && |b.value.slots| == NUM_SHARDS && GeometryOf(|img|, b.value).Valid()
    && LoadShards(c, GeometryOf(|img|, b.value), img, b.value.slots, NUM_SHARDS) == Ok(idx)
  }

  /** With the primary torn, open recovers an index exactly when the shards under the backup's
      entries still load to it; in particular the committed one. */
  lemma TornPrimaryIndex(c: ShardCodec, g: Geometry, m: Machine, img: seq<byte>, idx: Index)
    requires Inv(c, g, m) && m.sys.phase.PrimaryPending? && TornCrash(g, m.sys.disk, img)
    requires FromBytes(img[0..4096]).Err?
    ensures DATA_START <= |m.sys.disk.durable|
    ensures Recover(c, img).Ok? && Recover(c, img).value.idx == idx <==> BackupLoads(c, m.sys.disk.durable, idx)
  {
    hide SuperHeld, Encodable, CopyBytes, CrashImage, Fits, FromBytes, LoadShards, IndexStored, KeptUnharmed, Placed;
    var d := m.sys.disk;
    CrashKeepsUntouched(d, img, 4096, g.deviceSize);
    SliceSlice(img, 4096, g.deviceSize, 0, 4096);
    SliceSlice(d.durable, 4096, g.deviceSize, 0, 4096);
    var b := FromBytes(img[4096..8192]);
    if b.Ok? && |b.value.slots| == NUM_SHARDS && GeometryOf(|img|, b.value).Valid() {
      SameTailLoads(c, GeometryOf(|img|, b.value), img, d.durable, b.value.slots, NUM_SHARDS);
    }
  }

  // ---- Flushes that fail part-way ----------------------------------------

  /** The flush has passed shard `n`: the entry of every dirty shard below it is flipped. */
  ghost predicate Flipped(m: Machine, n: nat)
    requires |m.sys.sb.slots| == |m.sys.dirty| == |m.com.sb.slots| == NUM_SHARDS
  {
    forall i :: 0 <= i < n && i < NUM_SHARDS && m.sys.dirty[i] ==>
      m.com.sb.slots[i].active <= 1 && m.sys.sb.slots[i].active == 1 - m.com.sb.slots[i].active
  }

  lemma FlipOne(c: ShardCodec, g: Geometry, m: Machine, n: nat)
    requires Common(c, g, m) && Early(c, g, m, n) && Flipped(m, n) && n < NUM_SHARDS && m.sys.dirty[n]
    requires |c.enc(Shard(m.sys.idx, n))| <= g.SlotSize() && |c.enc(Shard(m.sys.idx, n))| < U32_LIMIT
    ensures m.sys.sb.slots[n].active <= 1
    ensures g.SlotOffset(1 - m.sys.sb.slots[n].active, n) + |c.enc(Shard(m.sys.idx, n))| <= g.deviceSize
    ensures
      var m' := m.(sys := WriteShard(c, g, m.sys, n));
      Early(c, g, m', n + 1) && Flipped(m', n + 1)
  {
    hide Early, Checksum;
    WriteShardEarly(c, g, m, n);
    assert m.sys.sb.slots[n] == m.com.sb.slots[n] by { SlotAhead(c, g, m, n); }
  }

  lemma SlotAhead(c: ShardCodec, g: Geometry, m: Machine, n: nat)
    requires Shaped(g, m.sys) && Early(c, g, m, n) && n < NUM_SHARDS
    ensures m.sys.sb.slots[n] == m.com.sb.slots[n]
  {
    hide Holds, Spared, Clean;
  }

  /** A flush that gives up at shard `n` (because that shard overflows its slot) has left
      the in-memory slot table ahead of the device. The writer is still in order exactly
      when no shard before `n` was dirty. */
  lemma AbortedFlushInOrder(c: ShardCodec, g: Geometry, m: Machine, n: nat)
    requires Common(c, g, m) && Early(c, g, m, n) && Flipped(m, n) && n < NUM_SHARDS
    ensures Early(c, g, m, 0) <==> forall i :: 0 <= i < n ==> !m.sys.dirty[i]
  {
    hide Holds, Spared, ShardStored, SlotsEncodable, Encodable, Placed;
    if i :| 0 <= i < n && m.sys.dirty[i] {
      assert m.sys.sb.slots[i].active == 1 - m.com.sb.slots[i].active;
      assert !Early(c, g, m, 0);
    }
  }

  /** What follows such an abort: the next flush writes a shard before `n` over the copy the
      committed superblock points to. That is safe, whatever a crash then keeps, exactly when
      the new bytes agree with the committed ones wherever they overlap. */
  lemma AbortedFlushSafeExactly(c: ShardCodec, g: Geometry, m: Machine, n: nat, i: nat, shard: Index)
    requires AtLiveSlot(c, g, m, n, i, shard)
    ensures
      var meta := m.com.sb.slots[i];
      var at := g.SlotOffset(meta.active, i);
      && at == g.SlotOffset(1 - m.sys.sb.slots[i].active, i) && at + |c.enc(shard)| <= |m.sys.disk.live|
      && (AllRecover(c, g, m.sys.disk.Written(at, c.enc(shard)), m.com) <==> Agree(m.sys.disk.durable, at, meta.size, c.enc(shard)))
  {
    hide AllRecover, AtLiveSlot, Agree, Holds, Spared, SuperblockOk, AtomicCrash, Recover, ChooseSuperblock, Patch;
    LiveSlot(c, g, m, n, i, shard);
    var meta := m.com.sb.slots[i];
    var at := g.SlotOffset(meta.active, i);
    var bytes := c.enc(shard);
    if Agree(m.sys.disk.durable, at, meta.size, bytes) {
      AgreeingWriteKeeps(c, g, m, n, i, shard);
    } else {
      var p := Disagreement(m.sys.disk.durable, at, meta.size, bytes);
      AbortedFlushLosesCommit(c, g, m, n, i, shard, p);
      SomeFails(c, g, m.sys.disk.Written(at, bytes), m.com, m.sys.disk.durable[at + p := bytes[p]]);
    }
  }

  /** Every crash image of `d` loads `com`. */
  ghost predicate AllRecover(c: ShardCodec, g: Geometry, d: Disk, com: Commit) {
    forall img :: AtomicCrash(g, d, img) ==> Recover(c, img) == Ok(com)
  }

  /** The new bytes agree with the first `size` committed ones as far as both go. */
  ghost predicate Agree(durable: seq<byte>, at: nat, size: nat, bytes: seq<byte>) {
    at + size <= |durable| && forall p :: 0 <= p < |bytes| && p < size ==> bytes[p] == durable[at + p]
  }

  lemma Disagreement(durable: seq<byte>, at: nat, size: nat, bytes: seq<byte>) returns (p: nat)
    requires at + size <= |durable| && !Agree(durable, at, size, bytes)
    ensures p < |bytes| && p < size && bytes[p] != durable[at + p]
  {
    p :| 0 <= p < |bytes| && p < size && bytes[p] != durable[at + p];
  }

  /** After a flush that gave up at shard `n`, the next one is about to write dirty shard
      `i < n`, whose slot entry is already flipped. */
  ghost predicate AtLiveSlot(c: ShardCodec, g: Geometry, m: Machine, n: nat, i: nat, shard: Index) {
    && Common(c, g, m) && Early(c, g, m, n) && Flipped(m, n) && i < n && i < NUM_SHARDS && m.sys.dirty[i]
    && |c.enc(shard)| <= g.SlotSize()
  }

  lemma LiveSlot(c: ShardCodec, g: Geometry, m: Machine, n: nat, i: nat, shard: Index)
    requires AtLiveSlot(c, g, m, n, i, shard)
    ensures g.Valid() && |m.com.sb.slots| == |m.sys.sb.slots| == NUM_SHARDS && i < NUM_SHARDS && |c.enc(shard)| <= g.SlotSize()
    ensures |m.sys.disk.live| == |m.sys.disk.durable| == g.deviceSize && SuperblockOk(m.com.sb, g)
    ensures Holds(c, g, m.sys.disk.durable, m.com) && Spared(g, m.sys.disk, m.com)
    ensures
      var meta := m.com.sb.slots[i];
      && meta.active <= 1 && m.sys.sb.slots[i].active == 1 - meta.active && 0 < meta.size <= g.SlotSize()
      && g.DataEnd() <= g.SlotOffset(meta.active, i) && g.SlotOffset(meta.active, i) + g.SlotSize() <= g.deviceSize
  {
    hide Holds, SuperblockOk, Spared, Clean, SlotsEncodable, Placed;
    assert |m.com.sb.slots| == NUM_SHARDS by { HeldSlots(c, g, m.sys.disk.durable, m.com); }
    ActiveSlotInBounds(c, g, m.sys.disk.durable, m.com, i);
    StoredSize(c, g, m.sys.disk.durable, m.com, i);
    SlotsApart(g, m.com.sb.slots[i].active, i, 0, 0);
  }

  lemma SomeFails(c: ShardCodec, g: Geometry, d: Disk, com: Commit, img: seq<byte>)
    requires AtomicCrash(g, d, img) && Recover(c, img).Err?
    ensures !AllRecover(c, g, d, com)
  {
    hide Recover, AtomicCrash;
  }

  /** The losing half: a crash that keeps the one differing byte leaves a device that does not
      open, because a single changed byte always changes the checksum. */
  lemma AbortedFlushLosesCommit(c: ShardCodec, g: Geometry, m: Machine, n: nat, i: nat, shard: Index, p: nat)
    requires AtLiveSlot(c, g, m, n, i, shard) && |m.com.sb.slots| == NUM_SHARDS
    requires
      var at := g.SlotOffset(m.com.sb.slots[i].active, i);
      && p < |c.enc(shard)| && p < m.com.sb.slots[i].size && at + |c.enc(shard)| <= |m.sys.disk.live|
      && at + p < |m.sys.disk.durable| && c.enc(shard)[p] != m.sys.disk.durable[at + p]
    ensures
      var at := g.SlotOffset(m.com.sb.slots[i].active, i);
      var d, img := m.sys.disk.Written(at, c.enc(shard)), m.sys.disk.durable[at + p := c.enc(shard)[p]];
      AtomicCrash(g, d, img) && ChooseSuperblock(img) == Ok(m.com.sb) && Recover(c, img).Err?
  {
    hide AtLiveSlot, Holds, SuperblockOk, Spared, Patch, AtomicCrash, ChooseSuperblock, Recover;
    LiveSlot(c, g, m, n, i, shard);
    var at := g.SlotOffset(m.com.sb.slots[i].active, i);
    OneByteCrash(g, m.sys.disk, at, c.enc(shard), p);
    OneByteFails(c, g, m.sys.disk.durable, m.com, i, p, c.enc(shard)[p]);
  }

  lemma OneByteCrash(g: Geometry, d: Disk, at: nat, bytes: seq<byte>, p: nat)
    requires g.Valid() && |d.live| == |d.durable| == g.deviceSize && DATA_START <= at && at + |bytes| <= g.deviceSize && p < |bytes|
    ensures AtomicCrash(g, d.Written(at, bytes), d.durable[at + p := bytes[p]])
  {
    hide Patch;
    var d', img := d.Written(at, bytes), d.durable[at + p := bytes[p]];
    var n := |d.pending|;
    forall x | 0 <= x < |img|
      ensures Possible(d', x, img[x])
    {
      if x == at + p {
        assert d'.pending[n].Touches(x, x + 1) && img[x] == d'.pending[n].data[x - at];
      }
    }
    assert img[0..4096] == d.durable[0..4096] && img[4096..8192] == d.durable[4096..8192];
  }

  /** Changing one byte of a committed shard makes the device unreadable. */
  lemma OneByteFails(c: ShardCodec, g: Geometry, img: seq<byte>, com: Commit, i: nat, p: nat, b: byte)
    requires g.Valid() && |img| == g.deviceSize && SuperblockOk(com.sb, g) && Holds(c, g, img, com)
    requires i < NUM_SHARDS && |com.sb.slots| == NUM_SHARDS && p < com.sb.slots[i].size
    requires
      var at := g.SlotOffset(com.sb.slots[i].active, i);
      g.DataEnd() <= at && at + com.sb.slots[i].size <= |img| && img[at + p] != b
    ensures
      var img' := img[g.SlotOffset(com.sb.slots[i].active, i) + p := b];
      ChooseSuperblock(img') == Ok(com.sb) && Recover(c, img').Err?
  {
    hide Encodable, Checksum, FromBytes, CopyBytes, ChooseSuperblock, LoadShards;
    var meta := com.sb.slots[i];
    var at := g.SlotOffset(meta.active, i);
    var img' := img[at + p := b];
    assert img'[0..4096] == img[0..4096] && img'[4096..8192] == img[4096..8192];
    HeldIsChosen(img', com.sb, g);
    assert ShardStored(c, g, img, meta, Shard(com.idx, i), i);
    var was, now := img[at..at + meta.size], img'[at..at + meta.size];
    assert now == was[p := b] && was[p] != b;
    ChangedByteShows(was, p, b);
    OneBadShardFails(c, g, img', com.sb.slots, i, NUM_SHARDS);
  }

  lemma ChangedByteShows(data: seq<byte>, p: nat, b: byte)
    requires p < |data| && data[p] != b
    ensures Checksum(data[p := b]) != Checksum(data)
  {
    hide Crc, Checksum;
    SingleByteDetected(data, p, b);
    if Checksum(data[p := b]) == Checksum(data) {
      ChecksumIsCrc(data[p := b], data);
    }
  }

  lemma HeldSlots(c: ShardCodec, g: Geometry, img: seq<byte>, com: Commit)
    requires g.Valid() && Holds(c, g, img, com)
    ensures |com.sb.slots| == NUM_SHARDS
  {}

  /** The safe half. */
  lemma AgreeingWriteKeeps(c: ShardCodec, g: Geometry, m: Machine, n: nat, i: nat, shard: Index)
    requires AtLiveSlot(c, g, m, n, i, shard) && |m.com.sb.slots| == NUM_SHARDS
    requires
      var at := g.SlotOffset(m.com.sb.slots[i].active, i);
      at + |c.enc(shard)| <= |m.sys.disk.live| && Agree(m.sys.disk.durable, at, m.com.sb.slots[i].size, c.enc(shard))
    ensures AllRecover(c, g, m.sys.disk.Written(g.SlotOffset(m.com.sb.slots[i].active, i), c.enc(shard)), m.com)
  {
    hide AtLiveSlot, Holds, SuperblockOk, Patch, Recover, CrashImage, Agree, Spared;
    LiveSlot(c, g, m, n, i, shard);
    var bytes := c.enc(shard);
    var at := g.SlotOffset(m.com.sb.slots[i].active, i);
    var d := m.sys.disk.Written(at, bytes);
    forall img | AtomicCrash(g, d, img)
      ensures Recover(c, img) == Ok(m.com)
    {
      forall j | 0 <= j < NUM_SHARDS
        ensures
          var off, size := g.SlotOffset(m.com.sb.slots[j].active, j), m.com.sb.slots[j].size;
          off + size <= |img| && img[off..off + size] == m.sys.disk.durable[off..off + size]
      {
        SlotKept(c, g, m, i, bytes, img, j);
      }
      SparedStart(g, m.sys.disk, m.com, at, bytes);
      CrashKeepsUntouched(d, img, 0, DATA_START);
      HoldsElsewhere(c, g, m.sys.disk.durable, img, m.com);
      HoldsRecovers(c, g, img, m.com);
    }
  }

  lemma SparedStart(g: Geometry, d: Disk, com: Commit, at: nat, bytes: seq<byte>)
    requires g.Valid() && |com.sb.slots| == NUM_SHARDS && Spared(g, d, com) && DATA_START <= at && at + |bytes| <= |d.live|
    ensures d.Written(at, bytes).Untouched(0, DATA_START)
  {
    hide Patch;
  }

  lemma SlotKept(c: ShardCodec, g: Geometry, m: Machine, i: nat, bytes: seq<byte>, img: seq<byte>, j: nat)
    requires g.Valid() && |m.com.sb.slots| == NUM_SHARDS && Holds(c, g, m.sys.disk.durable, m.com) && Spared(g, m.sys.disk, m.com)
    requires i < NUM_SHARDS && j < NUM_SHARDS && |bytes| <= g.SlotSize() && |m.sys.disk.live| == g.deviceSize
    requires
      var at := g.SlotOffset(m.com.sb.slots[i].active, i);
      && at + |bytes| <= |m.sys.disk.live| && Agree(m.sys.disk.durable, at, m.com.sb.slots[i].size, bytes)
      && CrashImage(m.sys.disk.Written(at, bytes), img)
    ensures
      var off, size := g.SlotOffset(m.com.sb.slots[j].active, j), m.com.sb.slots[j].size;
      off + size <= |img| && img[off..off + size] == m.sys.disk.durable[off..off + size]
  {
    hide Holds, Patch, CrashImage, Agree, Spared;
    var d0 := m.sys.disk;
    ActiveSlotInBounds(c, g, d0.durable, m.com, i);
    ActiveSlotInBounds(c, g, d0.durable, m.com, j);
    var at := g.SlotOffset(m.com.sb.slots[i].active, i);
    var off, size := g.SlotOffset(m.com.sb.slots[j].active, j), m.com.sb.slots[j].size;
    SlotsApart(g, m.com.sb.slots[i].active, i, m.com.sb.slots[j].active, j);
    assert |d0.durable| == g.deviceSize by { HeldSize(c, g, d0.durable, m.com); }
    SlotSpared(g, d0, m.com, j);
    AgreeingBytes(d0, at, bytes, img, off, size);
  }

  lemma HeldSize(c: ShardCodec, g: Geometry, img: seq<byte>, com: Commit)
    requires g.Valid() && Holds(c, g, img, com)
    ensures |img| == g.deviceSize
  {
    hide SuperHeld, IndexStored;
  }

  lemma SlotSpared(g: Geometry, d: Disk, com: Commit, j: nat)
    requires g.Valid() && |com.sb.slots| == NUM_SHARDS && Spared(g, d, com) && j < NUM_SHARDS
    ensures d.Untouched(g.SlotOffset(com.sb.slots[j].active, j), g.SlotOffset(com.sb.slots[j].active, j) + com.sb.slots[j].size)
  {}

  /** A window that older writes spare and the new write leaves as it is keeps its bytes. */
  lemma AgreeingBytes(d: Disk, at: nat, bytes: seq<byte>, img: seq<byte>, off: nat, size: nat)
    requires at + |bytes| <= |d.live| && off + size <= |d.durable| && CrashImage(d.Written(at, bytes), img)
    requires d.Untouched(off, off + size)
    requires at + |bytes| <= off || off + size <= at || (at == off && Agree(d.durable, at, size, bytes))
    ensures |img| == |d.durable| && img[off..off + size] == d.durable[off..off + size]
  {
    hide Patch;
    var d' := d.Written(at, bytes);
    var n := |d.pending|;
    forall x | off <= x < off + size
      ensures img[x] == d.durable[x]
    {
      assert Possible(d', x, img[x]);
      assert forall k :: 0 <= k < n ==> !d.pending[k].Touches(off, off + size);
      assert forall k :: 0 <= k < n ==> !d'.pending[k].Touches(x, x + 1);
    }
  }

  lemma StoredSize(c: ShardCodec, g: Geometry, img: seq<byte>, com: Commit, i: nat)
    requires g.Valid() && Holds(c, g, img, com) && i < NUM_SHARDS
    ensures com.sb.slots[i].size > 0
  {
    hide Checksum, SuperHeld;
    assert ShardStored(c, g, img, com.sb.slots[i], Shard(com.idx, i), i);
  }
}
