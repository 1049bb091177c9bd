/** Over every run of the flush protocol, with power failures anywhere, the next open
    finds the last committed index or the one being committed, whole. */
module CrashSafety {
  import opened Crc32c
  import opened Base
  import opened Seqs
  import opened Disks
  import opened Allocators
  import opened Indexes
  import opened Superblocks
  import opened Recovery
  import opened Protocol

  // ---- What a commit needs on the device ---------------------------------

  ghost predicate Holds(c: ShardCodec, g: Geometry, img: seq<byte>, com: Commit)
    requires g.Valid()
  {
    |img| == g.deviceSize && |com.sb.slots| == NUM_SHARDS && SuperHeld(img, com.sb) && IndexStored(c, g, img, com)
  }

  lemma HoldsRecovers(c: ShardCodec, g: Geometry, img: seq<byte>, com: Commit)
    requires g.Valid() && SuperblockOk(com.sb, g) && Holds(c, g, img, com)
    ensures Recover(c, img) == Ok(com)
  {
    hide SuperHeld, IndexStored, ChooseSuperblock, Recover, Encodable;
    HeldIsChosen(img, com.sb, g);
    ChosenRecovers(c, g, img, com);
  }

  /** `[a, b)` meets neither superblock copy nor any slot the commit points to. */
  ghost predicate Apart(g: Geometry, com: Commit, a: nat, b: nat)
    requires g.Valid() && |com.sb.slots| == NUM_SHARDS
  {
    DATA_START <= a &&
    forall i :: 0 <= i < NUM_SHARDS ==>
      var off := g.SlotOffset(com.sb.slots[i].active, i);
      b <= off || off + com.sb.slots[i].size <= a
  }

  /** No pending write touches what the commit needs. */
  ghost predicate Spared(g: Geometry, d: Disk, com: Commit)
    requires g.Valid() && |com.sb.slots| == NUM_SHARDS
  {
    d.Untouched(0, DATA_START) &&
    forall i :: 0 <= i < NUM_SHARDS ==>
      var off := g.SlotOffset(com.sb.slots[i].active, i);
      d.Untouched(off, off + com.sb.slots[i].size)
  }

  /** Images that agree on the superblocks and the active slots hold the same commit. */
  lemma HoldsElsewhere(c: ShardCodec, g: Geometry, a: seq<byte>, b: seq<byte>, com: Commit)
    requires g.Valid() && Holds(c, g, a, com) && |a| == |b|
    requires a[0..DATA_START] == b[0..DATA_START]
    requires forall i :: 0 <= i < NUM_SHARDS ==>
      var off := g.SlotOffset(com.sb.slots[i].active, i);
      b[off..off + com.sb.slots[i].size] == a[off..off + com.sb.slots[i].size]
    ensures Holds(c, g, b, com)
  {
    hide Checksum, FromBytes, CopyBytes;
    StoredElsewhere(c, g, a, b, com);
    hide IndexStored;
    SliceSlice(a, 0, DATA_START, 0, 4096);
    SliceSlice(b, 0, DATA_START, 0, 4096);
    SliceSlice(a, 0, DATA_START, 4096, 8192);
    SliceSlice(b, 0, DATA_START, 4096, 8192);
  }

  lemma ActiveSlotInBounds(c: ShardCodec, g: Geometry, img: seq<byte>, com: Commit, i: nat)
    requires g.Valid() && Holds(c, g, img, com) && i < NUM_SHARDS
    ensures com.sb.slots[i].active <= 1 && com.sb.slots[i].size <= g.SlotSize()
    ensures
      var off := g.SlotOffset(com.sb.slots[i].active, i);
      DATA_START <= g.DataEnd() <= off && off + com.sb.slots[i].size <= g.deviceSize
  {
    hide Checksum, SuperHeld;
    assert ShardStored(c, g, img, com.sb.slots[i], Shard(com.idx, i), i);
    SlotsApart(g, com.sb.slots[i].active, i, 0, 0);
  }

  lemma CrashHolds(c: ShardCodec, g: Geometry, d: Disk, com: Commit, img: seq<byte>)
    requires g.Valid() && Holds(c, g, d.durable, com) && Spared(g, d, com) && CrashImage(d, img)
    ensures Holds(c, g, img, com)
  {
    hide SuperHeld, IndexStored, CrashImage;
    assert |img| == |d.durable| by { CrashSize(d, img); }
    CrashKeepsUntouched(d, img, 0, DATA_START);
    forall i | 0 <= i < NUM_SHARDS
      ensures
        var off := g.SlotOffset(com.sb.slots[i].active, i);
        off + com.sb.slots[i].size <= |img| &&
        img[off..off + com.sb.slots[i].size] == d.durable[off..off + com.sb.slots[i].size]
    {
      ActiveSlotInBounds(c, g, d.durable, com, i);
      var off := g.SlotOffset(com.sb.slots[i].active, i);
      CrashKeepsUntouched(d, img, off, off + com.sb.slots[i].size);
    }
    HoldsElsewhere(c, g, d.durable, img, com);
  }

  lemma CrashSize(d: Disk, img: seq<byte>)
    requires CrashImage(d, img)
    ensures |img| == |d.durable|
  {}

  lemma PatchHolds(c: ShardCodec, g: Geometry, live: seq<byte>, com: Commit, off: nat, data: seq<byte>)
    requires g.Valid() && Holds(c, g, live, com) && off + |data| <= |live| && Apart(g, com, off, off + |data|)
    ensures Holds(c, g, Patch(live, off, data), com)
  {
    hide SuperHeld, IndexStored, Patch;
    var live' := Patch(live, off, data);
    PatchOutside(live, off, data, 0, DATA_START);
    forall i | 0 <= i < NUM_SHARDS
      ensures
        var at := g.SlotOffset(com.sb.slots[i].active, i);
        at + com.sb.slots[i].size <= |live'| &&
        live'[at..at + com.sb.slots[i].size] == live[at..at + com.sb.slots[i].size]
    {
      ActiveSlotInBounds(c, g, live, com, i);
      var at := g.SlotOffset(com.sb.slots[i].active, i);
      PatchOutside(live, off, data, at, at + com.sb.slots[i].size);
    }
    HoldsElsewhere(c, g, live, live', com);
  }

  lemma WriteSpares(g: Geometry, d: Disk, com: Commit, off: nat, data: seq<byte>)
    requires g.Valid() && |com.sb.slots| == NUM_SHARDS && off + |data| <= |d.live|
    requires Spared(g, d, com) && Apart(g, com, off, off + |data|)
    ensures Spared(g, d.Written(off, data), com)
  {
    var d' := d.Written(off, data);
    assert d'.Untouched(0, DATA_START);
    forall i | 0 <= i < NUM_SHARDS
      ensures
        var at := g.SlotOffset(com.sb.slots[i].active, i);
        d'.Untouched(at, at + com.sb.slots[i].size)
    {
      var at := g.SlotOffset(com.sb.slots[i].active, i);
      assert d.Untouched(at, at + com.sb.slots[i].size);
    }
  }

  /** The slot that is not active meets nothing the commit needs. */
  lemma InactiveSlotApart(c: ShardCodec, g: Geometry, img: seq<byte>, com: Commit, i: nat, n: nat)
    requires g.Valid() && Holds(c, g, img, com) && i < NUM_SHARDS && n <= g.SlotSize()
    ensures com.sb.slots[i].active <= 1
    ensures
      var off := g.SlotOffset(1 - com.sb.slots[i].active, i);
      g.DataEnd() <= off && off + n <= g.deviceSize && Apart(g, com, off, off + n)
  {
    hide SuperHeld, IndexStored;
    ActiveSlotInBounds(c, g, img, com, i);
    var slot := 1 - com.sb.slots[i].active;
    SlotsApart(g, slot, i, 0, 0);
    forall j | 0 <= j < NUM_SHARDS
      ensures
        var off, at := g.SlotOffset(slot, i), g.SlotOffset(com.sb.slots[j].active, j);
        off + n <= at || at + com.sb.slots[j].size <= off
    {
      ActiveSlotInBounds(c, g, img, com, j);
      SlotsApart(g, slot, i, com.sb.slots[j].active, j);
    }
  }

  // ---- The invariant -----------------------------------------------------

  /** Shards below `n`, and all shards not marked dirty, are on the device as they are in
      memory. */
  ghost predicate Clean(c: ShardCodec, g: Geometry, s: Sys, n: nat)
    requires Shaped(g, s)
  {
    forall i :: 0 <= i < NUM_SHARDS && (i < n || !s.dirty[i]) ==>
      ShardStored(c, g, s.disk.live, s.sb.slots[i], Shard(s.idx, i), i)
  }

  ghost predicate SlotsEncodable(slots: seq<SlotMeta>) {
    forall i :: 0 <= i < |slots| ==> Fits(SlotFields(slots[i]), SLOT_WIDTHS)
  }

  /** Before the first sync of a flush: the commit is untouched on the device; entries
      below `n` of dirty shards have been flipped in memory. */
  ghost predicate Early(c: ShardCodec, g: Geometry, m: Machine, n: nat)
    requires Shaped(g, m.sys)
  {
    && Holds(c, g, m.sys.disk.durable, m.com) && Holds(c, g, m.sys.disk.live, m.com)
    && Spared(g, m.sys.disk, m.com)
    && Clean(c, g, m.sys, n) && SlotsEncodable(m.sys.sb.slots)
    && m.sys.sb == m.com.sb.(slots := m.sys.sb.slots)
    && (forall i :: 0 <= i < NUM_SHARDS && (n <= i || !m.sys.dirty[i]) ==> m.sys.sb.slots[i] == m.com.sb.slots[i])
  }

  ghost predicate Common(c: ShardCodec, g: Geometry, m: Machine) {
    && c.Lawful() && Shaped(g, m.sys) && m.sys.disk.Valid() && |m.image| == g.deviceSize
    && SuperblockOk(m.com.sb, g)
    && Placed(m.sys.idx.files, g.DataEnd()) && Placed(m.com.idx.files, g.DataEnd())
  }

  /** An extent in continuous use has kept its bytes, in the cache and on stable storage. */
  ghost predicate Unharmed(d: Disk, image: seq<byte>, e: Extent) {
    && e.End() <= |d.live| == |d.durable| == |image| && d.Untouched(e.off, e.End())
    && d.durable[e.off..e.End()] == image[e.off..e.End()] && d.live[e.off..e.End()] == image[e.off..e.End()]
  }

  ghost predicate KeptUnharmed(m: Machine) {
    m.kept <= PlaceSet(m.sys.idx.files) && forall e :: e in m.kept ==> Unharmed(m.sys.disk, m.image, e)
  }

  ghost predicate PhaseOk(c: ShardCodec, g: Geometry, m: Machine)
    requires Shaped(g, m.sys)
  {
    var s, d := m.sys, m.sys.disk;
    match s.phase
    case Idle => Early(c, g, m, 0)
    case Writing(n) => n <= NUM_SHARDS && Early(c, g, m, n) && CanFlush(c, g, s)
    case ShardsSynced =>
      && d.pending == [] && d.live == d.durable && Holds(c, g, d.durable, m.com) && CanFlush(c, g, s)
      && s.sb == m.com.sb.(slots := s.sb.slots) && SlotsEncodable(s.sb.slots)
      && IndexStored(c, g, d.durable, Commit(s.sb, s.idx))
    case PrimaryPending =>
      && d.pending == [Write(0, CopyBytes(s.sb))] && |d.durable| == g.deviceSize
      && d.live == Patch(d.durable, 0, CopyBytes(s.sb))
      && Holds(c, g, d.durable, m.com) && SuperblockOk(s.sb, g) && s.sb.txnId == m.com.sb.txnId + 1
      && IndexStored(c, g, d.durable, Commit(s.sb, s.idx))
    case PrimaryDurable =>
      d.pending == [] && d.live == d.durable && m.com == Commit(s.sb, s.idx) && Holds(c, g, d.durable, m.com)
    case BackupPending =>
      && d.pending == [Write(SUPERBLOCK_SIZE, CopyBytes(s.sb))] && |d.durable| == g.deviceSize
      && d.live == Patch(d.durable, SUPERBLOCK_SIZE, CopyBytes(s.sb))
      && m.com == Commit(s.sb, s.idx) && Holds(c, g, d.durable, m.com)
  }

  ghost predicate Inv(c: ShardCodec, g: Geometry, m: Machine) {
    Common(c, g, m) && KeptUnharmed(m) && PhaseOk(c, g, m)
  }

  /** The commit that the flush in progress is about to make. */
  ghost function InProgress(m: Machine): Commit {
    Commit(m.sys.sb, m.sys.idx)
  }

  /** Between flushes, a shard that is not marked dirty reads back from the device exactly as
      it is in memory. */
  lemma UnmarkedShardsMatch(c: ShardCodec, g: Geometry, m: Machine, i: nat)
    requires Inv(c, g, m) && m.sys.phase.Idle? && i < NUM_SHARDS && !m.sys.dirty[i]
    ensures ReadShard(c, g, m.sys.disk.live, m.sys.sb.slots[i], i) == Ok(Shard(m.sys.idx, i))
  {
    hide Holds, Spared, SlotsEncodable, KeptUnharmed, SuperblockOk, Placed, Checksum, Shard;
    assert ShardStored(c, g, m.sys.disk.live, m.sys.sb.slots[i], Shard(m.sys.idx, i), i);
  }

  // ---- Crashes -----------------------------------------------------------

  /** A crash at any point leaves the last commit or, while the primary copy is being
      written, the new one; open loads it whole. */
  lemma CrashRecovers(c: ShardCodec, g: Geometry, m: Machine, img: seq<byte>)
    requires Inv(c, g, m) && AtomicCrash(g, m.sys.disk, img)
    ensures Recover(c, img) == Ok(m.com) || (m.sys.phase.PrimaryPending? && Recover(c, img) == Ok(InProgress(m)))
    ensures Recover(c, img).Ok? && Holds(c, g, img, Recover(c, img).value) && SuperblockOk(Recover(c, img).value.sb, g)
  {
    hide SuperHeld, IndexStored, Recover, Encodable, CopyBytes, CrashImage, Fits;
    var d := m.sys.disk;
    if m.sys.phase.Idle? || m.sys.phase.Writing? {
      CrashHolds(c, g, d, m.com, img);
      HoldsRecovers(c, g, img, m.com);
    } else if m.sys.phase.ShardsSynced? || m.sys.phase.PrimaryDurable? {
      CrashOfSynced(d, img);
      HoldsRecovers(c, g, img, m.com);
    } else if m.sys.phase.PrimaryPending? {
      PrimaryCrash(c, g, m, img);
    } else {
      BackupCrash(c, g, m, img);
    }
  }

  /** What a crash keeps when only one copy was being written. */
  lemma OneWriteCrash(d: Disk, img: seq<byte>, at: nat, data: seq<byte>)
    requires d.pending == [Write(at, data)] && CrashImage(d, img) && at + |data| <= |d.durable|
    requires AtomicAt(d, img, at, |data|)
    ensures img == d.durable || img == Patch(d.durable, at, data)
  {
    CrashSize(d, img);
    hide CrashImage;
    var n := |d.durable|;
    CrashKeepsUntouched(d, img, 0, at);
    CrashKeepsUntouched(d, img, at + |data|, n);
    InThree(img, at, at + |data|);
    InThree(d.durable, at, at + |data|);
  }

  lemma InThree(s: seq<byte>, a: nat, b: nat)
    requires a <= b <= |s|
    ensures s == s[0..a] + s[a..b] + s[b..|s|] && s[..a] == s[0..a] && s[b..] == s[b..|s|]
  {}

  lemma PrimaryCrash(c: ShardCodec, g: Geometry, m: Machine, img: seq<byte>)
    requires Inv(c, g, m) && AtomicCrash(g, m.sys.disk, img) && m.sys.phase.PrimaryPending?
    ensures Recover(c, img) == Ok(m.com) || Recover(c, img) == Ok(InProgress(m))
    ensures Holds(c, g, img, Recover(c, img).value) && SuperblockOk(Recover(c, img).value.sb, g)
  {
    hide SuperHeld, IndexStored, Recover, Encodable, CopyBytes, CrashImage, Fits;
    var d := m.sys.disk;
    OneWriteCrash(d, img, 0, CopyBytes(m.sys.sb));
    if img == d.durable {
      HoldsRecovers(c, g, img, m.com);
    } else {
      NewPrimaryHolds(c, g, m);
      HoldsRecovers(c, g, img, InProgress(m));
    }
  }

  /** Once the new primary copy is in place the device holds the new commit. */
  lemma NewPrimaryHolds(c: ShardCodec, g: Geometry, m: Machine)
    requires Inv(c, g, m) && m.sys.phase.PrimaryPending?
    ensures Holds(c, g, m.sys.disk.live, InProgress(m))
  {
    hide Encodable, CopyBytes, FromBytes, Fits, ShardStored;
    var d, sb := m.sys.disk, m.sys.sb;
    PatchInside(d.durable, 0, CopyBytes(sb));
    PatchOutside(d.durable, 0, CopyBytes(sb), 4096, 8192);
    forall i | 0 <= i < NUM_SHARDS
      ensures ShardStored(c, g, d.live, sb.slots[i], Shard(m.sys.idx, i), i)
    {
      assert ShardStored(c, g, d.durable, sb.slots[i], Shard(m.sys.idx, i), i);
      StoredAfterPatch(c, g, d.durable, 0, CopyBytes(sb), sb.slots[i], Shard(m.sys.idx, i), i);
    }
  }

  /** Writing the superblocks or the data region leaves the slots alone. */
  lemma StoredAfterPatch(c: ShardCodec, g: Geometry, img: seq<byte>, off: nat, data: seq<byte>, meta: SlotMeta, shard: Index, i: nat)
    requires g.Valid() && i < NUM_SHARDS && off + |data| <= |img| && off + |data| <= g.DataEnd()
    requires ShardStored(c, g, img, meta, shard, i)
    ensures ShardStored(c, g, Patch(img, off, data), meta, shard, i)
  {
    hide Checksum, Patch;
    SlotsApart(g, meta.active, i, 0, 0);
    var at := g.SlotOffset(meta.active, i);
    PatchOutside(img, off, data, at, at + meta.size);
  }

  lemma BackupCrash(c: ShardCodec, g: Geometry, m: Machine, img: seq<byte>)
    requires Inv(c, g, m) && AtomicCrash(g, m.sys.disk, img) && m.sys.phase.BackupPending?
    ensures Recover(c, img) == Ok(m.com)
    ensures Holds(c, g, img, m.com)
  {
    hide SuperHeld, IndexStored, Recover, Encodable, CopyBytes, CrashImage, Fits;
    var d := m.sys.disk;
    OneWriteCrash(d, img, SUPERBLOCK_SIZE, CopyBytes(m.sys.sb));
    NewBackupHolds(c, g, d.durable, m.com);
    HoldsRecovers(c, g, img, m.com);
  }

  lemma NewBackupHolds(c: ShardCodec, g: Geometry, img: seq<byte>, com: Commit)
    requires g.Valid() && Holds(c, g, img, com) && SuperblockOk(com.sb, g)
    ensures Holds(c, g, Patch(img, SUPERBLOCK_SIZE, CopyBytes(com.sb)), com)
  {
    hide Encodable, CopyBytes, FromBytes, Fits, ShardStored;
    var img' := Patch(img, SUPERBLOCK_SIZE, CopyBytes(com.sb));
    PatchInside(img, SUPERBLOCK_SIZE, CopyBytes(com.sb));
    PatchOutside(img, SUPERBLOCK_SIZE, CopyBytes(com.sb), 0, 4096);
    CopyRoundTrip(com.sb);
    forall i | 0 <= i < NUM_SHARDS
      ensures ShardStored(c, g, img', com.sb.slots[i], Shard(com.idx, i), i)
    {
      assert ShardStored(c, g, img, com.sb.slots[i], Shard(com.idx, i), i);
      StoredAfterPatch(c, g, img, SUPERBLOCK_SIZE, CopyBytes(com.sb), com.sb.slots[i], Shard(com.idx, i), i);
    }
  }

  // ---- Flush steps keep the invariant ------------------------------------

  lemma EarlyActive(c: ShardCodec, g: Geometry, m: Machine, n: nat, i: nat)
    requires Common(c, g, m) && Early(c, g, m, n) && i < NUM_SHARDS
    ensures m.sys.sb.slots[i].active <= 1
  {
    hide SuperHeld, Encodable, Fits, Placed, Checksum;
    if n <= i || !m.sys.dirty[i] {
      ActiveSlotInBounds(c, g, m.sys.disk.durable, m.com, i);
    } else {
      assert ShardStored(c, g, m.sys.disk.live, m.sys.sb.slots[i], Shard(m.sys.idx, i), i);
    }
  }

  lemma StoredActive(c: ShardCodec, g: Geometry, img: seq<byte>, com: Commit)
    requires g.Valid() && IndexStored(c, g, img, com)
    ensures forall i :: 0 <= i < NUM_SHARDS ==> com.sb.slots[i].active <= 1
  {
    hide Checksum;
    forall i | 0 <= i < NUM_SHARDS
      ensures com.sb.slots[i].active <= 1
    {
      assert ShardStored(c, g, img, com.sb.slots[i], Shard(com.idx, i), i);
    }
  }

  /** In every reachable state the next step of a flush can be taken. */
  lemma InvSteppable(c: ShardCodec, g: Geometry, m: Machine)
    requires Inv(c, g, m) && (m.sys.phase.Idle? ==> CanFlush(c, g, m.sys))
    ensures Steppable(c, g, m.sys)
  {
    hide SuperHeld, IndexStored, Encodable, Fits, Placed, CopyBytes, CanFlush, Clean, Spared;
    var s, d := m.sys, m.sys.disk;
    match s.phase
    case Idle =>
      forall i | 0 <= i < NUM_SHARDS ensures s.sb.slots[i].active <= 1 { EarlyActive(c, g, m, 0, i); }
    case Writing(n) =>
      forall i | 0 <= i < NUM_SHARDS ensures s.sb.slots[i].active <= 1 { EarlyActive(c, g, m, n, i); }
    case ShardsSynced => StoredActive(c, g, d.durable, Commit(s.sb, s.idx));
    case PrimaryPending => StoredActive(c, g, d.durable, Commit(s.sb, s.idx));
    case PrimaryDurable => StoredActive(c, g, d.durable, m.com);
    case BackupPending => StoredActive(c, g, d.durable, m.com);
  }

  /** A write behind the data region does not harm any extent in it. */
  lemma WriteLeavesKept(g: Geometry, m: Machine, off: nat, data: seq<byte>)
    requires g.Valid() && KeptUnharmed(m) && Placed(m.sys.idx.files, g.DataEnd())
    requires off + |data| <= |m.sys.disk.live| && (g.DataEnd() <= off || off + |data| <= DATA_START)
    ensures KeptUnharmed(m.(sys := m.sys.(disk := m.sys.disk.Written(off, data))))
  {
    hide Patch;
    var d := m.sys.disk;
    var d' := d.Written(off, data);
    forall e | e in m.kept
      ensures Unharmed(d', m.image, e)
    {
      assert Unharmed(d, m.image, e);
      var k :| k in m.sys.idx.files && m.sys.idx.files[k].Place() == e;
      assert DATA_START <= e.off && e.End() <= g.DataEnd();
      PatchOutside(d.live, off, data, e.off, e.End());
    }
  }

  lemma SyncLeavesKept(m: Machine)
    requires KeptUnharmed(m)
    ensures KeptUnharmed(m.(sys := m.sys.(disk := m.sys.disk.Synced())))
  {
    forall e | e in m.kept
      ensures Unharmed(m.sys.disk.Synced(), m.image, e)
    {
      assert Unharmed(m.sys.disk, m.image, e);
    }
  }

  lemma StoredBeside(c: ShardCodec, g: Geometry, img: seq<byte>, slot: nat, n: nat, data: seq<byte>, meta: SlotMeta, shard: Index, i: nat)
    requires g.Valid() && slot <= 1 && n < NUM_SHARDS && i < NUM_SHARDS && i != n && |data| <= g.SlotSize()
    requires g.SlotOffset(slot, n) + |data| <= |img| && ShardStored(c, g, img, meta, shard, i)
    ensures ShardStored(c, g, Patch(img, g.SlotOffset(slot, n), data), meta, shard, i)
  {
    hide Checksum, Patch;
    SlotsApart(g, slot, n, meta.active, i);
    var at := g.SlotOffset(meta.active, i);
    PatchOutside(img, g.SlotOffset(slot, n), data, at, at + meta.size);
  }

  lemma StoredHere(c: ShardCodec, g: Geometry, img: seq<byte>, slot: nat, n: nat, shard: Index)
    requires c.Lawful() && g.Valid() && slot <= 1 && n < NUM_SHARDS && |c.enc(shard)| <= g.SlotSize()
    requires g.SlotOffset(slot, n) + |c.enc(shard)| <= |img|
    ensures
      var bytes := c.enc(shard);
      ShardStored(c, g, Patch(img, g.SlotOffset(slot, n), bytes), SlotMeta(slot, |bytes|, Checksum(bytes)), shard, n)
  {
    hide Checksum, Patch;
    PatchInside(img, g.SlotOffset(slot, n), c.enc(shard));
  }

  lemma SlotFits(slot: nat, size: nat, crc: nat)
    requires slot <= 1 && size < U32_LIMIT && crc < U32_LIMIT
    ensures Fits(SlotFields(SlotMeta(slot, size, crc)), SLOT_WIDTHS)
  {
    assert Pow256(1) == 256 && Pow256(4) == U32_LIMIT;
  }

  lemma WriteShardEarly(c: ShardCodec, g: Geometry, m: Machine, n: nat)
    requires Common(c, g, m) && Early(c, g, m, n) && n < NUM_SHARDS && m.sys.dirty[n]
    requires |c.enc(Shard(m.sys.idx, n))| <= g.SlotSize() && |c.enc(Shard(m.sys.idx, n))| < U32_LIMIT
    ensures m.sys.sb.slots[n].active <= 1
    ensures
      var off := g.SlotOffset(1 - m.sys.sb.slots[n].active, n);
      g.DataEnd() <= off && off + |c.enc(Shard(m.sys.idx, n))| <= g.deviceSize
    ensures Early(c, g, m.(sys := WriteShard(c, g, m.sys, n)), n + 1)
  {
    hide SuperHeld, IndexStored, Encodable, Fits, Placed, Patch, Spared, Holds, ShardStored, Checksum;
    var s := m.sys;
    var bytes := c.enc(Shard(s.idx, n));
    InactiveSlotApart(c, g, s.disk.durable, m.com, n, |bytes|);
    var slot := 1 - s.sb.slots[n].active;
    var off := g.SlotOffset(slot, n);
    PatchHolds(c, g, s.disk.live, m.com, off, bytes);
    WriteSpares(g, s.disk, m.com, off, bytes);
    var s' := WriteShard(c, g, s, n);
    forall i | 0 <= i < NUM_SHARDS && (i < n + 1 || !s'.dirty[i])
      ensures ShardStored(c, g, s'.disk.live, s'.sb.slots[i], Shard(s'.idx, i), i)
    {
      if i == n {
        StoredHere(c, g, s.disk.live, slot, n, Shard(s.idx, n));
      } else {
        StoredBeside(c, g, s.disk.live, slot, n, bytes, s.sb.slots[i], Shard(s.idx, i), i);
      }
    }
    SlotFits(slot, |bytes|, Checksum(bytes));
  }

  lemma {:induction false} SlotSumBound(slots: seq<SlotMeta>)
    requires SlotsEncodable(slots)
    ensures SlotSum(slots) <= |slots| * U32_LIMIT
    decreases |slots|
  {
    if slots != [] {
      assert Fits(SlotFields(slots[0]), SLOT_WIDTHS);
      assert SlotFields(slots[0])[1] < Pow256(SLOT_WIDTHS[1]);
      assert Pow256(4) == U32_LIMIT;
      SlotSumBound(slots[1..]);
    }
  }

  lemma NextIsOk(g: Geometry, com: Superblock, sb: Superblock)
    requires SuperblockOk(com, g) && sb == com.(slots := sb.slots) && |sb.slots| == NUM_SHARDS
    requires SlotsEncodable(sb.slots) && sb.txnId + 1 < U64_LIMIT
    ensures SuperblockOk(NextSuperblock(sb), g)
  {
    SlotSumBound(sb.slots);
    hide SlotSum, Pow256;
    var next := NextSuperblock(sb);
    U64Width();
    assert Fits(Prefix(com), PREFIX_WIDTHS) && Fits(Middle(com), MIDDLE_WIDTHS) && Fits(Suffix(com), SUFFIX_WIDTHS);
    PrefixFits(com, next);
    MiddleFits(com, next);
    assert Suffix(next) == Suffix(com);
  }

  lemma U64Width()
    ensures Pow256(8) == U64_LIMIT
  {
    assert Pow256(4) == U32_LIMIT;
    assert Pow256(6) == 65536 * U32_LIMIT;
  }

  lemma PrefixFits(com: Superblock, next: Superblock)
    requires Fits(Prefix(com), PREFIX_WIDTHS)
    requires next.flags == com.flags && next.deviceSize == com.deviceSize && next.blockAlignment == com.blockAlignment
    requires next.indexRegionOffset == com.indexRegionOffset && next.indexChecksum == com.indexChecksum
    requires next.indexRegionSize < Pow256(8) && next.txnId < Pow256(8)
    ensures Fits(Prefix(next), PREFIX_WIDTHS)
  {
    hide Pow256;
    var a, b := Prefix(com), Prefix(next);
    forall i | 0 <= i < 9
      ensures b[i] < Pow256(PREFIX_WIDTHS[i])
    {
      assert a[i] < Pow256(PREFIX_WIDTHS[i]);
    }
  }

  lemma MiddleFits(com: Superblock, next: Superblock)
    requires Fits(Middle(com), MIDDLE_WIDTHS)
    requires next.prevIndexOffset == com.prevIndexOffset && next.prevIndexSize == com.prevIndexSize
    requires next.prevIndexChecksum == com.prevIndexChecksum && next.slotCapacity == com.slotCapacity
    requires |next.slots| == |com.slots| && next.prevTxnId < Pow256(8)
    ensures Fits(Middle(next), MIDDLE_WIDTHS)
  {
    hide Pow256;
    var a, b := Middle(com), Middle(next);
    forall i | 0 <= i < 6
      ensures b[i] < Pow256(MIDDLE_WIDTHS[i])
    {
      assert a[i] < Pow256(MIDDLE_WIDTHS[i]);
    }
  }

  lemma FromWriting(c: ShardCodec, g: Geometry, m: Machine)
    requires Inv(c, g, m) && m.sys.phase.Writing? && Steppable(c, g, m.sys)
    ensures Inv(c, g, FlushNext(c, g, m))
  {
    hide Holds, SuperblockOk, SlotsEncodable, Placed, Patch, Spared, CopyBytes, ShardStored, Unharmed;
    var n := m.sys.phase.next;
    var m' := FlushNext(c, g, m);
    CanStillFlush(c, g, m.sys, m'.sys);
    if n >= NUM_SHARDS {
      SyncLeavesKept(m);
      forall i | 0 <= i < NUM_SHARDS
        ensures ShardStored(c, g, m.sys.disk.live, InProgress(m).sb.slots[i], Shard(InProgress(m).idx, i), i)
      {}
      assert IndexStored(c, g, m'.sys.disk.durable, InProgress(m'));
    } else if m.sys.dirty[n] {
      WriteShardEarly(c, g, m, n);
      var off := g.SlotOffset(1 - m.sys.sb.slots[n].active, n);
      WriteLeavesKept(g, m, off, c.enc(Shard(m.sys.idx, n)));
      WrittenStaysValid(m.sys.disk, off, c.enc(Shard(m.sys.idx, n)));
    }
  }

  lemma WrittenStaysValid(d: Disk, off: nat, data: seq<byte>)
    requires d.Valid() && off + |data| <= |d.live|
    ensures d.Written(off, data).Valid()
  {}

  lemma FromShardsSynced(c: ShardCodec, g: Geometry, m: Machine)
    requires Inv(c, g, m) && m.sys.phase.ShardsSynced? && Steppable(c, g, m.sys)
    ensures Inv(c, g, FlushNext(c, g, m))
  {
    hide SuperHeld, IndexStored, Holds, SuperblockOk, Placed, Patch, CopyBytes, SlotSum, SlotsEncodable, Unharmed;
    assert m.sys.sb.txnId + 1 < U64_LIMIT;
    hide CanFlush;
    var sb := NextSuperblock(m.sys.sb);
    NextIsOk(g, m.com.sb, m.sys.sb);
    WriteLeavesKept(g, m, 0, CopyBytes(sb));
    WrittenStaysValid(m.sys.disk, 0, CopyBytes(sb));
    SameSlots(c, g, m.sys.disk.durable, InProgress(m), Commit(sb, m.sys.idx));
  }

  lemma SameSlots(c: ShardCodec, g: Geometry, img: seq<byte>, a: Commit, b: Commit)
    requires g.Valid() && IndexStored(c, g, img, a) && a.sb.slots == b.sb.slots && a.idx == b.idx
    ensures IndexStored(c, g, img, b)
  {
    hide ShardStored;
  }

  lemma FromPrimaryPending(c: ShardCodec, g: Geometry, m: Machine)
    requires Inv(c, g, m) && m.sys.phase.PrimaryPending? && Steppable(c, g, m.sys)
    ensures Inv(c, g, FlushNext(c, g, m))
  {
    hide SuperHeld, IndexStored, Holds, SuperblockOk, Placed, Patch, CopyBytes, Unharmed;
    NewPrimaryHolds(c, g, m);
    AllUnharmed(g, m.sys.disk.live, m.sys.idx.files);
  }

  /** On a synced device everything in use is as it was when it was synced. */
  lemma AllUnharmed(g: Geometry, img: seq<byte>, files: map<Key, ExtentInfo>)
    requires g.Valid() && |img| == g.deviceSize && Placed(files, g.DataEnd())
    ensures forall e :: e in PlaceSet(files) ==> Unharmed(Disk(img, img, []), img, e)
  {
    forall e | e in PlaceSet(files)
      ensures Unharmed(Disk(img, img, []), img, e)
    {
      var k :| k in files && files[k].Place() == e;
      assert e.End() <= g.DataEnd();
    }
  }

  lemma FromPrimaryDurable(c: ShardCodec, g: Geometry, m: Machine)
    requires Inv(c, g, m) && m.sys.phase.PrimaryDurable? && Steppable(c, g, m.sys)
    ensures Inv(c, g, FlushNext(c, g, m))
  {
    hide SuperHeld, IndexStored, Holds, SuperblockOk, Placed, Patch, CopyBytes, Unharmed;
    WriteLeavesKept(g, m, SUPERBLOCK_SIZE, CopyBytes(m.sys.sb));
    WrittenStaysValid(m.sys.disk, SUPERBLOCK_SIZE, CopyBytes(m.sys.sb));
  }

  lemma FromBackupPending(c: ShardCodec, g: Geometry, m: Machine)
    requires Inv(c, g, m) && m.sys.phase.BackupPending? && Steppable(c, g, m.sys)
    ensures Inv(c, g, FlushNext(c, g, m))
  {
    hide SuperHeld, IndexStored, Holds, Placed, Patch, CopyBytes, Unharmed, ShardStored, Fits;
    var m' := FlushNext(c, g, m);
    NewBackupHolds(c, g, m.sys.disk.durable, m.com);
    SyncLeavesKept(m);
    HeldShards(c, g, m'.sys.disk.live, m.com);
  }

  lemma HeldShards(c: ShardCodec, g: Geometry, img: seq<byte>, com: Commit)
    requires g.Valid() && Holds(c, g, img, com)
    ensures forall i :: 0 <= i < NUM_SHARDS ==> ShardStored(c, g, img, com.sb.slots[i], Shard(com.idx, i), i)
  {
    hide ShardStored, SuperHeld;
  }

  lemma CanStillFlush(c: ShardCodec, g: Geometry, s: Sys, s': Sys)
    requires CanFlush(c, g, s) && s'.idx == s.idx && s'.dirty == s.dirty && s'.sb.txnId == s.sb.txnId
    ensures CanFlush(c, g, s')
  {}

  lemma FromIdle(c: ShardCodec, g: Geometry, m: Machine)
    requires Inv(c, g, m) && m.sys.phase.Idle? && Steppable(c, g, m.sys)
    ensures Inv(c, g, FlushNext(c, g, m))
  {
    hide Holds, Spared, ShardStored, CanFlush, Placed, SuperblockOk, Unharmed, SlotsEncodable, CopyBytes;
    CanStillFlush(c, g, m.sys, FlushNext(c, g, m).sys);
  }

  /** Every step of a flush keeps the invariant. */
  lemma FlushKeepsInv(c: ShardCodec, g: Geometry, m: Machine)
    requires Inv(c, g, m) && (m.sys.phase.Idle? ==> CanFlush(c, g, m.sys))
    ensures Steppable(c, g, m.sys) && Inv(c, g, FlushNext(c, g, m))
  {
    hide Inv, Steppable, FlushNext;
    InvSteppable(c, g, m);
    match m.sys.phase
    case Idle => FromIdle(c, g, m);
    case Writing(n) => FromWriting(c, g, m);
    case ShardsSynced => FromShardsSynced(c, g, m);
    case PrimaryPending => FromPrimaryPending(c, g, m);
    case PrimaryDurable => FromPrimaryDurable(c, g, m);
    case BackupPending => FromBackupPending(c, g, m);
  }

  // ---- Store operations keep the invariant -------------------------------

  lemma FreeWritesOutside(d: Disk, d': Disk, files: map<Key, ExtentInfo>, dataEnd: nat, a: nat, b: nat)
    requires FreeWrites(d, d', files, dataEnd) && a <= b <= |d.live| && (b <= DATA_START || dataEnd <= a)
    ensures d'.live[a..b] == d.live[a..b]
    ensures d.Untouched(a, b) ==> d'.Untouched(a, b)
  {
    if d.Untouched(a, b) {
      forall k | 0 <= k < |d'.pending|
        ensures !d'.pending[k].Touches(a, b)
      {
        if k < |d.pending| {
          assert d'.pending[k] == d'.pending[..|d.pending|][k];
        } else {
          assert d'.pending[k].Within(DATA_START, dataEnd);
        }
      }
    }
  }

  /** A store operation leaves every extent it found in use as it was. */
  lemma FreeWritesSpare(d: Disk, d': Disk, files: map<Key, ExtentInfo>, dataEnd: nat, f: Key)
    requires FreeWrites(d, d', files, dataEnd) && f in files && files[f].Place().End() <= |d.live|
    ensures d'.live[files[f].offset..files[f].Place().End()] == d.live[files[f].offset..files[f].Place().End()]
    ensures d.Untouched(files[f].offset, files[f].Place().End()) ==> d'.Untouched(files[f].offset, files[f].Place().End())
  {
    var e := files[f].Place();
    forall i | e.off <= i < e.End()
      ensures d'.live[i] == d.live[i]
    {
      assert files[f].Place().Has(i);
      assert Used(files, i);
    }
    if d.Untouched(e.off, e.End()) {
      forall k | 0 <= k < |d'.pending|
        ensures !d'.pending[k].Touches(e.off, e.End())
      {
        if k < |d.pending| {
          assert d'.pending[k] == d'.pending[..|d.pending|][k];
        }
      }
    }
  }

  lemma MutateEarly(c: ShardCodec, g: Geometry, m: Machine, m': Machine)
    requires Common(c, g, m) && Early(c, g, m, 0) && MutateNext(g, m, m')
    ensures Shaped(g, m'.sys) && Early(c, g, m', 0)
  {
    hide SuperHeld, IndexStored, Encodable, Fits, Placed, Checksum, SlotsEncodable, FreeWrites, SuperblockOk;
    var d, d' := m.sys.disk, m'.sys.disk;
    FreeWritesSize(d, d', m.sys.idx.files, g.DataEnd());
    FreeWritesOutside(d, d', m.sys.idx.files, g.DataEnd(), 0, DATA_START);
    forall i | 0 <= i < NUM_SHARDS
      ensures
        var off := g.SlotOffset(m.com.sb.slots[i].active, i);
        off + m.com.sb.slots[i].size <= |d.live| &&
        d'.live[off..off + m.com.sb.slots[i].size] == d.live[off..off + m.com.sb.slots[i].size] &&
        d'.Untouched(off, off + m.com.sb.slots[i].size)
    {
      ActiveSlotInBounds(c, g, d.live, m.com, i);
      var off := g.SlotOffset(m.com.sb.slots[i].active, i);
      FreeWritesOutside(d, d', m.sys.idx.files, g.DataEnd(), off, off + m.com.sb.slots[i].size);
    }
    HoldsElsewhere(c, g, d.live, d'.live, m.com);
    forall i | 0 <= i < NUM_SHARDS && !m'.sys.dirty[i]
      ensures ShardStored(c, g, d'.live, m'.sys.sb.slots[i], Shard(m'.sys.idx, i), i)
    {
      assert ShardStored(c, g, d.live, m.sys.sb.slots[i], Shard(m.sys.idx, i), i);
    }
  }

  lemma FreeWritesSize(d: Disk, d': Disk, files: map<Key, ExtentInfo>, dataEnd: nat)
    requires FreeWrites(d, d', files, dataEnd)
    ensures d'.durable == d.durable && |d'.live| == |d.live|
    ensures d.Valid() && dataEnd <= |d.live| ==> d'.Valid()
  {
    if d.Valid() && dataEnd <= |d.live| {
      forall k | 0 <= k < |d'.pending|
        ensures d'.pending[k].Within(0, |d'.live|)
      {
        if k < |d.pending| {
          assert d'.pending[k] == d'.pending[..|d.pending|][k];
        }
      }
    }
  }

  lemma MutateKept(g: Geometry, m: Machine, m': Machine)
    requires g.Valid() && KeptUnharmed(m) && MutateNext(g, m, m')
    requires Placed(m.sys.idx.files, g.DataEnd()) && |m.sys.disk.live| == g.deviceSize
    ensures KeptUnharmed(m')
  {
    hide FreeWrites;
    FreeWritesSize(m.sys.disk, m'.sys.disk, m.sys.idx.files, g.DataEnd());
    forall e | e in m'.kept
      ensures Unharmed(m'.sys.disk, m'.image, e)
    {
      assert Unharmed(m.sys.disk, m.image, e);
      var f :| f in m.sys.idx.files && m.sys.idx.files[f].Place() == e;
      FreeWritesSpare(m.sys.disk, m'.sys.disk, m.sys.idx.files, g.DataEnd(), f);
    }
  }

  lemma MutateKeepsInv(c: ShardCodec, g: Geometry, m: Machine, m': Machine)
    requires Inv(c, g, m) && MutateNext(g, m, m')
    ensures Inv(c, g, m')
  {
    hide Early, KeptUnharmed, Placed, FreeWrites, SuperblockOk;
    MutateEarly(c, g, m, m');
    MutateKept(g, m, m');
    FreeWritesSize(m.sys.disk, m'.sys.disk, m.sys.idx.files, g.DataEnd());
  }

  // ---- Recovery re-establishes the invariant -----------------------------

  /** A crash in the middle of a store operation, after any of its writes, recovers the last
      commit: an operation may be taken as one step. */
  lemma MidOperationCrash(c: ShardCodec, g: Geometry, m: Machine, d: Disk, img: seq<byte>)
    requires Inv(c, g, m) && m.sys.phase.Idle? && FreeWrites(m.sys.disk, d, m.sys.idx.files, g.DataEnd())
    requires AtomicCrash(g, d, img)
    ensures Recover(c, img) == Ok(m.com)
  {
    hide PhaseOk, KeptUnharmed, SuperblockOk, Placed, FreeWrites, AtomicCrash, Recover;
    var m' := m.(sys := m.sys.(disk := d), kept := m.kept * PlaceSet(m.sys.idx.files));
    assert MutateNext(g, m, m');
    MutateKeepsInv(c, g, m, m');
    CrashRecovers(c, g, m', img);
  }

  lemma ScannedPlaced(idx: Index, idx': Index, dirty': seq<bool>, dataEnd: nat)
    requires OpenScan(idx, idx', dirty') && Placed(idx.files, dataEnd)
    ensures Placed(idx'.files, dataEnd)
  {
    hide WellPlaced, Shard;
  }

  lemma OpenedEarly(c: ShardCodec, g: Geometry, m: Machine)
    requires g.Valid() && |m.image| == g.deviceSize && Holds(c, g, m.image, m.com) && SuperblockOk(m.com.sb, g)
    requires m.sys == Sys(Disk(m.image, m.image, []), m.sys.idx, m.com.sb, m.sys.dirty, Idle)
    requires OpenScan(m.com.idx, m.sys.idx, m.sys.dirty)
    ensures Shaped(g, m.sys) && Early(c, g, m, 0)
  {
    hide SuperHeld, IndexStored, ShardStored, Encodable, SlotsEncodable, Shard;
    HeldShards(c, g, m.image, m.com);
    EncodableSlots(m.com.sb);
  }

  lemma EncodableSlots(sb: Superblock)
    requires Encodable(sb)
    ensures SlotsEncodable(sb.slots)
  {
    hide Fits;
  }

  /** Whatever a crash leaves, the store that open builds on it is in order again. */
  lemma CrashKeepsInv(c: ShardCodec, g: Geometry, m: Machine, m': Machine, img: seq<byte>)
    requires Inv(c, g, m) && CrashNext(c, g, m, m', img)
    ensures Inv(c, g, m')
  {
    hide CrashImage, AtomicAt, Recover, Holds, SuperblockOk, Placed, KeptUnharmed, Unharmed, OpenScan, Early, CopyBytes, IndexStored, Patch;
    CrashRecovers(c, g, m, img);
    OpenedEarly(c, g, m');
    ScannedPlaced(m'.com.idx, m'.sys.idx, m'.sys.dirty, g.DataEnd());
    AllUnharmed(g, img, m'.sys.idx.files);
    OpenedKept(m');
  }

  lemma OpenedKept(m: Machine)
    requires m.sys.disk == Disk(m.image, m.image, []) && m.kept == PlaceSet(m.sys.idx.files)
    requires forall e :: e in PlaceSet(m.sys.idx.files) ==> Unharmed(m.sys.disk, m.image, e)
    ensures KeptUnharmed(m)
  {}
}
