/** Whole runs: formatting, any mix of store operations, flush requests and power
    failures. */
module CrashRuns {
  import opened Crc32c
  import opened Base
  import opened Disks
  import opened Allocators
  import opened Indexes
  import opened Superblocks
  import opened Recovery
  import opened Protocol
  import opened CrashSafety

  /** A freshly formatted device: an empty index, committed. */
  ghost predicate Formatted(c: ShardCodec, g: Geometry, m: Machine) {
    && c.Lawful() && g.Valid() && |m.image| == g.deviceSize
    && SuperblockOk(m.com.sb, g) && m.com.idx == NOTHING && Holds(c, g, m.image, m.com)
    && m.sys == Sys(Disk(m.image, m.image, []), NOTHING, m.com.sb, seq(NUM_SHARDS, _ => false), Idle)
    && m.kept == {}
  }

  ghost predicate Next(c: ShardCodec, g: Geometry, m: Machine, m': Machine) {
    || MutateNext(g, m, m')
    || (Steppable(c, g, m.sys) && m' == FlushNext(c, g, m))
    || (exists img :: CrashNext(c, g, m, m', img))
  }

  ghost predicate Run(c: ShardCodec, g: Geometry, trace: seq<Machine>) {
    && trace != [] && Formatted(c, g, trace[0])
    && forall i :: 0 <= i < |trace| - 1 ==> Next(c, g, trace[i], trace[i + 1])
  }

  lemma FormattedInv(c: ShardCodec, g: Geometry, m: Machine)
    requires Formatted(c, g, m)
    ensures Inv(c, g, m)
  {
    hide Holds, SuperblockOk, Early, Unharmed;
    OpenedEarly(c, g, m);
  }

  lemma NextKeepsInv(c: ShardCodec, g: Geometry, m: Machine, m': Machine)
    requires Inv(c, g, m) && Next(c, g, m, m')
    ensures Inv(c, g, m')
  {
    hide Inv, MutateNext, FlushNext, CrashNext;
    if MutateNext(g, m, m') {
      MutateKeepsInv(c, g, m, m');
    } else if Steppable(c, g, m.sys) && m' == FlushNext(c, g, m) {
      FlushKeepsInv(c, g, m);
    } else {
      var img :| CrashNext(c, g, m, m', img);
      CrashKeepsInv(c, g, m, m', img);
    }
  }

  lemma {:induction false} RunKeepsInv(c: ShardCodec, g: Geometry, trace: seq<Machine>, i: nat)
    requires Run(c, g, trace) && i < |trace|
    ensures Inv(c, g, trace[i])
    decreases i
  {
    hide Inv, Next, Formatted;
    if i == 0 {
      FormattedInv(c, g, trace[0]);
    } else {
      RunKeepsInv(c, g, trace, i - 1);
      assert Next(c, g, trace[i - 1], trace[i - 1 + 1]);
      NextKeepsInv(c, g, trace[i - 1], trace[i]);
    }
  }

  /** At any point of any run, with any number of crashes behind it, a further crash lets
      open load exactly the last committed index, or that of the flush in progress. */
  lemma EveryCrashRecovers(c: ShardCodec, g: Geometry, trace: seq<Machine>, i: nat, img: seq<byte>)
    requires Run(c, g, trace) && i < |trace| && AtomicCrash(g, trace[i].sys.disk, img)
    ensures
      var m := trace[i];
      Recover(c, img) == Ok(m.com) || (m.sys.phase.PrimaryPending? && Recover(c, img) == Ok(InProgress(m)))
  {
    hide Inv, Run, AtomicCrash, Recover;
    RunKeepsInv(c, g, trace, i);
    CrashRecovers(c, g, trace[i], img);
  }

  /** The committed transaction id never decreases, not even across crashes. */
  lemma TxnNeverDecreases(c: ShardCodec, g: Geometry, m: Machine, m': Machine)
    requires Inv(c, g, m) && Next(c, g, m, m')
    ensures m.com.sb.txnId <= m'.com.sb.txnId
  {
    hide Common, KeptUnharmed, Holds, Early, SuperblockOk, IndexStored, CopyBytes, Recover, AtomicCrash, OpenScan;
    if exists img :: CrashNext(c, g, m, m', img) {
      var img :| CrashNext(c, g, m, m', img);
      CrashRecovers(c, g, m, img);
    }
  }

  /** Some run ends in `m`. */
  ghost predicate Reachable(c: ShardCodec, g: Geometry, m: Machine) {
    exists trace :: Run(c, g, trace) && trace[|trace| - 1] == m
  }

  lemma ReachedFormatted(c: ShardCodec, g: Geometry, m: Machine)
    requires Formatted(c, g, m)
    ensures Reachable(c, g, m)
  {
    hide Formatted, Next;
    assert Run(c, g, [m]);
  }

  lemma ReachedNext(c: ShardCodec, g: Geometry, m: Machine, m': Machine)
    requires Reachable(c, g, m) && Next(c, g, m, m')
    ensures Reachable(c, g, m')
  {
    hide Formatted, Next;
    var trace :| Run(c, g, trace) && trace[|trace| - 1] == m;
    assert Run(c, g, trace + [m']);
  }

  lemma ReachedInv(c: ShardCodec, g: Geometry, m: Machine)
    requires Reachable(c, g, m)
    ensures Inv(c, g, m)
  {
    hide Inv, Formatted, Next;
    var trace :| Run(c, g, trace) && trace[|trace| - 1] == m;
    RunKeepsInv(c, g, trace, |trace| - 1);
  }

  // ---- Completed flushes -------------------------------------------------

  /** The first `n` steps of a flush. */
  ghost function FlushRun(c: ShardCodec, g: Geometry, m: Machine, n: nat): Machine
    decreases n
  {
    if n == 0 then m
    else
      var p := FlushRun(c, g, m, n - 1);
      if Steppable(c, g, p.sys) then FlushNext(c, g, p) else p
  }

  /** Requests of one flush: enter, 256 shards, sync, primary, sync, backup, sync. */
  const FLUSH_STEPS: nat := 262

  function PhaseAt(n: nat): Phase {
    if n == 0 || n == 262 then Idle
    else if n <= 257 then Writing(n - 1)
    else if n == 258 then ShardsSynced
    else if n == 259 then PrimaryPending
    else if n == 260 then PrimaryDurable
    else BackupPending
  }

  /** Where a flush of `m` stands after `n` of its steps. */
  ghost predicate FlushPoint(m: Machine, p: Machine, n: nat) {
    && p.sys.phase == PhaseAt(n) && p.sys.idx == m.sys.idx
    && (n < 262 ==> p.sys.dirty == m.sys.dirty)
    && (n == 262 ==> p.sys.dirty == seq(NUM_SHARDS, _ => false))
    && p.sys.sb.txnId == m.sys.sb.txnId + (if n >= 259 then 1 else 0)
    && (n < 260 ==> p.com == m.com && p.image == m.image && p.kept == m.kept)
    && (n == 260 ==> p.image == p.sys.disk.durable)
    && (n >= 260 ==> p.com == Commit(p.sys.sb, m.sys.idx) && p.kept == PlaceSet(m.sys.idx.files))
  }

  lemma FlushAdvances(c: ShardCodec, g: Geometry, m: Machine, p: Machine, n: nat)
    requires Steppable(c, g, p.sys) && FlushPoint(m, p, n) && n < FLUSH_STEPS
    ensures FlushPoint(m, FlushNext(c, g, p), n + 1)
  {
    hide Steppable, CopyBytes, Checksum;
  }

  lemma {:induction false} FlushReaches(c: ShardCodec, g: Geometry, m: Machine, n: nat)
    requires Inv(c, g, m) && m.sys.phase.Idle? && CanFlush(c, g, m.sys) && n <= FLUSH_STEPS
    ensures Inv(c, g, FlushRun(c, g, m, n)) && FlushPoint(m, FlushRun(c, g, m, n), n)
    decreases n
  {
    hide Inv, Steppable, CanFlush, FlushNext;
    if n > 0 {
      FlushReaches(c, g, m, n - 1);
      var p := FlushRun(c, g, m, n - 1);
      assert p.sys.phase.Idle? ==> n == 1 && p == m;
      FlushKeepsInv(c, g, p);
      FlushAdvances(c, g, m, p, n - 1);
    }
  }

  lemma FlushRunStep(c: ShardCodec, g: Geometry, m: Machine, n: nat)
    requires Inv(c, g, m) && m.sys.phase.Idle? && CanFlush(c, g, m.sys) && n < FLUSH_STEPS
    ensures
      var p := FlushRun(c, g, m, n);
      && Inv(c, g, p) && FlushPoint(m, p, n) && Steppable(c, g, p.sys) && FlushRun(c, g, m, n + 1) == FlushNext(c, g, p)
      && Inv(c, g, FlushNext(c, g, p)) && FlushPoint(m, FlushNext(c, g, p), n + 1) && Shaped(g, p.sys)
  {
    hide Inv, Steppable, CanFlush, FlushNext;
    FlushReaches(c, g, m, n);
    FlushReaches(c, g, m, n + 1);
    var p := FlushRun(c, g, m, n);
    assert p.sys.phase.Idle? ==> n == 0 && p == m;
    InvSteppable(c, g, p);
    assert Shaped(g, p.sys) by { SteppableShape(c, g, p.sys); }
  }

  lemma SteppableShape(c: ShardCodec, g: Geometry, s: Sys)
    requires Steppable(c, g, s)
    ensures Shaped(g, s)
  {
    hide CanFlush;
  }

  lemma NoSteps(c: ShardCodec, g: Geometry, m: Machine)
    ensures FlushRun(c, g, m, 0) == m
  {}

  /** A completed flush commits exactly the index it was called on, leaves no shard dirty
      and advances the transaction id by one. */
  lemma FlushCommits(c: ShardCodec, g: Geometry, m: Machine)
    requires Inv(c, g, m) && m.sys.phase.Idle? && CanFlush(c, g, m.sys)
    ensures
      var f := FlushRun(c, g, m, FLUSH_STEPS);
      && Inv(c, g, f) && f.sys.phase.Idle? && f.sys.idx == m.sys.idx
      && f.com == Commit(f.sys.sb, m.sys.idx) && f.sys.sb.txnId == m.sys.sb.txnId + 1
      && f.sys.dirty == seq(NUM_SHARDS, _ => false) && f.kept == PlaceSet(m.sys.idx.files)
      && SlotsFlipped(c, m.sys, f.sys.sb.slots, NUM_SHARDS)
      && f.sys.sb == m.sys.sb.(slots := f.sys.sb.slots, prevTxnId := m.sys.sb.txnId, txnId := m.sys.sb.txnId + 1,
                               indexRegionSize := SlotSum(f.sys.sb.slots))
  {
    hide Inv, CanFlush, FlushRun, SlotsFlipped;
    FlushReaches(c, g, m, FLUSH_STEPS);
    FlushRecords(c, g, m, FLUSH_STEPS);
  }

  /** Below `n` the entries of the dirty shards of `s` name the other slot, with length and
      checksum of what was written there; all others are as they were. */
  ghost predicate SlotsFlipped(c: ShardCodec, s: Sys, slots: seq<SlotMeta>, n: nat) {
    && |slots| == |s.sb.slots| == |s.dirty|
    && forall i :: 0 <= i < |slots| ==>
         if i < n && s.dirty[i]
         then slots[i].active + s.sb.slots[i].active == 1 && slots[i].size == |c.enc(Shard(s.idx, i))|
              && slots[i].crc == Checksum(c.enc(Shard(s.idx, i)))
         else slots[i] == s.sb.slots[i]
  }

  /** How many shards a flush has dealt with after `n` steps. */
  function ShardsDone(n: nat): nat {
    Min(if n == 0 then 0 else n - 1, NUM_SHARDS)
  }

  /** What the superblock holds after `n` steps of a flush of `s`. */
  ghost predicate Recorded(c: ShardCodec, s: Sys, sb: Superblock, n: nat) {
    && SlotsFlipped(c, s, sb.slots, ShardsDone(n))
    && sb == if n < 259 then s.sb.(slots := sb.slots)
             else s.sb.(slots := sb.slots, prevTxnId := s.sb.txnId, txnId := s.sb.txnId + 1, indexRegionSize := SlotSum(sb.slots))
  }

  lemma {:induction false} FlushRecords(c: ShardCodec, g: Geometry, m: Machine, n: nat)
    requires Inv(c, g, m) && m.sys.phase.Idle? && CanFlush(c, g, m.sys) && n <= FLUSH_STEPS
    ensures Recorded(c, m.sys, FlushRun(c, g, m, n).sys.sb, n)
    decreases n
  {
    hide Inv, Steppable, CanFlush, FlushNext, FlushRun, Recorded;
    if n == 0 {
      NoSteps(c, g, m);
      FlushRunStep(c, g, m, 0);
      assert Recorded(c, m.sys, m.sys.sb, 0) by { NothingRecorded(c, g, m.sys); }
    } else {
      FlushRecords(c, g, m, n - 1);
      FlushRunStep(c, g, m, n - 1);
      RecordsNext(c, g, m, FlushRun(c, g, m, n - 1), n - 1);
    }
  }

  lemma NothingRecorded(c: ShardCodec, g: Geometry, s: Sys)
    requires Shaped(g, s)
    ensures Recorded(c, s, s.sb, 0)
  {
    hide Checksum;
  }

  lemma RecordsNext(c: ShardCodec, g: Geometry, m: Machine, p: Machine, n: nat)
    requires Steppable(c, g, p.sys) && FlushPoint(m, p, n) && n < FLUSH_STEPS && Recorded(c, m.sys, p.sys.sb, n)
    ensures Recorded(c, m.sys, FlushNext(c, g, p).sys.sb, n + 1)
  {
    hide CopyBytes, Checksum, CanFlush, Patch, Shard;
  }

  /** The recorded total is the sum of the slot lengths, whichever end one counts from. */
  lemma {:induction false} SlotSumNext(slots: seq<SlotMeta>, last: SlotMeta)
    ensures SlotSum([]) == 0 && SlotSum(slots + [last]) == SlotSum(slots) + last.size
    decreases |slots|
  {
    if slots == [] {
      assert [] + [last] == [last];
    } else {
      assert (slots + [last])[1..] == slots[1..] + [last];
      SlotSumNext(slots[1..], last);
    }
  }

  lemma {:induction false} ReachedByFlush(c: ShardCodec, g: Geometry, m: Machine, n: nat)
    requires Reachable(c, g, m) && m.sys.phase.Idle? && CanFlush(c, g, m.sys) && n <= FLUSH_STEPS
    ensures Reachable(c, g, FlushRun(c, g, m, n))
    decreases n
  {
    hide Inv, Reachable, FlushRun, Steppable, CanFlush, FlushNext;
    if n == 0 {
      NoSteps(c, g, m);
    } else {
      ReachedByFlush(c, g, m, n - 1);
      ReachedInv(c, g, m);
      FlushRunStep(c, g, m, n - 1);
      ReachedNext(c, g, FlushRun(c, g, m, n - 1), FlushRun(c, g, m, n));
    }
  }

  // ---- Survival of flushed objects ---------------------------------------

  /** A step that neither commits nor crashes. */
  ghost predicate Uneventful(c: ShardCodec, g: Geometry, m: Machine, m': Machine) {
    MutateNext(g, m, m') || (Steppable(c, g, m.sys) && !m.sys.phase.PrimaryPending? && m' == FlushNext(c, g, m))
  }

  /** Uneventful steps through states that all have `e` in use. */
  ghost predicate InUseThroughout(c: ShardCodec, g: Geometry, trace: seq<Machine>, e: Extent) {
    && trace != []
    && (forall i :: 0 <= i < |trace| - 1 ==> Uneventful(c, g, trace[i], trace[i + 1]))
    && (forall i :: 0 <= i < |trace| ==> e in PlaceSet(trace[i].sys.idx.files))
  }

  lemma {:induction false} KeptThroughout(c: ShardCodec, g: Geometry, trace: seq<Machine>, e: Extent, i: nat)
    requires InUseThroughout(c, g, trace, e) && Inv(c, g, trace[0]) && e in trace[0].kept && i < |trace|
    ensures Inv(c, g, trace[i]) && e in trace[i].kept
    ensures trace[i].com == trace[0].com && trace[i].image == trace[0].image
    decreases i
  {
    hide Inv, Steppable, MutateStep;
    if i > 0 {
      KeptThroughout(c, g, trace, e, i - 1);
      assert Uneventful(c, g, trace[i - 1], trace[i - 1 + 1]);
      assert e in PlaceSet(trace[i].sys.idx.files);
      NextKeepsInv(c, g, trace[i - 1], trace[i]);
    }
  }

  /** An object of the last flush whose extent has been in use ever since survives any
      crash with exactly its flushed bytes, however much has been written meanwhile. */
  lemma FlushedObjectSurvives(c: ShardCodec, g: Geometry, trace: seq<Machine>, k: Key, img: seq<byte>)
    requires trace != [] && Inv(c, g, trace[0]) && k in trace[0].com.idx.files
    requires
      var e := trace[0].com.idx.files[k].Place();
      e in trace[0].kept && InUseThroughout(c, g, trace, e)
    requires AtomicCrash(g, trace[|trace| - 1].sys.disk, img)
    ensures
      var e, m := trace[0].com.idx.files[k].Place(), trace[|trace| - 1];
      && e.End() <= |img| == |trace[0].image| && img[e.off..e.End()] == trace[0].image[e.off..e.End()]
      && (Recover(c, img) == Ok(trace[0].com) || (m.sys.phase.PrimaryPending? && Recover(c, img) == Ok(InProgress(m))))
  {
    hide PhaseOk, Recover, CrashImage;
    var e, m := trace[0].com.idx.files[k].Place(), trace[|trace| - 1];
    KeptThroughout(c, g, trace, e, |trace| - 1);
    CrashRecovers(c, g, m, img);
    assert Unharmed(m.sys.disk, m.image, e);
    CrashKeepsUntouched(m.sys.disk, img, e.off, e.End());
  }
}
