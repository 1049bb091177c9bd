/** The block device: what a reader sees, what has reached stable storage, and what a
    power failure can leave behind. */
module Disks {
  import opened Crc32c
  import opened Base
  import opened Seqs

  datatype Write = Write(off: nat, data: seq<byte>) {
    predicate Touches(a: nat, b: nat) {
      off < b && a < off + |data|
    }

    predicate Within(a: nat, b: nat) {
      a <= off && off + |data| <= b
    }
  }

  /** `live` is what reads return; `durable` is what the last sync left on stable storage;
      `pending` are the writes issued since. */
  datatype Disk = Disk(durable: seq<byte>, live: seq<byte>, pending: seq<Write>) {
    ghost predicate Valid() {
      |durable| == |live| && forall k :: 0 <= k < |pending| ==> pending[k].Within(0, |live|)
    }

    function Written(off: nat, data: seq<byte>): Disk
      requires off + |data| <= |live|
    {
      Disk(durable, Patch(live, off, data), pending + [Write(off, data)])
    }

    function Synced(): Disk {
      Disk(live, live, [])
    }

    ghost predicate Untouched(a: nat, b: nat) {
      forall k :: 0 <= k < |pending| ==> !pending[k].Touches(a, b)
    }
  }

  /** A byte that position `i` may hold after a power failure. */
  ghost predicate Possible(d: Disk, i: nat, b: byte)
    requires i < |d.durable|
  {
    b == d.durable[i] ||
    exists k :: 0 <= k < |d.pending| && d.pending[k].Touches(i, i + 1) && b == d.pending[k].data[i - d.pending[k].off]
  }

  /** Every byte independently survives as its durable value or as the value some pending
      write gave it: lost, reordered and torn writes are all included. */
  ghost predicate CrashImage(d: Disk, img: seq<byte>) {
    |img| == |d.durable| && forall i :: 0 <= i < |img| ==> Possible(d, i, img[i])
  }

  /** The device writes `[a, a + n)` all-or-nothing. */
  ghost predicate AtomicAt(d: Disk, img: seq<byte>, a: nat, n: nat)
    requires |img| == |d.durable| && a + n <= |img|
  {
    img[a..a + n] == d.durable[a..a + n] ||
    exists k :: 0 <= k < |d.pending| && d.pending[k].off == a && |d.pending[k].data| == n
                && img[a..a + n] == d.pending[k].data
  }

  lemma CrashKeepsUntouched(d: Disk, img: seq<byte>, a: nat, b: nat)
    requires CrashImage(d, img) && a <= b <= |img| && d.Untouched(a, b)
    ensures img[a..b] == d.durable[a..b]
  {
    forall i | a <= i < b
      ensures img[i] == d.durable[i]
    {
      assert Possible(d, i, img[i]);
    }
  }

  lemma CrashOfSynced(d: Disk, img: seq<byte>)
    requires CrashImage(d, img) && d.pending == []
    ensures img == d.durable
  {
    CrashKeepsUntouched(d, img, 0, |img|);
  }

  /** `d'` is `d` after some writes confined to `[a, b)`, with no sync between. */
  ghost predicate WroteWithin(d: Disk, d': Disk, a: nat, b: nat) {
    && d'.durable == d.durable
    && |d'.live| == |d.live|
    && (forall i :: 0 <= i < |d.live| && !(a <= i < b) ==> d'.live[i] == d.live[i])
    && |d.pending| <= |d'.pending| && d'.pending[..|d.pending|] == d.pending
    && (forall k :: |d.pending| <= k < |d'.pending| ==> d'.pending[k].Within(a, b))
  }

  lemma WroteWithinStep(d: Disk, off: nat, data: seq<byte>, a: nat, b: nat)
    requires a <= off && off + |data| <= b && off + |data| <= |d.live|
    ensures WroteWithin(d, d.Written(off, data), a, b)
  {}

  lemma WroteNothing(d: Disk, a: nat, b: nat)
    ensures WroteWithin(d, d, a, b)
  {}

  lemma WroteSize(d: Disk, d': Disk, a: nat, b: nat)
    requires WroteWithin(d, d', a, b)
    ensures |d'.live| == |d.live| && d'.durable == d.durable
  {}

  lemma WroteWithinTrans(d: Disk, d': Disk, d'': Disk, a: nat, b: nat)
    requires WroteWithin(d, d', a, b) && WroteWithin(d', d'', a, b)
    ensures WroteWithin(d, d'', a, b)
  {
    var n, m := |d.pending|, |d'.pending|;
    SliceSlice(d''.pending, 0, m, 0, n);
    forall k | n <= k < |d''.pending|
      ensures d''.pending[k].Within(a, b)
    {
      if k < m {
        assert d''.pending[k] == d''.pending[..m][k];
      }
    }
  }

  /** Confined writes followed by writes confined further. */
  lemma WroteMore(d: Disk, d': Disk, d'': Disk, lo: nat, hi: nat, a: nat, b: nat)
    requires WroteWithin(d, d', a, b) && WroteWithin(d', d'', lo, hi) && a <= lo && hi <= b
    ensures WroteWithin(d, d'', a, b)
  {
    WroteWithinWiden(d', d'', lo, hi, a, b);
    WroteWithinTrans(d, d', d'', a, b);
  }

  lemma WroteWithinWiden(d: Disk, d': Disk, a: nat, b: nat, a': nat, b': nat)
    requires WroteWithin(d, d', a, b) && a' <= a && b <= b'
    ensures WroteWithin(d, d', a', b')
  {}

  lemma WroteOutside(d: Disk, d': Disk, a: nat, b: nat, lo: nat, hi: nat)
    requires WroteWithin(d, d', a, b) && lo <= hi <= |d.live| && (hi <= a || b <= lo)
    ensures d'.live[lo..hi] == d.live[lo..hi]
  {}

  /** How one request to the device ends: a failed write may have reached any prefix. */
  datatype Outcome = Success | Failure(written: nat)

  /** An open device. The outcome of each write and sync is decided outside the model. */
  class Device {
    const plan: nat -> Outcome
    var ops: nat
    var disk: Disk

    constructor (image: seq<byte>, plan: nat -> Outcome)
      ensures disk == Disk(image, image, []) && disk.Valid() && this.plan == plan
    {
      this.plan := plan;
      ops := 0;
      disk := Disk(image, image, []);
    }

    /** No request ever fails. */
    ghost predicate Reliable() {
      forall n: nat :: plan(n).Success?
    }

    method Pwrite(off: nat, data: seq<byte>) returns (ok: bool)
      requires off + |data| <= |disk.live|
      modifies this
      ensures ok ==> disk == old(disk).Written(off, data)
      ensures exists n: nat :: n <= |data| && disk == old(disk).Written(off, data[..n])
      ensures WroteWithin(old(disk), disk, off, off + |data|)
      ensures Reliable() ==> ok
    {
      hide WroteWithin, Patch;
      var outcome := plan(ops);
      ops := ops + 1;
      ok := outcome.Success?;
      var n := if ok then |data| else Min(outcome.written, |data|);
      assert data[..|data|] == data;
      WroteWithinStep(disk, off, data[..n], off, off + |data|);
      disk := disk.Written(off, data[..n]);
    }

    method Pread(off: nat, len: nat) returns (data: seq<byte>)
      requires off + len <= |disk.live|
      ensures data == disk.live[off..off + len]
    {
      data := disk.live[off..off + len];
    }

    method Sync() returns (ok: bool)
      modifies this
      ensures disk == if ok then old(disk).Synced() else old(disk)
      ensures Reliable() ==> ok
    {
      ok := plan(ops).Success?;
      ops := ops + 1;
      if ok {
        disk := disk.Synced();
      }
    }
  }
}
