/** The device heat map: bytes used, free and dead in each of a number of equal chunks. */
module HeatMap {
  import opened Base
  import opened Allocators
  import opened Indexes
  import opened Layouts
  import opened Recovery

  // ---- Overlaps ----------------------------------------------------------

  /** Bytes of `e` inside `[lo, hi)`. */
  function Overlap(e: Extent, lo: nat, hi: nat): nat {
    SaturatingSub(Min(e.End(), hi), Max(e.off, lo))
  }

  ghost function Interval(first: nat, limit: nat): set<int> {
    if limit <= first then {} else Interval(first, limit - 1) + {limit - 1}
  }

  lemma {:induction false} InInterval(first: nat, limit: nat, x: int)
    ensures x in Interval(first, limit) <==> first <= x < limit
    decreases limit
  {
    if first < limit {
      InInterval(first, limit - 1, x);
    }
  }

  /** It counts the addresses that lie in both. */
  lemma OverlapCounts(e: Extent, lo: nat, hi: nat)
    ensures Overlap(e, lo, hi) == |Interval(e.off, e.End()) * Interval(lo, hi)|
  {
    var first, limit := Max(e.off, lo), Min(e.End(), hi);
    IntervalSize(first, limit);
    forall x
      ensures x in Interval(e.off, e.End()) * Interval(lo, hi) <==> x in Interval(first, limit)
    {
      InInterval(e.off, e.End(), x);
      InInterval(lo, hi, x);
      InInterval(first, limit, x);
    }
    assert Interval(e.off, e.End()) * Interval(lo, hi) == Interval(first, limit);
  }

  lemma {:induction false} IntervalSize(first: nat, limit: nat)
    ensures |Interval(first, limit)| == SaturatingSub(limit, first)
    decreases limit
  {
    if first < limit {
      IntervalSize(first, limit - 1);
      InInterval(first, limit - 1, limit - 1);
    }
  }

  function Overlaps(list: seq<Extent>, lo: nat, hi: nat): nat {
    if list == [] then 0 else Overlaps(list[..|list| - 1], lo, hi) + Overlap(list[|list| - 1], lo, hi)
  }

  lemma OverlapsNext(list: seq<Extent>, i: nat, lo: nat, hi: nat)
    requires i < |list|
    ensures Overlaps(list[..i + 1], lo, hi) == Overlaps(list[..i], lo, hi) + Overlap(list[i], lo, hi)
  {
    assert list[..i + 1][..i] == list[..i];
  }

  lemma {:induction false} OverlapsConcat(a: seq<Extent>, b: seq<Extent>, lo: nat, hi: nat)
    ensures Overlaps(a + b, lo, hi) == Overlaps(a, lo, hi) + Overlaps(b, lo, hi)
    decreases |b|
  {
    if b == [] {
      assert a + b == a;
    } else {
      var n := |b| - 1;
      OverlapsConcat(a, b[..n], lo, hi);
      assert (a + b)[..|a + b| - 1] == a + b[..n];
    }
  }

  lemma OverlapsOne(e: Extent, lo: nat, hi: nat)
    ensures Overlaps([e], lo, hi) == Overlap(e, lo, hi)
  {
    assert [e][..0] == [];
  }

  /** Adjacent windows add up. */
  lemma {:induction false} OverlapsJoin(list: seq<Extent>, a: nat, b: nat, c: nat)
    requires a <= b <= c
    ensures Overlaps(list, a, b) + Overlaps(list, b, c) == Overlaps(list, a, c)
    decreases |list|
  {
    if list != [] {
      OverlapsJoin(list[..|list| - 1], a, b, c);
    }
  }

  /** In every window, extents and the gaps between them add up to the region they tile. */
  lemma {:induction false} Tiled(used: seq<Extent>, cursor: nat, end: nat, lo: nat, hi: nat)
    requires Between(used, cursor, end)
    ensures Overlaps(used, lo, hi) + Overlaps(Gaps(used, cursor, end), lo, hi) == Overlap(Extent(cursor, end - cursor), lo, hi)
    decreases |used|
  {
    hide Between, Overlap, Overlaps;
    BetweenRegion(used, cursor, end);
    if used == [] {
      GapOverlap(cursor, end, lo, hi);
      NoOverlaps(lo, hi);
    } else {
      var e, rest := used[0], used[1..];
      BetweenTail(used, cursor, end);
      Tiled(rest, e.End(), end, lo, hi);
      assert used == [e] + rest;
      OverlapsConcat([e], rest, lo, hi);
      OverlapsOne(e, lo, hi);
      OverlapsConcat(Gap(cursor, e.off), Gaps(rest, e.End(), end), lo, hi);
      GapOverlap(cursor, e.off, lo, hi);
      ThreeParts(cursor, e, end, lo, hi);
    }
  }

  lemma BetweenRegion(used: seq<Extent>, cursor: nat, end: nat)
    requires Between(used, cursor, end)
    ensures cursor <= end
  {}

  lemma NoOverlaps(lo: nat, hi: nat)
    ensures Overlaps([], lo, hi) == 0
  {}

  lemma GapOverlap(cursor: nat, to: nat, lo: nat, hi: nat)
    requires cursor <= to
    ensures Overlaps(Gap(cursor, to), lo, hi) == Overlap(Extent(cursor, to - cursor), lo, hi)
  {
    if cursor < to {
      OverlapsOne(Extent(cursor, to - cursor), lo, hi);
    }
  }

  lemma ThreeParts(cursor: nat, e: Extent, end: nat, lo: nat, hi: nat)
    requires cursor <= e.off && e.End() <= end
    ensures Overlap(Extent(cursor, e.off - cursor), lo, hi) + Overlap(e, lo, hi) + Overlap(Extent(e.End(), end - e.End()), lo, hi)
      == Overlap(Extent(cursor, end - cursor), lo, hi)
  {}

  lemma {:induction false} WholeOverlaps(list: seq<Extent>, lo: nat, hi: nat)
    requires forall i :: 0 <= i < |list| ==> lo <= list[i].off && list[i].End() <= hi
    ensures Overlaps(list, lo, hi) == Total(list)
    decreases |list|
  {
    if list != [] {
      var n := |list| - 1;
      WholeOverlaps(list[..n], lo, hi);
      assert list == list[..n] + [list[n]];
      TotalConcat(list[..n], [list[n]]);
      TotalOne(list[n]);
    }
  }

  // ---- Chunks ------------------------------------------------------------

  function ChunkSize(deviceSize: nat, chunks: nat): nat
    requires chunks > 0
  {
    (deviceSize + (chunks - 1)) / chunks
  }

  lemma Scaled(a: nat, b: nat, size: nat)
    requires a <= b
    ensures a * size <= b * size && (a + 1) * size == a * size + size
  {}

  lemma DivBounds(x: nat, size: nat)
    requires size > 0
    ensures x / size * size <= x < (x / size + 1) * size
  {}

  /** Chunks cover the device, and from a certain size on none starts behind its end. */
  lemma ChunksFit(deviceSize: nat, chunks: nat, c: nat)
    requires 0 < chunks && c < chunks && (chunks - 1) * (chunks - 1) <= deviceSize && deviceSize > 0
    ensures ChunkSize(deviceSize, chunks) > 0
    ensures deviceSize <= chunks * ChunkSize(deviceSize, chunks)
    ensures chunks * (ChunkSize(deviceSize, chunks) - 1) < deviceSize
    ensures c * ChunkSize(deviceSize, chunks) <= deviceSize
  {
    var size := ChunkSize(deviceSize, chunks);
    DivBounds(deviceSize + (chunks - 1), chunks);
    assert size * chunks <= deviceSize + (chunks - 1) < (size + 1) * chunks;
    assert (size + 1) * chunks == size * chunks + chunks;
    Scaled(c, chunks - 1, size);
    assert (chunks - 1) * size <= deviceSize by { LastStart(deviceSize, chunks, size); }
  }

  lemma LastStart(d: nat, n: nat, size: nat)
    requires n > 0 && d <= size * n <= d + (n - 1) && (n - 1) * (n - 1) <= d
    ensures (n - 1) * size <= d
  {
    SquareBelow(n);
    if size <= n - 2 {
      Scaled(size, n - 2, n);
    }
    assert (n - 1) * size == size * n - size;
  }

  lemma SquareBelow(n: nat)
    ensures (n - 2) * n == (n - 1) * (n - 1) - 1
  {}

  function ChunkOf(x: nat, size: nat): nat
    requires size > 0
  {
    x / size
  }

  function StartOf(c: nat, size: nat): nat {
    c * size
  }

  /** Bytes of `e` in chunk `c`. */
  function InChunk(e: Extent, c: nat, size: nat): nat {
    Overlap(e, StartOf(c, size), StartOf(c, size) + size)
  }

  /** `c` is the chunk of `x` exactly when `x` lies in it. */
  lemma ChunkBounds(x: nat, size: nat, c: nat)
    requires size > 0
    ensures StartOf(c, size) <= x < StartOf(c, size) + size <==> c == ChunkOf(x, size)
    ensures c < ChunkOf(x, size) ==> StartOf(c, size) + size <= x
    ensures ChunkOf(x, size) < c ==> x < StartOf(c, size)
  {
    var k := ChunkOf(x, size);
    DivBounds(x, size);
    Scaled(k, k, size);
    Scaled(c, c, size);
    if c < k {
      Scaled(c + 1, k, size);
    } else if k < c {
      Scaled(k + 1, c, size);
    }
  }

  /** Chunks before the first and behind the last that an extent touches see nothing of it. */
  lemma OutsideChunks(e: Extent, size: nat, c: nat)
    requires size > 0 && e.len > 0 && (c < ChunkOf(e.off, size) || ChunkOf(e.End() - 1, size) < c)
    ensures InChunk(e, c, size) == 0
  {
    hide StartOf, ChunkOf;
    ChunkBounds(e.off, size, c);
    ChunkBounds(e.End() - 1, size, c);
  }

  /** The chunk an extent starts in sees some of it. */
  lemma FirstChunk(e: Extent, size: nat)
    requires size > 0 && e.len > 0
    ensures InChunk(e, ChunkOf(e.off, size), size) > 0 && ChunkOf(e.off, size) <= ChunkOf(e.End() - 1, size)
  {
    hide StartOf, ChunkOf;
    ChunkBounds(e.off, size, ChunkOf(e.off, size));
    ChunkBounds(e.End() - 1, size, ChunkOf(e.off, size));
  }

  /** Add one extent to the chunks it touches. */
  method TallyExtent(e: Extent, size: nat, bytes: array<nat>) returns (inFirst: bool)
    requires size > 0 && e.len > 0 && bytes.Length > 0
    modifies bytes
    ensures forall c :: 0 <= c < bytes.Length ==> bytes[c] == old(bytes[c]) + InChunk(e, c, size)
    ensures inFirst <==> ChunkOf(e.off, size) < bytes.Length
  {
    hide StartOf, ChunkOf;
    var start, end := e.off, e.off + e.len;
    var c0 := ChunkOf(start, size);
    var c1 := ChunkOf(end - 1, size);
    FirstChunk(e, size);
    inFirst := false;
    ghost var was := bytes[..];
    var c := c0;
    while c <= Min(c1, bytes.Length - 1)
      invariant c0 <= c && ((c <= c1 + 1 && c <= bytes.Length) || c == c0)
      invariant forall k :: 0 <= k < bytes.Length && c0 <= k < c ==> bytes[k] == was[k] + InChunk(e, k, size)
      invariant forall k :: 0 <= k < bytes.Length && !(c0 <= k < c) ==> bytes[k] == was[k]
      invariant inFirst <==> c > c0
    {
      var lo, hi := Max(start, StartOf(c, size)), Min(end, StartOf(c, size) + size);
      if lo < hi {
        bytes[c] := bytes[c] + (hi - lo);
        if c == c0 {
          inFirst := true;
        }
      }
      c := c + 1;
    }
    forall k | 0 <= k < bytes.Length
      ensures bytes[k] == was[k] + InChunk(e, k, size)
    {
      if !(c0 <= k < c) {
        OutsideChunks(e, size, k);
      }
    }
  }

  /** The overlaps of a list with chunk `c`. */
  function ChunkSum(list: seq<Extent>, c: nat, size: nat): nat {
    Overlaps(list, StartOf(c, size), StartOf(c, size) + size)
  }

  /** How many extents of `list` start in chunk `c`. */
  function Starting(list: seq<Extent>, c: nat, size: nat): nat
    requires size > 0
  {
    if list == [] then 0
    else Starting(list[..|list| - 1], c, size) + if ChunkOf(list[|list| - 1].off, size) == c then 1 else 0
  }

  lemma TallyNext(list: seq<Extent>, i: nat, c: nat, size: nat)
    requires i < |list| && size > 0
    ensures ChunkSum(list[..i + 1], c, size) == ChunkSum(list[..i], c, size) + InChunk(list[i], c, size)
    ensures Starting(list[..i + 1], c, size) == Starting(list[..i], c, size) + (if ChunkOf(list[i].off, size) == c then 1 else 0)
  {
    hide StartOf, ChunkOf;
    OverlapsNext(list, i, StartOf(c, size), StartOf(c, size) + size);
    assert list[..i + 1][..i] == list[..i];
  }

  /** Tally a list of extents; also count the extents by the chunk they start in. */
  method TallyAll(list: seq<Extent>, size: nat, bytes: array<nat>, counts: array<nat>)
    requires size > 0 && bytes.Length == counts.Length > 0 && bytes != counts
    requires forall i :: 0 <= i < |list| ==> list[i].len > 0
    requires forall c :: 0 <= c < bytes.Length ==> bytes[c] == counts[c] == 0
    modifies bytes, counts
    ensures forall c :: 0 <= c < bytes.Length ==> bytes[c] == ChunkSum(list, c, size)
    ensures forall c :: 0 <= c < counts.Length ==> counts[c] == Starting(list, c, size)
  {
    assert list[..0] == [];
    for i := 0 to |list|
      invariant forall c :: 0 <= c < bytes.Length ==> bytes[c] == ChunkSum(list[..i], c, size)
      invariant forall c :: 0 <= c < counts.Length ==> counts[c] == Starting(list[..i], c, size)
    {
      hide InChunk, ChunkOf, ChunkSum, Starting;
      var inFirst := TallyExtent(list[i], size, bytes);
      forall c | 0 <= c < bytes.Length
        ensures ChunkSum(list[..i + 1], c, size) == ChunkSum(list[..i], c, size) + InChunk(list[i], c, size)
        ensures Starting(list[..i + 1], c, size) == Starting(list[..i], c, size) + (if ChunkOf(list[i].off, size) == c then 1 else 0)
      {
        TallyNext(list, i, c, size);
      }
      if inFirst {
        counts[ChunkOf(list[i].off, size)] := counts[ChunkOf(list[i].off, size)] + 1;
      }
    }
    assert list[..|list|] == list;
  }

  // ---- The map -----------------------------------------------------------

  function Sum(s: seq<nat>): nat {
    if s == [] then 0 else Sum(s[..|s| - 1]) + s[|s| - 1]
  }

  /** Summing over the chunks gives the overlap with all of them together. */
  lemma {:induction false} SumOfChunks(s: seq<nat>, list: seq<Extent>, size: nat)
    requires forall c :: 0 <= c < |s| ==> s[c] == ChunkSum(list, c, size)
    ensures Sum(s) == Overlaps(list, 0, StartOf(|s|, size))
    decreases |s|
  {
    if s == [] {
      NoWindow(list);
    } else {
      var n := |s| - 1;
      SumOfChunks(s[..n], list, size);
      Scaled(n, n, size);
      OverlapsJoin(list, 0, StartOf(n, size), StartOf(n, size) + size);
    }
  }

  lemma {:induction false} NoWindow(list: seq<Extent>)
    ensures Overlaps(list, 0, 0) == 0
    decreases |list|
  {
    if list != [] {
      NoWindow(list[..|list| - 1]);
    }
  }

  /** Every extent is counted in exactly one chunk. */
  lemma {:induction false} SumOfCounts(s: seq<nat>, list: seq<Extent>, size: nat)
    requires size > 0 && (forall c :: 0 <= c < |s| ==> s[c] == Starting(list, c, size))
    requires forall i :: 0 <= i < |list| ==> list[i].off < StartOf(|s|, size)
    ensures Sum(s) == |list|
    decreases |list|
  {
    hide StartOf, ChunkOf;
    if list == [] {
      SumOfZeros(s);
    } else {
      var n := |list| - 1;
      var before := seq(|s|, c requires 0 <= c < |s| => Starting(list[..n], c, size));
      SumOfCounts(before, list[..n], size);
      var k := ChunkOf(list[n].off, size);
      ChunkBounds(list[n].off, size, |s|);
      assert s == before[k := before[k] + 1];
      SumOfUpdate(before, k);
    }
  }

  lemma {:induction false} SumOfZeros(s: seq<nat>)
    requires forall i :: 0 <= i < |s| ==> s[i] == 0
    ensures Sum(s) == 0
    decreases |s|
  {
    if s != [] {
      SumOfZeros(s[..|s| - 1]);
    }
  }

  lemma {:induction false} SumOfUpdate(s: seq<nat>, k: nat)
    requires k < |s|
    ensures Sum(s[k := s[k] + 1]) == Sum(s) + 1
    decreases |s|
  {
    var n := |s| - 1;
    var s' := s[k := s[k] + 1];
    if k < n {
      SumOfUpdate(s[..n], k);
      assert s'[..n] == s[..n][k := s[..n][k] + 1];
    } else {
      assert s'[..n] == s[..n];
    }
  }

  /** Bytes of the device in chunk `c`; the last chunk may be cut short. */
  function ChunkBytes(c: nat, size: nat, deviceSize: nat): nat
    requires StartOf(c, size) <= deviceSize
  {
    Min(StartOf(c, size) + size, deviceSize) - StartOf(c, size)
  }

  lemma {:induction false} SumOfClipped(s: seq<nat>, size: nat, deviceSize: nat)
    requires forall c :: 0 <= c < |s| ==> StartOf(c, size) <= deviceSize && s[c] == ChunkBytes(c, size, deviceSize)
    ensures Sum(s) == Min(StartOf(|s|, size), deviceSize)
    decreases |s|
  {
    if s != [] {
      var n := |s| - 1;
      SumOfClipped(s[..n], size, deviceSize);
      Scaled(n, n, size);
    }
  }

  lemma {:induction false} SumOfThree(a: seq<nat>, b: seq<nat>, d: seq<nat>, s: seq<nat>)
    requires |a| == |b| == |d| == |s| && forall c :: 0 <= c < |s| ==> a[c] + b[c] + d[c] == s[c]
    ensures Sum(a) + Sum(b) + Sum(d) == Sum(s)
    decreases |s|
  {
    if s != [] {
      var n := |s| - 1;
      SumOfThree(a[..n], b[..n], d[..n], s[..n]);
    }
  }

  datatype Heat = Heat(chunkSize: nat, fileCounts: seq<nat>, used: seq<nat>, free: seq<nat>, dead: seq<nat>)

  /** Requested number of chunks, clamped. */
  function Chunks(requested: nat): (n: nat)
    ensures 16 <= n <= 4096 && (16 <= requested <= 4096 ==> n == requested)
  {
    Max(Min(requested, 4096), 16)
  }

  /** All books balance. */
  ghost predicate Balanced(h: Heat, n: nat, g: Geometry, used: seq<Extent>)
    requires g.Valid() && n > 0 && h.chunkSize > 0
  {
    && |h.fileCounts| == |h.used| == |h.free| == |h.dead| == n
    && (forall c :: 0 <= c < n ==>
         StartOf(c, h.chunkSize) <= g.deviceSize &&
         h.used[c] + h.free[c] + h.dead[c] == ChunkBytes(c, h.chunkSize, g.deviceSize))
    && Sum(h.used) == Total(used) && Sum(h.used) + Sum(h.free) == g.DataEnd() - DATA_START
    && Sum(h.dead) == 2 * SUPERBLOCK_SIZE + 2 * g.slotCapacity
    && Sum(h.used) + Sum(h.free) + Sum(h.dead) == g.deviceSize
    && Sum(h.fileCounts) == |used|
    && h.chunkSize == ChunkSize(g.deviceSize, n)
    && (forall c :: 0 <= c < n ==> h.used[c] == ChunkSum(used, c, h.chunkSize))
    && (forall c :: 0 <= c < n ==> h.free[c] == ChunkSum(Gaps(used, DATA_START, g.DataEnd()), c, h.chunkSize))
    && (forall c :: 0 <= c < n ==> h.fileCounts[c] == Starting(used, c, h.chunkSize))
  }

  /** Chunk by chunk, what the extents and gaps leave over is dead space. */
  method DeadBytes(used: seq<nat>, free: seq<nat>, size: nat, deviceSize: nat) returns (dead: seq<nat>)
    requires |used| == |free| && forall c :: 0 <= c < |used| ==> StartOf(c, size) <= deviceSize
    ensures |dead| == |used|
    ensures forall c :: 0 <= c < |used| ==> dead[c] == SaturatingSub(ChunkBytes(c, size, deviceSize), used[c] + free[c])
  {
    dead := seq(|used|, c requires 0 <= c < |used| => SaturatingSub(ChunkBytes(c, size, deviceSize), used[c] + free[c]));
  }

  /** Extents in order between the region's ends, with the gaps between them. */
  lemma BalancedBooks(h: Heat, used: seq<Extent>, g: Geometry)
    requires g.Valid() && Between(used, DATA_START, g.DataEnd()) && h.chunkSize > 0
    requires |h.fileCounts| == |h.used| == |h.free| == |h.dead|
    requires forall c :: 0 <= c < |h.used| ==> StartOf(c, h.chunkSize) <= g.deviceSize
    requires g.deviceSize <= StartOf(|h.used|, h.chunkSize) && |h.used| > 0 && h.chunkSize == ChunkSize(g.deviceSize, |h.used|)
    requires forall c :: 0 <= c < |h.used| ==> h.used[c] == ChunkSum(used, c, h.chunkSize)
    requires forall c :: 0 <= c < |h.used| ==> h.free[c] == ChunkSum(Gaps(used, DATA_START, g.DataEnd()), c, h.chunkSize)
    requires forall c :: 0 <= c < |h.used| ==> h.fileCounts[c] == Starting(used, c, h.chunkSize)
    requires forall c :: 0 <= c < |h.used| ==>
      h.dead[c] == SaturatingSub(ChunkBytes(c, h.chunkSize, g.deviceSize), h.used[c] + h.free[c])
    ensures Balanced(h, |h.used|, g, used)
  {
    hide Between, Gaps, StartOf, Starting, Overlaps, Total;
    var n, size, free := |h.used|, h.chunkSize, Gaps(used, DATA_START, g.DataEnd());
    var region := Extent(DATA_START, g.DataEnd() - DATA_START);
    forall c | 0 <= c < n
      ensures h.used[c] + h.free[c] + h.dead[c] == ChunkBytes(c, size, g.deviceSize)
    {
      ChunkFits(used, g, c, size);
    }
    hide ChunkBytes, SaturatingSub;
    var whole := seq(n, c requires 0 <= c < n => ChunkBytes(c, size, g.deviceSize));
    SumOfThree(h.used, h.free, h.dead, whole);
    SumOfClipped(whole, size, g.deviceSize);
    SumOfChunks(h.used, used, size);
    SumOfChunks(h.free, free, size);
    Tiled(used, DATA_START, g.DataEnd(), 0, StartOf(n, size));
    BetweenEnds(used, DATA_START, g.DataEnd());
    WholeOverlaps(used, 0, StartOf(n, size));
    SumOfCounts(h.fileCounts, used, size);
  }

  /** Extents and gaps leave room in every chunk. */
  lemma ChunkFits(used: seq<Extent>, g: Geometry, c: nat, size: nat)
    requires g.Valid() && Between(used, DATA_START, g.DataEnd()) && StartOf(c, size) <= g.deviceSize
    ensures ChunkSum(used, c, size) + ChunkSum(Gaps(used, DATA_START, g.DataEnd()), c, size) <= ChunkBytes(c, size, g.deviceSize)
  {
    hide Between, Gaps, StartOf, Overlaps;
    Tiled(used, DATA_START, g.DataEnd(), StartOf(c, size), StartOf(c, size) + size);
  }

  lemma BetweenEnds(used: seq<Extent>, cursor: nat, end: nat)
    requires Between(used, cursor, end)
    ensures forall i :: 0 <= i < |used| ==> used[i].off < used[i].End() <= end
  {
    assert forall i :: 0 <= i < |used| ==> used[i].len > 0;
  }

  lemma {:induction false} GapsNotEmpty(used: seq<Extent>, cursor: nat, end: nat)
    ensures forall i :: 0 <= i < |Gaps(used, cursor, end)| ==> Gaps(used, cursor, end)[i].len > 0
    decreases |used|
  {
    if used != [] {
      GapsNotEmpty(used[1..], used[0].End(), end);
    }
  }

  lemma {:induction false} PlacementCount(files: map<Key, ExtentInfo>, keys: set<Key>, keep: ExtentInfo -> bool)
    requires keys <= files.Keys && forall k :: k in files ==> keep(files[k])
    ensures |PlacementsOf(files, keys, keep)| == |keys|
    decreases |keys|
  {
    if keys == {} {
      assert PlacementsOf(files, keys, keep) == {};
    } else {
      var k :| k in keys;
      PlacementCount(files, keys - {k}, keep);
      AddPlacement(files, keys - {k}, k, keep);
      assert keys - {k} + {k} == keys;
    }
  }

  lemma EveryFileListed(list: seq<Placement>, files: map<Key, ExtentInfo>, keep: ExtentInfo -> bool)
    requires multiset(list) == multiset(PlacementSet(files, keep)) && forall k :: k in files ==> keep(files[k])
    ensures |list| == |files|
  {
    PlacementCount(files, files.Keys, keep);
    assert |list| == |multiset(list)| == |multiset(PlacementSet(files, keep))| == |PlacementSet(files, keep)|;
  }

  /** `list` names the extent of every entry, once. */
  ghost predicate EachOnce(list: seq<Placement>, files: map<Key, ExtentInfo>) {
    |list| == |files| && forall k :: k in files ==> Placement(k, files[k].Place()) in list
  }

  /** The heat map of a store. */
  method ComputeHeat(files: map<Key, ExtentInfo>, g: Geometry, requested: nat) returns (h: Heat)
    requires g.Valid() && g.deviceSize >= MinDeviceSize(INDEX_REGION_SIZE)
    ensures Placed(files, g.DataEnd()) ==>
      h.chunkSize > 0 && exists list :: EachOnce(list, files) && Balanced(h, Chunks(requested), g, Places(list))
  {
    hide Placed, Gaps, Between, StartOf, Starting, ChunkSum, Balanced, PlacementSet, ByOffset;
    var n := Chunks(requested);
    var size := ChunkSize(g.deviceSize, n);
    ManyEnough(g.deviceSize, n, size);
    var keep := (info: ExtentInfo) => InDataRegion(info, g.DataEnd());
    var list := CollectPlacements(files, keep);
    ListedNotEmpty(list, files, keep);
    var used := Places(list);
    var free := WalkGaps(used, g.DataEnd());
    GapsNotEmpty(used, DATA_START, g.DataEnd());
    var counts, usedBytes := new nat[n](_ => 0), new nat[n](_ => 0);
    var unused, freeBytes := new nat[n](_ => 0), new nat[n](_ => 0);
    TallyAll(used, size, usedBytes, counts);
    TallyAll(free, size, freeBytes, unused);
    var dead := DeadBytes(usedBytes[..], freeBytes[..], size, g.deviceSize);
    h := Heat(size, counts[..], usedBytes[..], freeBytes[..], dead);
    if Placed(files, g.DataEnd()) {
      LaidOut(list, files, keep, g.DataEnd());
      BalancedBooks(h, used, g);
      assert EachOnce(list, files) && Balanced(h, n, g, Places(list));
    }
  }

  lemma ListedNotEmpty(list: seq<Placement>, files: map<Key, ExtentInfo>, keep: ExtentInfo -> bool)
    requires multiset(list) == multiset(PlacementSet(files, keep))
    requires forall k :: k in files && keep(files[k]) ==> files[k].paddedSize > 0
    ensures forall i :: 0 <= i < |list| ==> list[i].place.len > 0
  {
    forall i | 0 <= i < |list|
      ensures list[i].place.len > 0
    {
      assert list[i] in multiset(list);
      assert list[i] in PlacementSet(files, keep);
    }
  }

  lemma LaidOut(list: seq<Placement>, files: map<Key, ExtentInfo>, keep: ExtentInfo -> bool, dataEnd: nat)
    requires multiset(list) == multiset(PlacementSet(files, keep)) && ByOffset(list) && DATA_START <= dataEnd
    requires Placed(files, dataEnd) && forall k :: k in files ==> (keep(files[k]) <==> InDataRegion(files[k], dataEnd))
    ensures Between(Places(list), DATA_START, dataEnd) && EachOnce(list, files)
  {
    forall k | k in files
      ensures keep(files[k])
    {
      assert WellPlaced(files[k], dataEnd);
    }
    PlacedInOrder(list, files, keep, dataEnd);
    EveryFileListed(list, files, keep);
  }

  lemma ManyEnough(deviceSize: nat, n: nat, size: nat)
    requires 16 <= n <= 4096 && deviceSize >= MinDeviceSize(INDEX_REGION_SIZE) && size == ChunkSize(deviceSize, n)
    ensures size > 0 && deviceSize <= StartOf(n, size)
    ensures forall c :: 0 <= c < n ==> StartOf(c, size) <= deviceSize
  {
    assert (n - 1) * (n - 1) <= 4095 * 4095 by { Scaled(n - 1, 4095, n - 1); Scaled(n - 1, 4095, 4095); }
    forall c | 0 <= c < n
      ensures StartOf(c, size) <= deviceSize
    {
      ChunksFit(deviceSize, n, c);
    }
    ChunksFit(deviceSize, n, 0);
  }
}
