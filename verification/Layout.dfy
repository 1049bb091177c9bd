/** Extents in device order and the free space between them. */
module Layouts {
  import opened Base
  import opened Allocators
  import opened Indexes

  datatype Placement = Placement(key: Key, place: Extent)

  predicate InDataRegion(info: ExtentInfo, dataEnd: nat) {
    DATA_START <= info.offset && info.paddedSize > 0 && info.offset + info.paddedSize <= dataEnd
  }

  /** The entries of `keys` that pass the filter. */
  ghost function PlacementsOf(files: map<Key, ExtentInfo>, keys: set<Key>, keep: ExtentInfo -> bool): set<Placement>
    requires keys <= files.Keys
  {
    set k | k in keys && keep(files[k]) :: Placement(k, files[k].Place())
  }

  ghost function PlacementSet(files: map<Key, ExtentInfo>, keep: ExtentInfo -> bool): set<Placement> {
    PlacementsOf(files, files.Keys, keep)
  }

  lemma AddPlacement(files: map<Key, ExtentInfo>, keys: set<Key>, k: Key, keep: ExtentInfo -> bool)
    requires keys <= files.Keys && k in files && k !in keys
    ensures
      var p := Placement(k, files[k].Place());
      p !in PlacementsOf(files, keys, keep) &&
      PlacementsOf(files, keys + {k}, keep) == PlacementsOf(files, keys, keep) + (if keep(files[k]) then {p} else {}) &&
      multiset(PlacementsOf(files, keys + {k}, keep))
        == multiset(PlacementsOf(files, keys, keep)) + (if keep(files[k]) then multiset{p} else multiset{})
  {}

  ghost predicate ByOffset(list: seq<Placement>) {
    forall i, j :: 0 <= i < j < |list| ==> list[i].place.off <= list[j].place.off
  }

  function InsertByOffset(list: seq<Placement>, p: Placement): seq<Placement> {
    if list == [] || p.place.off < list[0].place.off then [p] + list
    else [list[0]] + InsertByOffset(list[1..], p)
  }

  lemma {:induction false} InsertedOnce(list: seq<Placement>, p: Placement)
    ensures multiset(InsertByOffset(list, p)) == multiset(list) + multiset{p}
    decreases |list|
  {
    if list != [] && list[0].place.off <= p.place.off {
      InsertedOnce(list[1..], p);
      assert list == [list[0]] + list[1..];
    }
  }

  lemma {:induction false} InsertedInOrder(list: seq<Placement>, p: Placement)
    requires ByOffset(list)
    ensures ByOffset(InsertByOffset(list, p))
    ensures InsertByOffset(list, p)[0] == p || (list != [] && InsertByOffset(list, p)[0] == list[0])
    decreases |list|
  {
    if list != [] && list[0].place.off <= p.place.off {
      InsertedInOrder(list[1..], p);
    }
  }

  lemma NothingPlaced(files: map<Key, ExtentInfo>, keep: ExtentInfo -> bool)
    ensures ByOffset([]) && PlacementsOf(files, {}, keep) == {}
  {}

  /** Every entry that passes the filter exactly once, sorted by offset. */
  method CollectPlacements(files: map<Key, ExtentInfo>, keep: ExtentInfo -> bool) returns (list: seq<Placement>)
    ensures multiset(list) == multiset(PlacementSet(files, keep)) && ByOffset(list)
  {
    hide InsertByOffset, ByOffset, PlacementsOf;
    list := [];
    var rest := files.Keys;
    ghost var done: set<Key> := {};
    NothingPlaced(files, keep);
    while rest != {}
      invariant done + rest == files.Keys && done !! rest && ByOffset(list)
      invariant multiset(list) == multiset(PlacementsOf(files, done, keep))
      decreases rest
    {
      var k :| k in rest;
      AddPlacement(files, done, k, keep);
      if keep(files[k]) {
        InsertedOnce(list, Placement(k, files[k].Place()));
        InsertedInOrder(list, Placement(k, files[k].Place()));
        list := InsertByOffset(list, Placement(k, files[k].Place()));
      }
      rest, done := rest - {k}, done + {k};
    }
    assert done == files.Keys;
  }

  function Places(list: seq<Placement>): (r: seq<Extent>)
    ensures |r| == |list| && forall i :: 0 <= i < |list| ==> r[i] == list[i].place
  {
    seq(|list|, i requires 0 <= i < |list| => list[i].place)
  }

  /** Non-empty extents in order, none overlapping the next. */
  ghost predicate InOrder(used: seq<Extent>) {
    && (forall i :: 0 <= i < |used| ==> used[i].len > 0)
    && (forall i, j :: 0 <= i < j < |used| ==> used[i].End() <= used[j].off)
  }

  lemma TwiceCounted<T>(list: seq<T>, i: nat, j: nat)
    requires i < j < |list| && list[i] == list[j]
    ensures multiset(list)[list[i]] >= 2
  {
    assert list == list[..j] + list[j..];
    assert list[i] == list[..j][i] && list[i] == list[j..][0];
  }

  lemma ListedOnce<T>(list: seq<T>, s: set<T>, i: nat, j: nat)
    requires multiset(list) == multiset(s) && i < j < |list|
    ensures list[i] in s && list[i] != list[j]
  {
    assert list[i] in multiset(list);
    if list[i] == list[j] {
      TwiceCounted(list, i, j);
    }
  }

  lemma PlacedInOrder(list: seq<Placement>, files: map<Key, ExtentInfo>, keep: ExtentInfo -> bool, dataEnd: nat)
    requires multiset(list) == multiset(PlacementSet(files, keep)) && ByOffset(list)
    requires Placed(files, dataEnd) && forall k :: k in files ==> keep(files[k])
    ensures InOrder(Places(list))
    ensures forall i :: 0 <= i < |list| ==> list[i].key in files && list[i].place == files[list[i].key].Place()
    ensures forall k :: k in files ==> Placement(k, files[k].Place()) in list
  {
    forall i | 0 <= i < |list|
      ensures list[i] in PlacementSet(files, keep)
    {
      assert list[i] in multiset(list);
    }
    forall i, j | 0 <= i < j < |list|
      ensures list[i].place.End() <= list[j].place.off
    {
      ListedOnce(list, PlacementSet(files, keep), i, j);
      assert list[i].key != list[j].key;
      assert files[list[i].key].Place().Disjoint(files[list[j].key].Place());
    }
    forall k | k in files
      ensures Placement(k, files[k].Place()) in list
    {
      assert Placement(k, files[k].Place()) in PlacementSet(files, keep);
      assert Placement(k, files[k].Place()) in multiset(list);
    }
  }

  // ---- Gaps --------------------------------------------------------------

  /** The run between `cursor` and `to`, if there is one. */
  function Gap(cursor: nat, to: nat): seq<Extent> {
    if cursor < to then [Extent(cursor, to - cursor)] else []
  }

  lemma GapIs(cursor: nat, to: nat, x: int)
    requires cursor <= to
    ensures Covers(Gap(cursor, to), x) <==> cursor <= x < to
    ensures Total(Gap(cursor, to)) == to - cursor
  {
    if cursor < to {
      CoversOne(Extent(cursor, to - cursor), x);
    }
  }

  /** The free runs left between `cursor` and `end` by extents in device order. */
  function Gaps(used: seq<Extent>, cursor: nat, end: nat): seq<Extent> {
    if used == [] then Gap(cursor, end) else Gap(cursor, used[0].off) + Gaps(used[1..], used[0].End(), end)
  }

  /** Extents in order between `cursor` and `end`. */
  ghost predicate Between(used: seq<Extent>, cursor: nat, end: nat) {
    InOrder(used) && cursor <= end && forall i :: 0 <= i < |used| ==> cursor <= used[i].off && used[i].End() <= end
  }

  lemma BetweenTail(used: seq<Extent>, cursor: nat, end: nat)
    requires Between(used, cursor, end) && used != []
    ensures cursor <= used[0].off < used[0].End() <= end && Between(used[1..], used[0].End(), end)
    ensures forall x :: Covers(used[1..], x) ==> used[0].End() <= x < end
  {}

  lemma {:induction false} GapsCanonical(used: seq<Extent>, cursor: nat, end: nat)
    requires Between(used, cursor, end)
    ensures Canonical(Gaps(used, cursor, end))
    ensures forall i :: 0 <= i < |Gaps(used, cursor, end)| ==> cursor <= Gaps(used, cursor, end)[i].off
    decreases |used|
  {
    if used != [] {
      BetweenTail(used, cursor, end);
      hide Between;
      GapsCanonical(used[1..], used[0].End(), end);
    }
  }

  lemma {:induction false} GapsCover(used: seq<Extent>, cursor: nat, end: nat, x: int)
    requires Between(used, cursor, end)
    ensures Covers(Gaps(used, cursor, end), x) <==> cursor <= x < end && !Covers(used, x)
    decreases |used|
  {
    if used == [] {
      GapIs(cursor, end, x);
    } else {
      var e, rest := used[0], used[1..];
      BetweenTail(used, cursor, end);
      hide Covers, Between, Gap;
      GapsCover(rest, e.End(), end, x);
      assert used == [e] + rest;
      CoversConcat([e], rest, x);
      CoversOne(e, x);
      CoversConcat(Gap(cursor, e.off), Gaps(rest, e.End(), end), x);
      GapIs(cursor, e.off, x);
    }
  }

  lemma {:induction false} GapsTotal(used: seq<Extent>, cursor: nat, end: nat)
    requires Between(used, cursor, end)
    ensures Total(Gaps(used, cursor, end)) + Total(used) == end - cursor
    decreases |used|
  {
    if used == [] {
      GapIs(cursor, end, 0);
    } else {
      var e, rest := used[0], used[1..];
      BetweenTail(used, cursor, end);
      hide Between, Gap;
      GapsTotal(rest, e.End(), end);
      TotalConcat(Gap(cursor, e.off), Gaps(rest, e.End(), end));
      GapIs(cursor, e.off, 0);
    }
  }

  lemma GapsAreFree(used: seq<Extent>, cursor: nat, end: nat)
    requires Between(used, cursor, end)
    ensures Canonical(Gaps(used, cursor, end))
    ensures forall x :: Covers(Gaps(used, cursor, end), x) <==> cursor <= x < end && !Covers(used, x)
    ensures Total(Gaps(used, cursor, end)) + Total(used) == end - cursor
  {
    hide Covers, Gaps, Canonical, Total;
    GapsCanonical(used, cursor, end);
    GapsTotal(used, cursor, end);
    forall x
      ensures Covers(Gaps(used, cursor, end), x) <==> cursor <= x < end && !Covers(used, x)
    {
      GapsCover(used, cursor, end, x);
    }
  }

  lemma {:induction false} GapsAligned(used: seq<Extent>, cursor: nat, end: nat)
    requires cursor % BLOCK == 0 && forall i :: 0 <= i < |used| ==> used[i].OnBlocks()
    ensures Aligned(Gaps(used, cursor, end))
    decreases |used|
  {
    if used != [] {
      GapsAligned(used[1..], used[0].End(), end);
    }
  }

  lemma WalkStep(free: seq<Extent>, used: seq<Extent>, i: nat, cursor: nat, end: nat)
    requires i < |used|
    ensures free + Gaps(used[i..], cursor, end)
         == free + Gap(cursor, used[i].off) + Gaps(used[i + 1..], used[i].End(), end)
  {
    var rest := Gaps(used[i + 1..], used[i].End(), end);
    assert used[i..][0] == used[i] && used[i..][1..] == used[i + 1..];
    assert Gaps(used[i..], cursor, end) == Gap(cursor, used[i].off) + rest;
    assert free + (Gap(cursor, used[i].off) + rest) == free + Gap(cursor, used[i].off) + rest;
  }

  /** Walk the extents in device order and collect what lies between them. */
  method WalkGaps(used: seq<Extent>, end: nat) returns (free: seq<Extent>)
    ensures free == Gaps(used, DATA_START, end)
  {
    free := [];
    var cursor: nat := DATA_START;
    assert used[0..] == used && free + Gaps(used, DATA_START, end) == Gaps(used, DATA_START, end);
    for i := 0 to |used|
      invariant free + Gaps(used[i..], cursor, end) == Gaps(used, DATA_START, end)
    {
      hide Gaps;
      WalkStep(free, used, i, cursor, end);
      ghost var before := free;
      if used[i].off > cursor {
        free := free + [Extent(cursor, used[i].off - cursor)];
      }
      assert free == before + Gap(cursor, used[i].off);
      cursor := used[i].End();
    }
    assert used[|used|..] == [] && Gaps([], cursor, end) == Gap(cursor, end);
    if cursor < end {
      free := free + [Extent(cursor, end - cursor)];
    } else {
      assert free + [] == free;
    }
  }

  /** Rebuild the free list from the index. For an index whose entries are well placed the
      result is the one and only free list that index can have. */
  method RebuildFreeList(files: map<Key, ExtentInfo>, dataEnd: nat) returns (used: seq<Extent>, free: seq<Extent>)
    ensures Placed(files, dataEnd) && DATA_START <= dataEnd ==>
      FreeListOk(free, files, dataEnd) && Total(used) + Total(free) == dataEnd - DATA_START
  {
    var keep := (info: ExtentInfo) => InDataRegion(info, dataEnd);
    var list := CollectPlacements(files, keep);
    used := Places(list);
    free := WalkGaps(used, dataEnd);
    if Placed(files, dataEnd) && DATA_START <= dataEnd {
      assert forall k :: k in files ==> WellPlaced(files[k], dataEnd);
      RebuiltIsFree(list, files, keep, dataEnd);
    }
  }

  lemma RebuiltIsFree(list: seq<Placement>, files: map<Key, ExtentInfo>, keep: ExtentInfo -> bool, dataEnd: nat)
    requires multiset(list) == multiset(PlacementSet(files, keep)) && ByOffset(list)
    requires Placed(files, dataEnd) && DATA_START <= dataEnd && forall k :: k in files ==> keep(files[k])
    ensures FreeListOk(Gaps(Places(list), DATA_START, dataEnd), files, dataEnd)
    ensures Total(Places(list)) + Total(Gaps(Places(list), DATA_START, dataEnd)) == dataEnd - DATA_START
  {
    var used := Places(list);
    PlacedInOrder(list, files, keep, dataEnd);
    assert Between(used, DATA_START, dataEnd);
    GapsAreFree(used, DATA_START, dataEnd);
    GapsAligned(used, DATA_START, dataEnd);
    forall x
      ensures Covers(used, x) <==> Used(files, x)
    {
      PlacesCoverUsed(list, files, x);
    }
  }

  lemma PlacesCoverUsed(list: seq<Placement>, files: map<Key, ExtentInfo>, x: int)
    requires forall i :: 0 <= i < |list| ==> list[i].key in files && list[i].place == files[list[i].key].Place()
    requires forall k :: k in files ==> Placement(k, files[k].Place()) in list
    ensures Covers(Places(list), x) <==> Used(files, x)
  {
    var used := Places(list);
    if Covers(used, x) {
      var i :| 0 <= i < |used| && used[i].Has(x);
      assert files[list[i].key].Place().Has(x);
    }
    if Used(files, x) {
      var k :| k in files && files[k].Place().Has(x);
      var i :| 0 <= i < |list| && list[i] == Placement(k, files[k].Place());
      assert used[i].Has(x);
    }
  }

  // ---- Layout check ------------------------------------------------------

  /** Extent `i` runs into the next one. */
  predicate RunsOver(list: seq<Placement>, i: nat) {
    i + 1 < |list| && list[i].place.End() > list[i + 1].place.off
  }

  ghost predicate ShareByte(a: Extent, b: Extent) {
    exists x: int :: a.Has(x) && b.Has(x)
  }

  /** In offset order, an extent runs into its neighbour exactly if they share a byte, and no
      two of the list share one exactly if none runs into its neighbour. */
  lemma RunsOverExactly(list: seq<Placement>)
    requires ByOffset(list) && forall i :: 0 <= i < |list| ==> list[i].place.len > 0
    ensures forall i: nat :: i + 1 < |list| ==> (RunsOver(list, i) <==> ShareByte(list[i].place, list[i + 1].place))
    ensures (forall i: nat :: !RunsOver(list, i)) <==> InOrder(Places(list))
  {
    forall i: nat | i + 1 < |list|
      ensures RunsOver(list, i) ==> list[i].place.Has(list[i + 1].place.off) && list[i + 1].place.Has(list[i + 1].place.off)
    {
      assert list[i].place.off <= list[i + 1].place.off;
    }
    if forall i: nat :: !RunsOver(list, i) {
      forall i, j | 0 <= i < j < |list|
        ensures list[i].place.End() <= list[j].place.off
      {
        assert !RunsOver(list, i) && list[i + 1].place.off <= list[j].place.off;
      }
    }
    if InOrder(Places(list)) {
      forall i: nat | i + 1 < |list|
        ensures !RunsOver(list, i)
      {
        assert Places(list)[i].End() <= Places(list)[i + 1].off;
      }
    }
  }

  /** Neighbours in offset order that overlap. */
  method FindOverlaps(list: seq<Placement>) returns (pairs: seq<(Key, Key)>)
    ensures forall p :: p in pairs <==> exists i: nat :: RunsOver(list, i) && p == (list[i].key, list[i + 1].key)
    ensures pairs == [] <==> forall i: nat :: !RunsOver(list, i)
  {
    pairs := [];
    var i := 0;
    while i + 1 < |list|
      invariant i == 0 || i < |list|
      invariant pairs == [] <==> forall j: nat :: j < i ==> !RunsOver(list, j)
      invariant forall p :: p in pairs <==> exists j: nat :: j < i && RunsOver(list, j) && p == (list[j].key, list[j + 1].key)
    {
      if RunsOver(list, i) {
        pairs := pairs + [(list[i].key, list[i + 1].key)];
      }
      i := i + 1;
    }
  }

  /** Every free entry lies in the data region, is not empty and does not run into the next. */
  method FreeListConsistent(fl: seq<Extent>, dataEnd: nat) returns (consistent: bool)
    ensures consistent <==>
      forall i :: 0 <= i < |fl| ==>
        && DATA_START <= fl[i].off && fl[i].End() <= dataEnd && fl[i].len > 0
        && (i + 1 < |fl| ==> fl[i].End() <= fl[i + 1].off)
  {
    for i := 0 to |fl|
      invariant forall j :: 0 <= j < i ==>
        && DATA_START <= fl[j].off && fl[j].End() <= dataEnd && fl[j].len > 0
        && (j + 1 < |fl| ==> fl[j].End() <= fl[j + 1].off)
    {
      if fl[i].off < DATA_START || fl[i].End() > dataEnd || fl[i].len == 0 {
        return false;
      }
      if i + 1 < |fl| && fl[i].End() > fl[i + 1].off {
        return false;
      }
    }
    consistent := true;
  }

  /** A free list that covers only the data region lies in it. */
  lemma FreeInRegion(fl: seq<Extent>, files: map<Key, ExtentInfo>, dataEnd: nat, i: nat)
    requires FreeListOk(fl, files, dataEnd) && i < |fl|
    ensures DATA_START <= fl[i].off && fl[i].End() <= dataEnd && fl[i].len > 0
    ensures i + 1 < |fl| ==> fl[i].End() <= fl[i + 1].off
  {
    assert fl[i].Has(fl[i].off) && Covers(fl, fl[i].off);
    assert fl[i].Has(fl[i].End() - 1) && Covers(fl, fl[i].End() - 1);
  }
}
