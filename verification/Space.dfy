/** How one store operation moves space between the free list and the index. */
module Space {
  import opened Base
  import opened Disks
  import opened Allocators
  import opened Indexes
  import opened Recovery
  import opened Protocol

  /** `e` has been taken out of the free list but is not in the index yet. */
  ghost predicate ReservedOk(fl: seq<Extent>, files: map<Key, ExtentInfo>, e: Extent, dataEnd: nat) {
    && Canonical(fl) && Aligned(fl)
    && forall x :: Covers(fl, x) <==> DATA_START <= x < dataEnd && !Used(files, x) && !e.Has(x)
  }

  /** `e` lies in the data region, on a block boundary, clear of every entry. */
  ghost predicate Unused(files: map<Key, ExtentInfo>, e: Extent, dataEnd: nat) {
    && DATA_START <= e.off && e.End() <= dataEnd && e.off % BLOCK == 0
    && forall k :: k in files ==> files[k].Place().Disjoint(e)
  }

  lemma Reserve(fl: seq<Extent>, fl': seq<Extent>, files: map<Key, ExtentInfo>, off: nat, n: nat, dataEnd: nat)
    requires FreeListOk(fl, files, dataEnd) && Placed(files, dataEnd)
    requires AllFree(fl, off, n) && Taken(fl, fl', off, n) && n > 0 && n % BLOCK == 0
    ensures ReservedOk(fl', files, Extent(off, n), dataEnd) && Unused(files, Extent(off, n), dataEnd)
  {
    assert Covers(fl, off) && Covers(fl, off + n - 1);
    forall k | k in files
      ensures files[k].Place().Disjoint(Extent(off, n))
    {
      var p := files[k].Place();
      assert p.Has(off) ==> Used(files, off);
      assert p.Has(p.off) && Used(files, p.off);
    }
  }

  lemma NothingCovered(fl: seq<Extent>, files: map<Key, ExtentInfo>, e: Extent, dataEnd: nat)
    requires ReservedOk(fl, files, e, dataEnd)
    ensures NoneFree(fl, e)
    ensures forall k :: k in files ==> NoneFree(fl, files[k].Place())
  {
    forall k, x | k in files && files[k].Place().Has(x)
      ensures !Covers(fl, x)
    {
      assert Used(files, x);
    }
  }

  /** Giving a reservation back restores the free list, entry for entry. */
  lemma GiveBack(fl: seq<Extent>, fl1: seq<Extent>, fl2: seq<Extent>, files: map<Key, ExtentInfo>, e: Extent, dataEnd: nat)
    requires FreeListOk(fl, files, dataEnd) && ReservedOk(fl1, files, e, dataEnd) && Unused(files, e, dataEnd)
    requires Given(fl1, fl2, e) && Aligned(fl2)
    ensures fl2 == fl
  {
    forall x
      ensures Covers(fl2, x) <==> DATA_START <= x < dataEnd && !Used(files, x)
    {
      assert e.Has(x) ==> !Used(files, x);
    }
    FreeListUnique(fl, fl2, files, dataEnd);
  }

  lemma UsedUpdate(files: map<Key, ExtentInfo>, key: Key, info: ExtentInfo, x: int)
    ensures Used(files[key := info], x) <==> info.Place().Has(x) || Used(files - {key}, x)
    ensures Used(files, x) <==> (key in files && files[key].Place().Has(x)) || Used(files - {key}, x)
  {
    var files', rest := files[key := info], files - {key};
    if info.Place().Has(x) {
      assert files'[key].Place().Has(x);
    }
    if Used(rest, x) {
      var k :| k in rest && rest[k].Place().Has(x);
      assert k in files' && files'[k].Place().Has(x) && k in files && files[k].Place().Has(x);
    }
    if Used(files', x) && !info.Place().Has(x) {
      var k :| k in files' && files'[k].Place().Has(x);
      assert k in rest && rest[k].Place().Has(x);
    }
    if Used(files, x) && !(key in files && files[key].Place().Has(x)) {
      var k :| k in files && files[k].Place().Has(x);
      assert k in rest && rest[k].Place().Has(x);
    }
  }

  lemma PlacedInstall(files: map<Key, ExtentInfo>, key: Key, info: ExtentInfo, dataEnd: nat)
    requires Placed(files, dataEnd) && WellPlaced(info, dataEnd) && Unused(files, info.Place(), dataEnd)
    ensures Placed(files[key := info], dataEnd)
  {
    hide WellPlaced;
  }

  /** A new key takes over a reservation. */
  lemma InstallFresh(fl: seq<Extent>, files: map<Key, ExtentInfo>, key: Key, info: ExtentInfo, dataEnd: nat)
    requires ReservedOk(fl, files, info.Place(), dataEnd) && key !in files
    ensures FreeListOk(fl, files[key := info], dataEnd)
  {
    forall x
      ensures Covers(fl, x) <==> DATA_START <= x < dataEnd && !Used(files[key := info], x)
    {
      UsedUpdate(files, key, info, x);
    }
  }

  /** An existing key takes over a reservation; its old extent has been freed. */
  lemma InstallOver(fl: seq<Extent>, fl': seq<Extent>, files: map<Key, ExtentInfo>, key: Key, info: ExtentInfo, dataEnd: nat)
    requires ReservedOk(fl, files, info.Place(), dataEnd) && Unused(files, info.Place(), dataEnd)
    requires key in files && Placed(files, dataEnd) && Given(fl, fl', files[key].Place()) && Aligned(fl')
    ensures FreeListOk(fl', files[key := info], dataEnd)
  {
    forall x
      ensures Covers(fl', x) <==> DATA_START <= x < dataEnd && !Used(files[key := info], x)
    {
      UsedUpdate(files, key, info, x);
      OwnSpace(files, key, x);
      assert files[key].Place().Disjoint(info.Place());
      assert WellPlaced(files[key], dataEnd);
    }
  }

  lemma OwnSpace(files: map<Key, ExtentInfo>, key: Key, x: int)
    requires key in files
    requires forall k, k' :: k in files && k' in files && k != k' ==> files[k].Place().Disjoint(files[k'].Place())
    ensures Used(files - {key}, x) ==> !files[key].Place().Has(x)
  {
    if Used(files - {key}, x) {
      var k :| k in files - {key} && (files - {key})[k].Place().Has(x);
      assert files[k].Place().Disjoint(files[key].Place());
    }
  }

  /** Removing an entry and freeing its extent. */
  lemma Remove(fl: seq<Extent>, fl': seq<Extent>, files: map<Key, ExtentInfo>, key: Key, dataEnd: nat)
    requires FreeListOk(fl, files, dataEnd) && Placed(files, dataEnd) && key in files
    requires Given(fl, fl', files[key].Place()) && Aligned(fl')
    ensures FreeListOk(fl', files - {key}, dataEnd) && Placed(files - {key}, dataEnd)
  {
    assert Placed(files - {key}, dataEnd) by { hide WellPlaced; }
    forall x
      ensures Covers(fl', x) <==> DATA_START <= x < dataEnd && !Used(files - {key}, x)
    {
      UsedUpdate(files, key, files[key], x);
      OwnSpace(files, key, x);
      assert WellPlaced(files[key], dataEnd);
    }
  }

  lemma InUseNotFree(fl: seq<Extent>, files: map<Key, ExtentInfo>, key: Key, dataEnd: nat)
    requires FreeListOk(fl, files, dataEnd) && key in files
    ensures NoneFree(fl, files[key].Place())
  {
    forall x | files[key].Place().Has(x)
      ensures !Covers(fl, x)
    {
      assert Used(files, x);
    }
  }

  // ---- Protocol steps ----------------------------------------------------

  lemma WritesToUnused(d: Disk, d': Disk, files: map<Key, ExtentInfo>, e: Extent, dataEnd: nat)
    requires WroteWithin(d, d', e.off, e.End()) && Unused(files, e, dataEnd)
    ensures FreeWrites(d, d', files, dataEnd)
  {
    forall k | |d.pending| <= k < |d'.pending|
      ensures d'.pending[k].Within(DATA_START, dataEnd)
      ensures forall f :: f in files ==> !d'.pending[k].Touches(files[f].offset, files[f].Place().End())
    {
      assert d'.pending[k].Within(e.off, e.End());
      forall f | f in files
        ensures !d'.pending[k].Touches(files[f].offset, files[f].Place().End())
      {
        assert files[f].Place().Disjoint(e);
      }
    }
    forall i | 0 <= i < |d.live| && (!(DATA_START <= i < dataEnd) || Used(files, i))
      ensures d'.live[i] == d.live[i]
    {
      if Used(files, i) {
        var f :| f in files && files[f].Place().Has(i);
        assert files[f].Place().Disjoint(e);
      }
      assert !e.Has(i);
    }
  }

  lemma NoWrites(d: Disk, files: map<Key, ExtentInfo>, dataEnd: nat)
    ensures FreeWrites(d, d, files, dataEnd)
  {}

  /** Indexes that agree except at `key` agree on every shard but one. */
  lemma OneKeyOneShard(idx: Index, idx': Index, key: Key, i: nat)
    requires idx.files - {key} == idx'.files - {key} && idx.tombs - {key} == idx'.tombs - {key}
    requires i != ShardFor(key)
    ensures Shard(idx', i) == Shard(idx, i)
  {
    hide ShardFor;
    var a, b := Shard(idx, i), Shard(idx', i);
    forall k | k != key
      ensures k in idx.files <==> k in idx'.files
      ensures k in idx.files ==> idx.files[k] == idx'.files[k]
      ensures k in idx.tombs <==> k in idx'.tombs
      ensures k in idx.tombs ==> idx.tombs[k] == idx'.tombs[k]
    {
      assert k in idx.files <==> k in idx.files - {key};
      assert k in idx'.files <==> k in idx'.files - {key};
      assert k in idx.tombs <==> k in idx.tombs - {key};
      assert k in idx'.tombs <==> k in idx'.tombs - {key};
      assert k in idx.files ==> (idx.files - {key})[k] == idx.files[k];
      assert k in idx'.files ==> (idx'.files - {key})[k] == idx'.files[k];
      assert k in idx.tombs ==> (idx.tombs - {key})[k] == idx.tombs[k];
      assert k in idx'.tombs ==> (idx'.tombs - {key})[k] == idx'.tombs[k];
    }
    assert a.files == b.files;
    assert a.tombs == b.tombs;
  }

  lemma MarkOne(idx: Index, idx': Index, dirty: seq<bool>, key: Key)
    requires idx.files - {key} == idx'.files - {key} && idx.tombs - {key} == idx'.tombs - {key}
    requires |dirty| == NUM_SHARDS
    ensures DirtyMarked(idx, dirty, idx', dirty[ShardFor(key) := true])
  {
    hide Shard, ShardFor;
    forall i | 0 <= i < NUM_SHARDS && Shard(idx', i) != Shard(idx, i)
      ensures dirty[ShardFor(key) := true][i]
    {
      if i != ShardFor(key) {
        OneKeyOneShard(idx, idx', key, i);
      }
    }
  }

  lemma DirtyTwice(a: Index, da: seq<bool>, b: Index, db: seq<bool>, c: Index, dc: seq<bool>)
    requires DirtyMarked(a, da, b, db) && DirtyMarked(b, db, c, dc)
    ensures DirtyMarked(a, da, c, dc)
  {
    hide Shard;
  }

  /** Changing an entry in place moves no space. */
  lemma SameSpace(fl: seq<Extent>, files: map<Key, ExtentInfo>, key: Key, info: ExtentInfo, dataEnd: nat)
    requires FreeListOk(fl, files, dataEnd) && Placed(files, dataEnd) && key in files
    requires info.Place() == files[key].Place() && info.size == files[key].size
    ensures FreeListOk(fl, files[key := info], dataEnd) && Placed(files[key := info], dataEnd)
  {
    forall x
      ensures Used(files[key := info], x) <==> Used(files, x)
    {
      UsedUpdate(files, key, info, x);
    }
    hide FreeListOk;
    assert WellPlaced(files[key], dataEnd);
  }

  function Renamed(files: map<Key, ExtentInfo>, from: Key, to: Key): map<Key, ExtentInfo>
    requires from in files
  {
    (files - {from})[to := files[from]]
  }

  lemma RenamedPlaced(files: map<Key, ExtentInfo>, from: Key, to: Key, dataEnd: nat)
    requires Placed(files, dataEnd) && from in files && (to == from || to !in files)
    ensures Placed(Renamed(files, from, to), dataEnd)
  {
    hide WellPlaced;
    var files' := Renamed(files, from, to);
    assert forall k :: k in files' ==> if k == to then files'[k] == files[from] else k in files && k != from && files'[k] == files[k];
  }

  lemma RenamedPlaces(files: map<Key, ExtentInfo>, from: Key, to: Key)
    requires from in files && (to == from || to !in files)
    ensures PlaceSet(Renamed(files, from, to)) == PlaceSet(files)
    ensures forall x :: Used(Renamed(files, from, to), x) <==> Used(files, x)
  {
    var files' := Renamed(files, from, to);
    forall k | k in files
      ensures exists k' :: k' in files' && files'[k'].Place() == files[k].Place()
    {
      assert (if k == from then to else k) in files';
    }
  }

  /** Moving an entry to an unused key moves no space. */
  lemma MoveKey(fl: seq<Extent>, files: map<Key, ExtentInfo>, from: Key, to: Key, dataEnd: nat)
    requires FreeListOk(fl, files, dataEnd) && Placed(files, dataEnd)
    requires from in files && (to == from || to !in files)
    ensures
      var files' := (files - {from})[to := files[from]];
      FreeListOk(fl, files', dataEnd) && Placed(files', dataEnd) && PlaceSet(files') == PlaceSet(files)
  {
    hide Placed, PlaceSet, Used;
    RenamedPlaced(files, from, to, dataEnd);
    RenamedPlaces(files, from, to);
  }

  /** An operation followed by removals is one operation. */
  lemma MutateThenShrink(g: Geometry, m: Machine, m1: Machine, m2: Machine)
    requires MutateNext(g, m, m1) && MutateNext(g, m1, m2) && m2.sys.disk == m1.sys.disk
    requires PlaceSet(m2.sys.idx.files) <= PlaceSet(m1.sys.idx.files)
    ensures MutateNext(g, m, m2)
  {
    hide FreeWrites, Placed, DirtyMarked;
    DirtyTwice(m.sys.idx, m.sys.dirty, m1.sys.idx, m1.sys.dirty, m2.sys.idx, m2.sys.dirty);
    assert m2.kept == m.kept * PlaceSet(m2.sys.idx.files);
  }

  lemma FewerPlaces(files: map<Key, ExtentInfo>, keys: set<Key>)
    ensures PlaceSet(files - keys) <= PlaceSet(files)
  {
    forall e | e in PlaceSet(files - keys)
      ensures e in PlaceSet(files)
    {
      var k :| k in files - keys && (files - keys)[k].Place() == e;
      assert k in files && files[k].Place() == e;
    }
  }
}
