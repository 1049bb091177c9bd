/** First-fit extent allocator with coalescing over a sorted free list. */
module Allocators {
  import opened Base
  import opened Seqs

  datatype Extent = Extent(off: nat, len: nat) {
    function End(): nat { off + len }
    predicate Has(x: int) { off <= x < off + len }
    predicate Disjoint(e: Extent) { End() <= e.off || e.End() <= off }
    predicate OnBlocks() { off % BLOCK == 0 && len % BLOCK == 0 }
  }

  function AlignUp(value: nat): (r: nat)
    ensures r % BLOCK == 0 && value <= r < value + BLOCK
    ensures value % BLOCK == 0 ==> r == value
  {
    (value + (BLOCK - 1)) / BLOCK * BLOCK
  }

  // ---- Free lists as sets of bytes ---------------------------------------

  /** Sorted, non-empty entries, no two of which touch: every entry is a maximal run. */
  ghost predicate Canonical(fl: seq<Extent>) {
    && (forall i :: 0 <= i < |fl| ==> fl[i].len > 0)
    && (forall i, j :: 0 <= i < j < |fl| ==> fl[i].End() < fl[j].off)
  }

  ghost predicate Covers(fl: seq<Extent>, x: int) {
    exists i :: 0 <= i < |fl| && fl[i].Has(x)
  }

  ghost predicate SameCover(fl: seq<Extent>, fl': seq<Extent>) {
    forall x :: Covers(fl, x) <==> Covers(fl', x)
  }

  function Total(fl: seq<Extent>): nat {
    if fl == [] then 0 else fl[0].len + Total(fl[1..])
  }

  lemma CoversConcat(a: seq<Extent>, b: seq<Extent>, x: int)
    ensures Covers(a + b, x) <==> Covers(a, x) || Covers(b, x)
  {
    var all := a + b;
    if Covers(a, x) {
      var i :| 0 <= i < |a| && a[i].Has(x);
      assert all[i].Has(x);
    }
    if Covers(b, x) {
      var i :| 0 <= i < |b| && b[i].Has(x);
      assert all[|a| + i].Has(x);
    }
    if Covers(all, x) {
      var i :| 0 <= i < |all| && all[i].Has(x);
      assert if i < |a| then a[i].Has(x) else b[i - |a|].Has(x);
    }
  }

  lemma CoversOne(e: Extent, x: int)
    ensures Covers([e], x) <==> e.Has(x)
  {
    if e.Has(x) {
      assert [e][0].Has(x);
    }
  }

  lemma CanonicalTail(fl: seq<Extent>)
    requires Canonical(fl) && fl != []
    ensures Canonical(fl[1..])
    ensures forall x :: Covers(fl[1..], x) ==> x > fl[0].End()
  {
    forall x | Covers(fl[1..], x)
      ensures x > fl[0].End()
    {
      var i :| 0 <= i < |fl[1..]| && fl[1..][i].Has(x);
      assert fl[i + 1].Has(x);
    }
  }

  /** A set of bytes has only one canonical free list. */
  lemma {:induction false} CanonicalUnique(a: seq<Extent>, b: seq<Extent>)
    requires Canonical(a) && Canonical(b) && SameCover(a, b)
    ensures a == b
    decreases |a|
  {
    if a == [] || b == [] {
      if a != [] {
        assert a[0].Has(a[0].off);
        assert Covers(a, a[0].off);
      }
      if b != [] {
        assert b[0].Has(b[0].off);
        assert Covers(b, b[0].off);
      }
    } else {
      CanonicalTail(a);
      CanonicalTail(b);
      FirstEntryEqual(a, b);
      assert a == [a[0]] + a[1..] && b == [b[0]] + b[1..];
      forall x
        ensures Covers(a[1..], x) <==> Covers(b[1..], x)
      {
        CoversConcat([a[0]], a[1..], x);
        CoversConcat([b[0]], b[1..], x);
        CoversOne(a[0], x);
      }
      CanonicalUnique(a[1..], b[1..]);
    }
  }

  lemma FirstEntryEqual(a: seq<Extent>, b: seq<Extent>)
    requires Canonical(a) && Canonical(b) && SameCover(a, b) && a != [] && b != []
    ensures a[0] == b[0]
  {
    FirstEntryLeast(a, b);
    FirstEntryLeast(b, a);
    GapAfter(a, 0);
    GapAfter(b, 0);
    assert Covers(a, a[0].End()) <==> Covers(b, a[0].End());
    assert Covers(a, b[0].End()) <==> Covers(b, b[0].End());
    assert !a[0].Has(b[0].End()) && !b[0].Has(a[0].End());
  }

  lemma FirstEntryLeast(a: seq<Extent>, b: seq<Extent>)
    requires Canonical(a) && Canonical(b) && SameCover(a, b) && a != [] && b != []
    ensures a[0].off <= b[0].off
  {
    var x := b[0].off;
    assert b[0].Has(x);
    assert Covers(a, x);
    var i :| 0 <= i < |a| && a[i].Has(x);
  }

  lemma GapAfter(a: seq<Extent>, i: nat)
    requires Canonical(a) && i < |a|
    ensures !Covers(a, a[i].End())
  {}

  // ---- Contiguous runs ---------------------------------------------------

  /** The `n` bytes from `y` on are all free. */
  ghost predicate AllFree(fl: seq<Extent>, y: int, n: nat) {
    forall x :: y <= x < y + n ==> Covers(fl, x)
  }

  /** A contiguous free run lies inside one entry. */
  lemma RunInOneEntry(fl: seq<Extent>, y: int, n: nat) returns (i: nat)
    requires Canonical(fl) && n > 0 && AllFree(fl, y, n)
    ensures i < |fl| && fl[i].off <= y && y + n <= fl[i].End()
  {
    assert Covers(fl, y);
    i :| 0 <= i < |fl| && fl[i].Has(y);
    GapAfter(fl, i);
  }

  lemma EntryIsFree(fl: seq<Extent>, i: nat, n: nat)
    requires i < |fl| && n <= fl[i].len
    ensures AllFree(fl, fl[i].off, n)
  {
    forall x | fl[i].off <= x < fl[i].off + n
      ensures Covers(fl, x)
    {
      assert fl[i].Has(x);
    }
  }

  /** Joining runs that leave gaps on both sides. */
  lemma JoinCanonical(l: seq<Extent>, e: Extent, r: seq<Extent>)
    requires Canonical(l) && Canonical(r) && e.len > 0
    requires forall i :: 0 <= i < |l| ==> l[i].End() < e.off
    requires forall i :: 0 <= i < |r| ==> e.End() < r[i].off
    ensures Canonical(l + [e] + r)
  {}

  lemma JoinCovers(l: seq<Extent>, e: Extent, r: seq<Extent>, x: int)
    ensures Covers(l + [e] + r, x) <==> Covers(l, x) || e.Has(x) || Covers(r, x)
  {
    CoversConcat(l + [e], r, x);
    CoversConcat(l, [e], x);
    CoversOne(e, x);
  }

  lemma {:induction false} TotalConcat(a: seq<Extent>, b: seq<Extent>)
    ensures Total(a + b) == Total(a) + Total(b)
    decreases |a|
  {
    if a == [] {
      assert a + b == b;
    } else {
      assert (a + b)[0] == a[0] && (a + b)[1..] == a[1..] + b;
      TotalConcat(a[1..], b);
    }
  }

  lemma TotalJoin(l: seq<Extent>, e: Extent, r: seq<Extent>)
    ensures Total(l + [e] + r) == Total(l) + e.len + Total(r)
  {
    TotalConcat(l + [e], r);
    TotalConcat(l, [e]);
    assert Total([e]) == e.len;
  }

  ghost predicate Aligned(fl: seq<Extent>) {
    forall i :: 0 <= i < |fl| ==> fl[i].off % BLOCK == 0
  }

  /** `fl'` is `fl` without the `n` bytes from `off` on. */
  ghost predicate Taken(fl: seq<Extent>, fl': seq<Extent>, off: nat, n: nat) {
    && Canonical(fl')
    && (forall x :: Covers(fl', x) <==> Covers(fl, x) && !(off <= x < off + n))
    && Total(fl') + n == Total(fl)
    && (Aligned(fl) && n % BLOCK == 0 ==> Aligned(fl') && off % BLOCK == 0)
  }

  /** What lies on either side of an entry. */
  lemma Sides(l: seq<Extent>, e: Extent, r: seq<Extent>)
    requires Canonical(l + [e] + r)
    ensures Canonical(l) && Canonical(r) && e.len > 0
    ensures forall i :: 0 <= i < |l| ==> l[i].End() < e.off
    ensures forall i :: 0 <= i < |r| ==> e.End() < r[i].off
    ensures forall x :: Covers(l, x) ==> x < e.off
    ensures forall x :: Covers(r, x) ==> x > e.End()
  {
    var fl := l + [e] + r;
    assert fl[|l|] == e;
    assert forall i :: 0 <= i < |l| ==> fl[i] == l[i];
    assert forall i :: 0 <= i < |r| ==> fl[|l| + 1 + i] == r[i];
  }

  lemma CutFront(l: seq<Extent>, e: Extent, r: seq<Extent>, n: nat)
    requires Canonical(l + [e] + r) && 0 < n < e.len
    ensures Taken(l + [e] + r, l + [Extent(e.off + n, e.len - n)] + r, e.off, n)
  {
    hide Covers, Canonical, Total, Aligned;
    var fl, e' := l + [e] + r, Extent(e.off + n, e.len - n);
    Sides(l, e, r);
    JoinCanonical(l, e', r);
    TotalJoin(l, e, r);
    TotalJoin(l, e', r);
    forall x
      ensures Covers(l + [e'] + r, x) <==> Covers(fl, x) && !(e.off <= x < e.off + n)
    {
      JoinCovers(l, e, r, x);
      JoinCovers(l, e', r, x);
    }
    AlignedJoin(l, e, r);
    AlignedJoin(l, e', r);
  }

  lemma DropEntry(l: seq<Extent>, e: Extent, r: seq<Extent>)
    requires Canonical(l + [e] + r)
    ensures Taken(l + [e] + r, l + r, e.off, e.len)
  {
    var fl := l + [e] + r;
    Sides(l, e, r);
    TotalJoin(l, e, r);
    TotalConcat(l, r);
    assert Canonical(l + r);
    forall x
      ensures Covers(l + r, x) <==> Covers(fl, x) && !(e.off <= x < e.off + e.len)
    {
      JoinCovers(l, e, r, x);
      CoversConcat(l, r, x);
    }
    AlignedJoin(l, e, r);
    AlignedConcat(l, r);
  }

  lemma AlignedJoin(l: seq<Extent>, e: Extent, r: seq<Extent>)
    ensures Aligned(l + [e] + r) <==> Aligned(l) && Aligned(r) && e.off % BLOCK == 0
  {
    var fl := l + [e] + r;
    assert fl[|l|] == e;
    assert forall i :: 0 <= i < |l| ==> fl[i] == l[i];
    assert forall i :: 0 <= i < |r| ==> fl[|l| + 1 + i] == r[i];
  }

  /** `fl'` is `fl` with the bytes of `e` added. */
  ghost predicate Given(fl: seq<Extent>, fl': seq<Extent>, e: Extent) {
    && Canonical(fl')
    && (forall x :: Covers(fl', x) <==> Covers(fl, x) || e.Has(x))
    && Total(fl') == Total(fl) + e.len
  }

  ghost predicate NoneFree(fl: seq<Extent>, e: Extent) {
    forall x :: e.Has(x) ==> !Covers(fl, x)
  }

  ghost predicate SortedByOffset(fl: seq<Extent>) {
    forall i, j :: 0 <= i < j < |fl| ==> fl[i].off <= fl[j].off
  }

  /** Not empty, and inside the bounds. */
  predicate InBounds(e: Extent, dataStart: nat, dataEnd: nat) {
    e.len > 0 && dataStart <= e.off && e.End() <= dataEnd
  }

  /** `fl` holds the usable entries of `list`, each as often as `list` does. */
  ghost predicate Keeps(fl: seq<Extent>, list: seq<Extent>, dataStart: nat, dataEnd: nat) {
    forall e :: multiset(fl)[e] == if e.len > 0 && dataStart <= e.off && e.off + e.len <= dataEnd then multiset(list)[e] else 0
  }

  lemma KeepsNext(fl: seq<Extent>, fl': seq<Extent>, list: seq<Extent>, n: nat, dataStart: nat, dataEnd: nat)
    requires n < |list| && Keeps(fl, list[..n], dataStart, dataEnd)
    requires multiset(fl') == multiset(fl) + if InBounds(list[n], dataStart, dataEnd) then multiset{list[n]} else multiset{}
    ensures Keeps(fl', list[..n + 1], dataStart, dataEnd)
  {
    assert list[..n + 1] == list[..n] + [list[n]];
  }

  lemma SplitInserted(fl: seq<Extent>, pos: nat, e: Extent)
    requires pos <= |fl| && SortedByOffset(fl)
    requires (pos > 0 ==> fl[pos - 1].off <= e.off) && forall k :: pos <= k < |fl| ==> e.off < fl[k].off
    ensures multiset(fl[..pos] + [e] + fl[pos..]) == multiset(fl) + multiset{e}
    ensures SortedByOffset(fl[..pos] + [e] + fl[pos..])
  {
    CountsJoin(fl, pos, e);
    SortedParts(fl, pos, e);
    hide SortedByOffset;
    SortedJoin(fl[..pos], e, fl[pos..]);
  }

  lemma CountsJoin(fl: seq<Extent>, pos: nat, e: Extent)
    requires pos <= |fl|
    ensures multiset(fl[..pos] + [e] + fl[pos..]) == multiset(fl) + multiset{e}
  {
    assert fl == fl[..pos] + fl[pos..];
  }

  lemma SortedParts(fl: seq<Extent>, pos: nat, e: Extent)
    requires pos <= |fl| && SortedByOffset(fl) && (pos > 0 ==> fl[pos - 1].off <= e.off)
    ensures SortedByOffset(fl[..pos]) && SortedByOffset(fl[pos..])
    ensures forall i :: 0 <= i < pos ==> fl[..pos][i].off <= e.off
  {}

  lemma SortedJoin(l: seq<Extent>, e: Extent, r: seq<Extent>)
    requires SortedByOffset(l) && SortedByOffset(r)
    requires (forall i :: 0 <= i < |l| ==> l[i].off <= e.off) && (forall i :: 0 <= i < |r| ==> e.off < r[i].off)
    ensures SortedByOffset(l + [e] + r)
  {
    var s := l + [e] + r;
    forall i, j | 0 <= i < j < |s|
      ensures s[i].off <= s[j].off
    {
      if j < |l| {
        assert s[i] == l[i] && s[j] == l[j];
      } else if i < |l| {
        assert s[i] == l[i] && (s[j] == e || s[j] == r[j - |l| - 1]);
      } else {
        assert s[j] == r[j - |l| - 1] && (s[i] == e || s[i] == r[i - |l| - 1]);
      }
    }
  }

  lemma SameFirst(a: seq<Extent>, b: seq<Extent>)
    requires (forall i, j :: 0 <= i < j < |a| ==> a[i].off < a[j].off) && SortedByOffset(b)
    requires a != [] && b != [] && a[0] in b && b[0] in a
    ensures a[0] == b[0]
  {}

  lemma TailCounts(a: seq<Extent>)
    requires a != []
    ensures multiset(a) == multiset{a[0]} + multiset(a[1..])
  {
    assert a == [a[0]] + a[1..];
  }

  /** Strictly ordered entries have only one sorted arrangement. */
  lemma {:induction false} SortedOnce(a: seq<Extent>, b: seq<Extent>)
    requires (forall i, j :: 0 <= i < j < |a| ==> a[i].off < a[j].off) && SortedByOffset(b) && multiset(a) == multiset(b)
    ensures a == b
    decreases |a|
  {
    assert |a| == |multiset(a)| == |multiset(b)| == |b|;
    if a != [] {
      assert a[0] in multiset(b) && b[0] in multiset(a);
      SameFirst(a, b);
      TailCounts(a);
      TailCounts(b);
      TailsEqual(multiset(a[1..]), multiset(b[1..]), a[0]);
      SortedOnce(a[1..], b[1..]);
      assert a == [a[0]] + a[1..] && b == [b[0]] + b[1..];
    }
  }

  lemma TailsEqual(a: multiset<Extent>, b: multiset<Extent>, e: Extent)
    requires multiset{e} + a == multiset{e} + b
    ensures a == b
  {
    assert a == multiset{e} + a - multiset{e} && b == multiset{e} + b - multiset{e};
  }

  lemma NothingKept(list: seq<Extent>, dataStart: nat, dataEnd: nat)
    ensures Keeps([], list[..0], dataStart, dataEnd) && SortedByOffset([])
  {}

  lemma KeepsAll(fl: seq<Extent>, list: seq<Extent>, dataStart: nat, dataEnd: nat)
    requires Keeps(fl, list, dataStart, dataEnd) && forall i :: 0 <= i < |list| ==> InBounds(list[i], dataStart, dataEnd)
    ensures multiset(fl) == multiset(list)
  {
    forall e
      ensures multiset(fl)[e] == multiset(list)[e]
    {
      if e in multiset(list) {
        var i :| 0 <= i < |list| && list[i] == e;
      }
    }
  }

  lemma CanonicalOrder(fl: seq<Extent>)
    requires Canonical(fl)
    ensures forall i, j :: 0 <= i < j < |fl| ==> fl[i].off < fl[j].off
    ensures forall i :: 0 <= i < |fl| ==> fl[i].len > 0
  {}

  class ExtentAllocator {
    var freeList: seq<Extent>

    constructor (dataStart: nat, dataEnd: nat)
      ensures Canonical(freeList)
      ensures forall x :: Covers(freeList, x) <==> dataStart <= x < dataEnd
      ensures dataStart % BLOCK == 0 ==> Aligned(freeList)
    {
      freeList := if dataEnd > dataStart then [Extent(dataStart, dataEnd - dataStart)] else [];
      new;
      forall x
        ensures Covers(freeList, x) <==> dataStart <= x < dataEnd
      {
        if dataEnd > dataStart {
          CoversOne(freeList[0], x);
        }
      }
    }

    /** Restore from a list: sorted by offset, empty and out-of-bounds entries dropped. A
        canonical list inside the bounds is taken over as it is. */
    constructor FromFreeList(list: seq<Extent>, dataStart: nat, dataEnd: nat)
      ensures Keeps(freeList, list, dataStart, dataEnd) && SortedByOffset(freeList)
      ensures Canonical(list) && (forall i :: 0 <= i < |list| ==> dataStart <= list[i].off && list[i].End() <= dataEnd)
        ==> freeList == list
    {
      hide Canonical, SortedByOffset, Keeps;
      freeList := [];
      new;
      NothingKept(list, dataStart, dataEnd);
      for n := 0 to |list|
        invariant Keeps(freeList, list[..n], dataStart, dataEnd) && SortedByOffset(freeList)
      {
        var e := list[n];
        ghost var before := freeList;
        if InBounds(e, dataStart, dataEnd) {
          var pos: nat := |freeList|;
          while pos > 0 && e.off < freeList[pos - 1].off
            invariant pos <= |freeList|
            invariant forall k :: pos <= k < |freeList| ==> e.off < freeList[k].off
          {
            pos := pos - 1;
          }
          SplitInserted(freeList, pos, e);
          freeList := freeList[..pos] + [e] + freeList[pos..];
        }
        KeepsNext(before, freeList, list, n, dataStart, dataEnd);
      }
      assert list[..|list|] == list;
      if Canonical(list) && forall i :: 0 <= i < |list| ==> dataStart <= list[i].off && list[i].End() <= dataEnd {
        CanonicalOrder(list);
        KeepsAll(freeList, list, dataStart, dataEnd);
        SortedOnce(list, freeList);
      }
    }

    method FreeSpace() returns (sum: nat)
      ensures sum == Total(freeList)
    {
      sum := 0;
      assert freeList[..0] == [];
      for i := 0 to |freeList|
        invariant sum == Total(freeList[..i])
      {
        assert freeList[..i + 1] == freeList[..i] + [freeList[i]];
        TotalConcat(freeList[..i], [freeList[i]]);
        sum := sum + freeList[i].len;
      }
      assert freeList[..|freeList|] == freeList;
    }

    method Largest() returns (m: nat)
      ensures forall i :: 0 <= i < |freeList| ==> freeList[i].len <= m
      ensures m == 0 || exists i :: 0 <= i < |freeList| && freeList[i].len == m
    {
      m := 0;
      for i := 0 to |freeList|
        invariant forall k :: 0 <= k < i ==> freeList[k].len <= m
        invariant m == 0 || exists k :: 0 <= k < i && freeList[k].len == m
      {
        m := Max(m, freeList[i].len);
      }
    }

    /** Index of the first entry that holds `n` bytes: no free run of that length starts
        before it. */
    method FirstFit(n: nat) returns (idx: nat)
      requires Canonical(freeList) && n > 0
      ensures idx <= |freeList|
      ensures idx < |freeList| ==> n <= freeList[idx].len
      ensures forall y :: AllFree(freeList, y, n) ==> idx < |freeList| && freeList[idx].off <= y
    {
      idx := 0;
      while idx < |freeList| && freeList[idx].len < n
        invariant idx <= |freeList|
        invariant forall k :: 0 <= k < idx ==> freeList[k].len < n
      {
        idx := idx + 1;
      }
      forall y | AllFree(freeList, y, n)
        ensures idx < |freeList| && freeList[idx].off <= y
      {
        var i := RunInOneEntry(freeList, y, n);
        assert idx <= i;
      }
    }

    /** Take the lowest free run of `needed` bytes, rounded up to whole blocks. */
    method Alloc(needed: nat) returns (r: Result<nat>)
      requires Canonical(freeList) && needed > 0
      modifies this
      ensures Canonical(freeList)
      ensures r.Ok? ==>
        && AllFree(old(freeList), r.value, AlignUp(needed))
        && (forall y :: AllFree(old(freeList), y, AlignUp(needed)) ==> r.value <= y)
        && Taken(old(freeList), freeList, r.value, AlignUp(needed))
      ensures r.Err? ==>
        && freeList == old(freeList)
        && (forall y :: !AllFree(freeList, y, AlignUp(needed)))
        && r.error.NoSpace? && r.error.needed == AlignUp(needed)
        && (forall i :: 0 <= i < |freeList| ==> freeList[i].len <= r.error.available)
        && (r.error.available == 0 || exists i :: 0 <= i < |freeList| && freeList[i].len == r.error.available)
    {
      var n := AlignUp(needed);
      ghost var fl := freeList;
      var idx := FirstFit(n);
      hide Covers, Total, Canonical, Aligned, AllFree;
      if idx < |freeList| {
        var e := freeList[idx];
        var remaining := e.len - n;
        EntryIsFree(fl, idx, n);
        assert fl == fl[..idx] + [e] + fl[idx + 1..];
        if remaining > 0 {
          CutFront(fl[..idx], e, fl[idx + 1..], n);
          freeList := freeList[idx := Extent(e.off + n, remaining)];
          assert freeList == fl[..idx] + [Extent(e.off + n, remaining)] + fl[idx + 1..];
        } else {
          DropEntry(fl[..idx], e, fl[idx + 1..]);
          freeList := freeList[..idx] + freeList[idx + 1..];
        }
        r := Ok(e.off);
      } else {
        var largest := Largest();
        r := Err(NoSpace(n, largest));
      }
    }

    /** Index of the first entry at or behind `off`. */
    method PartitionPoint(off: nat) returns (pos: nat)
      requires Canonical(freeList)
      ensures pos <= |freeList|
      ensures forall k :: 0 <= k < pos ==> freeList[k].off < off
      ensures forall k :: pos <= k < |freeList| ==> off <= freeList[k].off
    {
      pos := 0;
      while pos < |freeList| && freeList[pos].off < off
        invariant pos <= |freeList|
        invariant forall k :: 0 <= k < pos ==> freeList[k].off < off
      {
        pos := pos + 1;
      }
    }

    /** Give an extent back, merging it with the runs it touches. */
    method Free(off: nat, size: nat)
      requires Canonical(freeList) && size > 0 && NoneFree(freeList, Extent(off, size))
      modifies this
      ensures Given(old(freeList), freeList, Extent(off, size))
      ensures Aligned(old(freeList)) && off % BLOCK == 0 ==> Aligned(freeList)
    {
      ghost var fl := freeList;
      var pos := PartitionPoint(off);
      ghost var l, r := fl[..pos], fl[pos..];
      assert fl == l + r;
      FreedIsGiven(l, Extent(off, size), r);
      FreedAligned(l, Extent(off, size), r);
      hide Canonical, Given, Aligned;
      freeList := freeList[..pos] + [Extent(off, size)] + freeList[pos..];
      Parts(l, Extent(off, size), r);
      MergeNext(pos);
      Parts(l, AfterNext(Extent(off, size), r).0, AfterNext(Extent(off, size), r).1);
      MergePrev(pos);
      assert freeList == Freed(l, Extent(off, size), r);
    }

    method MergeNext(pos: nat)
      requires pos < |freeList|
      modifies this
      ensures
        var (e, t) := AfterNext(old(freeList)[pos], old(freeList)[pos + 1..]);
        freeList == old(freeList)[..pos] + [e] + t
    {
      if pos + 1 < |freeList| {
        var cur, next := freeList[pos], freeList[pos + 1];
        if cur.End() == next.off {
          freeList := freeList[pos := Extent(cur.off, cur.len + next.len)];
          freeList := freeList[..pos + 1] + freeList[pos + 2..];
        }
      }
    }

    method MergePrev(pos: nat)
      requires pos < |freeList|
      modifies this
      ensures freeList == BeforePrev(old(freeList)[..pos], old(freeList)[pos], old(freeList)[pos + 1..])
    {
      SliceConcat(freeList, 0, pos, |freeList|);
      assert freeList == freeList[..pos] + [freeList[pos]] + freeList[pos + 1..];
      if pos > 0 {
        var prev, cur := freeList[pos - 1], freeList[pos];
        if prev.End() == cur.off {
          ghost var fl := freeList;
          freeList := freeList[pos - 1 := Extent(prev.off, prev.len + cur.len)];
          assert freeList[..pos] == fl[..pos - 1] + [Extent(prev.off, prev.len + cur.len)];
          assert freeList[pos + 1..] == fl[pos + 1..];
          SliceSlice(fl, 0, pos, 0, pos - 1);
          freeList := freeList[..pos] + freeList[pos + 1..];
        }
      }
    }
  }

  lemma Parts(l: seq<Extent>, e: Extent, r: seq<Extent>)
    ensures
      var fl := l + [e] + r;
      fl[..|l|] == l && fl[|l|] == e && fl[|l| + 1..] == r
  {}

  /** `e` and `r` after `e` has been merged with the entry behind it, if they touch. */
  function AfterNext(e: Extent, r: seq<Extent>): (Extent, seq<Extent>) {
    if r != [] && e.End() == r[0].off then (Extent(e.off, e.len + r[0].len), r[1..]) else (e, r)
  }

  /** The list once `e` has also been merged with the entry in front of it. */
  function BeforePrev(l: seq<Extent>, e: Extent, t: seq<Extent>): seq<Extent> {
    if l != [] && l[|l| - 1].End() == e.off
    then l[..|l| - 1] + [Extent(l[|l| - 1].off, l[|l| - 1].len + e.len)] + t
    else l + [e] + t
  }

  function Freed(l: seq<Extent>, given: Extent, r: seq<Extent>): seq<Extent> {
    var (e, t) := AfterNext(given, r);
    BeforePrev(l, e, t)
  }

  lemma FreedAligned(l: seq<Extent>, given: Extent, r: seq<Extent>)
    ensures Aligned(l + r) && given.off % BLOCK == 0 ==> Aligned(Freed(l, given, r))
  {
    var (e, t) := AfterNext(given, r);
    if Aligned(l + r) && given.off % BLOCK == 0 {
      AlignedConcat(l, r);
      assert e.off % BLOCK == 0 && Aligned(t);
      if l != [] {
        var k, prev := l[..|l| - 1], l[|l| - 1];
        AlignedJoin(k, Extent(prev.off, prev.len + e.len), t);
      }
      AlignedJoin(l, e, t);
    }
  }

  lemma AlignedConcat(l: seq<Extent>, r: seq<Extent>)
    ensures Aligned(l + r) <==> Aligned(l) && Aligned(r)
  {
    var fl := l + r;
    assert forall i :: 0 <= i < |l| ==> fl[i] == l[i];
    assert forall i :: 0 <= i < |r| ==> fl[|l| + i] == r[i];
  }

  lemma FreedIsGiven(l: seq<Extent>, given: Extent, r: seq<Extent>)
    requires Canonical(l + r) && given.len > 0 && NoneFree(l + r, given)
    requires forall i :: 0 <= i < |l| ==> l[i].off < given.off
    requires forall i :: 0 <= i < |r| ==> given.off <= r[i].off
    ensures Given(l + r, Freed(l, given, r), given)
  {
    hide Inserting, Given, Covers, Canonical, Total, NoneFree, GapRight;
    Inserted(l, given, r);
    FreedRight(l + r, l, given, r);
    var (e, t) := AfterNext(given, r);
    FreedLeft(l + r, l, given, e, t);
  }

  /** Merging with the next entry, if the two touch. */
  lemma FreedRight(fl: seq<Extent>, l: seq<Extent>, given: Extent, r: seq<Extent>)
    requires Inserting(fl, given, l, given, r)
    ensures
      var (e, t) := AfterNext(given, r);
      Inserting(fl, given, l, e, t) && GapRight(e, t)
  {
    hide Inserting;
    if r == [] {
      NoEntryRight(given);
    } else {
      hide GapRight;
      if given.End() == r[0].off {
        assert r == [r[0]] + r[1..];
        MergeRight(fl, given, l, given, r[0], r[1..]);
      } else {
        NoTouchRight(fl, given, l, given, r);
      }
    }
  }

  lemma NoEntryRight(e: Extent)
    ensures GapRight(e, [])
  {}

  lemma FreedLeft(fl: seq<Extent>, l: seq<Extent>, given: Extent, e: Extent, t: seq<Extent>)
    requires Inserting(fl, given, l, e, t) && GapRight(e, t)
    ensures Given(fl, BeforePrev(l, e, t), given)
  {
    hide Inserting, Given, GapRight, Covers, Canonical, Total;
    if l == [] {
      InsertionDone(fl, given, l, e, t);
    } else {
      var k, prev := l[..|l| - 1], l[|l| - 1];
      assert l == k + [prev];
      if prev.End() == e.off {
        MergeLeft(fl, given, k, prev, e, t);
        InsertionDone(fl, given, k, Extent(prev.off, prev.len + e.len), t);
      } else {
        NoTouchLeft(fl, given, l, e, t);
        InsertionDone(fl, given, l, e, t);
      }
    }
  }

  // ---- Insertion, one merge at a time ------------------------------------

  ghost predicate GapLeft(l: seq<Extent>, e: Extent) {
    forall i :: 0 <= i < |l| ==> l[i].End() < e.off
  }

  ghost predicate GapRight(e: Extent, r: seq<Extent>) {
    forall i :: 0 <= i < |r| ==> e.End() < r[i].off
  }

  /** `l`, `e`, `r` in order hold `fl` and `given`; only `e` may touch its neighbours. */
  ghost predicate Inserting(fl: seq<Extent>, given: Extent, l: seq<Extent>, e: Extent, r: seq<Extent>) {
    && Canonical(l) && Canonical(r) && e.len > 0
    && (forall i :: 0 <= i < |l| ==> l[i].End() <= e.off)
    && (forall i :: 0 <= i < |r| ==> e.End() <= r[i].off)
    && (forall x :: Covers(l + [e] + r, x) <==> Covers(fl, x) || given.Has(x))
    && Total(l + [e] + r) == Total(fl) + given.len
  }

  lemma InsertedBeside(l: seq<Extent>, e: Extent, r: seq<Extent>)
    requires Canonical(l + r) && e.len > 0 && NoneFree(l + r, e)
    requires forall i :: 0 <= i < |l| ==> l[i].off < e.off
    requires forall i :: 0 <= i < |r| ==> e.off <= r[i].off
    ensures Canonical(l) && Canonical(r)
    ensures forall i :: 0 <= i < |l| ==> l[i].End() <= e.off
    ensures forall i :: 0 <= i < |r| ==> e.End() <= r[i].off
  {
    var fl := l + r;
    assert forall i :: 0 <= i < |l| ==> fl[i] == l[i];
    assert forall i :: 0 <= i < |r| ==> fl[|l| + i] == r[i];
    forall i | 0 <= i < |l|
      ensures l[i].End() <= e.off
    {
      assert fl[i].Has(e.off) ==> Covers(fl, e.off);
      assert e.Has(e.off);
    }
    forall i | 0 <= i < |r|
      ensures e.End() <= r[i].off
    {
      assert fl[|l| + i].Has(r[i].off);
      assert Covers(fl, r[i].off);
    }
  }

  lemma Inserted(l: seq<Extent>, e: Extent, r: seq<Extent>)
    requires Canonical(l + r) && e.len > 0 && NoneFree(l + r, e)
    requires forall i :: 0 <= i < |l| ==> l[i].off < e.off
    requires forall i :: 0 <= i < |r| ==> e.off <= r[i].off
    ensures Inserting(l + r, e, l, e, r)
  {
    hide Covers, Canonical, Total, NoneFree;
    InsertedBeside(l, e, r);
    forall x
      ensures Covers(l + [e] + r, x) <==> Covers(l + r, x) || e.Has(x)
    {
      JoinCovers(l, e, r, x);
      CoversConcat(l, r, x);
    }
    TotalJoin(l, e, r);
    TotalConcat(l, r);
  }

  lemma CanonicalSplit(l: seq<Extent>, r: seq<Extent>)
    requires Canonical(l + r)
    ensures Canonical(l) && Canonical(r)
    ensures forall i, j :: 0 <= i < |l| && 0 <= j < |r| ==> l[i].End() < r[j].off
  {
    var fl := l + r;
    assert forall i :: 0 <= i < |l| ==> fl[i] == l[i];
    assert forall i :: 0 <= i < |r| ==> fl[|l| + i] == r[i];
  }

  lemma TotalOne(e: Extent)
    ensures Total([e]) == e.len
  {}

  lemma JoinRight(l: seq<Extent>, e: Extent, next: Extent, r: seq<Extent>)
    requires e.End() == next.off
    ensures SameCover(l + [Extent(e.off, e.len + next.len)] + r, l + [e] + ([next] + r))
    ensures Total(l + [Extent(e.off, e.len + next.len)] + r) == Total(l + [e] + ([next] + r))
  {
    hide Covers, Total;
    var m, t := Extent(e.off, e.len + next.len), [next] + r;
    forall x
      ensures Covers(l + [m] + r, x) <==> Covers(l + [e] + t, x)
    {
      JoinCovers(l, m, r, x);
      JoinCovers(l, e, t, x);
      CoversConcat([next], r, x);
      CoversOne(next, x);
    }
    TotalJoin(l, m, r);
    TotalJoin(l, e, t);
    TotalConcat([next], r);
    TotalOne(next);
  }

  lemma MergeRight(fl: seq<Extent>, given: Extent, l: seq<Extent>, e: Extent, next: Extent, r: seq<Extent>)
    requires Inserting(fl, given, l, e, [next] + r) && e.End() == next.off
    ensures Inserting(fl, given, l, Extent(e.off, e.len + next.len), r)
    ensures GapRight(Extent(e.off, e.len + next.len), r)
  {
    hide Covers, Total;
    CanonicalSplit([next], r);
    hide Canonical;
    assert [next][0] == next && ([next] + r)[0] == next;
    JoinRight(l, e, next, r);
  }

  lemma JoinLeft(l: seq<Extent>, prev: Extent, e: Extent, r: seq<Extent>)
    requires prev.End() == e.off
    ensures SameCover(l + [Extent(prev.off, prev.len + e.len)] + r, l + [prev] + [e] + r)
    ensures Total(l + [Extent(prev.off, prev.len + e.len)] + r) == Total(l + [prev] + [e] + r)
  {
    hide Covers, Total;
    var m, t := Extent(prev.off, prev.len + e.len), l + [prev];
    forall x
      ensures Covers(l + [m] + r, x) <==> Covers(t + [e] + r, x)
    {
      JoinCovers(l, m, r, x);
      JoinCovers(t, e, r, x);
      CoversConcat(l, [prev], x);
      CoversOne(prev, x);
    }
    TotalJoin(l, m, r);
    TotalJoin(t, e, r);
    TotalConcat(l, [prev]);
    TotalOne(prev);
  }

  lemma MergeLeft(fl: seq<Extent>, given: Extent, l: seq<Extent>, prev: Extent, e: Extent, r: seq<Extent>)
    requires Inserting(fl, given, l + [prev], e, r) && prev.End() == e.off && GapRight(e, r)
    ensures Inserting(fl, given, l, Extent(prev.off, prev.len + e.len), r)
    ensures GapLeft(l, Extent(prev.off, prev.len + e.len)) && GapRight(Extent(prev.off, prev.len + e.len), r)
  {
    hide Covers, Total;
    CanonicalSplit(l, [prev]);
    hide Canonical;
    assert [prev][0] == prev && (l + [prev])[|l|] == prev;
    JoinLeft(l, prev, e, r);
  }

  lemma NoTouchRight(fl: seq<Extent>, given: Extent, l: seq<Extent>, e: Extent, r: seq<Extent>)
    requires Inserting(fl, given, l, e, r) && r != [] && e.End() != r[0].off
    ensures GapRight(e, r)
  {}

  lemma NoTouchLeft(fl: seq<Extent>, given: Extent, l: seq<Extent>, e: Extent, r: seq<Extent>)
    requires Inserting(fl, given, l, e, r) && l != [] && l[|l| - 1].End() != e.off
    ensures GapLeft(l, e)
  {}

  lemma InsertionDone(fl: seq<Extent>, given: Extent, l: seq<Extent>, e: Extent, r: seq<Extent>)
    requires Inserting(fl, given, l, e, r) && GapLeft(l, e) && GapRight(e, r)
    ensures Given(fl, l + [e] + r, given)
  {
    JoinCanonical(l, e, r);
  }
}
