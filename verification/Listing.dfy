/** Listing a bucket in pages: filter, group by delimiter, merge, cut, continue. */
module Listing {
  import opened Base
  import opened Seqs

  // ---- String order and search -------------------------------------------

  /** Code-point order. */
  predicate Less(a: string, b: string) {
    b != [] && (a == [] || a[0] < b[0] || (a[0] == b[0] && Less(a[1..], b[1..])))
  }

  lemma {:induction false} LessIrreflexive(a: string)
    ensures !Less(a, a)
    decreases |a|
  {
    if a != [] {
      LessIrreflexive(a[1..]);
    }
  }

  lemma {:induction false} LessTransitive(a: string, b: string, c: string)
    requires Less(a, b) && Less(b, c)
    ensures Less(a, c)
    decreases |a|
  {
    if a != [] && a[0] == b[0] == c[0] {
      LessTransitive(a[1..], b[1..], c[1..]);
    }
  }

  lemma {:induction false} LessTotal(a: string, b: string)
    ensures Less(a, b) || a == b || Less(b, a)
    decreases |a|
  {
    if a != [] && b != [] && a[0] == b[0] {
      LessTotal(a[1..], b[1..]);
      assert a == [a[0]] + a[1..] && b == [b[0]] + b[1..];
    }
  }

  /** A string is not below any of its prefixes. */
  lemma {:induction false} PrefixNotAbove(a: string, p: string)
    requires p <= a
    ensures !Less(a, p)
    decreases |p|
  {
    if p != [] {
      PrefixNotAbove(a[1..], p[1..]);
    }
  }

  /** Up to `n` the strings agree, and there `a` ends or has the smaller character. */
  ghost predicate SmallerAt(a: string, b: string, n: nat) {
    n <= |a| && n < |b| && a[..n] == b[..n] && (n == |a| || a[n] < b[n])
  }

  /** The order is the one of strings: decided by the first difference, a proper prefix first. */
  lemma {:induction false} LessExactly(a: string, b: string)
    ensures Less(a, b) <==> exists n: nat :: SmallerAt(a, b, n)
    decreases |a|
  {
    forall n: nat | SmallerAt(a, b, n) && n > 0
      ensures a != [] && b != [] && a[0] == b[0]
    {
      assert a[..n][0] == b[..n][0];
    }
    if a != [] && b != [] && a[0] == b[0] {
      LessExactly(a[1..], b[1..]);
      if Less(a, b) {
        var n: nat :| SmallerAt(a[1..], b[1..], n);
        assert a[..n + 1] == [a[0]] + a[1..][..n] && b[..n + 1] == [b[0]] + b[1..][..n];
        assert SmallerAt(a, b, n + 1);
      }
      if n: nat :| SmallerAt(a, b, n) {
        assert n > 0 && a[1..][..n - 1] == a[..n][1..] && b[1..][..n - 1] == b[..n][1..];
        assert SmallerAt(a[1..], b[1..], n - 1);
      }
    } else if Less(a, b) {
      assert SmallerAt(a, b, 0);
    }
  }

  /** Position of the first occurrence of `d`. */
  function Find(s: string, d: string): Option<nat> {
    if d <= s then Some(0)
    else if s == [] then None
    else match Find(s[1..], d)
      case None => None
      case Some(p) => Some(p + 1)
  }

  lemma {:induction false} FindIs(s: string, d: string)
    ensures Find(s, d).Some? ==> Find(s, d).value + |d| <= |s| && s[Find(s, d).value..Find(s, d).value + |d|] == d
    decreases |s|
  {
    if !(d <= s) && s != [] {
      FindIs(s[1..], d);
      if Find(s, d).Some? {
        var p := Find(s[1..], d).value;
        assert s[1..][p..p + |d|] == s[p + 1..p + 1 + |d|];
      }
    }
  }

  predicate Occurs(s: string, d: string, i: nat) {
    i + |d| <= |s| && s[i..i + |d|] == d
  }

  /** It is found where it occurs first, and not found only if it occurs nowhere. */
  lemma {:induction false} FindsFirst(s: string, d: string)
    ensures Find(s, d).Some? ==> Occurs(s, d, Find(s, d).value) && forall i: nat :: i < Find(s, d).value ==> !Occurs(s, d, i)
    ensures Find(s, d).None? ==> forall i: nat :: !Occurs(s, d, i)
    decreases |s|
  {
    FindIs(s, d);
    if !(d <= s) {
      assert |d| <= |s| ==> s[0..0 + |d|] == s[..|d|];
      if s != [] {
        FindsFirst(s[1..], d);
        forall i: nat | 0 < i
          ensures Occurs(s, d, i) == Occurs(s[1..], d, i - 1)
        {
          if i + |d| <= |s| {
            assert s[1..][i - 1..i - 1 + |d|] == s[i..i + |d|];
          }
        }
      }
    }
  }

  /** Cutting a string behind a first occurrence leaves that occurrence first. */
  lemma {:induction false} FindInCut(s: string, d: string)
    requires Find(s, d).Some?
    ensures Find(s, d).value + |d| <= |s| && Find(s[..Find(s, d).value + |d|], d) == Find(s, d)
    decreases |s|
  {
    FindIs(s, d);
    var p := Find(s, d).value;
    PrefixOfCut(s, p + |d|, d);
    if !(d <= s) {
      FindInCut(s[1..], d);
      SliceSlice(s, 0, p + |d|, 1, p + |d|);
      SliceSlice(s, 1, |s|, 0, p - 1 + |d|);
      assert s[..p + |d|][1..] == s[1..][..p - 1 + |d|];
    }
  }

  lemma PrefixOfCut(s: string, n: nat, d: string)
    requires n <= |s|
    ensures d <= s[..n] ==> d <= s
    ensures |d| <= n && d <= s ==> d <= s[..n]
  {
    if d <= s[..n] {
      assert s[..|d|] == s[..n][..|d|];
    }
  }

  // ---- Stored names ------------------------------------------------------

  const DIR_MARK := "__DIRMARK__"
  const INTERNAL := "__buckets__/"

  predicate EndsWith(s: string, t: string) {
    |t| <= |s| && s[|s| - |t|..] == t
  }

  /** A key with a trailing slash is stored with a marker behind it. */
  function StoreKey(key: string): string {
    if EndsWith(key, "/") then key + DIR_MARK else key
  }

  /** The key a stored name stands for, if any. */
  function DecodeKey(raw: string): Option<string> {
    if EndsWith(raw, "/" + DIR_MARK) then Some(raw[..|raw| - |DIR_MARK|])
    else if raw == DIR_MARK || EndsWith(raw, "/" + DIR_MARK + "/") then None
    else Some(raw)
  }

  /** The pieces between slashes. */
  function Components(s: string): seq<string>
    decreases |s|
  {
    match Find(s, "/")
    case None => [s]
    case Some(p) => FindIs(s, "/"); [s[..p]] + Components(s[p + 1..])
  }

  method ValidateKey(key: string) returns (ok: bool)
    ensures ok <==> ".." !in Components(key) && DIR_MARK !in Components(key)
  {
    var parts := Components(key);
    for i := 0 to |parts|
      invariant forall j :: 0 <= j < i ==> parts[j] != ".." && parts[j] != DIR_MARK
    {
      if parts[i] == ".." || parts[i] == DIR_MARK {
        return false;
      }
    }
    ok := true;
  }

  lemma {:induction false} NoSlash(s: string)
    requires '/' !in s
    ensures Find(s, "/") == None
    decreases |s|
  {
    if s != [] {
      assert s[0] in s && forall c :: c in s[1..] ==> c in s;
      NoSlash(s[1..]);
    }
  }

  lemma {:induction false} FirstSlash(s: string, at: nat)
    requires at < |s| && s[at] == '/'
    ensures Find(s, "/").Some? && Find(s, "/").value <= at
    decreases |s|
  {
    if !("/" <= s) {
      assert s[0] != '/';
      FirstSlash(s[1..], at - 1);
    }
  }

  function Joined(parts: seq<string>): string {
    if parts == [] then "" else if |parts| == 1 then parts[0] else parts[0] + "/" + Joined(parts[1..])
  }

  /** No slash stands before the first one found. */
  lemma FreeOfSlash(s: string)
    ensures Find(s, "/").None? ==> '/' !in s
    ensures Find(s, "/").Some? ==> Find(s, "/").value < |s| && s[Find(s, "/").value] == '/' && '/' !in s[..Find(s, "/").value]
  {
    hide Find;
    FindsFirst(s, "/");
    forall i | 0 <= i < |s| && s[i] == '/'
      ensures Occurs(s, "/", i)
    {}
    if Find(s, "/").Some? {
      var p := Find(s, "/").value;
      assert s[p..p + 1][0] == '/';
    }
  }

  lemma JoinedCons(part: string, parts: seq<string>)
    requires parts != []
    ensures Joined([part] + parts) == part + "/" + Joined(parts)
  {
    assert ([part] + parts)[1..] == parts;
  }

  /** The components put together with slashes are the string, and none has a slash in it. */
  lemma {:induction false} ComponentsAre(s: string)
    ensures Components(s) != [] && Joined(Components(s)) == s
    ensures forall i :: 0 <= i < |Components(s)| ==> '/' !in Components(s)[i]
    decreases |s|
  {
    hide Find;
    FreeOfSlash(s);
    match Find(s, "/")
    case None =>
    case Some(p) =>
      ComponentsAre(s[p + 1..]);
      hide Joined;
      JoinedCons(s[..p], Components(s[p + 1..]));
      assert s == s[..p] + "/" + s[p + 1..];
  }

  /** What stands behind the last slash is a component. */
  lemma {:induction false} LastComponent(s: string, c: string)
    requires |c| < |s| && s[|s| - |c| - 1] == '/' && s[|s| - |c|..] == c && '/' !in c
    ensures c in Components(s)
    decreases |s|
  {
    var at := |s| - |c| - 1;
    FirstSlash(s, at);
    FindIs(s, "/");
    var p := Find(s, "/").value;
    var rest := s[p + 1..];
    if p == at {
      assert rest == c;
      NoSlash(c);
    } else {
      assert rest[|rest| - |c|..] == c;
      LastComponent(rest, c);
    }
  }

  lemma MarkedRoundTrip(key: string)
    requires EndsWith(key, "/")
    ensures DecodeKey(key + DIR_MARK) == Some(key)
  {
    var raw := key + DIR_MARK;
    assert raw[|raw| - |"/" + DIR_MARK|..] == "/" + DIR_MARK;
    assert raw[..|raw| - |DIR_MARK|] == key;
  }

  lemma MarkIsComponent(key: string)
    requires EndsWith(key, "/" + DIR_MARK) || key == DIR_MARK
    ensures DIR_MARK in Components(key)
  {
    if key == DIR_MARK {
      NoSlash(key);
    } else {
      assert key[|key| - |DIR_MARK|..] == key[|key| - |"/" + DIR_MARK|..][1..] == DIR_MARK;
      LastComponent(key, DIR_MARK);
    }
  }

  lemma LastCharacter(key: string, t: string)
    requires EndsWith(key, t + "/")
    ensures EndsWith(key, "/")
  {
    assert key[|key| - 1..] == key[|key| - |t + "/"|..][|t|..] == "/";
  }

  /** A valid key comes back from the name it is stored under. */
  lemma StoreKeyRoundTrip(key: string)
    requires DIR_MARK !in Components(key)
    ensures DecodeKey(StoreKey(key)) == Some(key)
  {
    hide Components, EndsWith;
    if EndsWith(key, "/") {
      MarkedRoundTrip(key);
    } else if EndsWith(key, "/" + DIR_MARK) || key == DIR_MARK {
      MarkIsComponent(key);
    } else if EndsWith(key, "/" + DIR_MARK + "/") {
      LastCharacter(key, "/" + DIR_MARK);
    }
  }

  /** Different stored names, none with a trailing slash, stand for different keys. */
  lemma DecodeInjective(a: string, b: string)
    requires !EndsWith(a, "/") && !EndsWith(b, "/") && DecodeKey(a) == DecodeKey(b) && DecodeKey(a).Some?
    ensures a == b
  {
    StoredAs(a);
    StoredAs(b);
  }

  lemma StoredAs(raw: string)
    requires !EndsWith(raw, "/") && DecodeKey(raw).Some?
    ensures raw == StoreKey(DecodeKey(raw).value)
  {
    var key := DecodeKey(raw).value;
    if EndsWith(raw, "/" + DIR_MARK) {
      assert raw == key + raw[|raw| - |DIR_MARK|..];
      assert raw[|raw| - |DIR_MARK|..] == raw[|raw| - |"/" + DIR_MARK|..][1..] == DIR_MARK;
      assert key[|key| - 1] == raw[|raw| - |"/" + DIR_MARK|..][0] == '/';
      assert key[|key| - 1..] == "/";
    }
  }

  // ---- What a listing contains -------------------------------------------

  /** Prefix, delimiter and start-after of a request. */
  datatype Query = Query(prefix: string, delimiter: Option<string>, startAfter: Option<string>)

  predicate After(e: string, mark: Option<string>) {
    mark.Some? ==> Less(mark.value, e)
  }

  /** Where the delimiter ends the common prefix of `key`, if it occurs behind the prefix. */
  function Cut(q: Query, key: string): Option<nat>
    requires q.prefix <= key
    ensures Cut(q, key).Some? ==> Cut(q, key).value <= |key|
  {
    if q.delimiter.None? then None
    else match Find(key[|q.prefix|..], q.delimiter.value)
      case None => None
      case Some(p) => FindIs(key[|q.prefix|..], q.delimiter.value); Some(|q.prefix| + p + |q.delimiter.value|)
  }

  /** The line of the listing that `key` falls under: itself or its common prefix. */
  function Entry(q: Query, key: string): string
    requires q.prefix <= key
  {
    if Cut(q, key).Some? then key[..Cut(q, key).value] else key
  }

  /** The delimiter occurs at `p` behind the prefix, and nowhere before. */
  ghost predicate GroupedAt(q: Query, d: string, key: string, p: nat) {
    && |q.prefix| <= p && Occurs(key, d, p)
    && forall i: nat :: |q.prefix| <= i < p ==> !Occurs(key, d, i)
  }

  /** A key is grouped under what ends with the first delimiter behind the prefix, and stands
      for itself if there is none. */
  lemma EntryIs(q: Query, key: string)
    requires q.prefix <= key
    ensures q.delimiter.None? ==> Entry(q, key) == key
    ensures forall p: nat :: q.delimiter.Some? && GroupedAt(q, q.delimiter.value, key, p) ==>
      Entry(q, key) == key[..p + |q.delimiter.value|]
    ensures q.delimiter.Some? && (forall p: nat :: !GroupedAt(q, q.delimiter.value, key, p)) ==> Entry(q, key) == key
  {
    if q.delimiter.Some? {
      var n, d, rest := |q.prefix|, q.delimiter.value, key[|q.prefix|..];
      FindsFirst(rest, d);
      forall i: nat | n <= i
        ensures Occurs(key, d, i) == Occurs(rest, d, i - n)
      {
        if i + |d| <= |key| {
          assert rest[i - n..i - n + |d|] == key[i..i + |d|];
        }
      }
      if Find(rest, d).Some? {
        assert GroupedAt(q, d, key, n + Find(rest, d).value);
        forall p: nat | GroupedAt(q, d, key, p)
          ensures p == n + Find(rest, d).value
        {
          assert Occurs(rest, d, p - n);
        }
      }
    }
  }

  predicate Matches(q: Query, key: string) {
    !(INTERNAL <= key) && q.prefix <= key
  }

  /** Every line of the whole listing. */
  ghost function Entries(q: Query, keys: set<string>): set<string> {
    set k | k in keys && Matches(q, k) && After(Entry(q, k), q.startAfter) :: Entry(q, k)
  }

  /** The lines behind a continuation token. */
  ghost function Remaining(q: Query, keys: set<string>, token: Option<string>): set<string> {
    set e | e in Entries(q, keys) && After(e, token)
  }

  /** An entry is a prefix of its key, and is its own entry. */
  lemma EntryOfEntry(q: Query, key: string)
    requires q.prefix <= key
    ensures Entry(q, key) <= key && q.prefix <= Entry(q, key)
    ensures Cut(q, Entry(q, key)).Some? <==> Cut(q, key).Some?
    ensures !Less(key, Entry(q, key))
  {
    if Cut(q, key).Some? {
      var d, rest := q.delimiter.value, key[|q.prefix|..];
      FindInCut(rest, d);
      assert Entry(q, key)[|q.prefix|..] == rest[..Find(rest, d).value + |d|];
    }
    PrefixNotAbove(key, Entry(q, key));
  }

  /** A key whose entry lies behind a mark lies behind it too. */
  lemma KeyBehind(q: Query, key: string, mark: Option<string>)
    requires q.prefix <= key && After(Entry(q, key), mark)
    ensures After(key, mark)
  {
    EntryOfEntry(q, key);
    if mark.Some? {
      LessTotal(Entry(q, key), key);
      if Less(Entry(q, key), key) {
        LessTransitive(mark.value, Entry(q, key), key);
      }
    }
  }

  // ---- Sorted lists ------------------------------------------------------

  ghost predicate Increasing(s: seq<string>) {
    forall i, j :: 0 <= i < j < |s| ==> Less(s[i], s[j])
  }

  ghost function Elements(s: seq<string>): set<string> {
    set x | x in s
  }

  function Insert(s: seq<string>, k: string): seq<string> {
    if s == [] || Less(k, s[0]) then [k] + s else [s[0]] + Insert(s[1..], k)
  }

  lemma {:induction false} Inserted(s: seq<string>, k: string)
    requires Increasing(s) && k !in s
    ensures Increasing(Insert(s, k)) && Elements(Insert(s, k)) == Elements(s) + {k}
    decreases |s|
  {
    if s != [] {
      LessTotal(k, s[0]);
      if Less(k, s[0]) {
        forall j | 1 <= j < |s|
          ensures Less(k, s[j])
        {
          LessTransitive(k, s[0], s[j]);
        }
      } else {
        Inserted(s[1..], k);
        var t := Insert(s[1..], k);
        forall j | 0 <= j < |t|
          ensures Less(s[0], t[j])
        {
          assert t[j] in Elements(t);
          if t[j] != k {
            var i :| 0 <= i < |s[1..]| && s[1..][i] == t[j];
            assert Less(s[0], s[i + 1]);
          }
        }
        assert s == [s[0]] + s[1..];
      }
    }
  }

  method Sort(keys: seq<string>) returns (s: seq<string>)
    requires forall i, j :: 0 <= i < j < |keys| ==> keys[i] != keys[j]
    ensures Increasing(s) && Elements(s) == Elements(keys)
  {
    hide Insert, Less;
    s := [];
    for i := 0 to |keys|
      invariant Increasing(s) && Elements(s) == Elements(keys[..i])
    {
      assert keys[i] !in Elements(keys[..i]);
      assert keys[i] !in s;
      Inserted(s, keys[i]);
      s := Insert(s, keys[i]);
    }
    assert keys[..|keys|] == keys;
  }

  /** Two increasing lists of the same elements are the same list. */
  lemma {:induction false} IncreasingUnique(a: seq<string>, b: seq<string>)
    requires Increasing(a) && Increasing(b) && Elements(a) == Elements(b)
    ensures a == b
    decreases |a|
  {
    assert b != [] ==> b[0] in Elements(b);
    if a != [] {
      assert a[0] in Elements(b);
      var j :| 0 <= j < |b| && b[j] == a[0];
      assert b[0] in Elements(a);
      var i :| 0 <= i < |a| && a[i] == b[0];
      if i > 0 && j > 0 {
        LessTransitive(a[0], b[0], a[0]);
      }
      LessIrreflexive(a[0]);
      FirstApart(a);
      FirstApart(b);
      IncreasingUnique(a[1..], b[1..]);
      assert a == [a[0]] + a[1..] && b == [b[0]] + b[1..];
    }
  }

  lemma FirstApart(a: seq<string>)
    requires Increasing(a) && a != []
    ensures Elements(a[1..]) == Elements(a) - {a[0]}
  {
    forall i | 1 <= i < |a|
      ensures a[i] != a[0]
    {
      LessIrreflexive(a[0]);
    }
    assert a == [a[0]] + a[1..];
  }

  // ---- One page ----------------------------------------------------------

  ghost function KeysOf(listing: seq<string>): set<string> {
    set raw | raw in listing && DecodeKey(raw).Some? :: DecodeKey(raw).value
  }

  /** No key is stored under two names. */
  ghost predicate NoneTwice(listing: seq<string>) {
    forall i, j :: 0 <= i < j < |listing| ==> DecodeKey(listing[i]).None? || DecodeKey(listing[i]) != DecodeKey(listing[j])
  }

  predicate IsPrefix(q: Query, e: string) {
    q.prefix <= e && Cut(q, e).Some?
  }

  predicate Contributes(q: Query, key: string, token: Option<string>) {
    Matches(q, key) && After(Entry(q, key), q.startAfter) && After(Entry(q, key), token)
  }

  ghost function Lines(q: Query, keys: set<string>, token: Option<string>, prefixes: bool): set<string> {
    set e | e in Remaining(q, keys, token) && IsPrefix(q, e) == prefixes
  }

  lemma LinesNext(q: Query, keys: set<string>, key: string, token: Option<string>, prefixes: bool)
    ensures Lines(q, keys + {key}, token, prefixes) == Lines(q, keys, token, prefixes) +
      if Contributes(q, key, token) && Cut(q, key).Some? == prefixes then {Entry(q, key)} else {}
  {
    hide Entry, Cut, Less;
    var extra := if Contributes(q, key, token) then {Entry(q, key)} else {};
    assert Remaining(q, keys + {key}, token) == Remaining(q, keys, token) + extra;
    if Contributes(q, key, token) {
      EntryOfEntry(q, key);
    }
  }

  lemma KeysNext(listing: seq<string>, i: nat)
    requires i < |listing|
    ensures KeysOf(listing[..i + 1])
      == KeysOf(listing[..i]) + if DecodeKey(listing[i]).Some? then {DecodeKey(listing[i]).value} else {}
  {
    assert listing[..i + 1] == listing[..i] + [listing[i]];
    hide DecodeKey;
  }

  lemma KeyIsNew(listing: seq<string>, i: nat)
    requires NoneTwice(listing) && i < |listing| && DecodeKey(listing[i]).Some?
    ensures DecodeKey(listing[i]).value !in KeysOf(listing[..i])
  {
    hide DecodeKey;
  }

  lemma LinesOfNothing(q: Query, token: Option<string>, prefixes: bool)
    ensures Lines(q, {}, token, prefixes) == {}
  {}

  ghost predicate Distinct(s: seq<string>) {
    forall i, j :: 0 <= i < j < |s| ==> s[i] != s[j]
  }

  lemma OneMore(s: seq<string>, k: string)
    requires Distinct(s) && k !in Elements(s)
    ensures Distinct(s + [k]) && Elements(s + [k]) == Elements(s) + {k}
  {
    assert forall i :: 0 <= i < |s| ==> s[i] in Elements(s);
  }

  /** What one key adds: a key to `objects`, a common prefix to `prefixes`, or nothing. */
  method Classify(q: Query, key: string, token: Option<string>) returns (isObject: bool, group: Option<string>)
    ensures isObject <==> Contributes(q, key, token) && Cut(q, key).None?
    ensures group == if Contributes(q, key, token) && Cut(q, key).Some? then Some(Entry(q, key)) else None
  {
    hide Less, Find;
    isObject, group := false, None;
    if INTERNAL <= key || !(q.prefix <= key) {
      return;
    }
    if Contributes(q, key, token) {
      KeyBehind(q, key, q.startAfter);
      KeyBehind(q, key, token);
    }
    if !After(key, q.startAfter) || !After(key, token) {
      return;
    }
    var cut := Cut(q, key);
    if cut.Some? {
      var cp := key[..cut.value];
      if After(cp, q.startAfter) && After(cp, token) {
        group := Some(cp);
      }
      return;
    }
    isObject := true;
  }

  /** Filter and group the whole listing. */
  method Collect(q: Query, listing: seq<string>, token: Option<string>) returns (objects: seq<string>, prefixes: seq<string>)
    requires NoneTwice(listing)
    ensures Distinct(objects) && Elements(objects) == Lines(q, KeysOf(listing), token, false)
    ensures Increasing(prefixes) && Elements(prefixes) == Lines(q, KeysOf(listing), token, true)
  {
    hide Lines, Contributes, DecodeKey, Entry, Cut, Insert, Less, NoneTwice;
    objects, prefixes := [], [];
    assert listing[..0] == [] && KeysOf([]) == {};
    LinesOfNothing(q, token, false);
    LinesOfNothing(q, token, true);
    for i := 0 to |listing|
      invariant Distinct(objects) && Elements(objects) == Lines(q, KeysOf(listing[..i]), token, false)
      invariant Increasing(prefixes) && Elements(prefixes) == Lines(q, KeysOf(listing[..i]), token, true)
      invariant Elements(objects) <= KeysOf(listing[..i])
    {
      hide KeysOf;
      KeysNext(listing, i);
      ghost var before := KeysOf(listing[..i]);
      assert before + {} == before;
      var decoded := DecodeKey(listing[i]);
      if decoded.Some? {
        var key := decoded.value;
        KeyIsNew(listing, i);
        LinesNext(q, KeysOf(listing[..i]), key, token, false);
        LinesNext(q, KeysOf(listing[..i]), key, token, true);
        var isObject, group := Classify(q, key, token);
        if isObject {
          WholeEntry(q, key, token);
          OneMore(objects, key);
          objects := objects + [key];
        }
        assert group.Some? && group.value in prefixes ==> Elements(prefixes) + {group.value} == Elements(prefixes);
        if group.Some? && group.value !in prefixes {
          Inserted(prefixes, group.value);
          prefixes := Insert(prefixes, group.value);
        }
      }
    }
    assert listing[..|listing|] == listing;
  }

  lemma WholeEntry(q: Query, key: string, token: Option<string>)
    requires Contributes(q, key, token) && Cut(q, key).None?
    ensures Entry(q, key) == key
  {}

  /** `merged` lists the least elements of `lines`. */
  ghost predicate FirstOf(merged: seq<string>, lines: set<string>) {
    && Increasing(merged) && Elements(merged) <= lines
    && forall e, i :: e in lines && e !in Elements(merged) && 0 <= i < |merged| ==> Less(merged[i], e)
  }

  /** Everything merged so far lies below the next candidate of `s`. */
  ghost predicate Below(merged: seq<string>, s: seq<string>, at: nat) {
    at <= |s| && (at < |s| ==> forall i :: 0 <= i < |merged| ==> Less(merged[i], s[at]))
  }

  lemma PushNext(merged: seq<string>, s: seq<string>, at: nat, t: seq<string>, bt: nat)
    requires Increasing(merged) && Increasing(s) && Below(merged, s, at) && Below(merged, t, bt) && at < |s|
    requires bt < |t| ==> Less(s[at], t[bt])
    ensures Increasing(merged + [s[at]]) && Below(merged + [s[at]], s, at + 1) && Below(merged + [s[at]], t, bt)
    ensures Elements(merged + [s[at]]) == Elements(merged) + {s[at]}
    ensures Elements(s[..at + 1]) == Elements(s[..at]) + {s[at]}
  {
    hide Less;
    if at + 1 < |s| {
      forall i | 0 <= i < |merged|
        ensures Less(merged[i], s[at + 1])
      {
        LessTransitive(merged[i], s[at], s[at + 1]);
      }
    }
    assert s[..at + 1] == s[..at] + [s[at]];
  }

  lemma RestAbove(merged: seq<string>, s: seq<string>, at: nat, e: string, i: nat)
    requires Increasing(s) && Below(merged, s, at) && e in Elements(s) && e !in Elements(s[..at]) && i < |merged|
    ensures Less(merged[i], e)
  {
    hide Less;
    assert forall j :: 0 <= j < at ==> s[..at][j] == s[j];
    var j :| at <= j < |s| && s[j] == e;
    if at < j {
      LessTransitive(merged[i], s[at], s[j]);
    }
  }

  /** Merge objects and prefixes in order, up to `limit` lines. */
  method MergeLines(objects: seq<string>, prefixes: seq<string>, limit: nat)
    returns (objIdx: nat, prefixIdx: nat, ghost merged: seq<string>)
    requires Increasing(objects) && Increasing(prefixes) && Elements(objects) !! Elements(prefixes)
    ensures objIdx <= |objects| && prefixIdx <= |prefixes| && objIdx + prefixIdx == |merged| <= limit
    ensures objIdx < |objects| || prefixIdx < |prefixes| ==> |merged| == limit
    ensures Elements(merged) == Elements(objects[..objIdx]) + Elements(prefixes[..prefixIdx])
    ensures FirstOf(merged, Elements(objects) + Elements(prefixes))
  {
    hide Less;
    objIdx, prefixIdx, merged := 0, 0, [];
    var total := 0;
    while total < limit
      invariant total == objIdx + prefixIdx == |merged| <= limit && Increasing(merged)
      invariant Below(merged, objects, objIdx) && Below(merged, prefixes, prefixIdx)
      invariant Elements(merged) == Elements(objects[..objIdx]) + Elements(prefixes[..prefixIdx])
      decreases limit - total
    {
      hide Increasing, Below, Elements;
      assert objIdx <= |objects| && prefixIdx <= |prefixes| by { Bounds(merged, objects, objIdx, prefixes, prefixIdx); }
      if objIdx < |objects| && (prefixIdx == |prefixes| || Less(objects[objIdx], prefixes[prefixIdx])) {
        PushNext(merged, objects, objIdx, prefixes, prefixIdx);
        merged := merged + [objects[objIdx]];
        objIdx := objIdx + 1;
      } else if prefixIdx < |prefixes| {
        if objIdx < |objects| {
          Apart(objects, objIdx, prefixes, prefixIdx);
        }
        PushNext(merged, prefixes, prefixIdx, objects, objIdx);
        merged := merged + [prefixes[prefixIdx]];
        prefixIdx := prefixIdx + 1;
      } else {
        break;
      }
      total := total + 1;
    }
    forall e, i | e in Elements(objects) + Elements(prefixes) && e !in Elements(merged) && 0 <= i < |merged|
      ensures Less(merged[i], e)
    {
      if e in Elements(objects) {
        RestAbove(merged, objects, objIdx, e, i);
      } else {
        RestAbove(merged, prefixes, prefixIdx, e, i);
      }
    }
  }

  lemma Bounds(merged: seq<string>, s: seq<string>, at: nat, t: seq<string>, bt: nat)
    requires Below(merged, s, at) && Below(merged, t, bt)
    ensures at <= |s| && bt <= |t|
  {}

  lemma Apart(s: seq<string>, i: nat, t: seq<string>, j: nat)
    requires Elements(s) !! Elements(t) && i < |s| && j < |t| && !Less(s[i], t[j])
    ensures Less(t[j], s[i])
  {
    assert s[i] in Elements(s) && t[j] in Elements(t);
    LessTotal(s[i], t[j]);
  }

  // ---- Pages -------------------------------------------------------------

  datatype Page = Page(objects: seq<string>, prefixes: seq<string>, truncated: bool, next: Option<string>)

  /** Exactly `lines` are listed, in order, keys apart from common prefixes. */
  ghost predicate Listed(q: Query, lines: set<string>, objects: seq<string>, prefixes: seq<string>) {
    && Increasing(objects) && Elements(objects) == (set e | e in lines && !IsPrefix(q, e))
    && Increasing(prefixes) && Elements(prefixes) == (set e | e in lines && IsPrefix(q, e))
  }

  /** An empty delimiter counts as none. */
  function Effective(q: Query): Query {
    if q.delimiter == Some("") then q.(delimiter := None) else q
  }

  /** The larger of the last object and the last prefix. */
  function NextToken(objects: seq<string>, prefixes: seq<string>): Option<string> {
    if objects != [] && prefixes != [] then
      var ok, pk := objects[|objects| - 1], prefixes[|prefixes| - 1];
      Some(if Less(pk, ok) then ok else pk)
    else if objects != [] then Some(objects[|objects| - 1])
    else if prefixes != [] then Some(prefixes[|prefixes| - 1])
    else None
  }

  lemma LastIsGreatest(merged: seq<string>, s: seq<string>)
    requires Increasing(merged) && Increasing(s) && Elements(s) <= Elements(merged) && merged != [] && s != []
    ensures
      var last, top := merged[|merged| - 1], s[|s| - 1];
      (top == last || Less(top, last)) && (last in Elements(s) ==> top == last)
  {
    hide Less;
    var last, top := merged[|merged| - 1], s[|s| - 1];
    assert top in Elements(s);
    var i :| 0 <= i < |merged| && merged[i] == top;
    if last in Elements(s) {
      var j :| 0 <= j < |s| && s[j] == last;
      if top != last {
        LessTransitive(top, last, top);
        LessIrreflexive(top);
      }
    }
  }

  /** The token is the last merged line. */
  lemma TokenIsLast(merged: seq<string>, objects: seq<string>, prefixes: seq<string>)
    requires Increasing(merged) && Increasing(objects) && Increasing(prefixes) && merged != []
    requires Elements(merged) == Elements(objects) + Elements(prefixes) && Elements(objects) !! Elements(prefixes)
    ensures NextToken(objects, prefixes) == Some(merged[|merged| - 1])
  {
    hide Less, Increasing;
    var last := merged[|merged| - 1];
    assert last in Elements(merged);
    if objects != [] {
      LastIsGreatest(merged, objects);
      assert objects[|objects| - 1] in Elements(objects);
    }
    if prefixes != [] {
      LastIsGreatest(merged, prefixes);
      assert prefixes[|prefixes| - 1] in Elements(prefixes);
    }
    if objects != [] && prefixes != [] {
      LessBoth(objects[|objects| - 1], prefixes[|prefixes| - 1]);
    }
  }

  lemma LessBoth(a: string, b: string)
    ensures !(Less(a, b) && Less(b, a))
  {
    if Less(a, b) && Less(b, a) {
      LessTransitive(a, b, a);
      LessIrreflexive(a);
    }
  }

  lemma LinesSplit(q: Query, keys: set<string>, token: Option<string>)
    ensures Lines(q, keys, token, false) !! Lines(q, keys, token, true)
    ensures Lines(q, keys, token, false) + Lines(q, keys, token, true) == Remaining(q, keys, token)
  {
    hide Remaining, IsPrefix;
  }

  lemma IncreasingPrefix(s: seq<string>, n: nat)
    requires Increasing(s) && n <= |s|
    ensures Increasing(s[..n]) && Elements(s[..n]) <= Elements(s)
    ensures Elements(s[..n]) == Elements(s) ==> n == |s|
  {
    if n < |s| {
      forall i | 0 <= i < n
        ensures s[i] != s[n]
      {
        LessIrreflexive(s[n]);
      }
      assert s[n] in Elements(s) && s[n] !in Elements(s[..n]);
    }
  }

  /** `page` shows `merged`, the first lines behind the token, and says how to go on. */
  ghost predicate Shows(q: Query, keys: set<string>, token: Option<string>, maxKeys: int, page: Page, merged: seq<string>) {
    && FirstOf(merged, Remaining(q, keys, token)) && |merged| <= (if maxKeys < 0 then 0 else maxKeys)
    && Listed(q, Elements(merged), page.objects, page.prefixes) && |page.objects| + |page.prefixes| == |merged|
    && (page.truncated <==> maxKeys > 0 && Elements(merged) != Remaining(q, keys, token))
    && (page.truncated ==> |merged| == maxKeys && page.next == Some(merged[maxKeys - 1]))
    && (!page.truncated ==> page.next == None)
  }

  /** One page of a listing. */
  method ListPage(request: Query, listing: seq<string>, token: Option<string>, maxKeys: int) returns (page: Page)
    requires NoneTwice(listing)
    ensures exists merged :: Shows(Effective(request), KeysOf(listing), token, maxKeys, page, merged)
  {
    hide Less, Remaining, Lines, IsPrefix, NoneTwice, KeysOf, Increasing, FirstOf;
    var q := Effective(request);
    ghost var keys := KeysOf(listing);
    var objects, prefixes := Collect(q, listing, token);
    objects := Sort(objects);
    LinesSplit(q, keys, token);
    var limit := if maxKeys < 0 then 0 else maxKeys;
    var objIdx, prefixIdx, merged := MergeLines(objects, prefixes, limit);
    IncreasingPrefix(objects, objIdx);
    IncreasingPrefix(prefixes, prefixIdx);
    var truncated := maxKeys > 0 && (objIdx < |objects| || prefixIdx < |prefixes|);
    var next := None;
    ghost var lines := Remaining(q, keys, token);
    PageParts(q, keys, token, merged, objects[..objIdx], prefixes[..prefixIdx]);
    if truncated {
      assert Increasing(merged) by { FirstIncreasing(merged, lines); }
      TokenIsLast(merged, objects[..objIdx], prefixes[..prefixIdx]);
      next := NextToken(objects[..objIdx], prefixes[..prefixIdx]);
    }
    assert Elements(merged) == lines <==> objIdx == |objects| && prefixIdx == |prefixes| by {
      WholeParts(Elements(objects), Elements(prefixes), Elements(objects[..objIdx]), Elements(prefixes[..prefixIdx]));
      assert objects[..|objects|] == objects && prefixes[..|prefixes|] == prefixes;
    }
    page := Page(objects[..objIdx], prefixes[..prefixIdx], truncated, next);
    assert Shows(q, keys, token, maxKeys, page, merged);
  }

  lemma FirstIncreasing(merged: seq<string>, lines: set<string>)
    requires FirstOf(merged, lines)
    ensures Increasing(merged)
  {}

  lemma WholeParts(a: set<string>, b: set<string>, a': set<string>, b': set<string>)
    requires a' <= a && b' <= b && a !! b
    ensures a' + b' == a + b <==> a' == a && b' == b
  {
    if a' + b' == a + b {
      forall x | x in a
        ensures x in a'
      {
        assert x in a' + b';
      }
      forall x | x in b
        ensures x in b'
      {
        assert x in a' + b';
      }
    }
  }

  lemma PageParts(q: Query, keys: set<string>, token: Option<string>, merged: seq<string>, objects: seq<string>, prefixes: seq<string>)
    requires Elements(objects) <= Lines(q, keys, token, false) && Elements(prefixes) <= Lines(q, keys, token, true)
    requires Elements(merged) == Elements(objects) + Elements(prefixes)
    ensures Elements(objects) == set e | e in Elements(merged) && !IsPrefix(q, e)
    ensures Elements(prefixes) == set e | e in Elements(merged) && IsPrefix(q, e)
  {
    hide Remaining, IsPrefix, Elements;
  }

  // ---- Following the tokens ----------------------------------------------

  /** Behind the token of a truncated page lie exactly the lines the page did not list. */
  lemma BehindToken(q: Query, keys: set<string>, token: Option<string>, merged: seq<string>)
    requires FirstOf(merged, Remaining(q, keys, token)) && merged != []
    ensures Remaining(q, keys, Some(merged[|merged| - 1])) == Remaining(q, keys, token) - Elements(merged)
  {
    hide Less, Entries;
    var last := merged[|merged| - 1];
    assert last in Elements(merged);
    forall e | e in Entries(q, keys)
      ensures Less(last, e) <==> e in Remaining(q, keys, token) && e !in Elements(merged)
    {
      if Less(last, e) {
        if token.Some? {
          LessTransitive(token.value, last, e);
        }
        if e in Elements(merged) {
          var i :| 0 <= i < |merged| && merged[i] == e;
          LessBoth(last, e);
          LessIrreflexive(e);
        }
      }
    }
  }

  lemma AppendIncreasing(a: seq<string>, b: seq<string>)
    requires Increasing(a) && Increasing(b)
    requires forall x, y :: x in Elements(a) && y in Elements(b) ==> Less(x, y)
    ensures Increasing(a + b) && Elements(a + b) == Elements(a) + Elements(b)
  {
    hide Less;
    forall i, j | 0 <= i < j < |a + b|
      ensures Less((a + b)[i], (a + b)[j])
    {
      if i < |a| <= j {
        assert a[i] in Elements(a) && b[j - |a|] in Elements(b);
      }
    }
  }

  /** Request page after page until one is not truncated. The pages together list every key
      and every common prefix exactly once, in order. */
  method ListAll(request: Query, listing: seq<string>, maxKeys: int) returns (objects: seq<string>, prefixes: seq<string>)
    requires NoneTwice(listing) && maxKeys >= 1
    ensures
      var q := Effective(request);
      Listed(q, Entries(q, KeysOf(listing)), objects, prefixes)
  {
    hide Less, Entries, IsPrefix, KeysOf, NoneTwice, Listed, Elements, FirstOf, Remaining;
    ghost var q, keys := Effective(request), KeysOf(listing);
    objects, prefixes := [], [];
    var token: Option<string> := None;
    NothingListed(q, keys);
    while true
      invariant Listed(q, Entries(q, keys) - Remaining(q, keys, token), objects, prefixes)
      decreases Remaining(q, keys, token)
    {
      var page := ListPage(request, listing, token, maxKeys);
      ghost var merged :| Shows(q, keys, token, maxKeys, page, merged);
      ghost var rest := Remaining(q, keys, token) - Elements(merged);
      ListedMore(q, keys, token, objects, prefixes, page.objects, page.prefixes, merged);
      objects, prefixes := objects + page.objects, prefixes + page.prefixes;
      if !page.truncated {
        assert rest == {} && Entries(q, keys) - rest == Entries(q, keys);
        return;
      }
      BehindToken(q, keys, token, merged);
      Shrinks(Remaining(q, keys, token), merged);
      assert Remaining(q, keys, page.next) == rest;
      token := page.next;
    }
  }

  lemma NothingListed(q: Query, keys: set<string>)
    ensures Listed(q, Entries(q, keys) - Remaining(q, keys, None), [], [])
  {
    hide Entries;
    assert Entries(q, keys) - Remaining(q, keys, None) == {};
  }

  lemma Shrinks(lines: set<string>, merged: seq<string>)
    requires FirstOf(merged, lines) && merged != []
    ensures lines - Elements(merged) < lines
  {
    hide Less;
    assert merged[0] in Elements(merged);
  }

  /** What has been listed lies before everything that remains. */
  lemma ListedBefore(q: Query, keys: set<string>, token: Option<string>, x: string, y: string)
    requires x in Entries(q, keys) - Remaining(q, keys, token) && y in Remaining(q, keys, token)
    ensures Less(x, y)
  {
    hide Less, Entries;
    LessTotal(token.value, x);
    if x != token.value {
      LessTransitive(x, token.value, y);
    }
  }

  lemma ListedMore(q: Query, keys: set<string>, token: Option<string>, objects: seq<string>, prefixes: seq<string>,
                   moreObjects: seq<string>, morePrefixes: seq<string>, merged: seq<string>)
    requires Listed(q, Entries(q, keys) - Remaining(q, keys, token), objects, prefixes)
    requires FirstOf(merged, Remaining(q, keys, token)) && Listed(q, Elements(merged), moreObjects, morePrefixes)
    ensures Listed(q, Entries(q, keys) - (Remaining(q, keys, token) - Elements(merged)), objects + moreObjects, prefixes + morePrefixes)
  {
    hide Less, IsPrefix, Increasing, Elements;
    var lines, left := Entries(q, keys), Remaining(q, keys, token);
    hide Entries, Remaining;
    forall x, y | x in lines - left && y in Elements(merged)
      ensures Less(x, y)
    {
      ListedBefore(q, keys, token, x, y);
    }
    AppendIncreasing(objects, moreObjects);
    AppendIncreasing(prefixes, morePrefixes);
    assert left <= lines by { RemainingLines(q, keys, token); }
    assert lines - (left - Elements(merged)) == (lines - left) + Elements(merged);
  }

  lemma RemainingLines(q: Query, keys: set<string>, token: Option<string>)
    ensures Remaining(q, keys, token) <= Entries(q, keys)
  {
    hide Entries;
  }

  /** A listing is determined by its lines, so the page size does not matter. */
  lemma ListedUnique(q: Query, lines: set<string>, o: seq<string>, p: seq<string>, o': seq<string>, p': seq<string>)
    requires Listed(q, lines, o, p) && Listed(q, lines, o', p')
    ensures o == o' && p == p'
  {
    hide IsPrefix, Increasing, Elements;
    IncreasingUnique(o, o');
    IncreasingUnique(p, p');
  }

  // ---- Small listings ----------------------------------------------------

  /** Whatever the stored order, the smaller name comes first. Names of the store itself and
      stray markers are not listed, and a marked name is listed with its slash. */
  method TwoNames() returns (objects: seq<string>, prefixes: seq<string>)
    ensures objects == ["a/", "b"] && prefixes == []
  {
    hide Listed, Entries, IsPrefix, KeysOf, NoneTwice, Less;
    NamesStored();
    objects, prefixes := ListAll(Query("", None, None), ["b", "__buckets__/x", "__DIRMARK__", "a/__DIRMARK__", "c/__DIRMARK__/"], 1);
    NamesListed();
    ListedUnique(Query("", None, None), {"a/", "b"}, objects, prefixes, ["a/", "b"], []);
  }

  lemma NamesStored()
    ensures
      var listing := ["b", "__buckets__/x", "__DIRMARK__", "a/__DIRMARK__", "c/__DIRMARK__/"];
      NoneTwice(listing) && KeysOf(listing) == {"a/", "b", "__buckets__/x"}
  {
    hide DecodeKey;
    Decoded();
  }

  lemma NamesListed()
    ensures
      var q := Query("", None, None);
      Entries(q, {"a/", "b", "__buckets__/x"}) == {"a/", "b"} && Listed(q, {"a/", "b"}, ["a/", "b"], [])
  {
    var q := Query("", None, None);
    assert Matches(q, "a/") && Matches(q, "b") && !Matches(q, "__buckets__/x");
    hide Matches;
    assert Entry(q, "a/") == "a/" && Entry(q, "b") == "b" && !IsPrefix(q, "a/") && !IsPrefix(q, "b");
    hide Entry, IsPrefix;
    assert Elements(["a/", "b"]) == {"a/", "b"};
  }

  lemma Decoded()
    ensures DecodeKey("b") == Some("b") && DecodeKey("__buckets__/x") == Some("__buckets__/x")
    ensures DecodeKey("__DIRMARK__") == None && DecodeKey("c/__DIRMARK__/") == None
    ensures DecodeKey("a/__DIRMARK__") == Some("a/")
  {
    hide DecodeKey;
    MarkedName();
    StrayMark();
    PlainNames();
  }

  lemma MarkedName()
    ensures DecodeKey("a/__DIRMARK__") == Some("a/")
  {
    assert "a/__DIRMARK__"[1..] == "/__DIRMARK__" && "a/__DIRMARK__"[..2] == "a/";
  }

  lemma StrayMark()
    ensures DecodeKey("__DIRMARK__") == None && DecodeKey("c/__DIRMARK__/") == None
  {
    assert "c/__DIRMARK__/"[1..] == "/__DIRMARK__/";
    assert "c/__DIRMARK__/"[2..][11] == '/' && "/__DIRMARK__"[11] == '_';
  }

  lemma PlainNames()
    ensures DecodeKey("b") == Some("b") && DecodeKey("__buckets__/x") == Some("__buckets__/x")
  {
    assert "__buckets__/x"[1..][11] == 'x' && "/__DIRMARK__"[11] == '_' && "__buckets__/x"[0] == '_';
  }

  /** Prefix and start-after leave what begins with the one and lies behind the other. An empty
      delimiter groups nothing. */
  method BehindStart() returns (objects: seq<string>, prefixes: seq<string>)
    ensures objects == ["a2", "a3"] && prefixes == []
  {
    hide Listed, Entries, IsPrefix, KeysOf, NoneTwice, Less;
    DigitsStored();
    objects, prefixes := ListAll(Query("a", Some(""), Some("a1")), ["a3", "b", "a1", "a2", "a0"], 1);
    DigitsListed();
    ListedUnique(Query("a", None, Some("a1")), {"a2", "a3"}, objects, prefixes, ["a2", "a3"], []);
  }

  lemma DigitsStored()
    ensures
      var listing := ["a3", "b", "a1", "a2", "a0"];
      NoneTwice(listing) && KeysOf(listing) == {"a0", "a1", "a2", "a3", "b"}
  {
    assert DecodeKey("a0") == Some("a0") && DecodeKey("a1") == Some("a1") && DecodeKey("a2") == Some("a2");
    assert DecodeKey("a3") == Some("a3") && DecodeKey("b") == Some("b");
    hide DecodeKey;
  }

  lemma DigitsListed()
    ensures
      var q := Query("a", None, Some("a1"));
      Entries(q, {"a0", "a1", "a2", "a3", "b"}) == {"a2", "a3"} && Listed(q, {"a2", "a3"}, ["a2", "a3"], [])
  {
    var q := Query("a", None, Some("a1"));
    Digits();
    hide Matches, Entry, Less;
    assert Elements(["a2", "a3"]) == {"a2", "a3"};
    assert !IsPrefix(q, "a2") && !IsPrefix(q, "a3");
  }

  lemma Digits()
    ensures Less("a1", "a2") && Less("a1", "a3") && Less("a2", "a3") && !Less("a1", "a0") && !Less("a1", "a1")
    ensures
      var q := Query("a", None, Some("a1"));
      && Matches(q, "a0") && Matches(q, "a1") && Matches(q, "a2") && Matches(q, "a3") && !Matches(q, "b")
      && Entry(q, "a0") == "a0" && Entry(q, "a1") == "a1" && Entry(q, "a2") == "a2" && Entry(q, "a3") == "a3"
  {
    assert "a0"[1..] == "0" && "a1"[1..] == "1" && "a2"[1..] == "2" && "a3"[1..] == "3";
    assert Less("1", "2") && Less("1", "3") && Less("2", "3") && !Less("1", "0") && !Less("1", "1");
  }

  /** Names with a common prefix become one line, in its place. */
  method TwoGroups() returns (objects: seq<string>, prefixes: seq<string>)
    ensures objects == ["c"] && prefixes == ["a/"]
  {
    hide Less, Find, Cut, Entry;
    var q := Query("", Some("/"), None);
    var listing := ["c", "a/y", "a/x"];
    objects, prefixes := ListAll(q, listing, 1);
    assert Elements(objects) == {"c"} && Elements(prefixes) == {"a/"} by {
      assert DecodeKey("c") == Some("c") && DecodeKey("a/y") == Some("a/y") && DecodeKey("a/x") == Some("a/x");
      assert KeysOf(listing) == {"c", "a/x", "a/y"};
      Cuts();
      assert Entries(q, {"c", "a/x", "a/y"}) == {"c", "a/"};
    }
    IncreasingUnique(objects, ["c"]);
    IncreasingUnique(prefixes, ["a/"]);
  }

  lemma Cuts()
    ensures
      var q := Query("", Some("/"), None);
      && Entry(q, "c") == "c" && Entry(q, "a/x") == "a/" && Entry(q, "a/y") == "a/"
      && !IsPrefix(q, "c") && IsPrefix(q, "a/")
  {
    assert "c"[1..] == "" && "a/x"[1..] == "/x" && "a/y"[1..] == "/y" && "a/"[1..] == "/";
    NoSlash("c");
    assert Find("/x", "/") == Some(0) && Find("/y", "/") == Some(0) && Find("/", "/") == Some(0);
    assert "c"[0..] == "c" && "a/x"[0..] == "a/x" && "a/y"[0..] == "a/y" && "a/"[0..] == "a/";
    assert Find("a/x", "/") == Some(1) && Find("a/y", "/") == Some(1) && Find("a/", "/") == Some(1);
  }
}
