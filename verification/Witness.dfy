/** The serializer laws that the rest relies on can be met: a serializer that meets them. */
module Witness {
  import opened Crc32c
  import opened Base
  import opened Indexes
  import opened Superblocks
  import opened Recovery

  // ---- Numbers as bytes --------------------------------------------------

  function PutNat(n: nat): seq<byte> {
    if n == 0 then [0] else [1] + PutNat(n - 1)
  }

  function PutNats(l: seq<nat>): seq<byte> {
    if l == [] then [] else PutNat(l[0]) + PutNats(l[1..])
  }

  /** The numbers in `s`, the first of which has `carry` added. */
  function GetNats(s: seq<byte>, carry: nat): seq<nat> {
    if s == [] then [] else if s[0] == 0 then [carry] + GetNats(s[1..], 0) else GetNats(s[1..], carry + 1)
  }

  lemma {:induction false} NatRoundTrip(n: nat, rest: seq<byte>, carry: nat)
    ensures GetNats(PutNat(n) + rest, carry) == [carry + n] + GetNats(rest, 0)
  {
    var s := PutNat(n) + rest;
    if n == 0 {
      assert s[1..] == rest;
    } else {
      assert s[1..] == PutNat(n - 1) + rest;
      NatRoundTrip(n - 1, rest, carry + 1);
    }
  }

  lemma {:induction false} NatsRoundTrip(l: seq<nat>)
    ensures GetNats(PutNats(l), 0) == l
    decreases |l|
  {
    if l != [] {
      NatRoundTrip(l[0], PutNats(l[1..]), 0);
      NatsRoundTrip(l[1..]);
    }
  }

  // ---- Values and maps as numbers ----------------------------------------

  /** A value in front of further numbers. */
  datatype Format<!V(!new)> = Format(put: V -> seq<nat>, get: seq<nat> -> Option<(V, seq<nat>)>) {
    ghost predicate Lawful() {
      forall v: V, rest: seq<nat> :: get(put(v) + rest) == Some((v, rest))
    }
  }

  function PutKey(k: Key): seq<nat> {
    [|k|] + seq(|k|, i requires 0 <= i < |k| => ByteValue(k[i]))
  }

  function GetKey(l: seq<nat>): Option<(Key, seq<nat>)> {
    if l == [] || |l| < 1 + l[0] then None
    else Some((seq(l[0], i requires 0 <= i < l[0] => ByteOf(l[1 + i] % 256)), l[1 + l[0]..]))
  }

  lemma KeyRoundTrip(k: Key, rest: seq<nat>)
    ensures GetKey(PutKey(k) + rest) == Some((k, rest))
  {
    var l := PutKey(k) + rest;
    forall i | 0 <= i < |k|
      ensures ByteOf(l[1 + i] % 256) == k[i]
    {
      ByteInverse(k[i]);
    }
    assert l[1 + |k|..] == rest;
    assert GetKey(l).value.0 == k;
  }

  ghost function PutMap<V(!new)>(f: Format<V>, m: map<Key, V>): seq<nat> {
    if m == map[] then [0]
    else
      var k :| k in m;
      [1] + PutKey(k) + f.put(m[k]) + PutMap(f, m - {k})
  }

  function GetMap<V(!new)>(f: Format<V>, l: seq<nat>): Option<(map<Key, V>, seq<nat>)>
    decreases |l|
  {
    if l == [] then None
    else if l[0] == 0 then Some((map[], l[1..]))
    else match GetKey(l[1..])
      case None => None
      case Some((k, l1)) =>
        match f.get(l1)
        case None => None
        case Some((v, l2)) =>
          if |l2| >= |l| then None
          else match GetMap(f, l2)
            case None => None
            case Some((m, l3)) => Some((m[k := v], l3))
  }

  lemma PutMapNext<V(!new)>(f: Format<V>, m: map<Key, V>)
    requires m != map[]
    ensures exists k :: k in m && PutMap(f, m) == [1] + PutKey(k) + f.put(m[k]) + PutMap(f, m - {k})
  {}

  /** One entry in front of a map that parses. */
  lemma EntryParses<V(!new)>(f: Format<V>, k: Key, v: V, tail: seq<nat>, m: map<Key, V>, rest: seq<nat>)
    requires f.Lawful() && GetMap(f, tail) == Some((m, rest))
    ensures GetMap(f, [1] + (PutKey(k) + (f.put(v) + tail))) == Some((m[k := v], rest))
  {
    hide PutKey, GetKey;
    var l := [1] + (PutKey(k) + (f.put(v) + tail));
    assert l[1..] == PutKey(k) + (f.put(v) + tail);
    KeyRoundTrip(k, f.put(v) + tail);
  }

  lemma Regroup(a: seq<nat>, b: seq<nat>, c: seq<nat>, d: seq<nat>, e: seq<nat>)
    ensures a + b + c + d + e == a + (b + (c + (d + e)))
  {}

  lemma {:induction false} MapRoundTrip<V(!new)>(f: Format<V>, m: map<Key, V>, rest: seq<nat>)
    requires f.Lawful()
    ensures GetMap(f, PutMap(f, m) + rest) == Some((m, rest))
    decreases |m|
  {
    hide PutKey, GetMap, PutMap, Format.Lawful;
    if m == map[] {
      NoEntries(f, rest);
    } else {
      PutMapNext(f, m);
      var k :| k in m && PutMap(f, m) == [1] + PutKey(k) + f.put(m[k]) + PutMap(f, m - {k});
      WithoutOne(m, k);
      MapRoundTrip(f, m - {k}, rest);
      EntryParses(f, k, m[k], PutMap(f, m - {k}) + rest, m - {k}, rest);
      Regroup([1], PutKey(k), f.put(m[k]), PutMap(f, m - {k}), rest);
    }
  }

  lemma NoEntries<V(!new)>(f: Format<V>, rest: seq<nat>)
    ensures GetMap(f, PutMap(f, map[]) + rest) == Some((map[], rest))
  {
    assert ([0] + rest)[1..] == rest;
  }

  lemma WithoutOne<V>(m: map<Key, V>, k: Key)
    requires k in m
    ensures |m - {k}| < |m| && (m - {k})[k := m[k]] == m
  {
    assert (m - {k}).Keys == m.Keys - {k};
  }

  // ---- The serializer ----------------------------------------------------

  function PutCrc(c: bv32): (r: seq<nat>)
    ensures |r| == 4
  {
    var b := CrcBytes(c);
    [ByteValue(b[0]), ByteValue(b[1]), ByteValue(b[2]), ByteValue(b[3])]
  }

  function GetCrc(l: seq<nat>): bv32
    requires |l| == 4
  {
    CrcOfBytes([ByteOf(l[0] % 256), ByteOf(l[1] % 256), ByteOf(l[2] % 256), ByteOf(l[3] % 256)])
  }

  lemma CrcRoundTrip(c: bv32)
    ensures GetCrc(PutCrc(c)) == c
  {
    hide ByteOf, ByteValue, CrcBytes, CrcOfBytes;
    var b := CrcBytes(c);
    CrcBytesRoundTrip(c);
    ByteInverse(b[0]);
    ByteInverse(b[1]);
    ByteInverse(b[2]);
    ByteInverse(b[3]);
    assert b == [b[0], b[1], b[2], b[3]];
  }

  function PutInfo(e: ExtentInfo): seq<nat> {
    [e.offset, e.size, e.paddedSize, e.createdTxn, e.lastModified, e.metaLen, e.uncompressedSize] + PutCrc(e.crc)
  }

  function GetInfo(l: seq<nat>): Option<(ExtentInfo, seq<nat>)> {
    if |l| < 11 then None
    else Some((ExtentInfo(l[0], l[1], l[2], GetCrc(l[7..11]), l[3], l[4], l[5], l[6]), l[11..]))
  }

  function PutTomb(t: Tombstone): seq<nat> {
    [t.size, t.lastModified, t.txn] + PutCrc(t.crc)
  }

  function GetTomb(l: seq<nat>): Option<(Tombstone, seq<nat>)> {
    if |l| < 7 then None else Some((Tombstone(l[0], GetCrc(l[3..7]), l[1], l[2]), l[7..]))
  }

  lemma InfoRoundTrip(e: ExtentInfo, rest: seq<nat>)
    ensures GetInfo(PutInfo(e) + rest) == Some((e, rest))
  {
    hide PutCrc, GetCrc;
    CrcRoundTrip(e.crc);
    var l := PutInfo(e) + rest;
    assert l[7..11] == PutCrc(e.crc) && l[11..] == rest;
  }

  lemma TombRoundTrip(t: Tombstone, rest: seq<nat>)
    ensures GetTomb(PutTomb(t) + rest) == Some((t, rest))
  {
    hide PutCrc, GetCrc;
    CrcRoundTrip(t.crc);
    var l := PutTomb(t) + rest;
    assert l[3..7] == PutCrc(t.crc) && l[7..] == rest;
  }

  lemma FieldsAreLawful()
    ensures Format(PutInfo, GetInfo).Lawful() && Format(PutTomb, GetTomb).Lawful()
  {
    hide PutInfo, GetInfo, PutTomb, GetTomb;
    forall e: ExtentInfo, rest: seq<nat>
      ensures GetInfo(PutInfo(e) + rest) == Some((e, rest))
    {
      InfoRoundTrip(e, rest);
    }
    forall t: Tombstone, rest: seq<nat>
      ensures GetTomb(PutTomb(t) + rest) == Some((t, rest))
    {
      TombRoundTrip(t, rest);
    }
  }

  ghost function Enc(idx: Index): seq<byte> {
    PutNats(PutMap(Format(PutInfo, GetInfo), idx.files) + PutMap(Format(PutTomb, GetTomb), idx.tombs))
  }

  function Dec(s: seq<byte>): Option<Index> {
    match GetMap(Format(PutInfo, GetInfo), GetNats(s, 0))
    case None => None
    case Some((files, rest)) =>
      match GetMap(Format(PutTomb, GetTomb), rest)
      case None => None
      case Some((tombs, _)) => Some(Index(files, tombs))
  }

  lemma DecInvertsEnc(idx: Index)
    ensures Dec(Enc(idx)) == Some(idx) && Enc(idx) != []
  {
    var infos, tombs := Format(PutInfo, GetInfo), Format(PutTomb, GetTomb);
    FieldsAreLawful();
    var t := PutMap(tombs, idx.tombs);
    NatsRoundTrip(PutMap(infos, idx.files) + t);
    MapRoundTrip(infos, idx.files, t);
    MapRoundTrip(tombs, idx.tombs, []);
    assert t + [] == t;
  }

  ghost function Codec(): ShardCodec {
    ShardCodec(s => Enc(s), s => Dec(s))
  }

  /** A lawful serializer, whose empty shard takes two bytes. */
  lemma SomeCodecIsLawful()
    ensures Codec().Lawful() && Codec().enc(NOTHING) == [0, 0]
  {
    forall s: Index
      ensures Codec().enc(s) != [] && Codec().dec(Codec().enc(s)) == Some(s)
    {
      DecInvertsEnc(s);
    }
    EmptyEncoding();
  }

  lemma EmptyEncoding()
    ensures Enc(NOTHING) == [0, 0]
  {
    assert PutMap(Format(PutInfo, GetInfo), map[]) + PutMap(Format(PutTomb, GetTomb), map[]) == [0, 0];
    assert [0, 0][1..] == [0] && [0][1..] == [];
    assert PutNats([0]) == PutNat(0) + PutNats([]);
  }

  // ---- Sizes -------------------------------------------------------------

  lemma {:induction false} NatLength(n: nat)
    ensures |PutNat(n)| == n + 1
  {
    if n > 0 {
      NatLength(n - 1);
    }
  }

  /** Every number takes at least its own value in bytes, and one more. */
  lemma {:induction false} NatsAtLeast(l: seq<nat>, i: nat)
    requires i < |l|
    ensures l[i] < |PutNats(l)|
    decreases |l|
  {
    NatLength(l[0]);
    if i > 0 {
      NatsAtLeast(l[1..], i - 1);
    }
  }

  lemma {:induction false} NatsAtMost(l: seq<nat>, most: nat)
    requires forall i :: 0 <= i < |l| ==> l[i] <= most
    ensures |PutNats(l)| <= |l| * (most + 1)
    decreases |l|
  {
    if l != [] {
      NatLength(l[0]);
      NatsAtMost(l[1..], most);
      OneMore(|l| - 1, most + 1);
    }
  }

  lemma OneMore(n: nat, k: nat)
    ensures (n + 1) * k == n * k + k
  {}

  function OneEntry(k: Key, e: ExtentInfo): Index {
    Index(map[k := e], map[])
  }

  /** The numbers of a shard with a single entry. */
  function OneEntryNats(k: Key, e: ExtentInfo): seq<nat> {
    [1] + PutKey(k) + PutInfo(e) + [0] + [0]
  }

  lemma OneEntryEncoding(k: Key, e: ExtentInfo)
    ensures Enc(OneEntry(k, e)) == PutNats(OneEntryNats(k, e))
  {
    hide PutKey, PutInfo;
    var f := Format(PutInfo, GetInfo);
    assert k in map[k := e];
    PutMapNext(f, map[k := e]);
    assert map[k := e] - {k} == map[];
  }

  /** A single entry starts with a one, and its time alone takes that many bytes. */
  lemma OneEntrySize(k: Key, e: ExtentInfo)
    ensures 0 < e.lastModified + 1 <= |Enc(OneEntry(k, e))| && Enc(OneEntry(k, e))[0] == 1
    ensures |Enc(OneEntry(k, e))| >= 2 && Enc(OneEntry(k, e))[1] == 0
  {
    OneEntryEncoding(k, e);
    var l := OneEntryNats(k, e);
    assert l[1 + |PutKey(k)| + 4] == e.lastModified;
    NatsAtLeast(l, 1 + |PutKey(k)| + 4);
    assert l[0] == 1 && PutNat(1) == [1, 0];
    assert PutNats(l) == PutNat(1) + PutNats(l[1..]);
  }

  /** A small entry under the empty key. */
  lemma SmallEntrySize(e: ExtentInfo, most: nat)
    requires 255 <= most && e.offset <= most && e.size <= most && e.paddedSize <= most && e.createdTxn <= most
    requires e.lastModified <= most && e.metaLen <= most && e.uncompressedSize <= most
    ensures |Enc(OneEntry([], e))| <= 15 * (most + 1)
  {
    hide PutCrc;
    OneEntryEncoding([], e);
    CrcSmall(e.crc);
    assert PutKey([]) == [0];
    assert |OneEntryNats([], e)| == 15;
    NatsAtMost(OneEntryNats([], e), most);
  }

  lemma CrcSmall(c: bv32)
    ensures forall i :: 0 <= i < 4 ==> PutCrc(c)[i] <= 255
  {}
}
