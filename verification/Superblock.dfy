/** The commit record: two copies of one 4096-byte block, each carrying its own CRC. */
module Superblocks {
  import opened Crc32c
  import opened Base
  import opened Seqs

  // ---- Little-endian fields ----------------------------------------------

  function Pow256(w: nat): (r: nat)
    ensures r > 0
  {
    if w == 0 then 1 else 256 * Pow256(w - 1)
  }

  function ByteOf(n: nat): byte
    requires n < 256
  {
    n as byte
  }

  function ByteValue(b: byte): (n: nat)
    ensures n < 256
  {
    b as int
  }

  function LittleEndian(n: nat, w: nat): (r: seq<byte>)
    ensures |r| == w
  {
    if w == 0 then [] else [ByteOf(n % 256)] + LittleEndian(n / 256, w - 1)
  }

  function FromLittleEndian(s: seq<byte>): nat {
    if s == [] then 0 else ByteValue(s[0]) + 256 * FromLittleEndian(s[1..])
  }

  lemma {:induction false} FieldRoundTrip(n: nat, w: nat)
    requires n < Pow256(w)
    ensures FromLittleEndian(LittleEndian(n, w)) == n
    decreases w
  {
    hide ByteOf, ByteValue;
    if w > 0 {
      FieldRoundTrip(n / 256, w - 1);
      var s := LittleEndian(n, w);
      assert s[1..] == LittleEndian(n / 256, w - 1);
      ByteRoundTrip(n % 256);
    }
  }

  lemma ByteInverse(b: byte)
    ensures ByteOf(ByteValue(b)) == b
  {}

  lemma NextByte(b: byte)
    requires b != 255
    ensures ByteValue(b + 1) == ByteValue(b) + 1
  {}

  lemma {:induction false} ByteRoundTrip(n: nat)
    requires n < 256
    ensures ByteValue(ByteOf(n)) == n
  {
    if n == 0 {
      ByteInverse(0);
    } else {
      ByteRoundTrip(n - 1);
      var b := ByteOf(n - 1);
      assert b != 255 by { assert ByteValue(255) == 255; }
      NextByte(b);
      ByteInverse(b + 1);
    }
  }

  // ---- Records as lists of fixed-width fields ----------------------------

  function Width(widths: seq<nat>): nat {
    if widths == [] then 0 else widths[0] + Width(widths[1..])
  }

  function Pack(values: seq<nat>, widths: seq<nat>): (r: seq<byte>)
    requires |values| == |widths|
    ensures |r| == Width(widths)
  {
    if values == [] then [] else LittleEndian(values[0], widths[0]) + Pack(values[1..], widths[1..])
  }

  function Unpack(buf: seq<byte>, widths: seq<nat>): (r: seq<nat>)
    requires Width(widths) <= |buf|
    ensures |r| == |widths|
  {
    if widths == [] then []
    else [FromLittleEndian(buf[..widths[0]])] + Unpack(buf[widths[0]..], widths[1..])
  }

  ghost predicate Fits(values: seq<nat>, widths: seq<nat>) {
    |values| == |widths| && forall i :: 0 <= i < |values| ==> values[i] < Pow256(widths[i])
  }

  lemma {:induction false} PackRoundTrip(values: seq<nat>, widths: seq<nat>, rest: seq<byte>)
    requires Fits(values, widths)
    ensures Unpack(Pack(values, widths) + rest, widths) == values
    decreases |values|
  {
    if values != [] {
      var head, tail := LittleEndian(values[0], widths[0]), Pack(values[1..], widths[1..]);
      var buf := head + tail + rest;
      assert Pack(values, widths) + rest == buf;
      assert buf[..widths[0]] == head && buf[widths[0]..] == tail + rest;
      FieldRoundTrip(values[0], widths[0]);
      PackRoundTrip(values[1..], widths[1..], rest);
    }
  }

  lemma {:induction false} FieldFits(s: seq<byte>)
    ensures FromLittleEndian(s) < Pow256(|s|)
    decreases |s|
  {
    if s != [] {
      FieldFits(s[1..]);
    }
  }

  lemma {:induction false} FieldInverse(s: seq<byte>)
    ensures LittleEndian(FromLittleEndian(s), |s|) == s
    decreases |s|
  {
    hide ByteOf, ByteValue;
    if s != [] {
      FieldInverse(s[1..]);
      LowByte(ByteValue(s[0]), FromLittleEndian(s[1..]));
      ByteInverse(s[0]);
      assert s == [s[0]] + s[1..];
    }
  }

  lemma LowByte(b: nat, n: nat)
    requires b < 256
    ensures (b + 256 * n) % 256 == b && (b + 256 * n) / 256 == n
  {}

  /** A CRC as the unsigned number stored in records. */
  function Checksum(data: seq<byte>): (r: nat)
    ensures r < U32_LIMIT
  {
    var s := CrcBytes(Crc(data));
    FieldFits(s);
    assert Pow256(4) == U32_LIMIT;
    FromLittleEndian(s)
  }

  lemma ChecksumIsCrc(a: seq<byte>, b: seq<byte>)
    requires Checksum(a) == Checksum(b)
    ensures Crc(a) == Crc(b)
  {
    hide Crc, CrcBytes;
    FieldInverse(CrcBytes(Crc(a)));
    FieldInverse(CrcBytes(Crc(b)));
    CrcBytesRoundTrip(Crc(a));
    CrcBytesRoundTrip(Crc(b));
  }

  // ---- The record --------------------------------------------------------

  /** Which region holds a shard's active copy, and the length and CRC of that copy. */
  datatype SlotMeta = SlotMeta(active: nat, size: nat, crc: nat)

  datatype Superblock = Superblock(
    flags: nat, deviceSize: nat, blockAlignment: nat, indexRegionOffset: nat, indexRegionSize: nat, txnId: nat,
    indexChecksum: nat, prevIndexOffset: nat, prevIndexSize: nat, prevTxnId: nat, prevIndexChecksum: nat,
    slotCapacity: nat, slots: seq<SlotMeta>, maxKeyLength: nat, compression: nat)

  /** "RAWOBJST" */
  const MAGIC: nat := 0x5453_4A42_4F57_4152
  const VERSION: nat := 4

  const CHECKSUM_OFFSET: nat := 60
  const PREFIX_WIDTHS: seq<nat> := [8, 4, 4, 8, 8, 8, 8, 8, 4]
  const MIDDLE_WIDTHS: seq<nat> := [8, 8, 8, 4, 8, 8]
  const SLOT_WIDTHS: seq<nat> := [1, 4, 4]
  const SUFFIX_WIDTHS: seq<nat> := [4, 1]

  function Prefix(sb: Superblock): (r: seq<nat>)
    ensures |r| == 9
  {
    [MAGIC, VERSION, sb.flags, sb.deviceSize, sb.blockAlignment, sb.indexRegionOffset, sb.indexRegionSize,
     sb.txnId, sb.indexChecksum]
  }

  function Middle(sb: Superblock): (r: seq<nat>)
    ensures |r| == 6 && r[5] == |sb.slots|
  {
    [sb.prevIndexOffset, sb.prevIndexSize, sb.prevTxnId, sb.prevIndexChecksum, sb.slotCapacity, |sb.slots|]
  }

  function Suffix(sb: Superblock): (r: seq<nat>)
    ensures |r| == 2
  {
    [sb.maxKeyLength, sb.compression]
  }

  function SlotFields(m: SlotMeta): seq<nat> {
    [m.active, m.size, m.crc]
  }

  lemma Widths()
    ensures Width(PREFIX_WIDTHS) == 60 && Width(MIDDLE_WIDTHS) == 44
    ensures Width(SLOT_WIDTHS) == 9 && Width(SUFFIX_WIDTHS) == 5
  {}

  function PackSlots(slots: seq<SlotMeta>): (r: seq<byte>)
    ensures |r| == 9 * |slots|
  {
    Widths();
    if slots == [] then [] else Pack(SlotFields(slots[0]), SLOT_WIDTHS) + PackSlots(slots[1..])
  }

  function UnpackSlots(buf: seq<byte>, n: nat): (r: seq<SlotMeta>)
    requires 9 * n <= |buf|
    ensures |r| == n
  {
    Widths();
    if n == 0 then [] else
      var f := Unpack(buf, SLOT_WIDTHS);
      [SlotMeta(f[0], f[1], f[2])] + UnpackSlots(buf[9..], n - 1)
  }

  /** Every field fits its width in the record. */
  ghost predicate Encodable(sb: Superblock) {
    && Fits(Prefix(sb), PREFIX_WIDTHS) && Fits(Middle(sb), MIDDLE_WIDTHS) && Fits(Suffix(sb), SUFFIX_WIDTHS)
    && forall i :: 0 <= i < |sb.slots| ==> Fits(SlotFields(sb.slots[i]), SLOT_WIDTHS)
  }

  function SerializedLength(n: nat): nat { 113 + 9 * n }

  function Serialize(sb: Superblock, checksum: nat): (r: seq<byte>)
    ensures |r| == SerializedLength(|sb.slots|)
  {
    Widths();
    Pack(Prefix(sb), PREFIX_WIDTHS) + LittleEndian(checksum, 4)
    + (Pack(Middle(sb), MIDDLE_WIDTHS) + (PackSlots(sb.slots) + Pack(Suffix(sb), SUFFIX_WIDTHS)))
  }

  datatype Parsed = Parsed(magic: nat, version: nat, sb: Superblock, checksum: nat)

  function FromFields(p: seq<nat>, checksum: nat, m: seq<nat>, slots: seq<SlotMeta>, x: seq<nat>): Parsed
    requires |p| == 9 && |m| == 6 && |x| == 2
  {
    Parsed(p[0], p[1],
           Superblock(p[2], p[3], p[4], p[5], p[6], p[7], p[8], m[0], m[1], m[2], m[3], m[4], slots, x[0], x[1]),
           checksum)
  }

  function Deserialize(buf: seq<byte>): Result<Parsed> {
    Widths();
    if |buf| < 108 then Err(Bincode) else
    var p, m := Unpack(buf, PREFIX_WIDTHS), Unpack(buf[64..], MIDDLE_WIDTHS);
    var n := m[5];
    if |buf| < SerializedLength(n) then Err(Bincode) else
    var x := Unpack(buf[108 + 9 * n..], SUFFIX_WIDTHS);
    Ok(FromFields(p, FromLittleEndian(buf[60..64]), m, UnpackSlots(buf[108..], n), x))
  }

  lemma FieldsRoundTrip(sb: Superblock, checksum: nat)
    ensures FromFields(Prefix(sb), checksum, Middle(sb), sb.slots, Suffix(sb)) == Parsed(MAGIC, VERSION, sb, checksum)
  {}

  lemma {:induction false} SlotsRoundTrip(slots: seq<SlotMeta>, rest: seq<byte>)
    requires forall i :: 0 <= i < |slots| ==> Fits(SlotFields(slots[i]), SLOT_WIDTHS)
    ensures UnpackSlots(PackSlots(slots) + rest, |slots|) == slots
    decreases |slots|
  {
    hide Fits, Pack, Unpack, Width;
    if slots != [] {
      Widths();
      var head, tail := Pack(SlotFields(slots[0]), SLOT_WIDTHS), PackSlots(slots[1..]);
      assert PackSlots(slots) + rest == head + (tail + rest);
      assert (head + (tail + rest))[9..] == tail + rest;
      PackRoundTrip(SlotFields(slots[0]), SLOT_WIDTHS, tail + rest);
      SlotsRoundTrip(slots[1..], rest);
      assert slots == [slots[0]] + slots[1..];
    }
  }

  lemma FiveParts(p: seq<byte>, c: seq<byte>, m: seq<byte>, s: seq<byte>, x: seq<byte>, rest: seq<byte>)
    ensures
      var buf := p + c + (m + (s + x)) + rest;
      var n := |p| + |c|;
      && buf == p + (c + (m + (s + x)) + rest)
      && buf[|p|..n] == c && buf[n..] == m + (s + x + rest)
      && buf[n + |m|..] == s + (x + rest) && buf[n + |m| + |s|..] == x + rest
  {
    var buf, n := p + c + (m + (s + x)) + rest, |p| + |c|;
    assert buf == p + (c + (m + (s + x)) + rest);
    assert buf == p + c + (m + (s + x + rest));
    assert buf == p + c + m + (s + (x + rest));
    assert buf == p + c + m + s + (x + rest);
  }

  lemma DeserializeSerialize(sb: Superblock, checksum: nat, rest: seq<byte>)
    requires Encodable(sb) && checksum < U32_LIMIT
    ensures Deserialize(Serialize(sb, checksum) + rest) == Ok(Parsed(MAGIC, VERSION, sb, checksum))
  {
    hide Pack, Unpack, PackSlots, UnpackSlots, LittleEndian, FromLittleEndian, Fits, Width;
    hide Prefix, Middle, Suffix, FromFields;
    Widths();
    var p, c := Pack(Prefix(sb), PREFIX_WIDTHS), LittleEndian(checksum, 4);
    var m, s, x := Pack(Middle(sb), MIDDLE_WIDTHS), PackSlots(sb.slots), Pack(Suffix(sb), SUFFIX_WIDTHS);
    FieldsRoundTrip(sb, checksum);
    FiveParts(p, c, m, s, x, rest);
    PackRoundTrip(Prefix(sb), PREFIX_WIDTHS, c + (m + (s + x)) + rest);
    PackRoundTrip(Middle(sb), MIDDLE_WIDTHS, s + x + rest);
    SlotsRoundTrip(sb.slots, x + rest);
    PackRoundTrip(Suffix(sb), SUFFIX_WIDTHS, rest);
    ChecksumField(checksum);
  }

  lemma ChecksumField(checksum: nat)
    requires checksum < U32_LIMIT
    ensures FromLittleEndian(LittleEndian(checksum, 4)) == checksum
  {
    assert Pow256(4) == U32_LIMIT;
    FieldRoundTrip(checksum, 4);
  }

  // ---- Bytes on disk -----------------------------------------------------

  function PadBlock(data: seq<byte>): (r: seq<byte>)
    requires |data| <= SUPERBLOCK_SIZE
    ensures |r| == SUPERBLOCK_SIZE
  {
    data + seq(SUPERBLOCK_SIZE - |data|, _ => 0)
  }

  /** One on-disk copy: the record with the CRC of itself-with-a-zero-CRC filled in. */
  function CopyBytes(sb: Superblock): (r: seq<byte>)
    requires |sb.slots| == NUM_SHARDS
    ensures |r| == SUPERBLOCK_SIZE
  {
    PadBlock(Serialize(sb, Checksum(PadBlock(Serialize(sb, 0)))))
  }

  const ZERO_FIELD: seq<byte> := [0, 0, 0, 0]

  /** Parse and validate one on-disk copy. */
  function FromBytes(buf: seq<byte>): Result<Superblock>
    requires |buf| == SUPERBLOCK_SIZE
  {
    var p :- Deserialize(buf);
    if p.magic != MAGIC then Err(NotFormatted)
    else if p.version != VERSION then Err(Io)
    else if |p.sb.slots| != NUM_SHARDS then Err(Io)
    else if p.sb.blockAlignment == 0 then Err(SuperblockCorrupt)
    else if Checksum(Patch(buf, CHECKSUM_OFFSET, ZERO_FIELD)) != p.checksum then Err(SuperblockCorrupt)
    else Ok(p.sb)
  }

  /** Only the four bytes of the checksum field depend on the checksum. */
  lemma SerializeChecksum(sb: Superblock, a: nat, b: nat)
    ensures 64 <= |Serialize(sb, a)| == |Serialize(sb, b)|
    ensures Serialize(sb, a)[CHECKSUM_OFFSET..CHECKSUM_OFFSET + 4] == LittleEndian(a, 4)
    ensures Serialize(sb, b) == Patch(Serialize(sb, a), CHECKSUM_OFFSET, LittleEndian(b, 4))
  {
    hide Pack, PackSlots, LittleEndian, Width;
    Widths();
    var p, m := Pack(Prefix(sb), PREFIX_WIDTHS), Pack(Middle(sb), MIDDLE_WIDTHS) + (PackSlots(sb.slots) + Pack(Suffix(sb), SUFFIX_WIDTHS));
    var s := Serialize(sb, a);
    assert s == p + LittleEndian(a, 4) + m;
    assert s[..60] == p && s[64..] == m;
  }

  lemma ZeroField()
    ensures LittleEndian(0, 4) == ZERO_FIELD
  {
    assert ByteOf(0) == 0;
    assert LittleEndian(0, 1) == [0];
    assert LittleEndian(0, 2) == [0, 0];
    assert LittleEndian(0, 3) == [0, 0, 0];
  }

  lemma PadPatch(data: seq<byte>, off: nat, field: seq<byte>)
    requires |data| <= SUPERBLOCK_SIZE && off + |field| <= |data|
    ensures PadBlock(Patch(data, off, field)) == Patch(PadBlock(data), off, field)
  {}

  lemma CopyRoundTrip(sb: Superblock)
    requires Encodable(sb) && |sb.slots| == NUM_SHARDS && sb.blockAlignment > 0
    ensures FromBytes(CopyBytes(sb)) == Ok(sb)
  {
    hide Serialize, Deserialize, Checksum, Patch, LittleEndian, Encodable;
    var zero := Serialize(sb, 0);
    var c := Checksum(PadBlock(zero));
    var buf := CopyBytes(sb);
    DeserializeSerialize(sb, c, seq(SUPERBLOCK_SIZE - |zero|, _ => 0));
    SerializeChecksum(sb, c, 0);
    ZeroField();
    PadPatch(Serialize(sb, c), CHECKSUM_OFFSET, ZERO_FIELD);
  }

  /** Search for the checksum field by serializing with two different checksums. */
  method LocateChecksum(sb: Superblock) returns (off: Result<nat>)
    ensures off == Ok(CHECKSUM_OFFSET)
  {
    hide Pack, PackSlots, LittleEndian, Serialize, Patch;
    var data, probe := Serialize(sb, 0), Serialize(sb, 0xDEAD_BEEF);
    FirstDifference(sb);
    for i := 0 to |data|
      invariant i <= CHECKSUM_OFFSET
    {
      if data[i] != probe[i] {
        return Ok(i);
      }
    }
    return Err(Io);
  }

  lemma ProbeByte()
    ensures LittleEndian(0, 4)[0] != LittleEndian(0xDEAD_BEEF, 4)[0]
  {
    hide ByteOf, ByteValue;
    assert LittleEndian(0, 4)[0] == ByteOf(0) && LittleEndian(0xDEAD_BEEF, 4)[0] == ByteOf(0xEF);
    ByteRoundTrip(0);
    ByteRoundTrip(0xEF);
  }

  lemma FirstDifference(sb: Superblock)
    ensures
      var data, probe := Serialize(sb, 0), Serialize(sb, 0xDEAD_BEEF);
      |data| == |probe| > CHECKSUM_OFFSET && data[CHECKSUM_OFFSET] != probe[CHECKSUM_OFFSET] &&
      forall i :: 0 <= i < CHECKSUM_OFFSET ==> data[i] == probe[i]
  {
    hide Serialize, LittleEndian;
    var data, probe := Serialize(sb, 0), Serialize(sb, 0xDEAD_BEEF);
    SerializeChecksum(sb, 0, 0xDEAD_BEEF);
    ProbeByte();
    assert data[60] == data[60..64][0];
  }

  method ToBytes(sb: Superblock) returns (r: Result<seq<byte>>)
    ensures |sb.slots| == NUM_SHARDS ==> r == Ok(CopyBytes(sb))
    ensures r.Err? <==> SerializedLength(|sb.slots|) > SUPERBLOCK_SIZE
  {
    hide Serialize, Checksum, Patch, LittleEndian;
    var data := Serialize(sb, 0);
    if |data| > SUPERBLOCK_SIZE {
      return Err(Io);
    }
    var buf := PadBlock(data);
    var checksum := Checksum(buf);
    var off := LocateChecksum(sb);
    SerializeChecksum(sb, 0, checksum);
    PadPatch(data, CHECKSUM_OFFSET, LittleEndian(checksum, 4));
    r := Ok(Patch(buf, off.value, LittleEndian(checksum, 4)));
  }

  method Parse(buf: seq<byte>) returns (r: Result<Superblock>)
    requires |buf| == SUPERBLOCK_SIZE
    ensures r == FromBytes(buf)
  {
    hide Deserialize, Checksum, Patch;
    var parsed := Deserialize(buf);
    if parsed.Err? {
      return Err(parsed.error);
    }
    var sb := parsed.value.sb;
    if parsed.value.magic != MAGIC {
      return Err(NotFormatted);
    }
    if parsed.value.version != VERSION || |sb.slots| != NUM_SHARDS {
      return Err(Io);
    }
    if sb.blockAlignment == 0 {
      return Err(SuperblockCorrupt);
    }
    var off := LocateChecksum(sb);
    var expected := Checksum(Patch(buf, off.value, ZERO_FIELD));
    r := if expected != parsed.value.checksum then Err(SuperblockCorrupt) else Ok(sb);
  }

  // ---- Where each field lies ---------------------------------------------

  /** The little-endian number at `[at, at + w)`. */
  function NumberAt(buf: seq<byte>, at: nat, w: nat): nat
    requires at + w <= |buf|
  {
    FromLittleEndian(buf[at..at + w])
  }

  lemma {:induction false} UnpackField(buf: seq<byte>, widths: seq<nat>, i: nat)
    requires Width(widths) <= |buf| && i < |widths|
    ensures Width(widths[..i]) + widths[i] <= Width(widths)
    ensures Unpack(buf, widths)[i] == NumberAt(buf, Width(widths[..i]), widths[i])
    decreases i
  {
    hide FromLittleEndian;
    if i > 0 {
      UnpackField(buf[widths[0]..], widths[1..], i - 1);
      assert widths[..i][1..] == widths[1..][..i - 1];
      var at, w := Width(widths[1..][..i - 1]), widths[i];
      SliceSlice(buf, widths[0], |buf|, at, at + w);
      assert buf[widths[0]..][at..at + w] == buf[widths[0] + at..widths[0] + at + w];
    }
  }

  lemma {:induction false} UnpackSlot(buf: seq<byte>, n: nat, i: nat)
    requires 9 * n <= |buf| && i < n
    ensures UnpackSlots(buf, n)[i] == SlotMeta(NumberAt(buf, 9 * i, 1), NumberAt(buf, 9 * i + 1, 4), NumberAt(buf, 9 * i + 5, 4))
    decreases i
  {
    hide FromLittleEndian, Unpack;
    Widths();
    if i == 0 {
      SlotOffsets();
      UnpackField(buf, SLOT_WIDTHS, 0);
      UnpackField(buf, SLOT_WIDTHS, 1);
      UnpackField(buf, SLOT_WIDTHS, 2);
    } else {
      UnpackSlot(buf[9..], n - 1, i - 1);
      NumberBehind(buf, 9, 9 * (i - 1), 1);
      NumberBehind(buf, 9, 9 * (i - 1) + 1, 4);
      NumberBehind(buf, 9, 9 * (i - 1) + 5, 4);
    }
  }

  lemma NumberBehind(buf: seq<byte>, from: nat, at: nat, w: nat)
    requires from + at + w <= |buf|
    ensures NumberAt(buf[from..], at, w) == NumberAt(buf, from + at, w)
  {
    hide FromLittleEndian;
    SliceSlice(buf, from, |buf|, at, at + w);
    assert buf[from..] == buf[from..|buf|];
  }

  lemma {:induction false} WidthNext(widths: seq<nat>, i: nat)
    requires i < |widths|
    ensures Width(widths[..i + 1]) == Width(widths[..i]) + widths[i]
    decreases i
  {
    assert widths[..i + 1][1..] == widths[1..][..i];
    if i == 0 {
      assert widths[..1] == [widths[0]];
    } else {
      WidthNext(widths[1..], i - 1);
      assert widths[..i][1..] == widths[1..][..i - 1];
    }
  }

  lemma SlotOffsets()
    ensures Width(SLOT_WIDTHS[..0]) == 0 && Width(SLOT_WIDTHS[..1]) == 1 && Width(SLOT_WIDTHS[..2]) == 5
  {
    WidthNext(SLOT_WIDTHS, 0);
    WidthNext(SLOT_WIDTHS, 1);
  }

  lemma PrefixOffsets()
    ensures Width(PREFIX_WIDTHS[..0]) == 0 && Width(PREFIX_WIDTHS[..1]) == 8 && Width(PREFIX_WIDTHS[..2]) == 12
    ensures Width(PREFIX_WIDTHS[..3]) == 16 && Width(PREFIX_WIDTHS[..4]) == 24 && Width(PREFIX_WIDTHS[..5]) == 32
    ensures Width(PREFIX_WIDTHS[..6]) == 40 && Width(PREFIX_WIDTHS[..7]) == 48 && Width(PREFIX_WIDTHS[..8]) == 56
  {
    var w := PREFIX_WIDTHS;
    WidthNext(w, 0);
    WidthNext(w, 1);
    WidthNext(w, 2);
    WidthNext(w, 3);
    WidthNext(w, 4);
    WidthNext(w, 5);
    WidthNext(w, 6);
    WidthNext(w, 7);
  }

  lemma MiddleOffsets()
    ensures Width(MIDDLE_WIDTHS[..0]) == 0 && Width(MIDDLE_WIDTHS[..1]) == 8 && Width(MIDDLE_WIDTHS[..2]) == 16
    ensures Width(MIDDLE_WIDTHS[..3]) == 24 && Width(MIDDLE_WIDTHS[..4]) == 28 && Width(MIDDLE_WIDTHS[..5]) == 36
  {
    var w := MIDDLE_WIDTHS;
    WidthNext(w, 0);
    WidthNext(w, 1);
    WidthNext(w, 2);
    WidthNext(w, 3);
    WidthNext(w, 4);
  }

  /** The fields in front of the checksum, at their absolute places. */
  ghost predicate PrefixAt(buf: seq<byte>, p: Parsed)
    requires |buf| == 4096
  {
    && p.magic == NumberAt(buf, 0, 8) && p.version == NumberAt(buf, 8, 4)
    && p.sb.flags == NumberAt(buf, 12, 4) && p.sb.deviceSize == NumberAt(buf, 16, 8)
    && p.sb.blockAlignment == NumberAt(buf, 24, 8) && p.sb.indexRegionOffset == NumberAt(buf, 32, 8)
    && p.sb.indexRegionSize == NumberAt(buf, 40, 8) && p.sb.txnId == NumberAt(buf, 48, 8)
    && p.sb.indexChecksum == NumberAt(buf, 56, 4) && p.checksum == NumberAt(buf, 60, 4)
  }

  /** The fields between the checksum and the slots. */
  ghost predicate MiddleAt(buf: seq<byte>, sb: Superblock)
    requires |buf| == 4096
  {
    && sb.prevIndexOffset == NumberAt(buf, 64, 8) && sb.prevIndexSize == NumberAt(buf, 72, 8)
    && sb.prevTxnId == NumberAt(buf, 80, 8) && sb.prevIndexChecksum == NumberAt(buf, 88, 4)
    && sb.slotCapacity == NumberAt(buf, 92, 8) && |sb.slots| == NumberAt(buf, 100, 8)
  }

  /** 256 slot entries of nine bytes, then key limit and compression. */
  ghost predicate TailAt(buf: seq<byte>, sb: Superblock)
    requires |buf| == 4096
  {
    && |sb.slots| == 256
    && (forall i :: 0 <= i < 256 ==>
          sb.slots[i] == SlotMeta(NumberAt(buf, 108 + 9 * i, 1), NumberAt(buf, 109 + 9 * i, 4), NumberAt(buf, 113 + 9 * i, 4)))
    && sb.maxKeyLength == NumberAt(buf, 2412, 4) && sb.compression == NumberAt(buf, 2416, 1)
  }

  lemma ParsedPrefix(buf: seq<byte>)
    requires |buf| == 4096
    ensures Deserialize(buf).Ok? ==> PrefixAt(buf, Deserialize(buf).value)
  {
    hide FromLittleEndian, Unpack, UnpackSlots, Width;
    Widths();
    PrefixOffsets();
    forall i | 0 <= i < 9
      ensures Width(PREFIX_WIDTHS[..i]) + PREFIX_WIDTHS[i] <= 4096
      ensures Unpack(buf, PREFIX_WIDTHS)[i] == NumberAt(buf, Width(PREFIX_WIDTHS[..i]), PREFIX_WIDTHS[i])
    {
      UnpackField(buf, PREFIX_WIDTHS, i);
    }
  }

  lemma ParsedMiddle(buf: seq<byte>)
    requires |buf| == 4096
    ensures Deserialize(buf).Ok? ==> MiddleAt(buf, Deserialize(buf).value.sb)
    ensures Deserialize(buf).Ok? <==> SerializedLength(NumberAt(buf, 100, 8)) <= 4096
  {
    hide FromLittleEndian, Unpack, UnpackSlots, Width, NumberAt;
    Widths();
    MiddleOffsets();
    forall i | 0 <= i < 6
      ensures Width(MIDDLE_WIDTHS[..i]) + MIDDLE_WIDTHS[i] <= 4032
      ensures Unpack(buf[64..], MIDDLE_WIDTHS)[i] == NumberAt(buf, 64 + Width(MIDDLE_WIDTHS[..i]), MIDDLE_WIDTHS[i])
    {
      UnpackField(buf[64..], MIDDLE_WIDTHS, i);
      NumberBehind(buf, 64, Width(MIDDLE_WIDTHS[..i]), MIDDLE_WIDTHS[i]);
    }
  }

  lemma ParsedTail(buf: seq<byte>)
    requires |buf| == 4096 && Deserialize(buf).Ok? && |Deserialize(buf).value.sb.slots| == 256
    ensures TailAt(buf, Deserialize(buf).value.sb)
  {
    hide FromLittleEndian, Unpack, UnpackSlots, Width, NumberAt;
    Widths();
    var slots := UnpackSlots(buf[108..], 256);
    forall i | 0 <= i < 256
      ensures slots[i] == SlotMeta(NumberAt(buf, 108 + 9 * i, 1), NumberAt(buf, 109 + 9 * i, 4), NumberAt(buf, 113 + 9 * i, 4))
    {
      UnpackSlot(buf[108..], 256, i);
      NumberBehind(buf, 108, 9 * i, 1);
      NumberBehind(buf, 108, 9 * i + 1, 4);
      NumberBehind(buf, 108, 9 * i + 5, 4);
    }
    UnpackField(buf[2412..], SUFFIX_WIDTHS, 0);
    UnpackField(buf[2412..], SUFFIX_WIDTHS, 1);
    assert SUFFIX_WIDTHS[..0] == [] && SUFFIX_WIDTHS[..1] == [4];
    NoWidth();
    NumberBehind(buf, 2412, 0, 4);
    NumberBehind(buf, 2412, 4, 1);
  }

  lemma NoWidth()
    ensures Width([]) == 0 && Width([4]) == 4
  {}

  /** A block is accepted exactly if it starts with "RAWOBJST", has version 4 and 256 slots, a
      block alignment, and the checksum of the block with the checksum field zeroed. What is
      read is what stands at the place of each field. */
  lemma AcceptedExactly(buf: seq<byte>)
    requires |buf| == 4096
    ensures FromBytes(buf).Ok? <==>
      && NumberAt(buf, 0, 8) == MAGIC && NumberAt(buf, 8, 4) == 4 && NumberAt(buf, 100, 8) == 256
      && NumberAt(buf, 24, 8) > 0 && NumberAt(buf, 60, 4) == Checksum(Patch(buf, 60, ZERO_FIELD))
    ensures FromBytes(buf).Ok? ==>
      var sb := FromBytes(buf).value;
      PrefixAt(buf, Parsed(MAGIC, 4, sb, Checksum(Patch(buf, 60, ZERO_FIELD)))) && MiddleAt(buf, sb) && TailAt(buf, sb)
    ensures FromBytes(buf).Err? && NumberAt(buf, 100, 8) == 256 ==>
      FromBytes(buf).error == if NumberAt(buf, 0, 8) != MAGIC then NotFormatted
                              else if NumberAt(buf, 8, 4) != 4 then Io else SuperblockCorrupt
  {
    hide Deserialize, Checksum, Patch, NumberAt;
    ParsedPrefix(buf);
    ParsedMiddle(buf);
    if FromBytes(buf).Ok? {
      ParsedTail(buf);
    }
  }

  /** The fields of a written copy, at their absolute places. */
  lemma CopyFields(sb: Superblock)
    requires Encodable(sb) && |sb.slots| == NUM_SHARDS && sb.blockAlignment > 0
    ensures
      var buf := CopyBytes(sb);
      PrefixAt(buf, Parsed(MAGIC, 4, sb, Checksum(Patch(buf, 60, ZERO_FIELD)))) && MiddleAt(buf, sb) && TailAt(buf, sb)
  {
    hide Encodable, Checksum, Patch, CopyBytes, FromBytes, NumberAt;
    CopyRoundTrip(sb);
    AcceptedExactly(CopyBytes(sb));
  }

  /** A block that starts with the magic number starts with "RAWOBJST". */
  lemma MagicIs(buf: seq<byte>)
    requires |buf| >= 8
    ensures NumberAt(buf, 0, 8) == MAGIC <==> buf[..8] == [0x52, 0x41, 0x57, 0x4F, 0x42, 0x4A, 0x53, 0x54]
  {
    hide ByteOf, ByteValue;
    var m: seq<byte> := [0x52, 0x41, 0x57, 0x4F, 0x42, 0x4A, 0x53, 0x54];
    MagicValue(m);
    FieldInverse(m);
    FieldInverse(buf[..8]);
  }

  lemma MagicValue(m: seq<byte>)
    requires m == [0x52, 0x41, 0x57, 0x4F, 0x42, 0x4A, 0x53, 0x54]
    ensures FromLittleEndian(m) == MAGIC
  {
    assert ByteValue(0x52) == 0x52 && ByteValue(0x41) == 0x41 && ByteValue(0x57) == 0x57 && ByteValue(0x4F) == 0x4F;
    assert ByteValue(0x42) == 0x42 && ByteValue(0x4A) == 0x4A && ByteValue(0x53) == 0x53 && ByteValue(0x54) == 0x54;
    assert m[7..] == [0x54] && m[6..] == [0x53, 0x54] && m[5..] == [0x4A, 0x53, 0x54] && m[4..] == [0x42, 0x4A, 0x53, 0x54];
    assert FromLittleEndian([]) == 0;
    assert FromLittleEndian(m[8..]) == 0;
    assert FromLittleEndian(m[7..]) == 0x54;
    assert m[6..][1..] == m[7..] && m[5..][1..] == m[6..] && m[4..][1..] == m[5..] && m[3..][1..] == m[4..];
    assert m[2..][1..] == m[3..] && m[1..][1..] == m[2..];
    assert FromLittleEndian(m[6..]) == 0x5453;
    assert FromLittleEndian(m[4..]) == 0x5453_4A42;
    assert FromLittleEndian(m[2..]) == 0x5453_4A42_4F57;
  }

  // ---- Damage ------------------------------------------------------------

  lemma AcceptedChecksum(buf: seq<byte>)
    requires |buf| == SUPERBLOCK_SIZE && FromBytes(buf).Ok?
    ensures Checksum(Patch(buf, CHECKSUM_OFFSET, ZERO_FIELD)) == FromLittleEndian(buf[60..64])
  {
    hide Unpack, UnpackSlots, FromLittleEndian, Checksum, Patch, Width;
  }

  lemma SameField(pre: seq<byte>, w: seq<byte>, w': seq<byte>, post: seq<byte>)
    requires |w| == |w'| && 60 <= |pre| && |pre| + |w| <= 64 <= |pre| + |w| + |post|
    requires (pre + w + post)[60..64] == (pre + w' + post)[60..64]
    ensures w == w'
  {
    var a, b := pre + w + post, pre + w' + post;
    SliceSlice(a, 60, 64, |pre| - 60, |pre| + |w| - 60);
    SliceSlice(b, 60, 64, |pre| - 60, |pre| + |w| - 60);
    assert w == a[|pre|..|pre| + |w|] && w' == b[|pre|..|pre| + |w|];
  }

  lemma SameCrcOutside(pre: seq<byte>, w: seq<byte>, w': seq<byte>, post: seq<byte>)
    requires |pre| + |w| + |post| == SUPERBLOCK_SIZE && |w| == |w'| <= 4
    requires |pre| + |w| <= 60 || 64 <= |pre|
    requires Crc(Patch(pre + w + post, CHECKSUM_OFFSET, ZERO_FIELD)) == Crc(Patch(pre + w' + post, CHECKSUM_OFFSET, ZERO_FIELD))
    ensures w == w'
  {
    hide Crc;
    var za, zb := Patch(pre + w + post, CHECKSUM_OFFSET, ZERO_FIELD), Patch(pre + w' + post, CHECKSUM_OFFSET, ZERO_FIELD);
    if 64 <= |pre| {
      var p := Patch(pre, CHECKSUM_OFFSET, ZERO_FIELD);
      assert za == p + w + post && zb == p + w' + post;
      BurstDetected(p, w, w', post);
    } else {
      var q := Patch(post, 60 - |pre| - |w|, ZERO_FIELD);
      assert za == pre + w + q && zb == pre + w' + q;
      BurstDetected(pre, w, w', q);
    }
  }

  lemma AcceptedCopiesAgree(pre: seq<byte>, w: seq<byte>, w': seq<byte>, post: seq<byte>)
    requires |pre| + |w| + |post| == SUPERBLOCK_SIZE && |w| == |w'| <= 4
    requires |pre| + |w| <= 60 || 64 <= |pre| || (60 <= |pre| && |pre| + |w| <= 64)
    requires FromBytes(pre + w + post).Ok? && FromBytes(pre + w' + post).Ok?
    ensures w == w'
  {
    hide FromBytes, FromLittleEndian, Checksum, Crc;
    var a, b := pre + w + post, pre + w' + post;
    AcceptedChecksum(a);
    AcceptedChecksum(b);
    var za, zb := Patch(a, CHECKSUM_OFFSET, ZERO_FIELD), Patch(b, CHECKSUM_OFFSET, ZERO_FIELD);
    if 60 <= |pre| && |pre| + |w| <= 64 {
      assert za == zb;
      FieldInverse(a[60..64]);
      FieldInverse(b[60..64]);
      SameField(pre, w, w', post);
    } else {
      assert a[60..64] == b[60..64];
      ChecksumIsCrc(za, zb);
      SameCrcOutside(pre, w, w', post);
    }
  }

  /** Damage confined to four consecutive bytes inside or outside the checksum field of a
      valid copy makes it invalid. */
  lemma CopyDamageDetected(pre: seq<byte>, w: seq<byte>, w': seq<byte>, post: seq<byte>)
    requires |pre| + |w| + |post| == SUPERBLOCK_SIZE && |w| == |w'| <= 4 && w != w'
    requires |pre| + |w| <= 60 || 64 <= |pre| || (60 <= |pre| && |pre| + |w| <= 64)
    requires FromBytes(pre + w + post).Ok?
    ensures FromBytes(pre + w' + post).Err?
  {
    hide FromBytes;
    if FromBytes(pre + w' + post).Ok? {
      AcceptedCopiesAgree(pre, w, w', post);
    }
  }
}
