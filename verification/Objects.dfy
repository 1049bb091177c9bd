/** The plain map that a device, its index and its codec stand for. */
module Objects {
  import opened Crc32c
  import opened Base
  import opened Blocks
  import opened Disks
  import opened Indexes

  function Concat(parts: seq<seq<byte>>): seq<byte> {
    if parts == [] then [] else Concat(parts[..|parts| - 1]) + parts[|parts| - 1]
  }

  /** The device's compression algorithm, decided outside the model. A failed compression
      hands the input back, which is never smaller and so never used. */
  datatype Compressor = Compressor(
    enabled: bool, compress: seq<byte> -> seq<byte>, compressParts: seq<seq<byte>> -> seq<byte>,
    decompress: seq<byte> -> Option<seq<byte>>)
  {
    ghost predicate Lawful() {
      && (forall x: seq<byte> :: compress(x) != [] && (|compress(x)| < |x| ==> decompress(compress(x)) == Some(x)))
      && (forall ps: seq<seq<byte>> :: compressParts(ps) != [] && decompress(compressParts(ps)) == Some(Concat(ps)))
    }
  }

  /** The algorithms behind the codes 0 to 12 of the superblock; code 0 is none. */
  type Compressors = nat -> Compressor

  const LAST_COMPRESSION: nat := 12

  ghost predicate LawfulCodes(zs: Compressors) {
    !zs(0).enabled && forall n: nat :: zs(n).Lawful()
  }

  /** The laws can be met by a compressor that does shorten something. */
  lemma SomeCompressorIsLawful()
    ensures exists z: Compressor, x: seq<byte> ::
      z.enabled && z.Lawful() && |x| >= COMPRESS_MIN && StoredForm(z, x) == (z.compress(x), |x|)
  {
    var x: seq<byte> := seq(COMPRESS_MIN, _ => 0);
    var compress := (y: seq<byte>) => if y == x then [1] else [0] + y;
    var expand := (y: seq<byte>) => if y == [] then None else if y[0] == 1 then Some(x) else Some(y[1..]);
    var z := Compressor(true, compress, ps => compress(Concat(ps)), expand);
    forall y: seq<byte>
      ensures compress(y) != [] && expand(compress(y)) == Some(y)
    {
      assert ([0] + y)[1..] == y;
    }
    assert z.Lawful();
    assert StoredForm(z, x) == (z.compress(x), |x|);
  }

  /** What a client stores: one payload whose last `metaLen` bytes are metadata. */
  datatype Object = Object(payload: seq<byte>, metaLen: nat) {
    function BodyLen(): nat { SaturatingSub(|payload|, metaLen) }
    function Body(): seq<byte> { payload[..BodyLen()] }
    function Meta(): seq<byte> { payload[BodyLen()..] }
  }

  const COMPRESS_MIN: nat := 4096

  /** The bytes to write for a payload, and its uncompressed size (0 if written as is). */
  function StoredForm(z: Compressor, payload: seq<byte>): (seq<byte>, nat) {
    if z.enabled && |payload| >= COMPRESS_MIN && |z.compress(payload)| < |payload|
    then (z.compress(payload), |payload|) else (payload, 0)
  }

  /** A payload is compressed only from 4096 bytes on, only on a compressing device, and only if
      that makes it shorter; what is written is never longer than the payload. */
  lemma CompressedIfShorter(z: Compressor, payload: seq<byte>)
    ensures |StoredForm(z, payload).0| <= |payload|
    ensures !z.enabled || |payload| < 4096 ==> StoredForm(z, payload) == (payload, 0)
    ensures z.enabled && |payload| >= 4096 ==> |StoredForm(z, payload).0| == Min(|payload|, |z.compress(payload)|)
    ensures StoredForm(z, payload).1 == if |StoredForm(z, payload).0| < |payload| then |payload| else 0
  {}

  /** The decoded content of an entry's extent. */
  function Stored(live: seq<byte>, info: ExtentInfo): Result<seq<byte>> {
    if |live| < info.offset + NumBlocks(info.size) * BLOCK then Err(Io)
    else Decode(live[info.offset..info.offset + NumBlocks(info.size) * BLOCK], info.size)
  }

  function Expand(z: Compressor, info: ExtentInfo, content: seq<byte>): Result<seq<byte>> {
    if info.uncompressedSize == 0 then Ok(content)
    else match z.decompress(content)
      case None => Err(Io)
      case Some(payload) => Ok(payload)
  }

  /** What a full read of an entry returns. */
  function Payload(z: Compressor, live: seq<byte>, info: ExtentInfo): Result<seq<byte>> {
    var content :- Stored(live, info);
    Expand(z, info, content)
  }

  /** An entry whose extent decodes to content with the recorded CRC and length. */
  predicate Intact(z: Compressor, live: seq<byte>, info: ExtentInfo) {
    && Stored(live, info).Ok? && Crc(Stored(live, info).value) == info.crc
    && Payload(z, live, info).Ok?
    && (info.uncompressedSize > 0 ==> |Payload(z, live, info).value| == info.uncompressedSize)
  }

  function ObjectOf(z: Compressor, live: seq<byte>, info: ExtentInfo): Object
    requires Intact(z, live, info)
  {
    Object(Payload(z, live, info).value, info.metaLen)
  }

  /** The abstract value of a store. */
  function ObjectsOf(z: Compressor, live: seq<byte>, files: map<Key, ExtentInfo>): map<Key, Object> {
    map k | k in files && Intact(z, live, files[k]) :: ObjectOf(z, live, files[k])
  }

  /** The logical size recorded for an entry. */
  function LogicalSize(info: ExtentInfo): nat {
    if info.uncompressedSize > 0 then info.uncompressedSize else info.size
  }

  lemma IntactSize(z: Compressor, live: seq<byte>, info: ExtentInfo)
    requires Intact(z, live, info)
    ensures |ObjectOf(z, live, info).payload| == LogicalSize(info)
  {
    hide Decode, Crc;
    if info.uncompressedSize == 0 {
      DecodeLength(live[info.offset..info.offset + NumBlocks(info.size) * BLOCK], info.size);
    }
  }

  /** Only the entry's own extent matters. */
  lemma SameExtentSameEntry(z: Compressor, live: seq<byte>, live': seq<byte>, info: ExtentInfo, info': ExtentInfo)
    requires info.size == info'.size && info.crc == info'.crc && info.uncompressedSize == info'.uncompressedSize
    requires info.offset + NumBlocks(info.size) * BLOCK <= |live| && info'.offset + NumBlocks(info.size) * BLOCK <= |live'|
    requires live[info.offset..info.offset + NumBlocks(info.size) * BLOCK]
          == live'[info'.offset..info'.offset + NumBlocks(info.size) * BLOCK]
    ensures Intact(z, live, info) <==> Intact(z, live', info')
    ensures Stored(live, info) == Stored(live', info') && Payload(z, live, info) == Payload(z, live', info')
  {
    hide Decode, Crc;
  }

  /** Writes outside all live extents change no object. */
  lemma ObjectsFrame(z: Compressor, d: Disk, d': Disk, files: map<Key, ExtentInfo>, dataEnd: nat, a: nat, b: nat)
    requires Placed(files, dataEnd) && dataEnd <= |d.live| && WroteWithin(d, d', a, b)
    requires forall k :: k in files ==> files[k].Place().End() <= a || b <= files[k].offset
    ensures ObjectsOf(z, d'.live, files) == ObjectsOf(z, d.live, files)
  {
    hide Intact, Payload, Stored;
    forall k | k in files
      ensures Intact(z, d.live, files[k]) <==> Intact(z, d'.live, files[k])
      ensures Payload(z, d.live, files[k]) == Payload(z, d'.live, files[k])
    {
      WroteOutside(d, d', a, b, files[k].offset, files[k].Place().End());
      SameExtentSameEntry(z, d.live, d'.live, files[k], files[k]);
    }
  }

  lemma ObjectsUpdate(z: Compressor, live: seq<byte>, files: map<Key, ExtentInfo>, key: Key, info: ExtentInfo, obj: Object)
    requires Intact(z, live, info) && ObjectOf(z, live, info) == obj
    ensures ObjectsOf(z, live, files[key := info]) == ObjectsOf(z, live, files)[key := obj]
  {
    hide Intact, Payload, Stored;
  }

  lemma ObjectsUpdateDamaged(z: Compressor, live: seq<byte>, files: map<Key, ExtentInfo>, key: Key, info: ExtentInfo)
    requires !Intact(z, live, info)
    ensures ObjectsOf(z, live, files[key := info]) == ObjectsOf(z, live, files) - {key}
  {
    hide Intact, Payload, Stored;
  }

  lemma ObjectsRemove(z: Compressor, live: seq<byte>, files: map<Key, ExtentInfo>, key: Key)
    ensures ObjectsOf(z, live, files - {key}) == ObjectsOf(z, live, files) - {key}
  {
    hide Intact, Payload, Stored;
  }

  /** Content written as it is reads back as itself. */
  lemma PlainIsIntact(z: Compressor, live: seq<byte>, content: seq<byte>, info: ExtentInfo)
    requires info.size == |content| && info.uncompressedSize == 0 && info.crc == Crc(content)
    requires info.offset + NumBlocks(info.size) * BLOCK <= |live|
    requires live[info.offset..info.offset + NumBlocks(info.size) * BLOCK] == Encode(content)
    ensures Intact(z, live, info) && ObjectOf(z, live, info) == Object(content, info.metaLen)
  {
    hide Decode, Encode, Crc;
    RoundTrip(content);
  }

  /** A payload written in its stored form reads back as itself. */
  lemma WrittenIsIntact(z: Compressor, live: seq<byte>, payload: seq<byte>, info: ExtentInfo)
    requires z.Lawful() && (info.size, info.uncompressedSize) == (|StoredForm(z, payload).0|, StoredForm(z, payload).1)
    requires info.crc == Crc(StoredForm(z, payload).0)
    requires info.offset + NumBlocks(info.size) * BLOCK <= |live|
    requires live[info.offset..info.offset + NumBlocks(info.size) * BLOCK] == Encode(StoredForm(z, payload).0)
    ensures Intact(z, live, info) && ObjectOf(z, live, info) == Object(payload, info.metaLen)
  {
    hide Decode, Encode, Crc;
    RoundTrip(StoredForm(z, payload).0);
  }
}
