/** Extent codec: a payload cut into 4092-byte pieces, each stored in a 4096-byte block
    behind the CRC-32C of its zero-padded data region. */
module Blocks {
  import opened Crc32c
  import opened Base
  import opened Seqs

  const CRC_SIZE: nat := 4
  const DATA_SIZE: nat := 4092

  function NumBlocks(size: nat): nat {
    if size == 0 then 0 else (size + (DATA_SIZE - 1)) / DATA_SIZE
  }

  /** Bytes an extent occupies on the device; fails when the count leaves 64 bits. */
  function PaddedExtentSize(size: nat): Result<nat> {
    if NumBlocks(size) * BLOCK < U64_LIMIT then Ok(NumBlocks(size) * BLOCK) else Err(ExtentInvalid)
  }

  function Pad(chunk: seq<byte>): (r: seq<byte>)
    requires |chunk| <= DATA_SIZE
    ensures |r| == DATA_SIZE && r[..|chunk|] == chunk
  {
    chunk + seq(DATA_SIZE - |chunk|, _ => 0)
  }

  function SealBlock(data: seq<byte>): (r: seq<byte>)
    requires |data| == DATA_SIZE
    ensures |r| == BLOCK && r[CRC_SIZE..] == data
  {
    CrcBytes(Crc(data)) + data
  }

  /** The reference encoding of a payload. */
  function Encode(payload: seq<byte>): seq<byte> {
    if payload == [] then []
    else
      var k := Min(|payload|, DATA_SIZE);
      SealBlock(Pad(payload[..k])) + Encode(payload[k..])
  }

  function VerifyBlock(block: seq<byte>): (r: Result<seq<byte>>)
    requires |block| == BLOCK
    ensures r.Ok? ==> r.value == block[CRC_SIZE..]
    ensures r.Err? ==> r.error == DataCorruption
  {
    if CrcOfBytes(block[..CRC_SIZE]) == Crc(block[CRC_SIZE..]) then Ok(block[CRC_SIZE..])
    else Err(DataCorruption)
  }

  /** Verify every block of `raw` and keep the first `len` content bytes. */
  function Decode(raw: seq<byte>, len: nat): (r: Result<seq<byte>>)
    ensures r.Err? ==> r.error == DataCorruption
  {
    if |raw| < BLOCK then Ok([])
    else
      var data :- VerifyBlock(raw[..BLOCK]);
      var take := Min(len, DATA_SIZE);
      var rest :- Decode(raw[BLOCK..], len - take);
      Ok(data[..take] + rest)
  }

  /** Verify the blocks of `raw`, the first of which is block `first` of the extent, and
      keep the content bytes that fall in `[start, end)`. */
  function DecodeRange(raw: seq<byte>, first: nat, start: nat, end: nat): (r: Result<seq<byte>>)
    ensures r.Err? ==> r.error == DataCorruption
    decreases |raw|
  {
    if |raw| < BLOCK then Ok([])
    else
      var data :- VerifyBlock(raw[..BLOCK]);
      var lo, hi := Max(start, first * DATA_SIZE), Min(end, (first + 1) * DATA_SIZE);
      var part := if lo < hi then data[lo - first * DATA_SIZE..hi - first * DATA_SIZE] else [];
      var rest :- DecodeRange(raw[BLOCK..], first + 1, start, end);
      Ok(part + rest)
  }

  // ---- Round trip --------------------------------------------------------

  lemma SealedVerifies(data: seq<byte>)
    requires |data| == DATA_SIZE
    ensures VerifyBlock(SealBlock(data)) == Ok(data)
  {
    var block := SealBlock(data);
    assert block[..CRC_SIZE] == CrcBytes(Crc(data));
    CrcBytesRoundTrip(Crc(data));
  }

  lemma {:induction false} RoundTrip(payload: seq<byte>)
    ensures Decode(Encode(payload), |payload|) == Ok(payload)
    decreases |payload|
  {
    if payload != [] {
      var k := Min(|payload|, DATA_SIZE);
      var head, tail := SealBlock(Pad(payload[..k])), Encode(payload[k..]);
      assert (head + tail)[..BLOCK] == head && (head + tail)[BLOCK..] == tail;
      SealedVerifies(Pad(payload[..k]));
      RoundTrip(payload[k..]);
      assert payload == payload[..k] + payload[k..];
    }
  }

  lemma {:induction false} EncodeLength(payload: seq<byte>)
    ensures |Encode(payload)| == NumBlocks(|payload|) * BLOCK
    decreases |payload|
  {
    hide SealBlock;
    if payload != [] {
      EncodeLength(payload[Min(|payload|, DATA_SIZE)..]);
    }
  }

  // ---- Growing an encoding or a decoding by one piece --------------------

  lemma EncodeFull(chunk: seq<byte>, rest: seq<byte>)
    requires |chunk| == DATA_SIZE
    ensures Encode(chunk + rest) == SealBlock(chunk) + Encode(rest)
  {
    assert (chunk + rest)[..DATA_SIZE] == chunk && (chunk + rest)[DATA_SIZE..] == rest;
    assert Pad(chunk) == chunk;
  }

  /** A whole number of pieces encodes on its own. */
  lemma {:induction false} EncodeConcat(a: seq<byte>, b: seq<byte>, n: nat)
    requires |a| == n * DATA_SIZE
    ensures Encode(a + b) == Encode(a) + Encode(b)
    decreases n
  {
    hide SealBlock, Pad;
    if n == 0 {
      assert a + b == b;
    } else {
      hide Encode;
      var c, r := a[..DATA_SIZE], a[DATA_SIZE..];
      EncodeConcat(r, b, n - 1);
      EncodeFull(c, r);
      EncodeFull(c, r + b);
      assert a == c + r;
      assert a + b == c + (r + b);
      assert SealBlock(c) + (Encode(r) + Encode(b)) == (SealBlock(c) + Encode(r)) + Encode(b);
    }
  }

  lemma EncodeOne(chunk: seq<byte>)
    requires 0 < |chunk| <= DATA_SIZE
    ensures Encode(chunk) == SealBlock(Pad(chunk))
  {
    hide SealBlock;
    assert chunk[..|chunk|] == chunk;
    assert Encode(chunk[|chunk|..]) == [];
  }

  lemma {:induction false} DecodeLength(raw: seq<byte>, len: nat)
    requires Decode(raw, len).Ok?
    ensures |Decode(raw, len).value| == Min(len, |raw| / BLOCK * DATA_SIZE)
    decreases |raw|
  {
    hide VerifyBlock;
    if |raw| >= BLOCK {
      DecodeLength(raw[BLOCK..], len - Min(len, DATA_SIZE));
    }
  }

  /** One more block at the end of the input. */
  lemma {:induction false} DecodeSnoc(raw: seq<byte>, block: seq<byte>, len: nat)
    requires |raw| % BLOCK == 0 && |block| == BLOCK
    ensures Decode(raw, len).Err? || VerifyBlock(block).Err? <==> Decode(raw + block, len).Err?
    ensures Decode(raw + block, len).Ok? ==>
      var done := Decode(raw, len).value;
      |done| <= len &&
      Decode(raw + block, len).value == done + VerifyBlock(block).value[..Min(len - |done|, DATA_SIZE)]
    decreases |raw|
  {
    hide VerifyBlock;
    if raw == [] {
      assert raw + block == block && block[..BLOCK] == block;
      assert Decode(block[BLOCK..], len - Min(len, DATA_SIZE)) == Ok([]);
    } else {
      assert (raw + block)[..BLOCK] == raw[..BLOCK] && (raw + block)[BLOCK..] == raw[BLOCK..] + block;
      DecodeSnoc(raw[BLOCK..], block, len - Min(len, DATA_SIZE));
    }
  }

  lemma EncodeSnoc(a: seq<byte>, chunk: seq<byte>, n: nat)
    requires |a| == n * DATA_SIZE && 0 < |chunk| <= DATA_SIZE
    ensures Encode(a + chunk) == Encode(a) + SealBlock(Pad(chunk))
  {
    hide SealBlock, Encode;
    EncodeConcat(a, chunk, n);
    EncodeOne(chunk);
  }

  lemma EncodePadded(chunk: seq<byte>)
    requires 0 < |chunk| <= DATA_SIZE
    ensures Encode(Pad(chunk)) == Encode(chunk)
  {
    hide SealBlock;
    EncodeOne(chunk);
    EncodeOne(Pad(chunk));
    assert Pad(Pad(chunk)) == Pad(chunk);
  }

  /** A block that fails stops the decoding, whatever follows. */
  lemma {:induction false} DecodePrefixFails(raw: seq<byte>, more: seq<byte>, len: nat)
    requires |raw| % BLOCK == 0 && Decode(raw, len).Err?
    ensures Decode(raw + more, len).Err?
    decreases |raw|
  {
    hide VerifyBlock;
    if raw != [] {
      assert (raw + more)[..BLOCK] == raw[..BLOCK] && (raw + more)[BLOCK..] == raw[BLOCK..] + more;
      if VerifyBlock(raw[..BLOCK]).Ok? {
        DecodePrefixFails(raw[BLOCK..], more, len - Min(len, DATA_SIZE));
      }
    }
  }

  // ---- Partial reads -----------------------------------------------------

  lemma DecodeHead(raw: seq<byte>, len: nat)
    requires Decode(raw, len).Ok? && |raw| >= BLOCK
    ensures VerifyBlock(raw[..BLOCK]).Ok? && Decode(raw[BLOCK..], len - Min(len, DATA_SIZE)).Ok?
    ensures Decode(raw, len).value
      == VerifyBlock(raw[..BLOCK]).value[..Min(len, DATA_SIZE)] + Decode(raw[BLOCK..], len - Min(len, DATA_SIZE)).value
  {
    hide VerifyBlock;
  }

  /** The content of block `i` inside a successful decoding. */
  lemma {:induction false} DecodedPiece(raw: seq<byte>, len: nat, i: nat)
    requires Decode(raw, len).Ok?
    requires (i + 1) * BLOCK <= |raw|
    ensures VerifyBlock(raw[i * BLOCK..(i + 1) * BLOCK]).Ok?
    ensures
      var content, data := Decode(raw, len).value, VerifyBlock(raw[i * BLOCK..(i + 1) * BLOCK]).value;
      var lo, hi := Min(i * DATA_SIZE, |content|), Min((i + 1) * DATA_SIZE, |content|);
      content[lo..hi] == data[..hi - lo]
    decreases i
  {
    hide VerifyBlock, Decode;
    DecodeHead(raw, len);
    DecodeLength(raw, len);
    var take := Min(len, DATA_SIZE);
    var tail := raw[BLOCK..];
    DecodeLength(tail, len - take);
    var data, rest := VerifyBlock(raw[..BLOCK]).value[..take], Decode(tail, len - take).value;
    if i == 0 {
      assert raw[i * BLOCK..(i + 1) * BLOCK] == raw[..BLOCK];
    } else {
      DecodedPiece(tail, len - take, i - 1);
      SliceSlice(raw, BLOCK, |raw|, (i - 1) * BLOCK, i * BLOCK);
      assert tail[(i - 1) * BLOCK..i * BLOCK] == raw[i * BLOCK..(i + 1) * BLOCK];
      var lo, hi := Min((i - 1) * DATA_SIZE, |rest|), Min(i * DATA_SIZE, |rest|);
      if take == DATA_SIZE {
        ConcatRight(data, rest, take + lo, take + hi);
      } else {
        assert rest == [];
      }
    }
  }

  lemma SamePart(content: seq<byte>, data: seq<byte>, base: nat, cut: nat, lo: nat, hi: nat)
    requires base <= lo <= hi <= cut <= |content| && cut - base <= |data|
    requires content[base..cut] == data[..cut - base]
    ensures data[lo - base..hi - base] == content[lo..hi]
  {
    SliceSlice(content, base, cut, lo - base, hi - base);
    SliceSlice(data, 0, cut - base, lo - base, hi - base);
  }

  lemma RangeUnfold(part: seq<byte>, i: nat, start: nat, end: nat, rest: seq<byte>)
    requires |part| >= BLOCK && VerifyBlock(part[..BLOCK]).Ok? && DecodeRange(part[BLOCK..], i + 1, start, end) == Ok(rest)
    requires Max(start, i * DATA_SIZE) < Min(end, (i + 1) * DATA_SIZE)
    ensures
      var base := i * DATA_SIZE;
      var lo, hi := Max(start, base), Min(end, base + DATA_SIZE);
      DecodeRange(part, i, start, end) == Ok(VerifyBlock(part[..BLOCK]).value[lo - base..hi - base] + rest)
  {
    hide VerifyBlock;
  }

  /** From block `i` on, a range read delivers the rest of the requested bytes. */
  lemma {:induction false} RangeFrom(raw: seq<byte>, len: nat, i: nat, last: nat, start: nat, end: nat)
    requires Decode(raw, len).Ok? && start < end <= |Decode(raw, len).value|
    requires start / DATA_SIZE <= i <= last + 1 && last == (end - 1) / DATA_SIZE
    requires (last + 1) * BLOCK <= |raw|
    ensures
      var content, from := Decode(raw, len).value, Min(Max(start, i * DATA_SIZE), end);
      DecodeRange(raw[i * BLOCK..(last + 1) * BLOCK], i, start, end) == Ok(content[from..end])
    decreases last + 1 - i
  {
    hide VerifyBlock, Decode, DecodeRange;
    var content, part := Decode(raw, len).value, raw[i * BLOCK..(last + 1) * BLOCK];
    if i <= last {
      RangeFrom(raw, len, i + 1, last, start, end);
      SliceSlice(raw, i * BLOCK, (last + 1) * BLOCK, 0, BLOCK);
      SliceSlice(raw, i * BLOCK, (last + 1) * BLOCK, BLOCK, |part|);
      RangePiece(raw, len, i, start, end);
      RangeUnfold(part, i, start, end, content[Min(Max(start, (i + 1) * DATA_SIZE), end)..end]);
    } else {
      NoBlocksLeft(i, start, end);
      assert part == [];
    }
  }

  lemma NoBlocksLeft(i: nat, start: nat, end: nat)
    ensures DecodeRange([], i, start, end) == Ok([])
  {}

  /** What block `i` contributes, put in front of what the later blocks contribute. */
  lemma RangePiece(raw: seq<byte>, len: nat, i: nat, start: nat, end: nat)
    requires Decode(raw, len).Ok? && start < end <= |Decode(raw, len).value|
    requires start / DATA_SIZE <= i <= (end - 1) / DATA_SIZE && (i + 1) * BLOCK <= |raw|
    ensures VerifyBlock(raw[i * BLOCK..(i + 1) * BLOCK]).Ok?
    ensures
      var content, data := Decode(raw, len).value, VerifyBlock(raw[i * BLOCK..(i + 1) * BLOCK]).value;
      var base := i * DATA_SIZE;
      var lo, hi := Max(start, base), Min(end, base + DATA_SIZE);
      lo < hi && data[lo - base..hi - base] + content[hi..end] == content[lo..end]
  {
    hide VerifyBlock, Decode;
    var content := Decode(raw, len).value;
    DecodedPiece(raw, len, i);
    var base := i * DATA_SIZE;
    var lo, hi := Max(start, base), Min(end, base + DATA_SIZE);
    var data := VerifyBlock(raw[i * BLOCK..(i + 1) * BLOCK]).value;
    SamePart(content, data, base, Min(base + DATA_SIZE, |content|), lo, hi);
    SliceConcat(content, lo, hi, end);
  }

  /** Reading only the blocks that cover `[start, end)` gives that slice of the content. */
  lemma RangeIsSlice(raw: seq<byte>, len: nat, start: nat, end: nat)
    requires Decode(raw, len).Ok? && start < end <= |Decode(raw, len).value|
    ensures
      var first, last := start / DATA_SIZE, (end - 1) / DATA_SIZE;
      (last + 1) * BLOCK <= |raw| &&
      DecodeRange(raw[first * BLOCK..(last + 1) * BLOCK], first, start, end)
        == Ok(Decode(raw, len).value[start..end])
  {
    hide VerifyBlock, Decode, DecodeRange;
    DecodeLength(raw, len);
    RangeFrom(raw, len, start / DATA_SIZE, (end - 1) / DATA_SIZE, start, end);
  }

  // ---- Corruption --------------------------------------------------------

  /** `w` lies inside the checksum or inside the data region of one block. */
  predicate WithinOneField(pos: nat, n: nat) {
    pos % BLOCK + n <= CRC_SIZE || (CRC_SIZE <= pos % BLOCK && pos % BLOCK + n <= BLOCK)
  }

  lemma BlockDamageDetected(pre: seq<byte>, w: seq<byte>, w': seq<byte>, post: seq<byte>)
    requires |pre| + |w| + |post| == BLOCK && |w| == |w'| <= 4 && w != w'
    requires |pre| + |w| <= CRC_SIZE || CRC_SIZE <= |pre|
    requires VerifyBlock(pre + w + post).Ok?
    ensures VerifyBlock(pre + w' + post).Err?
  {
    var b, b' := pre + w + post, pre + w' + post;
    if |pre| + |w| <= CRC_SIZE {
      assert b[CRC_SIZE..] == b'[CRC_SIZE..];
      assert b[|pre|..|pre| + |w|] == w && b'[|pre|..|pre| + |w|] == w';
      SliceSlice(b, 0, CRC_SIZE, |pre|, |pre| + |w|);
      SliceSlice(b', 0, CRC_SIZE, |pre|, |pre| + |w|);
      if VerifyBlock(b').Ok? {
        CrcOfBytesRoundTrip(b[..CRC_SIZE]);
        CrcOfBytesRoundTrip(b'[..CRC_SIZE]);
      }
    } else {
      var p := pre[CRC_SIZE..];
      assert b[..CRC_SIZE] == b'[..CRC_SIZE];
      assert b[CRC_SIZE..] == p + w + post && b'[CRC_SIZE..] == p + w' + post;
      if Crc(p + w + post) == Crc(p + w' + post) {
        BurstDetected(p, w, w', post);
      }
    }
  }

  lemma {:induction false} BadBlockFails(raw: seq<byte>, len: nat, i: nat)
    requires (i + 1) * BLOCK <= |raw|
    requires VerifyBlock(raw[i * BLOCK..(i + 1) * BLOCK]).Err?
    ensures Decode(raw, len).Err?
  {
    if Decode(raw, len).Ok? {
      DecodedPiece(raw, len, i);
    }
  }

  lemma SliceAround(pre: seq<byte>, w: seq<byte>, post: seq<byte>, lo: nat, hi: nat)
    requires lo <= |pre| && |pre| + |w| <= hi <= |pre| + |w| + |post|
    ensures (pre + w + post)[lo..hi] == pre[lo..] + w + post[..hi - |pre| - |w|]
  {}

  /** Damage confined to four consecutive bytes of one field of one block, anywhere in an
      extent of any length, makes decoding fail. */
  lemma DamageDetected(pre: seq<byte>, w: seq<byte>, w': seq<byte>, post: seq<byte>, len: nat)
    requires |w| == |w'| <= 4 && w != w' && WithinOneField(|pre|, |w|)
    requires (|pre| + |w| + |post|) % BLOCK == 0
    requires Decode(pre + w + post, len).Ok?
    ensures Decode(pre + w' + post, len).Err?
  {
    hide VerifyBlock, Decode;
    var i := |pre| / BLOCK;
    var lo, hi := i * BLOCK, (i + 1) * BLOCK;
    var raw, raw' := pre + w + post, pre + w' + post;
    assert hi <= |raw|;
    DecodedPiece(raw, len, i);
    var p, q := pre[lo..], post[..hi - |pre| - |w|];
    SliceAround(pre, w, post, lo, hi);
    SliceAround(pre, w', post, lo, hi);
    BlockDamageDetected(p, w, w', q);
    BadBlockFails(raw', len, i);
  }

  /** Changing any single byte of an encoded extent makes decoding fail. */
  lemma SingleByteDamageDetected(payload: seq<byte>, pos: nat, b: byte)
    requires pos < |Encode(payload)| && Encode(payload)[pos] != b
    ensures Decode(Encode(payload)[pos := b], |payload|).Err?
  {
    hide VerifyBlock, Decode, Encode;
    var raw := Encode(payload);
    EncodeLength(payload);
    RoundTrip(payload);
    assert raw == raw[..pos] + [raw[pos]] + raw[pos + 1..];
    assert raw[pos := b] == raw[..pos] + [b] + raw[pos + 1..];
    DamageDetected(raw[..pos], [raw[pos]], [b], raw[pos + 1..], |payload|);
  }

  // ---- The format, byte by byte ------------------------------------------

  /** Where byte `x` of the content lies in an extent. */
  function PlaceOf(x: nat): nat {
    x / DATA_SIZE * BLOCK + CRC_SIZE + x % DATA_SIZE
  }

  /** Byte `x` of the content with zeros behind it. */
  function Padded(content: seq<byte>, x: nat): byte {
    if x < |content| then content[x] else 0
  }

  /** Block `i` of an encoding: the little-endian CRC of the rest, the piece of the payload, and
      zeros behind its end. */
  lemma {:induction false} EncodedBlock(payload: seq<byte>, i: nat)
    requires i < NumBlocks(|payload|)
    ensures (i + 1) * BLOCK <= |Encode(payload)|
    ensures
      var block := Encode(payload)[i * BLOCK..(i + 1) * BLOCK];
      var data := block[CRC_SIZE..];
      && block[..CRC_SIZE] == CrcBytes(Crc(data))
      && forall j :: 0 <= j < DATA_SIZE ==> data[j] == Padded(payload, i * DATA_SIZE + j)
    decreases i
  {
    hide Crc, CrcBytes, Encode;
    EncodeLength(payload);
    var k := Min(|payload|, DATA_SIZE);
    var head, tail := Pad(payload[..k]), Encode(payload[k..]);
    EncodeHead(payload);
    if i == 0 {
      SealedPiece(payload[..k]);
      assert Encode(payload)[0 * BLOCK..(0 + 1) * BLOCK] == SealBlock(head);
    } else {
      hide SealBlock, Pad;
      EncodedBlock(payload[k..], i - 1);
      assert k == DATA_SIZE;
      SliceSlice(Encode(payload), BLOCK, |Encode(payload)|, (i - 1) * BLOCK, i * BLOCK);
      assert Encode(payload)[BLOCK..] == tail;
      assert Encode(payload)[i * BLOCK..(i + 1) * BLOCK] == tail[(i - 1) * BLOCK..i * BLOCK];
      assert forall x :: Padded(payload[k..], x) == Padded(payload, x + k);
    }
  }

  lemma SealedPiece(piece: seq<byte>)
    requires |piece| <= DATA_SIZE
    ensures
      var block := SealBlock(Pad(piece));
      var data := block[CRC_SIZE..];
      && block[..CRC_SIZE] == CrcBytes(Crc(data))
      && forall j :: 0 <= j < DATA_SIZE ==> data[j] == Padded(piece, j)
  {
    hide Crc, CrcBytes;
    var data := Pad(piece);
    var block := SealBlock(data);
    assert block[CRC_SIZE..] == data;
  }

  lemma EncodeHead(payload: seq<byte>)
    requires payload != []
    ensures
      var k := Min(|payload|, DATA_SIZE);
      Encode(payload) == SealBlock(Pad(payload[..k])) + Encode(payload[k..])
  {
    hide SealBlock, Pad;
  }

  /** Block `i` carries the CRC of its data. */
  predicate BlockOk(raw: seq<byte>, i: nat)
    requires (i + 1) * BLOCK <= |raw|
  {
    VerifyBlock(raw[i * BLOCK..(i + 1) * BLOCK]).Ok?
  }

  lemma BlockOkTail(raw: seq<byte>, i: nat)
    requires 0 < i && (i + 1) * BLOCK <= |raw|
    ensures BlockOk(raw[BLOCK..], i - 1) == BlockOk(raw, i)
  {
    hide VerifyBlock;
    SliceSlice(raw, BLOCK, |raw|, (i - 1) * BLOCK, i * BLOCK);
    assert raw[BLOCK..][(i - 1) * BLOCK..i * BLOCK] == raw[i * BLOCK..(i + 1) * BLOCK];
  }

  lemma BlockOkHead(raw: seq<byte>)
    requires BLOCK <= |raw|
    ensures BlockOk(raw, 0) == VerifyBlock(raw[..BLOCK]).Ok?
  {
    assert raw[0 * BLOCK..(0 + 1) * BLOCK] == raw[..BLOCK];
  }

  /** `raw` is whole blocks, all of them good. */
  ghost predicate AllOk(raw: seq<byte>) {
    forall i: nat :: (i + 1) * BLOCK <= |raw| ==> BlockOk(raw, i)
  }

  lemma AllOkStep(raw: seq<byte>)
    requires BLOCK <= |raw|
    ensures AllOk(raw) <==> VerifyBlock(raw[..BLOCK]).Ok? && AllOk(raw[BLOCK..])
  {
    hide BlockOk;
    BlockOkHead(raw);
    if AllOk(raw) {
      forall i: nat | (i + 1) * BLOCK <= |raw[BLOCK..]|
        ensures BlockOk(raw[BLOCK..], i)
      {
        BlockOkTail(raw, i + 1);
      }
    }
    if VerifyBlock(raw[..BLOCK]).Ok? && AllOk(raw[BLOCK..]) {
      forall i: nat | (i + 1) * BLOCK <= |raw|
        ensures BlockOk(raw, i)
      {
        if i > 0 {
          BlockOkTail(raw, i);
        }
      }
    }
  }

  /** Decoding succeeds exactly when every block is good. */
  lemma {:induction false} DecodesExactly(raw: seq<byte>, len: nat)
    ensures Decode(raw, len).Ok? <==> AllOk(raw)
    decreases |raw|
  {
    hide VerifyBlock, AllOk;
    if |raw| >= BLOCK {
      AllOkStep(raw);
      DecodesExactly(raw[BLOCK..], len - Min(len, DATA_SIZE));
    } else {
      assert AllOk(raw) by { NoBlocks(raw); }
    }
  }

  lemma NoBlocks(raw: seq<byte>)
    requires |raw| < BLOCK
    ensures AllOk(raw)
  {}

  lemma {:induction false} RangeDecodesExactly(raw: seq<byte>, first: nat, start: nat, end: nat)
    ensures DecodeRange(raw, first, start, end).Ok? <==> AllOk(raw)
    decreases |raw|
  {
    hide VerifyBlock, AllOk;
    if |raw| >= BLOCK {
      AllOkStep(raw);
      RangeDecodesExactly(raw[BLOCK..], first + 1, start, end);
    } else {
      assert AllOk(raw) by { NoBlocks(raw); }
    }
  }

  /** What is decoded is what the blocks hold, byte for byte. */
  lemma DecodedByte(raw: seq<byte>, len: nat, x: nat)
    requires Decode(raw, len).Ok? && x < |Decode(raw, len).value|
    ensures PlaceOf(x) < |raw| && Decode(raw, len).value[x] == raw[PlaceOf(x)]
  {
    hide VerifyBlock, Decode;
    DecodeLength(raw, len);
    var content, i := Decode(raw, len).value, x / DATA_SIZE;
    DecodedPiece(raw, len, i);
    var block := raw[i * BLOCK..(i + 1) * BLOCK];
    var lo, hi := i * DATA_SIZE, Min((i + 1) * DATA_SIZE, |content|);
    assert content[x] == content[lo..hi][x - lo] == VerifyBlock(block).value[x - lo] == block[CRC_SIZE + (x - lo)];
  }

  /** Counting blocks and bytes from another block on changes nothing. */
  lemma {:induction false} RangeShift(raw: seq<byte>, k: nat, f: nat, start: nat, end: nat)
    ensures DecodeRange(raw, k + f, start + f * DATA_SIZE, end + f * DATA_SIZE) == DecodeRange(raw, k, start, end)
    decreases |raw|
  {
    hide VerifyBlock, DecodeRange, Max, Min;
    if |raw| >= BLOCK {
      RangeShift(raw[BLOCK..], k + 1, f, start, end);
      SamePiece(k, f, start, end);
      RangeHead(raw, k + f, start + f * DATA_SIZE, end + f * DATA_SIZE);
      RangeHead(raw, k, start, end);
    } else {
      assert DecodeRange(raw, k + f, start + f * DATA_SIZE, end + f * DATA_SIZE) == DecodeRange(raw, k, start, end) by {
        NoRange(raw, k, start, end);
        NoRange(raw, k + f, start + f * DATA_SIZE, end + f * DATA_SIZE);
      }
    }
  }

  lemma NoRange(raw: seq<byte>, first: nat, start: nat, end: nat)
    requires |raw| < BLOCK
    ensures DecodeRange(raw, first, start, end) == Ok([])
  {}

  /** Which bytes of its data block `first` contributes to `[start, end)`. */
  function PieceOf(first: nat, start: nat, end: nat): (nat, nat) {
    var lo, hi := Max(start, first * DATA_SIZE), Min(end, (first + 1) * DATA_SIZE);
    if lo < hi then (lo - first * DATA_SIZE, hi - first * DATA_SIZE) else (0, 0)
  }

  lemma SamePiece(k: nat, f: nat, start: nat, end: nat)
    ensures PieceOf(k + f, start + f * DATA_SIZE, end + f * DATA_SIZE) == PieceOf(k, start, end)
  {}

  lemma RangeHead(raw: seq<byte>, first: nat, start: nat, end: nat)
    requires |raw| >= BLOCK
    ensures
      var data, piece, rest := VerifyBlock(raw[..BLOCK]), PieceOf(first, start, end), DecodeRange(raw[BLOCK..], first + 1, start, end);
      && 0 <= piece.0 <= piece.1 <= DATA_SIZE
      && DecodeRange(raw, first, start, end) == if data.Err? then data else if rest.Err? then rest
                                                else Ok(data.value[piece.0..piece.1] + rest.value)
  {
    hide VerifyBlock;
  }

  lemma DivShift(x: nat, f: nat)
    requires f * DATA_SIZE <= x
    ensures (x - f * DATA_SIZE) / DATA_SIZE == x / DATA_SIZE - f && (x - f * DATA_SIZE) % DATA_SIZE == x % DATA_SIZE
  {}

  /** The blocks that cover `[start, end)` are good. */
  ghost predicate Covered(raw: seq<byte>, start: nat, end: nat)
    requires start < end && ((end - 1) / DATA_SIZE + 1) * BLOCK <= |raw|
  {
    forall i: nat :: start / DATA_SIZE <= i <= (end - 1) / DATA_SIZE ==> BlockOk(raw, i)
  }

  lemma CoveredPart(raw: seq<byte>, start: nat, end: nat)
    requires start < end && ((end - 1) / DATA_SIZE + 1) * BLOCK <= |raw|
    ensures Covered(raw, start, end) <==> AllOk(raw[start / DATA_SIZE * BLOCK..((end - 1) / DATA_SIZE + 1) * BLOCK])
  {
    hide BlockOk;
    var first, last := start / DATA_SIZE, (end - 1) / DATA_SIZE;
    var part := raw[first * BLOCK..(last + 1) * BLOCK];
    forall i: nat | (i + 1) * BLOCK <= |part|
      ensures BlockOk(part, i) == BlockOk(raw, first + i)
    {
      BlockInPart(raw, first, last, i);
    }
    if AllOk(part) {
      forall i: nat | first <= i <= last
        ensures BlockOk(raw, i)
      {
        assert BlockOk(part, i - first) == BlockOk(raw, first + (i - first));
      }
    }
  }

  lemma BlockInPart(raw: seq<byte>, first: nat, last: nat, i: nat)
    requires first + i <= last && (last + 1) * BLOCK <= |raw|
    ensures BlockOk(raw[first * BLOCK..(last + 1) * BLOCK], i) == BlockOk(raw, first + i)
  {
    hide VerifyBlock;
    SliceSlice(raw, first * BLOCK, (last + 1) * BLOCK, i * BLOCK, (i + 1) * BLOCK);
  }

  /** `data` is what the blocks of `raw` hold of `[start, end)`. */
  ghost predicate Holding(raw: seq<byte>, start: nat, end: nat, data: seq<byte>) {
    |data| == end - start && forall x :: start <= x < end ==> PlaceOf(x) < |raw| && data[x - start] == raw[PlaceOf(x)]
  }

  /** A partial read of any blocks, intact or not: it succeeds exactly when the blocks that
      cover the range are good, and then delivers what they hold. */
  lemma RangeReadExactly(raw: seq<byte>, start: nat, end: nat)
    requires start < end && ((end - 1) / DATA_SIZE + 1) * BLOCK <= |raw|
    ensures
      var r := DecodeRange(raw[start / DATA_SIZE * BLOCK..((end - 1) / DATA_SIZE + 1) * BLOCK], start / DATA_SIZE, start, end);
      (r.Ok? <==> Covered(raw, start, end)) && (r.Ok? ==> Holding(raw, start, end, r.value))
  {
    hide VerifyBlock, Decode, DecodeRange, Covered, AllOk;
    var first, last := start / DATA_SIZE, (end - 1) / DATA_SIZE;
    var part := raw[first * BLOCK..(last + 1) * BLOCK];
    var n := last + 1 - first;
    CoveredPart(raw, start, end);
    RangeDecodesExactly(part, first, start, end);
    if AllOk(part) {
      DecodesExactly(part, n * DATA_SIZE);
      DecodeLength(part, n * DATA_SIZE);
      var s, e := start - first * DATA_SIZE, end - first * DATA_SIZE;
      DivShift(start, first);
      DivShift(end - 1, first);
      RangeShift(part, 0, first, s, e);
      RangeIsSlice(part, n * DATA_SIZE, s, e);
      assert part[0 * BLOCK..n * BLOCK] == part;
      var whole := Decode(part, n * DATA_SIZE).value;
      forall x | start <= x < end
        ensures PlaceOf(x) < |raw| && whole[s..e][x - start] == raw[PlaceOf(x)]
      {
        DivShift(x, first);
        DecodedByte(part, n * DATA_SIZE, x - first * DATA_SIZE);
      }
    }
  }

  // ---- Damage in some block ----------------------------------------------

  /** Changing a byte of a good block makes it bad, and no other block notices. */
  lemma OtherBlocksOk(raw: seq<byte>, pos: nat, b: byte, i: nat)
    requires pos < |raw| && raw[pos] != b && (i + 1) * BLOCK <= |raw| && BlockOk(raw, i)
    ensures BlockOk(raw[pos := b], i) <==> pos / BLOCK != i
  {
    hide Crc, CrcBytes;
    var lo, hi := i * BLOCK, (i + 1) * BLOCK;
    var block, raw' := raw[lo..hi], raw[pos := b];
    if pos / BLOCK == i {
      var p := pos - lo;
      assert block == block[..p] + [raw[pos]] + block[p + 1..];
      assert raw'[lo..hi] == block[..p] + [b] + block[p + 1..];
      hide VerifyBlock;
      BlockDamageDetected(block[..p], [raw[pos]], [b], block[p + 1..]);
    } else {
      assert raw'[lo..hi] == block;
    }
  }

  /** Byte `pos` of an extent lies in a block that a read of `[start, end)` needs. */
  predicate InCover(pos: nat, start: nat, end: nat)
    requires start < end
  {
    start / DATA_SIZE <= pos / BLOCK <= (end - 1) / DATA_SIZE
  }

  lemma EncodedOk(payload: seq<byte>)
    ensures AllOk(Encode(payload))
  {
    hide AllOk, Decode, Encode;
    RoundTrip(payload);
    DecodesExactly(Encode(payload), |payload|);
  }

  /** A damaged byte of an encoding is noticed by exactly the partial reads that cover its
      block; the others still get their slice of the payload. */
  lemma RangeDamageDetected(payload: seq<byte>, pos: nat, b: byte, start: nat, end: nat)
    requires pos < |Encode(payload)| && Encode(payload)[pos] != b && start < end <= |payload|
    ensures ((end - 1) / DATA_SIZE + 1) * BLOCK <= |Encode(payload)|
    ensures
      var raw := Encode(payload)[pos := b];
      && (Covered(raw, start, end) <==> !InCover(pos, start, end))
      && (Covered(raw, start, end) ==> Holding(raw, start, end, payload[start..end]))
  {
    hide Encode, BlockOk;
    EncodeLength(payload);
    EncodedOk(payload);
    var good := Encode(payload);
    var raw := good[pos := b];
    forall i: nat | (i + 1) * BLOCK <= |raw|
      ensures BlockOk(raw, i) <==> pos / BLOCK != i
    {
      OtherBlocksOk(good, pos, b, i);
    }
    if !(start / DATA_SIZE <= pos / BLOCK <= (end - 1) / DATA_SIZE) {
      assert Covered(raw, start, end);
    } else {
      assert !BlockOk(raw, pos / BLOCK);
    }
    if Covered(raw, start, end) {
      forall x | start <= x < end
        ensures PlaceOf(x) < |raw| && payload[x] == raw[PlaceOf(x)]
      {
        assert BlockOk(raw, x / DATA_SIZE);
        EncodedByte(payload, x);
      }
    }
  }

  /** Byte `x` of a payload lies at its place in the encoding. */
  lemma EncodedByte(payload: seq<byte>, x: nat)
    requires x < |payload|
    ensures PlaceOf(x) < |Encode(payload)| && Encode(payload)[PlaceOf(x)] == payload[x] && PlaceOf(x) / BLOCK == x / DATA_SIZE
  {
    hide Encode, Crc, CrcBytes;
    var i := x / DATA_SIZE;
    EncodedBlock(payload, i);
    var block := Encode(payload)[i * BLOCK..(i + 1) * BLOCK];
    assert i * DATA_SIZE + x % DATA_SIZE == x;
    assert block[CRC_SIZE..][x % DATA_SIZE] == Padded(payload, x);
  }
}
