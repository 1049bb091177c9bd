/** Writing one extent: the two write paths of a put, and the raw block copy. */
module ExtentIo {
  import opened Crc32c
  import opened Base
  import opened Seqs
  import opened Blocks
  import opened Disks
  import opened Streaming
  import opened Objects

  /** Payloads of at least this size are streamed. */
  const STREAMING_PUT_THRESHOLD: nat := 0x80_0000
  const CHUNK: nat := 0x10_0000

  /** Feed one chunk to a writer and to the running checksum. */
  method FeedChunk(writer: StreamingBlockWriter, chunk: seq<byte>, crc: bv32, ghost d0: Disk, ghost limit: nat)
    returns (ok: bool, crc': bv32)
    requires writer.Valid() && crc == Crc(writer.Fed())
    requires WroteWithin(d0, writer.io.disk, writer.extentOffset, limit)
    requires writer.extentOffset + NumBlocks(|writer.Fed()| + |chunk|) * BLOCK <= limit <= |writer.io.disk.live|
    modifies writer, writer.io
    ensures WroteWithin(d0, writer.io.disk, writer.extentOffset, limit)
    ensures |writer.io.disk.live| == old(|writer.io.disk.live|)
    ensures ok ==> writer.Valid() && writer.Fed() == old(writer.Fed()) + chunk && crc' == Crc(writer.Fed())
    ensures writer.io.Reliable() ==> ok
  {
    hide Encode, Crc, Append, WroteWithin;
    AppendIsConcat(writer.Fed(), chunk);
    crc' := Append(crc, chunk);
    ghost var d1, off := writer.io.disk, writer.extentOffset;
    ok := writer.WriteChunk(chunk, limit);
    WroteMore(d0, d1, writer.io.disk, off, limit, off, limit);
    WroteSize(d1, writer.io.disk, off, limit);
  }

  /** Stream a payload in 1 MB chunks, checksumming as it goes. */
  method StreamPayload(io: Device, off: nat, payload: seq<byte>) returns (ok: bool, crc: bv32)
    requires off + NumBlocks(|payload|) * BLOCK <= |io.disk.live|
    modifies io
    ensures WroteWithin(old(io.disk), io.disk, off, off + NumBlocks(|payload|) * BLOCK)
    ensures ok ==> io.disk.live[off..off + NumBlocks(|payload|) * BLOCK] == Encode(payload) && crc == Crc(payload)
    ensures io.Reliable() ==> ok
  {
    hide Encode, Crc, Append, WroteWithin;
    ghost var d0, limit := io.disk, off + NumBlocks(|payload|) * BLOCK;
    var writer := new StreamingBlockWriter(io, off);
    crc := 0;
    WroteNothing(d0, off, limit);
    NoCrc();
    var pos := 0;
    assert payload[..0] == [];
    while pos < |payload|
      invariant pos <= |payload| && fresh(writer) && writer.io == io && writer.extentOffset == off
      invariant writer.Valid() && writer.Fed() == payload[..pos] && crc == Crc(payload[..pos])
      invariant WroteWithin(d0, io.disk, off, limit) && |io.disk.live| == |d0.live|
    {
      var end := Min(pos + CHUNK, |payload|);
      var chunk := payload[pos..end];
      MoreBlocks(end, |payload|);
      ok, crc := FeedChunk(writer, chunk, crc, d0, limit);
      if !ok {
        return;
      }
      assert payload[..end] == payload[..pos] + chunk;
      pos := end;
    }
    assert payload[..pos] == payload;
    ghost var d1 := io.disk;
    ok := writer.Finish(limit);
    WroteMore(d0, d1, io.disk, off, limit, off, limit);
  }

  lemma NoCrc()
    ensures Crc([]) == 0
  {}

  lemma MoreBlocks(a: nat, b: nat)
    requires a <= b
    ensures NumBlocks(a) * BLOCK <= NumBlocks(b) * BLOCK
  {}

  /** Write a stored payload the way `put` does, choosing the path by size. */
  method WritePayload(io: Device, off: nat, payload: seq<byte>) returns (ok: bool, crc: bv32)
    requires off + NumBlocks(|payload|) * BLOCK <= |io.disk.live|
    modifies io
    ensures WroteWithin(old(io.disk), io.disk, off, off + NumBlocks(|payload|) * BLOCK)
    ensures ok ==> io.disk.live[off..off + NumBlocks(|payload|) * BLOCK] == Encode(payload) && crc == Crc(payload)
    ensures io.Reliable() ==> ok
  {
    hide Encode, Crc, WroteWithin;
    if |payload| >= STREAMING_PUT_THRESHOLD {
      ok, crc := StreamPayload(io, off, payload);
    } else {
      crc := Crc(payload);
      ok := EncodeAndWriteBatched(io, off, payload);
    }
  }

  lemma ConcatPrefix(parts: seq<seq<byte>>, i: nat)
    requires i < |parts|
    ensures Concat(parts[..i + 1]) == Concat(parts[..i]) + parts[i]
  {
    assert parts[..i + 1][..i] == parts[..i];
  }

  lemma {:induction false} ConcatGrows(parts: seq<seq<byte>>, i: nat)
    requires i <= |parts|
    ensures |Concat(parts[..i])| <= |Concat(parts)|
    decreases |parts| - i
  {
    if i < |parts| {
      ConcatPrefix(parts, i);
      ConcatGrows(parts, i + 1);
    } else {
      assert parts[..i] == parts;
    }
  }

  /** Stream a payload that arrives in chunks of any sizes. */
  method StreamChunks(io: Device, off: nat, chunks: seq<seq<byte>>) returns (ok: bool, crc: bv32)
    requires off + NumBlocks(|Concat(chunks)|) * BLOCK <= |io.disk.live|
    modifies io
    ensures WroteWithin(old(io.disk), io.disk, off, off + NumBlocks(|Concat(chunks)|) * BLOCK)
    ensures ok ==>
      io.disk.live[off..off + NumBlocks(|Concat(chunks)|) * BLOCK] == Encode(Concat(chunks)) && crc == Crc(Concat(chunks))
    ensures io.Reliable() ==> ok
  {
    hide Encode, Crc, Append, WroteWithin, Concat;
    ghost var d0, limit := io.disk, off + NumBlocks(|Concat(chunks)|) * BLOCK;
    var writer := new StreamingBlockWriter(io, off);
    crc := 0;
    WroteNothing(d0, off, limit);
    NoCrc();
    NoParts();
    assert chunks[..0] == [];
    for i := 0 to |chunks|
      invariant fresh(writer) && writer.io == io && writer.extentOffset == off
      invariant writer.Valid() && writer.Fed() == Concat(chunks[..i]) && crc == Crc(Concat(chunks[..i]))
      invariant WroteWithin(d0, io.disk, off, limit) && |io.disk.live| == |d0.live|
    {
      ConcatPrefix(chunks, i);
      ConcatGrows(chunks, i + 1);
      MoreBlocks(|Concat(chunks[..i + 1])|, |Concat(chunks)|);
      ok, crc := FeedChunk(writer, chunks[i], crc, d0, limit);
      if !ok {
        return;
      }
    }
    assert chunks[..|chunks|] == chunks;
    ghost var d1 := io.disk;
    ok := writer.Finish(limit);
    WroteMore(d0, d1, io.disk, off, limit, off, limit);
  }

  lemma NoParts()
    ensures Concat([]) == []
  {}

  lemma CopyStep(before: seq<byte>, now: seq<byte>, src: nat, dst: nat, copied: nat, raw: seq<byte>)
    requires src + copied + |raw| <= |before| && dst + copied + |raw| <= |now|
    requires now[dst..dst + copied] == before[src..src + copied]
    requires raw == before[src + copied..src + copied + |raw|]
    ensures Patch(now, dst + copied, raw)[dst..dst + copied + |raw|] == before[src..src + copied + |raw|]
  {
    hide Patch;
    var now' := Patch(now, dst + copied, raw);
    PatchOutside(now, dst + copied, raw, dst, dst + copied);
    PatchInside(now, dst + copied, raw);
    SliceConcat(now', dst, dst + copied, dst + copied + |raw|);
    SliceConcat(before, src, src + copied, src + copied + |raw|);
  }

  method CopyBatch(io: Device, src: nat, dst: nat, n: nat) returns (ok: bool)
    requires src + n <= |io.disk.live| && dst + n <= |io.disk.live|
    modifies io
    ensures WroteWithin(old(io.disk), io.disk, dst, dst + n)
    ensures ok ==> io.disk.live == Patch(old(io.disk.live), dst, old(io.disk.live[src..src + n]))
    ensures io.Reliable() ==> ok
  {
    hide WroteWithin, Patch;
    var raw := io.Pread(src, n);
    ok := io.Pwrite(dst, raw);
  }

  /** `n` bytes of `a` from `i` on are those of `b` from `j` on. */
  ghost predicate SameBytes(a: seq<byte>, i: nat, b: seq<byte>, j: nat, n: nat) {
    i + n <= |a| && j + n <= |b| && a[i..i + n] == b[j..j + n]
  }

  /** Copy an extent's raw blocks in 1 MB batches. */
  method CopyBlocks(io: Device, src: nat, dst: nat, total: nat) returns (ok: bool)
    requires src + total <= |io.disk.live| && dst + total <= |io.disk.live|
    requires src + total <= dst || dst + total <= src
    modifies io
    ensures WroteWithin(old(io.disk), io.disk, dst, dst + total)
    ensures ok ==> SameBytes(io.disk.live, dst, old(io.disk.live), src, total)
    ensures io.Reliable() ==> ok
  {
    hide WroteWithin, Patch, SameBytes;
    ghost var d0 := io.disk;
    WroteNothing(d0, dst, dst + total);
    NoBytes(d0.live, dst, d0.live, src);
    var copied := 0;
    while copied < total
      invariant copied <= total && |io.disk.live| == |d0.live|
      invariant WroteWithin(d0, io.disk, dst, dst + total)
      invariant SameBytes(io.disk.live, dst, d0.live, src, copied)
    {
      var chunk := Min(total - copied, BATCH_BLOCKS * BLOCK);
      ghost var d1 := io.disk;
      ok := CopyBatch(io, src + copied, dst + copied, chunk);
      WroteMore(d0, d1, io.disk, dst + copied, dst + copied + chunk, dst, dst + total);
      WroteSize(d0, io.disk, dst, dst + total);
      if !ok {
        return;
      }
      CopiedMore(d0, d1, src, dst, total, copied, chunk);
      copied := copied + chunk;
    }
    ok := true;
  }

  lemma NoBytes(a: seq<byte>, i: nat, b: seq<byte>, j: nat)
    requires i <= |a| && j <= |b|
    ensures SameBytes(a, i, b, j, 0)
  {}

  lemma CopiedMore(d0: Disk, d1: Disk, src: nat, dst: nat, total: nat, copied: nat, n: nat)
    requires WroteWithin(d0, d1, dst, dst + total) && copied + n <= total
    requires src + total <= |d0.live| && dst + total <= |d0.live| && (src + total <= dst || dst + total <= src)
    requires SameBytes(d1.live, dst, d0.live, src, copied)
    ensures |d1.live| == |d0.live|
    ensures SameBytes(Patch(d1.live, dst + copied, d1.live[src + copied..src + copied + n]), dst, d0.live, src, copied + n)
  {
    hide Patch;
    WroteOutside(d0, d1, dst, dst + total, src + copied, src + copied + n);
    CopyStep(d0.live, d1.live, src, dst, copied, d1.live[src + copied..src + copied + n]);
  }

  // ---- Replacing the metadata suffix -------------------------------------

  /** The content of an extent, read in one go. */
  ghost function ContentAt(live: seq<byte>, off: nat, size: nat): Result<seq<byte>>
    requires off + NumBlocks(size) * BLOCK <= |live|
  {
    Decode(live[off..off + NumBlocks(size) * BLOCK], size)
  }

  lemma {:induction false} LaterDecoded(raw: seq<byte>, i: nat, size: nat)
    requires i * BLOCK <= |raw| && |raw| % BLOCK == 0 && Decode(raw[..i * BLOCK], size).Ok? && Decode(raw, size).Ok?
    ensures Decode(raw[..i * BLOCK], size).value <= Decode(raw, size).value
    decreases |raw| - i * BLOCK
  {
    hide VerifyBlock, Decode;
    if i * BLOCK == |raw| {
      assert raw[..i * BLOCK] == raw;
    } else {
      DecodeNext(raw, i, size);
      LaterDecoded(raw, i + 1, size);
    }
  }

  /** The next chunk of a reader, cut to at most `most` bytes. */
  method NextPiece(reader: StreamingBlockReader, most: nat) returns (r: Result<seq<byte>>)
    requires reader.Valid() && |reader.delivered| + most <= reader.payloadLen && most > 0
    modifies reader
    ensures r.Ok? ==>
      && reader.Valid() && 0 < |r.value| <= most
      && (|r.value| < most ==> reader.delivered == old(reader.delivered) + r.value)
      && (Decode(reader.raw, reader.payloadLen).Ok? ==>
            old(reader.delivered) + r.value <= Decode(reader.raw, reader.payloadLen).value)
    ensures r.Err? ==> r.error == DataCorruption && Decode(reader.raw, reader.payloadLen).Err?
  {
    hide Decode, VerifyBlock;
    ghost var before := reader.delivered;
    var next := reader.NextChunk();
    if next.Err? {
      return Err(next.error);
    }
    AllDelivered(reader.raw, reader.payloadLen);
    var chunk := next.value.value;
    var take := Min(|chunk|, most);
    if Decode(reader.raw, reader.payloadLen).Ok? {
      LaterDecoded(reader.raw, reader.blockIdx, reader.payloadLen);
    }
    assert before + chunk[..take] <= reader.delivered;
    assert chunk[..|chunk|] == chunk;
    r := Ok(chunk[..take]);
  }

  lemma AllDelivered(raw: seq<byte>, size: nat)
    requires |raw| == NumBlocks(size) * BLOCK
    ensures Decode(raw, size).Ok? ==> |Decode(raw, size).value| == size
  {
    hide Decode;
    if Decode(raw, size).Ok? {
      DecodeLength(raw, size);
    }
  }

  /** Stream the first `bodySize` content bytes of one extent into another. */
  method StreamBody(io: Device, src: nat, size: nat, bodySize: nat, writer: StreamingBlockWriter, ghost limit: nat)
    returns (r: Result<bv32>)
    requires src + NumBlocks(size) * BLOCK <= |io.disk.live| && bodySize <= size
    requires writer.io == io && writer.Valid() && writer.Fed() == []
    requires writer.extentOffset + NumBlocks(bodySize) * BLOCK <= limit <= |io.disk.live|
    requires src + NumBlocks(size) * BLOCK <= writer.extentOffset || limit <= src
    modifies io, writer
    ensures WroteWithin(old(io.disk), io.disk, writer.extentOffset, limit)
    ensures r.Ok? ==> writer.Valid() && |writer.Fed()| == bodySize && r.value == Crc(writer.Fed())
    ensures
      var content := ContentAt(old(io.disk).live, src, size);
      && (r.Ok? && content.Ok? ==> writer.Fed() <= content.value)
      && (r.Err? && r.error.DataCorruption? ==> content.Err?)
    ensures r.Err? ==> r.error.DataCorruption? || (r.error.Io? && !io.Reliable())
  {
    hide Encode, Decode, Crc, WroteWithin;
    ghost var d0, dst := io.disk, writer.extentOffset;
    var reader := new StreamingBlockReader(io, src, size);
    ghost var content := ContentAt(d0.live, src, size);
    var crc: bv32 := 0;
    NoCrc();
    WroteNothing(d0, dst, limit);
    var remaining := bodySize;
    while remaining > 0
      invariant fresh(reader) && reader.io == io && reader.payloadLen == size && reader.extentOffset == src
      invariant content == Decode(reader.raw, size)
      invariant remaining > 0 ==> reader.Valid() && reader.delivered == writer.Fed()
      invariant writer.Valid() && |writer.Fed()| + remaining == bodySize && remaining >= 0 && crc == Crc(writer.Fed())
      invariant content.Ok? ==> writer.Fed() <= content.value
      invariant WroteWithin(d0, io.disk, dst, limit) && |io.disk.live| == |d0.live|
      decreases remaining
    {
      var next := NextPiece(reader, remaining);
      if next.Err? {
        return Err(next.error);
      }
      MoreBlocks(|writer.Fed()| + |next.value|, bodySize);
      ghost var d1 := io.disk;
      assert WroteWithin(d1, d1, dst, limit) by { WroteNothing(d1, dst, limit); }
      var ok;
      ok, crc := FeedChunk(writer, next.value, crc, d1, limit);
      WroteOutside(d1, io.disk, dst, limit, src, src + NumBlocks(size) * BLOCK);
      WroteMore(d0, d1, io.disk, dst, limit, dst, limit);
      if !ok {
        return Err(Io);
      }
      remaining := remaining - |next.value|;
    }
    r := Ok(crc);
  }

  /** Stream an old body followed by new metadata into a fresh extent. */
  method RewriteSuffix(io: Device, src: nat, size: nat, bodySize: nat, dst: nat, metadata: seq<byte>)
    returns (r: Result<bv32>, ghost body: seq<byte>)
    requires src + NumBlocks(size) * BLOCK <= |io.disk.live| && bodySize <= size
    requires dst + NumBlocks(bodySize + |metadata|) * BLOCK <= |io.disk.live|
    requires src + NumBlocks(size) * BLOCK <= dst || dst + NumBlocks(bodySize + |metadata|) * BLOCK <= src
    modifies io
    ensures WroteWithin(old(io.disk), io.disk, dst, dst + NumBlocks(bodySize + |metadata|) * BLOCK)
    ensures r.Ok? ==>
      && |body| == bodySize && r.value == Crc(body + metadata)
      && io.disk.live[dst..dst + NumBlocks(bodySize + |metadata|) * BLOCK] == Encode(body + metadata)
    ensures
      var content := ContentAt(old(io.disk).live, src, size);
      && (r.Ok? && content.Ok? ==> body <= content.value)
      && (r.Err? && r.error.DataCorruption? ==> content.Err?)
    ensures r.Err? ==> r.error.DataCorruption? || (r.error.Io? && !io.Reliable())
  {
    hide Encode, ContentAt, Crc, WroteWithin;
    ghost var d0, limit := io.disk, dst + NumBlocks(bodySize + |metadata|) * BLOCK;
    body := [];
    MoreBlocks(bodySize, bodySize + |metadata|);
    var writer := new StreamingBlockWriter(io, dst);
    r := StreamBody(io, src, size, bodySize, writer, limit);
    WroteSize(d0, io.disk, dst, limit);
    if r.Err? {
      return;
    }
    body := writer.Fed();
    var ok, crc := AppendAndFinish(writer, metadata, r.value, d0, limit);
    r := if ok then Ok(crc) else Err(Io);
  }

  /** Feed a last chunk, if there is one, and finish. */
  method AppendAndFinish(writer: StreamingBlockWriter, last: seq<byte>, crc: bv32, ghost d0: Disk, ghost limit: nat)
    returns (ok: bool, crc': bv32)
    requires writer.Valid() && crc == Crc(writer.Fed())
    requires WroteWithin(d0, writer.io.disk, writer.extentOffset, limit)
    requires writer.extentOffset + NumBlocks(|writer.Fed()| + |last|) * BLOCK <= limit <= |writer.io.disk.live|
    modifies writer, writer.io
    ensures WroteWithin(d0, writer.io.disk, writer.extentOffset, limit)
    ensures |writer.io.disk.live| == old(|writer.io.disk.live|)
    ensures ok ==>
      var payload, off := old(writer.Fed()) + last, writer.extentOffset;
      crc' == Crc(payload) && writer.io.disk.live[off..off + NumBlocks(|payload|) * BLOCK] == Encode(payload)
    ensures writer.io.Reliable() ==> ok
  {
    hide Encode, Crc, WroteWithin;
    crc' := crc;
    if last != [] {
      ok, crc' := FeedChunk(writer, last, crc, d0, limit);
      if !ok {
        return;
      }
    } else {
      assert writer.Fed() + last == writer.Fed();
    }
    ghost var d1, off := writer.io.disk, writer.extentOffset;
    ok := writer.Finish(limit);
    WroteMore(d0, d1, writer.io.disk, off, limit, off, limit);
    WroteSize(d1, writer.io.disk, off, limit);
  }

  // ---- Partial reads -----------------------------------------------------

  /** Read only the blocks that cover `[start, end)` of an uncompressed extent. The number of
      blocks underflows for an empty range on a block boundary: an overflow-checked build
      stops there, any other build wraps around to no blocks and delivers the empty range. */
  method ReadBlockRange(io: Device, off: nat, start: nat, end: nat, build: Build, ghost size: nat) returns (r: Result<seq<byte>>)
    requires size > 0 && off + NumBlocks(size) * BLOCK <= |io.disk.live|
    ensures
      var content := ContentAt(io.disk.live, off, size);
      content.Ok? && start <= end <= size && |io.disk.live| < U64_LIMIT ==>
        |content.value| == size &&
        r == if OnBoundary(start, end) && build.Checked? then Err(Panic) else Ok(content.value[start..end])
    ensures start < end < U64_LIMIT && |io.disk.live| < U64_LIMIT ==> PartialRead(io.disk.live, off, start, end, r)
  {
    hide VerifyBlock, Decode, DecodeRange, PartialRead;
    var first, last := start / DATA_SIZE, SaturatingSub(end, 1) / DATA_SIZE;
    if start < end < U64_LIMIT {
      BehindDevice(io.disk.live, off, start, end);
    }
    if first * BLOCK >= U64_LIMIT || off + first * BLOCK >= U64_LIMIT {
      TooFar(io.disk.live, off, size, first, start);
      return Err(ExtentInvalid);
    }
    ghost var raw := io.disk.live[off..off + NumBlocks(size) * BLOCK];
    AllDelivered(raw, size);
    UnderflowExactly(start, end);
    LastInside(start, end, size);
    if last < first && build.Checked? {
      return Err(Panic);
    }
    var count := (last - first + 1) % U64_LIMIT;
    Wrapped(first, last, count);
    if count * BLOCK >= U64_LIMIT {
      return Err(ExtentInvalid);
    }
    if count > 0 && off + (first + count) * BLOCK > |io.disk.live| {
      return Err(Io);
    }
    var part := [];
    if count > 0 {
      part := io.Pread(off + first * BLOCK, count * BLOCK);
    }
    r := DecodeBlockRange(part, first, start, end);
    if Decode(raw, size).Ok? && start <= end <= size && |io.disk.live| < U64_LIMIT {
      RangeRead(io.disk.live, off, size, start, end, count, part);
    }
    if start < end < U64_LIMIT {
      PartialParts(io.disk.live, off, start, end, count, part);
    }
  }

  /** What a partial read of the extent at `off` gives, damaged or not: the bytes of the range
      as the blocks that cover it hold them, if all of those blocks are good. */
  ghost predicate PartialRead(live: seq<byte>, off: nat, start: nat, end: nat, r: Result<seq<byte>>)
    requires start < end
  {
    if off + ((end - 1) / DATA_SIZE + 1) * BLOCK > |live| then r.Err?
    else if Covered(live[off..], start, end) then r.Ok? && Holding(live[off..], start, end, r.value)
    else r == Err(DataCorruption)
  }

  /** A range that does not end on the device is refused, whatever the error. */
  lemma BehindDevice(live: seq<byte>, off: nat, start: nat, end: nat)
    requires start < end < U64_LIMIT
    ensures
      var first, last := start / DATA_SIZE, SaturatingSub(end, 1) / DATA_SIZE;
      && first <= last && last - first + 1 < U64_LIMIT
      && (off + (last + 1) * BLOCK > |live| ==> forall e :: PartialRead(live, off, start, end, Err(e)))
  {
    hide Covered, Holding;
  }

  lemma PartialParts(live: seq<byte>, off: nat, start: nat, end: nat, count: nat, part: seq<byte>)
    requires start < end < U64_LIMIT
    requires count == (SaturatingSub(end, 1) / DATA_SIZE - start / DATA_SIZE + 1) % U64_LIMIT
    requires off + (start / DATA_SIZE + count) * BLOCK <= |live|
    requires part == live[off + start / DATA_SIZE * BLOCK..off + (start / DATA_SIZE + count) * BLOCK]
    ensures PartialRead(live, off, start, end, DecodeRange(part, start / DATA_SIZE, start, end))
  {
    hide VerifyBlock, DecodeRange, Covered, Holding;
    var first, last := start / DATA_SIZE, (end - 1) / DATA_SIZE;
    assert count == last - first + 1;
    SliceSlice(live, off, |live|, first * BLOCK, (last + 1) * BLOCK);
    assert live[off..] == live[off..|live|];
    assert part == live[off..][first * BLOCK..(last + 1) * BLOCK];
    RangeReadExactly(live[off..], start, end);
  }

  lemma CoveredPrefix(raw: seq<byte>, more: seq<byte>, start: nat, end: nat)
    requires start < end && ((end - 1) / DATA_SIZE + 1) * BLOCK <= |raw|
    ensures Covered(raw + more, start, end) <==> Covered(raw, start, end)
    ensures forall data :: Holding(raw, start, end, data) ==> Holding(raw + more, start, end, data)
  {
    hide VerifyBlock;
    forall i: nat | start / DATA_SIZE <= i <= (end - 1) / DATA_SIZE
      ensures BlockOk(raw + more, i) == BlockOk(raw, i)
    {
      assert (raw + more)[i * BLOCK..(i + 1) * BLOCK] == raw[i * BLOCK..(i + 1) * BLOCK];
    }
  }

  lemma HoldingUnique(raw: seq<byte>, start: nat, end: nat, a: seq<byte>, b: seq<byte>)
    requires start < end && Holding(raw, start, end, a) && Holding(raw, start, end, b)
    ensures a == b
  {
    forall i | 0 <= i < |a|
      ensures a[i] == b[i]
    {
      assert a[start + i - start] == raw[PlaceOf(start + i)];
    }
  }

  lemma DamagedTail(live: seq<byte>, off: nat, n: nat, pos: nat, b: byte)
    requires off + n <= |live| && pos < n
    ensures live[off + pos := b][off..] == live[off..off + n][pos := b] + live[off + n..]
  {}

  /** One damaged byte in a stored extent: a partial read reports it exactly if its block is
      among those that cover the range, and otherwise delivers the slice of the payload. */
  lemma PartialReadDamage(live: seq<byte>, off: nat, payload: seq<byte>, pos: nat, b: byte, start: nat, end: nat, r: Result<seq<byte>>)
    requires off + NumBlocks(|payload|) * BLOCK <= |live| && pos < NumBlocks(|payload|) * BLOCK && live[off + pos] != b
    requires live[off..off + NumBlocks(|payload|) * BLOCK] == Encode(payload)
    requires start < end <= |payload| && PartialRead(live[off + pos := b], off, start, end, r)
    ensures r == if InCover(pos, start, end) then Err(DataCorruption) else Ok(payload[start..end])
  {
    hide Encode, Covered, Holding, InCover;
    var good, n := Encode(payload), NumBlocks(|payload|) * BLOCK;
    EncodeLength(payload);
    assert good[pos] == live[off + pos];
    RangeDamageDetected(payload, pos, b, start, end);
    DamagedTail(live, off, n, pos, b);
    CoveredPrefix(good[pos := b], live[off + n..], start, end);
    if r.Ok? {
      HoldingUnique(live[off + pos := b][off..], start, end, r.value, payload[start..end]);
    }
  }

  /** An empty range that starts where a block starts, other than the first. */
  predicate OnBoundary(start: nat, end: nat) {
    start == end && start > 0 && start % DATA_SIZE == 0
  }

  /** Subtraction on 64 bits: one block short wraps to none, more to far too many. */
  lemma Wrapped(first: nat, last: nat, count: nat)
    requires count == (last - first + 1) % U64_LIMIT && first * BLOCK < U64_LIMIT
    ensures first <= last && last - first + 1 < U64_LIMIT ==> count == last - first + 1
    ensures first == last + 1 ==> count == 0
    ensures first > last + 1 ==> count * BLOCK >= U64_LIMIT
  {
    if first > last + 1 {
      assert count == last - first + 1 + U64_LIMIT;
    }
  }

  lemma RangeRead(live: seq<byte>, off: nat, size: nat, start: nat, end: nat, count: nat, part: seq<byte>)
    requires size > 0 && off + NumBlocks(size) * BLOCK <= |live| < U64_LIMIT && start <= end <= size
    requires ContentAt(live, off, size).Ok? && start / DATA_SIZE * BLOCK < U64_LIMIT && count * BLOCK < U64_LIMIT
    requires count == (SaturatingSub(end, 1) / DATA_SIZE - start / DATA_SIZE + 1) % U64_LIMIT
    requires count > 0 ==> off + (start / DATA_SIZE + count) * BLOCK <= |live|
    requires part == if count == 0 then [] else live[off + start / DATA_SIZE * BLOCK..off + (start / DATA_SIZE + count) * BLOCK]
    ensures |ContentAt(live, off, size).value| == size
    ensures DecodeRange(part, start / DATA_SIZE, start, end) == Ok(ContentAt(live, off, size).value[start..end])
  {
    hide VerifyBlock, Decode, DecodeRange;
    var raw := live[off..off + NumBlocks(size) * BLOCK];
    var first, last := start / DATA_SIZE, SaturatingSub(end, 1) / DATA_SIZE;
    AllDelivered(raw, size);
    LastInside(start, end, size);
    Wrapped(first, last, count);
    UnderflowExactly(start, end);
    if last < first {
      RangeNone(first, start, end);
    } else {
      SliceSlice(live, off, off + NumBlocks(size) * BLOCK, first * BLOCK, (last + 1) * BLOCK);
      if start < end {
        RangeIsSlice(raw, size, start, end);
      } else {
        EmptyRange(raw, size, start);
      }
    }
    assert start == end ==> Decode(raw, size).value[start..end] == [];
  }

  lemma TooFar(live: seq<byte>, off: nat, size: nat, first: nat, start: nat)
    requires size > 0 && off + NumBlocks(size) * BLOCK <= |live| && first == start / DATA_SIZE
    requires first * BLOCK >= U64_LIMIT || off + first * BLOCK >= U64_LIMIT
    ensures start <= size ==> |live| >= U64_LIMIT
  {}

  lemma UnderflowExactly(start: nat, end: nat)
    ensures
      var first, last := start / DATA_SIZE, SaturatingSub(end, 1) / DATA_SIZE;
      start <= end ==> (last < first <==> OnBoundary(start, end)) && (OnBoundary(start, end) ==> first == last + 1)
  {}

  lemma LastInside(start: nat, end: nat, size: nat)
    requires size > 0
    ensures start <= end <= size ==> SaturatingSub(end, 1) / DATA_SIZE + 1 <= NumBlocks(size)
  {}

  lemma EmptyRange(raw: seq<byte>, size: nat, at: nat)
    requires size > 0 && |raw| == NumBlocks(size) * BLOCK && Decode(raw, size).Ok? && at <= size
    requires at == 0 || at % DATA_SIZE != 0
    ensures
      var i := at / DATA_SIZE;
      (i + 1) * BLOCK <= |raw| && SaturatingSub(at, 1) / DATA_SIZE == i &&
      DecodeRange(raw[i * BLOCK..(i + 1) * BLOCK], i, at, at) == Ok([])
  {
    hide VerifyBlock, Decode;
    var i := at / DATA_SIZE;
    DecodedPiece(raw, size, i);
    EmptyFromBlock(raw[i * BLOCK..(i + 1) * BLOCK], i, at);
  }

  lemma EmptyFromBlock(block: seq<byte>, i: nat, at: nat)
    requires |block| == BLOCK && VerifyBlock(block).Ok?
    ensures DecodeRange(block, i, at, at) == Ok([])
  {
    hide VerifyBlock;
    var none: seq<byte> := [];
    assert block[..BLOCK] == block && DecodeRange(block[BLOCK..], i + 1, at, at) == Ok(none) && none + none == none;
  }
}
