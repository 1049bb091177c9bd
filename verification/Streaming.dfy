/** Chunked writers and readers over extents on the device. */
module Streaming {
  import opened Crc32c
  import opened Base
  import opened Seqs
  import opened Blocks
  import opened Disks

  /** Blocks per I/O batch (1 MB). */
  const BATCH_BLOCKS: nat := 256

  // ---- Writing -----------------------------------------------------------

  /** Copy one payload piece into a zeroed block of `buf` and put its CRC in front. */
  method FillBlock(buf: array<byte>, at: nat, chunk: seq<byte>)
    requires at + BLOCK <= buf.Length && |chunk| <= DATA_SIZE
    requires forall k :: at <= k < at + BLOCK ==> buf[k] == 0
    modifies buf
    ensures buf[at..at + BLOCK] == SealBlock(Pad(chunk))
    ensures forall k :: 0 <= k < buf.Length && !(at <= k < at + BLOCK) ==> buf[k] == old(buf[k])
  {
    hide Crc, CrcBytes;
    var dst := at + CRC_SIZE;
    for i := 0 to |chunk|
      invariant forall k :: 0 <= k < i ==> buf[dst + k] == chunk[k]
      invariant forall k :: 0 <= k < buf.Length && !(dst <= k < dst + i) ==> buf[k] == old(buf[k])
    {
      buf[dst + i] := chunk[i];
    }
    var data := buf[dst..dst + DATA_SIZE];
    assert data == Pad(chunk);
    var crc := CrcBytes(Crc(data));
    buf[at], buf[at + 1], buf[at + 2], buf[at + 3] := crc[0], crc[1], crc[2], crc[3];
    assert buf[dst..dst + DATA_SIZE] == data;
    assert buf[at..at + CRC_SIZE] == crc;
    assert buf[at..at + BLOCK] == buf[at..at + CRC_SIZE] + buf[dst..dst + DATA_SIZE];
  }

  /** Content bytes of blocks `[from, to)` of a payload. */
  function Pieces(payload: seq<byte>, from: nat, to: nat): seq<byte>
    requires from <= to && from * DATA_SIZE <= |payload|
  {
    payload[from * DATA_SIZE..Min(to * DATA_SIZE, |payload|)]
  }

  lemma PiecesSnoc(payload: seq<byte>, from: nat, i: nat)
    requires from <= i && i * DATA_SIZE < |payload|
    ensures
      var chunk := Pieces(payload, i, i + 1);
      0 < |chunk| <= DATA_SIZE && |Pieces(payload, from, i)| == (i - from) * DATA_SIZE &&
      Encode(Pieces(payload, from, i + 1)) == Encode(Pieces(payload, from, i)) + SealBlock(Pad(chunk))
  {
    hide Encode, SealBlock;
    var a, chunk := Pieces(payload, from, i), Pieces(payload, i, i + 1);
    SliceConcat(payload, from * DATA_SIZE, i * DATA_SIZE, Min((i + 1) * DATA_SIZE, |payload|));
    EncodeSnoc(a, chunk, i - from);
  }

  lemma PiecesJoin(payload: seq<byte>, i: nat, to: nat)
    requires i <= to && i * DATA_SIZE <= |payload|
    ensures Encode(Pieces(payload, 0, to)) == Encode(Pieces(payload, 0, i)) + Encode(Pieces(payload, i, to))
  {
    hide Encode;
    SliceConcat(payload, 0, i * DATA_SIZE, Min(to * DATA_SIZE, |payload|));
    EncodeConcat(Pieces(payload, 0, i), Pieces(payload, i, to), i);
  }

  method EncodeBatch(payload: seq<byte>, from: nat, to: nat) returns (buf: array<byte>)
    requires from < to <= NumBlocks(|payload|)
    ensures fresh(buf) && buf.Length == (to - from) * BLOCK
    ensures buf[..] == Encode(Pieces(payload, from, to))
  {
    hide Encode, SealBlock, Pad;
    buf := new byte[(to - from) * BLOCK](_ => 0);
    assert Pieces(payload, from, from) == [];
    assert Encode([]) == [] by { EncodeLength([]); }
    for i := from to to
      invariant buf[..(i - from) * BLOCK] == Encode(Pieces(payload, from, i))
      invariant forall k :: (i - from) * BLOCK <= k < buf.Length ==> buf[k] == 0
    {
      var at := (i - from) * BLOCK;
      ghost var before := buf[..at];
      FillBlock(buf, at, payload[i * DATA_SIZE..Min((i + 1) * DATA_SIZE, |payload|)]);
      assert buf[..at] == before;
      SliceConcat(buf[..], 0, at, at + BLOCK);
      PiecesSnoc(payload, from, i);
    }
    assert buf[..] == buf[..(to - from) * BLOCK];
  }

  lemma NothingEncoded()
    ensures Encode([]) == []
  {}

  /** Writing the next batch behind an already encoded prefix. */
  lemma BatchWritten(live: seq<byte>, off: nat, payload: seq<byte>, i: nat, end: nat, buf: seq<byte>)
    requires i <= end && i * DATA_SIZE <= |payload| && |buf| == (end - i) * BLOCK
    requires off + end * BLOCK <= |live|
    requires live[off..off + i * BLOCK] == Encode(Pieces(payload, 0, i)) && buf == Encode(Pieces(payload, i, end))
    ensures Patch(live, off + i * BLOCK, buf)[off..off + end * BLOCK] == Encode(Pieces(payload, 0, end))
  {
    hide Encode, Patch;
    var live' := Patch(live, off + i * BLOCK, buf);
    PatchOutside(live, off + i * BLOCK, buf, off, off + i * BLOCK);
    PatchInside(live, off + i * BLOCK, buf);
    SliceConcat(live', off, off + i * BLOCK, off + end * BLOCK);
    PiecesJoin(payload, i, end);
  }

  /** Encode a whole payload and write it in 1 MB batches. */
  method EncodeAndWriteBatched(io: Device, off: nat, payload: seq<byte>) returns (ok: bool)
    requires off + NumBlocks(|payload|) * BLOCK <= |io.disk.live|
    modifies io
    ensures WroteWithin(old(io.disk), io.disk, off, off + NumBlocks(|payload|) * BLOCK)
    ensures ok ==> io.disk.live[off..off + NumBlocks(|payload|) * BLOCK] == Encode(payload)
    ensures io.Reliable() ==> ok
  {
    hide Encode, Patch;
    ghost var d0 := io.disk;
    var n := NumBlocks(|payload|);
    var i := 0;
    assert Pieces(payload, 0, 0) == [];
    NothingEncoded();
    WroteNothing(d0, off, off + n * BLOCK);
    while i < n
      invariant i <= n && |io.disk.live| == |d0.live|
      invariant WroteWithin(d0, io.disk, off, off + n * BLOCK)
      invariant io.disk.live[off..off + i * BLOCK] == Encode(Pieces(payload, 0, i))
    {
      hide WroteWithin, Pieces;
      var end := Min(i + BATCH_BLOCKS, n);
      var buf := EncodeBatch(payload, i, end);
      ghost var d1 := io.disk;
      BatchWritten(d1.live, off, payload, i, end, buf[..]);
      ok := io.Pwrite(off + i * BLOCK, buf[..]);
      WroteMore(d0, d1, io.disk, off + i * BLOCK, off + end * BLOCK, off, off + n * BLOCK);
      if !ok {
        return false;
      }
      i := end;
    }
    assert Pieces(payload, 0, n) == payload;
    ok := true;
  }

  lemma BlocksOf(n: nat)
    ensures NumBlocks(n * DATA_SIZE) == n
  {}

  lemma SealedBatch(batched: seq<byte>, n: nat, piece: seq<byte>)
    requires |batched| == n * DATA_SIZE && |piece| == DATA_SIZE
    ensures Encode(batched) + (CrcBytes(Crc(piece)) + piece) == Encode(batched + piece)
  {
    EncodeSnoc(batched, piece, n);
    assert Pad(piece) == piece;
  }

  lemma FlushedBatch(live: seq<byte>, off: nat, flushed: seq<byte>, n: nat, batched: seq<byte>, m: nat)
    requires |flushed| == n * DATA_SIZE && |batched| == m * DATA_SIZE && off + (n + m) * BLOCK <= |live|
    requires live[off..off + n * BLOCK] == Encode(flushed)
    ensures |Encode(batched)| == m * BLOCK
    ensures Patch(live, off + n * BLOCK, Encode(batched))[off..off + (n + m) * BLOCK] == Encode(flushed + batched)
  {
    hide Encode, Patch;
    EncodeLength(batched);
    BlocksOf(m);
    var live' := Patch(live, off + n * BLOCK, Encode(batched));
    PatchOutside(live, off + n * BLOCK, Encode(batched), off, off + n * BLOCK);
    PatchInside(live, off + n * BLOCK, Encode(batched));
    SliceConcat(live', off, off + n * BLOCK, off + (n + m) * BLOCK);
    EncodeConcat(flushed, batched, n);
  }

  lemma PaddedTail(full: seq<byte>, n: nat, partial: seq<byte>)
    requires |full| == n * DATA_SIZE && 0 < |partial| < DATA_SIZE
    ensures Encode(full + Pad(partial)) == Encode(full + partial)
    ensures NumBlocks(|full + partial|) == n + 1
  {
    hide Encode;
    EncodeConcat(full, Pad(partial), n);
    EncodeConcat(full, partial, n);
    EncodePadded(partial);
  }

  /** Block encoder fed in arbitrary chunks; at most one batch and one partial block are
      held in memory. */
  class StreamingBlockWriter {
    const io: Device
    const extentOffset: nat
    /** Encoded blocks waiting to be written. */
    var batch: seq<byte>
    var blocksInBatch: nat
    /** Payload bytes of the block being filled. */
    var partial: seq<byte>
    var blocksWritten: nat

    /** Payload bytes already on the device, and those encoded in `batch`. */
    ghost var flushed: seq<byte>
    ghost var batched: seq<byte>

    ghost predicate Valid()
      reads this, io
    {
      && |flushed| == blocksWritten * DATA_SIZE
      && |batched| == blocksInBatch * DATA_SIZE
      && |partial| < DATA_SIZE && blocksInBatch < BATCH_BLOCKS
      && batch == Encode(batched)
      && extentOffset + blocksWritten * BLOCK <= |io.disk.live|
      && io.disk.live[extentOffset..extentOffset + blocksWritten * BLOCK] == Encode(flushed)
    }

    /** Everything fed so far. */
    ghost function Fed(): seq<byte>
      reads this
    {
      flushed + batched + partial
    }

    constructor (io: Device, extentOffset: nat)
      requires extentOffset <= |io.disk.live|
      ensures this.io == io && this.extentOffset == extentOffset
      ensures Valid() && Fed() == []
    {
      this.io := io;
      this.extentOffset := extentOffset;
      batch, blocksInBatch, partial, blocksWritten := [], 0, [], 0;
      flushed, batched := [], [];
    }

    method FlushBatch(ghost limit: nat) returns (ok: bool)
      requires |flushed| == blocksWritten * DATA_SIZE && |batched| == blocksInBatch * DATA_SIZE
      requires batch == Encode(batched)
      requires extentOffset + (blocksWritten + blocksInBatch) * BLOCK <= limit <= |io.disk.live|
      requires io.disk.live[extentOffset..extentOffset + blocksWritten * BLOCK] == Encode(flushed)
      modifies this, io
      ensures WroteWithin(old(io.disk), io.disk, extentOffset, limit)
      ensures partial == old(partial)
      ensures ok ==> blocksInBatch == 0 && batched == [] && batch == Encode(batched)
      ensures ok ==> flushed == old(flushed) + old(batched) && blocksWritten == old(blocksWritten) + old(blocksInBatch)
      ensures ok ==> io.disk.live[extentOffset..extentOffset + blocksWritten * BLOCK] == Encode(flushed)
      ensures io.Reliable() ==> ok
    {
      hide Encode, Patch, WroteWithin;
      FlushedBatch(io.disk.live, extentOffset, flushed, blocksWritten, batched, blocksInBatch);
      var diskOffset := extentOffset + blocksWritten * BLOCK;
      ghost var d0 := io.disk;
      ok := io.Pwrite(diskOffset, batch);
      WroteWithinWiden(d0, io.disk, diskOffset, diskOffset + |batch|, extentOffset, limit);
      if !ok {
        return;
      }
      blocksWritten := blocksWritten + blocksInBatch;
      flushed, batched := flushed + batched, [];
      batch, blocksInBatch := [], 0;
      NothingEncoded();
    }

    method SealBlock(ghost limit: nat) returns (ok: bool)
      requires |partial| == DATA_SIZE
      requires |flushed| == blocksWritten * DATA_SIZE && |batched| == blocksInBatch * DATA_SIZE
      requires batch == Encode(batched) && blocksInBatch < BATCH_BLOCKS
      requires extentOffset + (blocksWritten + blocksInBatch + 1) * BLOCK <= limit <= |io.disk.live|
      requires io.disk.live[extentOffset..extentOffset + blocksWritten * BLOCK] == Encode(flushed)
      modifies this, io
      ensures WroteWithin(old(io.disk), io.disk, extentOffset, limit)
      ensures ok ==> Valid() && partial == [] && Fed() == old(Fed())
      ensures io.Reliable() ==> ok
    {
      hide Encode, Patch;
      WroteNothing(io.disk, extentOffset, limit);
      SealedBatch(batched, blocksInBatch, partial);
      batch := batch + (CrcBytes(Crc(partial)) + partial);
      batched := batched + partial;
      partial := [];
      blocksInBatch := blocksInBatch + 1;
      ok := true;
      if blocksInBatch == BATCH_BLOCKS {
        ok := FlushBatch(limit);
      }
    }

    /** Feed one chunk. */
    method WriteChunk(chunk: seq<byte>, ghost limit: nat) returns (ok: bool)
      requires Valid()
      requires extentOffset + NumBlocks(|Fed()| + |chunk|) * BLOCK <= limit <= |io.disk.live|
      modifies this, io
      ensures WroteWithin(old(io.disk), io.disk, extentOffset, limit)
      ensures ok ==> Valid() && Fed() == old(Fed()) + chunk
      ensures io.Reliable() ==> ok
    {
      hide Encode, Patch;
      ghost var d0, total := io.disk, Fed() + chunk;
      WroteNothing(d0, extentOffset, limit);
      var data := chunk;
      while data != []
        invariant Valid() && Fed() + data == total
        invariant WroteWithin(d0, io.disk, extentOffset, limit) && limit <= |io.disk.live|
        decreases |data|
      {
        hide WroteWithin;
        var take := Min(|data|, DATA_SIZE - |partial|);
        ghost var before := Fed();
        partial := partial + data[..take];
        assert Fed() == before + data[..take];
        assert Fed() + data[take..] == total by { assert data == data[..take] + data[take..]; }
        data := data[take..];
        if |partial| == DATA_SIZE {
          ghost var d1 := io.disk;
          ok := SealBlock(limit);
          WroteMore(d0, d1, io.disk, extentOffset, limit, extentOffset, limit);
          if !ok {
            return false;
          }
        }
      }
      ok := true;
    }

    /** Zero-pad and write what is left. */
    method Finish(ghost limit: nat) returns (ok: bool)
      requires Valid()
      requires extentOffset + NumBlocks(|Fed()|) * BLOCK <= limit <= |io.disk.live|
      modifies this, io
      ensures WroteWithin(old(io.disk), io.disk, extentOffset, limit)
      ensures ok ==>
        io.disk.live[extentOffset..extentOffset + NumBlocks(|old(Fed())|) * BLOCK] == Encode(old(Fed()))
      ensures io.Reliable() ==> ok
    {
      hide Encode, Patch, WroteWithin;
      ghost var d0, fed, full := io.disk, Fed(), flushed + batched;
      WroteNothing(d0, extentOffset, limit);
      BlocksOf(blocksWritten + blocksInBatch);
      if partial != [] {
        PaddedTail(full, blocksWritten + blocksInBatch, partial);
        partial := Pad(partial);
        fed := full + partial;
        BlocksOf(blocksWritten + blocksInBatch + 1);
        ok := SealBlock(limit);
        WroteSize(d0, io.disk, extentOffset, limit);
        if !ok {
          return;
        }
      }
      assert Encode(fed) == Encode(old(Fed())) && Fed() == fed && partial == [];
      assert fed == flushed + batched;
      ghost var d1 := io.disk;
      if blocksInBatch > 0 {
        ok := FlushBatch(limit);
        WroteMore(d0, d1, io.disk, extentOffset, limit, extentOffset, limit);
        if !ok {
          return;
        }
      }
      assert flushed == fed;
      ok := true;
    }
  }

  // ---- Reading -----------------------------------------------------------

  /** Decoding the first `i + 1` blocks, given the decoding of the first `i`. */
  lemma DecodeNext(raw: seq<byte>, i: nat, len: nat)
    requires (i + 1) * BLOCK <= |raw|
    requires Decode(raw[..i * BLOCK], len).Ok?
    ensures
      var block, done := raw[i * BLOCK..(i + 1) * BLOCK], Decode(raw[..i * BLOCK], len).value;
      |done| <= len && (VerifyBlock(block).Ok? ==>
        Decode(raw[..(i + 1) * BLOCK], len) == Ok(done + VerifyBlock(block).value[..Min(len - |done|, DATA_SIZE)]))
      && (VerifyBlock(block).Err? ==> Decode(raw, len).Err?)
  {
    hide VerifyBlock, Decode;
    var block := raw[i * BLOCK..(i + 1) * BLOCK];
    SliceConcat(raw, 0, i * BLOCK, (i + 1) * BLOCK);
    DecodeSnoc(raw[..i * BLOCK], block, len);
    DecodeLength(raw[..i * BLOCK], len);
    if VerifyBlock(block).Err? {
      assert raw == raw[..(i + 1) * BLOCK] + raw[(i + 1) * BLOCK..];
      DecodePrefixFails(raw[..(i + 1) * BLOCK], raw[(i + 1) * BLOCK..], len);
    }
  }

  lemma DecodeNone(raw: seq<byte>, len: nat)
    ensures Decode(raw[..0], len) == Ok([])
  {}

  /** Read an extent in 1 MB batches, verifying every block. */
  method ReadAndDecodeBatched(io: Device, off: nat, size: nat) returns (r: Result<seq<byte>>)
    requires off + NumBlocks(size) * BLOCK <= |io.disk.live|
    ensures r == Decode(io.disk.live[off..off + NumBlocks(size) * BLOCK], size)
  {
    hide VerifyBlock, Decode;
    var n := NumBlocks(size);
    ghost var raw := io.disk.live[off..off + n * BLOCK];
    var payload: seq<byte> := [];
    var blockIdx := 0;
    DecodeNone(raw, size);
    while blockIdx < n
      invariant blockIdx <= n && Decode(raw[..blockIdx * BLOCK], size) == Ok(payload)
    {
      var batchEnd := Min(blockIdx + BATCH_BLOCKS, n);
      var batch := io.Pread(off + blockIdx * BLOCK, (batchEnd - blockIdx) * BLOCK);
      for i := 0 to batchEnd - blockIdx
        invariant Decode(raw[..(blockIdx + i) * BLOCK], size) == Ok(payload)
      {
        BlockOfBatch(io.disk.live, off, n, blockIdx, batchEnd, i);
        DecodeNext(raw, blockIdx + i, size);
        var data := VerifyBlock(batch[i * BLOCK..(i + 1) * BLOCK]);
        if data.Err? {
          return Err(data.error);
        }
        payload := payload + data.value[..Min(size - |payload|, DATA_SIZE)];
      }
      blockIdx := batchEnd;
    }
    assert raw[..n * BLOCK] == raw;
    r := Ok(payload);
  }

  lemma BlockOfBatch(live: seq<byte>, off: nat, n: nat, from: nat, to: nat, i: nat)
    requires off + n * BLOCK <= |live| && from + i < to <= n
    ensures live[off + from * BLOCK..off + to * BLOCK][i * BLOCK..(i + 1) * BLOCK]
      == live[off..off + n * BLOCK][(from + i) * BLOCK..(from + i + 1) * BLOCK]
  {
    SliceSlice(live, off + from * BLOCK, off + to * BLOCK, i * BLOCK, (i + 1) * BLOCK);
    SliceSlice(live, off, off + n * BLOCK, (from + i) * BLOCK, (from + i + 1) * BLOCK);
  }

  /** Verify and decode blocks already in memory. */
  method DecodeBlocks(raw: seq<byte>, len: nat) returns (r: Result<seq<byte>>)
    requires |raw| % BLOCK == 0
    ensures r == Decode(raw, len)
  {
    hide VerifyBlock, Decode;
    var n := |raw| / BLOCK;
    var content: seq<byte> := [];
    DecodeNone(raw, len);
    for i := 0 to n
      invariant Decode(raw[..i * BLOCK], len) == Ok(content)
    {
      DecodeNext(raw, i, len);
      var data := VerifyBlock(raw[i * BLOCK..(i + 1) * BLOCK]);
      if data.Err? {
        return Err(data.error);
      }
      content := content + data.value[..Min(len - |content|, DATA_SIZE)];
    }
    assert raw[..n * BLOCK] == raw;
    r := Ok(content);
  }

  function Prepend(content: seq<byte>, r: Result<seq<byte>>): Result<seq<byte>> {
    if r.Ok? then Ok(content + r.value) else r
  }

  lemma PrependTwice(a: seq<byte>, b: seq<byte>, r: Result<seq<byte>>)
    ensures Prepend(a, Prepend(b, r)) == Prepend(a + b, r)
    ensures Prepend([], r) == r
    ensures b == [] ==> a + b == a
  {
    if r.Ok? {
      assert a + (b + r.value) == a + b + r.value;
      assert [] + r.value == r.value;
    }
  }

  function RangePart(data: seq<byte>, base: nat, start: nat, end: nat): seq<byte>
    requires |data| == DATA_SIZE
  {
    var lo, hi := Max(start, base), Min(end, base + DATA_SIZE);
    if lo < hi then data[lo - base..hi - base] else []
  }

  lemma DecodeRangeStep(raw: seq<byte>, i: nat, first: nat, start: nat, end: nat)
    requires (i + 1) * BLOCK <= |raw|
    ensures
      var block := raw[i * BLOCK..(i + 1) * BLOCK];
      DecodeRange(raw[i * BLOCK..], first, start, end)
        == if VerifyBlock(block).Err? then Err(VerifyBlock(block).error)
           else Prepend(RangePart(VerifyBlock(block).value, first * DATA_SIZE, start, end),
                        DecodeRange(raw[(i + 1) * BLOCK..], first + 1, start, end))
  {
    hide VerifyBlock;
    var rest := raw[i * BLOCK..];
    SliceSlice(raw, i * BLOCK, |raw|, 0, BLOCK);
    SliceSlice(raw, i * BLOCK, |raw|, BLOCK, |rest|);
    assert rest[..BLOCK] == raw[i * BLOCK..(i + 1) * BLOCK] && rest[BLOCK..] == raw[(i + 1) * BLOCK..];
  }

  /** Verify blocks in memory, the first being block `first`, and cut out a byte range. */
  method DecodeBlockRange(raw: seq<byte>, first: nat, start: nat, end: nat) returns (r: Result<seq<byte>>)
    requires |raw| % BLOCK == 0
    ensures r == DecodeRange(raw, first, start, end)
  {
    hide VerifyBlock, DecodeRange;
    var n := |raw| / BLOCK;
    ghost var goal := DecodeRange(raw, first, start, end);
    var content: seq<byte> := [];
    assert raw[0 * BLOCK..] == raw;
    PrependTwice([], [], goal);
    for i := 0 to n
      invariant goal == Prepend(content, DecodeRange(raw[i * BLOCK..], first + i, start, end))
    {
      DecodeRangeStep(raw, i, first + i, start, end);
      var data := VerifyBlock(raw[i * BLOCK..(i + 1) * BLOCK]);
      if data.Err? {
        return Err(data.error);
      }
      var base := (first + i) * DATA_SIZE;
      var lo, hi := Max(start, base), Min(end, base + DATA_SIZE);
      PrependTwice(content, RangePart(data.value, base, start, end),
                   DecodeRange(raw[(i + 1) * BLOCK..], first + i + 1, start, end));
      if lo < hi {
        content := content + data.value[lo - base..hi - base];
      }
    }
    RangeNone(first + n, start, end);
    assert raw[n * BLOCK..] == [] && content + [] == content;
    r := Ok(content);
  }

  lemma RangeNone(first: nat, start: nat, end: nat)
    ensures DecodeRange([], first, start, end) == Ok([])
  {}

  lemma MoreDecoded(raw: seq<byte>, i: nat, j: nat, len: nat)
    requires i < j <= NumBlocks(len) && j * BLOCK <= |raw|
    requires Decode(raw[..i * BLOCK], len).Ok? && Decode(raw[..j * BLOCK], len).Ok?
    ensures |Decode(raw[..i * BLOCK], len).value| < |Decode(raw[..j * BLOCK], len).value|
  {
    hide VerifyBlock, Decode;
    DecodeLength(raw[..i * BLOCK], len);
    DecodeLength(raw[..j * BLOCK], len);
  }

  lemma PieceAdded(a: seq<byte>, b: seq<byte>, c: seq<byte>)
    ensures a + b + c == a + (b + c)
  {}

  /** Pull-style reader: each call delivers the content of the next batch of blocks. */
  class StreamingBlockReader {
    const io: Device
    const extentOffset: nat
    const totalBlocks: nat
    const payloadLen: nat
    var blockIdx: nat
    var payloadConsumed: nat

    /** The extent as it was when the reader was made, and what has been delivered. */
    ghost const raw: seq<byte>
    ghost var delivered: seq<byte>

    ghost predicate Valid()
      reads this, io
    {
      && totalBlocks == NumBlocks(payloadLen) && |raw| == totalBlocks * BLOCK
      && extentOffset + totalBlocks * BLOCK <= |io.disk.live|
      && io.disk.live[extentOffset..extentOffset + totalBlocks * BLOCK] == raw
      && blockIdx <= totalBlocks && payloadConsumed == |delivered|
      && Decode(raw[..blockIdx * BLOCK], payloadLen) == Ok(delivered)
    }

    constructor (io: Device, extentOffset: nat, payloadSize: nat)
      requires extentOffset + NumBlocks(payloadSize) * BLOCK <= |io.disk.live|
      ensures this.io == io && this.extentOffset == extentOffset && payloadLen == payloadSize
      ensures raw == io.disk.live[extentOffset..extentOffset + NumBlocks(payloadSize) * BLOCK]
      ensures Valid() && delivered == [] && blockIdx == 0
    {
      this.io, this.extentOffset, payloadLen := io, extentOffset, payloadSize;
      totalBlocks := NumBlocks(payloadSize);
      blockIdx, payloadConsumed := 0, 0;
      raw := io.disk.live[extentOffset..extentOffset + NumBlocks(payloadSize) * BLOCK];
      delivered := [];
    }

    method NextChunk() returns (r: Result<Option<seq<byte>>>)
      requires Valid()
      modifies this
      ensures r.Err? ==> r.error == DataCorruption && Decode(raw, payloadLen).Err?
      ensures r.Ok? ==> Valid() && blockIdx >= old(blockIdx)
      ensures r == Ok(None) ==> delivered == old(delivered) && Decode(raw, payloadLen) == Ok(delivered)
      ensures r.Ok? && r.value.Some? ==>
        r.value.value != [] && delivered == old(delivered) + r.value.value && blockIdx > old(blockIdx)
    {
      hide VerifyBlock, Decode;
      if blockIdx >= totalBlocks {
        assert raw[..blockIdx * BLOCK] == raw;
        return Ok(None);
      }
      var batchEnd := Min(blockIdx + BATCH_BLOCKS, totalBlocks);
      var batch := io.Pread(extentOffset + blockIdx * BLOCK, (batchEnd - blockIdx) * BLOCK);
      var chunk: seq<byte> := [];
      ghost var before := delivered;
      for i := 0 to batchEnd - blockIdx
        invariant blockIdx == old(blockIdx) && delivered == before + chunk && payloadConsumed == |delivered|
        invariant Decode(raw[..(blockIdx + i) * BLOCK], payloadLen) == Ok(delivered)
      {
        BlockOfBatch(io.disk.live, extentOffset, totalBlocks, blockIdx, batchEnd, i);
        DecodeNext(raw, blockIdx + i, payloadLen);
        var data := VerifyBlock(batch[i * BLOCK..(i + 1) * BLOCK]);
        if data.Err? {
          return Err(data.error);
        }
        var piece := data.value[..Min(payloadLen - payloadConsumed, DATA_SIZE)];
        PieceAdded(before, chunk, piece);
        chunk := chunk + piece;
        payloadConsumed := payloadConsumed + |piece|;
        delivered := delivered + piece;
      }
      MoreDecoded(raw, blockIdx, batchEnd, payloadLen);
      blockIdx := batchEnd;
      r := Ok(Some(chunk));
    }
  }

  /** Byte-stream view of a [StreamingBlockReader]: buffers one chunk and hands it out in
      whatever sizes the caller asks for. */
  class BlockReaderIo {
    const reader: StreamingBlockReader
    var buf: seq<byte>
    var pos: nat
    var failed: bool

    /** Bytes handed out so far. */
    ghost var out: seq<byte>

    ghost predicate Valid()
      reads this, reader, reader.io
    {
      && (!failed ==> reader.Valid() && pos <= |buf| && out + buf[pos..] == reader.delivered)
      && (failed ==> Decode(reader.raw, reader.payloadLen).Err?)
    }

    constructor (io: Device, extentOffset: nat, payloadSize: nat)
      requires extentOffset + NumBlocks(payloadSize) * BLOCK <= |io.disk.live|
      ensures Valid() && fresh(reader) && reader.io == io && reader.payloadLen == payloadSize && out == []
      ensures reader.raw == io.disk.live[extentOffset..extentOffset + NumBlocks(payloadSize) * BLOCK]
    {
      reader := new StreamingBlockReader(io, extentOffset, payloadSize);
      buf, pos, failed := [], 0, false;
      out := [];
    }

    /** Hand out what is buffered, as far as `dst` has room. */
    method Drain(dst: array<byte>) returns (n: nat)
      requires Valid() && !failed && pos < |buf|
      modifies this`pos, this`out, dst
      ensures Valid() && n == Min(old(|buf| - pos), dst.Length)
      ensures out == old(out) + dst[..n] && dst[n..] == old(dst[n..])
    {
      hide Decode;
      n := Min(|buf| - pos, dst.Length);
      forall i | 0 <= i < n {
        dst[i] := buf[pos + i];
      }
      assert dst[..n] == buf[pos..pos + n];
      HandedOut(out, buf, pos, n);
      out := out + buf[pos..pos + n];
      pos := pos + n;
    }

    /** Fill a prefix of `dst`; zero bytes for a non-empty `dst` means end of data. An error is
        final: every later read fails too. */
    method Read(dst: array<byte>) returns (r: Result<nat>)
      requires Valid()
      modifies this, reader, dst
      ensures Valid()
      ensures r.Err? ==> failed && Decode(reader.raw, reader.payloadLen).Err? && out == old(out)
      ensures old(failed) ==> r.Err?
      ensures r.Ok? ==> !failed && r.value <= dst.Length && out == old(out) + dst[..r.value]
      ensures r.Ok? ==> dst[r.value..] == old(dst[r.value..])
      ensures r == Ok(0) && dst.Length > 0 ==> Decode(reader.raw, reader.payloadLen) == Ok(out)
    {
      hide VerifyBlock, Decode;
      if failed {
        return Err(Io);
      }
      while pos >= |buf|
        invariant Valid() && !failed && out == old(out) && dst[..] == old(dst[..])
        decreases reader.totalBlocks - reader.blockIdx, |buf| - pos
      {
        NothingLeft(out, buf, pos);
        var next := reader.NextChunk();
        if next.Err? {
          failed := true;
          return Err(Io);
        }
        if next.value.None? || next.value.value == [] {
          assert dst[..0] == [];
          return Ok(0);
        }
        buf, pos := next.value.value, 0;
        assert buf[0..] == buf;
      }
      var n := Drain(dst);
      r := Ok(n);
    }
  }

  lemma HandedOut(out: seq<byte>, buf: seq<byte>, pos: nat, n: nat)
    requires pos + n <= |buf|
    ensures out + buf[pos..pos + n] + buf[pos + n..] == out + buf[pos..]
  {}

  lemma NothingLeft(out: seq<byte>, buf: seq<byte>, pos: nat)
    requires pos == |buf|
    ensures out + buf[pos..] == out
  {}
}
