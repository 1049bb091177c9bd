/** Slices of slices and of concatenations. */
module Seqs {

  lemma SliceSlice<T>(s: seq<T>, a: nat, b: nat, c: nat, d: nat)
    requires a <= b <= |s| && c <= d <= b - a
    ensures s[a..b][c..d] == s[a + c..a + d]
  {
    assert |s[a..b][c..d]| == d - c == |s[a + c..a + d]|;
    forall i | 0 <= i < d - c
      ensures s[a..b][c..d][i] == s[a + c..a + d][i]
    {
      assert s[a..b][c + i] == s[a + c + i];
    }
  }

  lemma SliceConcat<T>(s: seq<T>, a: nat, b: nat, c: nat)
    requires a <= b <= c <= |s|
    ensures s[a..b] + s[b..c] == s[a..c]
  {}

  lemma ConcatRight<T>(s: seq<T>, t: seq<T>, a: nat, b: nat)
    requires |s| <= a <= b <= |s| + |t|
    ensures (s + t)[a..b] == t[a - |s|..b - |s|]
  {}
}

/** Shared vocabulary: results, the device geometry and byte-range helpers. */
module Base {
  import opened Crc32c

  datatype Option<+T> = None | Some(value: T)

  datatype Error =
    | NotFormatted
    | SuperblockCorrupt
    | IndexCorrupt
    | DataCorruption
    | ExtentInvalid
    | NoSpace(needed: nat, available: nat)
    | NotFound
    | DeviceTooSmall(size: nat, minimum: nat)
    | KeyTooLong(len: nat, max: nat)
    | ShardOverflow(shard: nat, size: nat, capacity: nat)
    | MetadataTooLarge(len: nat, max: nat)
    | EmptyPayload
    | ReadOnly
    | WriteProtected
    | InvalidIndexSlotSize(size: nat)
    | MaxKeyLengthTooLarge(len: nat, max: nat)
    | RangeTooLarge
    | Io
    | Bincode
    | Panic

  datatype Result<+T> = Ok(value: T) | Err(error: Error)
  {
    predicate IsFailure() { Err? }
    function PropagateFailure<U>(): Result<U> requires Err? { Err(error) }
    function Extract(): T requires Ok? { value }
  }

  /** How the program was built: integer overflow stops it, or wraps around. */
  datatype Build = Checked | Wrapping

  const U16_MAX: nat := 0xFFFF
  const U32_LIMIT: nat := 0x1_0000_0000
  const U64_LIMIT: nat := 0x1_0000_0000_0000_0000

  const BLOCK: nat := 4096
  const SUPERBLOCK_SIZE: nat := 4096
  const DATA_START: nat := 8192
  const NUM_SHARDS: nat := 256
  const INDEX_REGION_SIZE: nat := 0x100_0000

  function Min(a: nat, b: nat): nat { if a <= b then a else b }
  function Max(a: nat, b: nat): nat { if a <= b then b else a }
  function SaturatingSub(a: nat, b: nat): nat { if a <= b then 0 else a - b }

  function MinDeviceSize(slotCapacity: nat): nat {
    DATA_START + BLOCK + 2 * slotCapacity
  }

  /** `s` with `data` written over it at `off`. */
  function Patch(s: seq<byte>, off: nat, data: seq<byte>): (r: seq<byte>)
    requires off + |data| <= |s|
    ensures |r| == |s|
  {
    s[..off] + data + s[off + |data|..]
  }

  lemma PatchInside(s: seq<byte>, off: nat, data: seq<byte>)
    requires off + |data| <= |s|
    ensures Patch(s, off, data)[off..off + |data|] == data
  {}

  lemma PatchOutside(s: seq<byte>, off: nat, data: seq<byte>, a: nat, b: nat)
    requires off + |data| <= |s| && a <= b <= |s|
    requires b <= off || off + |data| <= a
    ensures Patch(s, off, data)[a..b] == s[a..b]
  {}
}
