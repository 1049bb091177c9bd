/** CRC-32C (Castagnoli), the checksum of every block, shard and superblock. */
module Crc32c {

  type byte = bv8

  /** Reflected Castagnoli polynomial. */
  const POLY: bv32 := 0x82F6_3B78

  function Xor(a: bv32, b: bv32): bv32 {
    a ^ b
  }

  /** One bit of the shift register. */
  function ShiftBit(c: bv32): bv32 {
    if c & 1 == 1 then Xor(c >> 1, POLY) else c >> 1
  }

  function ShiftBits(c: bv32, n: nat): bv32
    decreases n, c
  {
    if n == 0 then c else ShiftBits(ShiftBit(c), n - 1)
  }

  /** One byte through the register. */
  function Clock(c: bv32, b: byte): bv32 {
    ShiftBits(Xor(c, b as bv32), 8)
  }

  /** The register after all of `data`, starting from `c`. */
  function Register(c: bv32, data: seq<byte>): bv32
    decreases |data|
  {
    if data == [] then c else Register(Clock(c, data[0]), data[1..])
  }

  function Crc(data: seq<byte>): bv32 {
    Xor(Register(0xFFFF_FFFF, data), 0xFFFF_FFFF)
  }

  /** Continue a finished checksum over more data. */
  function Append(crc: bv32, data: seq<byte>): bv32 {
    Xor(Register(Xor(crc, 0xFFFF_FFFF), data), 0xFFFF_FFFF)
  }

  /** The byte-and-bit loop. */
  method ComputeCrc(data: seq<byte>) returns (crc: bv32)
    ensures crc == Crc(data)
  {
    crc := 0xFFFF_FFFF;
    for i := 0 to |data|
      invariant Register(crc, data[i..]) == Register(0xFFFF_FFFF, data)
    {
      assert data[i..][0] == data[i] && data[i..][1..] == data[i + 1..];
      crc := ClockBits(crc, data[i]);
    }
    crc := Xor(crc, 0xFFFF_FFFF);
  }

  method ClockBits(c: bv32, b: byte) returns (crc: bv32)
    ensures crc == Clock(c, b)
  {
    crc := Xor(c, b as bv32);
    for k := 0 to 8
      invariant Clock(c, b) == ShiftBits(crc, 8 - k)
    {
      if crc & 1 == 1 {
        crc := Xor(crc >> 1, POLY);
      } else {
        crc := crc >> 1;
      }
    }
  }

  // ---- Chunked checksums -------------------------------------------------

  lemma {:induction false} RegisterConcat(c: bv32, a: seq<byte>, b: seq<byte>)
    ensures Register(c, a + b) == Register(Register(c, a), b)
    decreases |a|
  {
    if a == [] {
      assert a + b == b;
    } else {
      assert (a + b)[0] == a[0] && (a + b)[1..] == a[1..] + b;
      RegisterConcat(Clock(c, a[0]), a[1..], b);
    }
  }

  lemma DoubleXor(a: bv32, b: bv32)
    ensures Xor(Xor(a, b), b) == a
  {}

  /** Appending chunk after chunk gives the checksum of the whole. */
  lemma AppendIsConcat(a: seq<byte>, b: seq<byte>)
    ensures Append(Crc(a), b) == Crc(a + b)
  {
    RegisterConcat(0xFFFF_FFFF, a, b);
    DoubleXor(Register(0xFFFF_FFFF, a), 0xFFFF_FFFF);
  }

  // ---- Error detection ---------------------------------------------------

  lemma XorCancel(a: bv32, b: bv32, x: bv32)
    requires Xor(a, x) == Xor(b, x)
    ensures a == b
  {
    DoubleXor(a, x);
    DoubleXor(b, x);
  }

  /** The polynomial's top bit tells whether a one was shifted out. */
  lemma ShiftBitInjective(c: bv32, d: bv32)
    requires ShiftBit(c) == ShiftBit(d)
    ensures c == d
  {}

  lemma {:induction false} ShiftBitsInjective(c: bv32, d: bv32, n: nat)
    requires ShiftBits(c, n) == ShiftBits(d, n)
    ensures c == d
    decreases n
  {
    if n > 0 {
      ShiftBitsInjective(ShiftBit(c), ShiftBit(d), n - 1);
      ShiftBitInjective(c, d);
    }
  }

  lemma ClockInjective(c: bv32, d: bv32, b: byte)
    requires Clock(c, b) == Clock(d, b)
    ensures c == d
  {
    ShiftBitsInjective(Xor(c, b as bv32), Xor(d, b as bv32), 8);
    XorCancel(c, d, b as bv32);
  }

  /** Clocking the same data through different registers keeps them different. */
  lemma {:induction false} RegisterInjective(c: bv32, d: bv32, data: seq<byte>)
    requires Register(c, data) == Register(d, data)
    ensures c == d
    decreases |data|
  {
    if data != [] {
      RegisterInjective(Clock(c, data[0]), Clock(d, data[0]), data[1..]);
      ClockInjective(c, d, data[0]);
    }
  }

  lemma HalfXor(c: bv32, d: bv32)
    ensures (c ^ d) >> 1 == (c >> 1) ^ (d >> 1)
    ensures ((c ^ d) & 1 == 1) <==> ((c & 1 == 1) != (d & 1 == 1))
  {}

  lemma XorMix(a: bv32, b: bv32, p: bv32)
    ensures (a ^ p) ^ (b ^ p) == a ^ b
    ensures (a ^ p) ^ b == (a ^ b) ^ p
    ensures a ^ (b ^ p) == (a ^ b) ^ p
  {}

  lemma ShiftBitLinear(c: bv32, d: bv32)
    ensures ShiftBit(Xor(c, d)) == Xor(ShiftBit(c), ShiftBit(d))
  {
    HalfXor(c, d);
    XorMix(c >> 1, d >> 1, POLY);
  }

  lemma {:induction false} ShiftBitsLinear(c: bv32, d: bv32, n: nat)
    ensures ShiftBits(Xor(c, d), n) == Xor(ShiftBits(c, n), ShiftBits(d, n))
    decreases n
  {
    if n > 0 {
      ShiftBitLinear(c, d);
      ShiftBitsLinear(ShiftBit(c), ShiftBit(d), n - 1);
    }
  }

  lemma {:induction false} ShiftBitsSum(c: bv32, m: nat, n: nat)
    ensures ShiftBits(c, m + n) == ShiftBits(ShiftBits(c, m), n)
    decreases m
  {
    if m > 0 {
      ShiftBitsSum(ShiftBit(c), m - 1, n);
    }
  }

  // A difference that has not reached the low end is only moved down: two, four and
  // eight bits.
  lemma ShiftBitEven(d: bv32)
    requires d & 0x8000_0000 == 0
    ensures ShiftBit(d << 1) == d
  {}

  lemma OneBit(c: bv32)
    ensures ShiftBits(c, 1) == ShiftBit(c)
  {}

  lemma Split2(d: bv32)
    requires d & 0xC000_0000 == 0
    ensures (d << 1) << 1 == d << 2 && d & 0x8000_0000 == 0 && (d << 1) & 0x8000_0000 == 0
  {}

  lemma Split4(d: bv32)
    requires d & 0xF000_0000 == 0
    ensures (d << 2) << 2 == d << 4 && d & 0xC000_0000 == 0 && (d << 2) & 0xC000_0000 == 0
  {}

  lemma Split8(d: bv32)
    requires d & 0xFF00_0000 == 0
    ensures (d << 4) << 4 == d << 8 && d & 0xF000_0000 == 0 && (d << 4) & 0xF000_0000 == 0
  {}

  lemma Undone2(d: bv32)
    requires d & 0xC000_0000 == 0
    ensures ShiftBits(d << 2, 2) == d
  {
    Split2(d);
    ShiftBitEven(d << 1);
    ShiftBitEven(d);
    OneBit(d << 2);
    OneBit(d << 1);
    ShiftBitsSum(d << 2, 1, 1);
  }

  lemma Undone4(d: bv32)
    requires d & 0xF000_0000 == 0
    ensures ShiftBits(d << 4, 4) == d
  {
    Split4(d);
    Undone2(d << 2);
    Undone2(d);
    ShiftBitsSum(d << 4, 2, 2);
  }

  lemma Undone8(d: bv32)
    requires d & 0xFF00_0000 == 0
    ensures ShiftBits(d << 8, 8) == d
  {
    Split8(d);
    Undone4(d << 4);
    Undone4(d);
    ShiftBitsSum(d << 8, 4, 4);
  }

  lemma ShiftBack(u: bv32, v: bv32, e: bv32)
    requires e & 0xFF00_0000 == 0
    requires Xor(ShiftBits(u, 8), ShiftBits(v, 8)) == e
    ensures Xor(u, v) == e << 8
  {
    ShiftBitsLinear(u, v, 8);
    Undone8(e);
    ShiftBitsInjective(Xor(u, v), e << 8, 8);
  }

  function Diff(x: byte, y: byte): bv32 {
    (x as bv32) ^ (y as bv32)
  }

  lemma Regroup(c: bv32, d: bv32, x: bv32, y: bv32)
    ensures c ^ d == ((c ^ x) ^ (d ^ y)) ^ (x ^ y)
  {}

  /** Reading one clock backwards: registers that differ by `e` after a byte differed,
      before it, by `e << 8` and the difference of the two bytes. */
  lemma ClockBack(c: bv32, d: bv32, x: byte, y: byte, e: bv32)
    requires e & 0xFF00_0000 == 0
    requires Xor(Clock(c, x), Clock(d, y)) == e
    ensures c ^ d == (e << 8) ^ Diff(x, y)
  {
    ShiftBack(Xor(c, x as bv32), Xor(d, y as bv32), e);
    Regroup(c, d, x as bv32, y as bv32);
  }

  /** `e` occupies only the low `n` bytes. */
  predicate Narrow(e: bv32, n: nat) {
    match n
    case 0 => e == 0
    case 1 => e & 0xFFFF_FF00 == 0
    case 2 => e & 0xFFFF_0000 == 0
    case 3 => e & 0xFF00_0000 == 0
    case _ => true
  }

  lemma NarrowStep(e: bv32, x: byte, y: byte, n: nat)
    requires n <= 3 && Narrow(e, n)
    ensures e & 0xFF00_0000 == 0
    ensures Narrow((e << 8) ^ Diff(x, y), n + 1)
    ensures (e << 8) ^ Diff(x, y) == 0 ==> e == 0 && x == y
  {}

  lemma WindowStep(c: bv32, d: bv32, x: byte, y: byte, n: nat)
    requires n <= 3 && Narrow(Xor(Clock(c, x), Clock(d, y)), n)
    ensures Narrow(Xor(c, d), n + 1)
    ensures c == d ==> x == y
  {
    var e := Xor(Clock(c, x), Clock(d, y));
    NarrowStep(e, x, y, n);
    ClockBack(c, d, x, y, e);
  }

  /** Up to four bytes that bring two registers together: the registers differed by no
      more than those bytes can hold, and equal registers mean equal bytes. */
  lemma {:induction false} WindowInjective(c: bv32, d: bv32, w: seq<byte>, w': seq<byte>)
    requires |w| == |w'| <= 4
    requires Register(c, w) == Register(d, w')
    ensures Narrow(Xor(c, d), |w|)
    ensures c == d ==> w == w'
    decreases |w|
  {
    if w == [] {
      XorSelf(c);
    } else {
      WindowInjective(Clock(c, w[0]), Clock(d, w'[0]), w[1..], w'[1..]);
      WindowStep(c, d, w[0], w'[0], |w| - 1);
      assert w == [w[0]] + w[1..] && w' == [w'[0]] + w'[1..];
    }
  }

  lemma XorSelf(c: bv32)
    ensures Xor(c, c) == 0
  {}

  /** Changing anything inside a window of up to four consecutive bytes changes the
      checksum, whatever surrounds the window and however long the data is. */
  lemma BurstDetected(pre: seq<byte>, w: seq<byte>, w': seq<byte>, post: seq<byte>)
    requires |w| == |w'| <= 4
    requires Crc(pre + w + post) == Crc(pre + w' + post)
    ensures w == w'
  {
    var i: bv32 := 0xFFFF_FFFF;
    XorCancel(Register(i, pre + w + post), Register(i, pre + w' + post), 0xFFFF_FFFF);
    RegisterConcat(i, pre + w, post);
    RegisterConcat(i, pre + w', post);
    RegisterInjective(Register(i, pre + w), Register(i, pre + w'), post);
    RegisterConcat(i, pre, w);
    RegisterConcat(i, pre, w');
    WindowInjective(Register(i, pre), Register(i, pre), w, w');
  }

  lemma SingleByteDetected(data: seq<byte>, i: nat, b: byte)
    requires i < |data| && data[i] != b
    ensures Crc(data[i := b]) != Crc(data)
  {
    assert data == data[..i] + [data[i]] + data[i + 1..];
    assert data[i := b] == data[..i] + [b] + data[i + 1..];
    if Crc(data[i := b]) == Crc(data) {
      BurstDetected(data[..i], [data[i]], [b], data[i + 1..]);
    }
  }

  lemma RegisterCons(r: bv32, b: byte, w: seq<byte>)
    ensures Register(r, [b] + w) == Register(Clock(r, b), w)
  {
    assert ([b] + w)[1..] == w;
  }

  /** The check value of CRC-32C: the checksum of the digits "123456789". */
  lemma CheckValue()
    ensures Crc([0x31, 0x32, 0x33, 0x34, 0x35, 0x36, 0x37, 0x38, 0x39]) == 0xE306_9283
  {
    assert Xor(0xFFFF_FFFF, 0x31) == 0xFFFF_FFCE && ShiftBits(0xFFFF_FFCE, 8) == ShiftBits(ShiftBit(0xFFFF_FFCE), 7);
    assert Clock(0xFFFF_FFFF, 0x31) == 0x6F0A_661C;
    assert Xor(0x6F0A_661C, 0x32) == 0x6F0A_662E && ShiftBits(0x6F0A_662E, 8) == ShiftBits(ShiftBit(0x6F0A_662E), 7);
    assert Clock(0x6F0A_661C, 0x32) == 0x8CAA_3B9F;
    assert Xor(0x8CAA_3B9F, 0x33) == 0x8CAA_3BAC && ShiftBits(0x8CAA_3BAC, 8) == ShiftBits(ShiftBit(0x8CAA_3BAC), 7);
    assert Clock(0x8CAA_3B9F, 0x33) == 0xEF84_D04D;
    assert Xor(0xEF84_D04D, 0x34) == 0xEF84_D079 && ShiftBits(0xEF84_D079, 8) == ShiftBits(ShiftBit(0xEF84_D079), 7);
    assert Clock(0xEF84_D04D, 0x34) == 0x09C5_0B11;
    assert Xor(0x09C5_0B11, 0x35) == 0x09C5_0B24 && ShiftBits(0x09C5_0B24, 8) == ShiftBits(ShiftBit(0x09C5_0B24), 7);
    assert Clock(0x09C5_0B11, 0x35) == 0xE72E_DCCA;
    assert Xor(0xE72E_DCCA, 0x36) == 0xE72E_DCFC && ShiftBits(0xE72E_DCFC, 8) == ShiftBits(ShiftBit(0xE72E_DCFC), 7);
    assert Clock(0xE72E_DCCA, 0x36) == 0xBECA_8E79;
    assert Xor(0xBECA_8E79, 0x37) == 0xBECA_8E4E && ShiftBits(0xBECA_8E4E, 8) == ShiftBits(ShiftBit(0xBECA_8E4E), 7);
    assert Clock(0xBECA_8E79, 0x37) == 0xEDBD_6815;
    assert Xor(0xEDBD_6815, 0x38) == 0xEDBD_682D && ShiftBits(0xEDBD_682D, 8) == ShiftBits(ShiftBit(0xEDBD_682D), 7);
    assert Clock(0xEDBD_6815, 0x38) == 0x9F78_7F65;
    assert Xor(0x9F78_7F65, 0x39) == 0x9F78_7F5C && ShiftBits(0x9F78_7F5C, 8) == ShiftBits(ShiftBit(0x9F78_7F5C), 7);
    assert Clock(0x9F78_7F65, 0x39) == 0x1CF9_6D7C;
    RegisterCons(0xFFFF_FFFF, 0x31, [0x32, 0x33, 0x34, 0x35, 0x36, 0x37, 0x38, 0x39]);
    RegisterCons(0x6F0A_661C, 0x32, [0x33, 0x34, 0x35, 0x36, 0x37, 0x38, 0x39]);
    RegisterCons(0x8CAA_3B9F, 0x33, [0x34, 0x35, 0x36, 0x37, 0x38, 0x39]);
    RegisterCons(0xEF84_D04D, 0x34, [0x35, 0x36, 0x37, 0x38, 0x39]);
    RegisterCons(0x09C5_0B11, 0x35, [0x36, 0x37, 0x38, 0x39]);
    RegisterCons(0xE72E_DCCA, 0x36, [0x37, 0x38, 0x39]);
    RegisterCons(0xBECA_8E79, 0x37, [0x38, 0x39]);
    RegisterCons(0xEDBD_6815, 0x38, [0x39]);
    RegisterCons(0x9F78_7F65, 0x39, []);
  }

  // ---- Little-endian form ------------------------------------------------

  function CrcBytes(c: bv32): (r: seq<byte>)
    ensures |r| == 4
  {
    [(c & 0xFF) as byte, ((c >> 8) & 0xFF) as byte, ((c >> 16) & 0xFF) as byte, (c >> 24) as byte]
  }

  function CrcOfBytes(s: seq<byte>): bv32
    requires |s| == 4
  {
    (s[0] as bv32) | ((s[1] as bv32) << 8) | ((s[2] as bv32) << 16) | ((s[3] as bv32) << 24)
  }

  lemma CrcBytesRoundTrip(c: bv32)
    ensures CrcOfBytes(CrcBytes(c)) == c
  {}

  lemma CrcOfBytesRoundTrip(s: seq<byte>)
    requires |s| == 4
    ensures CrcBytes(CrcOfBytes(s)) == s
  {}

  // ---- The residue -------------------------------------------------------

  function LowByteOf(u: bv32): byte {
    (u & 0xFF) as byte
  }

  function UpperBytes(u: bv32): bv32 {
    u >> 8
  }

  function Raised(u: bv32): bv32 {
    u << 8
  }

  lemma LowByteApart(c: bv32, u: bv32)
    ensures Xor(c, u) == Xor(Xor(c, LowByteOf(u) as bv32), Raised(UpperBytes(u)))
    ensures UpperBytes(u) & 0xFF00_0000 == 0
  {
    WordSplit(u);
    hide LowByteOf, UpperBytes, Raised;
    XorAssociative(c, LowByteOf(u) as bv32, Raised(UpperBytes(u)));
  }

  lemma WordSplit(u: bv32)
    ensures u == Xor(LowByteOf(u) as bv32, Raised(UpperBytes(u))) && UpperBytes(u) & 0xFF00_0000 == 0
  {
    assert LowByteOf(u) as bv32 == u & 0xFF;
    assert u == (u & 0xFF) ^ ((u >> 8) << 8);
  }

  lemma XorAssociative(a: bv32, b: bv32, c: bv32)
    ensures Xor(a, Xor(b, c)) == Xor(Xor(a, b), c)
  {}

  /** The lowest byte of a word passes through the register, the others wait. */
  lemma LowByteThrough(c: bv32, u: bv32)
    ensures ShiftBits(Xor(c, u), 8) == Xor(Clock(c, LowByteOf(u)), UpperBytes(u))
  {
    hide ShiftBits, Xor, LowByteOf, UpperBytes;
    LowByteApart(c, u);
    ShiftBitsLinear(Xor(c, LowByteOf(u) as bv32), Raised(UpperBytes(u)), 8);
    Undone8(UpperBytes(u));
  }

  lemma BytesOfWord(u: bv32)
    ensures CrcBytes(u) == [LowByteOf(u), LowByteOf(UpperBytes(u)), LowByteOf(UpperBytes(UpperBytes(u))),
                            LowByteOf(UpperBytes(UpperBytes(UpperBytes(u))))]
    ensures UpperBytes(UpperBytes(UpperBytes(UpperBytes(u)))) == 0
  {}

  lemma XorZero(c: bv32)
    ensures Xor(c, 0) == c
  {}

  /** A little-endian word passes through the register in 32 shifts. */
  lemma WordThrough(c: bv32, u: bv32)
    ensures Register(c, CrcBytes(u)) == ShiftBits(Xor(c, u), 32)
  {
    hide ShiftBits, Xor, Clock, LowByteOf, UpperBytes, CrcBytes;
    BytesOfWord(u);
    var u1 := UpperBytes(u);
    var u2 := UpperBytes(u1);
    var u3 := UpperBytes(u2);
    var c1 := Clock(c, LowByteOf(u));
    var c2 := Clock(c1, LowByteOf(u1));
    var c3 := Clock(c2, LowByteOf(u2));
    var c4 := Clock(c3, LowByteOf(u3));
    LowByteThrough(c, u);
    LowByteThrough(c1, u1);
    LowByteThrough(c2, u2);
    LowByteThrough(c3, u3);
    ShiftBitsSum(Xor(c, u), 8, 24);
    ShiftBitsSum(Xor(c1, u1), 8, 16);
    ShiftBitsSum(Xor(c2, u2), 8, 8);
    XorZero(c4);
    FourBytes(c, LowByteOf(u), LowByteOf(u1), LowByteOf(u2), LowByteOf(u3));
  }

  lemma FourBytes(c: bv32, a: byte, b: byte, d: byte, e: byte)
    ensures Register(c, [a, b, d, e]) == Clock(Clock(Clock(Clock(c, a), b), d), e)
  {
    hide Clock;
    RegisterCons(c, a, [b, d, e]);
    RegisterCons(Clock(c, a), b, [d, e]);
    RegisterCons(Clock(Clock(c, a), b), d, [e]);
    RegisterCons(Clock(Clock(Clock(c, a), b), d), e, []);
    assert [a, b, d, e] == [a] + [b, d, e] && [b, d, e] == [b] + [d, e] && [d, e] == [d] + [e] && [e] == [e] + [];
  }

  lemma AllOnes()
    ensures ShiftBits(0xFFFF_FFFF, 32) == 0xB798_B438
  {
    assert ShiftBits(0xFFFF_FFFF, 8) == ShiftBits(ShiftBit(0xFFFF_FFFF), 7) == 0xAD82_ACAE;
    assert ShiftBits(0xAD82_ACAE, 8) == ShiftBits(ShiftBit(0xAD82_ACAE), 7) == 0x0E9E_882D;
    assert ShiftBits(0x0E9E_882D, 8) == ShiftBits(ShiftBit(0x0E9E_882D), 7) == 0x9F9B_5C85;
    assert ShiftBits(0x9F9B_5C85, 8) == ShiftBits(ShiftBit(0x9F9B_5C85), 7) == 0xB798_B438;
    ShiftBitsSum(0xFFFF_FFFF, 8, 24);
    ShiftBitsSum(0xAD82_ACAE, 8, 16);
    ShiftBitsSum(0x0E9E_882D, 8, 8);
  }

  lemma SelfInverse(r: bv32)
    ensures Xor(r, Xor(r, 0xFFFF_FFFF)) == 0xFFFF_FFFF && Xor(0xB798_B438, 0xFFFF_FFFF) == 0x4867_4BC7
  {}

  /** Data followed by its little-endian checksum always has the residue of CRC-32C. */
  lemma Residue(data: seq<byte>)
    ensures Crc(data + CrcBytes(Crc(data))) == 0x4867_4BC7
  {
    hide ShiftBits, Xor;
    var r := Register(0xFFFF_FFFF, data);
    RegisterConcat(0xFFFF_FFFF, data, CrcBytes(Crc(data)));
    WordThrough(r, Crc(data));
    SelfInverse(r);
    AllOnes();
  }
}
