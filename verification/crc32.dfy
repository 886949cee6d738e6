/** CRC-32 as section 5.5 of the W3C PNG Specification (Second Edition)
    defines it and Go's hash/crc32 IEEE table computes it: the reflected
    polynomial 0xEDB88320, a register preset to all ones, and a final
    complement. The parser feeds a chunk's type and then its payload into one
    running checksum and compares the big-endian bytes of the result (the
    hash's Sum) with the chunk's stored CRC. */
module Crc32 {
  import opened Bytes

  const Polynomial: bv32 := 0xEDB8_8320

  /** One shift of the reflected register. */
  function ShiftBit(c: bv32): bv32 {
    if c & 1 == 1 then (c >> 1) ^ Polynomial else c >> 1
  }

  /** Folds one byte into the register, least significant bit first. */
  function UpdateByte(c: bv32, b: byte): bv32 {
    var c0 := c ^ (b as bv32);
    ShiftBit(ShiftBit(ShiftBit(ShiftBit(ShiftBit(ShiftBit(ShiftBit(ShiftBit(c0))))))))
  }

  /** The register after feeding `s` into a register holding `c`. */
  function Update(c: bv32, s: seq<byte>): bv32
    decreases |s|
  {
    if |s| == 0 then c else Update(UpdateByte(c, s[0]), s[1..])
  }

  function Checksum(s: seq<byte>): (r: bv32)
    ensures |s| == 0 ==> r == 0
  {
    Update(0xFFFF_FFFF, s) ^ 0xFFFF_FFFF
  }

  /** The four big-endian bytes the hash's Sum appends. */
  function Sum(s: seq<byte>): (r: seq<byte>)
    ensures |r| == 4
    ensures Uint32(r) == Checksum(s) as int
  {
    Uint32BytesRoundTrip(Checksum(s) as int);
    Uint32Bytes(Checksum(s) as int)
  }

  /** Writing a chunk's type and then its payload into one running hash gives
      the checksum of their concatenation. */
  lemma {:induction false} UpdateConcat(c: bv32, a: seq<byte>, b: seq<byte>)
    ensures Update(c, a + b) == Update(Update(c, a), b)
    decreases |a|
  {
    if |a| > 0 {
      assert (a + b)[1..] == a[1..] + b;
      UpdateConcat(UpdateByte(c, a[0]), a[1..], b);
    } else {
      assert a + b == b;
    }
  }

  /** The checksum of the type "IEND" with an empty payload: the stored CRC of
      every PNG file's last chunk. */
  lemma EndChunkChecksum()
    ensures Checksum([0x49, 0x45, 0x4E, 0x44]) == 0xAE42_6082
  {
    var s: seq<byte> := [0x49, 0x45, 0x4E, 0x44];
    assert UpdateByte(0xFFFF_FFFF, 0x49) == 0x22FD_E946;
    assert UpdateByte(0x22FD_E946, 0x45) == 0x992B_AC53;
    assert UpdateByte(0x992B_AC53, 0x4E) == 0x639F_4775;
    assert UpdateByte(0x639F_4775, 0x44) == 0x51BD_9F7D;
    assert Update(0x51BD_9F7D, s[4..]) == 0x51BD_9F7D;
    assert Update(0x639F_4775, s[3..]) == 0x51BD_9F7D;
    assert Update(0x992B_AC53, s[2..]) == 0x51BD_9F7D;
    assert Update(0x22FD_E946, s[1..]) == 0x51BD_9F7D;
  }

  /** The register after each byte of ASCII "123", "456" and "789", each
      triple on its own so that every proof stays small. */
  lemma CheckSteps123()
    ensures UpdateByte(0xFFFF_FFFF, 0x31) == 0x7C23_1048
    ensures UpdateByte(0x7C23_1048, 0x32) == 0xB0AC_BB32
    ensures UpdateByte(0xB0AC_BB32, 0x33) == 0x77B7_9C2D
  {
  }

  lemma CheckSteps456()
    ensures UpdateByte(0x77B7_9C2D, 0x34) == 0x641C_1F5C
    ensures UpdateByte(0x641C_1F5C, 0x35) == 0x340A_C5E3
    ensures UpdateByte(0x340A_C5E3, 0x36) == 0xF68D_2C9E
  {
  }

  lemma CheckSteps789()
    ensures UpdateByte(0xF68D_2C9E, 0x37) == 0xAFFC_9660
    ensures UpdateByte(0xAFFC_9660, 0x38) == 0x651F_2550
    ensures UpdateByte(0x651F_2550, 0x39) == 0x340B_C6D9
  {
  }

  /** The standard check value of CRC-32: the checksum of ASCII "123456789". */
  lemma CheckValue()
    ensures Checksum([0x31, 0x32, 0x33, 0x34, 0x35, 0x36, 0x37, 0x38, 0x39]) == 0xCBF4_3926
  {
    var s: seq<byte> := [0x31, 0x32, 0x33, 0x34, 0x35, 0x36, 0x37, 0x38, 0x39];
    CheckSteps123();
    CheckSteps456();
    CheckSteps789();
    var t1 := s[1..];
    var t2 := t1[1..];
    var t3 := t2[1..];
    var t4 := t3[1..];
    var t5 := t4[1..];
    var t6 := t5[1..];
    var t7 := t6[1..];
    var t8 := t7[1..];
    assert Update(0x651F_2550, t8) == 0x340B_C6D9;
    assert Update(0xAFFC_9660, t7) == 0x340B_C6D9;
    assert Update(0xF68D_2C9E, t6) == 0x340B_C6D9;
    assert Update(0x340A_C5E3, t5) == 0x340B_C6D9;
    assert Update(0x641C_1F5C, t4) == 0x340B_C6D9;
    assert Update(0x77B7_9C2D, t3) == 0x340B_C6D9;
    assert Update(0xB0AC_BB32, t2) == 0x340B_C6D9;
    assert Update(0x7C23_1048, t1) == 0x340B_C6D9;
  }

  /** One shift loses nothing: the low bit shifted out decides whether the
      polynomial, whose top bit is set, is folded in, so it can be read back
      from the top bit of the result. */
  lemma ShiftBitInjective(a: bv32, b: bv32)
    requires ShiftBit(a) == ShiftBit(b)
    ensures a == b
  {
    assert ShiftBit(a) >> 31 == a & 1;
    assert ShiftBit(b) >> 31 == b & 1;
  }

  /** Folding a byte into the register is a bijection of the register xor the
      byte: two registers and bytes give the same result exactly when they xor
      to the same value. */
  lemma UpdateByteInjective(c1: bv32, x: byte, c2: bv32, y: byte)
    ensures UpdateByte(c1, x) == UpdateByte(c2, y) <==> c1 ^ (x as bv32) == c2 ^ (y as bv32)
  {
    var a0, b0 := c1 ^ (x as bv32), c2 ^ (y as bv32);
    if UpdateByte(c1, x) == UpdateByte(c2, y) {
      var a1, b1 := ShiftBit(a0), ShiftBit(b0);
      var a2, b2 := ShiftBit(a1), ShiftBit(b1);
      var a3, b3 := ShiftBit(a2), ShiftBit(b2);
      var a4, b4 := ShiftBit(a3), ShiftBit(b3);
      var a5, b5 := ShiftBit(a4), ShiftBit(b4);
      var a6, b6 := ShiftBit(a5), ShiftBit(b5);
      var a7, b7 := ShiftBit(a6), ShiftBit(b6);
      ShiftBitInjective(a7, b7);
      ShiftBitInjective(a6, b6);
      ShiftBitInjective(a5, b5);
      ShiftBitInjective(a4, b4);
      ShiftBitInjective(a3, b3);
      ShiftBitInjective(a2, b2);
      ShiftBitInjective(a1, b1);
      ShiftBitInjective(a0, b0);
    }
  }

  /** Two different registers stay different whatever bytes are fed in. */
  lemma {:induction false} UpdateInjective(c1: bv32, c2: bv32, s: seq<byte>)
    requires c1 != c2
    ensures Update(c1, s) != Update(c2, s)
    decreases |s|
  {
    if |s| > 0 {
      UpdateByteInjective(c1, s[0], c2, s[0]);
      UpdateInjective(UpdateByte(c1, s[0]), UpdateByte(c2, s[0]), s[1..]);
    }
  }

  /** A byte as a register value is its eight bits, zero-extended. */
  lemma ByteBits(x: byte)
    ensures (x as bv8) as int == x as int
    ensures x as bv32 == (x as bv8) as bv32
  {
  }

  /** Different bytes stay different as register values. */
  lemma ByteBitsInjective(x: byte, y: byte)
    requires x != y
    ensures x as bv32 != y as bv32
  {
    ByteBits(x);
    ByteBits(y);
  }

  /** The checksum detects every change of a single byte, wherever it is. */
  lemma ChecksumDetectsChange(a: seq<byte>, x: byte, y: byte, t: seq<byte>)
    requires x != y
    ensures Checksum(a + [x] + t) != Checksum(a + [y] + t)
  {
    var c := Update(0xFFFF_FFFF, a);
    UpdateConcat(0xFFFF_FFFF, a + [x], t);
    UpdateConcat(0xFFFF_FFFF, a + [y], t);
    UpdateConcat(0xFFFF_FFFF, a, [x]);
    UpdateConcat(0xFFFF_FFFF, a, [y]);
    assert Update(c, [x]) == UpdateByte(c, x) by { assert [x][1..] == []; }
    assert Update(c, [y]) == UpdateByte(c, y) by { assert [y][1..] == []; }
    ByteBitsInjective(x, y);
    UpdateByteInjective(c, x, c, y);
    UpdateInjective(UpdateByte(c, x), UpdateByte(c, y), t);
  }

  /** The stored form of the checksum detects the same changes. */
  lemma SumDetectsChange(a: seq<byte>, x: byte, y: byte, t: seq<byte>)
    requires x != y
    ensures Sum(a + [x] + t) != Sum(a + [y] + t)
  {
    var u, v := Checksum(a + [x] + t), Checksum(a + [y] + t);
    ChecksumDetectsChange(a, x, y, t);
    assert (u as int) as bv32 == u && (v as int) as bv32 == v;
  }
}
