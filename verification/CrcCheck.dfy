/** What makes the register a CRC-32: it starts as all ones, is inverted at the
    end, and gives the published check value. The header promises that any zlib
    computes the same number. */
module CrcCheck {
  import opened Iterate
  import opened Crc
  import opened Wire

  /** The CRC of any data is the table-driven form of section 8 of RFC 1952, with
      its initial and final inversion. */
  lemma Crc32IsTableDriven(data: seq<byte>)
    ensures Crc32(data) == Fold(TableByte, 0xFFFF_FFFF, data) ^ 0xFFFF_FFFF
  {
    hide TableByte, CrcByte;
    BitwiseIsTableDriven(0xFFFF_FFFF, data);
  }

  /** The checksum of a frame is that CRC over the first twelve bytes of the header, four zeros in
      place of the checksum field, and the payload. */
  lemma ChecksumIsTableDriven(h: Header, payload: seq<byte>)
    ensures var covered := HeaderBytes(h)[..12] + [0, 0, 0, 0] + payload;
      Checksum(h, payload) == Fold(TableByte, 0xFFFF_FFFF, covered) ^ 0xFFFF_FFFF
  {
    hide TableByte, CrcByte, Lo, Hi;
    var covered, zeroed := HeaderBytes(h)[..12] + [0, 0, 0, 0] + payload, HeaderBytes(h.(checksum := 0));
    assert zeroed == HeaderBytes(h)[..12] + [0, 0, 0, 0] by { ZeroField(h); }
    FoldAppend(CrcByte, 0xFFFF_FFFF, zeroed, payload);
    BitwiseIsTableDriven(0xFFFF_FFFF, covered);
  }

  lemma ZeroField(h: Header)
    ensures HeaderBytes(h.(checksum := 0)) == HeaderBytes(h)[..12] + [0, 0, 0, 0]
  {
    hide Lo, Hi;
    assert Byte0(0) == 0 && Byte1(0) == 0 && Byte2(0) == 0 && Byte3(0) == 0;
  }

  // ----- The check value -----

  /** One byte of data; `orbit` records the eight shifts. */
  lemma ByteStep(c: bv32, b: byte, orbit: seq<bv32>, rest: seq<byte>)
    requires |orbit| == 9 && forall i :: 0 <= i < 8 ==> Shift(orbit[i]) == orbit[i + 1]
    requires orbit[0] == Xor(c, Widen(b))
    ensures CrcStep(c, [b] + rest) == CrcStep(orbit[8], rest)
  {
    hide Shift, Xor, Widen;
    IterOrbit(Shift, orbit);
    assert ([b] + rest)[1..] == rest;
  }

  lemma FirstDigits(rest: seq<byte>)
    ensures CrcStep(0xFFFFFFFF, [0x31, 0x32, 0x33] + rest) == CrcStep(0x77B79C2D, rest)
  {
    hide CrcStep;
    ByteStep(0xFFFFFFFF, 0x31, [0xFFFFFFCE, 0x7FFFFFE7, 0xD2477CD3, 0x849B3D49, 0xAFF51D84,
      0x57FA8EC2, 0x2BFD4761, 0xF8462090, 0x7C231048], [0x32, 0x33] + rest);
    ByteStep(0x7C231048, 0x32, [0x7C23107A, 0x3E11883D, 0xF2B0473E, 0x7958239F, 0xD11492EF,
      0x8532CA57, 0xAF21E60B, 0xBA287025, 0xB0ACBB32], [0x33] + rest);
    ByteStep(0xB0ACBB32, 0x33, [0xB0ACBB01, 0xB5EEDEA0, 0x5AF76F50, 0x2D7BB7A8, 0x16BDDBD4,
      0xB5EEDEA, 0x5AF76F5, 0xEF6F385A, 0x77B79C2D], rest);
    assert [0x31, 0x32, 0x33] + rest == [0x31] + ([0x32, 0x33] + rest);
    assert [0x32, 0x33] + rest == [0x32] + ([0x33] + rest);
  }

  lemma MiddleDigits(rest: seq<byte>)
    ensures CrcStep(0x77B79C2D, [0x34, 0x35, 0x36] + rest) == CrcStep(0xF68D2C9E, rest)
  {
    hide CrcStep;
    ByteStep(0x77B79C2D, 0x34, [0x77B79C19, 0xD6634D2C, 0x6B31A696, 0x3598D34B, 0xF774EA85,
      0x9602F662, 0x4B017B31, 0xC8383EB8, 0x641C1F5C], [0x35, 0x36] + rest);
    ByteStep(0x641C1F5C, 0x35, [0x641C1F69, 0xDFB68C94, 0x6FDB464A, 0x37EDA325, 0xF64E52B2,
      0x7B272959, 0xD02B178C, 0x68158BC6, 0x340AC5E3], [0x36] + rest);
    ByteStep(0x340AC5E3, 0x36, [0x340AC5D5, 0xF7BDE1CA, 0x7BDEF0E5, 0xD057FB52, 0x682BFDA9,
      0xD9AD7DF4, 0x6CD6BEFA, 0x366B5F7D, 0xF68D2C9E], rest);
    assert [0x34, 0x35, 0x36] + rest == [0x34] + ([0x35, 0x36] + rest);
    assert [0x35, 0x36] + rest == [0x35] + ([0x36] + rest);
  }

  lemma LastDigits(rest: seq<byte>)
    ensures CrcStep(0xF68D2C9E, [0x37, 0x38, 0x39] + rest) == CrcStep(0x340BC6D9, rest)
  {
    hide CrcStep;
    ByteStep(0xF68D2C9E, 0x37, [0xF68D2CA9, 0x96FE1574, 0x4B7F0ABA, 0x25BF855D, 0xFF67418E,
      0x7FB3A0C7, 0xD2615343, 0x84882A81, 0xAFFC9660], [0x38, 0x39] + rest);
    ByteStep(0xAFFC9660, 0x38, [0xAFFC9658, 0x57FE4B2C, 0x2BFF2596, 0x15FF92CB, 0xE7474A45,
      0x9E1B2602, 0x4F0D9301, 0xCA3E4AA0, 0x651F2550], [0x39] + rest);
    ByteStep(0x651F2550, 0x39, [0x651F2569, 0xDF371194, 0x6F9B88CA, 0x37CDC465, 0xF65E6112,
      0x7B2F3089, 0xD02F1B64, 0x68178DB2, 0x340BC6D9], rest);
    assert [0x37, 0x38, 0x39] + rest == [0x37] + ([0x38, 0x39] + rest);
    assert [0x38, 0x39] + rest == [0x38] + ([0x39] + rest);
  }

  /** The published check value of CRC-32, for the nine digits "123456789" in ASCII. */
  lemma CheckValue()
    ensures Crc32([0x31, 0x32, 0x33, 0x34, 0x35, 0x36, 0x37, 0x38, 0x39]) == 0xCBF4_3926
  {
    hide CrcStep;
    var last: seq<byte> := [0x37, 0x38, 0x39];
    var middle: seq<byte> := [0x34, 0x35, 0x36] + last;
    var digits: seq<byte> := [0x31, 0x32, 0x33, 0x34, 0x35, 0x36, 0x37, 0x38, 0x39];
    FirstDigits(middle);
    MiddleDigits(last);
    LastDigits([]);
    NoMoreData(0x340B_C6D9);
    assert digits == [0x31, 0x32, 0x33] + middle && last == [0x37, 0x38, 0x39] + [];
    assert Xor(0x340B_C6D9, 0xFFFF_FFFF) == 0xCBF4_3926;
  }

  lemma NoMoreData(c: bv32)
    ensures CrcStep(c, []) == c
  {
  }
}
