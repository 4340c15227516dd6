/** The wire format byte by byte: what a packed frame holds at each place, and what each verdict of the
    validation means. */
module WireMeaning {
  import opened Iterate
  import opened Crc
  import opened Wire
  import opened CrcCheck

  /** The CRC over the first twelve bytes, four zeros, and the n bytes of payload. */
  function ExpectedChecksum(buf: seq<byte>, n: nat): bv32
    requires |buf| >= 16 + n
  {
    Fold(TableByte, 0xFFFF_FFFF, buf[..12] + [0, 0, 0, 0] + buf[16..16 + n]) ^ 0xFFFF_FFFF
  }

  /** The payload length a buffer announces in bytes 6 and 7. */
  function LengthField(buf: seq<byte>): nat
    requires |buf| >= 16
  {
    buf[6] as nat + 256 * (buf[7] as nat)
  }

  /** The verdict on every buffer: magic 46 53, version 1, at most 256 bytes of payload, all of them
      there, and the checksum; the first of these that fails. */
  lemma VerdictByBytes(buf: seq<byte>)
    ensures Validate(buf) ==
      if |buf| < 16 then BadLength
      else if buf[0] != 0x46 || buf[1] != 0x53 then BadMagic
      else if buf[2] != 0x01 then BadVersion
      else
        var n := LengthField(buf);
        if n > 256 || |buf| < 16 + n then BadLength
        else if ExpectedChecksum(buf, n) != U32(buf[12], buf[13], buf[14], buf[15]) then BadChecksum
        else Ok
  {
    hide ParseHeader, Checksum, ExpectedChecksum, U16, U32, LengthField;
    if |buf| >= 16 {
      FieldsByBytes(buf);
      var n := LengthField(buf);
      if n <= 256 && 16 + n <= |buf| {
        ChecksumByBytes(buf, n);
      }
    }
  }

  lemma FieldsByBytes(buf: seq<byte>)
    requires |buf| >= 16
    ensures var h := ParseHeader(buf);
      && (h.magic == MAGIC <==> buf[0] == 0x46 && buf[1] == 0x53)
      && h.version == buf[2]
      && h.payloadLength as nat == LengthField(buf)
      && h.checksum == U32(buf[12], buf[13], buf[14], buf[15])
  {
    hide U16, U32;
    MagicBytes(buf[0], buf[1]);
    U16Value(buf[6], buf[7]);
  }

  lemma ChecksumByBytes(buf: seq<byte>, n: nat)
    requires 16 + n <= |buf|
    ensures Checksum(ParseHeader(buf), buf[16..16 + n]) == ExpectedChecksum(buf, n)
  {
    hide TableByte, Checksum, HeaderBytes, ParseHeader;
    HeaderBytesInvertsParse(buf);
    ChecksumIsTableDriven(ParseHeader(buf), buf[16..16 + n]);
    assert HeaderBytes(ParseHeader(buf))[..12] == buf[..16][..12] == buf[..12];
  }

  /** More than 256 bytes of payload pack to nothing. */
  lemma OverlongPacksNothing(h: Header, payload: seq<byte>)
    requires |payload| == h.payloadLength as nat > 256
    ensures Pack(h, payload) == []
  {
  }

  /** Where everything stands in a packed frame; numbers are little-endian. */
  lemma FrameByBytes(kind: byte, id: bv16, ms: bv32, payload: seq<byte>, payloadLength: bv16)
    requires |payload| == payloadLength as nat <= 256
    ensures var f := FrameOf(kind, id, ms, payload, payloadLength);
      && |f| == 16 + |payload| && f[0] == 0x46 && f[1] == 0x53 && f[2] == 0x01 && f[3] == kind
      && f[4] as nat + 256 * (f[5] as nat) == id as nat
      && f[6] as nat + 256 * (f[7] as nat) == |payload|
      && U32(f[8], f[9], f[10], f[11]) == ms
      && U32(f[12], f[13], f[14], f[15]) == ExpectedChecksum(f, |payload|)
      && f[16..] == payload
  {
    hide Validate, Checksum, HeaderBytes, U16, U32, TableByte, IsFrame, ExpectedChecksum;
    var h, f := InitHeader(kind, id, payloadLength, ms), FrameOf(kind, id, ms, payload, payloadLength);
    PackValidates(h, payload, []);
    assert f + [] == f;
    MagicBytes(f[0], f[1]);
    U16Value(f[4], f[5]);
    U16Value(f[6], f[7]);
    VerdictByBytes(f);
  }
}
