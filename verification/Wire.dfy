/** The wire format of `include/safety_protocol.h`: a packed 16-byte
    little-endian header, up to 256 payload bytes, and a checksum over the
    header (checksum field zeroed) followed by the payload. */
module Wire {
  import opened Crc

  const MAGIC: bv16 := 0x5346
  const MAGIC_LO: byte := 0x46
  const MAGIC_HI: byte := 0x53
  const VERSION: byte := 0x01
  const MAX_PAYLOAD: nat := 256
  const HEADER_SIZE: nat := 16
  const MAX_FRAME_SIZE: nat := 272

  const HEARTBEAT: byte := 0x01
  const TELEMETRY: byte := 0x02
  const FAULT_EVENT: byte := 0x03
  const COMMAND: byte := 0x04
  const ACK: byte := 0x05
  const NACK: byte := 0x06
  const RECOVERY_REPORT: byte := 0x07

  datatype Header = Header(
    magic: bv16,
    version: byte,
    kind: byte,
    sequenceId: bv16,
    payloadLength: bv16,
    timestampMs: bv32,
    checksum: bv32)

  datatype ValidateResult = Ok | BadMagic | BadVersion | BadLength | BadChecksum

  // ----- Little-endian fields -----

  function U16(b0: byte, b1: byte): bv16 {
    (b0 as bv16) | ((b1 as bv16) << 8)
  }

  function U32(b0: byte, b1: byte, b2: byte, b3: byte): bv32 {
    (b0 as bv32) | ((b1 as bv32) << 8) | ((b2 as bv32) << 16) | ((b3 as bv32) << 24)
  }

  function Lo(x: bv16): byte { (x & 0xFF) as byte }
  function Hi(x: bv16): byte { (x >> 8) as byte }
  function Byte0(x: bv32): byte { (x & 0xFF) as byte }
  function Byte1(x: bv32): byte { ((x >> 8) & 0xFF) as byte }
  function Byte2(x: bv32): byte { ((x >> 16) & 0xFF) as byte }
  function Byte3(x: bv32): byte { (x >> 24) as byte }

  lemma U16RoundTrip(x: bv16)
    ensures U16(Lo(x), Hi(x)) == x
  {
  }

  lemma U16Bytes(a: byte, b: byte)
    ensures Lo(U16(a, b)) == a && Hi(U16(a, b)) == b
  {
  }

  lemma BytesOfU16(a: byte, b: byte)
    ensures U16(a, b) >> 8 == b as bv16 && U16(a, b) & 0xFF == a as bv16
  {
  }

  lemma ValueByBytes(x: bv16)
    ensures x as nat == 256 * ((x >> 8) as nat) + ((x & 0xFF) as nat)
  {
  }

  lemma WidenedValue(a: byte)
    ensures (a as bv16) as nat == a as nat
  {
  }

  /** The number two bytes stand for, the lower one first. */
  lemma U16Value(a: byte, b: byte)
    ensures U16(a, b) as nat == a as nat + 256 * (b as nat)
  {
    hide U16;
    BytesOfU16(a, b);
    ValueByBytes(U16(a, b));
    WidenedValue(a);
    WidenedValue(b);
  }

  lemma U32RoundTrip(x: bv32)
    ensures U32(Byte0(x), Byte1(x), Byte2(x), Byte3(x)) == x
  {
  }

  lemma U32Bytes(a: byte, b: byte, c: byte, d: byte)
    ensures var x := U32(a, b, c, d); Byte0(x) == a && Byte1(x) == b && Byte2(x) == c && Byte3(x) == d
  {
  }

  lemma MagicBytes(a: byte, b: byte)
    ensures U16(a, b) == MAGIC <==> a == MAGIC_LO && b == MAGIC_HI
  {
  }

  // ----- Header layout -----

  function HeaderBytes(h: Header): (s: seq<byte>)
    ensures |s| == HEADER_SIZE
  {
    [ Lo(h.magic), Hi(h.magic), h.version, h.kind,
      Lo(h.sequenceId), Hi(h.sequenceId), Lo(h.payloadLength), Hi(h.payloadLength),
      Byte0(h.timestampMs), Byte1(h.timestampMs), Byte2(h.timestampMs), Byte3(h.timestampMs),
      Byte0(h.checksum), Byte1(h.checksum), Byte2(h.checksum), Byte3(h.checksum) ]
  }

  function ParseHeader(s: seq<byte>): Header
    requires |s| >= HEADER_SIZE
  {
    Header(U16(s[0], s[1]), s[2], s[3], U16(s[4], s[5]), U16(s[6], s[7]),
           U32(s[8], s[9], s[10], s[11]), U32(s[12], s[13], s[14], s[15]))
  }

  lemma ParseInvertsHeaderBytes(h: Header, rest: seq<byte>)
    ensures ParseHeader(HeaderBytes(h) + rest) == h
  {
    U16RoundTrip(h.magic);
    U16RoundTrip(h.sequenceId);
    U16RoundTrip(h.payloadLength);
    U32RoundTrip(h.timestampMs);
    U32RoundTrip(h.checksum);
  }

  lemma HeaderBytesInvertsParse(s: seq<byte>)
    requires |s| >= HEADER_SIZE
    ensures HeaderBytes(ParseHeader(s)) == s[..HEADER_SIZE]
  {
    U16Bytes(s[0], s[1]);
    U16Bytes(s[4], s[5]);
    U16Bytes(s[6], s[7]);
    U32Bytes(s[8], s[9], s[10], s[11]);
    U32Bytes(s[12], s[13], s[14], s[15]);
  }

  // ----- Checksum, pack, validate -----

  function Checksum(h: Header, payload: seq<byte>): bv32 {
    Xor(CrcStep(CrcStep(ONES, HeaderBytes(h.(checksum := 0))), payload), ONES)
  }

  /** Sequence ids are 16 bits wide and wrap. */
  function NextSeq(id: bv16): bv16 {
    id + 1
  }

  function ByteValue(b: byte): (n: nat)
    ensures n < 0x100
  {
    b as nat
  }

  function IdValue(x: bv16): (n: nat)
    ensures n < 0x1_0000
  {
    x as nat
  }

  function ByteAfter(b: byte): byte {
    b + 1
  }

  lemma ByteAfterValue(b: byte)
    ensures b == 0xFF ==> ByteValue(b) == 0xFF && ByteValue(ByteAfter(b)) == 0
    ensures b != 0xFF ==> ByteValue(ByteAfter(b)) == ByteValue(b) + 1
  {
  }

  lemma BytesAfter(a: byte, b: byte)
    ensures NextSeq(U16(a, b)) == if a == 0xFF then U16(ByteAfter(a), ByteAfter(b)) else U16(ByteAfter(a), b)
  {
  }

  lemma IdByBytes(a: byte, b: byte)
    ensures IdValue(U16(a, b)) == ByteValue(a) + 256 * ByteValue(b)
  {
    hide U16;
    U16Value(a, b);
  }

  /** The next id is one more, modulo 65,536. */
  lemma NextSeqValue(x: bv16)
    ensures IdValue(NextSeq(x)) == (IdValue(x) + 1) % 0x1_0000
  {
    hide U16, NextSeq, Lo, Hi, ByteValue, IdValue, ByteAfter;
    var a, b := Lo(x), Hi(x);
    U16RoundTrip(x);
    IdByBytes(a, b);
    BytesAfter(a, b);
    ByteAfterValue(a);
    ByteAfterValue(b);
    IdByBytes(ByteAfter(a), if a == 0xFF then ByteAfter(b) else b);
  }

  function InitHeader(kind: byte, sequenceId: bv16, payloadLength: bv16, timestampMs: bv32): Header {
    Header(MAGIC, VERSION, kind, sequenceId, payloadLength, timestampMs, 0)
  }

  /** An over-long payload packs to nothing (the source returns size 0). */
  function Pack(h: Header, payload: seq<byte>): seq<byte>
    requires |payload| == h.payloadLength as nat
  {
    if h.payloadLength as nat > MAX_PAYLOAD then []
    else HeaderBytes(h.(checksum := Checksum(h, payload))) + payload
  }

  function FrameOf(kind: byte, sequenceId: bv16, timestampMs: bv32, payload: seq<byte>, payloadLength: bv16): seq<byte>
    requires |payload| == payloadLength as nat
  {
    Pack(InitHeader(kind, sequenceId, payloadLength, timestampMs), payload)
  }

  /** `buf` is everything available; bytes after the frame are not looked at. */
  function Validate(buf: seq<byte>): ValidateResult {
    if |buf| < HEADER_SIZE then BadLength
    else
      var h := ParseHeader(buf);
      if h.magic != MAGIC then BadMagic
      else if h.version != VERSION then BadVersion
      else if h.payloadLength as nat > MAX_PAYLOAD then BadLength
      else if |buf| < HEADER_SIZE + h.payloadLength as nat then BadLength
      else if Checksum(h, buf[HEADER_SIZE..HEADER_SIZE + h.payloadLength as nat]) != h.checksum then BadChecksum
      else Ok
  }

  /** The length a header announces, header included. */
  function FrameSize(s: seq<byte>): (n: nat)
    requires |s| >= HEADER_SIZE
    ensures n >= HEADER_SIZE
  {
    HEADER_SIZE + U16(s[6], s[7]) as nat
  }

  /** A buffer holding one whole frame by its magic and announced length. */
  predicate IsFrame(f: seq<byte>) {
    |f| >= HEADER_SIZE && U16(f[0], f[1]) == MAGIC && FrameSize(f) <= MAX_FRAME_SIZE && |f| == FrameSize(f)
  }

  /** Packing then validating succeeds, and the parsed fields are the ones packed. */
  lemma PackValidates(h: Header, payload: seq<byte>, rest: seq<byte>)
    requires |payload| == h.payloadLength as nat <= MAX_PAYLOAD
    requires h.magic == MAGIC && h.version == VERSION
    ensures Validate(Pack(h, payload) + rest) == Ok
    ensures IsFrame(Pack(h, payload))
    ensures ParseHeader(Pack(h, payload)) == h.(checksum := Checksum(h, payload))
    ensures Pack(h, payload)[HEADER_SIZE..] == payload
  {
    var h' := h.(checksum := Checksum(h, payload));
    var f := Pack(h, payload);
    ParseInvertsHeaderBytes(h', payload);
    ParseInvertsHeaderBytes(h', payload + rest);
    assert f + rest == HeaderBytes(h') + (payload + rest);
    assert (f + rest)[HEADER_SIZE..HEADER_SIZE + |payload|] == payload;
  }

  lemma FrameSizeIsAnnounced(s: seq<byte>)
    requires |s| >= HEADER_SIZE
    ensures FrameSize(s) == HEADER_SIZE + ParseHeader(s).payloadLength as nat
  {
    hide U16, U32;
  }

  /** The only buffers that validate are the packed ones: a valid frame is
      determined by its fields and payload. */
  lemma ValidFramesArePacked(f: seq<byte>)
    requires Validate(f) == Ok && IsFrame(f)
    ensures f == Pack(ParseHeader(f), f[HEADER_SIZE..])
  {
    hide ParseHeader, Checksum, HeaderBytes, FrameSize, U16;
    var h := ParseHeader(f);
    HeaderBytesInvertsParse(f);
    FrameSizeIsAnnounced(f);
    assert f[HEADER_SIZE..HEADER_SIZE + h.payloadLength as nat] == f[HEADER_SIZE..];
    assert h.(checksum := Checksum(h, f[HEADER_SIZE..])) == h;
    assert f == f[..HEADER_SIZE] + f[HEADER_SIZE..];
  }
}
