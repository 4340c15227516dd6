/** CRC-32 as the shared header computes it: reflected, bit by bit.
    The register is a 32-bit vector, a byte is a `bv8`.

    Two facts carry everything else: one shift of the register is linear over
    exclusive-or, and it sends only zero to zero. */
module Crc {
  import opened Iterate

  type byte = bv8

  /** One shift for every bit position of a byte. */
  const BIT_POSITIONS: seq<nat> := [0, 1, 2, 3, 4, 5, 6, 7]
  const BYTE_BITS: nat := |BIT_POSITIONS|
  const ONES: bv32 := 0xFFFF_FFFF

  /** Sums in GF(2) are stated as a relation between three registers: the
      solver then never has to rearrange nested exclusive-ors. */
  function Xor(a: bv32, b: bv32): bv32 { a ^ b }
  predicate IsXor(a: bv32, b: bv32, c: bv32) { c == Xor(a, b) }

  /** One shift: when the bit shifted out is set, the polynomial is folded in. */
  function Shift(c: bv32): bv32 {
    if c & 1 == 1 then (c >> 1) ^ 0xEDB88320 else c >> 1
  }

  function Shifts(c: bv32, n: nat): bv32 {
    Iter(Shift, c, n)
  }

  function Widen(b: byte): bv32 { b as bv32 }

  function CrcByte(c: bv32, b: byte): bv32 {
    Shifts(Xor(c, Widen(b)), BYTE_BITS)
  }

  /** The running register after a run of bytes, without initial or final inversion. */
  function CrcStep(c: bv32, data: seq<byte>): bv32 {
    Fold(CrcByte, c, data)
  }

  function Crc32(data: seq<byte>): bv32 {
    Xor(CrcStep(ONES, data), ONES)
  }

  /** The source selects the polynomial without a branch: the negated low bit,
      as two's complement, is a mask of all ones or all zeros. */
  method ShiftByMask(c: bv32) returns (r: bv32)
    ensures r == Shift(c)
  {
    r := (c >> 1) ^ (0xEDB88320 & (!(c & 1) + 1));
  }

  /** The two nested loops of the source. */
  method ComputeCrcStep(crc: bv32, data: seq<byte>) returns (r: bv32)
    ensures r == CrcStep(crc, data)
  {
    r := crc;
    for i := 0 to |data|
      invariant Fold(CrcByte, r, data[i..]) == CrcStep(crc, data)
    {
      assert data[i..][1..] == data[i + 1..];
      ghost var before := r;
      r := Xor(r, Widen(data[i]));
      for k := 0 to 8
        invariant Shifts(r, 8 - k) == CrcByte(before, data[i])
      {
        r := ShiftByMask(r);
      }
    }
  }

  // ----- One shift -----

  // Each lemma below names its registers instead of nesting expressions.

  lemma XorLowBit(a: bv32, b: bv32, c: bv32)
    requires c == a ^ b
    ensures (c & 1 == 1) == ((a & 1 == 1) != (b & 1 == 1))
  {
  }

  lemma HalvesPlain(a: bv32, b: bv32, c: bv32, sa: bv32, sb: bv32, sc: bv32)
    requires c == a ^ b
    requires sa == a >> 1 && sb == b >> 1 && sc == c >> 1
    ensures sc == sa ^ sb
  {
  }

  lemma HalvesMixed(a: bv32, b: bv32, c: bv32, sa: bv32, sb: bv32, sc: bv32)
    requires c == a ^ b
    requires sa == (a >> 1) ^ 0xEDB88320 && sb == b >> 1 && sc == (c >> 1) ^ 0xEDB88320
    ensures sc == sa ^ sb
  {
  }

  lemma HalvesBoth(a: bv32, b: bv32, c: bv32, sa: bv32, sb: bv32, sc: bv32)
    requires c == a ^ b
    requires sa == (a >> 1) ^ 0xEDB88320 && sb == (b >> 1) ^ 0xEDB88320 && sc == c >> 1
    ensures sc == sa ^ sb
  {
  }

  lemma HalvesByParity(a: bv32, b: bv32, c: bv32, sa: bv32, sb: bv32, sc: bv32, oddA: bool, oddB: bool, oddC: bool)
    requires c == a ^ b
    requires sa == if oddA then (a >> 1) ^ 0xEDB88320 else a >> 1
    requires sb == if oddB then (b >> 1) ^ 0xEDB88320 else b >> 1
    requires sc == if oddC then (c >> 1) ^ 0xEDB88320 else c >> 1
    requires oddC == (oddA != oddB)
    ensures sc == sa ^ sb
  {
    if oddA && oddB {
      HalvesBoth(a, b, c, sa, sb, sc);
    } else if oddA {
      HalvesMixed(a, b, c, sa, sb, sc);
    } else if oddB {
      HalvesMixed(b, a, c, sb, sa, sc);
    } else {
      HalvesPlain(a, b, c, sa, sb, sc);
    }
  }

  lemma HalvesAddUp(a: bv32, b: bv32, c: bv32, sa: bv32, sb: bv32, sc: bv32)
    requires c == a ^ b
    requires sa == if a & 1 == 1 then (a >> 1) ^ 0xEDB88320 else a >> 1
    requires sb == if b & 1 == 1 then (b >> 1) ^ 0xEDB88320 else b >> 1
    requires sc == if c & 1 == 1 then (c >> 1) ^ 0xEDB88320 else c >> 1
    ensures sc == sa ^ sb
  {
    var oddA, oddB, oddC := a & 1 == 1, b & 1 == 1, c & 1 == 1;
    XorLowBit(a, b, c);
    HalvesByParity(a, b, c, sa, sb, sc, oddA, oddB, oddC);
  }

  lemma ShiftLinear(a: bv32, b: bv32, c: bv32)
    requires c == a ^ b
    ensures Shift(c) == Shift(a) ^ Shift(b)
  {
    HalvesAddUp(a, b, c, Shift(a), Shift(b), Shift(c));
  }

  /** The polynomial has its top bit set, so a set low bit cannot vanish. */
  lemma ShiftCancels(a: bv32, b: bv32)
    requires Shift(a) == Shift(b)
    ensures a == b
  {
  }

  lemma ShiftIsLinearInjection()
    ensures Preserves(Shift, IsXor)
    ensures Injective(Shift)
  {
    forall a, b, c | IsXor(a, b, c) ensures IsXor(Shift(a), Shift(b), Shift(c)) {
      ShiftLinear(a, b, c);
    }
    forall a, b | Shift(a) == Shift(b) ensures a == b {
      ShiftCancels(a, b);
    }
  }

  // ----- Any number of shifts and bytes -----

  lemma ShiftsLinear(a: bv32, b: bv32, c: bv32, n: nat)
    requires IsXor(a, b, c)
    ensures IsXor(Shifts(a, n), Shifts(b, n), Shifts(c, n))
  {
    ShiftIsLinearInjection();
    IterPreserves(Shift, IsXor, a, b, c, n);
  }

  lemma ShiftsCancel(a: bv32, b: bv32, n: nat)
    requires Shifts(a, n) == Shifts(b, n)
    ensures a == b
  {
    ShiftIsLinearInjection();
    IterInjective(Shift, a, b, n);
  }

  lemma XorCancels(c: bv32, d: bv32, x: bv32, cx: bv32, dx: bv32)
    requires cx == c ^ x && dx == d ^ x && cx == dx
    ensures c == d
  {
  }

  lemma ShiftsOfXorCancel(c: bv32, d: bv32, x: bv32, rc: bv32, rd: bv32)
    requires rc == Shifts(Xor(c, x), BYTE_BITS) && rd == Shifts(Xor(d, x), BYTE_BITS) && rc == rd
    ensures c == d
  {
    ShiftsCancel(Xor(c, x), Xor(d, x), BYTE_BITS);
    XorCancels(c, d, x, Xor(c, x), Xor(d, x));
  }

  lemma CrcByteCancels(c: bv32, d: bv32, b: byte)
    requires CrcByte(c, b) == CrcByte(d, b)
    ensures c == d
  {
    ShiftsOfXorCancel(c, d, Widen(b), CrcByte(c, b), CrcByte(d, b));
  }

  /** The register is never forgotten: distinct registers stay distinct over any data. */
  lemma CrcStepInjective(c: bv32, d: bv32, data: seq<byte>)
    requires c != d
    ensures CrcStep(c, data) != CrcStep(d, data)
  {
    forall a, b, x | CrcByte(a, x) == CrcByte(b, x) ensures a == b {
      CrcByteCancels(a, b, x);
    }
    FoldInjective(CrcByte, c, d, data);
  }

  // ----- Agreement with the table form of section 8 of RFC 1952 -----

  function TableEntry(n: byte): bv32 {
    Shifts(Widen(n), BYTE_BITS)
  }

  function TableByte(c: bv32, b: byte): bv32 {
    Xor(TableEntry((Xor(c, Widen(b)) & 0xFF) as byte), c >> 8)
  }

  /** Shifts of a register whose low bits are clear only move it down. */
  lemma ClearLowBits(c: bv32)
    ensures c & 1 == 0 ==> Shift(c) == c >> 1
    ensures c & 3 == 0 ==> Shift(c >> 1) == c >> 2
    ensures c & 7 == 0 ==> Shift(c >> 2) == c >> 3
    ensures c & 0xF == 0 ==> Shift(c >> 3) == c >> 4
    ensures c & 0x1F == 0 ==> Shift(c >> 4) == c >> 5
    ensures c & 0x3F == 0 ==> Shift(c >> 5) == c >> 6
    ensures c & 0x7F == 0 ==> Shift(c >> 6) == c >> 7
    ensures c & 0xFF == 0 ==> Shift(c >> 7) == c >> 8
  {
  }

  lemma EightZeros(c: bv32)
    requires c & 0xFF == 0
    ensures Shifts(c, BYTE_BITS) == c >> 8
  {
    assert c & 1 == 0 && c & 3 == 0 && c & 7 == 0 && c & 0xF == 0;
    assert c & 0x1F == 0 && c & 0x3F == 0 && c & 0x7F == 0;
    ClearLowBits(c);
    IterOrbit(Shift, [c, c >> 1, c >> 2, c >> 3, c >> 4, c >> 5, c >> 6, c >> 7, c >> 8]);
  }

  lemma LowAndHigh(x: bv32, low: bv32, high: bv32)
    requires low == x & 0xFF && high == x & 0xFFFF_FF00
    ensures IsXor(low, high, x)
    ensures high & 0xFF == 0
  {
  }

  lemma HighUntouched(c: bv32, b: bv32, x: bv32, high: bv32, top: bv32)
    requires b <= 0xFF && x == c ^ b && high == x & 0xFFFF_FF00 && top == c >> 8
    ensures high >> 8 == top
  {
  }

  lemma SlidDown(high: bv32, top: bv32)
    requires high & 0xFF == 0 && high >> 8 == top
    ensures Shifts(high, BYTE_BITS) == top
  {
    EightZeros(high);
  }

  lemma HighPartSlides(c: bv32, b: bv32, x: bv32, low: bv32, high: bv32, top: bv32)
    requires b <= 0xFF && x == c ^ b && low == x & 0xFF && high == x & 0xFFFF_FF00 && top == c >> 8
    ensures IsXor(Shifts(low, BYTE_BITS), top, Shifts(x, BYTE_BITS))
  {
    hide Shifts, IsXor;
    LowAndHigh(x, low, high);
    HighUntouched(c, b, x, high, top);
    ShiftsLinear(low, high, x, BYTE_BITS);
    SlidDown(high, top);
  }

  lemma TableIndex(x: bv32, index: byte)
    requires index == (x & 0xFF) as byte
    ensures Widen(index) == x & 0xFF
  {
  }

  lemma TableByteAt(c: bv32, b: bv32, index: byte, r: bv32)
    requires b <= 0xFF && index == (Xor(c, b) & 0xFF) as byte && r == Shifts(Xor(c, b), BYTE_BITS)
    ensures r == Xor(TableEntry(index), c >> 8)
  {
    var x := Xor(c, b);
    TableIndex(x, index);
    HighPartSlides(c, b, x, x & 0xFF, x & 0xFFFF_FF00, c >> 8);
  }

  lemma WidenFits(b: byte)
    ensures Widen(b) <= 0xFF
  {
  }

  lemma BitwiseByteIsTableByte(c: bv32, b: byte)
    ensures CrcByte(c, b) == TableByte(c, b)
  {
    WidenFits(b);
    TableByteAt(c, Widen(b), (Xor(c, Widen(b)) & 0xFF) as byte, CrcByte(c, b));
  }

  /** The header promises compatibility with zlib: the bitwise loop and the
      table-driven loop of RFC 1952 compute the same register on every input. */
  lemma BitwiseIsTableDriven(c: bv32, data: seq<byte>)
    ensures CrcStep(c, data) == Fold(TableByte, c, data)
  {
    forall a, x ensures CrcByte(a, x) == TableByte(a, x) {
      BitwiseByteIsTableByte(a, x);
    }
    FoldCongruent(CrcByte, TableByte, c, data);
  }
}
