/** The exception in the burst theorem is real: a burst of four bytes that
    straddles the lower border of the checksum field can pass unseen. The
    example works on every frame with a four-byte payload, that is, on every
    acknowledgement and negative acknowledgement. */
module BurstBorder {
  import opened Iterate
  import opened Crc
  import opened Wire
  import opened Burst

  function Zeros(n: nat): (z: seq<byte>)
    ensures |z| == n && forall i :: 0 <= i < n ==> z[i] == 0
  {
    seq(n, _ => 0)
  }

  lemma XorNothing(c: bv32)
    ensures Xor(c, Widen(0)) == c && Xor(0, c) == c
  {
  }

  /** A zero byte shifts the register eight times; `orbit` records how. */
  lemma ZeroByteStep(orbit: seq<bv32>, n: nat)
    requires |orbit| == 9 && forall i :: 0 <= i < 8 ==> Shift(orbit[i]) == orbit[i + 1]
    ensures CrcStep(orbit[0], Zeros(n + 1)) == CrcStep(orbit[8], Zeros(n))
  {
    IterOrbit(Shift, orbit);
    XorNothing(orbit[0]);
    assert Zeros(n + 1)[1..] == Zeros(n);
  }

  lemma FirstZeroBytes()
    ensures CrcStep(0x19, Zeros(9)) == CrcStep(0x13F798FF, Zeros(6))
  {
    hide Zeros, CrcStep;
    ZeroByteStep([0x19, 0xEDB8832C, 0x76DC4196, 0x3B6E20CB, 0xF00F9345, 0x95BF4A82, 0x4ADFA541, 0xC8D75180,
      0x646BA8C0], 8);
    ZeroByteStep([0x646BA8C0, 0x3235D460, 0x191AEA30, 0xC8D7518, 0x646BA8C, 0x3235D46, 0x191AEA3, 0xED705471,
      0x9B00A918], 7);
    ZeroByteStep([0x9B00A918, 0x4D80548C, 0x26C02A46, 0x13601523, 0xE40889B1, 0x9FBCC7F8, 0x4FDE63FC, 0x27EF31FE,
      0x13F798FF], 6);
  }

  lemma MiddleZeroBytes()
    ensures CrcStep(0x13F798FF, Zeros(6)) == CrcStep(0x24D95353, Zeros(3))
  {
    hide Zeros, CrcStep;
    ZeroByteStep([0x13F798FF, 0xE4434F5F, 0x9F99248F, 0xA2741167, 0xBC828B93, 0xB3F9C6E9, 0xB4446054, 0x5A22302A,
      0x2D111815], 5);
    ZeroByteStep([0x2D111815, 0xFB300F2A, 0x7D980795, 0xD37480EA, 0x69BA4075, 0xD965A31A, 0x6CB2D18D, 0xDBE1EBE6,
      0x6DF0F5F3], 4);
    ZeroByteStep([0x6DF0F5F3, 0xDB40F9D9, 0x8018FFCC, 0x400C7FE6, 0x20063FF3, 0xFDBB9CD9, 0x93654D4C, 0x49B2A6A6,
      0x24D95353], 3);
  }

  lemma LastZeroBytes()
    ensures CrcStep(0x24D95353, Zeros(3)) == CrcStep(0x63F42A, Zeros(0))
  {
    hide Zeros, CrcStep;
    ZeroByteStep([0x24D95353, 0xFFD42A89, 0x92529664, 0x49294B32, 0x2494A599, 0xFFF2D1EC, 0x7FF968F6, 0x3FFCB47B,
      0xF246D91D], 2);
    ZeroByteStep([0xF246D91D, 0x949BEFAE, 0x4A4DF7D7, 0xC89E78CB, 0x89F7BF45, 0xA9435C82, 0x54A1AE41, 0xC7E85400,
      0x63F42A00], 1);
    ZeroByteStep([0x63F42A00, 0x31FA1500, 0x18FD0A80, 0xC7E8540, 0x63F42A0, 0x31FA150, 0x18FD0A8, 0xC7E854,
      0x63F42A], 0);
  }

  lemma NineZeroBytes()
    ensures CrcStep(0x19, Zeros(9)) == 0x63F42A
  {
    FirstZeroBytes();
    MiddleZeroBytes();
    LastZeroBytes();
    assert Zeros(0) == [];
  }

  /** The change: one byte of the timestamp and three of the checksum. */
  const STRADDLE: seq<byte> := Zeros(11) + [0x19, 0x2A, 0xF4, 0x63] + Zeros(5)

  lemma ChangeOfRegister()
    ensures CrcStep(0, Zeros(11) + ([0x19] + Zeros(8))) == 0x63F42A
  {
    hide CrcByte, Zeros;
    FoldAppend(CrcByte, 0, Zeros(11), [0x19] + Zeros(8));
    ZeroRegister(Zeros(11));
    ZeroLeading();
    NineZeroBytes();
  }

  lemma ZeroLeading()
    ensures CrcStep(0, [0x19] + Zeros(8)) == CrcStep(0x19, Zeros(9))
  {
    assert ([0x19] + Zeros(8))[1..] == Zeros(8);
    assert Zeros(9)[1..] == Zeros(8);
    FirstByte();
  }

  lemma FirstByte()
    ensures CrcByte(0, 0x19) == CrcByte(0x19, 0)
  {
    XorNothing(Widen(0x19));
    XorNothing(0x19);
  }

  lemma StraddleCovered()
    ensures Covered(STRADDLE) == Zeros(11) + ([0x19] + Zeros(8))
  {
    hide CrcStep;
    var c, z := Covered(STRADDLE), Zeros(11) + ([0x19] + Zeros(8));
    assert |c| == |z| == 20;
    assert STRADDLE[16..] == Zeros(4);
  }

  lemma StraddleField()
    ensures Field(STRADDLE) == 0x63F42A
  {
    assert STRADDLE[12] == 0x2A && STRADDLE[13] == 0xF4 && STRADDLE[14] == 0x63 && STRADDLE[15] == 0;
    assert U32(0x2A, 0xF4, 0x63, 0) == 0x63F42A;
  }

  /** A burst of four bytes across the checksum's border passes on every frame of its length. */
  lemma StraddlePasses()
    ensures |STRADDLE| == 20 && Passes(STRADDLE) && Within32(STRADDLE, 11, 0)
  {
    hide CrcStep, U32, ClearLow, ClearHigh;
    StraddleCovered();
    StraddleField();
    ChangeOfRegister();
    NoLowBits(0x19);
    NoHighBits();
  }

  lemma NoLowBits(e: byte)
    ensures ClearLow(e, 0)
  {
  }

  lemma NoHighBits()
    ensures ClearHigh(0, 0)
  {
  }

  /** The frame with the change made. */
  function Changed(f: seq<byte>, e: seq<byte>): (g: seq<byte>)
    requires |f| == |e|
    ensures |g| == |f|
  {
    Difference(f, e)
  }

  lemma XorTwice(a: byte, b: byte, c: byte)
    requires c == XorByte(a, b)
    ensures XorByte(a, c) == b && (c == a <==> b == 0)
  {
  }

  lemma ChangedBy(f: seq<byte>, e: seq<byte>)
    requires |f| == |e|
    ensures Difference(f, Changed(f, e)) == e
    ensures forall i :: 0 <= i < |f| ==> (Changed(f, e)[i] == f[i] <==> e[i] == 0)
  {
    hide XorByte;
    forall i | 0 <= i < |f|
      ensures Difference(f, Changed(f, e))[i] == e[i] && (Changed(f, e)[i] == f[i] <==> e[i] == 0)
    {
      XorTwice(f[i], e[i], Changed(f, e)[i]);
    }
  }

  /** Without the border condition the burst theorem is false: on every valid frame of this
      length the straddling change leads to another frame that validates. */
  lemma StraddlingBurstUndetected(f: seq<byte>)
    requires IsFrame(f) && Validate(f) == Ok && |f| == 20
    ensures var g := Changed(f, STRADDLE);
      && g != f && Burst32(f, g, 11, 0) && g[6] == f[6] && g[7] == f[7]
      && Validate(g) == Ok
  {
    hide Validate, Passes, XorByte, ClearLow, ClearHigh;
    StraddlePasses();
    var g := Changed(f, STRADDLE);
    ChangedBy(f, STRADDLE);
    assert STRADDLE[6] == 0 && STRADDLE[7] == 0 && STRADDLE[11] != 0;
    DamageVerdict(f, g);
    assert forall i :: 0 <= i < 20 ==> XorByte(f[i], g[i]) == STRADDLE[i] by {
      assert forall i :: 0 <= i < 20 ==> Difference(f, g)[i] == XorByte(f[i], g[i]);
    }
  }
}
