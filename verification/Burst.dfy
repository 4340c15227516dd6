/** What the checksum detects: every error burst confined to 32 consecutive bits
    of the wire, wherever it starts, provided it leaves the length field alone
    and does not straddle the border of the checksum field. */
module Burst {
  import opened Iterate
  import opened Crc
  import opened Wire

  function XorByte(a: byte, b: byte): byte { a ^ b }

  predicate IsXorByte(a: byte, b: byte, c: byte) { Widen(c) == Widen(a) ^ Widen(b) }

  // ----- Linearity over whole messages -----

  lemma XorTail(e: bv32, x: bv32, y: bv32, z: bv32, t: bv32, w: bv32)
    requires z == x ^ y && t == e ^ x && w == e ^ z
    ensures w == t ^ y
  {
  }

  lemma XorUntail(e: bv32, x: bv32, y: bv32, z: bv32, t: bv32, w: bv32)
    requires z == x ^ y && t == e ^ x && w == t ^ y
    ensures w == e ^ z
  {
  }

  lemma XorTrade(c: bv32, d: bv32, e: bv32, x: bv32, cx: bv32, t: bv32)
    requires e == c ^ d && cx == c ^ x && t == e ^ x
    ensures t == cx ^ d
  {
  }

  lemma XorRegroup(c: bv32, d: bv32, e: bv32, x: bv32, y: bv32, z: bv32, cx: bv32, dy: bv32, ez: bv32, t: bv32)
    requires e == c ^ d && z == x ^ y && cx == c ^ x && dy == d ^ y && ez == e ^ z && t == e ^ x
    ensures ez == cx ^ dy
  {
    XorTail(e, x, y, z, t, ez);
    XorTrade(c, d, e, x, cx, t);
    XorUntail(cx, d, y, dy, t, ez);
  }

  lemma ShiftsOfSums(c: bv32, d: bv32, e: bv32, x: bv32, y: bv32, z: bv32, cx: bv32, dy: bv32, ez: bv32, n: nat)
    requires e == c ^ d && z == x ^ y && cx == c ^ x && dy == d ^ y && ez == e ^ z
    ensures IsXor(Shifts(cx, n), Shifts(dy, n), Shifts(ez, n))
  {
    XorRegroup(c, d, e, x, y, z, cx, dy, ez, e ^ x);
    ShiftsLinear(cx, dy, ez, n);
  }

  lemma CrcByteLinearAt(c: bv32, d: bv32, e: bv32, x: bv32, y: bv32, z: bv32, rc: bv32, rd: bv32, re: bv32)
    requires e == c ^ d && z == x ^ y
    requires rc == Shifts(Xor(c, x), BYTE_BITS) && rd == Shifts(Xor(d, y), BYTE_BITS)
    requires re == Shifts(Xor(e, z), BYTE_BITS)
    ensures re == Xor(rc, rd)
  {
    ShiftsOfSums(c, d, e, x, y, z, Xor(c, x), Xor(d, y), Xor(e, z), BYTE_BITS);
  }

  lemma CrcByteLinearRaw(c: bv32, d: bv32, e: bv32, x: byte, y: byte, z: byte, rc: bv32, rd: bv32, re: bv32)
    requires e == c ^ d && Widen(z) == Widen(x) ^ Widen(y)
    requires rc == Shifts(Xor(c, Widen(x)), BYTE_BITS) && rd == Shifts(Xor(d, Widen(y)), BYTE_BITS)
    requires re == Shifts(Xor(e, Widen(z)), BYTE_BITS)
    ensures re == Xor(rc, rd)
  {
    CrcByteLinearAt(c, d, e, Widen(x), Widen(y), Widen(z), rc, rd, re);
  }

  lemma CrcByteLinear(c: bv32, d: bv32, e: bv32, x: byte, y: byte, z: byte)
    requires IsXor(c, d, e) && IsXorByte(x, y, z)
    ensures IsXor(CrcByte(c, x), CrcByte(d, y), CrcByte(e, z))
  {
    CrcByteLinearRaw(c, d, e, x, y, z, CrcByte(c, x), CrcByte(d, y), CrcByte(e, z));
  }

  /** The checksum register is linear over GF(2), for messages of any length. */
  lemma CrcLinear(c: bv32, d: bv32, e: bv32, s: seq<byte>, t: seq<byte>, u: seq<byte>)
    requires IsXor(c, d, e)
    requires |s| == |t| == |u| && forall i :: 0 <= i < |s| ==> IsXorByte(s[i], t[i], u[i])
    ensures IsXor(CrcStep(c, s), CrcStep(d, t), CrcStep(e, u))
  {
    forall p, q, r, x, y, z | IsXor(p, q, r) && IsXorByte(x, y, z)
      ensures IsXor(CrcByte(p, x), CrcByte(q, y), CrcByte(r, z))
    {
      CrcByteLinear(p, q, r, x, y, z);
    }
    FoldPreserves(CrcByte, IsXor, IsXorByte, c, d, e, s, t, u);
  }

  // ----- The zero register -----

  lemma XorSelf(c: bv32)
    ensures c ^ c == 0 && IsXor(c, c, 0)
  {
  }

  lemma XorZero(a: bv32, b: bv32)
    requires IsXor(a, b, 0)
    ensures a == b
  {
  }

  lemma ShiftsZero(n: nat)
    ensures Shifts(0, n) == 0
  {
    XorSelf(0);
    ShiftsLinear(0, 0, 0, n);
    XorSelf(Shifts(0, n));
  }

  lemma ShiftsNonzero(x: bv32, n: nat)
    requires Shifts(x, n) == 0
    ensures x == 0
  {
    ShiftsZero(n);
    ShiftsCancel(x, 0, n);
  }

  lemma ZeroRegister(zeros: seq<byte>)
    requires forall i :: 0 <= i < |zeros| ==> zeros[i] == 0
    ensures CrcStep(0, zeros) == 0
  {
    ZeroByte();
    FoldFixpoint(CrcByte, 0, zeros);
  }

  lemma ZeroByte()
    ensures CrcByte(0, 0) == 0
  {
    ShiftsZero(BYTE_BITS);
  }

  // ----- Up to four bytes act on a zero register like one 32-bit word -----

  function Placed(x: bv32, m: nat): bv32
    requires m < 4
  {
    if m == 0 then x else if m == 1 then x << 8 else if m == 2 then x << 16 else x << 24
  }

  function ByteAt(es: seq<byte>, i: nat): byte {
    if i < |es| then es[i] else 0
  }

  /** The bytes side by side, the first lowest. */
  function Word(es: seq<byte>): bv32
    requires |es| <= 4
  {
    U32(ByteAt(es, 0), ByteAt(es, 1), ByteAt(es, 2), ByteAt(es, 3))
  }

  lemma PlacedDown(x: bv32, m: nat)
    requires x <= 0xFF && 0 < m < 4
    ensures Placed(x, m) & 0xFF == 0
    ensures Placed(x, m) >> 8 == Placed(x, m - 1)
  {
  }

  lemma SlideOnce(p: bv32, q: bv32, n: nat)
    requires p & 0xFF == 0 && q == p >> 8
    ensures Shifts(p, 8 + n) == Shifts(q, n)
  {
    EightZeros(p);
    IterAdd(Shift, p, 8, n);
  }

  lemma {:induction false} Slide(x: bv32, m: nat)
    requires x <= 0xFF && m < 4
    ensures Shifts(Placed(x, m), 8 * m) == x
    decreases m
  {
    if m == 0 {
    } else {
      PlacedDown(x, m);
      SlideOnce(Placed(x, m), Placed(x, m - 1), 8 * (m - 1));
      Slide(x, m - 1);
    }
  }

  lemma XorBeforeShifts(x: bv32, placed: bv32, y: bv32, n: nat, s: bv32, w: bv32, z: bv32)
    requires IsXor(x, placed, y) && s == Shifts(x, n) && w == Shifts(placed, n) && z == Xor(s, w)
    ensures z == Shifts(y, n)
  {
    ShiftsLinear(x, placed, y, n);
  }

  lemma ShiftsAfterXor(s: bv32, w: bv32, y: bv32, n: nat, r: bv32)
    requires Xor(s, w) == Shifts(y, n) && r == Shifts(Xor(s, w), BYTE_BITS)
    ensures r == Shifts(y, n + 8)
  {
    IterAdd(Shift, y, n, 8);
  }

  /** Feeding a byte after n shifts is the same as placing it n bits higher before them. */
  lemma Absorb(x: bv32, e: byte, n: nat, placed: bv32, y: bv32, s: bv32)
    requires Shifts(placed, n) == Widen(e) && IsXor(x, placed, y) && s == Shifts(x, n)
    ensures CrcByte(s, e) == Shifts(y, n + 8)
  {
    XorBeforeShifts(x, placed, y, n, s, Widen(e), Xor(s, Widen(e)));
    ShiftsAfterXor(s, Widen(e), y, n, CrcByte(s, e));
  }

  lemma Join1(a: byte)
    ensures IsXor(U32(0, 0, 0, 0), Placed(Widen(a), 0), U32(a, 0, 0, 0))
  {
  }

  lemma Join2(a: byte, b: byte)
    ensures IsXor(U32(a, 0, 0, 0), Placed(Widen(b), 1), U32(a, b, 0, 0))
  {
  }

  lemma Join3(a: byte, b: byte, c: byte)
    ensures IsXor(U32(a, b, 0, 0), Placed(Widen(c), 2), U32(a, b, c, 0))
  {
  }

  lemma Join4(a: byte, b: byte, c: byte, d: byte)
    ensures IsXor(U32(a, b, c, 0), Placed(Widen(d), 3), U32(a, b, c, d))
  {
  }

  lemma WordGrows(front: seq<byte>, last: byte)
    requires |front| < 4
    ensures IsXor(Word(front), Placed(Widen(last), |front|), Word(front + [last]))
  {
    hide U32, Widen, Placed, IsXor;
    var m := |front|;
    if m == 0 { Join1(last); }
    else if m == 1 { Join2(front[0], last); }
    else if m == 2 { Join3(front[0], front[1], last); }
    else { Join4(front[0], front[1], front[2], last); }
  }

  lemma EmptyWord()
    ensures Word([]) == 0
  {
  }

  lemma {:induction false} WordAtOnce(es: seq<byte>)
    requires |es| <= 4
    ensures CrcStep(0, es) == Shifts(Word(es), 8 * |es|)
    decreases |es|
  {
    hide Word, Widen, Placed, IsXor, CrcByte;
    if es == [] {
      EmptyWord();
    } else {
      var m := |es| - 1;
      var front, last := es[..m], es[m];
      WordAtOnce(front);
      assert es == front + [last];
      FoldAppend(CrcByte, 0, front, [last]);
      WidenFits(last);
      Slide(Widen(last), m);
      WordGrows(front, last);
      Absorb(Word(front), last, 8 * m, Placed(Widen(last), m), Word(es), CrcStep(0, front));
    }
  }

  lemma U32Zero(a: byte, b: byte, c: byte, d: byte)
    requires U32(a, b, c, d) == 0
    ensures a == 0 && b == 0 && c == 0 && d == 0
  {
  }

  lemma U32Low(a: byte, b: byte, c: byte, d: byte)
    ensures U32(a, b, c, d) & 0xFF == Widen(a)
  {
  }

  lemma WordIsFaithful(es: seq<byte>)
    requires 1 <= |es| <= 4
    ensures Word(es) == 0 ==> forall i :: 0 <= i < |es| ==> es[i] == 0
    ensures Word(es) & 0xFF == Widen(es[0])
  {
    hide U32, Widen;
    U32Low(ByteAt(es, 0), ByteAt(es, 1), ByteAt(es, 2), ByteAt(es, 3));
    if Word(es) == 0 {
      U32Zero(ByteAt(es, 0), ByteAt(es, 1), ByteAt(es, 2), ByteAt(es, 3));
      assert forall i :: 0 <= i < |es| ==> es[i] == ByteAt(es, i);
    }
  }

  // ----- A fifth byte, when the window starts k bits into the first -----

  /** The k lowest bits of a byte. */
  function LowBits(k: nat): byte
    requires k < 8
  {
    [0x00, 0x01, 0x03, 0x07, 0x0F, 0x1F, 0x3F, 0x7F][k]
  }

  predicate ClearLow(e: byte, k: nat)
    requires k < 8
  {
    e & LowBits(k) == 0
  }

  predicate ClearHigh(e: byte, k: nat)
    requires k < 8
  {
    e & !LowBits(k) == 0
  }

  /** The same for the low bits of a register. */
  predicate ClearWord(u: bv32, k: nat)
    requires k < 8
  {
    u & Widen(LowBits(k)) == 0
  }

  function DownAll(c: bv32): (r: seq<bv32>)
    ensures |r| == 8 && r[0] == c
  {
    [c, c >> 1, c >> 2, c >> 3, c >> 4, c >> 5, c >> 6, c >> 7]
  }

  lemma MaskWeaken(c: bv32, k: nat)
    requires k < 8 && ClearWord(c, k)
    ensures k >= 1 ==> c & 1 == 0
    ensures k >= 2 ==> c & 3 == 0
    ensures k >= 3 ==> c & 7 == 0
    ensures k >= 4 ==> c & 0xF == 0
    ensures k >= 5 ==> c & 0x1F == 0
    ensures k >= 6 ==> c & 0x3F == 0
    ensures k >= 7 ==> c & 0x7F == 0
  {
  }

  /** Clearing only k low bits is enough for k shifts to be plain. */
  lemma KZeros(c: bv32, k: nat)
    requires k < 8 && ClearWord(c, k)
    ensures Shifts(c, k) == DownAll(c)[k]
  {
    hide ClearWord, DownAll, Shift;
    var orbit := DownAll(c)[..k + 1];
    forall i | 0 <= i < k
      ensures Shift(orbit[i]) == orbit[i + 1]
    {
      NextDown(c, k, i);
    }
    IterOrbit(Shift, orbit);
  }

  lemma NextDown(c: bv32, k: nat, i: nat)
    requires i < k < 8 && ClearWord(c, k)
    ensures Shift(DownAll(c)[i]) == DownAll(c)[i + 1]
  {
    MaskWeaken(c, k);
    ClearLowBits(c);
    hide Shift, ClearWord;
    assert i == 0 || i == 1 || i == 2 || i == 3 || i == 4 || i == 5 || i == 6;
  }

  /** The byte x placed so that 8 - k shifts bring it to the top byte. */
  function HighPlace(x: bv32, k: nat): bv32
    requires 1 <= k < 8
  {
    [x << 31, x << 30, x << 29, x << 28, x << 27, x << 26, x << 25][k - 1]
  }

  lemma HighPlaceLow(x: bv32, k: nat)
    requires 1 <= k < 8
    ensures ClearWord(HighPlace(x, k), 8 - k)
  {
  }

  lemma HighDown1(x: bv32)
    requires x & 0xFFFF_FFFE == 0
    ensures (x << 31) >> 7 == x << 24
  {
  }

  lemma HighDown2(x: bv32)
    requires x & 0xFFFF_FFFC == 0
    ensures (x << 30) >> 6 == x << 24
  {
  }

  lemma HighDown3(x: bv32)
    requires x & 0xFFFF_FFF8 == 0
    ensures (x << 29) >> 5 == x << 24
  {
  }

  lemma HighDown4(x: bv32)
    requires x & 0xFFFF_FFF0 == 0
    ensures (x << 28) >> 4 == x << 24
  {
  }

  lemma HighDown5(x: bv32)
    requires x & 0xFFFF_FFE0 == 0
    ensures (x << 27) >> 3 == x << 24
  {
  }

  lemma HighDown6(x: bv32)
    requires x & 0xFFFF_FFC0 == 0
    ensures (x << 26) >> 2 == x << 24
  {
  }

  lemma HighDown7(x: bv32)
    requires x & 0xFFFF_FF80 == 0
    ensures (x << 25) >> 1 == x << 24
  {
  }

  lemma HighMask(k: nat)
    requires 1 <= k < 8
    ensures !Widen(LowBits(k)) == [0xFFFF_FFFE, 0xFFFF_FFFC, 0xFFFF_FFF8, 0xFFFF_FFF0, 0xFFFF_FFE0, 0xFFFF_FFC0,
      0xFFFF_FF80][k - 1]
  {
  }

  lemma HighPlaceDown(x: bv32, k: nat)
    requires 1 <= k < 8 && x & !Widen(LowBits(k)) == 0
    ensures DownAll(HighPlace(x, k))[8 - k] == x << 24
  {
    HighMask(k);
    hide Widen, LowBits;
    if k == 1 { HighDown1(x); }
    else if k == 2 { HighDown2(x); }
    else if k == 3 { HighDown3(x); }
    else if k == 4 { HighDown4(x); }
    else if k == 5 { HighDown5(x); }
    else if k == 6 { HighDown6(x); }
    else { HighDown7(x); }
  }

  lemma WidenMask(e: byte, m: byte)
    requires e & !m == 0
    ensures Widen(e) & !Widen(m) == 0
  {
  }

  lemma TopBitsClash(u: bv32, e: byte, k: nat)
    requires 1 <= k < 8 && ClearHigh(e, k) && ClearWord(u, k)
    requires DownAll(u)[k] == HighPlace(Widen(e), k)
    ensures u == 0 && e == 0
  {
  }

  lemma EightShiftsReachTop(u: bv32, x: bv32)
    requires x <= 0xFF && Shifts(u, 32) == x
    ensures Shifts(u, 8) == Placed(x, 3)
  {
    Slide(x, 3);
    IterAdd(Shift, u, 8, 24);
    ShiftsCancel(Shifts(u, 8), Placed(x, 3), 24);
  }

  lemma PartialShifts(u: bv32, v: bv32, down: bv32, place: bv32, k: nat)
    requires k < 8 && Shifts(u, 8) == v
    requires down == Shifts(u, k) && Shifts(place, 8 - k) == v
    ensures down == place
  {
    IterAdd(Shift, u, k, 8 - k);
    ShiftsCancel(down, place, 8 - k);
  }

  lemma NothingLeft(e: byte)
    requires ClearHigh(e, 0)
    ensures e == 0
  {
  }

  lemma HighByteDown(e: byte, k: nat)
    requires 1 <= k < 8 && ClearHigh(e, k)
    ensures DownAll(HighPlace(Widen(e), k))[8 - k] == Placed(Widen(e), 3)
  {
    hide LowBits, Widen, HighPlace, DownAll;
    WidenMask(e, LowBits(k));
    HighPlaceDown(Widen(e), k);
  }

  /** A fifth byte that only holds the bits the first one left out cannot undo the word. */
  lemma FifthByte(u: bv32, e: byte, k: nat)
    requires k < 8 && ClearWord(u, k) && ClearHigh(e, k)
    requires Shifts(u, 32) == Widen(e)
    ensures u == 0 && e == 0
  {
    hide ClearWord, ClearHigh, Widen, Shifts, HighPlace, Placed;
    WidenFits(e);
    if k == 0 {
      NothingLeft(e);
      WidenNothing();
      ShiftsNonzero(u, 32);
    } else {
      EightShiftsReachTop(u, Widen(e));
      HighPlaceLow(Widen(e), k);
      HighByteDown(e, k);
      KZeros(u, k);
      KZeros(HighPlace(Widen(e), k), 8 - k);
      PartialShifts(u, Placed(Widen(e), 3), DownAll(u)[k], HighPlace(Widen(e), k), k);
      TopBitsClash(u, e, k);
    }
  }

  lemma WidenNothing()
    ensures Widen(0) == 0
  {
  }

  // ----- Bursts in a message -----

  /** f and g differ at most in the 32 consecutive bits that start at bit k of
      byte i (bits count from the least significant, the order of the wire). */
  predicate Burst32(f: seq<byte>, g: seq<byte>, i: nat, k: nat) {
    && |f| == |g| && i < |f| && k < 8
    && (forall j :: 0 <= j < |f| && (j < i || i + 4 < j) ==> f[j] == g[j])
    && ClearLow(XorByte(f[i], g[i]), k)
    && (i + 4 < |f| ==> ClearHigh(XorByte(f[i + 4], g[i + 4]), k))
  }

  lemma LowBitsOfWordRaw(u: bv32, e: byte, m: byte)
    requires u & 0xFF == Widen(e) && e & m == 0
    ensures u & Widen(m) == 0
  {
  }

  lemma LowBitsOfWord(u: bv32, e: byte, k: nat)
    requires k < 8 && u & 0xFF == Widen(e) && ClearLow(e, k)
    ensures ClearWord(u, k)
  {
    hide LowBits, Widen;
    LowBitsOfWordRaw(u, e, LowBits(k));
  }

  lemma FifthByteClears(s: bv32, e: byte)
    requires CrcByte(s, e) == 0
    ensures s == Widen(e)
  {
    ShiftsNonzero(Xor(s, Widen(e)), BYTE_BITS);
    XorZero(s, Widen(e));
  }

  lemma WindowNonzero(w: seq<byte>, k: nat)
    requires 1 <= |w| <= 5 && k < 8
    requires ClearLow(w[0], k)
    requires |w| == 5 ==> ClearHigh(w[4], k)
    requires CrcStep(0, w) == 0
    ensures forall i :: 0 <= i < |w| ==> w[i] == 0
  {
    hide Word, Widen, CrcByte, Shifts, ClearLow, ClearHigh, ClearWord, Xor;
    var front := if |w| == 5 then w[..4] else w;
    WordAtOnce(front);
    WordIsFaithful(front);
    if |w| == 5 {
      assert w == front + [w[4]];
      FoldAppend(CrcByte, 0, front, [w[4]]);
      FifthByteClears(CrcStep(0, front), w[4]);
      LowBitsOfWord(Word(front), w[0], k);
      FifthByte(Word(front), w[4], k);
    } else {
      ShiftsNonzero(Word(front), 8 * |w|);
    }
  }

  lemma WindowInMessage(d: seq<byte>, i: nat, j: nat)
    requires i <= j <= |d|
    requires forall n :: 0 <= n < |d| && !(i <= n < j) ==> d[n] == 0
    requires CrcStep(0, d) == 0
    ensures CrcStep(0, d[i..j]) == 0
  {
    var before, window, after := d[..i], d[i..j], d[j..];
    assert d == before + (window + after);
    FoldAppend(CrcByte, 0, before, window + after);
    ZeroRegister(before);
    FoldAppend(CrcByte, 0, window, after);
    ZeroRegister(after);
    if CrcStep(0, window) != 0 {
      CrcStepInjective(CrcStep(0, window), 0, after);
    }
  }

  function Difference(f: seq<byte>, g: seq<byte>): (d: seq<byte>)
    requires |f| == |g|
    ensures |d| == |f| && forall i :: 0 <= i < |f| ==> d[i] == XorByte(f[i], g[i])
  {
    seq(|f|, i requires 0 <= i < |f| => XorByte(f[i], g[i]))
  }

  lemma WidenXor(x: byte, y: byte, z: byte)
    requires z == XorByte(x, y)
    ensures IsXorByte(x, y, z)
    ensures z == 0 <==> x == y
  {
  }

  lemma DifferenceRegister(c: bv32, f: seq<byte>, g: seq<byte>)
    requires |f| == |g|
    ensures IsXor(CrcStep(c, f), CrcStep(c, g), CrcStep(0, Difference(f, g)))
  {
    var d := Difference(f, g);
    forall i | 0 <= i < |f| ensures IsXorByte(f[i], g[i], d[i]) {
      WidenXor(f[i], g[i], d[i]);
    }
    XorSelf(c);
    CrcLinear(c, c, 0, f, g, d);
  }

  /** Two messages that differ, but only within 32 consecutive bits, never share a checksum. */
  lemma CrcDetectsBurst(c: bv32, f: seq<byte>, g: seq<byte>, i: nat, k: nat)
    requires Burst32(f, g, i, k)
    requires CrcStep(c, f) == CrcStep(c, g)
    ensures f == g
  {
    hide CrcStep, ClearLow, ClearHigh, IsXor, XorByte;
    var d := Difference(f, g);
    DifferenceRegister(c, f, g);
    SameRegister(CrcStep(c, f), CrcStep(0, d));
    ZeroDifference(f, g);
    BurstPattern(f, g, i, k);
    PatternDetected(d, i, k);
  }

  lemma SameRegister(a: bv32, d: bv32)
    requires IsXor(a, a, d)
    ensures d == 0
  {
  }

  lemma ZeroDifference(f: seq<byte>, g: seq<byte>)
    requires |f| == |g|
    ensures forall n :: 0 <= n < |f| ==> (Difference(f, g)[n] == 0 <==> f[n] == g[n])
  {
    forall n | 0 <= n < |f|
      ensures Difference(f, g)[n] == 0 <==> f[n] == g[n]
    {
      WidenXor(f[n], g[n], Difference(f, g)[n]);
    }
  }

  /** The pattern of a burst: nothing outside the 32 bits that start at bit k of byte i. */
  predicate Within32(e: seq<byte>, i: nat, k: nat) {
    && i < |e| && k < 8
    && (forall j :: 0 <= j < |e| && (j < i || i + 4 < j) ==> e[j] == 0)
    && ClearLow(e[i], k)
    && (i + 4 < |e| ==> ClearHigh(e[i + 4], k))
  }

  lemma BurstPattern(f: seq<byte>, g: seq<byte>, i: nat, k: nat)
    requires Burst32(f, g, i, k)
    ensures Within32(Difference(f, g), i, k)
  {
    hide ClearLow, ClearHigh, XorByte;
    ZeroDifference(f, g);
  }

  /** A nonzero pattern within 32 consecutive bits never leaves a zero register. */
  lemma PatternDetected(e: seq<byte>, i: nat, k: nat)
    requires Within32(e, i, k) && CrcStep(0, e) == 0
    ensures forall n :: 0 <= n < |e| ==> e[n] == 0
  {
    hide CrcStep, ClearLow, ClearHigh;
    var j := if i + 5 <= |e| then i + 5 else |e|;
    WindowInMessage(e, i, j);
    WindowNonzero(e[i..j], k);
    forall n | i <= n < j ensures e[n] == 0 {
      assert e[n] == e[i..j][n - i];
    }
  }

  // ----- Bursts in a frame -----

  /** What the checksum is computed over. */
  function Covered(f: seq<byte>): seq<byte>
    requires |f| >= HEADER_SIZE
  {
    f[..12] + [0, 0, 0, 0] + f[HEADER_SIZE..]
  }

  /** The checksum field. */
  function Field(f: seq<byte>): bv32
    requires |f| >= HEADER_SIZE
  {
    U32(f[12], f[13], f[14], f[15])
  }

  lemma ChecksumOverCovered(f: seq<byte>)
    requires |f| >= HEADER_SIZE
    ensures Checksum(ParseHeader(f), f[HEADER_SIZE..]) == Crc32(Covered(f))
  {
    hide U16, U32, CrcByte, Xor;
    var zeroed := HeaderBytes(ParseHeader(f).(checksum := 0));
    HeaderBytesInvertsParse(f);
    assert zeroed[..12] == HeaderBytes(ParseHeader(f))[..12] == f[..12];
    assert zeroed[12..] == [0, 0, 0, 0];
    assert Covered(f) == zeroed + f[HEADER_SIZE..];
    FoldAppend(CrcByte, ONES, zeroed, f[HEADER_SIZE..]);
  }

  lemma ValidMeansChecksum(f: seq<byte>)
    requires IsFrame(f)
    ensures Validate(f) == Ok <==> f[2] == VERSION && Crc32(Covered(f)) == Field(f)
  {
    hide Crc32, Checksum, Covered;
    ChecksumOverCovered(f);
    assert f[HEADER_SIZE..FrameSize(f)] == f[HEADER_SIZE..];
  }

  // ----- Exactly which damage passes -----

  lemma XorOther(rf: bv32, rg: bv32, d: bv32, ff: bv32, fg: bv32)
    requires d == rf ^ rg && rf ^ 0xFFFF_FFFF == ff && d == ff ^ fg
    ensures rg ^ 0xFFFF_FFFF == fg
  {
  }

  lemma XorBack(rf: bv32, rg: bv32, d: bv32, ff: bv32, fg: bv32)
    requires d == rf ^ rg && rf ^ 0xFFFF_FFFF == ff && rg ^ 0xFFFF_FFFF == fg
    ensures d == ff ^ fg
  {
  }

  lemma InvertedRegisters(rf: bv32, rg: bv32, d: bv32, ff: bv32, fg: bv32)
    requires IsXor(rf, rg, d) && Xor(rf, ONES) == ff
    ensures Xor(rg, ONES) == fg <==> IsXor(ff, fg, d)
  {
    if Xor(rg, ONES) == fg {
      XorBack(rf, rg, d, ff, fg);
    }
    if IsXor(ff, fg, d) {
      XorOther(rf, rg, d, ff, fg);
    }
  }

  lemma U32Xor(a: byte, b: byte, c: byte, d: byte, a': byte, b': byte, c': byte, d': byte)
    ensures IsXor(U32(a, b, c, d), U32(a', b', c', d'),
                  U32(XorByte(a, a'), XorByte(b, b'), XorByte(c, c'), XorByte(d, d')))
  {
  }

  lemma FieldOfDifference(f: seq<byte>, g: seq<byte>)
    requires |f| == |g| >= HEADER_SIZE
    ensures IsXor(Field(f), Field(g), Field(Difference(f, g)))
  {
    hide U32, IsXor, XorByte;
    U32Xor(f[12], f[13], f[14], f[15], g[12], g[13], g[14], g[15]);
  }

  lemma ZeroXorZero()
    ensures XorByte(0, 0) == 0
  {
  }

  lemma CoveredDifference(f: seq<byte>, g: seq<byte>)
    requires |f| == |g| >= HEADER_SIZE
    ensures |Covered(f)| == |Covered(g)| && Difference(Covered(f), Covered(g)) == Covered(Difference(f, g))
  {
    ZeroXorZero();
    hide XorByte, Covered;
    CoveredLength(f);
    CoveredLength(g);
    var d, e := Difference(Covered(f), Covered(g)), Covered(Difference(f, g));
    CoveredLength(Difference(f, g));
    forall i | 0 <= i < |f|
      ensures d[i] == e[i]
    {
      CoveredAt(f, i);
      CoveredAt(g, i);
      CoveredAt(Difference(f, g), i);
    }
  }

  lemma CoveredLength(f: seq<byte>)
    requires |f| >= HEADER_SIZE
    ensures |Covered(f)| == |f|
  {
  }

  lemma CoveredAt(f: seq<byte>, i: nat)
    requires |f| >= HEADER_SIZE && i < |f|
    ensures |Covered(f)| == |f| && Covered(f)[i] == if 12 <= i < 16 then 0 else f[i]
  {
  }

  /** The change e, added to a valid frame bit by bit, passes: it spares magic and version, and
      the register of what it does to the covered bytes is what it does to the checksum field. */
  predicate Passes(e: seq<byte>)
    requires |e| >= HEADER_SIZE
  {
    e[0] == 0 && e[1] == 0 && e[2] == 0 && CrcStep(0, Covered(e)) == Field(e)
  }

  /** Exactly the changes that pass turn a valid frame into another one that validates. The
      condition depends on the change alone, so the same changes pass on every frame. */
  lemma DamageVerdict(f: seq<byte>, g: seq<byte>)
    requires IsFrame(f) && Validate(f) == Ok
    requires |g| == |f| && g[6] == f[6] && g[7] == f[7]
    ensures Validate(g) == Ok <==> Passes(Difference(f, g))
  {
    var e := Difference(f, g);
    ZeroDifference(f, g);
    MagicBytes(f[0], f[1]);
    MagicBytes(g[0], g[1]);
    ValidMeansChecksum(f);
    if U16(g[0], g[1]) == MAGIC {
      ValidMeansChecksum(g);
      CoveredDifference(f, g);
      DifferenceRegister(ONES, Covered(f), Covered(g));
      FieldOfDifference(f, g);
      hide Validate, Covered, Field, CrcStep, U16;
      InvertedRegisters(CrcStep(ONES, Covered(f)), CrcStep(ONES, Covered(g)), CrcStep(0, Covered(e)), Field(f),
        Field(g));
    }
  }

  // ----- Bursts in a frame -----

  lemma NothingCovered(e: seq<byte>)
    requires |e| >= HEADER_SIZE && forall j :: 0 <= j < |e| && !(12 <= j < 16) ==> e[j] == 0
    ensures CrcStep(0, Covered(e)) == 0
  {
    ZeroRegister(Covered(e));
  }

  lemma ZeroField(e: seq<byte>)
    requires |e| >= HEADER_SIZE
    ensures Field(e) == 0 <==> forall j :: 12 <= j < 16 ==> e[j] == 0
  {
    if Field(e) == 0 {
      U32Zero(e[12], e[13], e[14], e[15]);
    }
  }

  lemma CoveredWhole(e: seq<byte>)
    requires |e| >= HEADER_SIZE && forall j :: 12 <= j < 16 ==> e[j] == 0
    ensures Covered(e) == e
  {
  }

  /** No burst on one side of the checksum's border passes. */
  lemma BurstDoesNotPass(e: seq<byte>, i: nat, k: nat)
    requires |e| >= HEADER_SIZE && Within32(e, i, k) && Passes(e)
    requires (forall j :: 12 <= j < 16 ==> e[j] == 0) || (forall j :: 0 <= j < |e| && !(12 <= j < 16) ==> e[j] == 0)
    ensures forall n :: 0 <= n < |e| ==> e[n] == 0
  {
    hide CrcStep, Field, Within32, Covered;
    ZeroField(e);
    if forall j :: 12 <= j < 16 ==> e[j] == 0 {
      CoveredWhole(e);
      PatternDetected(e, i, k);
    } else {
      NothingCovered(e);
    }
  }

  /** A burst that spares the length field and does not straddle the border of
      the checksum field never turns a valid frame into another valid one. */
  lemma FrameBurstDetected(f: seq<byte>, g: seq<byte>, i: nat, k: nat)
    requires IsFrame(f) && Validate(f) == Ok
    requires Burst32(f, g, i, k) && f != g
    requires f[6] == g[6] && f[7] == g[7]
    requires (forall j :: 12 <= j < 16 ==> f[j] == g[j]) || (f[..12] == g[..12] && f[16..] == g[16..])
    ensures Validate(g) != Ok
  {
    var e := Difference(f, g);
    ZeroDifference(f, g);
    DamageVerdict(f, g);
    BurstPattern(f, g, i, k);
    hide Validate, Passes, Within32;
    if Passes(e) {
      if !(forall j :: 12 <= j < 16 ==> f[j] == g[j]) {
        SameOutside(f, g);
      }
      BurstDoesNotPass(e, i, k);
    }
  }

  lemma SameOutside(f: seq<byte>, g: seq<byte>)
    requires |f| == |g| >= HEADER_SIZE && f[..12] == g[..12] && f[16..] == g[16..]
    ensures forall j :: 0 <= j < |f| && !(12 <= j < 16) ==> f[j] == g[j]
  {
    forall j | 0 <= j < |f| && !(12 <= j < 16)
      ensures f[j] == g[j]
    {
      if j < 12 {
        assert f[..12][j] == g[..12][j];
      } else {
        assert f[16..][j - 16] == g[16..][j - 16];
      }
    }
  }
}
