/**
  What CRC-32C is for (cbits/hs_crc32c.c): no damage within four consecutive bytes goes
  unseen. And two values that fix the polynomial and the inversion.
 */
module Crc32cLaws {
  import opened Bits
  import opened Crc32cSpec

  lemma {:induction false} XorNone(a: nat, b: nat)
    ensures Xor(a, b) == 0 <==> a == b
    decreases a + b
  {
    XorSelf(a);
    if a != 0 && b != 0 {
      XorNone(a / 2, b / 2);
    }
  }

  /** The same operand may be left out on both sides. */
  lemma XorCancel(a: nat, b: nat, x: nat)
    ensures Xor(a, x) == Xor(b, x) <==> a == b
    ensures Xor(x, a) == Xor(x, b) <==> a == b
  {
    hide Xor;
    XorSwap(a, x, b, x);
    XorSelf(x);
    XorZero(Xor(a, b));
    XorNone(a, b);
    XorNone(Xor(a, x), Xor(b, x));
    XorComm(x, a);
    XorComm(x, b);
  }

  /** The register never forgets: its top bit tells whether the polynomial was added. */
  lemma BitNone(c: uint32)
    requires Bit(c) == 0
    ensures c == 0
  {
    hide Xor;
    XorNone(c / 2, POLY);
  }

  lemma {:induction false} AdvanceNever(c: uint32, n: nat)
    requires Advance(c, n) == 0
    ensures c == 0
    decreases n
  {
    hide Bit;
    if n != 0 {
      AdvanceNever(Bit(c), n - 1);
      BitNone(c);
    }
  }

  /** Different registers stay different over any number of zero bits. */
  lemma AdvanceOnce(a: uint32, b: uint32, n: nat)
    ensures Advance(a, n) == Advance(b, n) <==> a == b
  {
    hide Xor, Bit, Advance;
    AdvanceLinear(a, b, n);
    XorNone(Advance(a, n), Advance(b, n));
    XorNone(a, b);
    if a != b && Advance(a, n) == Advance(b, n) {
      AdvanceNever(Xor32(a, b), n);
    }
  }

  /** Different registers stay different over any message. */
  lemma {:induction false} CrcOnce(a: uint32, b: uint32, s: seq<byte>)
    ensures Crc(a, s) == Crc(b, s) <==> a == b
  {
    hide Xor, Bit, Advance, Crc;
    CrcSplit(a, s);
    CrcSplit(b, s);
    XorCancel(Advance(a, 8 * |s|), Advance(b, 8 * |s|), Crc(0, s));
    AdvanceOnce(a, b, 8 * |s|);
  }

  lemma {:induction false} LittleEndianOnce(x: seq<byte>, y: seq<byte>)
    requires |x| == |y| && LittleEndian(x) == LittleEndian(y)
    ensures x == y
  {
    if x != [] {
      LowByte(x[0], LittleEndian(x[1..]));
      LowByte(y[0], LittleEndian(y[1..]));
      LittleEndianOnce(x[1..], y[1..]);
      assert x == [x[0]] + x[1..] && y == [y[0]] + y[1..];
    }
  }

  lemma LowByte(b: byte, w: nat)
    ensures (b + 256 * w) % 256 == b && (b + 256 * w) / 256 == w
  {}

  /**
    A message in which up to four consecutive bytes are changed, in whatever way, never has
    the CRC of the original.
   */
  lemma BurstDetected(crc: uint32, before: seq<byte>, x: seq<byte>, y: seq<byte>, after: seq<byte>)
    requires |x| == |y| <= 4
    ensures Crc32c(crc, before + x + after) == Crc32c(crc, before + y + after) <==> x == y
  {
    hide Xor, Crc, Advance, LittleEndian;
    var c := Xor32(crc, ONES);
    var r := Crc(c, before);
    CrcConcat(c, before, x);
    CrcConcat(c, before, y);
    CrcConcat(c, before + x, after);
    CrcConcat(c, before + y, after);
    XorCancel(Crc(c, before + x + after), Crc(c, before + y + after), ONES);
    CrcOnce(Crc(r, x), Crc(r, y), after);
    CrcWord(r, x);
    CrcWord(r, y);
    AdvanceOnce(Xor32(r, LittleEndian(x)), Xor32(r, LittleEndian(y)), 8 * |x|);
    XorCancel(LittleEndian(x), LittleEndian(y), r);
    if x != y && LittleEndian(x) == LittleEndian(y) {
      LittleEndianOnce(x, y);
    }
  }

  /** The CRC of a message also tells the start values apart. */
  lemma StartDetected(crc: uint32, crc': uint32, s: seq<byte>)
    ensures Crc32c(crc, s) == Crc32c(crc', s) <==> crc == crc'
  {
    hide Xor, Crc;
    XorCancel(Crc(Xor32(crc, ONES), s), Crc(Xor32(crc', ONES), s), ONES);
    CrcOnce(Xor32(crc, ONES), Xor32(crc', ONES), s);
    XorCancel(crc, crc', ONES);
  }

  // ------------------------------------------------------------------ known values

  /** Exclusive or with all ones is subtraction from them. */
  lemma {:induction false} XorOnes(x: nat, k: nat)
    requires x < Pow2(k)
    ensures Xor(x, Pow2(k) - 1) == Pow2(k) - 1 - x
  {
    hide Xor;
    if k == 0 {
      XorZero(0);
    } else {
      var y, b, q := x / 2, x % 2, Pow2(k - 1);
      XorOnes(y, k - 1);
      BitPlus(b, y);
      BitPlus(1, q - 1);
      BitPlus(1 - b, q - 1 - y);
      XorBits(x, Pow2(k) - 1);
      SameBits(Xor(x, Pow2(k) - 1), Pow2(k) - 1 - x);
    }
  }

  lemma Complement(x: uint32)
    ensures Xor32(x, ONES) == 0xffff_ffff - x && Xor32(ONES, x) == 0xffff_ffff - x
  {
    hide Xor, Pow2;
    Pow2Values();
    XorOnes(x, 32);
    XorComm(x, ONES);
  }

  /** The CRCs of the two messages that leave nothing, or one bit, in the register. */
  lemma KnownValues()
    ensures Crc32c(0, [0xff, 0xff, 0xff, 0xff]) == 0xffff_ffff
    ensures Crc32c(0, [0xff, 0xff, 0xff, 0x7f]) == 0x7d09_c487
  {
    hide Xor, Crc, Advance, LittleEndian, Pow2, Bit;
    var s, t: seq<byte> := [0xff, 0xff, 0xff, 0xff], [0xff, 0xff, 0xff, 0x7f];
    Words();
    Complement(0);
    CrcWord(ONES, s);
    CrcWord(ONES, t);
    Complement(0xffff_ffff);
    Complement(0x7fff_ffff);
    AdvanceZero(32);
    LastBit(Xor32(ONES, LittleEndian(t)));
    Complement(POLY);
  }

  lemma Words()
    ensures LittleEndian([0xff, 0xff, 0xff, 0xff]) == 0xffff_ffff
    ensures LittleEndian([0xff, 0xff, 0xff, 0x7f]) == 0x7fff_ffff
  {
    Word(0xff, 0xff, 0xff, 0xff);
    Word(0xff, 0xff, 0xff, 0x7f);
  }

  lemma Word(a: byte, b: byte, c: byte, d: byte)
    ensures LittleEndian([a, b, c, d]) == a + 256 * (b + 256 * (c + 256 * d))
  {
    hide Pow2;
    assert [a, b, c, d][1..] == [b, c, d] && [b, c, d][1..] == [c, d] && [c, d][1..] == [d] && [d][1..] == [];
    assert LittleEndian([d]) == d && LittleEndian([c, d]) == c + 256 * LittleEndian([d]);
    assert LittleEndian([b, c, d]) == b + 256 * LittleEndian([c, d]);
  }

  /** A single bit in the register comes out as the polynomial. */
  lemma LastBit(top: uint32)
    requires top == 0x8000_0000
    ensures Advance(top, 32) == POLY
  {
    hide Xor, Advance;
    Pow2Values();
    Pow2Double(31);
    assert Pow2(31) * 1 == top;
    ShiftOut(1, 31);
    AdvanceAdd(top, 31, 1);
    XorZero(POLY);
    OneStep();
  }

  lemma OneStep()
    ensures Advance(1, 1) == Bit(1)
  {}
}
