/**
  The reference CRC-32C of cbits/hs_crc32c.c: a bit-at-a-time shift register with the
  reflected iSCSI polynomial (section 12.1 of RFC 3720), and its linear algebra over GF(2).
 */
module Crc32cSpec {
  import opened Bits

  const POLY: uint32 := 0x82f63b78
  const ONES: uint32 := 0xffff_ffff

  /** One step of the reflected shift register on a zero input bit. */
  function Bit(c: uint32): uint32 {
    if c % 2 == 1 then Xor32(c / 2, POLY) else c / 2
  }

  /** The register after `n` zero bits. */
  function Advance(c: uint32, n: nat): uint32
    decreases n
  {
    if n == 0 then c else Advance(Bit(c), n - 1)
  }

  /** The register after one message byte, bit by bit. */
  function CrcByte(c: uint32, b: byte): uint32 {
    Advance(Xor32(c, b), 8)
  }

  /** The raw register after a whole message. */
  function Crc(c: uint32, s: seq<byte>): uint32
    decreases |s|
  {
    if s == [] then c else Crc(CrcByte(c, s[0]), s[1..])
  }

  /** CRC-32C with pre- and post-inversion: what `rd_crc32c` must return. */
  function Crc32c(crc: uint32, s: seq<byte>): uint32 {
    Xor32(Crc(Xor32(crc, ONES), s), ONES)
  }

  // ------------------------------------------------------------------ linearity

  lemma BitLinear(a: uint32, b: uint32)
    ensures Bit(Xor32(a, b)) == Xor32(Bit(a), Bit(b))
  {
    hide Xor;
    XorBits(a, b);
    var x, y := a / 2, b / 2;
    XorZero(Xor(x, y));
    XorSelf(POLY);
    XorSwap(x, POLY, y, POLY);
    XorAssoc(x, y, POLY);
    XorAssoc(x, POLY, y);
    XorComm(POLY, y);
  }

  /** The zero-bit register is linear over GF(2). */
  lemma {:induction false} AdvanceLinear(a: uint32, b: uint32, n: nat)
    ensures Advance(Xor32(a, b), n) == Xor32(Advance(a, n), Advance(b, n))
    decreases n
  {
    hide Bit, Xor32;
    if n != 0 {
      BitLinear(a, b);
      AdvanceLinear(Bit(a), Bit(b), n - 1);
    }
  }

  lemma {:induction false} AdvanceAdd(c: uint32, m: nat, n: nat)
    ensures Advance(Advance(c, m), n) == Advance(c, m + n)
    decreases m
  {
    hide Bit;
    if m != 0 {
      AdvanceAdd(Bit(c), m - 1, n);
    }
  }

  lemma AdvanceNone(c: uint32)
    ensures Advance(c, 0) == c
  {}

  lemma {:induction false} AdvanceZero(n: nat)
    ensures Advance(0, n) == 0
  {
    if n != 0 {
      assert Bit(0) == 0;
      AdvanceZero(n - 1);
    }
  }

  /** Zero bits in front of a value are shifted out again unchanged. */
  lemma {:induction false} ShiftOut(x: nat, n: nat)
    requires Pow2(n) * x < 0x1_0000_0000
    ensures x < 0x1_0000_0000 && Advance(Pow2(n) * x, n) == x
  {
    if n == 0 {
      assert Pow2(0) * x == x;
    } else {
      Twice(Pow2(n - 1), Pow2(n), x);
      var y := Pow2(n - 1) * x;
      assert Pow2(n) * x == 2 * y;
      assert Bit(2 * y) == y;
      ShiftOut(x, n - 1);
    }
  }

  /** A number is the exclusive or of its low `k` bits and the rest in place. */
  lemma SplitAt(lo: nat, hi: nat, k: nat)
    requires lo < Pow2(k)
    ensures Xor(lo, Pow2(k) * hi) == lo + Pow2(k) * hi
  {
    hide Xor;
    XorSplit(lo, 0, 0, hi, k);
    XorZero(lo);
    XorZero(hi);
  }

  /** Advancing over whole bytes peels the register byte by byte. */
  lemma PeelByte(c: uint32, k: nat)
    ensures Advance(c, 8 + k) == Xor32(Advance(c % 256, 8 + k), Advance(c / 256, k))
  {
    hide Xor, Bit, Advance;
    Pow2Values();
    SplitAt(c % 256, c / 256, 8);
    AdvanceLinear(c % 256, 256 * (c / 256), 8 + k);
    ShiftOut(c / 256, 8);
    AdvanceAdd(256 * (c / 256), 8, k);
  }

  // ------------------------------------------------------------------ messages

  lemma CrcNone(c: uint32)
    ensures Crc(c, []) == c
  {}

  /** CRC chaining: the CRC of `a` continued over `b` is the CRC of `a + b`. */
  lemma {:induction false} CrcConcat(c: uint32, a: seq<byte>, b: seq<byte>)
    ensures Crc(Crc(c, a), b) == Crc(c, a + b)
    decreases |a|
  {
    hide CrcByte;
    if a == [] {
      assert a + b == b;
    } else {
      CrcConcat(CrcByte(c, a[0]), a[1..], b);
      assert (a + b)[1..] == a[1..] + b;
    }
  }

  /** The same law for the inverted form that callers chain. */
  lemma Crc32cConcat(c: uint32, a: seq<byte>, b: seq<byte>)
    ensures Crc32c(Crc32c(c, a), b) == Crc32c(c, a + b)
  {
    hide Xor, Crc;
    var r := Crc(Xor32(c, ONES), a);
    XorAssoc(r, ONES, ONES);
    XorSelf(ONES);
    XorZero(r);
    CrcConcat(Xor32(c, ONES), a, b);
  }

  lemma Crc32cEmpty(c: uint32)
    ensures Crc32c(c, []) == c
  {
    hide Xor;
    XorAssoc(c, ONES, ONES);
    XorSelf(ONES);
    XorZero(c);
  }

  /** The initial register and the message contribute independently. */
  lemma {:induction false} CrcSplit(c: uint32, s: seq<byte>)
    ensures Crc(c, s) == Xor32(Advance(c, 8 * |s|), Crc(0, s))
    decreases |s|
  {
    hide Xor, Bit;
    if s == [] {
      XorZero(c);
    } else {
      var b, t := s[0], s[1..];
      var z := Advance(b, 8);
      AdvanceLinear(c, b, 8);
      XorZero(b);
      assert CrcByte(0, b) == z;
      CrcSplit(CrcByte(c, b), t);
      CrcSplit(z, t);
      AdvanceLinear(Advance(c, 8), z, 8 * |t|);
      AdvanceAdd(c, 8, 8 * |t|);
      XorAssoc(Advance(c, 8 * |s|), Advance(z, 8 * |t|), Crc(0, t));
    }
  }

  function Zeros(n: nat): (s: seq<byte>)
    ensures |s| == n
  {
    seq(n, _ => 0)
  }

  /** `Advance` by whole bytes is the CRC of that many zero bytes. */
  lemma {:induction false} AdvanceIsZeroBytes(c: uint32, n: nat)
    ensures Crc(c, Zeros(n)) == Advance(c, 8 * n)
    decreases n
  {
    hide Xor, Bit;
    if n == 0 {
      assert Zeros(n) == [];
    } else {
      assert Zeros(n)[1..] == Zeros(n - 1);
      XorZero(c);
      AdvanceIsZeroBytes(Advance(c, 8), n - 1);
      AdvanceAdd(c, 8, 8 * (n - 1));
    }
  }

  /** Three blocks of equal length, computed independently and stitched together. */
  lemma ThreeWay(c: uint32, a: seq<byte>, b: seq<byte>, d: seq<byte>)
    requires |a| == |b| == |d|
    ensures Crc(c, a + b + d) ==
            Xor32(Advance(Xor32(Advance(Crc(c, a), 8 * |a|), Crc(0, b)), 8 * |a|), Crc(0, d))
  {
    hide Xor, Crc, Advance;
    CrcConcat(c, a, b);
    CrcConcat(c, a + b, d);
    CrcSplit(Crc(c, a), b);
    CrcSplit(Crc(c, a + b), d);
  }

  // ------------------------------------------------------------------ little-endian words

  function LittleEndian(s: seq<byte>): (w: nat)
    ensures w < Pow2(8 * |s|)
  {
    if s == [] then 0
    else
      Pow2Add(8, 8 * |s[1..]|);
      Pow2Values();
      s[0] + 256 * LittleEndian(s[1..])
  }

  lemma {:induction false} LittleEndianConcat(a: seq<byte>, b: seq<byte>)
    ensures LittleEndian(a + b) == LittleEndian(a) + Pow2(8 * |a|) * LittleEndian(b)
  {
    if a == [] {
      assert a + b == b;
    } else {
      hide Pow2;
      var t := a[1..];
      assert (a + b)[1..] == t + b;
      LittleEndianConcat(t, b);
      Pow2Add(8, 8 * |t|);
      Pow2Values();
      MulAssoc(256, Pow2(8 * |t|), LittleEndian(b));
      assert 8 + 8 * |t| == 8 * |a|;
    }
  }

  /** Up to four bytes may be folded in as one word before advancing. */
  lemma {:induction false} CrcWord(c: uint32, s: seq<byte>)
    requires |s| <= 4
    ensures LittleEndian(s) < 0x1_0000_0000
    ensures Crc(c, s) == Advance(Xor32(c, LittleEndian(s)), 8 * |s|)
    decreases |s|
  {
    hide Xor, Bit;
    Pow2Values();
    Pow2Monotone(8 * |s|, 32);
    if s == [] {
      XorZero(c);
    } else {
      var b, t := s[0], s[1..];
      CrcWord(CrcByte(c, b), t);
      var w := LittleEndian(t);
      ShiftOut(w, 8);
      AdvanceLinear(Xor32(c, b), 256 * w, 8);
      XorAssoc(c, b, 256 * w);
      SplitAt(b, w, 8);
      AdvanceAdd(Xor32(c, LittleEndian(s)), 8, 8 * |t|);
    }
  }
}
