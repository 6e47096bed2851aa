/**
  The software path of cbits/hs_crc32c.c: slicing-by-8 tables, proved to return the
  bit-at-a-time CRC for every initial value, message and alignment.
 */
module Crc32cFast {
  import opened Bits
  import opened Crc32cSpec

  // ------------------------------------------------------------------ slicing by 8

  /** `table[k][n]` advances the byte `n` over `k + 1` bytes. */
  ghost predicate SlicingTable(table: array2<uint32>)
    reads table
  {
    && table.Length0 == 8 && table.Length1 == 256
    && forall k, n :: 0 <= k < 8 && 0 <= n < 256 ==> table[k, n] == Advance(n, 8 * (k + 1))
  }

  ghost predicate FirstRow(table: array2<uint32>, n: nat)
    requires table.Length0 == 8 && table.Length1 == 256 && n <= 256
    reads table
  {
    forall m :: 0 <= m < n ==> table[0, m] == Advance(m, 8)
  }

  ghost predicate Columns(table: array2<uint32>, n: nat)
    requires table.Length0 == 8 && table.Length1 == 256 && n <= 256
    reads table
  {
    forall k, m :: 0 <= k < 8 && 0 <= m < n ==> table[k, m] == Advance(m, 8 * (k + 1))
  }

  method InitSw(table: array2<uint32>)
    requires table.Length0 == 8 && table.Length1 == 256
    modifies table
    ensures SlicingTable(table)
  {
    hide Advance;
    for n := 0 to 256
      invariant FirstRow(table, n)
    {
      table[0, n] := EightSteps(n);
    }
    for n := 0 to 256
      invariant FirstRow(table, 256) && Columns(table, n)
    {
      FillColumn(table, n);
    }
  }

  /** The eight unrolled register steps of the first initialisation loop. */
  function EightSteps(n: byte): (crc: uint32)
    ensures crc == Advance(n, 8)
  {
    hide Bit;
    var half := Bit(Bit(Bit(Bit(n))));
    assert half == Advance(n, 4) by {
      assert Advance(n, 4) == Advance(Bit(Bit(n)), 2);
    }
    AdvanceAdd(n, 4, 4);
    assert Advance(half, 4) == Advance(Bit(Bit(half)), 2);
    Bit(Bit(Bit(Bit(half))))
  }

  /** The inner loop of the second initialisation loop. */
  method FillColumn(table: array2<uint32>, n: nat)
    requires table.Length0 == 8 && table.Length1 == 256 && n < 256
    requires FirstRow(table, 256) && Columns(table, n)
    modifies table
    ensures FirstRow(table, 256) && Columns(table, n + 1)
  {
    hide Xor, Advance, Bit;
    var crc := table[0, n];
    for k := 1 to 8
      invariant crc == Advance(n, 8 * k)
      invariant FirstRow(table, 256) && Columns(table, n)
      invariant forall j :: 0 <= j < k ==> table[j, n] == Advance(n, 8 * (j + 1))
    {
      PeelByte(crc, 0);
      AdvanceNone(crc / 256);
      AdvanceAdd(n, 8 * k, 8);
      crc := Xor32(table[0, crc % 256], crc / 256);
      table[k, n] := crc;
    }
  }

  /** A byte only touches the low byte of the register. */
  lemma XorLowByte(c: uint32, b: byte)
    ensures Xor(c, b) / 256 == c / 256
    ensures Xor(c, b) % 256 == Xor(c % 256, b)
  {
    hide Xor;
    Pow2Values();
    XorSplit(c % 256, c / 256, b, 0, 8);
    XorZero(c / 256);
    XorBound(c % 256, b, 8);
  }

  /** The one-table byte update is the bit-at-a-time byte update. */
  lemma TableByte(c: uint32, b: byte)
    ensures Xor32(Advance(Xor32(c, b) % 256, 8), c / 256) == CrcByte(c, b)
  {
    hide Xor, Advance;
    XorLowByte(c, b);
    PeelByte(Xor32(c, b), 0);
    AdvanceNone(c / 256);
  }

  /** Byte `i` of a little-endian word: `(x >> 8 * i) & 0xff`. */
  function ByteAt(x: nat, i: nat): byte
    decreases i
  {
    if i == 0 then x % 256 else ByteAt(x / 256, i - 1)
  }

  lemma {:induction false} ByteAtSplit(a: nat, b: nat, k: nat, i: nat)
    requires a < Pow2(8 * k)
    ensures ByteAt(a + Pow2(8 * k) * b, i) == (if i < k then ByteAt(a, i) else ByteAt(b, i - k))
  {
    if k != 0 {
      var p := Pow2(8 * (k - 1));
      Pow2Add(8, 8 * (k - 1));
      Pow2Values();
      MulAssoc(256, p, b);
      var x := a + 256 * (p * b);
      ShiftedByte(a, p * b);
      if i != 0 {
        ByteAtSplit(a / 256, b, k - 1, i - 1);
      }
    }
  }

  lemma ShiftedByte(a: nat, z: nat)
    ensures (a + 256 * z) % 256 == a % 256 && (a + 256 * z) / 256 == a / 256 + z
  {}

  /** Advancing a word over `4 + k` bytes, one table per byte of the word. */
  lemma PeelWord(c: uint32, k: nat)
    ensures Advance(c, 32 + k) ==
            Xor32(Xor32(Xor32(Advance(ByteAt(c, 0), 32 + k), Advance(ByteAt(c, 1), 24 + k)),
                        Advance(ByteAt(c, 2), 16 + k)),
                  Advance(ByteAt(c, 3), 8 + k))
  {
    hide Xor, Advance;
    PeelByte(c, 24 + k);
    PeelByte(c / 256, 16 + k);
    PeelByte(c / 256 / 256, 8 + k);
    assert c / 256 / 256 / 256 < 256;
    assert ByteAt(c, 1) == c / 256 % 256;
    assert ByteAt(c, 2) == ByteAt(c / 256, 1) == c / 256 / 256 % 256;
    assert ByteAt(c, 3) == ByteAt(c / 256, 2) == c / 256 / 256 / 256;
    var t0, t1 := Advance(ByteAt(c, 0), 32 + k), Advance(ByteAt(c, 1), 24 + k);
    var t2, t3 := Advance(ByteAt(c, 2), 16 + k), Advance(ByteAt(c, 3), 8 + k);
    XorAssoc(t0, t1, Xor(t2, t3));
    XorAssoc(Xor(t0, t1), t2, t3);
  }

  /** Eight bytes at once: the register only meets the first four of them. */
  lemma CrcEight(c: uint32, s: seq<byte>)
    requires |s| == 8
    ensures LittleEndian(s[..4]) < 0x1_0000_0000 && LittleEndian(s[4..]) < 0x1_0000_0000
    ensures Crc(c, s) == Xor32(Advance(Xor32(c, LittleEndian(s[..4])), 64),
                               Advance(LittleEndian(s[4..]), 32))
  {
    hide Xor, Advance, Crc, LittleEndian;
    var a, b := s[..4], s[4..];
    assert s == a + b;
    CrcConcat(c, a, b);
    CrcWord(c, a);
    CrcWord(Crc(c, a), b);
    var x := Xor32(c, LittleEndian(a));
    AdvanceLinear(Advance(x, 32), LittleEndian(b), 32);
    AdvanceAdd(x, 32, 32);
  }

  /** The 64-bit exclusive or splits into the two words of `CrcEight`. */
  lemma WordHalves(c: uint32, s: seq<byte>)
    requires |s| == 8
    ensures LittleEndian(s[..4]) < 0x1_0000_0000
    ensures Xor(c, LittleEndian(s)) ==
            Xor32(c, LittleEndian(s[..4])) + 0x1_0000_0000 * LittleEndian(s[4..])
  {
    hide Xor, LittleEndian;
    var a, b := LittleEndian(s[..4]), LittleEndian(s[4..]);
    assert s == s[..4] + s[4..];
    LittleEndianConcat(s[..4], s[4..]);
    Pow2Values();
    XorSplit(c, 0, a, b, 32);
    XorZero(b);
  }

  lemma BytesOfHalves(lo: uint32, hi: uint32)
    ensures forall i :: 0 <= i < 4 ==> ByteAt(lo + 0x1_0000_0000 * hi, i) == ByteAt(lo, i)
    ensures forall i :: 0 <= i < 4 ==> ByteAt(lo + 0x1_0000_0000 * hi, 4 + i) == ByteAt(hi, i)
  {
    hide ByteAt;
    Pow2Values();
    forall i | 0 <= i < 4
      ensures ByteAt(lo + 0x1_0000_0000 * hi, i) == ByteAt(lo, i)
      ensures ByteAt(lo + 0x1_0000_0000 * hi, 4 + i) == ByteAt(hi, i)
    {
      ByteAtSplit(lo, hi, 4, i);
      ByteAtSplit(lo, hi, 4, 4 + i);
    }
  }

  /** The left-to-right exclusive or of eight terms, as the slicing loop writes it. */
  function XorEight(a: uint32, b: uint32, c: uint32, d: uint32,
                    e: uint32, f: uint32, g: uint32, h: uint32): uint32
  {
    Xor32(Xor32(Xor32(Xor32(Xor32(Xor32(Xor32(a, b), c), d), e), f), g), h)
  }

  lemma XorEightHalves(a: uint32, b: uint32, c: uint32, d: uint32,
                       e: uint32, f: uint32, g: uint32, h: uint32)
    ensures XorEight(a, b, c, d, e, f, g, h) ==
            Xor32(Xor32(Xor32(Xor32(a, b), c), d), Xor32(Xor32(Xor32(e, f), g), h))
  {
    hide Xor;
    var low := Xor(Xor(Xor(a, b), c), d);
    XorAssoc(low, e, f);
    XorAssoc(low, Xor(e, f), g);
    XorAssoc(low, Xor(Xor(e, f), g), h);
  }

  lemma EightTerms(crc: uint32, s: seq<byte>, x: nat)
    requires |s| == 8 && x == Xor(crc, LittleEndian(s))
    ensures Crc(crc, s) ==
            XorEight(Advance(ByteAt(x, 0), 64), Advance(ByteAt(x, 1), 56),
                     Advance(ByteAt(x, 2), 48), Advance(ByteAt(x, 3), 40),
                     Advance(ByteAt(x, 4), 32), Advance(ByteAt(x, 5), 24),
                     Advance(ByteAt(x, 6), 16), Advance(ByteAt(x, 7), 8))
  {
    hide Xor32, Advance, Crc, LittleEndian, ByteAt, XorEight;
    CrcEight(crc, s);
    WordHalves(crc, s);
    var lo, hi := Xor32(crc, LittleEndian(s[..4])), LittleEndian(s[4..]);
    BytesOfHalves(lo, hi);
    assert ByteAt(x, 4) == ByteAt(x, 4 + 0) && ByteAt(x, 5) == ByteAt(x, 4 + 1);
    assert ByteAt(x, 6) == ByteAt(x, 4 + 2) && ByteAt(x, 7) == ByteAt(x, 4 + 3);
    PeelWord(lo, 32);
    PeelWord(hi, 0);
    XorEightHalves(Advance(ByteAt(lo, 0), 64), Advance(ByteAt(lo, 1), 56),
                   Advance(ByteAt(lo, 2), 48), Advance(ByteAt(lo, 3), 40),
                   Advance(ByteAt(hi, 0), 32), Advance(ByteAt(hi, 1), 24),
                   Advance(ByteAt(hi, 2), 16), Advance(ByteAt(hi, 3), 8));
  }

  /** The body of the slicing loop: eight lookups for eight bytes. */
  method SliceEight(table: array2<uint32>, crc: uint32, s: seq<byte>) returns (r: uint32)
    requires SlicingTable(table) && |s| == 8
    ensures r == Crc(crc, s)
  {
    hide Xor, Advance, Crc, LittleEndian, ByteAt;
    var x := Xor(crc, LittleEndian(s));
    r := XorEight(table[7, ByteAt(x, 0)], table[6, ByteAt(x, 1)],
                  table[5, ByteAt(x, 2)], table[4, ByteAt(x, 3)],
                  table[3, ByteAt(x, 4)], table[2, ByteAt(x, 5)],
                  table[1, ByteAt(x, 6)], table[0, ByteAt(x, 7)]);
    EightTerms(crc, s, x);
  }

  lemma CrcSnoc(c: uint32, s: seq<byte>, i: nat, j: nat)
    requires i <= j <= |s|
    ensures Crc(c, s[..j]) == Crc(Crc(c, s[..i]), s[i..j])
  {
    hide Crc;
    CrcConcat(c, s[..i], s[i..j]);
    assert s[..j] == s[..i] + s[i..j];
  }

  lemma CrcOneByte(c: uint32, s: seq<byte>, i: nat)
    requires i < |s|
    ensures Crc(c, s[..i + 1]) == CrcByte(Crc(c, s[..i]), s[i])
  {
    hide CrcByte;
    CrcSnoc(c, s, i, i + 1);
    var t := s[i..i + 1];
    assert t == [s[i]] && t[1..] == [];
  }

  /**
    `crc32c_sw`: unaligned head, eight bytes at a time, tail.  `addr` is the address of
    the first byte, so the head loop runs until `addr + next` is a multiple of eight.
   */
  method Crc32cSw(table: array2<uint32>, crci: uint32, buf: seq<byte>, addr: nat) returns (r: uint32)
    requires SlicingTable(table)
    ensures r == Crc32c(crci, buf)
  {
    hide Xor, Advance, Crc, CrcByte;
    var init := Xor32(crci, ONES);
    var crc := init;
    var next: nat, len: nat := 0, |buf|;
    CrcNone(init);
    assert buf[..0] == [];
    while len != 0 && (addr + next) % 8 != 0
      invariant next + len == |buf|
      invariant crc == Crc(init, buf[..next])
    {
      TableByte(crc, buf[next]);
      CrcOneByte(init, buf, next);
      crc := Xor32(table[0, Xor32(crc, buf[next]) % 256], crc / 256);
      next, len := next + 1, len - 1;
    }
    while len >= 8
      invariant next + len == |buf|
      invariant crc == Crc(init, buf[..next])
    {
      CrcSnoc(init, buf, next, next + 8);
      crc := SliceEight(table, crc, buf[next..next + 8]);
      next, len := next + 8, len - 8;
    }
    while len != 0
      invariant next + len == |buf|
      invariant crc == Crc(init, buf[..next])
    {
      TableByte(crc, buf[next]);
      CrcOneByte(init, buf, next);
      crc := Xor32(table[0, Xor32(crc, buf[next]) % 256], crc / 256);
      next, len := next + 1, len - 1;
    }
    assert buf[..next] == buf;
    r := Xor32(crc, ONES);
  }
}
