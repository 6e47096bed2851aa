/**
  The hardware path of cbits/hs_crc32c.c: three independent CRC streams over adjacent
  blocks, stitched together with the zero-shift tables, and the process-wide dispatch.
  The `crc32b` and `crc32q` instructions are the byte and eight-byte CRC updates.
 */
module Crc32cHw {
  import opened Bits
  import opened Crc32cSpec
  import opened Crc32cZeros
  import Crc32cFast

  const LONG := 8192
  const SHORT := 256

  /** The `crc32b` instruction. */
  function InstrB(c: uint32, b: byte): uint32 {
    CrcByte(c, b)
  }

  /** The `crc32q` instruction. */
  function InstrQ(c: uint32, w: seq<byte>): uint32
    requires |w| == 8
  {
    Crc(c, w)
  }

  lemma CrcRange(c: uint32, s: seq<byte>, i: nat, j: nat, k: nat)
    requires i <= j <= k <= |s|
    ensures Crc(Crc(c, s[i..j]), s[j..k]) == Crc(c, s[i..k])
  {
    hide Crc;
    CrcConcat(c, s[i..j], s[j..k]);
    assert s[i..j] + s[j..k] == s[i..k];
  }

  /** Three blocks of `block` bytes from `start`, eight bytes of each per turn. */
  method Interleave(zeros: array2<uint32>, block: nat, crc: uint32, buf: seq<byte>, start: nat)
    returns (r: uint32)
    requires block > 0 && block % 8 == 0 && start + 3 * block <= |buf|
    requires ShiftTable(zeros, 8 * block)
    ensures r == Crc(crc, buf[start..start + 3 * block])
  {
    hide Xor, Advance, Crc;
    var crc0: uint32, crc1: uint32, crc2: uint32 := crc, 0, 0;
    var next, end := start, start + block;
    CrcNone(crc);
    CrcNone(0);
    assert buf[start..start] == [];
    assert buf[start + block..start + block] == [];
    assert buf[start + 2 * block..start + 2 * block] == [];
    while true
      invariant start <= next < end && (next - start) % 8 == 0
      invariant crc0 == Crc(crc, buf[start..next])
      invariant crc1 == Crc(0, buf[start + block..next + block])
      invariant crc2 == Crc(0, buf[start + 2 * block..next + 2 * block])
      decreases end - next
    {
      CrcRange(crc, buf, start, next, next + 8);
      CrcRange(0, buf, start + block, next + block, next + block + 8);
      CrcRange(0, buf, start + 2 * block, next + 2 * block, next + 2 * block + 8);
      crc0 := InstrQ(crc0, buf[next..next + 8]);
      crc1 := InstrQ(crc1, buf[next + block..next + block + 8]);
      crc2 := InstrQ(crc2, buf[next + 2 * block..next + 2 * block + 8]);
      next := next + 8;
      if !(next < end) {
        break;
      }
    }
    ghost var a, b := buf[start..start + block], buf[start + block..start + 2 * block];
    ghost var d := buf[start + 2 * block..start + 3 * block];
    ThreeWay(crc, a, b, d);
    assert a + b + d == buf[start..start + 3 * block];
    r := Shift(zeros, crc0, 8 * block);
    r := Xor32(r, crc1);
    r := Shift(zeros, r, 8 * block);
    r := Xor32(r, crc2);
  }

  /** `crc32c_hw` */
  method Crc32cHardware(longZeros: array2<uint32>, shortZeros: array2<uint32>,
                        crc: uint32, buf: seq<byte>, addr: nat) returns (r: uint32)
    requires ShiftTable(longZeros, 8 * LONG) && ShiftTable(shortZeros, 8 * SHORT)
    ensures r == Crc32c(crc, buf)
  {
    hide Xor, Crc, CrcByte, ShiftTable;
    var init := Xor32(crc, ONES);
    var crc0 := init;
    var next: nat, len: nat := 0, |buf|;
    CrcNone(init);
    assert buf[..0] == [];
    while len != 0 && (addr + next) % 8 != 0
      invariant next + len == |buf|
      invariant crc0 == Crc(init, buf[..next])
    {
      Crc32cFast.CrcOneByte(init, buf, next);
      crc0 := InstrB(crc0, buf[next]);
      next, len := next + 1, len - 1;
    }
    while len >= LONG * 3
      invariant next + len == |buf|
      invariant crc0 == Crc(init, buf[..next])
    {
      Crc32cFast.CrcSnoc(init, buf, next, next + 3 * LONG);
      crc0 := Interleave(longZeros, LONG, crc0, buf, next);
      next, len := next + LONG * 3, len - LONG * 3;
    }
    while len >= SHORT * 3
      invariant next + len == |buf|
      invariant crc0 == Crc(init, buf[..next])
    {
      Crc32cFast.CrcSnoc(init, buf, next, next + 3 * SHORT);
      crc0 := Interleave(shortZeros, SHORT, crc0, buf, next);
      next, len := next + SHORT * 3, len - SHORT * 3;
    }
    var end := next + (len - len % 8);
    while next < end
      invariant next <= end <= |buf| && (end - next) % 8 == 0
      invariant crc0 == Crc(init, buf[..next])
    {
      Crc32cFast.CrcSnoc(init, buf, next, next + 8);
      crc0 := InstrQ(crc0, buf[next..next + 8]);
      next := next + 8;
    }
    len := len % 8;
    while len != 0
      invariant next + len == |buf|
      invariant crc0 == Crc(init, buf[..next])
    {
      Crc32cFast.CrcOneByte(init, buf, next);
      crc0 := InstrB(crc0, buf[next]);
      next, len := next + 1, len - 1;
    }
    assert buf[..next] == buf;
    r := Xor32(crc0, ONES);
  }

  lemma BlockSizes()
    ensures FloorPow2(LONG) == LONG && FloorPow2(SHORT) == SHORT
  {
    hide FloorPow2;
    Pow2Values();
    Pow2Add(8, 5);
    assert Pow2(5) == 32 && Pow2(13) == LONG;
    FloorPow2OfPower(13);
    FloorPow2OfPower(8);
  }

  /** The process-wide tables and the cached processor feature. */
  class Engine {
    var sse42: bool
    const table: array2<uint32>
    const longZeros: array2<uint32>
    const shortZeros: array2<uint32>

    ghost predicate Ready()
      reads this, table, longZeros, shortZeros
    {
      if sse42
      then ShiftTable(longZeros, 8 * LONG) && ShiftTable(shortZeros, 8 * SHORT)
      else Crc32cFast.SlicingTable(table)
    }

    /** `rd_crc32c_global_init`, with the outcome of the processor query given. */
    constructor (haveSse42: bool)
      ensures Ready() && sse42 == haveSse42
    {
      var t := new uint32[8, 256]((_, _) => 0);
      var l := new uint32[4, 256]((_, _) => 0);
      var s := new uint32[4, 256]((_, _) => 0);
      BlockSizes();
      if haveSse42 {
        ZerosTables(l, LONG);
        ZerosTables(s, SHORT);
      } else {
        Crc32cFast.InitSw(t);
      }
      sse42, table, longZeros, shortZeros := haveSse42, t, l, s;
    }

    /** `rd_crc32c`: both paths compute the same bit-at-a-time CRC. */
    method Compute(crc: uint32, buf: seq<byte>, addr: nat) returns (r: uint32)
      requires Ready()
      ensures r == Crc32c(crc, buf)
    {
      if sse42 {
        r := Crc32cHardware(longZeros, shortZeros, crc, buf, addr);
      } else {
        r := Crc32cFast.Crc32cSw(table, crc, buf, addr);
      }
    }
  }
}
