/**
  Variable-length integers: the flat encoding read by `rd_slice_read_uvarint` in
  cbits/hs_rdbuf.c and written by `rd_uvarint_enc_u64` in cbits/hs_rdvarint.h.
 */
module Varint {
  import opened Bits

  /** Length of the varint at the front of `s`, or 0 when it is cut off. */
  function VarLen(s: seq<byte>): (n: nat)
    ensures n <= |s|
  {
    if s == [] then 0
    else if s[0] < 128 then 1
    else var n := VarLen(s[1..]); if n == 0 then 0 else n + 1
  }

  /** The number spelled by seven-bit groups, least significant first. */
  function Digits(s: seq<byte>): nat {
    if s == [] then 0 else s[0] % 128 + 128 * Digits(s[1..])
  }

  /** `rd_uvarint_enc_u64` into a large enough buffer. */
  function Encode(num: nat): (s: seq<byte>)
    ensures |s| >= 1
  {
    if num < 128 then [num] else [num % 128 + 128] + Encode(num / 128)
  }

  /** Whatever follows, an encoded number is read back in full. */
  lemma {:induction false} RoundTrip(num: nat, rest: seq<byte>)
    ensures VarLen(Encode(num) + rest) == |Encode(num)|
    ensures Digits(Encode(num)) == num
  {
    var s := Encode(num);
    if num < 128 {
      assert s[1..] == [];
    } else {
      RoundTrip(num / 128, rest);
      assert (s + rest)[1..] == Encode(num / 128) + rest;
      assert s[1..] == Encode(num / 128);
    }
  }

  /** A 64-bit number encodes to something the reader accepts and decodes to that number. */
  lemma RoundTrip64(num: uint64, rest: seq<byte>)
    ensures VarLen(Encode(num) + rest) == |Encode(num)| <= 10
    ensures Digits((Encode(num) + rest)[..|Encode(num)|]) % Pow2(64) == num
  {
    hide Pow2, Encode;
    RoundTrip(num, rest);
    Pow2Word();
    Pow2Monotone(64, 70);
    EncodeLength(num, 10);
    var s := Encode(num) + rest;
    assert s[..|Encode(num)|] == Encode(num);
    VarLenTerminates(s);
    SmallMod(num, Pow2(64));
  }

  lemma Pow2Word()
    ensures Pow2(64) == 0x1_0000_0000_0000_0000
  {
    Pow2Values();
    Pow2Add(32, 32);
  }

  lemma {:induction false} VarLenTerminates(s: seq<byte>)
    requires VarLen(s) > 0
    ensures s[VarLen(s) - 1] < 128
  {
    if s[0] >= 128 {
      VarLenTerminates(s[1..]);
    }
  }

  /** 64-bit numbers need at most ten bytes. */
  lemma {:induction false} EncodeLength(num: nat, k: nat)
    requires num < Pow2(7 * k) && k >= 1
    ensures |Encode(num)| <= k
    decreases k
  {
    if num >= 128 {
      Pow2Add(7, 7 * (k - 1));
      assert Pow2(7) == 128;
      assert k >= 2 && num / 128 < Pow2(7 * (k - 1));
      EncodeLength(num / 128, k - 1);
    }
  }

  lemma {:induction false} DigitsSnoc(s: seq<byte>, o: byte)
    ensures Digits(s + [o]) == Digits(s) + Pow2(7 * |s|) * (o % 128)
  {
    if s == [] {
      assert s + [o] == [o] && [o][1..] == [];
    } else {
      hide Pow2;
      DigitsSnoc(s[1..], o);
      assert (s + [o])[1..] == s[1..] + [o];
      var k := 7 * |s[1..]|;
      Pow2Add(7, k);
      SevenBits();
      MulAssoc(128, Pow2(k), o % 128);
    }
  }

  lemma SevenBits()
    ensures Pow2(7) == 128
  {}

  lemma {:induction false} DigitsBound(s: seq<byte>)
    ensures Digits(s) < Pow2(7 * |s|)
  {
    if s != [] {
      hide Pow2;
      DigitsBound(s[1..]);
      Pow2Add(7, 7 * |s[1..]|);
      SevenBits();
    } else {
      assert Pow2(0) == 1;
    }
  }

  /** The bytes before a terminator all have their continuation bit set. */
  ghost predicate Continues(s: seq<byte>) {
    forall i :: 0 <= i < |s| ==> s[i] >= 128
  }

  lemma {:induction false} VarLenFound(s: seq<byte>, k: nat)
    requires k < |s| && Continues(s[..k]) && s[k] < 128
    ensures VarLen(s) == k + 1
    decreases k
  {
    if k != 0 {
      assert s[0] == s[..k][0] && s[1..][..k - 1] == s[..k][1..];
      VarLenFound(s[1..], k - 1);
    }
  }

  lemma {:induction false} VarLenNone(s: seq<byte>)
    requires Continues(s)
    ensures VarLen(s) == 0
  {
    if s != [] {
      VarLenNone(s[1..]);
    }
  }

  /** One group is or-ed into a 64-bit accumulator; only the tenth can lose bits. */
  lemma OrGroup(num: nat, k: nat, d: nat)
    requires k <= 9 && num < Pow2(7 * k) && d < 128
    ensures Or(num, Pow2(7 * k) * d % Pow2(64)) == (num + Pow2(7 * k) * d) % Pow2(64)
  {
    hide Pow2, Or;
    var sh := 7 * k;
    Pow2Add(sh, 64 - sh);
    var p, q := Pow2(sh), Pow2(64 - sh);
    ModScale(p, d, q);
    OrDisjoint(num, d % q, sh);
    ModSum(num, p, d, q);
  }

  // ------------------------------------------------------------------ zig-zag

  /** `(num << 1) ^ (num >> 63)` as an unsigned number. */
  function ZigZag(num: int): nat {
    if num >= 0 then 2 * num else -2 * num - 1
  }

  /** `(unum >> 1) ^ -(unum & 1)` as a signed number. */
  function UnZigZag(unum: nat): int {
    if unum % 2 == 0 then unum / 2 else -(unum / 2) - 1
  }

  lemma Halves(k: nat)
    ensures (2 * k) % 2 == 0 && (2 * k) / 2 == k && (2 * k + 1) % 2 == 1 && (2 * k + 1) / 2 == k
  {}

  lemma ZigZagBack(num: int)
    ensures UnZigZag(ZigZag(num)) == num
  {
    Halves(if num >= 0 then num else -num - 1);
  }

  /** Even codes stand for the numbers from 0 up, odd ones for those from -1 down. */
  lemma ZigZagRoundTrip(num: int, unum: nat)
    ensures UnZigZag(ZigZag(num)) == num && ZigZag(UnZigZag(unum)) == unum
    ensures unum % 2 == 0 ==> 2 * UnZigZag(unum) == unum
    ensures unum % 2 == 1 ==> -2 * UnZigZag(unum) == unum + 1
    ensures -0x8000_0000_0000_0000 <= num < 0x8000_0000_0000_0000 <==> ZigZag(num) < 0x1_0000_0000_0000_0000
  {
    ZigZagBack(num);
    Halves(unum / 2);
  }
}
