/**
  Unicode in cbits/hs_cJSON.c: hexadecimal escapes, surrogate pairs (section 2.2 of
  RFC 2781) and the UTF-8 encoding (section 3 of RFC 3629), with the bit operations by
  which the code computes them.
 */
module Utf8 {
  import opened Bits

  // ------------------------------------------------------------------ bit operations

  /** Bitwise and. */
  function And(a: nat, b: nat): nat
    decreases a + b
  {
    if a == 0 || b == 0 then 0
    else (if a % 2 == 1 && b % 2 == 1 then 1 else 0) + 2 * And(a / 2, b / 2)
  }

  lemma {:induction false} AndBits(a: nat, b: nat)
    ensures And(a, b) == (if a % 2 == 1 && b % 2 == 1 then 1 else 0) + 2 * And(a / 2, b / 2)
  {}

  lemma ModTwice(x: nat, p: nat)
    requires p >= 1
    ensures x % (2 * p) == x % 2 + 2 * ((x / 2) % p)
  {
    ModSum(x % 2, 2, x / 2, p);
  }

  /** Keeping the low `k` bits. */
  lemma {:induction false} AndMask(x: nat, k: nat)
    ensures And(x, Pow2(k) - 1) == x % Pow2(k)
  {
    if k != 0 {
      hide And;
      var p := Pow2(k - 1);
      assert Pow2(k) == 2 * p;
      AndBits(x, 2 * p - 1);
      AndMask(x / 2, k - 1);
      ModTwice(x, p);
    }
  }

  /** Setting bit `k + 1`, clearing bit `k`, keeping those below. */
  lemma {:induction false} MarkBits(x: nat, k: nat)
    ensures And(Or(x, Pow2(k + 1)), Pow2(k + 1) + Pow2(k) - 1) == Pow2(k + 1) + x % Pow2(k)
  {
    hide And, Or, Pow2;
    if k == 0 {
      Pow2Units();
      MarkBase(x);
    } else {
      var r := Pow2(k - 1);
      Pow2Double(k - 1);
      Pow2Double(k);
      MarkBits(x / 2, k - 1);
      MarkStep(x, r);
    }
  }

  lemma MarkBase(x: nat)
    ensures And(Or(x, 2), 2) == 2
  {
    hide And, Or;
    OrBits(x, 2);
    AndBits(Or(x, 2), 2);
    LowPair(x / 2);
  }

  lemma Pow2Units()
    ensures Pow2(0) == 1 && Pow2(1) == 2
  {}

  lemma MarkStep(x: nat, r: nat)
    requires r >= 1 && And(Or(x / 2, 2 * r), 2 * r + r - 1) == 2 * r + (x / 2) % r
    ensures And(Or(x, 4 * r), 4 * r + 2 * r - 1) == 4 * r + x % (2 * r)
  {
    hide And, Or;
    OrBits(x, 4 * r);
    AndBits(Or(x, 4 * r), 4 * r + 2 * r - 1);
    ModTwice(x, r);
  }

  lemma LowPair(y: nat)
    ensures And(Or(y, 1), 1) == 1
  {
    hide And, Or;
    OrBits(y, 1);
    AndBits(Or(y, 1), 1);
    AndNone(Or(y, 1) / 2);
  }

  lemma AndNone(y: nat)
    ensures And(y, 0) == 0
  {}

  // ------------------------------------------------------------------ the encoding

  /** Code points, as section 2.2 of RFC 2781 bounds them. */
  type CodePoint = u: nat | u <= 0x10FFFF

  /** The table of section 3 of RFC 3629. */
  function Encode(u: CodePoint): (s: seq<byte>)
    ensures 1 <= |s| <= 4
  {
    if u < 0x80 then [u]
    else if u < 0x800 then [0xC0 + u / 64, 0x80 + u % 64]
    else if u < 0x10000 then [0xE0 + u / 4096, 0x80 + u / 64 % 64, 0x80 + u % 64]
    else [0xF0 + u / 262144, 0x80 + u / 4096 % 64, 0x80 + u / 64 % 64, 0x80 + u % 64]
  }

  predicate Continuation(b: byte) {
    0x80 <= b < 0xC0
  }

  /** The payload of a byte past its marker. */
  function Payload(b: byte, marker: nat): int {
    b - marker
  }

  /** Reads one encoded code point; overlong forms and stray bytes are refused. */
  function Decode(s: seq<byte>): (u: int) {
    if |s| == 1 && s[0] < 0x80 then s[0]
    else if |s| == 2 && 0xC2 <= s[0] < 0xE0 && Continuation(s[1]) then
      Append64(Payload(s[0], 0xC0), s[1])
    else if |s| == 3 && 0xE0 <= s[0] < 0xF0 && Continuation(s[1]) && Continuation(s[2]) then
      var v := Append64(Append64(Payload(s[0], 0xE0), s[1]), s[2]);
      if v >= 0x800 then v else -1
    else if |s| == 4 && 0xF0 <= s[0] < 0xF5 && Continuation(s[1]) && Continuation(s[2]) && Continuation(s[3]) then
      var v := Append64(Append64(Append64(Payload(s[0], 0xF0), s[1]), s[2]), s[3]);
      if 0x10000 <= v <= 0x10FFFF then v else -1
    else -1
  }

  /** One more continuation byte. */
  function Append64(v: int, b: byte): int {
    v * 64 + Payload(b, 0x80)
  }

  lemma DivDiv(u: nat)
    ensures u / 64 / 64 == u / 4096 && u / 64 / 64 / 64 == u / 262144
  {}

  lemma Digits64(a: nat, b: byte)
    requires Continuation(b)
    ensures Append64(a, b) >= 0 && Append64(a, b) / 64 == a && Append64(a, b) % 64 == b - 0x80
  {}

  lemma Undigit64(u: nat)
    ensures Append64(u / 64, 0x80 + u % 64) == u
  {}

  /** Decoding inverts encoding. */
  lemma EncodeDecodes(u: CodePoint)
    ensures Decode(Encode(u)) == u
  {
    hide Append64;
    DivDiv(u);
    Undigit64(u);
    Undigit64(u / 64);
    Undigit64(u / 64 / 64);
  }

  /** And encoding inverts decoding: the encoding of a code point is the only one. */
  lemma DecodeEncodes(s: seq<byte>)
    requires Decode(s) >= 0
    ensures Decode(s) <= 0x10FFFF && Encode(Decode(s)) == s
  {
    hide Append64;
    var u := Decode(s);
    if |s| == 2 {
      Digits64(Payload(s[0], 0xC0), s[1]);
    } else if |s| == 3 {
      var x := Append64(Payload(s[0], 0xE0), s[1]);
      Digits64(Payload(s[0], 0xE0), s[1]);
      Digits64(x, s[2]);
      DivDiv(u);
    } else if |s| == 4 {
      var x := Append64(Payload(s[0], 0xF0), s[1]);
      Digits64(Payload(s[0], 0xF0), s[1]);
      Digits64(x, s[2]);
      Digits64(Append64(x, s[2]), s[3]);
      DivDiv(u);
    }
    AppendRange(s);
  }

  lemma AppendRange(s: seq<byte>)
    requires Decode(s) >= 0
    ensures |s| == 2 ==> 0x80 <= Decode(s) < 0x800
    ensures |s| == 3 ==> 0x800 <= Decode(s) < 0x10000
  {}

  // ------------------------------------------------------------------ surrogates

  predicate HighSurrogate(w: nat) {
    0xD800 <= w <= 0xDBFF
  }

  predicate LowSurrogate(w: nat) {
    0xDC00 <= w <= 0xDFFF
  }

  /** The two 16-bit units of a code point past the first plane. */
  function Surrogates(u: CodePoint): (nat, nat)
    requires u >= 0x10000
  {
    (0xD800 + (u - 0x10000) / 1024, 0xDC00 + (u - 0x10000) % 1024)
  }

  /** The two ranges are exactly the units that code points past the first plane split into. */
  lemma SurrogateRanges(w: nat)
    ensures HighSurrogate(w) <==> exists u: CodePoint :: u >= 0x10000 && Surrogates(u).0 == w
    ensures LowSurrogate(w) <==> exists u: CodePoint :: u >= 0x10000 && Surrogates(u).1 == w
  {
    if HighSurrogate(w) {
      var u: CodePoint := 0x10000 + (w - 0xD800) * 1024;
      assert Surrogates(u).0 == w;
    }
    if LowSurrogate(w) {
      var u: CodePoint := 0x10000 + (w - 0xDC00);
      assert Surrogates(u).1 == w;
    }
  }

  /** The code's combination of two surrogates. */
  function Combine(first: nat, second: nat): nat {
    0x10000 + Or(And(first, 0x3FF) * 1024, And(second, 0x3FF))
  }

  /** Combining is the inverse of splitting, on surrogates. */
  lemma CombineSplits(first: nat, second: nat)
    requires HighSurrogate(first) && LowSurrogate(second)
    ensures 0x10000 <= Combine(first, second) <= 0x10FFFF
    ensures Surrogates(Combine(first, second)) == (first, second)
  {
    hide And, Or, Pow2;
    MaskTen();
    AndMask(first, 10);
    AndMask(second, 10);
    OrSwap(first % 1024 * 1024, second % 1024);
    OrDisjoint(second % 1024, first % 1024, 10);
    Digits1024(first % 1024, second % 1024);
  }

  lemma SplitCombines(u: CodePoint)
    requires u >= 0x10000
    ensures var (first, second) := Surrogates(u);
      HighSurrogate(first) && LowSurrogate(second) && Combine(first, second) == u
  {
    hide And, Or;
    var (first, second) := Surrogates(u);
    CombineSplits(first, second);
    Digits1024((u - 0x10000) / 1024, (u - 0x10000) % 1024);
  }

  lemma MaskTen()
    ensures Pow2(10) == 1024
  {}

  lemma Digits1024(a: nat, b: nat)
    requires b < 1024
    ensures (a * 1024 + b) / 1024 == a && (a * 1024 + b) % 1024 == b
  {}

  lemma {:induction false} OrSwap(a: nat, b: nat)
    ensures Or(a, b) == Or(b, a)
    decreases a + b
  {
    if a != 0 && b != 0 {
      OrSwap(a / 2, b / 2);
    }
  }

  // ------------------------------------------------------------------ escapes

  /** The byte that stands for a character of the basic Latin block. */
  function Ascii(ch: char): byte
    requires ch < 128 as char
  {
    ch as int
  }

  const LowerDigits := "0123456789abcdef"
  const UpperDigits := "0123456789ABCDEF"

  /** The byte is the hexadecimal digit `d`, in either case. */
  predicate HexForm(b: byte, d: nat)
    requires d < 16
  {
    b == LowerDigits[d] as int || b == UpperDigits[d] as int
  }

  /** The value of a hexadecimal digit, or -1. */
  function HexDigit(b: byte): (d: int)
    ensures -1 <= d < 16
  {
    if 48 <= b <= 57 then b - 48
    else if 65 <= b <= 70 then 10 + (b - 65)
    else if 97 <= b <= 102 then 10 + (b - 97)
    else -1
  }

  /** The lower-case digit, as `%x` prints it. */
  function LowerHex(d: nat): byte
    requires d < 16
  {
    if d < 10 then 48 + d else 87 + d
  }

  /** Reading a digit gives `d` exactly for its two forms, and -1 exactly for other bytes. */
  lemma HexDigitExact(b: byte, d: nat)
    requires d < 16
    ensures HexDigit(b) == d <==> HexForm(b, d)
    ensures LowerHex(d) == LowerDigits[d] as int
  {
    DigitForms(d);
  }

  lemma DigitForms(d: nat)
    requires d < 16
    ensures LowerDigits[d] as int == if d < 10 then 48 + d else 87 + d
    ensures UpperDigits[d] as int == if d < 10 then 48 + d else 55 + d
  {
    if d < 8 {
      if d == 0 {} else if d == 1 {} else if d == 2 {} else if d == 3 {} else if d == 4 {} else if d == 5 {} else if d == 6 {}
    } else if d == 8 {} else if d == 9 {} else if d == 10 {} else if d == 11 {} else if d == 12 {} else if d == 13 {} else if d == 14 {}
  }

  /** `parse_hex4`: four hexadecimal digits, or 0 when one of them is none. */
  function Hex4(c: seq<byte>, p: nat): (h: nat)
    requires p + 4 <= |c|
    ensures h <= 0xFFFF
  {
    if HexDigit(c[p]) < 0 || HexDigit(c[p + 1]) < 0 || HexDigit(c[p + 2]) < 0 || HexDigit(c[p + 3]) < 0 then 0
    else HexDigit(c[p]) * 4096 + HexDigit(c[p + 1]) * 256 + HexDigit(c[p + 2]) * 16 + HexDigit(c[p + 3])
  }

  datatype Literal = NotLiteral | Literal(length: nat, code: CodePoint)

  /** `utf16_literal_to_utf8`, up to the encoding: one or two escapes at `p`, before `end`. */
  function LiteralAt(c: seq<byte>, p: nat, end: nat): (r: Literal)
    requires p <= end <= |c|
    ensures r.Literal? ==> p + r.length <= end
    ensures r.Literal? ==> (r.length == 6 && r.code <= 0xFFFF) || (r.length == 12 && r.code >= 0x10000)
    ensures r.Literal? ==> !HighSurrogate(r.code) && !LowSurrogate(r.code)
  {
    if end - p < 6 then NotLiteral
    else
      var first := Hex4(c, p + 2);
      if LowSurrogate(first) then NotLiteral
      else if HighSurrogate(first) then
        if end - (p + 6) < 6 then NotLiteral
        else if c[p + 6] != 92 || c[p + 7] != 117 then NotLiteral
        else
          var second := Hex4(c, p + 8);
          if !LowSurrogate(second) then NotLiteral
          else
            CombineSplits(first, second);
            Literal(12, Combine(first, second))
      else Literal(6, first)
  }

  /** The four bytes at `p` are the hexadecimal digits of `w`, each in either case. */
  ghost predicate HexWord(c: seq<byte>, p: nat, w: nat) {
    p + 4 <= |c| && w < 0x10000
    && HexForm(c[p], w / 4096) && HexForm(c[p + 1], w / 256 % 16) && HexForm(c[p + 2], w / 16 % 16) && HexForm(c[p + 3], w % 16)
  }

  /** The byte is no hexadecimal digit. */
  ghost predicate NoDigit(b: byte) {
    forall d: nat :: d < 16 ==> !HexForm(b, d)
  }

  lemma NoDigitExact(b: byte)
    ensures HexDigit(b) < 0 <==> NoDigit(b)
  {
    hide HexForm, HexDigit;
    forall d: nat | d < 16 ensures HexDigit(b) == d <==> HexForm(b, d) {
      HexDigitExact(b, d);
    }
    if HexDigit(b) >= 0 {
      assert HexForm(b, HexDigit(b));
    }
  }

  /** `parse_hex4` gives `w` exactly for its four digits, and otherwise 0. */
  lemma Hex4Exact(c: seq<byte>, p: nat, w: nat)
    requires p + 4 <= |c|
    ensures HexWord(c, p, w) ==> Hex4(c, p) == w
    ensures (forall k :: p <= k < p + 4 ==> !NoDigit(c[k])) ==> HexWord(c, p, Hex4(c, p))
    ensures (exists k :: p <= k < p + 4 && NoDigit(c[k])) ==> Hex4(c, p) == 0
  {
    hide HexForm, HexDigit, NoDigit;
    NoDigitExact(c[p]);
    NoDigitExact(c[p + 1]);
    NoDigitExact(c[p + 2]);
    NoDigitExact(c[p + 3]);
    if HexWord(c, p, w) {
      HexDigitExact(c[p], w / 4096);
      HexDigitExact(c[p + 1], w / 256 % 16);
      HexDigitExact(c[p + 2], w / 16 % 16);
      HexDigitExact(c[p + 3], w % 16);
      FourDigits(w);
    }
    if forall k :: p <= k < p + 4 ==> !NoDigit(c[k]) {
      ReadWord(c, p);
    }
  }

  lemma ReadWord(c: seq<byte>, p: nat)
    requires p + 4 <= |c|
    requires HexDigit(c[p]) >= 0 && HexDigit(c[p + 1]) >= 0 && HexDigit(c[p + 2]) >= 0 && HexDigit(c[p + 3]) >= 0
    ensures HexWord(c, p, Hex4(c, p))
  {
    hide HexForm, HexDigit;
    HexDigitExact(c[p], HexDigit(c[p]));
    HexDigitExact(c[p + 1], HexDigit(c[p + 1]));
    HexDigitExact(c[p + 2], HexDigit(c[p + 2]));
    HexDigitExact(c[p + 3], HexDigit(c[p + 3]));
    JoinDigits(HexDigit(c[p]), HexDigit(c[p + 1]), HexDigit(c[p + 2]), HexDigit(c[p + 3]));
  }

  lemma Quotient16(q: nat, r: nat)
    requires r < 16
    ensures (16 * q + r) / 16 == q && (16 * q + r) % 16 == r
  {}

  lemma Quotient256(q: nat, r: nat)
    requires r < 256
    ensures (256 * q + r) / 256 == q
  {}

  lemma Quotient4096(q: nat, r: nat)
    requires r < 4096
    ensures (4096 * q + r) / 4096 == q
  {}

  lemma FourDigits(w: nat)
    requires w < 0x10000
    ensures w == w / 4096 * 4096 + w / 256 % 16 * 256 + w / 16 % 16 * 16 + w % 16
  {
    var x := w / 16;
    var y := x / 16;
    var z := y / 16;
    var b, c, d := y % 16, x % 16, w % 16;
    Quotient256(y, 16 * c + d);
    Quotient4096(z, 256 * b + 16 * c + d);
  }

  lemma JoinDigits(a: nat, b: nat, c: nat, d: nat)
    requires a < 16 && b < 16 && c < 16 && d < 16
    ensures var w := a * 4096 + b * 256 + c * 16 + d;
      w < 0x10000 && w / 4096 == a && w / 256 % 16 == b && w / 16 % 16 == c && w % 16 == d
  {
    Quotient16(a, b);
    Quotient16(16 * a + b, c);
    Quotient16(256 * a + 16 * b + c, d);
    Quotient256(16 * a + b, 16 * c + d);
    Quotient4096(a, 256 * b + 16 * c + d);
  }

  /** A backslash, the letter u and the four digits of `w`. */
  ghost predicate Spells(c: seq<byte>, p: nat, w: nat) {
    p + 6 <= |c| && c[p] == Ascii('\\') && c[p + 1] == Ascii('u') && HexWord(c, p + 2, w)
  }

  /** An escape is well formed when it spells a code point of the first plane or a surrogate pair. */
  ghost predicate WellFormed(c: seq<byte>, p: nat, u: CodePoint) {
    if u < 0x10000 then !HighSurrogate(u) && !LowSurrogate(u) && Spells(c, p, u)
    else var (first, second) := Surrogates(u); Spells(c, p, first) && Spells(c, p + 6, second)
  }

  /** A well-formed escape denotes its code point. */
  lemma WellFormedLiteral(c: seq<byte>, p: nat, end: nat, u: CodePoint)
    requires WellFormed(c, p, u)
    requires p + (if u < 0x10000 then 6 else 12) <= end <= |c|
    ensures LiteralAt(c, p, end) == Literal(if u < 0x10000 then 6 else 12, u)
  {
    hide And, Or, Combine, Hex4, HexWord, Surrogates;
    if u >= 0x10000 {
      SplitCombines(u);
      var (first, second) := Surrogates(u);
      Hex4Exact(c, p + 2, first);
      Hex4Exact(c, p + 8, second);
    } else {
      Hex4Exact(c, p + 2, u);
    }
  }

  /** How long the escape of a code point is. */
  function EscapeLength(u: CodePoint): nat {
    if u < 0x10000 then 6 else 12
  }

  /** The text at `p` is a well-formed escape of `u` that ends in time. */
  ghost predicate Denotes(c: seq<byte>, p: nat, end: nat, u: CodePoint) {
    WellFormed(c, p, u) && p + EscapeLength(u) <= end
  }

  /** One of the first four digits is none. */
  ghost predicate BadGroup(c: seq<byte>, p: nat)
    requires p + 6 <= |c|
  {
    exists i :: p + 2 <= i < p + 6 && NoDigit(c[i])
  }

  lemma BadGroupIsZero(c: seq<byte>, p: nat)
    requires p + 6 <= |c|
    ensures BadGroup(c, p) ==> Hex4(c, p + 2) == 0
    ensures !BadGroup(c, p) && c[p] == 92 && c[p + 1] == 117 ==> Spells(c, p, Hex4(c, p + 2))
  {
    hide Hex4, HexWord, NoDigit;
    Hex4Exact(c, p + 2, 0);
  }

  /**
    Exactly which escapes are read: the well-formed ones, as their code point; and those
    with a bad digit in the first group, as zero.
   */
  lemma LiteralExact(c: seq<byte>, p: nat, end: nat)
    requires p + 2 <= |c| && p <= end <= |c| && c[p] == 92 && c[p + 1] == 117
    ensures p + 6 <= end && BadGroup(c, p) ==> LiteralAt(c, p, end) == Literal(6, 0)
    ensures !(p + 6 <= end && BadGroup(c, p)) ==>
      forall u: CodePoint :: LiteralAt(c, p, end) == Literal(EscapeLength(u), u) <==> Denotes(c, p, end, u)
    ensures LiteralAt(c, p, end).Literal? <==> (p + 6 <= end && BadGroup(c, p)) || exists u: CodePoint :: Denotes(c, p, end, u)
  {
    hide Combine, Surrogates, WellFormed, Hex4, LiteralAt, BadGroup;
    if p + 6 <= end {
      BadGroupIsZero(c, p);
    }
    forall u: CodePoint | Denotes(c, p, end, u) ensures LiteralAt(c, p, end) == Literal(EscapeLength(u), u) {
      WellFormedLiteral(c, p, end, u);
    }
    if p + 6 <= end && BadGroup(c, p) {
      ZeroLiteral(c, p, end);
    } else if LiteralAt(c, p, end).Literal? {
      ReadDenotes(c, p, end);
    }
  }

  lemma ZeroLiteral(c: seq<byte>, p: nat, end: nat)
    requires p + 6 <= end <= |c| && Hex4(c, p + 2) == 0
    ensures LiteralAt(c, p, end) == Literal(6, 0)
  {
    hide Combine, Hex4;
  }

  /** With good digits, what is read is what is spelled. */
  lemma ReadDenotes(c: seq<byte>, p: nat, end: nat)
    requires p + 2 <= |c| && p <= end <= |c| && c[p] == 92 && c[p + 1] == 117
    requires LiteralAt(c, p, end).Literal? && p + 6 <= end && !BadGroup(c, p)
    ensures Denotes(c, p, end, LiteralAt(c, p, end).code)
    ensures LiteralAt(c, p, end).length == EscapeLength(LiteralAt(c, p, end).code)
  {
    hide Combine, Surrogates, Hex4, HexWord, NoDigit;
    BadGroupIsZero(c, p);
    var first := Hex4(c, p + 2);
    if HighSurrogate(first) {
      BadGroupIsZero(c, p + 6);
      assert Hex4(c, p + 8) != 0;
      CombineSplits(first, Hex4(c, p + 8));
    }
  }
}
