/**
  The parser of cbits/hs_cJSON.c: a cursor over a terminated text, moved by mutually
  recursive methods, each proved against the parse function of the same name.
 */
module JsonParse {
  import opened Bits
  import opened Utf8
  import opened JsonSpec

  // ------------------------------------------------------------------ room for a string

  /** How many escapes the first pass starts before `to`, reading from `from`. */
  function Escapes(c: seq<byte>, from: nat, to: nat): nat
    decreases to - from
  {
    if from >= to || from >= |c| then 0
    else if c[from] == Backslash then 1 + Escapes(c, from + 2, to)
    else Escapes(c, from + 1, to)
  }

  /** One byte further, at most one more escape, and none unless it is a backslash. */
  lemma {:induction false} EscapesOne(c: seq<byte>, from: nat, p: nat)
    requires p < |c|
    ensures Escapes(c, from, p) <= Escapes(c, from, p + 1) <= Escapes(c, from, p) + (if c[p] == Backslash then 1 else 0)
    decreases p + 1 - from
  {
    if from < p {
      EscapesOne(c, if c[from] == Backslash then from + 2 else from + 1, p);
    }
  }

  /** Two bytes further, at most one more escape. */
  lemma {:induction false} EscapesTwo(c: seq<byte>, from: nat, p: nat)
    requires p + 1 < |c|
    ensures Escapes(c, from, p + 2) <= Escapes(c, from, p) + 1
    decreases p + 2 - from
  {
    if from < p {
      EscapesTwo(c, if c[from] == Backslash then from + 2 else from + 1, p);
    } else {
      assert Escapes(c, p + 1, p + 2) <= 1;
    }
  }

  lemma {:induction false} EscapesMany(c: seq<byte>, from: nat, p: nat, n: nat)
    requires p + 2 * n <= |c|
    ensures Escapes(c, from, p + 2 * n) <= Escapes(c, from, p) + n
    decreases n
  {
    hide Escapes;
    if n > 0 {
      EscapesMany(c, from, p, n - 1);
      EscapesTwo(c, from, p + 2 * (n - 1));
    }
  }

  /** A step of the second pass puts out no more than it takes in beyond escapes. */
  lemma ChunkFits(c: seq<byte>, from: nat, p: nat, end: nat)
    requires p < end < |c| && ChunkAt(c, p, end).Chunk?
    ensures var k := ChunkAt(c, p, end);
      |k.bytes| + Escapes(c, from, p + k.taken) <= Escapes(c, from, p) + k.taken
  {
    hide Escapes, LiteralAt;
    EscapesOne(c, from, p);
    if c[p] == Backslash {
      EscapesMany(c, from, p, 1);
      if c[p + 1] == 117 {
        var l := LiteralAt(c, p, end);
        EscapesMany(c, from, p, l.length / 2);
      }
    }
  }

  /** What is left of the room at `p`, up to one byte past the closing quote. */
  lemma {:induction false} Room(c: seq<byte>, from: nat, p: nat, end: nat)
    requires p <= end + 1 && end < |c|
    ensures p - Escapes(c, from, p) <= end + 1 - Escapes(c, from, end)
    decreases end + 1 - p
  {
    hide Escapes;
    if p == end + 1 {
      EscapesOne(c, from, end);
    } else if p < end {
      EscapesOne(c, from, p);
      Room(c, from, p + 1, end);
    }
  }

  /**
    For any input, the second pass puts out at most the number of bytes the first pass
    counted: from the opening quote to the closing one, less the escapes it skipped.
   */
  lemma StringFits(c: seq<byte>, start: nat, end: nat)
    requires start <= end < |c| && Unescape(c, start, end).Text?
    ensures |Unescape(c, start, end).bytes| <= end - start + 1 - Escapes(c, start, end)
  {
    RestFits(c, start, start, end);
  }

  lemma {:induction false} RestFits(c: seq<byte>, start: nat, p: nat, end: nat)
    requires start <= p <= end + 1 && end < |c| && Unescape(c, p, end).Text?
    ensures p - start - Escapes(c, start, p) + |Unescape(c, p, end).bytes| <= end - start + 1 - Escapes(c, start, end)
    decreases end + 1 - p
  {
    hide Escapes, ChunkAt;
    if p >= end {
      Room(c, start, p, end);
    } else {
      ChunkFits(c, start, p, end);
      RestFits(c, start, p + ChunkAt(c, p, end).taken, end);
    }
  }

  /** A well-formed escape or pair puts out the UTF-8 form of its code point. */
  lemma WellFormedChunk(c: seq<byte>, p: nat, end: nat, u: CodePoint)
    requires WellFormed(c, p, u) && p + (if u < 0x10000 then 6 else 12) <= end < |c|
    ensures ChunkAt(c, p, end) == Chunk(if u < 0x10000 then 6 else 12, Encode(u))
  {
    hide LiteralAt, Encode, Surrogates;
    WellFormedLiteral(c, p, end, u);
    WellFormedStart(c, p, u);
  }

  lemma WellFormedStart(c: seq<byte>, p: nat, u: CodePoint)
    requires WellFormed(c, p, u)
    ensures p + 1 < |c| && c[p] == Backslash && c[p + 1] == 117
  {}

  /**
    What a `\u` escape in a string puts out, exactly: the UTF-8 form of its code point when
    it is well formed, a zero byte when one of its first four digits is none, and
    otherwise it is refused.
   */
  lemma EscapeExact(c: seq<byte>, p: nat, end: nat)
    requires p < end < |c| && c[p] == Backslash && c[p + 1] == 117
    ensures p + 6 <= end && BadGroup(c, p) ==> ChunkAt(c, p, end) == Chunk(6, [0])
    ensures !(p + 6 <= end && BadGroup(c, p)) ==>
      forall u: CodePoint :: ChunkAt(c, p, end) == Chunk(EscapeLength(u), Encode(u)) <==> Denotes(c, p, end, u)
    ensures ChunkAt(c, p, end).BadChunk?
        <==> !(p + 6 <= end && BadGroup(c, p)) && forall u: CodePoint :: !Denotes(c, p, end, u)
  {
    hide LiteralAt, Encode, Denotes, BadGroup;
    LiteralExact(c, p, end);
    ZeroByte();
    forall u: CodePoint | ChunkAt(c, p, end) == Chunk(EscapeLength(u), Encode(u))
      ensures LiteralAt(c, p, end) == Literal(EscapeLength(u), u)
    {
      EncodeOnce(u, LiteralAt(c, p, end).code);
    }
  }

  lemma ZeroByte()
    ensures Encode(0) == [0]
  {}

  lemma EncodeOnce(u: CodePoint, v: CodePoint)
    requires Encode(u) == Encode(v)
    ensures u == v
  {
    hide Encode, Decode;
    EncodeDecodes(u);
    EncodeDecodes(v);
  }

  // ------------------------------------------------------------------ lists being built

  /** The list of `s`, continued by `tail`. */
  function Linked(s: seq<Value>, tail: Items): Items {
    if s == [] then tail else Item(s[0], Linked(s[1..], tail))
  }

  lemma {:induction false} LinkedSnoc(s: seq<Value>, v: Value, tail: Items)
    ensures Linked(s + [v], tail) == Linked(s, Item(v, tail))
  {
    if s != [] {
      assert (s + [v])[1..] == s[1..] + [v];
      LinkedSnoc(s[1..], v, tail);
    }
  }

  /** The outcome of a loop that has already linked `s`. */
  function AfterItems(s: seq<Value>, r: Parsed<Items>): Parsed<Items> {
    if r.Fail? then Fail else Done(Linked(s, r.value), r.end)
  }

  function Joined(s: seq<(seq<byte>, Value)>, tail: Members): Members {
    if s == [] then tail else Member(s[0].0, s[0].1, Joined(s[1..], tail))
  }

  lemma {:induction false} JoinedSnoc(s: seq<(seq<byte>, Value)>, m: (seq<byte>, Value), tail: Members)
    ensures Joined(s + [m], tail) == Joined(s, Member(m.0, m.1, tail))
  {
    if s != [] {
      assert (s + [m])[1..] == s[1..] + [m];
      JoinedSnoc(s[1..], m, tail);
    }
  }

  function AfterMembers(s: seq<(seq<byte>, Value)>, r: Parsed<Members>): Parsed<Members> {
    if r.Fail? then Fail else Done(Joined(s, r.value), r.end)
  }

  // ------------------------------------------------------------------ Unicode escapes

  /** `parse_hex4` */
  method ParseHex4(c: seq<byte>, p: nat) returns (h: nat)
    requires p + 4 <= |c|
    ensures h == Hex4(c, p)
    ensures forall w: nat :: HexWord(c, p, w) ==> h == w
    ensures (exists k :: p <= k < p + 4 && NoDigit(c[k])) ==> h == 0
  {
    hide HexWord, NoDigit;
    forall w: nat ensures HexWord(c, p, w) ==> Hex4(c, p) == w {
      Hex4Exact(c, p, w);
    }
    Hex4Exact(c, p, 0);
    h := 0;
    var i := 0;
    while i < 4
      invariant 0 <= i <= 4
      invariant forall j :: p <= j < p + i ==> HexDigit(c[j]) >= 0
      invariant h == (if i == 0 then 0
                      else if i == 1 then HexDigit(c[p]) * 16
                      else if i == 2 then HexDigit(c[p]) * 256 + HexDigit(c[p + 1]) * 16
                      else if i == 3 then HexDigit(c[p]) * 4096 + HexDigit(c[p + 1]) * 256 + HexDigit(c[p + 2]) * 16
                      else HexDigit(c[p]) * 4096 + HexDigit(c[p + 1]) * 256 + HexDigit(c[p + 2]) * 16 + HexDigit(c[p + 3]))
    {
      if HexDigit(c[p + i]) < 0 {
        return 0;
      }
      h := h + HexDigit(c[p + i]);
      if i < 3 {
        h := 16 * h;
      }
      i := i + 1;
    }
  }

  /** One continuation byte: `(codepoint | 0x80) & 0xBF`. */
  lemma ContinuationByte(u: nat)
    ensures And(Or(u, 0x80), 0xBF) == 0x80 + u % 64
  {
    hide And, Or;
    MarkBits(u, 6);
    assert Pow2(6) == 64 && Pow2(7) == 128;
  }

  /** A lead byte: `(codepoint | mark) & 0xFF`, for the marks of 2, 3 and 4 bytes. */
  lemma LeadByte(u: nat, length: nat)
    requires 2 <= length <= 4 && u < Pow2(7 - length)
    ensures And(Or(u, Mark(length)), 0xFF) == Mark(length) + u < 0x100
  {
    hide And, Or;
    var k := 7 - length;
    assert Pow2(3) == 8 && Pow2(4) == 16 && Pow2(5) == 32;
    OrDisjoint(u, if length == 2 then 6 else if length == 3 then 14 else 30, k);
    LowByte(Mark(length) + u);
  }

  lemma LowByte(u: nat)
    requires u < 0x100
    ensures And(u, 0xFF) == u
  {
    hide And;
    Pow2Values();
    AndMask(u, 8);
  }

  /** A single byte: `codepoint & 0x7F`. */
  lemma AsciiByte(u: nat)
    requires u < 0x80
    ensures And(u, 0x7F) == u
  {
    hide And;
    AndMask(u, 7);
    assert Pow2(7) == 128;
  }

  /** `first_byte_mark` */
  function Mark(length: nat): nat {
    if length == 2 then 0xC0 else if length == 3 then 0xE0 else if length == 4 then 0xF0 else 0
  }

  /** The sequence length for a code point. */
  function Utf8Length(u: CodePoint): (n: nat)
    ensures n == |Encode(u)|
  {
    if u < 0x80 then 1 else if u < 0x800 then 2 else if u < 0x10000 then 3 else 4
  }

  /** `u` with its lowest `n` groups of six bits shifted out. */
  function Shifted(u: nat, n: nat): nat {
    if n == 0 then u else Shifted(u, n - 1) / 64
  }

  /** The bytes of the encoding, as the encoder computes them from the last to the first. */
  lemma EncodeBytes(u: CodePoint)
    ensures var n := Utf8Length(u);
      (forall i :: 1 <= i < n ==> Encode(u)[i] == And(Or(Shifted(u, n - 1 - i), 0x80), 0xBF))
      && Encode(u)[0] == (if n > 1 then And(Or(Shifted(u, n - 1), Mark(n)), 0xFF) else And(u, 0x7F))
  {
    hide And, Or;
    var n := Utf8Length(u);
    DivDiv(u);
    assert Shifted(u, 0) == u && Shifted(u, 1) == u / 64 && Shifted(u, 2) == u / 64 / 64 && Shifted(u, 3) == u / 64 / 64 / 64;
    forall i | 1 <= i < n ensures Encode(u)[i] == And(Or(Shifted(u, n - 1 - i), 0x80), 0xBF) {
      ContinuationByte(Shifted(u, n - 1 - i));
    }
    assert Pow2(3) == 8 && Pow2(4) == 16 && Pow2(5) == 32;
    if n > 1 {
      LeadByte(Shifted(u, n - 1), n);
    } else {
      AsciiByte(u);
    }
  }

  /** The encoding loop of `utf16_literal_to_utf8`, writing from the last byte back. */
  method WriteUtf8(u: CodePoint, output: array<byte>, out: nat) returns (n: nat)
    requires out + |Encode(u)| <= output.Length
    modifies output
    ensures n == |Encode(u)|
    ensures output[..] == old(output[..out]) + Encode(u) + old(output[out + n..])
  {
    hide And, Or, Encode;
    n := Utf8Length(u);
    EncodeBytes(u);
    var code: nat, position := u, n - 1;
    while position > 0
      invariant 0 <= position < n && code == Shifted(u, n - 1 - position)
      invariant forall i :: 0 <= i < output.Length && !(out + position < i < out + n) ==> output[i] == old(output[i])
      invariant forall i :: position < i < n ==> output[out + i] == Encode(u)[i]
    {
      ContinuationByte(code);
      output[out + position] := And(Or(code, 0x80), 0xBF);
      code := code / 64;
      position := position - 1;
    }
    if n > 1 {
      output[out] := And(Or(code, Mark(n)), 0xFF);
    } else {
      output[out] := And(code, 0x7F);
    }
    Written(output[..], old(output[..]), out, Encode(u));
  }

  lemma Written(now: seq<byte>, was: seq<byte>, out: nat, e: seq<byte>)
    requires |now| == |was| && out + |e| <= |was|
    requires forall i :: 0 <= i < |was| && !(out <= i < out + |e|) ==> now[i] == was[i]
    requires forall i :: 0 <= i < |e| ==> now[out + i] == e[i]
    ensures now == was[..out] + e + was[out + |e|..]
  {
    assert now[out..out + |e|] == e;
    assert now[..out] == was[..out];
    assert now[out + |e|..] == was[out + |e|..];
  }

  // ------------------------------------------------------------------ the cursor

  /** `parse_buffer` */
  class ParseBuffer {
    const content: seq<byte>
    var offset: nat
    var depth: nat

    ghost predicate Valid()
      reads this
    {
      Terminated(content) && offset < |content|
    }

    constructor (text: seq<byte>)
      ensures Valid() && content == text + [0] && offset == 0 && depth == 0
    {
      content := text + [0];
      offset, depth := 0, 0;
    }

    /** `buffer_skip_whitespace`: reaching the end of the buffer steps back to its last byte. */
    method SkipWhitespace()
      requires Valid()
      modifies this`offset
      ensures Valid() && offset == Skip(content, old(offset))
    {
      while offset < |content| && content[offset] <= 32
        invariant old(offset) <= offset <= |content|
        invariant Skip(content, old(offset)) == if offset == |content| then offset - 1 else Skip(content, offset)
      {
        offset := offset + 1;
      }
      if offset == |content| {
        offset := offset - 1;
      }
    }

    /** The first pass of `parse_string`: the closing quote and the number of escapes. */
    method MeasureString() returns (ok: bool, end: nat, skipped: nat)
      requires Valid()
      ensures var e := FindEnd(content, offset + 1); ok == e.Done? && (ok ==> end == e.end)
      ensures ok ==> skipped == Escapes(content, offset + 1, end)
    {
      end, skipped := offset + 1, 0;
      ghost var e := FindEnd(content, offset + 1);
      while end < |content| && content[end] != Quote
        invariant offset + 1 <= end <= |content|
        invariant e == FindEnd(content, end)
        invariant e.Done? ==> skipped + Escapes(content, end, e.end) == Escapes(content, offset + 1, e.end)
      {
        if content[end] == Backslash {
          if end + 1 >= |content| {
            return false, end, skipped;
          }
          skipped := skipped + 1;
          end := end + 1;
        }
        end := end + 1;
      }
      ok := end < |content| && content[end] == Quote;
    }

    /**
      `parse_string`: the output array is allocated from the first pass; every write of the
      second pass, and the terminating zero, is inside it.
     */
    method ParseString() returns (ok: bool, s: seq<byte>)
      requires Valid()
      modifies this`offset
      ensures offset <= |content|
      ensures JsonSpec.ParseString(content, old(offset)) == if ok then Done(s, offset) else Fail
    {
      hide Escapes, FindEnd, ChunkAt;
      var start := offset + 1;
      if content[offset] != Quote {
        offset := start;
        return false, [];
      }
      var found, end, skipped := MeasureString();
      if !found {
        offset := start;
        return false, [];
      }
      SkippedFits(content, start, end);
      var space := end - offset - skipped;
      var output := new byte[space + 1];
      var p, out := start, 0;
      while p < end
        invariant start <= p <= end + 1
        invariant 0 <= out <= p - start - Escapes(content, start, p)
        invariant out < output.Length == space + 1 == end - start + 2 - Escapes(content, start, end)
        invariant Unescape(content, start, end) == Prepend(output[..out], Unescape(content, p, end))
        invariant offset == start - 1
        decreases end + 1 - p
      {
        var good, taken, size := UnescapeStep(p, end, output, out, start);
        if !good {
          offset := p;
          return false, [];
        }
        PrependMore(output[..out], ChunkAt(content, p, end).bytes, Unescape(content, p + taken, end));
        p := p + taken;
        out := out + size;
        Room(content, start, p, end);
      }
      output[out] := 0;
      s := output[..out];
      offset := end;
      offset := offset + 1;
      ok := true;
      assert s + [] == s;
    }

    /** One round of the second pass. */
    method UnescapeStep(p: nat, end: nat, output: array<byte>, out: nat, ghost start: nat)
      returns (good: bool, taken: nat, size: nat)
      requires start <= p < end < |content|
      requires out <= p - start - Escapes(content, start, p)
      requires output.Length == end - start + 2 - Escapes(content, start, end)
      modifies output
      ensures var k := ChunkAt(content, p, end);
        good == k.Chunk? && (good ==> taken == k.taken && size == |k.bytes|)
      ensures good ==> out + size < output.Length && output[..out + size] == old(output[..out]) + ChunkAt(content, p, end).bytes
      ensures good ==> out + size <= p + taken - start - Escapes(content, start, p + taken)
    {
      hide Escapes, LiteralAt, Encode;
      ghost var k := ChunkAt(content, p, end);
      if k.Chunk? {
        ChunkFits(content, start, p, end);
        Room(content, start, p + k.taken, end);
      }
      Room(content, start, p, end);
      if content[p] != Backslash {
        output[out] := content[p];
        return true, 1, 1;
      }
      if content[p + 1] == 117 {
        var l := LiteralAt(content, p, end);
        if l.NotLiteral? {
          return false, 0, 0;
        }
        size := WriteUtf8(l.code, output, out);
        return true, l.length, size;
      }
      if SimpleEscape(content[p + 1]) < 0 {
        return false, 0, 0;
      }
      output[out] := SimpleEscape(content[p + 1]);
      return true, 2, 1;
    }

    /** The copying loop of `parse_number`: at most 63 characters. */
    method CopyNumber() returns (run: seq<byte>)
      requires Valid()
      ensures run == NumberRun(content, offset, 63)
    {
      hide At, NumberChar, NumberRun;
      var copy := new byte[64];
      var i := 0;
      RunLength(content, offset, 63);
      while i < 63 && offset + i < |content| && NumberChar(content[offset + i])
        invariant 0 <= i <= 63 && offset + i <= |content|
        invariant copy[..i] == content[offset..offset + i]
        invariant |NumberRun(content, offset + i, 63 - i)|
               == if i < 63 && offset + i < |content| && NumberChar(content[offset + i])
                  then 1 + |NumberRun(content, offset + i + 1, 62 - i)| else 0
        invariant |NumberRun(content, offset, 63)| == i + |NumberRun(content, offset + i, 63 - i)|
      {
        copy[i] := content[offset + i];
        i := i + 1;
        RunLength(content, offset + i, 63 - i);
      }
      copy[i] := 0;
      run := copy[..i];
      SameRun(content, offset, run);
    }

    /** `parse_number` */
    method ParseNumber() returns (ok: bool, v: Value)
      requires Valid()
      modifies this`offset
      ensures JsonSpec.ParseNumber(content, old(offset)) == if ok then Done(v, offset) else Fail
      ensures ok ==> Valid()
    {
      hide NumberLength, NumberRun, At;
      v := Null;
      var run := CopyNumber();
      var n := NumberLength(run);
      if n == 0 {
        return false, v;
      }
      v := Number(run[..n]);
      RunInside(content, offset, run, n);
      offset := offset + n;
      ok := true;
    }

    /** `parse_value` */
    method ParseValue() returns (ok: bool, v: Value)
      requires Valid()
      modifies this
      ensures JsonSpec.ParseValue(content, old(offset), old(depth)) == if ok then Done(v, offset) else Fail
      ensures ok ==> Valid() && depth == old(depth)
      decreases |content| - offset, 1
    {
      hide At, JsonSpec.ParseString, JsonSpec.ParseNumber, JsonSpec.ParseArray, JsonSpec.ParseObject;
      v := Null;
      if At(content, offset, NullText) {
        AtInside(content, offset, NullText);
        offset := offset + 4;
        return true, Null;
      }
      if At(content, offset, FalseText) {
        AtInside(content, offset, FalseText);
        offset := offset + 5;
        return true, False;
      }
      if At(content, offset, TrueText) {
        AtInside(content, offset, TrueText);
        offset := offset + 4;
        return true, True;
      }
      if content[offset] == Quote {
        var s;
        ok, s := ParseString();
        v := String(s);
        return;
      }
      if content[offset] == Minus || IsDigit(content[offset]) {
        ok, v := ParseNumber();
        return;
      }
      if content[offset] == OpenArray {
        ok, v := ParseArray();
        return;
      }
      if content[offset] == OpenObject {
        ok, v := ParseObject();
        return;
      }
      return false, Null;
    }

    /** One round of the loop of `parse_array`. */
    method ParseElement() returns (ok: bool, item: Value)
      requires Valid() && offset + 1 < |content|
      modifies this
      ensures var r := JsonSpec.ParseValue(content, Skip(content, old(offset) + 1), old(depth));
        ok == r.Done? && (ok ==> item == r.value && offset == Skip(content, r.end))
      ensures ok ==> Valid() && depth == old(depth) && offset > old(offset)
      decreases |content| - (offset + 1), 2
    {
      hide JsonSpec.ParseValue, Skip;
      offset := offset + 1;
      SkipWhitespace();
      ok, item := ParseValue();
      if ok {
        SkipWhitespace();
      }
    }

    /** The loop of `parse_array`, from the byte in front of the first element. */
    method ParseElements() returns (ok: bool, list: Items)
      requires Valid() && offset + 1 < |content|
      modifies this
      ensures ParseItems(content, old(offset), old(depth)) == if ok then Done(list, offset) else Fail
      ensures ok ==> Valid() && depth == old(depth)
      decreases |content| - (offset + 1), 3
    {
      hide JsonSpec.ParseValue, Skip, Linked;
      list := NoItem;
      var items: seq<Value> := [];
      var more := true;
      LinkedNone();
      while more
        invariant Valid() && depth == old(depth) && old(offset) <= offset
        invariant more ==> offset + 1 < |content|
        invariant more ==> ParseItems(content, old(offset), depth) == AfterItems(items, ParseItems(content, offset, depth))
        invariant !more ==> ParseItems(content, old(offset), depth) == Done(Linked(items, NoItem), offset)
        decreases more, |content| - offset
      {
        var parsed, item := ParseElement();
        if !parsed {
          return false, list;
        }
        more := content[offset] == Comma;
        AfterRound(items, item, if more then ParseItems(content, offset, depth) else Done(NoItem, offset));
        items := items + [item];
      }
      return true, Linked(items, NoItem);
    }

    /** `parse_array` */
    method ParseArray() returns (ok: bool, v: Value)
      requires Valid() && content[offset] == OpenArray
      modifies this
      ensures JsonSpec.ParseArray(content, old(offset), old(depth)) == if ok then Done(v, offset) else Fail
      ensures ok ==> Valid() && depth == old(depth)
      decreases |content| - offset, 0
    {
      hide ParseItems, Skip;
      v := Null;
      if depth >= NestingLimit {
        return false, v;
      }
      depth := depth + 1;
      offset := offset + 1;
      SkipWhitespace();
      var list := NoItem;
      if content[offset] != CloseArray {
        offset := offset - 1;
        var parsed;
        parsed, list := ParseElements();
        if !parsed || content[offset] != CloseArray {
          return false, v;
        }
      }
      depth := depth - 1;
      v := Array(list);
      offset := offset + 1;
      ok := true;
    }

    /** The key and the colon of a member. */
    method ParseKey() returns (ok: bool, key: seq<byte>)
      requires Valid() && offset + 1 < |content|
      modifies this`offset
      ensures var k := JsonSpec.ParseString(content, Skip(content, old(offset) + 1));
        if ok then k.Done? && key == k.value && offset == Skip(content, k.end) && content[offset] == Colon
        else k.Fail? || content[Skip(content, k.end)] != Colon
      ensures ok ==> Valid() && old(offset) + 1 <= offset
    {
      hide JsonSpec.ParseString, Skip;
      offset := offset + 1;
      SkipWhitespace();
      ok, key := ParseString();
      if !ok {
        return;
      }
      SkipWhitespace();
      ok := content[offset] == Colon;
    }

    /** Key, colon and value: one round of the loop of `parse_object`. */
    method ParseMember() returns (ok: bool, m: (seq<byte>, Value))
      requires Valid() && offset + 1 < |content|
      modifies this
      ensures JsonSpec.ParseMember(content, old(offset), old(depth)) == if ok then Done(m, offset) else Fail
      ensures ok ==> Valid() && depth == old(depth)
      decreases |content| - (offset + 1), 2
    {
      hide JsonSpec.ParseValue, JsonSpec.ParseString, Skip;
      m := ([], Null);
      var parsed, key := ParseKey();
      if !parsed {
        return false, m;
      }
      offset := offset + 1;
      SkipWhitespace();
      var item;
      parsed, item := ParseValue();
      if !parsed {
        return false, m;
      }
      SkipWhitespace();
      return true, (key, item);
    }

    /** The loop of `parse_object`, from the byte in front of the first key. */
    method ParsePairs() returns (ok: bool, list: Members)
      requires Valid() && offset + 1 < |content|
      modifies this
      ensures ParseMembers(content, old(offset), old(depth)) == if ok then Done(list, offset) else Fail
      ensures ok ==> Valid() && depth == old(depth)
      decreases |content| - (offset + 1), 3
    {
      hide JsonSpec.ParseMember, Joined;
      list := NoMember;
      var members: seq<(seq<byte>, Value)> := [];
      var more := true;
      JoinedNone();
      while more
        invariant Valid() && depth == old(depth) && old(offset) <= offset
        invariant more ==> offset + 1 < |content|
        invariant more ==> ParseMembers(content, old(offset), depth) == AfterMembers(members, ParseMembers(content, offset, depth))
        invariant !more ==> ParseMembers(content, old(offset), depth) == Done(Joined(members, NoMember), offset)
        decreases more, |content| - offset
      {
        var parsed, m := ParseMember();
        if !parsed {
          return false, list;
        }
        more := content[offset] == Comma;
        AfterPair(members, m, if more then ParseMembers(content, offset, depth) else Done(NoMember, offset));
        members := members + [m];
      }
      return true, Joined(members, NoMember);
    }

    /** `parse_object` */
    method ParseObject() returns (ok: bool, v: Value)
      requires Valid() && content[offset] == OpenObject
      modifies this
      ensures JsonSpec.ParseObject(content, old(offset), old(depth)) == if ok then Done(v, offset) else Fail
      ensures ok ==> Valid() && depth == old(depth)
      decreases |content| - offset, 0
    {
      hide ParseMembers, Skip;
      v := Null;
      if depth >= NestingLimit {
        return false, v;
      }
      depth := depth + 1;
      offset := offset + 1;
      SkipWhitespace();
      var list := NoMember;
      if content[offset] != CloseObject {
        offset := offset - 1;
        var parsed;
        parsed, list := ParsePairs();
        if !parsed || content[offset] != CloseObject {
          return false, v;
        }
      }
      depth := depth - 1;
      v := Object(list);
      offset := offset + 1;
      ok := true;
    }
  }

  lemma SameRun(c: seq<byte>, o: nat, run: seq<byte>)
    requires o + |run| <= |c| && run == c[o..o + |run|] && |run| == |NumberRun(c, o, 63)|
    ensures run == NumberRun(c, o, 63)
  {
    hide NumberRun;
    assert At(c, o, NumberRun(c, o, 63));
  }

  lemma RunLength(c: seq<byte>, o: nat, limit: nat)
    requires o <= |c|
    ensures |NumberRun(c, o, limit)|
         == if limit > 0 && o < |c| && NumberChar(c[o]) then 1 + |NumberRun(c, o + 1, limit - 1)| else 0
  {
    hide At, NumberChar;
  }

  lemma LinkedNone()
    ensures forall tail :: Linked([], tail) == tail
  {}

  lemma AfterRound(s: seq<Value>, v: Value, r: Parsed<Items>)
    ensures AfterItems(s + [v], r) == AfterItems(s, if r.Fail? then Fail else Done(Item(v, r.value), r.end))
  {
    hide Linked;
    if r.Done? {
      LinkedSnoc(s, v, r.value);
    }
  }

  lemma JoinedNone()
    ensures forall tail :: Joined([], tail) == tail
  {}

  lemma AfterPair(s: seq<(seq<byte>, Value)>, m: (seq<byte>, Value), r: Parsed<Members>)
    ensures AfterMembers(s + [m], r) == AfterMembers(s, if r.Fail? then Fail else Done(Member(m.0, m.1, r.value), r.end))
  {
    hide Joined;
    if r.Done? {
      JoinedSnoc(s, m, r.value);
    }
  }

  lemma PrependMore(a: seq<byte>, b: seq<byte>, t: Text)
    ensures Prepend(a, Prepend(b, t)) == Prepend(a + b, t)
  {
    if t.Text? {
      assert a + (b + t.bytes) == (a + b) + t.bytes;
    }
  }

  lemma SkippedFits(c: seq<byte>, start: nat, end: nat)
    requires start <= end < |c|
    ensures Escapes(c, start, end) <= end - start && Escapes(c, start, start) == 0
  {
    Grows(c, start, end);
  }

  lemma {:induction false} Grows(c: seq<byte>, start: nat, p: nat)
    requires start <= p <= |c|
    ensures Escapes(c, start, p) <= p - start
  {
    if start < p {
      Grows(c, start, p - 1);
      EscapesOne(c, start, p - 1);
    }
  }

  /** `cJSON_ParseWithOpts` on a C string. */
  method ParseWithOpts(text: seq<byte>, whole: bool) returns (ok: bool, v: Value, end: nat)
    ensures Parse(text, whole) == if ok then Done(v, end) else Fail
  {
    hide JsonSpec.ParseValue, Skip;
    var buffer := new ParseBuffer(text);
    v, end := Null, 0;
    if |buffer.content| > 4 && At(buffer.content, 0, [0xEF, 0xBB, 0xBF]) {
      buffer.offset := buffer.offset + 3;
    }
    buffer.SkipWhitespace();
    ok, v := buffer.ParseValue();
    if !ok {
      return;
    }
    if whole {
      buffer.SkipWhitespace();
      if buffer.content[buffer.offset] != 0 {
        return false, v, end;
      }
    }
    end := buffer.offset;
  }
}
