/**
  JSON values, their text and how it is read back, as in cbits/hs_cJSON.c. Text is a
  sequence of bytes. A number is kept as the text it is printed with.
 */
module JsonSpec {
  import opened Bits
  import opened Utf8

  // ------------------------------------------------------------------ values

  /** A `cJSON` item; `child` is the list of its elements. */
  datatype Value =
    | Null
    | False
    | True
    | Number(token: seq<byte>)
    | String(text: seq<byte>)
    | Array(child: Items)
    | Object(members: Members)

  /** The elements of an array, linked by `next`. */
  datatype Items = NoItem | Item(value: Value, next: Items)

  /** The members of an object, linked by `next`, each with its `string` (the key). */
  datatype Members = NoMember | Member(key: seq<byte>, item: Value, rest: Members)

  function Max(a: nat, b: nat): nat {
    if a > b then a else b
  }

  /** How many arrays and objects are nested in a value. */
  function Depth(v: Value): nat {
    match v
    case Array(items) => 1 + ItemsDepth(items)
    case Object(members) => 1 + MembersDepth(members)
    case _ => 0
  }

  function ItemsDepth(items: Items): nat {
    match items
    case NoItem => 0
    case Item(v, next) => Max(Depth(v), ItemsDepth(next))
  }

  function MembersDepth(members: Members): nat {
    match members
    case NoMember => 0
    case Member(_, v, rest) => Max(Depth(v), MembersDepth(rest))
  }

  // ------------------------------------------------------------------ characters

  const Quote: byte := 34
  const Backslash: byte := 92
  const Comma: byte := 44
  const Colon: byte := 58
  const Tab: byte := 9
  const NewLine: byte := 10
  const Space: byte := 32
  const OpenArray: byte := 91
  const CloseArray: byte := 93
  const OpenObject: byte := 123
  const CloseObject: byte := 125
  const Minus: byte := 45

  const NullText: seq<byte> := [110, 117, 108, 108]
  const FalseText: seq<byte> := [102, 97, 108, 115, 101]
  const TrueText: seq<byte> := [116, 114, 117, 101]

  predicate IsDigit(b: byte) {
    48 <= b <= 57
  }

  /** The characters `parse_number` copies: digits, signs, exponent marks and the point. */
  predicate NumberChar(b: byte) {
    IsDigit(b) || b == 43 || b == 45 || b == 101 || b == 69 || b == 46
  }

  // ------------------------------------------------------------------ numbers

  /** The end of the run of digits at `i`. */
  function DigitsEnd(s: seq<byte>, i: nat): (e: nat)
    requires i <= |s|
    ensures i <= e <= |s|
    decreases |s| - i
  {
    if i < |s| && IsDigit(s[i]) then DigitsEnd(s, i + 1) else i
  }

  /** The end of the exponent at `i`; without digits there is none. */
  function ExponentEnd(s: seq<byte>, i: nat): (e: nat)
    requires i <= |s|
    ensures i <= e <= |s|
  {
    if i < |s| && (s[i] == 101 || s[i] == 69) then
      var j := if i + 1 < |s| && (s[i + 1] == 43 || s[i + 1] == 45) then i + 2 else i + 1;
      var e := DigitsEnd(s, j);
      if e > j then e else i
    else i
  }

  /** How much of `s` strtod takes as a decimal number; 0 when there is none. */
  function NumberLength(s: seq<byte>): (n: nat)
    ensures n <= |s|
  {
    var i := if |s| > 0 && (s[0] == 43 || s[0] == 45) then 1 else 0;
    var w := DigitsEnd(s, i);
    var f := if w < |s| && s[w] == 46 then DigitsEnd(s, w + 1) else w;
    if w == i && f <= w + 1 then 0 else ExponentEnd(s, f)
  }

  /** What `print_number` can produce: at most 25 characters that strtod takes whole. */
  predicate PrintedNumber(t: seq<byte>) {
    1 <= |t| <= 25 && (t[0] == Minus || IsDigit(t[0])) && (forall i :: 0 <= i < |t| ==> NumberChar(t[i]))
    && NumberLength(t) == |t|
  }

  predicate NoNul(s: seq<byte>) {
    forall i :: 0 <= i < |s| ==> s[i] != 0
  }

  /** A tree that has a text: C strings, and numbers as they are printed. */
  predicate Printable(v: Value) {
    match v
    case Number(t) => PrintedNumber(t)
    case String(s) => NoNul(s)
    case Array(items) => PrintableItems(items)
    case Object(members) => PrintableMembers(members)
    case _ => true
  }

  predicate PrintableItems(items: Items) {
    match items
    case NoItem => true
    case Item(v, next) => Printable(v) && PrintableItems(next)
  }

  predicate PrintableMembers(members: Members) {
    match members
    case NoMember => true
    case Member(key, v, rest) => NoNul(key) && Printable(v) && PrintableMembers(rest)
  }

  // ------------------------------------------------------------------ printing

  /** One byte of a string as section 7 of RFC 8259 lets it appear between quotes. */
  function Escape(b: byte): (e: seq<byte>)
    ensures 1 <= |e| <= 6
  {
    if b > 31 && b != Quote && b != Backslash then [b]
    else if b == Backslash then [Backslash, Backslash]
    else if b == Quote then [Backslash, Quote]
    else if b == 8 then [Backslash, 98]
    else if b == 12 then [Backslash, 102]
    else if b == 10 then [Backslash, 110]
    else if b == 13 then [Backslash, 114]
    else if b == 9 then [Backslash, 116]
    else [Backslash, 117, 48, 48, LowerHex(b / 16), LowerHex(b % 16)]
  }

  function Escaped(s: seq<byte>): seq<byte> {
    if s == [] then [] else Escape(s[0]) + Escaped(s[1..])
  }

  /** `print_string_ptr` */
  function PrintString(s: seq<byte>): (t: seq<byte>)
    ensures |t| >= 2 && t[0] == Quote
  {
    [Quote] + Escaped(s) + [Quote]
  }

  function Tabs(n: nat): seq<byte> {
    seq(n, _ => Tab)
  }

  /** Layout that only formatted printing adds. */
  function If(format: bool, s: seq<byte>): seq<byte> {
    if format then s else []
  }

  /** `print_value`, at nesting depth `d`. */
  function Print(v: Value, format: bool, d: nat): seq<byte> {
    match v
    case Null => NullText
    case False => FalseText
    case True => TrueText
    case Number(t) => t
    case String(s) => PrintString(s)
    case Array(items) => [OpenArray] + PrintItems(items, format, d + 1) + [CloseArray]
    case Object(members) =>
      [OpenObject] + If(format, [NewLine]) + PrintMembers(members, format, d + 1) + If(format, Tabs(d)) + [CloseObject]
  }

  function PrintItems(items: Items, format: bool, d: nat): seq<byte> {
    match items
    case NoItem => []
    case Item(v, next) => Print(v, format, d) + Separator(next, format) + PrintItems(next, format, d)
  }

  function Separator(next: Items, format: bool): seq<byte> {
    if next.NoItem? then [] else [Comma] + If(format, [Space])
  }

  function PrintMembers(members: Members, format: bool, d: nat): seq<byte> {
    match members
    case NoMember => []
    case Member(key, v, rest) => PrintMember(key, Print(v, format, d), format, d) + MemberEnd(rest, format) + PrintMembers(rest, format, d)
  }

  function PrintMember(key: seq<byte>, item: seq<byte>, format: bool, d: nat): seq<byte> {
    If(format, Tabs(d)) + PrintString(key) + ([Colon] + If(format, [Tab])) + item
  }

  function MemberEnd(rest: Members, format: bool): seq<byte> {
    If(rest.Member?, [Comma]) + If(format, [NewLine])
  }

  // ------------------------------------------------------------------ parsing

  /** What a parse function leaves behind: the item and the new offset, or failure. */
  datatype Parsed<T> = Fail | Done(value: T, end: nat)

  /** `CJSON_NESTING_LIMIT` */
  const NestingLimit := 1000

  /** A parse buffer holds a C string with its terminator. */
  predicate Terminated(c: seq<byte>) {
    |c| > 0 && c[|c| - 1] == 0
  }

  /**
    `buffer_skip_whitespace`: the first byte above 32 at or after `o`, or else the last
    byte of the buffer.
   */
  function Skip(c: seq<byte>, o: nat): (p: nat)
    requires o < |c|
    ensures o <= p < |c|
    ensures p < |c| - 1 ==> c[p] > 32
    ensures forall i :: o <= i < p ==> c[i] <= 32
    decreases |c| - o
  {
    if c[o] > 32 || o == |c| - 1 then o else Skip(c, o + 1)
  }

  /** `t` stands at offset `o`. */
  predicate At(c: seq<byte>, o: nat, t: seq<byte>) {
    o + |t| <= |c| && c[o..o + |t|] == t
  }

  /** The first pass of `parse_string`: the closing quote, pairing each backslash with a byte. */
  function FindEnd(c: seq<byte>, p: nat): (r: Parsed<()>)
    requires p <= |c|
    ensures r.Done? ==> p <= r.end < |c| && c[r.end] == Quote
    decreases |c| - p
  {
    if p >= |c| then Fail
    else if c[p] == Quote then Done((), p)
    else if c[p] != Backslash then FindEnd(c, p + 1)
    else if p + 1 >= |c| then Fail
    else FindEnd(c, p + 2)
  }

  datatype Text = BadText | Text(bytes: seq<byte>)

  function Prepend(s: seq<byte>, t: Text): Text {
    if t.Text? then Text(s + t.bytes) else BadText
  }

  /** The byte a one-letter escape stands for, or -1. */
  function SimpleEscape(b: byte): int {
    if b == 98 then 8
    else if b == 102 then 12
    else if b == 110 then 10
    else if b == 114 then 13
    else if b == 116 then 9
    else if b == Quote || b == Backslash || b == 47 then b
    else -1
  }

  /** One step of the second pass: how much input it takes and what it puts out. */
  datatype Chunk = BadChunk | Chunk(taken: nat, bytes: seq<byte>)

  function ChunkAt(c: seq<byte>, p: nat, end: nat): (r: Chunk)
    requires p < end < |c|
    ensures r.Chunk? ==> 1 <= r.taken && p + r.taken <= end + 1
  {
    if c[p] != Backslash then Chunk(1, [c[p]])
    else if c[p + 1] == 117 then
      var l := LiteralAt(c, p, end);
      if l.NotLiteral? then BadChunk else Chunk(l.length, Encode(l.code))
    else if SimpleEscape(c[p + 1]) < 0 then BadChunk
    else Chunk(2, [SimpleEscape(c[p + 1])])
  }

  /** The second pass of `parse_string` from `p`; a final escape may reach over the quote. */
  function Unescape(c: seq<byte>, p: nat, end: nat): Text
    requires p <= end + 1 && end < |c|
    decreases end + 1 - p
  {
    if p >= end then Text([])
    else
      var k := ChunkAt(c, p, end);
      if k.BadChunk? then BadText else Prepend(k.bytes, Unescape(c, p + k.taken, end))
  }

  /** `parse_string` */
  function ParseString(c: seq<byte>, o: nat): (r: Parsed<seq<byte>>)
    requires o < |c| && Terminated(c)
    ensures r.Done? ==> o < r.end < |c|
  {
    if c[o] != Quote then Fail
    else
      var e := FindEnd(c, o + 1);
      if e.Fail? then Fail
      else
        var t := Unescape(c, o + 1, e.end);
        if t.BadText? then Fail else Done(t.bytes, e.end + 1)
  }

  /** The number characters at `o`, at most `limit` of them. */
  function NumberRun(c: seq<byte>, o: nat, limit: nat): (s: seq<byte>)
    requires o <= |c|
    ensures |s| <= limit && At(c, o, s) && forall i :: 0 <= i < |s| ==> NumberChar(s[i])
    decreases limit
  {
    if limit > 0 && o < |c| && NumberChar(c[o]) then [c[o]] + NumberRun(c, o + 1, limit - 1) else []
  }

  /** `parse_number` */
  function ParseNumber(c: seq<byte>, o: nat): (r: Parsed<Value>)
    requires o < |c| && Terminated(c)
    ensures r.Done? ==> o < r.end < |c|
  {
    hide NumberLength, NumberRun, At;
    var s := NumberRun(c, o, 63);
    var n := NumberLength(s);
    if n == 0 then Fail
    else
      RunInside(c, o, s, n);
      Done(Number(s[..n]), o + n)
  }

  lemma RunInside(c: seq<byte>, o: nat, s: seq<byte>, n: nat)
    requires Terminated(c) && At(c, o, s) && 0 < n <= |s| && forall i :: 0 <= i < |s| ==> NumberChar(s[i])
    ensures o + n < |c|
  {
    assert c[o..o + |s|][n - 1] == c[o + n - 1];
    assert NumberChar(s[n - 1]);
  }

  lemma AtInside(c: seq<byte>, o: nat, t: seq<byte>)
    requires Terminated(c) && At(c, o, t) && |t| > 0 && t[|t| - 1] != 0
    ensures o + |t| < |c|
  {
    assert c[o..o + |t|][|t| - 1] == c[o + |t| - 1];
  }

  /** `parse_value`, at nesting depth `d`, counted from any starting point. */
  function ParseValue(c: seq<byte>, o: nat, d: int): (r: Parsed<Value>)
    requires o < |c| && Terminated(c)
    ensures r.Done? ==> o < r.end < |c|
    decreases |c| - o, 1
  {
    if At(c, o, NullText) then AtInside(c, o, NullText); Done(Null, o + 4)
    else if At(c, o, FalseText) then AtInside(c, o, FalseText); Done(False, o + 5)
    else if At(c, o, TrueText) then AtInside(c, o, TrueText); Done(True, o + 4)
    else if c[o] == Quote then
      var s := ParseString(c, o);
      if s.Fail? then Fail else Done(String(s.value), s.end)
    else if c[o] == Minus || IsDigit(c[o]) then ParseNumber(c, o)
    else if c[o] == OpenArray then ParseArray(c, o, d)
    else if c[o] == OpenObject then ParseObject(c, o, d)
    else Fail
  }

  /** `parse_array` */
  function ParseArray(c: seq<byte>, o: nat, d: int): (r: Parsed<Value>)
    requires o < |c| && Terminated(c) && c[o] == OpenArray
    ensures r.Done? ==> o < r.end < |c|
    decreases |c| - o, 0
  {
    if d >= NestingLimit then Fail
    else
      var p := Skip(c, o + 1);
      if c[p] == CloseArray then Done(Array(NoItem), p + 1)
      else
        var items := ParseItems(c, p - 1, d + 1);
        if items.Fail? || c[items.end] != CloseArray then Fail else Done(Array(items.value), items.end + 1)
  }

  /** The loop of `parse_array`, from the byte in front of an element. */
  function ParseItems(c: seq<byte>, o: nat, d: int): (r: Parsed<Items>)
    requires o + 1 < |c| && Terminated(c)
    ensures r.Done? ==> o < r.end < |c|
    decreases |c| - (o + 1), 2
  {
    var v := ParseValue(c, Skip(c, o + 1), d);
    if v.Fail? then Fail
    else
      var p := Skip(c, v.end);
      if c[p] != Comma then Done(Item(v.value, NoItem), p)
      else
        var next := ParseItems(c, p, d);
        if next.Fail? then Fail else Done(Item(v.value, next.value), next.end)
  }

  /** `parse_object` */
  function ParseObject(c: seq<byte>, o: nat, d: int): (r: Parsed<Value>)
    requires o < |c| && Terminated(c) && c[o] == OpenObject
    ensures r.Done? ==> o < r.end < |c|
    decreases |c| - o, 0
  {
    if d >= NestingLimit then Fail
    else
      var p := Skip(c, o + 1);
      if c[p] == CloseObject then Done(Object(NoMember), p + 1)
      else
        var members := ParseMembers(c, p - 1, d + 1);
        if members.Fail? || c[members.end] != CloseObject then Fail else Done(Object(members.value), members.end + 1)
  }

  /** Key, colon and value of one member, from the byte in front of the key. */
  function ParseMember(c: seq<byte>, o: nat, d: int): (r: Parsed<(seq<byte>, Value)>)
    requires o + 1 < |c| && Terminated(c)
    ensures r.Done? ==> o + 1 < r.end < |c|
    decreases |c| - (o + 1), 2
  {
    var key := ParseString(c, Skip(c, o + 1));
    if key.Fail? then Fail
    else
      var p := Skip(c, key.end);
      if c[p] != Colon then Fail
      else
        var v := ParseValue(c, Skip(c, p + 1), d);
        if v.Fail? then Fail else Done((key.value, v.value), Skip(c, v.end))
  }

  /** The loop of `parse_object`, from the byte in front of a key. */
  function ParseMembers(c: seq<byte>, o: nat, d: int): (r: Parsed<Members>)
    requires o + 1 < |c| && Terminated(c)
    ensures r.Done? ==> o < r.end < |c|
    decreases |c| - (o + 1), 3
  {
    var m := ParseMember(c, o, d);
    if m.Fail? then Fail
    else if c[m.end] != Comma then Done(Member(m.value.0, m.value.1, NoMember), m.end)
    else
      var rest := ParseMembers(c, m.end, d);
      if rest.Fail? then Fail else Done(Member(m.value.0, m.value.1, rest.value), rest.end)
  }

  /** `skip_utf8_bom` */
  function SkipMark(c: seq<byte>): (o: nat)
    ensures |c| > 0 ==> o < |c|
  {
    if |c| > 4 && At(c, 0, [0xEF, 0xBB, 0xBF]) then 3 else 0
  }

  /** `cJSON_ParseWithOpts` on a C string; with `whole`, nothing but white space may follow. */
  function Parse(text: seq<byte>, whole: bool): Parsed<Value>
  {
    var c := text + [0];
    var r := ParseValue(c, Skip(c, SkipMark(c)), 0);
    if r.Fail? then Fail
    else if !whole then r
    else
      var p := Skip(c, r.end);
      if c[p] != 0 then Fail else Done(r.value, p)
  }
}
