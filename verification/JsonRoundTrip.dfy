/**
  Printing a JSON tree and parsing the text gives the tree back, formatted or not, exactly
  when the tree is not nested deeper than the parser's limit.
 */
module JsonRoundTrip {
  import opened Bits
  import opened Utf8
  import opened JsonSpec

  // ------------------------------------------------------------------ positions

  lemma AtSplit(c: seq<byte>, o: nat, a: seq<byte>, b: seq<byte>)
    requires At(c, o, a + b)
    ensures At(c, o, a) && At(c, o + |a|, b)
  {
    var t := c[o..o + |a + b|];
    assert c[o..o + |a|] == t[..|a|];
    assert c[o + |a|..o + |a| + |b|] == t[|a|..];
  }

  lemma AtByte(c: seq<byte>, o: nat, t: seq<byte>, i: nat)
    requires At(c, o, t) && i < |t|
    ensures o + i < |c| && c[o + i] == t[i]
  {
    assert c[o..o + |t|][i] == c[o + i];
  }

  /** Only white space stands in `[a, b)`. */
  ghost predicate White(c: seq<byte>, a: nat, b: nat) {
    a <= b <= |c| && forall i :: a <= i < b ==> c[i] <= 32
  }

  lemma AtWhite(c: seq<byte>, o: nat, t: seq<byte>)
    requires At(c, o, t) && forall i :: 0 <= i < |t| ==> t[i] <= 32
    ensures White(c, o, o + |t|)
  {
    forall i | o <= i < o + |t| ensures c[i] <= 32 {
      AtByte(c, o, t, i - o);
    }
  }

  /** Skipping stops at the first byte that is not white space. */
  lemma {:induction false} SkipTo(c: seq<byte>, o: nat, p: nat)
    requires White(c, o, p) && p < |c| && c[p] > 32
    ensures Skip(c, o) == p
    decreases p - o
  {
    if o < p {
      SkipTo(c, o + 1, p);
    }
  }

  // ------------------------------------------------------------------ strings

  lemma HexBack(d: nat)
    requires d < 16
    ensures HexDigit(LowerHex(d)) == d && LowerHex(d) != Quote && LowerHex(d) != Backslash
  {}

  lemma EscapeBytes(c: seq<byte>, p: nat, b: byte)
    requires At(c, p, Escape(b))
    ensures var e := Escape(b);
      p + |e| <= |c| && c[p] == e[0]
      && (|e| >= 2 ==> c[p + 1] == e[1])
      && (|e| >= 6 ==> c[p + 2] == e[2] && c[p + 3] == e[3] && c[p + 4] == e[4] && c[p + 5] == e[5])
  {
    hide Escape;
    var e := Escape(b);
    AtByte(c, p, e, 0);
    if |e| >= 2 {
      AtByte(c, p, e, 1);
    }
    if |e| >= 6 {
      AtByte(c, p, e, 2);
      AtByte(c, p, e, 3);
      AtByte(c, p, e, 4);
      AtByte(c, p, e, 5);
    }
  }

  /** The first pass steps over the escape of one byte. */
  lemma EscapeSkipped(c: seq<byte>, p: nat, b: byte)
    requires At(c, p, Escape(b))
    ensures FindEnd(c, p) == FindEnd(c, p + |Escape(b)|)
  {
    hide At;
    EscapeBytes(c, p, b);
    if |Escape(b)| == 6 {
      HexBack(b / 16);
      HexBack(b % 16);
      PlainSkipped(c, p + 2, p + 6);
    }
  }

  lemma {:induction false} PlainSkipped(c: seq<byte>, p: nat, q: nat)
    requires p <= q <= |c| && forall i :: p <= i < q ==> c[i] != Quote && c[i] != Backslash
    ensures FindEnd(c, p) == FindEnd(c, q)
    decreases q - p
  {
    if p < q {
      PlainSkipped(c, p + 1, q);
    }
  }

  /** The second pass gives the byte back. */
  lemma EscapeUndone(c: seq<byte>, p: nat, b: byte, end: nat)
    requires At(c, p, Escape(b)) && p + |Escape(b)| <= end < |c|
    ensures ChunkAt(c, p, end) == Chunk(|Escape(b)|, [b])
  {
    hide At;
    EscapeBytes(c, p, b);
    if |Escape(b)| == 6 {
      HexBack(b / 16);
      HexBack(b % 16);
      LowLiteral(c, p, end, b);
    }
  }

  lemma LowLiteral(c: seq<byte>, p: nat, end: nat, b: byte)
    requires p + 6 <= end <= |c| && c[p + 2] == 48 && c[p + 3] == 48
    requires b < 32 && HexDigit(c[p + 4]) == b / 16 && HexDigit(c[p + 5]) == b % 16
    ensures LiteralAt(c, p, end) == Literal(6, b)
  {
    assert Hex4(c, p + 2) == b;
  }

  lemma {:induction false} EscapedBack(c: seq<byte>, p: nat, s: seq<byte>)
    requires At(c, p, Escaped(s)) && p + |Escaped(s)| < |c| && c[p + |Escaped(s)|] == Quote
    ensures var end := p + |Escaped(s)|; FindEnd(c, p) == Done((), end) && Unescape(c, p, end) == Text(s)
    decreases |s|
  {
    hide At, Escape, ChunkAt;
    if s != [] {
      var e, end := Escape(s[0]), p + |Escaped(s)|;
      AtSplit(c, p, e, Escaped(s[1..]));
      EscapeSkipped(c, p, s[0]);
      EscapeUndone(c, p, s[0], end);
      EscapedBack(c, p + |e|, s[1..]);
      assert s == [s[0]] + s[1..];
    }
  }

  /** `parse_string` inverts `print_string_ptr`. */
  lemma StringBack(c: seq<byte>, o: nat, s: seq<byte>)
    requires Terminated(c) && At(c, o, PrintString(s))
    ensures o < |c| && ParseString(c, o) == Done(s, o + |PrintString(s)|)
  {
    hide At, Escaped, FindEnd, Unescape;
    var t := PrintString(s);
    AtByte(c, o, t, 0);
    AtByte(c, o, t, |t| - 1);
    AtSplit(c, o, [Quote] + Escaped(s), [Quote]);
    AtSplit(c, o, [Quote], Escaped(s));
    EscapedBack(c, o + 1, s);
  }

  // ------------------------------------------------------------------ numbers

  lemma {:induction false} RunOf(c: seq<byte>, o: nat, t: seq<byte>, limit: nat)
    requires At(c, o, t) && o + |t| < |c| && !NumberChar(c[o + |t|]) && |t| <= limit
    requires forall i :: 0 <= i < |t| ==> NumberChar(t[i])
    ensures NumberRun(c, o, limit) == t
    decreases limit
  {
    if t != [] {
      AtByte(c, o, t, 0);
      assert t == [t[0]] + t[1..];
      AtSplit(c, o, [t[0]], t[1..]);
      RunOf(c, o + 1, t[1..], limit - 1);
    }
  }

  lemma NumberBack(c: seq<byte>, o: nat, t: seq<byte>)
    requires Terminated(c) && PrintedNumber(t) && At(c, o, t) && o + |t| < |c| && !NumberChar(c[o + |t|])
    ensures ParseNumber(c, o) == Done(Number(t), o + |t|)
  {
    hide At, NumberRun, NumberLength;
    RunOf(c, o, t, 63);
    assert t[..|t|] == t;
  }

  // ------------------------------------------------------------------ values

  /** Printed text starts with a visible character that closes nothing. */
  lemma Opens(v: Value, format: bool, d: nat)
    requires Printable(v)
    ensures |Print(v, format, d)| >= 1
    ensures var b := Print(v, format, d)[0]; b > 32 && b < 0x80 && b != CloseArray && b != CloseObject
  {
    hide PrintItems, PrintMembers, Escaped, NumberLength;
  }

  /** No keyword stands where another character than its first does. */
  lemma NotKeyword(c: seq<byte>, o: nat)
    requires o < |c|
    ensures c[o] != 110 ==> !At(c, o, NullText)
    ensures c[o] != 102 ==> !At(c, o, FalseText)
    ensures c[o] != 116 ==> !At(c, o, TrueText)
  {
    if At(c, o, NullText) {
      AtByte(c, o, NullText, 0);
    }
    if At(c, o, FalseText) {
      AtByte(c, o, FalseText, 0);
    }
    if At(c, o, TrueText) {
      AtByte(c, o, TrueText, 0);
    }
  }

  /** The outcome of parsing what was printed, by nesting depth. */
  function Outcome<T>(value: T, end: nat, depth: int): Parsed<T> {
    if depth <= NestingLimit then Done(value, end) else Fail
  }

  lemma {:induction false} ValueBack(c: seq<byte>, o: nat, v: Value, format: bool, d: nat, pd: int)
    requires Terminated(c) && Printable(v) && pd <= NestingLimit
    requires At(c, o, Print(v, format, d))
    requires var e := o + |Print(v, format, d)|; e < |c| && !NumberChar(c[e])
    ensures ParseValue(c, o, pd) == Outcome(v, o + |Print(v, format, d)|, pd + Depth(v))
    decreases v, 0
  {
    hide At, ParseArray, ParseObject, ParseString, ParseNumber, PrintItems, PrintMembers, PrintString;
    Opens(v, format, d);
    AtByte(c, o, Print(v, format, d), 0);
    NotKeyword(c, o);
    match v
    case Null =>
    case False =>
    case True =>
    case Number(t) => NumberBack(c, o, t);
    case String(s) => StringBack(c, o, s);
    case Array(items) => ArrayBack(c, o, items, format, d, pd);
    case Object(members) => ObjectBack(c, o, members, format, d, pd);
  }

  lemma {:induction false} ArrayBack(c: seq<byte>, o: nat, items: Items, format: bool, d: nat, pd: int)
    requires Terminated(c) && PrintableItems(items) && pd <= NestingLimit
    requires At(c, o, Print(Array(items), format, d)) && o < |c| && c[o] == OpenArray
    ensures ParseArray(c, o, pd) == Outcome(Array(items), o + |Print(Array(items), format, d)|, pd + 1 + ItemsDepth(items))
    decreases items, 1
  {
    hide At, Print, PrintItems, ParseItems, Skip;
    ArrayLayout(c, o, items, format, d);
    SkipTo(c, o + 1, o + 1);
    if pd < NestingLimit && items.Item? {
      ItemsBack(c, o, 0, items, format, d + 1, pd + 1);
    }
  }

  /** Where the brackets of an array stand. */
  lemma ArrayLayout(c: seq<byte>, o: nat, items: Items, format: bool, d: nat)
    requires PrintableItems(items) && At(c, o, Print(Array(items), format, d))
    ensures var t := PrintItems(items, format, d + 1);
      At(c, o + 1, t) && o + 1 + |t| < |c| && c[o + 1 + |t|] == CloseArray
      && |Print(Array(items), format, d)| == |t| + 2
    ensures c[o + 1] > 32 && (items.Item? <==> c[o + 1] != CloseArray)
    ensures items.NoItem? ==> PrintItems(items, format, d + 1) == [] && ItemsDepth(items) == 0
  {
    hide At, PrintItems;
    var t := PrintItems(items, format, d + 1);
    AtSplit(c, o, [OpenArray] + t, [CloseArray]);
    AtSplit(c, o, [OpenArray], t);
    AtByte(c, o + 1 + |t|, [CloseArray], 0);
    NoItems(format, d + 1);
    if items.Item? {
      ItemsOpen(items, format, d + 1);
      AtByte(c, o + 1, t, 0);
    }
  }

  lemma NoItems(format: bool, d: nat)
    ensures PrintItems(NoItem, format, d) == [] && ItemsDepth(NoItem) == 0
    ensures PrintMembers(NoMember, format, d) == [] && MembersDepth(NoMember) == 0
  {}

  lemma ItemsOpen(items: Items, format: bool, d: nat)
    requires items.Item? && PrintableItems(items)
    ensures var t := PrintItems(items, format, d); |t| >= 1 && t[0] > 32 && t[0] != CloseArray
  {
    Opens(items.value, format, d);
  }

  /** The loop of `parse_array`, `w` bytes of white space after the byte at `o`. */
  lemma {:induction false} ItemsBack(c: seq<byte>, o: nat, w: nat, items: Items, format: bool, d: nat, pd: int)
    requires Terminated(c) && items.Item? && PrintableItems(items) && pd <= NestingLimit
    requires White(c, o + 1, o + 1 + w) && At(c, o + 1 + w, PrintItems(items, format, d))
    requires var e := o + 1 + w + |PrintItems(items, format, d)|; e < |c| && c[e] == CloseArray
    ensures ParseItems(c, o, pd)
         == Outcome(items, o + 1 + w + |PrintItems(items, format, d)|, pd + ItemsDepth(items))
    decreases items, 0
  {
    hide At, Print, PrintItems, Separator, ParseValue, ParseItems, Outcome, Skip, White, Printable, Depth, ItemsDepth, NumberChar;
    var v, next, p := items.value, items.next, o + 1 + w;
    var q := p + |Print(v, format, d)|;
    ItemsLayout(c, p, items, format, d);
    SkipTo(c, o + 1, p);
    ValueBack(c, p, v, format, d, pd);
    NoWhite(c, q);
    SkipTo(c, q, q);
    if next.Item? {
      ItemsBack(c, q, |Separator(next, format)| - 1, next, format, d, pd);
    }
    ItemsJoin(c, o, p, q, items, o + 1 + w + |PrintItems(items, format, d)|, pd);
  }

  /** The outcome of a list from that of its first element and of the rest. */
  lemma ItemsJoin(c: seq<byte>, o: nat, p: nat, q: nat, items: Items, e: nat, pd: int)
    requires Terminated(c) && items.Item? && pd <= NestingLimit && o + 1 < |c| && p < |c| && q < |c|
    requires Skip(c, o + 1) == p && Skip(c, q) == q
    requires ParseValue(c, p, pd) == Outcome(items.value, q, pd + Depth(items.value))
    requires if items.next.NoItem? then c[q] != Comma && e == q
             else c[q] == Comma && q + 1 < |c| && ParseItems(c, q, pd) == Outcome(items.next, e, pd + ItemsDepth(items.next))
    ensures ParseItems(c, o, pd) == Outcome(items, e, pd + ItemsDepth(items))
  {
    hide ParseValue, Skip, Depth;
    NoItems(false, 0);
  }

  /** Where the parts of an element list stand. */
  lemma ItemsLayout(c: seq<byte>, p: nat, items: Items, format: bool, d: nat)
    requires items.Item? && PrintableItems(items) && At(c, p, PrintItems(items, format, d))
    requires var e := p + |PrintItems(items, format, d)|; e < |c| && c[e] == CloseArray
    ensures var t, sep, next := Print(items.value, format, d), Separator(items.next, format), PrintItems(items.next, format, d);
      var q := p + |t|;
      At(c, p, t) && At(c, q + |sep|, next) && |PrintItems(items, format, d)| == |t| + |sep| + |next|
      && p < q < |c| && c[p] > 32 && c[q] > 32 && !NumberChar(c[q])
      && (if items.next.NoItem? then sep == [] && next == [] else |sep| >= 1 && c[q] == Comma && White(c, q + 1, q + |sep|))
  {
    hide At, Print, PrintItems, White, Printable, PrintableItems, Separator, NumberChar;
    var t, sep, next := Print(items.value, format, d), Separator(items.next, format), PrintItems(items.next, format, d);
    ItemsText(items, format, d);
    AtSplit(c, p, t + sep, next);
    AtSplit(c, p, t, sep);
    Opens(items.value, format, d);
    AtByte(c, p, t, 0);
    SeparatorLayout(c, p + |t|, items.next, format, d);
  }

  lemma ItemsText(items: Items, format: bool, d: nat)
    requires items.Item? && PrintableItems(items)
    ensures PrintItems(items, format, d)
         == Print(items.value, format, d) + Separator(items.next, format) + PrintItems(items.next, format, d)
    ensures Printable(items.value)
  {
    hide Print, Separator;
  }

  lemma SeparatorLayout(c: seq<byte>, q: nat, next: Items, format: bool, d: nat)
    requires At(c, q, Separator(next, format))
    requires var e := q + |Separator(next, format)| + |PrintItems(next, format, d)|; e < |c| && c[e] == CloseArray
    ensures q < |c| && c[q] > 32 && !NumberChar(c[q])
    ensures next.NoItem? ==> Separator(next, format) == [] && PrintItems(next, format, d) == []
    ensures next.Item? ==> |Separator(next, format)| >= 1 && c[q] == Comma && White(c, q + 1, q + |Separator(next, format)|)
  {
    hide At, White, PrintItems, NumberChar;
    NoItems(format, d);
    Delimiters();
    if next.Item? {
      AtSplit(c, q, [Comma], If(format, [Space]));
      AtByte(c, q, [Comma], 0);
      AtWhite(c, q + 1, If(format, [Space]));
    }
  }

  lemma Delimiters()
    ensures !NumberChar(Comma) && !NumberChar(CloseArray) && !NumberChar(CloseObject) && !NumberChar(NewLine) && !NumberChar(0)
  {}

  lemma {:induction false} ObjectBack(c: seq<byte>, o: nat, members: Members, format: bool, d: nat, pd: int)
    requires Terminated(c) && PrintableMembers(members) && pd <= NestingLimit
    requires At(c, o, Print(Object(members), format, d)) && o < |c| && c[o] == OpenObject
    ensures ParseObject(c, o, pd)
         == Outcome(Object(members), o + |Print(Object(members), format, d)|, pd + 1 + MembersDepth(members))
    decreases members, 1
  {
    hide At, Print, PrintMembers, ParseMembers, Skip, White;
    var e, close := ObjectLayout(c, o, members, format, d);
    if pd < NestingLimit {
      if members.NoMember? {
        SkipTo(c, o + 1, close);
      } else {
        var x, k := KeyLayout(c, o, e, members, format, d);
        SkipTo(c, o + 1, k);
        SkipTo(c, k, k);
        MembersBack(c, k - 1, 0, x, close, members, format, d + 1, pd + 1);
      }
    }
  }

  /** Where the braces of an object stand. */
  lemma ObjectLayout(c: seq<byte>, o: nat, members: Members, format: bool, d: nat) returns (e: nat, close: nat)
    requires At(c, o, Print(Object(members), format, d))
    ensures var nl, t := |If(format, [NewLine])|, PrintMembers(members, format, d + 1);
      White(c, o + 1, o + 1 + nl) && At(c, o + 1 + nl, t) && e == o + 1 + nl + |t|
      && White(c, e, close) && close < |c| && c[close] == CloseObject && close + 1 == o + |Print(Object(members), format, d)|
    ensures members.NoMember? ==> White(c, o + 1, close) && MembersDepth(members) == 0
  {
    hide At, PrintMembers;
    var nl, t, tabs := If(format, [NewLine]), PrintMembers(members, format, d + 1), If(format, Tabs(d));
    AtSplit(c, o, [OpenObject] + nl + t + tabs, [CloseObject]);
    AtSplit(c, o, [OpenObject] + nl + t, tabs);
    AtSplit(c, o, [OpenObject] + nl, t);
    AtSplit(c, o, [OpenObject], nl);
    e := o + 1 + |nl| + |t|;
    close := e + |tabs|;
    AtByte(c, close, [CloseObject], 0);
    AtWhite(c, o + 1, nl);
    AtWhite(c, e, tabs);
    NoItems(format, d + 1);
  }

  /** Where the first key of an object stands. */
  lemma KeyLayout(c: seq<byte>, o: nat, e: nat, members: Members, format: bool, d: nat) returns (x: seq<byte>, k: nat)
    requires var nl, t := |If(format, [NewLine])|, PrintMembers(members, format, d + 1);
      White(c, o + 1, o + 1 + nl) && At(c, o + 1 + nl, t) && e == o + 1 + nl + |t|
    requires members.Member?
    ensures PrintMembers(members, format, d + 1) == If(format, Tabs(d + 1)) + x && |x| >= 1 && x[0] == Quote
    ensures o < k && White(c, o + 1, k) && White(c, k, k) && At(c, k, x) && k + |x| == e && k < |c| && c[k] == Quote
  {
    hide At, PrintMembers;
    var p, tabs := o + 1 + |If(format, [NewLine])|, If(format, Tabs(d + 1));
    x := FirstKey(members, format, d + 1);
    AtSplit(c, p, tabs, x);
    AtWhite(c, p, tabs);
    k := p + |tabs|;
    AtByte(c, k, x, 0);
  }

  /** The text of members after the indentation of the first starts with a quote. */
  lemma FirstKey(members: Members, format: bool, d: nat) returns (x: seq<byte>)
    requires members.Member?
    ensures PrintMembers(members, format, d) == If(format, Tabs(d)) + x && |x| >= 1 && x[0] == Quote
  {
    hide Escaped, Print, If;
    var text := Print(members.item, format, d);
    var tail := MemberEnd(members.rest, format) + PrintMembers(members.rest, format, d);
    x := PrintString(members.key) + ([Colon] + If(format, [Tab])) + text + tail;
    assert PrintMembers(members, format, d)
        == PrintMember(members.key, text, format, d) + MemberEnd(members.rest, format) + PrintMembers(members.rest, format, d);
    Regroup(If(format, Tabs(d)), PrintString(members.key), [Colon] + If(format, [Tab]), text,
            MemberEnd(members.rest, format), PrintMembers(members.rest, format, d));
  }

  lemma Regroup<T>(a: seq<T>, b: seq<T>, c: seq<T>, d: seq<T>, e: seq<T>, f: seq<T>)
    ensures (a + b + c + d) + e + f == a + (b + c + d + (e + f))
  {}

  /**
    The loop of `parse_object`: `w` bytes of white space after the byte at `o`, then the
    key of the first member. The closing brace is at `close`, with white space before it.
   */
  lemma {:induction false} MembersBack(c: seq<byte>, o: nat, w: nat, x: seq<byte>, close: nat,
                                       members: Members, format: bool, d: nat, pd: int)
    requires Terminated(c) && members.Member? && PrintableMembers(members) && pd <= NestingLimit
    requires White(c, o + 1, o + 1 + w) && At(c, o + 1 + w, x)
    requires PrintMembers(members, format, d) == If(format, Tabs(d)) + x && |x| >= 1 && x[0] == Quote
    requires White(c, o + 1 + w + |x|, close) && close < |c| && c[close] == CloseObject
    ensures ParseMembers(c, o, pd) == Outcome(members, close, pd + MembersDepth(members))
    decreases members, 0
  {
    hide At, Print, PrintMembers, ParseMember, Skip, Printable, Depth, If, PrintString, White, MemberText, NumberChar;
    var rest, p := members.rest, o + 1 + w;
    var q := p + |MemberText(members, format, d)|;
    MembersLayout(c, p, members, format, d, x, close);
    MemberBack(c, o, w, members, format, d, pd);
    if rest.NoMember? {
      SkipTo(c, q, close);
    } else {
      NoWhite(c, q);
      SkipTo(c, q, q);
      var y, k := NextKey(c, q, members, format, d);
      MembersBack(c, q, k - (q + 1), y, close, rest, format, d, pd);
    }
  }

  /** Key, colon and value of the first member. */
  function MemberText(members: Members, format: bool, d: nat): seq<byte>
    requires members.Member?
  {
    PrintString(members.key) + ([Colon] + If(format, [Tab])) + Print(members.item, format, d)
  }

  /** Where the parts of a member list stand. */
  lemma MembersLayout(c: seq<byte>, p: nat, members: Members, format: bool, d: nat, x: seq<byte>, close: nat)
    requires members.Member? && At(c, p, x)
    requires PrintMembers(members, format, d) == If(format, Tabs(d)) + x
    requires White(c, p + |x|, close) && close < |c| && c[close] == CloseObject
    ensures var m, sep, more := MemberText(members, format, d), MemberEnd(members.rest, format), PrintMembers(members.rest, format, d);
      At(c, p, m) && At(c, p + |m| + |sep|, more) && |x| == |m| + |sep| + |more|
    ensures var q := p + |MemberText(members, format, d)|;
      q < |c| && !NumberChar(c[q])
      && (if members.rest.NoMember? then White(c, q, close)
          else c[q] == Comma && MemberEnd(members.rest, format) != [] && White(c, q + 1, q + |MemberEnd(members.rest, format)|))
  {
    hide At, Print, White, If, PrintString;
    var m, sep, more := MemberText(members, format, d), MemberEnd(members.rest, format), PrintMembers(members.rest, format, d);
    TextOf(members, format, d, x);
    AtSplit(c, p, m + sep, more);
    AtSplit(c, p, m, sep);
    MemberEnds(c, p + |m|, members.rest, format, |more|, close);
  }

  lemma NextKey(c: seq<byte>, q: nat, members: Members, format: bool, d: nat) returns (y: seq<byte>, k: nat)
    requires members.Member? && members.rest.Member?
    requires var sep := |MemberEnd(members.rest, format)|;
      sep >= 1 && White(c, q + 1, q + sep) && At(c, q + sep, PrintMembers(members.rest, format, d))
    ensures PrintMembers(members.rest, format, d) == If(format, Tabs(d)) + y && |y| >= 1 && y[0] == Quote
    ensures q + 1 <= k && White(c, q + 1, k) && At(c, k, y)
    ensures k + |y| == q + |MemberEnd(members.rest, format)| + |PrintMembers(members.rest, format, d)|
  {
    hide At, PrintMembers;
    var tabs, sep := If(format, Tabs(d)), |MemberEnd(members.rest, format)|;
    y := FirstKey(members.rest, format, d);
    AtSplit(c, q + sep, tabs, y);
    AtWhite(c, q + sep, tabs);
    k := q + sep + |tabs|;
  }

  lemma TextOf(members: Members, format: bool, d: nat, x: seq<byte>)
    requires members.Member? && PrintMembers(members, format, d) == If(format, Tabs(d)) + x
    ensures x == PrintString(members.key) + ([Colon] + If(format, [Tab])) + Print(members.item, format, d)
               + MemberEnd(members.rest, format) + PrintMembers(members.rest, format, d)
  {
    hide Escaped, Print, If, PrintString;
    var a, b, k := If(format, Tabs(d)), PrintString(members.key), [Colon] + If(format, [Tab]);
    var text, e, f := Print(members.item, format, d), MemberEnd(members.rest, format), PrintMembers(members.rest, format, d);
    assert PrintMembers(members, format, d) == PrintMember(members.key, text, format, d) + e + f;
    Regroup(a, b, k, text, e, f);
    Cancel(a, x, b + k + text + (e + f));
    assert b + k + text + (e + f) == b + k + text + e + f;
  }

  lemma Cancel<T>(a: seq<T>, x: seq<T>, y: seq<T>)
    requires a + x == a + y
    ensures x == y
  {
    assert x == (a + x)[|a|..] && y == (a + y)[|a|..];
  }

  /** After a member: a comma, or nothing but white space up to the brace. */
  lemma MemberEnds(c: seq<byte>, q: nat, rest: Members, format: bool, more: nat, close: nat)
    requires var sep := MemberEnd(rest, format);
      At(c, q, sep) && White(c, q + |sep| + more, close) && close < |c| && c[close] == CloseObject
    requires rest.NoMember? ==> more == 0
    ensures rest.Member? ==> q < |c| && c[q] == Comma && White(c, q + 1, q + |MemberEnd(rest, format)|)
    ensures rest.Member? ==> MemberEnd(rest, format) != []
    ensures rest.NoMember? ==> White(c, q, close)
    ensures q < |c| && !NumberChar(c[q])
  {
    hide At;
    var nl := If(format, [NewLine]);
    if rest.Member? {
      AtSplit(c, q, [Comma], nl);
      AtByte(c, q, [Comma], 0);
      AtWhite(c, q + 1, nl);
    } else {
      assert MemberEnd(rest, format) == nl;
      AtWhite(c, q, nl);
    }
  }

  /** One member: key, colon, value. */
  lemma {:induction false} MemberBack(c: seq<byte>, o: nat, w: nat, members: Members, format: bool, d: nat, pd: int)
    requires Terminated(c) && members.Member? && Printable(members.item) && pd <= NestingLimit
    requires White(c, o + 1, o + 1 + w)
    requires At(c, o + 1 + w, MemberText(members, format, d))
    requires var e := o + 1 + w + |MemberText(members, format, d)|; e < |c| && !NumberChar(c[e])
    ensures var e := o + 1 + w + |MemberText(members, format, d)|;
      ParseMember(c, o, pd) == Outcome((members.key, members.item), Skip(c, e), pd + Depth(members.item))
    decreases members.item, 1
  {
    hide At, Print, ParseValue, ParseString, PrintString, MemberText, Skip, Printable, Depth, NumberChar, White;
    var p := o + 1 + w;
    var k, u := MemberLayout(c, p, members, format, d);
    SkipTo(c, o + 1, p);
    StringBack(c, p, members.key);
    NoWhite(c, k);
    SkipTo(c, k, k);
    SkipTo(c, k + 1, u);
    ValueBack(c, u, members.item, format, d, pd);
  }

  /** Where colon and value of a member stand. */
  lemma MemberLayout(c: seq<byte>, p: nat, members: Members, format: bool, d: nat) returns (k: nat, u: nat)
    requires members.Member? && Printable(members.item) && At(c, p, MemberText(members, format, d))
    ensures p < |c| && c[p] == Quote && At(c, p, PrintString(members.key)) && k == p + |PrintString(members.key)|
    ensures k < |c| && c[k] == Colon && White(c, k + 1, u)
    ensures u < |c| && c[u] > 32 && At(c, u, Print(members.item, format, d))
    ensures u + |Print(members.item, format, d)| == p + |MemberText(members, format, d)|
  {
    hide At, Print, Printable, Escaped;
    var key, mid, t := PrintString(members.key), [Colon] + If(format, [Tab]), Print(members.item, format, d);
    AtSplit(c, p, key + mid, t);
    AtSplit(c, p, key, mid);
    AtSplit(c, p + |key|, [Colon], If(format, [Tab]));
    AtByte(c, p, key, 0);
    AtByte(c, p + |key|, [Colon], 0);
    Opens(members.item, format, d);
    k := p + |key|;
    u := p + |key| + |mid|;
    AtByte(c, u, t, 0);
    AtWhite(c, k + 1, If(format, [Tab]));
  }

  lemma NoWhite(c: seq<byte>, p: nat)
    requires p <= |c|
    ensures White(c, p, p)
  {}

  // ------------------------------------------------------------------ the round trip

  /**
    Parsing what was printed gives the tree back and stops at the end of the text, exactly
    when the tree is nested at most 1000 deep; a deeper one is refused.
   */
  lemma RoundTrip(v: Value, format: bool, whole: bool)
    requires Printable(v)
    ensures Parse(Print(v, format, 0), whole) == if Depth(v) <= 1000 then Done(v, |Print(v, format, 0)|) else Fail
  {
    hide Print, ParseValue, Skip, Printable, Depth;
    var t := Print(v, format, 0);
    var c := t + [0];
    Opens(v, format, 0);
    assert c[0..|t|] == t;
    assert c[0] == t[0];
    NoMark(c);
    NoWhite(c, 0);
    SkipTo(c, 0, 0);
    Delimiters();
    ValueBack(c, 0, v, format, 0, 0);
    LastByte(c);
  }

  lemma NoMark(c: seq<byte>)
    requires |c| > 0 && c[0] != 0xEF
    ensures SkipMark(c) == 0
  {
    if |c| > 4 {
      assert c[0..3][0] == c[0];
    }
  }

  lemma LastByte(c: seq<byte>)
    requires |c| > 0
    ensures Skip(c, |c| - 1) == |c| - 1
  {}

  /** Different trees have different texts, however deep they are nested. */
  lemma PrintInjective(v: Value, w: Value, format: bool, format': bool)
    requires Printable(v) && Printable(w) && Print(v, format, 0) == Print(w, format', 0)
    ensures v == w
  {
    hide Print, ParseValue, Printable, Depth;
    var t := Print(v, format, 0);
    var c := t + [0];
    var room := NestingLimit - Max(Depth(v), Depth(w));
    assert c[0..|t|] == t;
    Delimiters();
    ValueBack(c, 0, v, format, 0, room);
    ValueBack(c, 0, w, format', 0, room);
  }

  // ------------------------------------------------------------------ C strings

  lemma EscapeVisible(b: byte)
    ensures NoNul(Escape(b))
  {}

  lemma {:induction false} EscapedVisible(s: seq<byte>)
    ensures NoNul(Escaped(s))
  {
    hide Escape;
    if s != [] {
      EscapeVisible(s[0]);
      EscapedVisible(s[1..]);
    }
  }

  lemma NumberVisible(t: seq<byte>)
    requires PrintedNumber(t)
    ensures NoNul(t)
  {
    hide NumberLength;
  }

  /** A printed text contains no NUL, so it is a C string of its full length. */
  lemma {:induction false} PrintVisible(v: Value, format: bool, d: nat)
    requires Printable(v)
    ensures NoNul(Print(v, format, d))
    decreases v
  {
    hide Escaped, NumberLength;
    match v
    case Null =>
    case False =>
    case True =>
    case Number(t) => NumberVisible(t);
    case String(s) => EscapedVisible(s);
    case Array(items) => ItemsVisible(items, format, d + 1);
    case Object(members) => MembersVisible(members, format, d + 1);
  }

  lemma {:induction false} ItemsVisible(items: Items, format: bool, d: nat)
    requires PrintableItems(items)
    ensures NoNul(PrintItems(items, format, d))
    decreases items
  {
    hide Print, Printable;
    if items.Item? {
      PrintVisible(items.value, format, d);
      ItemsVisible(items.next, format, d);
    }
  }

  lemma {:induction false} MembersVisible(members: Members, format: bool, d: nat)
    requires PrintableMembers(members)
    ensures NoNul(PrintMembers(members, format, d))
    decreases members
  {
    hide Print, Printable, Escaped;
    if members.Member? {
      var text := Print(members.item, format, d);
      EscapedVisible(members.key);
      PrintVisible(members.item, format, d);
      MembersVisible(members.rest, format, d);
      MemberVisible(members.key, text, format, d);
      assert NoNul(MemberEnd(members.rest, format));
      assert NoNul(PrintMember(members.key, text, format, d) + MemberEnd(members.rest, format));
    }
  }

  lemma MemberVisible(key: seq<byte>, text: seq<byte>, format: bool, d: nat)
    requires NoNul(Escaped(key)) && NoNul(text)
    ensures NoNul(PrintMember(key, text, format, d))
  {
    hide Escaped;
    assert NoNul(PrintString(key));
    assert NoNul([Colon] + If(format, [Tab]));
    assert NoNul(If(format, Tabs(d)) + PrintString(key));
  }
}
