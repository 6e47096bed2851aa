/**
  What the texts of cbits/hs_cJSON.c look like to a reader: the characters and escapes in
  use, a tree in both layouts, the white space and the mark that parsing passes over, and
  the grammar of the numbers it takes.
 */
module JsonLaws {
  import opened Bits
  import opened Utf8
  import opened JsonSpec
  import opened JsonRoundTrip

  // ------------------------------------------------------------------ characters

  /** The bytes of an ASCII text. */
  function Latin(s: string): (t: seq<byte>)
    requires forall i :: 0 <= i < |s| ==> s[i] < 128 as char
    ensures |t| == |s| && forall i :: 0 <= i < |s| ==> t[i] == Ascii(s[i])
  {
    seq(|s|, i requires 0 <= i < |s| => Ascii(s[i]))
  }

  /** Keywords and punctuation are those of section 2 and 3 of RFC 8259. */
  lemma Characters()
    ensures NullText == Latin("null") && FalseText == Latin("false") && TrueText == Latin("true")
    ensures [OpenArray, CloseArray, OpenObject, CloseObject] == Latin("[]{}")
    ensures [Comma, Colon, Minus, Quote, Backslash] == Latin(",:-\"\\")
    ensures [Space, Tab, NewLine] == Latin(" \t\n")
  {}

  /** The one-letter escapes of section 7 of RFC 8259: the letter, and what it stands for. */
  const EscapeLetters := "bfnrt\"\\/"
  const EscapedBytes: seq<byte> := [8, 12, Ascii('\n'), Ascii('\r'), Ascii('\t'), Ascii('\"'), Ascii('\\'), Ascii('/')]

  /** Every byte stands for itself, or for its one-letter escape, or for four digits. */
  lemma EscapeTable(b: byte)
    ensures forall k :: 0 <= k < 7 && b == EscapedBytes[k] ==> Escape(b) == [Ascii('\\'), Ascii(EscapeLetters[k])]
    ensures (forall k :: 0 <= k < 7 ==> b != EscapedBytes[k]) && b < 32 ==>
      |Escape(b)| == 6 && Spells(Escape(b), 0, b)
      && Escape(b)[4] == LowerDigits[b / 16] as int && Escape(b)[5] == LowerDigits[b % 16] as int
    ensures (forall k :: 0 <= k < 7 ==> b != EscapedBytes[k]) && b >= 32 ==> Escape(b) == [b]
  {
    hide HexForm, LowerHex, HexDigit;
    LetterBytes();
    if forall k :: 0 <= k < 7 ==> b != EscapedBytes[k] {
      assert b != EscapedBytes[0] && b != EscapedBytes[1] && b != EscapedBytes[2] && b != EscapedBytes[3]
          && b != EscapedBytes[4] && b != EscapedBytes[5] && b != EscapedBytes[6];
      if b < 32 {
        ControlSpelled(b);
      }
    }
  }

  lemma ControlSpelled(b: byte)
    requires b < 32 && |Escape(b)| == 6
    ensures Spells(Escape(b), 0, b)
    ensures Escape(b)[4] == LowerDigits[b / 16] as int && Escape(b)[5] == LowerDigits[b % 16] as int
  {
    hide LowerHex, HexDigit;
    HexDigitExact(0, b / 16);
    HexDigitExact(0, b % 16);
    DigitForms(0);
    assert b / 4096 == 0 && b / 256 % 16 == 0 && b / 16 % 16 == b / 16;
  }

  lemma LetterBytes()
    ensures EscapedBytes == [8, 12, 10, 13, 9, 34, 92, 47] && |EscapeLetters| == 8
    ensures EscapeLetters[0] as int == 98 && EscapeLetters[1] as int == 102 && EscapeLetters[2] as int == 110
    ensures EscapeLetters[3] as int == 114 && EscapeLetters[4] as int == 116 && EscapeLetters[5] as int == 34
    ensures EscapeLetters[6] as int == 92 && EscapeLetters[7] as int == 47
  {}

  /**
    A backslash before anything but the letter u: each of the eight letters puts out its
    byte, any other is refused.
   */
  lemma LetterExact(c: seq<byte>, p: nat, end: nat)
    requires p < end < |c| && c[p] == Ascii('\\') && c[p + 1] != Ascii('u')
    ensures forall k :: 0 <= k < 8 && c[p + 1] == Ascii(EscapeLetters[k]) ==>
      ChunkAt(c, p, end) == Chunk(2, [EscapedBytes[k]])
    ensures (forall k :: 0 <= k < 8 ==> c[p + 1] != Ascii(EscapeLetters[k])) ==> ChunkAt(c, p, end).BadChunk?
  {
    hide LiteralAt;
    LetterBytes();
    if forall k :: 0 <= k < 8 ==> c[p + 1] != Ascii(EscapeLetters[k]) {
      var b := c[p + 1];
      assert b != Ascii(EscapeLetters[0]) && b != Ascii(EscapeLetters[1]) && b != Ascii(EscapeLetters[2])
          && b != Ascii(EscapeLetters[3]) && b != Ascii(EscapeLetters[4]) && b != Ascii(EscapeLetters[5])
          && b != Ascii(EscapeLetters[6]) && b != Ascii(EscapeLetters[7]);
    }
  }

  /** Any byte but a backslash stands for itself. */
  lemma PlainExact(c: seq<byte>, p: nat, end: nat)
    requires p < end < |c| && c[p] != Ascii('\\')
    ensures ChunkAt(c, p, end) == Chunk(1, [c[p]])
  {}

  // ------------------------------------------------------------------ layout

  /** The texts, with `sep` between each two. */
  function Join(texts: seq<seq<byte>>, sep: seq<byte>): seq<byte> {
    if texts == [] then []
    else if |texts| == 1 then texts[0]
    else texts[0] + sep + Join(texts[1..], sep)
  }

  /** The texts of the elements. */
  function Texts(items: Items, format: bool, d: nat): seq<seq<byte>> {
    match items
    case NoItem => []
    case Item(v, next) => [Print(v, format, d)] + Texts(next, format, d)
  }

  /** The texts of the members: key, colon and value. */
  function MemberTexts(members: Members, format: bool, d: nat): seq<seq<byte>> {
    match members
    case NoMember => []
    case Member(key, v, rest) =>
      [Latin("\"") + Escaped(key) + Latin("\"") + Latin(if format then ":\t" else ":") + Print(v, format, d)]
      + MemberTexts(rest, format, d)
  }

  /** A new line, indented by `d` tabs. */
  function Line(d: nat): seq<byte> {
    Latin("\n") + seq(d, _ => Ascii('\t'))
  }

  /** An array is its elements, separated by a comma, and a space when formatted. */
  lemma ArrayLayoutLaw(items: Items, format: bool, d: nat)
    ensures Print(Array(items), format, d)
         == Latin("[") + Join(Texts(items, format, d + 1), Latin(if format then ", " else ",")) + Latin("]")
  {
    hide PrintItems, Texts, Join;
    Characters();
    ItemsJoined(items, format, d + 1);
    assert Latin("[") == [OpenArray] && Latin("]") == [CloseArray];
  }

  lemma {:induction false} ItemsJoined(items: Items, format: bool, d: nat)
    ensures PrintItems(items, format, d) == Join(Texts(items, format, d), Latin(if format then ", " else ","))
  {
    hide Print;
    if items.Item? {
      ItemsJoined(items.next, format, d);
      Commas(format);
      var t, ts := Print(items.value, format, d), Texts(items.next, format, d);
      assert ([t] + ts)[1..] == ts;
      assert items.next.Item? <==> ts != [];
    }
  }

  lemma Commas(format: bool)
    ensures Latin(if format then ", " else ",") == [Comma] + If(format, [Space])
    ensures Latin(if format then ":\t" else ":") == [Colon] + If(format, [Tab])
    ensures Latin("\"") == [Quote] && Latin(",") == [Comma] && Latin("\n") == [NewLine]
  {}

  /** What stands between two members: a comma, and a new line when formatted. */
  function Between(format: bool, d: nat): seq<byte> {
    Latin(",") + (if format then Line(d) else [])
  }

  /**
    An object is its members, separated by a comma; when formatted, each on a line of its
    own, one tab deeper than the closing brace.
   */
  lemma ObjectLayoutLaw(members: Members, format: bool, d: nat)
    ensures Print(Object(members), format, d)
         == Latin("{")
            + (if format && members.Member? then Line(d + 1) else [])
            + Join(MemberTexts(members, format, d + 1), Between(format, d + 1))
            + (if format then Line(d) else [])
            + Latin("}")
  {
    hide Print, PrintMembers, MemberTexts, Join, Latin, Tabs, Between;
    Braces();
    ObjectText(members, format, d);
    var nl, tabs := If(format, [NewLine]), If(format, Tabs(d));
    if members.Member? {
      MembersJoined(members, format, d + 1);
      var j := Join(MemberTexts(members, format, d + 1), Between(format, d + 1));
      JoinObject(nl, If(format, Tabs(d + 1)), j, tabs);
    } else {
      NoItems(format, d + 1);
      NoneJoined(format, d);
      JoinEmpty(nl, tabs);
    }
  }

  lemma JoinObject(nl: seq<byte>, inner: seq<byte>, j: seq<byte>, outer: seq<byte>)
    ensures [OpenObject] + nl + (inner + j + nl) + outer + [CloseObject]
         == [OpenObject] + (nl + inner) + j + (nl + outer) + [CloseObject]
  {}

  lemma JoinEmpty(nl: seq<byte>, outer: seq<byte>)
    ensures [OpenObject] + nl + [] + outer + [CloseObject] == [OpenObject] + [] + [] + (nl + outer) + [CloseObject]
  {}

  lemma Braces()
    ensures Latin("{") == [OpenObject] && Latin("}") == [CloseObject]
    ensures forall d: nat :: Line(d) == [NewLine] + Tabs(d)
  {}

  lemma NoneJoined(format: bool, d: nat)
    ensures Join(MemberTexts(NoMember, format, d + 1), Between(format, d + 1)) == []
  {}

  lemma ObjectText(members: Members, format: bool, d: nat)
    ensures Print(Object(members), format, d)
         == [OpenObject] + If(format, [NewLine]) + PrintMembers(members, format, d + 1) + If(format, Tabs(d)) + [CloseObject]
  {
    hide PrintMembers;
  }

  /** The members, each with its indentation before it and its line end after it. */
  lemma {:induction false} MembersJoined(members: Members, format: bool, d: nat)
    requires members.Member?
    ensures PrintMembers(members, format, d)
         == If(format, Tabs(d)) + Join(MemberTexts(members, format, d), Between(format, d)) + If(format, [NewLine])
    decreases members
  {
    hide Print, Escaped, Tabs, Latin, PrintMembers, MemberTexts, Join, PrintString, Between;
    var text := MemberString(members, format, d);
    var tabs, nl, rest := If(format, Tabs(d)), If(format, [NewLine]), members.rest;
    MembersUnfold(members, format, d);
    if rest.Member? {
      MembersJoined(rest, format, d);
      JoinMore(tabs, text, nl, Join(MemberTexts(rest, format, d), Between(format, d)));
    }
  }

  /** Key, colon and value of the first member. */
  function MemberString(members: Members, format: bool, d: nat): seq<byte>
    requires members.Member?
  {
    PrintString(members.key) + ([Colon] + If(format, [Tab])) + Print(members.item, format, d)
  }

  /** One step of the text and of the joined form. */
  lemma MembersUnfold(members: Members, format: bool, d: nat)
    requires members.Member?
    ensures var text, tabs, nl, rest := MemberString(members, format, d), If(format, Tabs(d)), If(format, [NewLine]), members.rest;
      && PrintMembers(members, format, d)
         == (if rest.Member? then (tabs + text) + ([Comma] + nl) + PrintMembers(rest, format, d) else tabs + text + nl)
      && Join(MemberTexts(members, format, d), Between(format, d))
         == (if rest.Member? then text + ([Comma] + nl + tabs) + Join(MemberTexts(rest, format, d), Between(format, d)) else text)
  {
    hide Print, Escaped, Tabs, Latin;
    Commas(format);
    Braces();
    var text, tabs := MemberString(members, format, d), If(format, Tabs(d));
    var ts := MemberTexts(members.rest, format, d);
    assert MemberTexts(members, format, d) == [text] + ts && ([text] + ts)[1..] == ts;
    assert PrintMember(members.key, Print(members.item, format, d), format, d) == tabs + text;
    assert Between(format, d) == [Comma] + If(format, [NewLine]) + tabs;
    NoItems(format, d);
    assert members.rest.Member? <==> ts != [];
  }

  lemma JoinMore(tabs: seq<byte>, text: seq<byte>, nl: seq<byte>, j: seq<byte>)
    ensures (tabs + text) + ([Comma] + nl) + (tabs + j + nl) == tabs + (text + ([Comma] + nl + tabs) + j) + nl
  {}

  // ------------------------------------------------------------------ around a text

  /** A text at `p` with nothing but white space before and after it. */
  lemma PaddedAt(c: seq<byte>, p: nat, v: Value, format: bool)
    requires Printable(v) && Terminated(c) && White(c, SkipMark(c), p) && At(c, p, Print(v, format, 0))
    requires White(c, p + |Print(v, format, 0)|, |c|)
    ensures var e := p + |Print(v, format, 0)|;
      && e < |c| && SkipMark(c) < |c| && p < |c| && Skip(c, SkipMark(c)) == p && Skip(c, e) == |c| - 1
      && ParseValue(c, p, 0) == Outcome(v, e, Depth(v))
  {
    hide Print, ParseValue, Printable, Depth, NumberChar, At, SkipMark;
    var t := Print(v, format, 0);
    PrintVisible(v, format, 0);
    Opens(v, format, 0);
    AtByte(c, p, t, 0);
    AtByte(c, p, t, |t| - 1);
    SkipTo(c, SkipMark(c), p);
    SkipToLast(c, p + |t|);
    WhiteEnds(c[p + |t|]);
    ValueBack(c, p, v, format, 0, 0);
  }

  /**
    White space before and after a text, and a UTF-8 byte order mark in front of it, change
    nothing but where the parse ends.
   */
  lemma Padded(v: Value, format: bool, mark: bool, before: seq<byte>, after: seq<byte>, whole: bool)
    requires Printable(v)
    requires forall i :: 0 <= i < |before| ==> before[i] <= 32
    requires forall i :: 0 <= i < |after| ==> after[i] <= 32
    ensures var m: seq<byte> := if mark then [0xEF, 0xBB, 0xBF] else [];
      var start := m + before + Print(v, format, 0);
      Parse(start + after, whole) == Outcome(v, if whole then |start| + |after| else |start|, Depth(v))
  {
    hide Print, ParseValue, Skip, Printable, Depth, SkipMark, At, Terminated, White;
    var m: seq<byte> := if mark then [0xEF, 0xBB, 0xBF] else [];
    var t := Print(v, format, 0);
    var c := m + before + t + after + [0];
    Opens(v, format, 0);
    MarkSkipped(c, m, before, t, after);
    Around(c, m, before, t, after);
    PaddedAt(c, |m| + |before|, v, format);
  }

  lemma Around(c: seq<byte>, m: seq<byte>, before: seq<byte>, t: seq<byte>, after: seq<byte>)
    requires c == m + before + t + after + [0]
    requires forall i :: 0 <= i < |before| ==> before[i] <= 32
    requires forall i :: 0 <= i < |after| ==> after[i] <= 32
    ensures var p, e := |m| + |before|, |m| + |before| + |t|;
      Terminated(c) && White(c, |m|, p) && At(c, p, t) && White(c, e, |c|)
  {}

  lemma WhiteEnds(b: byte)
    requires b <= 32
    ensures !NumberChar(b)
  {}

  lemma {:induction false} SkipToLast(c: seq<byte>, o: nat)
    requires o < |c| && forall i :: o <= i < |c| ==> c[i] <= 32
    ensures Skip(c, o) == |c| - 1
    decreases |c| - o
  {
    if o < |c| - 1 {
      SkipToLast(c, o + 1);
    }
  }

  lemma MarkSkipped(c: seq<byte>, m: seq<byte>, before: seq<byte>, t: seq<byte>, after: seq<byte>)
    requires c == m + before + t + after + [0] && (m == [] || m == [0xEF, 0xBB, 0xBF])
    requires t != [] && t[0] != 0xEF && forall i :: 0 <= i < |before| ==> before[i] <= 32
    ensures SkipMark(c) == |m|
  {
    var rest := before + t + after + [0];
    assert c == m + rest && rest[0] != 0xEF;
    if m == [] {
      NoMark(c);
    } else {
      assert c[0..3] == m;
    }
  }

  // ------------------------------------------------------------------ numbers

  predicate Digit(b: byte) {
    Ascii('0') <= b <= Ascii('9')
  }

  predicate Sign(b: byte) {
    b == Ascii('+') || b == Ascii('-')
  }

  predicate ExponentMark(b: byte) {
    b == Ascii('e') || b == Ascii('E')
  }

  /** The characters of a number. */
  lemma NumberChars(b: byte)
    ensures IsDigit(b) <==> Digit(b)
    ensures NumberChar(b) <==> Digit(b) || Sign(b) || ExponentMark(b) || b == Ascii('.')
  {}

  ghost predicate AllDigits(s: seq<byte>, a: int, b: int) {
    0 <= a <= b <= |s| && forall k :: a <= k < b ==> Digit(s[k])
  }

  /** A digit sequence at `f..m` behind an exponent mark and an optional sign. */
  ghost predicate Exponent(s: seq<byte>, f: nat, m: nat) {
    f < m <= |s| && ExponentMark(s[f])
    && var j := if f + 1 < m && Sign(s[f + 1]) then f + 2 else f + 1; j < m && AllDigits(s, j, m)
  }

  /**
    The first `m` bytes are a decimal number: a sign, digits up to `w`, a point and digits
    up to `f`, an exponent; all but one digit may be missing.
   */
  ghost predicate DecimalParts(s: seq<byte>, m: nat, i: nat, w: nat, f: nat) {
    m <= |s| && i <= w <= f <= m
    && (i == 0 || (i == 1 && Sign(s[0])))
    && AllDigits(s, i, w)
    && (f == w || (s[w] == Ascii('.') && AllDigits(s, w + 1, f)))
    && (w > i || f > w + 1)
    && (f == m || Exponent(s, f, m))
  }

  ghost predicate Decimal(s: seq<byte>, m: nat) {
    exists i, w, f :: DecimalParts(s, m, i, w, f)
  }

  lemma {:induction false} DigitsEndExact(s: seq<byte>, i: nat)
    requires i <= |s|
    ensures var e := DigitsEnd(s, i);
      AllDigits(s, i, e) && (e < |s| ==> !Digit(s[e])) && forall b :: AllDigits(s, i, b) ==> b <= e
    decreases |s| - i
  {
    if i < |s| && IsDigit(s[i]) {
      DigitsEndExact(s, i + 1);
      forall b | AllDigits(s, i, b) ensures b <= DigitsEnd(s, i) {
        assert b > i ==> AllDigits(s, i + 1, b);
      }
    }
  }

  /** The exponent found is one, and no longer one is there. */
  lemma ExponentExact(s: seq<byte>, f: nat)
    requires f <= |s|
    ensures var e := ExponentEnd(s, f); (e == f || Exponent(s, f, e)) && forall m: nat :: Exponent(s, f, m) ==> m <= e
  {
    hide DigitsEnd;
    if f < |s| && ExponentMark(s[f]) {
      var j := if f + 1 < |s| && Sign(s[f + 1]) then f + 2 else f + 1;
      DigitsEndExact(s, j);
      forall m: nat | Exponent(s, f, m) ensures m <= ExponentEnd(s, f) {
        assert f + 1 < m;
      }
    }
  }

  /** Where the sign, the digits and the fraction of a number end. */
  function Parts(s: seq<byte>): (p: (nat, nat, nat))
    ensures p.0 <= p.1 <= p.2 <= |s|
  {
    var i := if |s| > 0 && Sign(s[0]) then 1 else 0;
    var w := DigitsEnd(s, i);
    (i, w, if w < |s| && s[w] == Ascii('.') then DigitsEnd(s, w + 1) else w)
  }

  lemma LengthByParts(s: seq<byte>)
    ensures var (i, w, f) := Parts(s); NumberLength(s) == if w == i && f <= w + 1 then 0 else ExponentEnd(s, f)
  {
    hide DigitsEnd, ExponentEnd;
  }

  /** What strtod takes of a text is its longest prefix that is a decimal number. */
  lemma LongestNumber(s: seq<byte>, m: nat)
    ensures var n := NumberLength(s); n > 0 ==> Decimal(s, n)
    ensures Decimal(s, m) ==> m <= NumberLength(s)
  {
    hide NumberLength, ExponentEnd, Exponent, Digit, Sign, DigitsEnd, ExponentMark;
    LengthByParts(s);
    var (i, w, f) := Parts(s);
    PartsExact(s);
    ExponentExact(s, f);
    if NumberLength(s) > 0 {
      assert DecimalParts(s, NumberLength(s), i, w, f);
    }
    if Decimal(s, m) {
      var i', w', f' :| DecimalParts(s, m, i', w', f');
      PartsWithin(s, m, i', w', f');
    }
  }

  lemma PartsExact(s: seq<byte>)
    ensures var (i, w, f) := Parts(s);
      && (i == 0 || (i == 1 && Sign(s[0]))) && AllDigits(s, i, w)
      && (f == w || (s[w] == Ascii('.') && AllDigits(s, w + 1, f)))
  {
    hide DigitsEnd;
    var (i, w, f) := Parts(s);
    DigitsEndExact(s, i);
    if w < |s| {
      DigitsEndExact(s, w + 1);
    }
  }

  lemma Kinds(b: byte)
    ensures Sign(b) || ExponentMark(b) || b == Ascii('.') ==> !Digit(b)
    ensures !(Sign(b) && ExponentMark(b)) && !(Sign(b) && b == Ascii('.')) && !(ExponentMark(b) && b == Ascii('.'))
  {}

  /** Any other reading of a prefix is not longer. */
  lemma PartsWithin(s: seq<byte>, m: nat, i': nat, w': nat, f': nat)
    requires DecimalParts(s, m, i', w', f')
    ensures m <= NumberLength(s)
  {
    hide NumberLength, ExponentEnd, Exponent, Digit, Sign, DigitsEnd, ExponentMark;
    LengthByParts(s);
    var (i, w, f) := Parts(s);
    SameSign(s, m, i', w', f');
    assert i' == i;
    DigitsEndExact(s, i);
    ExponentExact(s, f);
    assert w' <= w;
    if w' < w {
      StopsEarly(s, m, w', f');
    } else {
      if w < |s| {
        DigitsEndExact(s, w + 1);
        Kinds(s[w]);
      }
      if f' < f {
        FractionEarly(s, m, w, f', f);
      }
    }
  }

  lemma SameSign(s: seq<byte>, m: nat, i: nat, w: nat, f: nat)
    requires DecimalParts(s, m, i, w, f)
    ensures i == (if |s| > 0 && Sign(s[0]) then 1 else 0)
  {
    hide Digit, Sign, ExponentMark, Exponent;
    Kinds(s[0]);
  }

  /** Cut short inside the digits, nothing can follow. */
  lemma StopsEarly(s: seq<byte>, m: nat, w: nat, f: nat)
    requires m <= |s| && w <= f <= m && w < |s| && Digit(s[w])
    requires f == w || s[w] == Ascii('.')
    requires f == m || Exponent(s, f, m)
    ensures m == w
  {
    Kinds(s[w]);
  }

  lemma FractionEarly(s: seq<byte>, m: nat, w: nat, f': nat, f: nat)
    requires m <= |s| && w <= f' < f <= |s| && f' <= m
    requires s[w] == Ascii('.') && AllDigits(s, w + 1, f)
    requires f' == m || Exponent(s, f', m)
    ensures m == f'
  {
    Kinds(s[f']);
  }
}
