/**
  The texts that the parser of cbits/hs_cJSON.c takes, as a grammar that says nothing about
  how they are read: which value stands between two positions. It follows RFC 8259, with
  the parser's own liberties: any byte up to 32 is white space, a number is the longest
  decimal number among 63 characters, and a string may hold any byte.
 */
module JsonGrammar {
  import opened Bits
  import opened Utf8
  import opened JsonSpec
  import opened JsonRoundTrip
  import opened JsonLaws
  import JsonParse

  // ------------------------------------------------------------------ the grammar

  /** The word stands from `a` to `b`. */
  ghost predicate WordAt(c: seq<byte>, a: nat, b: nat, word: seq<byte>) {
    a <= b <= |c| && c[a..b] == word
  }

  /** From `a` to `n` there are number characters, 63 of them or up to one that is none. */
  ghost predicate NumberRunAt(c: seq<byte>, a: nat, n: nat) {
    a <= n <= |c| && n - a <= 63 && (forall i :: a <= i < n ==> NumberChar(c[i]))
    && (n == |c| || n - a == 63 || !NumberChar(c[n]))
  }

  /** The longest decimal number in a run of number characters. */
  ghost predicate NumberAt(c: seq<byte>, a: nat, b: nat, token: seq<byte>) {
    exists n: nat :: NumberRunAt(c, a, n) && a < b <= n
      && token == c[a..b] && Decimal(c[a..n], b - a) && forall m: nat :: Decimal(c[a..n], m) ==> m <= b - a
  }

  /** How many backslashes stand right before `i`, back to `p`. */
  ghost function Backslashes(c: seq<byte>, p: nat, i: nat): nat
    requires p <= i <= |c|
    decreases i
  {
    if i > p && c[i - 1] == Backslash then 1 + Backslashes(c, p, i - 1) else 0
  }

  /** A quote behind an even number of backslashes. */
  ghost predicate Unescaped(c: seq<byte>, p: nat, i: nat) {
    p <= i < |c| && c[i] == Quote && Backslashes(c, p, i) % 2 == 0
  }

  /** The first such quote. */
  ghost predicate ClosingQuote(c: seq<byte>, p: nat, e: nat) {
    Unescaped(c, p, e) && forall i: nat :: i < e ==> !Unescaped(c, p, i)
  }

  /**
    What `taken` bytes at `p` stand for: a byte for itself, a one-letter escape, a code
    point in UTF-8, or zero for an escape with a bad digit in its first group.
   */
  ghost predicate PieceAt(c: seq<byte>, p: nat, end: nat, taken: nat, bytes: seq<byte>)
    requires p < end < |c|
  {
    || (c[p] != Backslash && taken == 1 && bytes == [c[p]])
    || (c[p] == Backslash && taken == 2 && exists k :: 0 <= k < 8 && c[p + 1] == Ascii(EscapeLetters[k]) && bytes == [EscapedBytes[k]])
    || (c[p] == Backslash && c[p + 1] == Ascii('u') && p + 6 <= end && BadGroup(c, p) && taken == 6 && bytes == [0])
    || (exists u: CodePoint :: Denotes(c, p, end, u) && taken == EscapeLength(u) && bytes == Encode(u))
  }

  /** The pieces from `p` on stand for `s`; the last may reach over the quote. */
  ghost predicate PiecesAt(c: seq<byte>, p: nat, end: nat, s: seq<byte>)
    requires p <= end + 1 && end < |c|
    decreases end + 1 - p
  {
    if p >= end then s == []
    else
      exists taken: nat, bytes ::
        PieceAt(c, p, end, taken, bytes) && 1 <= taken && p + taken <= end + 1
        && bytes <= s && PiecesAt(c, p + taken, end, s[|bytes|..])
  }

  ghost predicate StringAt(c: seq<byte>, a: nat, b: nat, s: seq<byte>) {
    a + 2 <= b <= |c| && c[a] == Quote && ClosingQuote(c, a + 1, b - 1) && PiecesAt(c, a + 1, b - 1, s)
  }

  /** The value `v` stands from `a` to `b`. */
  ghost predicate ValueAt(c: seq<byte>, a: nat, b: nat, v: Value)
    decreases v, 0
  {
    match v
    case Null => WordAt(c, a, b, NullText)
    case False => WordAt(c, a, b, FalseText)
    case True => WordAt(c, a, b, TrueText)
    case Number(t) => (a < |c| && (Digit(c[a]) || c[a] == Minus)) && NumberAt(c, a, b, t)
    case String(s) => StringAt(c, a, b, s)
    case Array(items) =>
      a + 2 <= b <= |c| && c[a] == OpenArray && c[b - 1] == CloseArray
      && (if items.NoItem? then White(c, a + 1, b - 1) else ItemsAt(c, a + 1, b - 1, items))
    case Object(members) =>
      a + 2 <= b <= |c| && c[a] == OpenObject && c[b - 1] == CloseObject
      && (if members.NoMember? then White(c, a + 1, b - 1) else MembersAt(c, a + 1, b - 1, members))
  }

  /** A value with white space around it. */
  ghost predicate PaddedValueAt(c: seq<byte>, a: nat, b: nat, v: Value)
    decreases v, 1
  {
    exists p: nat, q: nat :: White(c, a, p) && ValueAt(c, p, q, v) && White(c, q, b)
  }

  /** Elements with a comma between each two. */
  ghost predicate ItemsAt(c: seq<byte>, a: nat, b: nat, items: Items)
    decreases items
  {
    items.Item?
    && (if items.next.NoItem? then PaddedValueAt(c, a, b, items.value)
        else exists r: nat :: PaddedValueAt(c, a, r, items.value) && r < b <= |c| && c[r] == Comma && ItemsAt(c, r + 1, b, items.next))
  }

  /** A key, a colon and a value. */
  ghost predicate MemberAt(c: seq<byte>, a: nat, b: nat, key: seq<byte>, v: Value)
    decreases v, 2
  {
    exists k: nat, l: nat, m: nat ::
      White(c, a, k) && StringAt(c, k, l, key) && White(c, l, m) && m < |c| && c[m] == Colon && PaddedValueAt(c, m + 1, b, v)
  }

  /** Members with a comma between each two. */
  ghost predicate MembersAt(c: seq<byte>, a: nat, b: nat, members: Members)
    decreases members
  {
    members.Member?
    && (if members.rest.NoMember? then MemberAt(c, a, b, members.key, members.item)
        else exists r: nat ::
          MemberAt(c, a, r, members.key, members.item) && r < b <= |c| && c[r] == Comma && MembersAt(c, r + 1, b, members.rest))
  }

  // ------------------------------------------------------------------ strings

  lemma PieceExact(c: seq<byte>, p: nat, end: nat, taken: nat, bytes: seq<byte>)
    requires p < end < |c|
    ensures PieceAt(c, p, end, taken, bytes) <==> ChunkAt(c, p, end) == Chunk(taken, bytes)
  {
    hide LiteralAt, Encode, WellFormed, BadGroup, EscapeLength;
    LetterBytes();
    forall u: CodePoint | Denotes(c, p, end, u) ensures ChunkAt(c, p, end) == Chunk(EscapeLength(u), Encode(u)) {
      DenotedChunk(c, p, end, u);
    }
    if c[p] != Backslash {
      PlainExact(c, p, end);
    } else if c[p + 1] == 117 {
      JsonParse.EscapeExact(c, p, end);
    } else {
      LetterExact(c, p, end);
      if forall k :: 0 <= k < 8 ==> c[p + 1] != Ascii(EscapeLetters[k]) {
        assert ChunkAt(c, p, end).BadChunk?;
      }
    }
  }

  lemma DenotedChunk(c: seq<byte>, p: nat, end: nat, u: CodePoint)
    requires p < end < |c| && Denotes(c, p, end, u)
    ensures ChunkAt(c, p, end) == Chunk(EscapeLength(u), Encode(u))
  {
    hide WellFormed, ChunkAt, Encode;
    JsonParse.WellFormedChunk(c, p, end, u);
  }

  lemma {:induction false} PiecesExact(c: seq<byte>, p: nat, end: nat, s: seq<byte>)
    requires p <= end + 1 && end < |c|
    ensures PiecesAt(c, p, end, s) <==> Unescape(c, p, end) == Text(s)
    decreases end + 1 - p
  {
    hide PieceAt, ChunkAt;
    if p < end {
      var k := ChunkAt(c, p, end);
      if PiecesAt(c, p, end, s) {
        var taken: nat, bytes :|
          PieceAt(c, p, end, taken, bytes) && 1 <= taken && p + taken <= end + 1
          && bytes <= s && PiecesAt(c, p + taken, end, s[|bytes|..]);
        PieceExact(c, p, end, taken, bytes);
        PiecesExact(c, p + taken, end, s[|bytes|..]);
      }
      if Unescape(c, p, end) == Text(s) {
        var rest := s[|k.bytes|..];
        PieceExact(c, p, end, k.taken, k.bytes);
        PiecesExact(c, p + k.taken, end, rest);
      }
    }
  }

  /** The first pass finds the closing quote of the string that starts at `p`. */
  lemma {:induction false} ClosingExact(c: seq<byte>, p: nat, q: nat, e: nat)
    requires p <= q <= |c| && Backslashes(c, p, q) % 2 == 0 && forall i: nat :: i < q ==> !Unescaped(c, p, i)
    ensures ClosingQuote(c, p, e) <==> FindEnd(c, q).Done? && FindEnd(c, q).end == e
    decreases |c| - q
  {
    if q < |c| && c[q] == Quote {
      assert Unescaped(c, p, q);
    } else if q < |c| && c[q] != Backslash {
      ClosingExact(c, p, q + 1, e);
    } else if q + 1 < |c| {
      assert !Unescaped(c, p, q) && !Unescaped(c, p, q + 1);
      ClosingExact(c, p, q + 2, e);
    }
  }

  lemma EndBehind(c: seq<byte>, p: nat)
    requires p <= |c|
    ensures FindEnd(c, p).Done? ==> p <= FindEnd(c, p).end < |c|
  {}

  /** What is parsed as a string. */
  lemma StringExact(c: seq<byte>, o: nat, b: nat, s: seq<byte>)
    requires o < |c| && Terminated(c)
    ensures StringAt(c, o, b, s) <==> ParseString(c, o) == Done(s, b)
  {
    hide PiecesAt, Unescape, FindEnd, ClosingQuote;
    EndBehind(c, o + 1);
    if o + 2 <= b <= |c| {
      ClosingExact(c, o + 1, o + 1, b - 1);
      PiecesExact(c, o + 1, b - 1, s);
    }
  }

  // ------------------------------------------------------------------ numbers

  lemma {:induction false} RunExact(c: seq<byte>, o: nat, limit: nat)
    requires o <= |c|
    ensures var s := NumberRun(c, o, limit);
      s == c[o..o + |s|] && (o + |s| == |c| || |s| == limit || !NumberChar(c[o + |s|]))
    decreases limit
  {
    if limit > 0 && o < |c| && NumberChar(c[o]) {
      RunExact(c, o + 1, limit - 1);
    }
  }

  /** What is parsed as a number. */
  lemma NumberExact(c: seq<byte>, o: nat, b: nat, t: seq<byte>)
    requires o < |c| && Terminated(c)
    ensures NumberAt(c, o, b, t) <==> ParseNumber(c, o) == Done(Number(t), b)
  {
    hide NumberLength, NumberRun, Decimal, NumberChar;
    var s := NumberRun(c, o, 63);
    RunExact(c, o, 63);
    var n := o + |s|;
    forall m: nat ensures NumberRunAt(c, o, m) <==> m == n {
      RunOnce(c, o, m, n);
    }
    forall m: nat ensures (NumberLength(s) > 0 ==> Decimal(s, NumberLength(s))) && (Decimal(s, m) ==> m <= NumberLength(s)) {
      LongestNumber(s, m);
    }
    var l := NumberLength(s);
    if l > 0 {
      assert s[..l] == c[o..o + l];
    }
  }

  lemma RunOnce(c: seq<byte>, o: nat, m: nat, n: nat)
    requires NumberRunAt(c, o, n)
    ensures NumberRunAt(c, o, m) <==> m == n
  {
    hide NumberChar;
  }

  // ------------------------------------------------------------------ values

  /** A value starts with a visible character that closes nothing, and ends inside. */
  lemma ValueInside(c: seq<byte>, a: nat, b: nat, v: Value)
    requires Terminated(c) && ValueAt(c, a, b, v)
    ensures a < b < |c| && c[a] > 32 && c[a] != CloseArray && c[a] != CloseObject
  {
    hide PiecesAt, Decimal, ItemsAt, MembersAt, White, Backslashes;
    match v
    case Null => WordInside(c, a, b, NullText);
    case False => WordInside(c, a, b, FalseText);
    case True => WordInside(c, a, b, TrueText);
    case Number(t) =>
    case String(s) =>
    case Array(items) =>
    case Object(members) =>
  }

  lemma WordInside(c: seq<byte>, a: nat, b: nat, word: seq<byte>)
    requires Terminated(c) && WordAt(c, a, b, word) && |word| > 0 && word[|word| - 1] != 0
    ensures a < b < |c| && b - a == |word| && c[a] == word[0] && At(c, a, word)
  {
    assert c[a..b][|word| - 1] == c[b - 1] && c[a..b][0] == c[a];
  }

  /**
    Every text of the grammar is parsed to its value, with the depth counted from `d`,
    exactly when it is not nested too deep; a deeper one is refused.
   */
  lemma {:induction false} Complete(c: seq<byte>, a: nat, b: nat, v: Value, d: int)
    requires Terminated(c) && ValueAt(c, a, b, v) && d <= NestingLimit
    ensures a < b < |c| && ParseValue(c, a, d) == Outcome(v, b, d + Depth(v))
    decreases v, 0
  {
    hide At, ParseArray, ParseObject, ParseString, ParseNumber, ClosingQuote, PiecesAt, NumberAt, ItemsAt, MembersAt, White;
    ValueInside(c, a, b, v);
    NotKeyword(c, a);
    match v
    case Null => WordInside(c, a, b, NullText);
    case False => WordInside(c, a, b, FalseText);
    case True => WordInside(c, a, b, TrueText);
    case Number(t) => NumberExact(c, a, b, t);
    case String(s) => StringExact(c, a, b, s);
    case Array(items) => CompleteArray(c, a, b, items, d);
    case Object(members) => CompleteObject(c, a, b, members, d);
  }

  lemma {:induction false} CompleteArray(c: seq<byte>, a: nat, b: nat, items: Items, d: int)
    requires Terminated(c) && ValueAt(c, a, b, Array(items)) && d <= NestingLimit
    ensures ParseArray(c, a, d) == Outcome(Array(items), b, d + 1 + ItemsDepth(items))
    decreases items, 2
  {
    hide ItemsAt, ParseItems, White, Skip;
    NoItems(false, 0);
    if items.NoItem? {
      SkipTo(c, a + 1, b - 1);
    } else {
      var p := FirstItem(c, a + 1, b - 1, items);
      SkipTo(c, a + 1, p);
      if d < NestingLimit {
        Within(c, a + 1, p);
        CompleteItems(c, a + 1, p - 1, b - 1, items, d + 1);
      }
    }
  }

  lemma Within(c: seq<byte>, a: nat, b: nat)
    requires White(c, a, b)
    ensures a <= b <= |c|
  {}

  /** Where the first element starts. */
  lemma FirstItem(c: seq<byte>, a: nat, b: nat, items: Items) returns (p: nat)
    requires Terminated(c) && ItemsAt(c, a, b, items)
    ensures White(c, a, p) && p < |c| && c[p] > 32 && c[p] != CloseArray
  {
    hide PaddedValueAt;
    var r: nat :| PaddedValueAt(c, a, r, items.value);
    p := ValueStart(c, a, r, items.value);
  }

  lemma ValueStart(c: seq<byte>, a: nat, r: nat, v: Value) returns (p: nat)
    requires Terminated(c) && PaddedValueAt(c, a, r, v)
    ensures White(c, a, p) && p < |c| && c[p] > 32 && c[p] != CloseArray
  {
    hide ValueAt;
    var p': nat, q: nat :| White(c, a, p') && ValueAt(c, p', q, v) && White(c, q, r);
    ValueInside(c, p', q, v);
    p := p';
  }

  /** The loop over the elements; the byte at `o` is the last before them, or white space. */
  lemma {:induction false} CompleteItems(c: seq<byte>, a: nat, o: nat, b: nat, items: Items, d: int)
    requires Terminated(c) && ItemsAt(c, a, b, items) && White(c, a, o + 1) && o + 1 < |c| && d <= NestingLimit
    requires b < |c| && c[b] > 32 && c[b] != Comma
    ensures ParseItems(c, o, d) == Outcome(items, b, d + ItemsDepth(items))
    decreases items, 1
  {
    hide PaddedValueAt, White, ParseValue, Skip, Depth;
    NoItems(false, 0);
    var v, next := items.value, items.next;
    if next.NoItem? {
      var p, q := CompletePadded(c, a, o + 1, b, v, d);
    } else {
      var r: nat :| PaddedValueAt(c, a, r, v) && r < b <= |c| && c[r] == Comma && ItemsAt(c, r + 1, b, next);
      var p, q := CompletePadded(c, a, o + 1, r, v, d);
      NoWhite(c, r + 1);
      CompleteItems(c, r + 1, r, b, next, d);
    }
  }

  /** A value with white space around it, some of which was already skipped. */
  lemma {:induction false} CompletePadded(c: seq<byte>, a: nat, o: nat, r: nat, v: Value, d: int) returns (p: nat, q: nat)
    requires Terminated(c) && PaddedValueAt(c, a, r, v) && White(c, a, o) && o < |c| && d <= NestingLimit
    requires r < |c| && c[r] > 32
    ensures Skip(c, o) == p && p < q < |c| && Skip(c, q) == r
    ensures ParseValue(c, p, d) == Outcome(v, q, d + Depth(v))
    decreases v, 1
  {
    hide ValueAt, ParseValue, Skip, Depth;
    var p': nat, q': nat :| White(c, a, p') && ValueAt(c, p', q', v) && White(c, q', r);
    p, q := p', q';
    Complete(c, p, q, v, d);
    ValueInside(c, p, q, v);
    SkipTo(c, o, p);
    SkipTo(c, q, r);
  }

  lemma {:induction false} CompleteObject(c: seq<byte>, a: nat, b: nat, members: Members, d: int)
    requires Terminated(c) && ValueAt(c, a, b, Object(members)) && d <= NestingLimit
    ensures ParseObject(c, a, d) == Outcome(Object(members), b, d + 1 + MembersDepth(members))
    decreases members, 3
  {
    hide MembersAt, ParseMembers, White, Skip;
    NoItems(false, 0);
    if members.NoMember? {
      SkipTo(c, a + 1, b - 1);
    } else {
      var k := FirstKeyAt(c, a + 1, b - 1, members);
      SkipTo(c, a + 1, k);
      if d < NestingLimit {
        Within(c, a + 1, k);
        CompleteMembers(c, a + 1, k - 1, b - 1, members, d + 1);
      }
    }
  }

  /** Where the first key starts. */
  lemma FirstKeyAt(c: seq<byte>, a: nat, b: nat, members: Members) returns (k: nat)
    requires MembersAt(c, a, b, members)
    ensures White(c, a, k) && k < |c| && c[k] == Quote
  {
    hide PaddedValueAt, White, ClosingQuote, PiecesAt;
    var r: nat :| MemberAt(c, a, r, members.key, members.item);
    var k': nat, l: nat :| White(c, a, k') && StringAt(c, k', l, members.key);
    k := k';
  }

  /** The loop over the members; the byte at `o` is the last before them, or white space. */
  lemma {:induction false} CompleteMembers(c: seq<byte>, a: nat, o: nat, b: nat, members: Members, d: int)
    requires Terminated(c) && MembersAt(c, a, b, members) && White(c, a, o + 1) && o + 1 < |c| && d <= NestingLimit
    requires b < |c| && c[b] > 32 && c[b] != Comma
    ensures ParseMembers(c, o, d) == Outcome(members, b, d + MembersDepth(members))
    decreases members, 2
  {
    hide MemberAt, White, ParseMember, Depth;
    NoItems(false, 0);
    var key, v, rest := members.key, members.item, members.rest;
    if rest.NoMember? {
      CompleteMember(c, a, o, b, key, v, d);
    } else {
      var r: nat :| MemberAt(c, a, r, key, v) && r < b <= |c| && c[r] == Comma && MembersAt(c, r + 1, b, rest);
      CompleteMember(c, a, o, r, key, v, d);
      NoWhite(c, r + 1);
      CompleteMembers(c, r + 1, r, b, rest, d);
    }
  }

  lemma {:induction false} CompleteMember(c: seq<byte>, a: nat, o: nat, r: nat, key: seq<byte>, v: Value, d: int)
    requires Terminated(c) && MemberAt(c, a, r, key, v) && White(c, a, o + 1) && o + 1 < |c| && d <= NestingLimit
    requires r < |c| && c[r] > 32
    ensures ParseMember(c, o, d) == Outcome((key, v), r, d + Depth(v))
    decreases v, 2
  {
    hide MemberAt, PaddedValueAt, ParseValue, ParseString, Skip, Depth, White;
    var k, l, m := CompleteKey(c, a, o, r, key, v);
    NoWhite(c, m + 1);
    var p, q := CompletePadded(c, m + 1, m + 1, r, v, d);
  }

  /** The key and the colon of a member. */
  lemma CompleteKey(c: seq<byte>, a: nat, o: nat, r: nat, key: seq<byte>, v: Value) returns (k: nat, l: nat, m: nat)
    requires Terminated(c) && MemberAt(c, a, r, key, v) && White(c, a, o + 1) && o + 1 < |c|
    ensures k < |c| && Skip(c, o + 1) == k && l < |c| && ParseString(c, k) == Done(key, l) && Skip(c, l) == m
    ensures m + 1 < |c| && c[m] == Colon && PaddedValueAt(c, m + 1, r, v)
  {
    hide PaddedValueAt, ParseString, Skip;
    var k': nat, l': nat, m': nat :|
      White(c, a, k') && StringAt(c, k', l', key) && White(c, l', m') && m' < |c| && c[m'] == Colon && PaddedValueAt(c, m' + 1, r, v);
    k, l, m := k', l', m';
    KeyOpens(c, k, l, key);
    SkipTo(c, o + 1, k);
    StringExact(c, k, l, key);
    SkipTo(c, l, m);
    NotLast(c, m);
  }

  lemma KeyOpens(c: seq<byte>, k: nat, l: nat, key: seq<byte>)
    requires StringAt(c, k, l, key)
    ensures k < |c| && c[k] == Quote
  {
    hide PiecesAt, ClosingQuote;
  }

  lemma NotLast(c: seq<byte>, m: nat)
    requires Terminated(c) && m < |c| && c[m] != 0
    ensures m + 1 < |c|
  {}

  // ------------------------------------------------------------------ what is parsed

  lemma SkipWhite(c: seq<byte>, o: nat)
    requires o < |c|
    ensures White(c, o, Skip(c, o))
  {}

  lemma WhiteJoin(c: seq<byte>, a: nat, b: nat, e: nat)
    requires White(c, a, b) && White(c, b, e)
    ensures White(c, a, e)
  {}

  /** Whatever is parsed is a text of the grammar, and not nested too deep. */
  lemma {:induction false} Sound(c: seq<byte>, o: nat, d: int)
    requires o < |c| && Terminated(c) && d <= NestingLimit
    ensures var r := ParseValue(c, o, d); r.Done? ==> ValueAt(c, o, r.end, r.value) && d + Depth(r.value) <= NestingLimit
    decreases |c| - o, 1
  {
    hide ParseString, ParseNumber, ParseArray, ParseObject, StringAt, NumberAt, ItemsAt, MembersAt;
    if c[o] == Quote {
      var s := ParseString(c, o);
      if s.Done? {
        StringExact(c, o, s.end, s.value);
      }
    } else if c[o] == Minus || IsDigit(c[o]) {
      var n := ParseNumber(c, o);
      TokenOnly(c, o);
      if n.Done? {
        NumberExact(c, o, n.end, n.value.token);
      }
    } else if c[o] == OpenArray {
      SoundArray(c, o, d);
    } else if c[o] == OpenObject {
      SoundObject(c, o, d);
    }
  }

  lemma TokenOnly(c: seq<byte>, o: nat)
    requires o < |c| && Terminated(c)
    ensures ParseNumber(c, o).Done? ==> ParseNumber(c, o).value.Number?
  {}

  lemma {:induction false} SoundArray(c: seq<byte>, o: nat, d: int)
    requires o < |c| && Terminated(c) && c[o] == OpenArray && d <= NestingLimit
    ensures var r := ParseArray(c, o, d); r.Done? ==> ValueAt(c, o, r.end, r.value) && d + Depth(r.value) <= NestingLimit
    decreases |c| - o, 0
  {
    hide ParseItems, ItemsAt, Skip;
    if d < NestingLimit {
      NotLast(c, o);
      SkipWhite(c, o + 1);
      var p := Skip(c, o + 1);
      if c[p] != CloseArray {
        SoundItems(c, o, p - 1, d + 1);
      }
    }
  }

  lemma {:induction false} SoundItems(c: seq<byte>, a: nat, o: nat, d: int)
    requires a <= o && o + 1 < |c| && White(c, a + 1, o + 1) && Terminated(c) && d <= NestingLimit
    ensures var r := ParseItems(c, o, d);
      r.Done? ==> ItemsAt(c, a + 1, r.end, r.value) && r.value.Item? && d + ItemsDepth(r.value) <= NestingLimit
    decreases |c| - (o + 1), 2
  {
    hide ParseValue, Skip, ValueAt, White, Depth;
    var p := Skip(c, o + 1);
    var v := ParseValue(c, p, d);
    Sound(c, p, d);
    if v.Done? {
      SoundPadded(c, a + 1, o + 1, d);
      var r := Skip(c, v.end);
      if c[r] == Comma {
        NotLast(c, r);
        NoWhite(c, r + 1);
        SoundItems(c, r, r, d);
      }
    }
  }

  /** White space, the value, white space. */
  lemma SoundPadded(c: seq<byte>, a: nat, o: nat, d: int)
    requires o < |c| && White(c, a, o) && Terminated(c)
    requires var v := ParseValue(c, Skip(c, o), d); v.Done? && ValueAt(c, Skip(c, o), v.end, v.value)
    ensures var v := ParseValue(c, Skip(c, o), d); PaddedValueAt(c, a, Skip(c, v.end), v.value)
  {
    hide ParseValue, Skip, ValueAt;
    var p := Skip(c, o);
    var v := ParseValue(c, p, d);
    SkipWhite(c, o);
    WhiteJoin(c, a, o, p);
    SkipWhite(c, v.end);
  }

  lemma {:induction false} SoundObject(c: seq<byte>, o: nat, d: int)
    requires o < |c| && Terminated(c) && c[o] == OpenObject && d <= NestingLimit
    ensures var r := ParseObject(c, o, d); r.Done? ==> ValueAt(c, o, r.end, r.value) && d + Depth(r.value) <= NestingLimit
    decreases |c| - o, 0
  {
    hide ParseMembers, MembersAt, Skip;
    if d < NestingLimit {
      NotLast(c, o);
      SkipWhite(c, o + 1);
      var p := Skip(c, o + 1);
      if c[p] != CloseObject {
        SoundMembers(c, o, p - 1, d + 1);
      }
    }
  }

  lemma {:induction false} SoundMembers(c: seq<byte>, a: nat, o: nat, d: int)
    requires a <= o && o + 1 < |c| && White(c, a + 1, o + 1) && Terminated(c) && d <= NestingLimit
    ensures var r := ParseMembers(c, o, d);
      r.Done? ==> MembersAt(c, a + 1, r.end, r.value) && r.value.Member? && d + MembersDepth(r.value) <= NestingLimit
    decreases |c| - (o + 1), 3
  {
    hide ParseMember, MemberAt, White, Depth;
    var m := ParseMember(c, o, d);
    SoundMember(c, a + 1, o, d);
    if m.Done? && c[m.end] == Comma {
      NotLast(c, m.end);
      NoWhite(c, m.end + 1);
      SoundMembers(c, m.end, m.end, d);
    }
  }

  lemma {:induction false} SoundMember(c: seq<byte>, a: nat, o: nat, d: int)
    requires o + 1 < |c| && White(c, a, o + 1) && Terminated(c) && d <= NestingLimit
    ensures var m := ParseMember(c, o, d);
      m.Done? ==> MemberAt(c, a, m.end, m.value.0, m.value.1) && d + Depth(m.value.1) <= NestingLimit
    decreases |c| - (o + 1), 2
  {
    hide ParseValue, ParseString, Skip, ValueAt, Depth, StringAt, White, PaddedValueAt;
    var m := ParseMember(c, o, d);
    if m.Done? {
      var k := Skip(c, o + 1);
      var key := ParseString(c, k);
      var p := Skip(c, key.end);
      SkipWhite(c, o + 1);
      WhiteJoin(c, a, o + 1, k);
      StringExact(c, k, key.end, key.value);
      SkipWhite(c, key.end);
      NotLast(c, p);
      Sound(c, Skip(c, p + 1), d);
      NoWhite(c, p + 1);
      SoundPadded(c, p + 1, p + 1, d);
    }
  }

  /** A value is parsed exactly when it stands there and is not nested too deep. */
  lemma ValueExact(c: seq<byte>, o: nat, d: int, v: Value, e: nat)
    requires o < |c| && Terminated(c) && d <= NestingLimit
    ensures ParseValue(c, o, d) == Done(v, e) <==> ValueAt(c, o, e, v) && d + Depth(v) <= NestingLimit
  {
    hide ParseValue, ValueAt, Depth;
    Sound(c, o, d);
    if ValueAt(c, o, e, v) {
      Complete(c, o, e, v, d);
    }
  }

  /** A position starts at most one value, however deep it is nested. */
  lemma ValueOnce(c: seq<byte>, a: nat, b: nat, v: Value, b': nat, v': Value)
    requires Terminated(c) && ValueAt(c, a, b, v) && ValueAt(c, a, b', v')
    ensures b == b' && v == v'
  {
    hide ParseValue, ValueAt, Depth;
    var room := NestingLimit - Max(Depth(v), Depth(v'));
    Complete(c, a, b, v, room);
    Complete(c, a, b', v', room);
  }

  /** A UTF-8 byte order mark in front of a text of at least four bytes. */
  ghost predicate MarkAt(text: seq<byte>, o: nat) {
    o == if |text| >= 4 && text[0] == 0xEF && text[1] == 0xBB && text[2] == 0xBF then 3 else 0
  }

  /** `v` stands in the text up to `b`, behind white space and the mark. */
  ghost predicate StandsIn(text: seq<byte>, b: nat, v: Value) {
    exists o: nat, a: nat :: MarkAt(text, o) && White(text, o, a) && ValueAt(text + [0], a, b, v)
  }

  /**
    What the entry points take: a value that is not nested too deep; when asked for the
    whole text, with nothing but white space behind it, up to the end.
   */
  lemma ParseExact(text: seq<byte>, whole: bool, v: Value, e: nat)
    ensures Parse(text, whole) == Done(v, e) <==>
      (Depth(v) <= 1000
       && if whole then e == |text| && exists b: nat :: StandsIn(text, b, v) && White(text, b, e) else StandsIn(text, e, v))
  {
    hide ParseValue, ValueAt, Depth, SkipMark, Skip;
    var c := text + [0];
    var o, s := SkipMark(c), Skip(c, SkipMark(c));
    MarkExact(text);
    SkipWhite(c, o);
    Sound(c, s, 0);
    forall b: nat | StandsIn(text, b, v) ensures ParseValue(c, s, 0) == Outcome(v, b, Depth(v)) {
      TextParsed(text, b, v);
    }
    var r := ParseValue(c, s, 0);
    if r.Done? {
      WhiteIn(text, o, s);
      assert StandsIn(text, r.end, r.value);
      EndExact(text, r.end);
    }
  }

  lemma MarkExact(text: seq<byte>)
    ensures MarkAt(text, SkipMark(text + [0])) && SkipMark(text + [0]) <= |text|
  {
    var c := text + [0];
    if |c| > 4 {
      assert c[0..3] == [c[0], c[1], c[2]];
    }
  }

  lemma WhiteIn(text: seq<byte>, a: nat, b: nat)
    requires b <= |text|
    ensures White(text + [0], a, b) <==> White(text, a, b)
  {
    assert forall i :: 0 <= i < |text| ==> (text + [0])[i] == text[i];
  }

  lemma TextParsed(text: seq<byte>, b: nat, v: Value)
    requires StandsIn(text, b, v)
    ensures var c := text + [0];
      SkipMark(c) < |c| && b <= |text| && ParseValue(c, Skip(c, SkipMark(c)), 0) == Outcome(v, b, Depth(v))
  {
    hide ParseValue, ValueAt, Depth, SkipMark, Skip;
    var c := text + [0];
    var o: nat, a: nat :| MarkAt(text, o) && White(text, o, a) && ValueAt(c, a, b, v);
    MarkExact(text);
    ValueInside(c, a, b, v);
    WhiteIn(text, o, a);
    SkipTo(c, o, a);
    Complete(c, a, b, v, 0);
  }

  /** Nothing but white space is left behind `b` exactly when skipping it ends at the terminator. */
  lemma {:induction false} EndExact(text: seq<byte>, b: nat)
    requires b <= |text|
    ensures var c := text + [0]; var p := Skip(c, b);
      (c[p] == 0 ==> p == |text|) && (p == |text| <==> White(text, b, |text|))
    decreases |text| - b
  {
    if b < |text| {
      EndExact(text, b + 1);
    }
  }

  /** Printed text is a text of the grammar, in any surroundings that do not continue a number. */
  lemma PrintedIs(c: seq<byte>, o: nat, v: Value, format: bool, d: nat)
    requires Terminated(c) && Printable(v) && At(c, o, Print(v, format, d))
    requires var e := o + |Print(v, format, d)|; e < |c| && !NumberChar(c[e])
    ensures ValueAt(c, o, o + |Print(v, format, d)|, v)
  {
    hide ParseValue, ValueAt, Depth, Print, Printable, NumberChar, At;
    var room := NestingLimit - Depth(v);
    ValueBack(c, o, v, format, d, room);
    Sound(c, o, room);
  }
}
