/**
  The printer of cbits/hs_cJSON.c: it writes into a buffer that `ensure` grows, or that
  was given with a fixed length. Each method is proved to write the text that the print
  function of the same name defines, and to succeed exactly when that text, its
  terminator and one spare byte fit.
 */
module JsonPrint {
  import opened Bits
  import opened JsonSpec
  import opened JsonRoundTrip
  import Utf8

  /** `INT_MAX` */
  const IntMax := 0x7FFF_FFFF

  lemma {:induction false} EscapedSnoc(s: seq<byte>, b: byte)
    ensures Escaped(s + [b]) == Escaped(s) + Escape(b)
  {
    hide Escape;
    if s == [] {
      assert [b][1..] == [];
    } else {
      assert (s + [b])[1..] == s[1..] + [b];
      EscapedSnoc(s[1..], b);
    }
  }

  lemma EscapedPrefix(s: seq<byte>, i: nat)
    requires i < |s|
    ensures Escaped(s[..i + 1]) == Escaped(s[..i]) + Escape(s[i])
  {
    hide Escaped, Escape;
    assert s[..i + 1] == s[..i] + [s[i]];
    EscapedSnoc(s[..i], s[i]);
  }

  lemma {:induction false} EscapedGrows(s: seq<byte>, i: nat)
    requires i <= |s|
    ensures |Escaped(s[..i])| <= |Escaped(s)|
    decreases |s| - i
  {
    hide Escaped, Escape;
    if i < |s| {
      EscapedPrefix(s, i);
      EscapedGrows(s, i + 1);
    } else {
      assert s[..i] == s;
    }
  }

  /** Without characters to escape, the string stands for itself. */
  lemma {:induction false} EscapedPlain(s: seq<byte>)
    ensures |Escaped(s)| >= |s|
    ensures |Escaped(s)| == |s| ==> Escaped(s) == s
  {
    if s != [] {
      EscapedPlain(s[1..]);
      if |Escaped(s)| == |s| {
        assert |Escape(s[0])| == 1;
        assert s == [s[0]] + s[1..];
      }
    }
  }

  lemma Assoc(a: seq<byte>, b: seq<byte>, c: seq<byte>)
    ensures a + (b + c) == (a + b) + c
  {}

  /** `printbuffer`; `length` is the length of the array. */
  class PrintBuffer {
    var buffer: array<byte>
    var offset: nat
    var depth: nat
    const noalloc: bool
    const format: bool

    ghost predicate Valid()
      reads this`buffer, this`offset
    {
      buffer.Length <= IntMax && (offset < buffer.Length || (offset == 0 && buffer.Length == 0))
    }

    /** The largest buffer printing can get. */
    ghost function Capacity(): nat
      reads this`buffer
    {
      if noalloc then buffer.Length else IntMax
    }

    /** What stands before the write position. */
    ghost function Written(): seq<byte>
      reads this`buffer, this`offset, buffer
      requires Valid()
    {
      buffer[..offset]
    }

    /** The buffer holds the C string `s`. */
    ghost predicate Holds(s: seq<byte>)
      reads this`buffer, buffer
    {
      |s| < buffer.Length && buffer[..|s|] == s && buffer[|s|] == 0
    }

    constructor (b: array<byte>, fixedSize: bool, formatted: bool)
      requires b.Length <= IntMax
      ensures Valid() && buffer == b && offset == 0 && depth == 0 && noalloc == fixedSize && format == formatted
    {
      buffer, offset, depth := b, 0, 0;
      noalloc, format := fixedSize, formatted;
    }

    /** `ensure`: room for `needed` bytes and one more. */
    method Ensure(needed: nat) returns (ok: bool)
      requires Valid()
      modifies this`buffer
      ensures Valid() && Capacity() == old(Capacity()) && Written() == old(Written())
      ensures ok <==> offset + needed + 1 <= Capacity()
      ensures ok ==> offset + needed + 1 <= buffer.Length
      ensures buffer == old(buffer) || fresh(buffer)
      ensures noalloc ==> buffer == old(buffer)
    {
      if buffer.Length > 0 && offset >= buffer.Length {
        return false;
      }
      if needed > IntMax {
        return false;
      }
      var total := needed + offset + 1;
      if total <= buffer.Length {
        return true;
      }
      if noalloc {
        return false;
      }
      var newSize;
      if total > IntMax / 2 {
        if total > IntMax {
          return false;
        }
        newSize := IntMax;
      } else {
        newSize := total * 2;
      }
      var larger := new byte[newSize];
      var i := 0;
      while i < offset
        invariant 0 <= i <= offset && buffer == old(buffer)
        invariant larger[..i] == buffer[..i]
      {
        larger[i] := buffer[i];
        i := i + 1;
      }
      buffer := larger;
      return true;
    }

    /** Writes bytes at `at` without moving the offset. */
    method Put(at: nat, text: seq<byte>)
      requires Valid() && offset <= at && at + |text| <= buffer.Length
      modifies buffer
      ensures buffer[..at + |text|] == old(buffer[..at]) + text
      ensures at + |text| < buffer.Length ==> buffer[at + |text|] == old(buffer[at + |text|])
    {
      var i := 0;
      while i < |text|
        invariant 0 <= i <= |text|
        invariant buffer[..at + i] == old(buffer[..at]) + text[..i]
        invariant at + |text| < buffer.Length ==> buffer[at + |text|] == old(buffer[at + |text|])
      {
        buffer[at + i] := text[i];
        PutNext(text, i);
        i := i + 1;
      }
      assert text[..|text|] == text;
    }

    /** Writes a C string at the offset. */
    method StrCpy(text: seq<byte>)
      requires Valid() && offset + |text| < buffer.Length
      modifies buffer
      ensures Holds(old(Written()) + text)
    {
      Put(offset, text);
      buffer[offset + |text|] := 0;
      assert buffer[..offset + |text|] == old(Written()) + text;
    }

    /** `update_offset`: moves to the end of the C string at the offset. */
    method UpdateOffset(ghost s: seq<byte>)
      requires Valid() && Holds(s) && offset <= |s| && NoNul(s[offset..])
      modifies this`offset
      ensures Valid() && offset == |s| && Written() == s
    {
      ghost var start := offset;
      assert forall i :: start <= i < |s| ==> s[start..][i - start] == s[i] == buffer[i];
      assert forall i :: start <= i < |s| ==> buffer[i] != 0;
      while buffer[offset] != 0
        invariant old(offset) <= offset <= |s|
        decreases |s| - offset
      {
        offset := offset + 1;
      }
    }

    /** The first loop of `print_string_ptr`. */
    method EscapeCharacters(s: seq<byte>) returns (n: nat)
      ensures |s| + n == |Escaped(s)|
    {
      hide Escaped;
      n := 0;
      var i := 0;
      EscapedNone(s);
      while i < |s|
        invariant 0 <= i <= |s| && i + n == |Escaped(s[..i])|
      {
        EscapedPrefix(s, i);
        if s[i] == Quote || s[i] == Backslash || s[i] == 8 || s[i] == 12 || s[i] == 10 || s[i] == 13 || s[i] == 9 {
          n := n + 1;
        } else if s[i] < 32 {
          n := n + 5;
        }
        i := i + 1;
      }
      assert s[..i] == s;
    }

    /** One round of the second loop of `print_string_ptr`: the escape of `b`. */
    method PutEscape(at: nat, b: byte)
      requires Valid() && offset <= at && at + |Escape(b)| <= buffer.Length
      modifies buffer
      ensures buffer[..at + |Escape(b)|] == old(buffer[..at]) + Escape(b)
    {
      if b > 31 && b != Quote && b != Backslash {
        Put(at, [b]);
      } else {
        var letter: byte;
        if b == Backslash {
          letter := Backslash;
        } else if b == Quote {
          letter := Quote;
        } else if b == 8 {
          letter := 98;
        } else if b == 12 {
          letter := 102;
        } else if b == 10 {
          letter := 110;
        } else if b == 13 {
          letter := 114;
        } else if b == 9 {
          letter := 116;
        } else {
          Put(at, [Backslash, 117, 48, 48, Utf8.LowerHex(b / 16), Utf8.LowerHex(b % 16)]);
          return;
        }
        Put(at, [Backslash, letter]);
      }
    }

    /** The second loop of `print_string_ptr`, between the quotes. */
    method PutEscaped(s: seq<byte>)
      requires Valid() && offset + 1 + |Escaped(s)| <= buffer.Length
      modifies buffer
      ensures buffer[..offset + 1 + |Escaped(s)|] == old(buffer[..offset + 1]) + Escaped(s)
    {
      hide Escaped, Escape;
      var i, at := 0, offset + 1;
      EscapedNone(s);
      while i < |s|
        invariant 0 <= i <= |s| && at == offset + 1 + |Escaped(s[..i])|
        invariant at <= buffer.Length
        invariant buffer[..at] == old(buffer[..offset + 1]) + Escaped(s[..i])
      {
        EscapedPrefix(s, i);
        EscapedGrows(s, i + 1);
        PutEscape(at, s[i]);
        Assoc(old(buffer[..offset + 1]), Escaped(s[..i]), Escape(s[i]));
        at := at + |Escape(s[i])|;
        i := i + 1;
      }
      assert s[..i] == s;
    }

    /** `print_string_ptr` */
    method PrintString(s: seq<byte>) returns (ok: bool)
      requires Valid()
      modifies this`buffer, buffer
      ensures Valid() && Capacity() == old(Capacity()) && (buffer == old(buffer) || fresh(buffer))
      ensures noalloc ==> buffer == old(buffer)
      ensures ok <==> old(offset) + |JsonSpec.PrintString(s)| + 2 <= Capacity()
      ensures ok ==> Holds(old(Written()) + JsonSpec.PrintString(s))
    {
      hide Escaped;
      var escapes := EscapeCharacters(s);
      ok := Ensure(|s| + escapes + 3);
      if ok {
        PutQuoted(s, escapes == 0);
      }
    }

    /** Writes the string with its quotes; without escapes, by a plain copy. */
    method PutQuoted(s: seq<byte>, plain: bool)
      requires Valid() && offset + |Escaped(s)| + 2 < buffer.Length
      requires plain ==> |Escaped(s)| == |s|
      modifies buffer
      ensures Holds(old(Written()) + JsonSpec.PrintString(s))
    {
      hide Escaped;
      ghost var before := Written();
      var close := offset + 1 + |Escaped(s)|;
      Put(offset, [Quote]);
      if plain {
        EscapedPlain(s);
        Put(offset + 1, s);
      } else {
        PutEscaped(s);
      }
      Put(close, [Quote]);
      AssocThree(before, [Quote], Escaped(s), [Quote]);
      Terminate(close + 1, before + JsonSpec.PrintString(s));
    }

    /** The terminating zero. */
    method Terminate(at: nat, ghost s: seq<byte>)
      requires at == |s| < buffer.Length && buffer[..at] == s
      modifies buffer
      ensures Holds(s)
    {
      buffer[at] := 0;
    }

    /** Literals and numbers: reserve, then copy. */
    method PrintToken(text: seq<byte>) returns (ok: bool)
      requires Valid()
      modifies this`buffer, buffer
      ensures Valid() && Capacity() == old(Capacity()) && (buffer == old(buffer) || fresh(buffer))
      ensures noalloc ==> buffer == old(buffer)
      ensures ok <==> offset + |text| + 2 <= Capacity()
      ensures ok ==> Holds(old(Written()) + text)
    {
      ok := Ensure(|text| + 1);
      if ok {
        StrCpy(text);
      }
    }

    /** Reserves `|text| + spare` bytes, writes `text` and moves past it. */
    method PrintPiece(text: seq<byte>, spare: nat) returns (ok: bool)
      requires Valid()
      modifies this`buffer, this`offset, buffer
      ensures Valid() && Capacity() == old(Capacity()) && (buffer == old(buffer) || fresh(buffer))
      ensures noalloc ==> buffer == old(buffer)
      ensures ok <==> old(offset) + |text| + spare + 1 <= Capacity()
      ensures ok ==> offset == old(offset) + |text| && Written() == old(Written()) + text
    {
      ok := Ensure(|text| + spare);
      if ok {
        Put(offset, text);
        offset := offset + |text|;
      }
    }

    /** `print_value` */
    method PrintValue(v: Value) returns (ok: bool)
      requires Valid() && Printable(v)
      modifies this, buffer
      ensures Valid() && Capacity() == old(Capacity()) && (buffer == old(buffer) || fresh(buffer))
      ensures noalloc ==> buffer == old(buffer)
      ensures ok <==> old(offset) + |Print(v, format, old(depth))| + 2 <= Capacity()
      ensures ok ==> depth == old(depth) && old(offset) <= offset <= old(offset) + |Print(v, format, depth)|
      ensures ok ==> Holds(old(Written()) + Print(v, format, depth))
      decreases v, 0
    {
      hide PrintItems, PrintMembers, JsonSpec.PrintString;
      match v
      case Null => ok := PrintToken(NullText);
      case False => ok := PrintToken(FalseText);
      case True => ok := PrintToken(TrueText);
      case Number(t) => ok := PrintNumber(t);
      case String(s) => ok := PrintString(s);
      case Array(child) => ok := PrintArray(child);
      case Object(members) => ok := PrintObject(members);
    }

    /** `print_number`, with the number already formatted. */
    method PrintNumber(t: seq<byte>) returns (ok: bool)
      requires Valid()
      modifies this`buffer, this`offset, buffer
      ensures Valid() && Capacity() == old(Capacity()) && (buffer == old(buffer) || fresh(buffer))
      ensures noalloc ==> buffer == old(buffer)
      ensures ok <==> old(offset) + |t| + 2 <= Capacity()
      ensures ok ==> offset == old(offset) + |t| && Holds(old(Written()) + t)
    {
      ok := PrintToken(t);
      if ok {
        offset := offset + |t|;
      }
    }

    /** `print_value`, then `update_offset`. */
    method PrintNext(v: Value) returns (ok: bool)
      requires Valid() && Printable(v)
      modifies this, buffer
      ensures Valid() && Capacity() == old(Capacity()) && (buffer == old(buffer) || fresh(buffer))
      ensures noalloc ==> buffer == old(buffer)
      ensures ok <==> old(offset) + |Print(v, format, old(depth))| + 2 <= Capacity()
      ensures ok ==> depth == old(depth) && offset == old(offset) + |Print(v, format, depth)|
      ensures ok ==> Written() == old(Written()) + Print(v, format, depth)
      decreases v, 1
    {
      hide Print;
      ghost var before := Written();
      ok := PrintValue(v);
      if ok {
        ghost var t := Print(v, format, depth);
        PrintVisible(v, format, depth);
        assert (before + t)[offset..] == t[offset - |before|..];
        UpdateOffset(before + t);
      }
    }

    /** `print_string_ptr`, then `update_offset`. */
    method PrintKey(key: seq<byte>) returns (ok: bool)
      requires Valid() && NoNul(key)
      modifies this`buffer, this`offset, buffer
      ensures Valid() && Capacity() == old(Capacity()) && (buffer == old(buffer) || fresh(buffer))
      ensures noalloc ==> buffer == old(buffer)
      ensures ok <==> old(offset) + |JsonSpec.PrintString(key)| + 2 <= Capacity()
      ensures ok ==> offset == old(offset) + |JsonSpec.PrintString(key)|
      ensures ok ==> Written() == old(Written()) + JsonSpec.PrintString(key)
    {
      hide Escaped;
      ghost var before := Written();
      ok := PrintString(key);
      if ok {
        ghost var t := JsonSpec.PrintString(key);
        EscapedVisible(key);
        assert NoNul(t);
        assert (before + t)[offset..] == t;
        UpdateOffset(before + t);
      }
    }

    /** The loop of `print_array`. */
    method PrintElements(child: Items) returns (ok: bool)
      requires Valid() && PrintableItems(child)
      modifies this, buffer
      ensures Valid() && Capacity() == old(Capacity()) && (buffer == old(buffer) || fresh(buffer))
      ensures noalloc ==> buffer == old(buffer)
      ensures ok <==> child.NoItem? || old(offset) + |PrintItems(child, format, old(depth))| + 2 <= Capacity()
      ensures ok ==> depth == old(depth) && offset == old(offset) + |PrintItems(child, format, depth)|
      ensures ok ==> Written() == old(Written()) + PrintItems(child, format, depth)
      decreases child, 0
    {
      hide Print, PrintItems, Separator;
      var current := child;
      ghost var done: seq<byte> := [];
      ghost var text := PrintItems(child, format, depth);
      NoItems(format, depth);
      while current.Item?
        invariant Valid() && Capacity() == old(Capacity()) && (buffer == old(buffer) || fresh(buffer))
        invariant noalloc ==> buffer == old(buffer)
        invariant depth == old(depth) && PrintableItems(current) && (child.NoItem? ==> current == child)
        invariant text == done + PrintItems(current, format, depth)
        invariant offset == old(offset) + |done| && Written() == old(Written()) + done
        invariant current.NoItem? ==> child.NoItem? || offset + 2 <= Capacity()
        decreases current
      {
        ghost var before := Written();
        var good := PrintElement(current);
        ItemsText(current, format, old(depth));
        ghost var t, sep, rest := Print(current.value, format, old(depth)), Separator(current.next, format), PrintItems(current.next, format, old(depth));
        if !good {
          return false;
        }
        Assoc(done, t + sep, rest);
        Assoc(old(Written()), done, t + sep);
        done := done + (t + sep);
        current := current.next;
      }
      return true;
    }

    /** One round: the element, and the comma if another follows. */
    method PrintElement(current: Items) returns (ok: bool)
      requires Valid() && current.Item? && PrintableItems(current)
      modifies this, buffer
      ensures Valid() && Capacity() == old(Capacity()) && (buffer == old(buffer) || fresh(buffer))
      ensures noalloc ==> buffer == old(buffer)
      ensures var n := |Print(current.value, format, old(depth)) + Separator(current.next, format)|;
        (ok <==> old(offset) + n + 2 <= Capacity()) && (ok ==> offset == old(offset) + n)
      ensures ok ==> depth == old(depth)
      ensures ok ==> Written() == old(Written()) + (Print(current.value, format, depth) + Separator(current.next, format))
      decreases current.value, 2
    {
      hide Print;
      ghost var before := Written();
      ok := PrintNext(current.value);
      if ok {
        ghost var t := Print(current.value, format, depth);
        if current.next.Item? {
          ok := PrintPiece([Comma] + If(format, [Space]), 1);
          Assoc(before, t, Separator(current.next, format));
        } else {
          assert t + Separator(current.next, format) == t;
        }
      }
    }

    /** `print_array` */
    method PrintArray(child: Items) returns (ok: bool)
      requires Valid() && PrintableItems(child)
      modifies this, buffer
      ensures Valid() && Capacity() == old(Capacity()) && (buffer == old(buffer) || fresh(buffer))
      ensures noalloc ==> buffer == old(buffer)
      ensures ok <==> old(offset) + |Print(Array(child), format, old(depth))| + 2 <= Capacity()
      ensures ok ==> depth == old(depth) && old(offset) <= offset <= old(offset) + |Print(Array(child), format, depth)|
      ensures ok ==> Holds(old(Written()) + Print(Array(child), format, depth))
      decreases child, 1
    {
      hide Print, PrintItems, PrintableItems, PrintBuffer.Holds, PrintBuffer.Valid, PrintBuffer.Written;
      ghost var before, t := Written(), PrintItems(child, format, depth + 1);
      ArrayText(child, format, depth);
      ok := PrintPiece([OpenArray], 0);
      if !ok {
        return;
      }
      depth := depth + 1;
      ok := PrintElements(child);
      if !ok {
        return;
      }
      ok := PrintToken([CloseArray]);
      if !ok {
        return;
      }
      depth := depth - 1;
      AssocThree(before, [OpenArray], t, [CloseArray]);
    }

    /** The loop of `print_object`. */
    method PrintPairs(members: Members) returns (ok: bool)
      requires Valid() && PrintableMembers(members)
      modifies this, buffer
      ensures Valid() && Capacity() == old(Capacity()) && (buffer == old(buffer) || fresh(buffer))
      ensures noalloc ==> buffer == old(buffer)
      ensures ok <==> members.NoMember? || old(offset) + |PrintMembers(members, format, old(depth))| + 2 <= Capacity()
      ensures ok ==> depth == old(depth) && offset == old(offset) + |PrintMembers(members, format, depth)|
      ensures ok ==> Written() == old(Written()) + PrintMembers(members, format, depth)
      decreases members, 0
    {
      hide Print, PrintMembers, RoundText;
      var current := members;
      ghost var done: seq<byte> := [];
      ghost var text := PrintMembers(members, format, depth);
      NoItems(format, depth);
      while current.Member?
        invariant Valid() && Capacity() == old(Capacity()) && (buffer == old(buffer) || fresh(buffer))
        invariant noalloc ==> buffer == old(buffer)
        invariant depth == old(depth) && PrintableMembers(current) && (members.NoMember? ==> current == members)
        invariant text == done + PrintMembers(current, format, depth)
        invariant offset == old(offset) + |done| && Written() == old(Written()) + done
        invariant current.NoMember? ==> members.NoMember? || offset + 2 <= Capacity()
        decreases current
      {
        ghost var before := Written();
        var good := PrintPair(current);
        MembersText(current, format, old(depth));
        ghost var t, rest := RoundText(current, format, old(depth)), PrintMembers(current.rest, format, old(depth));
        if !good {
          return false;
        }
        Assoc(done, t, rest);
        Assoc(old(Written()), done, t);
        done := done + t;
        current := current.rest;
      }
      return true;
    }

    /** The start of a round: indentation, key and colon. */
    method PrintName(key: seq<byte>) returns (ok: bool)
      requires Valid() && NoNul(key)
      modifies this`buffer, this`offset, buffer
      ensures Valid() && Capacity() == old(Capacity()) && (buffer == old(buffer) || fresh(buffer))
      ensures noalloc ==> buffer == old(buffer)
      ensures var n := |NameText(key, format, depth)|;
        (old(offset) + n + 2 <= Capacity() ==> ok) && (ok ==> offset == old(offset) + n)
      ensures ok ==> Written() == old(Written()) + NameText(key, format, depth)
    {
      hide JsonSpec.PrintString, Tabs;
      ghost var before := Written();
      ghost var tabs, name, colon := If(format, Tabs(depth)), JsonSpec.PrintString(key), [Colon] + If(format, [Tab]);
      AssocThree(before, tabs, name, colon);
      if format {
        ok := PrintPiece(Tabs(depth), 0);
        if !ok {
          return;
        }
      }
      assert Written() == before + tabs;
      ok := PrintKey(key);
      if !ok {
        return;
      }
      ok := PrintPiece([Colon] + If(format, [Tab]), 0);
    }

    /** One round: indentation, key, colon, value, comma and line end. */
    method PrintPair(current: Members) returns (ok: bool)
      requires Valid() && current.Member? && PrintableMembers(current)
      modifies this, buffer
      ensures Valid() && Capacity() == old(Capacity()) && (buffer == old(buffer) || fresh(buffer))
      ensures noalloc ==> buffer == old(buffer)
      ensures var n := |RoundText(current, format, old(depth))|;
        (ok <==> old(offset) + n + 2 <= Capacity()) && (ok ==> offset == old(offset) + n)
      ensures ok ==> depth == old(depth) && Written() == old(Written()) + RoundText(current, format, depth)
      decreases current.item, 2
    {
      hide Print, NameText, MemberEnd, Printable;
      ghost var before := Written();
      ghost var name, t, end := NameText(current.key, format, depth), Print(current.item, format, depth), MemberEnd(current.rest, format);
      AssocThree(before, name, t, end);
      ok := PrintName(current.key);
      if !ok {
        return;
      }
      ok := PrintNext(current.item);
      if !ok {
        return;
      }
      ok := PrintPiece(MemberEnd(current.rest, format), 1);
    }

    /** `print_object` */
    method PrintObject(members: Members) returns (ok: bool)
      requires Valid() && PrintableMembers(members)
      modifies this, buffer
      ensures Valid() && Capacity() == old(Capacity()) && (buffer == old(buffer) || fresh(buffer))
      ensures noalloc ==> buffer == old(buffer)
      ensures ok <==> old(offset) + |Print(Object(members), format, old(depth))| + 2 <= Capacity()
      ensures ok ==> depth == old(depth) && old(offset) <= offset <= old(offset) + |Print(Object(members), format, depth)|
      ensures ok ==> Holds(old(Written()) + Print(Object(members), format, depth))
      decreases members, 1
    {
      hide Print, PrintMembers, PrintableMembers, If, Tabs, PrintBuffer.Holds, PrintBuffer.Valid, PrintBuffer.Written;
      ghost var before, t := Written(), PrintMembers(members, format, depth + 1);
      ghost var open, close := [OpenObject] + If(format, [NewLine]), If(format, Tabs(depth)) + [CloseObject];
      ObjectText(members, format, depth);
      ok := PrintPiece([OpenObject] + If(format, [NewLine]), 1);
      if !ok {
        return;
      }
      depth := depth + 1;
      ok := PrintPairs(members);
      if !ok {
        return;
      }
      ok := PrintToken(If(format, Tabs(depth - 1)) + [CloseObject]);
      if !ok {
        return;
      }
      depth := depth - 1;
      AssocThree(before, open, t, close);
    }
  }

  /** Everything one round of the loop of `print_object` writes. */
  ghost function RoundText(members: Members, format: bool, d: nat): seq<byte>
    requires members.Member?
  {
    NameText(members.key, format, d) + Print(members.item, format, d) + MemberEnd(members.rest, format)
  }

  /** The indentation, the key and the colon of a member. */
  ghost function NameText(key: seq<byte>, format: bool, d: nat): seq<byte> {
    If(format, Tabs(d)) + JsonSpec.PrintString(key) + ([Colon] + If(format, [Tab]))
  }

  lemma ArrayText(child: Items, format: bool, d: nat)
    ensures var t := PrintItems(child, format, d + 1);
      Print(Array(child), format, d) == [OpenArray] + t + [CloseArray] && (child.NoItem? ==> t == [])
      && |Print(Array(child), format, d)| == |t| + 2
  {
    hide PrintItems;
    NoItems(format, d + 1);
  }

  lemma ObjectText(members: Members, format: bool, d: nat)
    ensures var t := PrintMembers(members, format, d + 1);
      var open, close := [OpenObject] + If(format, [NewLine]), If(format, Tabs(d)) + [CloseObject];
      Print(Object(members), format, d) == open + t + close && (members.NoMember? ==> t == [])
      && |Print(Object(members), format, d)| == |open| + |t| + |close|
  {
    hide PrintMembers;
    var t := PrintMembers(members, format, d + 1);
    NoItems(format, d + 1);
    Assoc([OpenObject] + If(format, [NewLine]) + t, If(format, Tabs(d)), [CloseObject]);
  }

  lemma AssocThree(before: seq<byte>, a: seq<byte>, b: seq<byte>, c: seq<byte>)
    ensures before + a + b + c == before + (a + b + c)
  {}

  lemma MembersText(members: Members, format: bool, d: nat)
    requires members.Member?
    ensures PrintMembers(members, format, d) == RoundText(members, format, d) + PrintMembers(members.rest, format, d)
  {
    hide Print, Tabs, JsonSpec.PrintString;
  }

  // ------------------------------------------------------------------ entry points

  /** `cJSON_Print` and `cJSON_PrintUnformatted`: a buffer of 256 bytes that grows. */
  method PrintText(v: Value, format: bool) returns (ok: bool, text: seq<byte>)
    requires Printable(v)
    ensures ok <==> |Print(v, format, 0)| + 2 <= IntMax
    ensures ok ==> text == Print(v, format, 0)
  {
    hide Print;
    var b := new byte[256];
    var p := new PrintBuffer(b, false, format);
    assert p.Written() == [];
    ok := p.PrintNext(v);
    text := [];
    if ok {
      text := p.buffer[..p.offset];
    }
  }

  /**
    `cJSON_PrintPreallocated`: succeeds exactly when the buffer is two bytes longer than the
    text, and then holds the text as a C string.
   */
  method PrintPreallocated(v: Value, b: array<byte>, format: bool) returns (ok: bool)
    requires Printable(v) && b.Length <= IntMax
    modifies b
    ensures ok <==> |Print(v, format, 0)| + 2 <= b.Length
    ensures ok ==> b[..|Print(v, format, 0)|] == Print(v, format, 0) && b[|Print(v, format, 0)|] == 0
  {
    hide Print;
    var p := new PrintBuffer(b, true, format);
    assert p.Written() == [];
    ok := p.PrintValue(v);
    assert [] + Print(v, format, 0) == Print(v, format, 0);
  }

  lemma PutNext(text: seq<byte>, i: nat)
    requires i < |text|
    ensures text[..i + 1] == text[..i] + [text[i]]
  {}

  lemma EscapedNone(s: seq<byte>)
    ensures Escaped(s[..0]) == []
  {}
}
