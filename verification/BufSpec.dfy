/**
  Segmented buffers of cbits/hs_rdbuf.c as values: a list of segments and the flat byte
  string they stand for.
 */
module BufSpec {
  import opened Bits

  /**
    `rd_segment_t`: the written part of the backing memory (`seg_p[0..seg_of]`), the
    allocated size, the absolute offset of the segment's start, and the read-only flag.
   */
  datatype Segment = Segment(data: seq<byte>, size: nat, absof: nat, rdonly: bool) {
    /** `rd_segment_write_remains` */
    function WriteRemains(): int {
      if rdonly then 0 else size - |data|
    }
  }

  /** The bytes of all segments, in order. */
  function Flat(segs: seq<Segment>): seq<byte> {
    if segs == [] then [] else Flat(segs[..|segs| - 1]) + segs[|segs| - 1].data
  }

  function Length(segs: seq<Segment>): nat {
    |Flat(segs)|
  }

  function Capacity(segs: seq<Segment>): nat {
    if segs == [] then 0 else Capacity(segs[..|segs| - 1]) + segs[|segs| - 1].size
  }

  lemma FlatSnoc(segs: seq<Segment>, s: Segment)
    ensures Flat(segs + [s]) == Flat(segs) + s.data
    ensures Capacity(segs + [s]) == Capacity(segs) + s.size
  {
    assert (segs + [s])[..|segs|] == segs;
  }

  lemma {:induction false} FlatConcat(a: seq<Segment>, b: seq<Segment>)
    ensures Flat(a + b) == Flat(a) + Flat(b)
    ensures Capacity(a + b) == Capacity(a) + Capacity(b)
    decreases |b|
  {
    if b == [] {
      assert a + b == a;
    } else {
      var c, s := b[..|b| - 1], b[|b| - 1];
      assert b == c + [s] && a + b == (a + c) + [s];
      FlatConcat(a, c);
      FlatSnoc(a + c, s);
      FlatSnoc(c, s);
    }
  }

  /** The flat bytes around segment `i`. */
  lemma FlatAt(segs: seq<Segment>, i: nat)
    requires i < |segs|
    ensures Flat(segs) == Flat(segs[..i]) + segs[i].data + Flat(segs[i + 1..])
    ensures Flat(segs[..i + 1]) == Flat(segs[..i]) + segs[i].data
    ensures Capacity(segs) == Capacity(segs[..i]) + segs[i].size + Capacity(segs[i + 1..])
  {
    hide Flat, Capacity;
    var a, x, b := segs[..i], segs[i], segs[i + 1..];
    SplitAt(segs, i);
    FlatSnoc(a, x);
    FlatConcat(a + [x], b);
  }

  lemma SplitAt<T>(s: seq<T>, i: nat)
    requires i < |s|
    ensures s == (s[..i] + [s[i]]) + s[i + 1..] && s[..i + 1] == s[..i] + [s[i]]
  {}

  /** Replacing one segment replaces exactly its bytes. */
  lemma FlatUpdate(segs: seq<Segment>, i: nat, s: Segment)
    requires i < |segs|
    ensures Flat(segs[i := s]) == Flat(segs[..i]) + s.data + Flat(segs[i + 1..])
    ensures Capacity(segs[i := s]) == Capacity(segs) - segs[i].size + s.size
  {
    hide Flat, Capacity;
    var r := segs[i := s];
    FlatAt(segs, i);
    FlatAt(r, i);
    assert r[..i] == segs[..i] && r[i + 1..] == segs[i + 1..];
  }

  lemma {:induction false} FlatEmpty(segs: seq<Segment>)
    requires forall i :: 0 <= i < |segs| ==> segs[i].data == []
    ensures Flat(segs) == []
  {
    if segs != [] {
      FlatEmpty(segs[..|segs| - 1]);
    }
  }

  lemma {:induction false} FlatFits(segs: seq<Segment>)
    requires forall i :: 0 <= i < |segs| ==> |segs[i].data| <= segs[i].size
    ensures Length(segs) <= Capacity(segs)
  {
    if segs != [] {
      FlatFits(segs[..|segs| - 1]);
    }
  }

  lemma PrefixLength(segs: seq<Segment>, i: nat, j: nat)
    requires i <= j <= |segs|
    ensures Flat(segs[..i]) <= Flat(segs[..j]) && Length(segs[..i]) <= Length(segs[..j])
  {
    assert segs[..j] == segs[..i] + segs[i..j];
    FlatConcat(segs[..i], segs[i..j]);
  }

  // ------------------------------------------------------------------ the buffer invariant

  /** Segment `i` starts where the segments before it end. */
  ghost predicate StartsAt(segs: seq<Segment>, i: nat)
    requires i < |segs|
  {
    segs[i].absof == Length(segs[..i])
  }

  /** Within its memory; a read-only segment is always full. */
  ghost predicate Sound(s: Segment) {
    |s.data| <= s.size && (s.rdonly ==> |s.data| == s.size)
  }

  /**
    Segments up to the write position are contiguous and full (the write position itself
    may have room); later ones are empty, writable and not yet positioned.
   */
  ghost predicate Layout(segs: seq<Segment>, wpos: int) {
    && -1 <= wpos < |segs| && (wpos == -1 <==> segs == [])
    && (forall i :: 0 <= i < |segs| ==> Sound(segs[i]))
    && (forall i :: 0 <= i <= wpos ==> StartsAt(segs, i))
    && (forall i :: 0 <= i < wpos ==> segs[i].WriteRemains() == 0)
    && (forall i :: wpos < i < |segs| ==>
          segs[i].data == [] && !segs[i].rdonly && segs[i].size > 0 && segs[i].absof <= Length(segs))
  }

  lemma TailEmpty(segs: seq<Segment>, wpos: int)
    requires Layout(segs, wpos) && wpos >= 0
    ensures Flat(segs[wpos + 1..]) == [] && Flat(segs) == Flat(segs[..wpos]) + segs[wpos].data
  {
    FlatAt(segs, wpos);
    FlatEmpty(segs[wpos + 1..]);
  }

  /** Segments without room left are as long as they are large. */
  lemma {:induction false} NoRoom(segs: seq<Segment>)
    requires forall i :: 0 <= i < |segs| ==> Sound(segs[i]) && segs[i].WriteRemains() == 0
    ensures Length(segs) == Capacity(segs)
  {
    if segs != [] {
      NoRoom(segs[..|segs| - 1]);
    }
  }

  /** Overwriting `chunk` at offset `at`. */
  function Overwrite(s: seq<byte>, at: nat, chunk: seq<byte>): seq<byte>
    requires at + |chunk| <= |s|
  {
    s[..at] + chunk + s[at + |chunk|..]
  }

  lemma OverwriteConcat(s: seq<byte>, at: nat, a: seq<byte>, b: seq<byte>)
    requires at + |a| + |b| <= |s|
    ensures Overwrite(Overwrite(s, at, a), at + |a|, b) == Overwrite(s, at, a + b)
  {}

  /** Overwriting inside one segment overwrites the flat bytes at its absolute offset. */
  lemma FlatOverwrite(segs: seq<Segment>, i: nat, rel: nat, chunk: seq<byte>)
    requires i < |segs| && rel + |chunk| <= |segs[i].data|
    ensures Length(segs[..i]) + rel + |chunk| <= Length(segs)
    ensures Flat(segs[i := segs[i].(data := Overwrite(segs[i].data, rel, chunk))]) ==
            Overwrite(Flat(segs), Length(segs[..i]) + rel, chunk)
  {
    hide Flat, Capacity;
    FlatAt(segs, i);
    var d := Overwrite(segs[i].data, rel, chunk);
    FlatUpdate(segs, i, segs[i].(data := d));
    Splice(Flat(segs[..i]), segs[i].data, Flat(segs[i + 1..]), rel, chunk);
  }

  lemma Splice(a: seq<byte>, b: seq<byte>, c: seq<byte>, rel: nat, chunk: seq<byte>)
    requires rel + |chunk| <= |b|
    ensures a + Overwrite(b, rel, chunk) + c == Overwrite(a + b + c, |a| + rel, chunk)
  {}

  /** The write position moves on from a full segment to the empty one behind it. */
  lemma MoveOn(segs: seq<Segment>, w: int, r: seq<Segment>)
    requires Layout(segs, w) && 0 <= w < |segs| - 1 && segs[w].WriteRemains() == 0
    requires r == segs[w + 1 := segs[w + 1].(absof := Length(segs))]
    ensures Layout(r, w + 1) && Flat(r) == Flat(segs) && Capacity(r) == Capacity(segs)
    ensures segs[w + 1].WriteRemains() > 0 && segs[w + 1].absof <= Length(segs) && segs[w + 1].data == []
  {
    hide Flat, Capacity;
    FlatAt(segs, w + 1);
    FlatUpdate(segs, w + 1, r[w + 1]);
    TailEmpty(segs, w);
    FlatEmpty(segs[w + 2..]);
    forall i | 0 <= i <= w + 1 ensures StartsAt(r, i) {
      assert r[..i] == segs[..i];
      if i == w + 1 {
        assert Flat(segs) == Flat(segs[..w + 1]) + segs[w + 1].data + Flat(segs[w + 2..]);
      } else {
        assert StartsAt(segs, i);
      }
    }
  }

  lemma FullLayout(segs: seq<Segment>, w: int)
    requires Layout(segs, w) && w == |segs| - 1 && (w >= 0 ==> segs[w].WriteRemains() == 0)
    ensures Length(segs) == Capacity(segs)
  {
    NoRoom(segs);
  }

  /** Appending `chunk` to the write position appends it to the flat bytes. */
  lemma AppendAt(segs: seq<Segment>, w: int, chunk: seq<byte>, r: seq<Segment>)
    requires Layout(segs, w) && w >= 0 && |chunk| <= segs[w].WriteRemains()
    requires r == segs[w := segs[w].(data := segs[w].data + chunk)]
    ensures Layout(r, w) && Flat(r) == Flat(segs) + chunk && Capacity(r) == Capacity(segs)
  {
    hide Flat, Capacity;
    TailEmpty(segs, w);
    FlatUpdate(segs, w, r[w]);
    forall i | 0 <= i <= w ensures StartsAt(r, i) {
      assert r[..i] == segs[..i];
      assert StartsAt(segs, i);
    }
  }

  /** A new empty segment behind the write position. */
  lemma LayoutAlloc(segs: seq<Segment>, w: int, x: Segment)
    requires Layout(segs, w) && w >= 0 && Sound(x)
    requires x.data == [] && !x.rdonly && x.size > 0 && x.absof == Length(segs)
    ensures Layout(segs + [x], w)
  {
    hide Flat, Capacity;
    FlatSnoc(segs, x);
    forall i | 0 <= i <= w ensures StartsAt(segs + [x], i) {
      assert (segs + [x])[..i] == segs[..i] && StartsAt(segs, i);
    }
  }

  /** A new last segment behind a full write position takes the write position over. */
  lemma LayoutTakeOver(segs: seq<Segment>, w: int, x: Segment)
    requires Layout(segs, w) && w == |segs| - 1 && Sound(x) && x.absof == Length(segs)
    requires w >= 0 ==> segs[w].WriteRemains() == 0
    ensures Layout(segs + [x], w + 1)
  {
    hide Flat, Capacity;
    FlatSnoc(segs, x);
    forall i | 0 <= i <= w + 1 ensures StartsAt(segs + [x], i) {
      assert (segs + [x])[..i] == segs[..i];
      if i <= w {
        assert StartsAt(segs, i);
      } else {
        assert segs[..i] == segs;
      }
    }
  }

  /** Splitting off the unwritten room of the last segment. */
  lemma LayoutShrink(segs: seq<Segment>, w: int, r: seq<Segment>)
    requires Layout(segs, w) && 0 <= w == |segs| - 1
    requires r == segs[w := segs[w].(size := |segs[w].data|)]
    ensures Layout(r, w) && Flat(r) == Flat(segs) && r[w].WriteRemains() == 0
    ensures Capacity(r) == Capacity(segs) - (segs[w].size - |segs[w].data|)
  {
    hide Flat, Capacity;
    FlatUpdate(segs, w, r[w]);
    FlatAt(segs, w);
    forall i | 0 <= i <= w ensures StartsAt(r, i) {
      assert r[..i] == segs[..i] && StartsAt(segs, i);
    }
  }

  /** Every offset below the length lies in a segment at or before the write position. */
  lemma WithinWpos(segs: seq<Segment>, w: int)
    requires Layout(segs, w) && w >= 0
    ensures Length(segs[..w + 1]) == Length(segs)
  {
    hide Flat, Capacity;
    TailEmpty(segs, w);
    FlatAt(segs, w);
  }

  /** Overwriting written bytes of a segment keeps the layout. */
  lemma LayoutOverwrite(segs: seq<Segment>, w: int, i: nat, d: seq<byte>)
    requires Layout(segs, w) && i < |segs| && |d| == |segs[i].data|
    ensures Layout(segs[i := segs[i].(data := d)], w)
    ensures Length(segs[i := segs[i].(data := d)]) == Length(segs)
    ensures Capacity(segs[i := segs[i].(data := d)]) == Capacity(segs)
  {
    hide Flat, Capacity;
    var r := segs[i := segs[i].(data := d)];
    FlatUpdate(segs, i, r[i]);
    FlatAt(segs, i);
    forall k | 0 <= k <= w ensures StartsAt(r, k) {
      assert StartsAt(segs, k);
      if k <= i {
        assert r[..k] == segs[..k];
      } else {
        assert r[..k] == segs[..k][i := r[i]];
        FlatUpdate(segs[..k], i, r[i]);
        FlatAt(segs[..k], i);
      }
    }
  }

  /** Cutting the buffer off inside segment `i`. */
  lemma LayoutTruncate(segs: seq<Segment>, w: int, i: nat, rel: nat, r: seq<Segment>)
    requires Layout(segs, w) && i <= w && rel < |segs[i].data|
    requires r == segs[..i] + [segs[i].(data := segs[i].data[..rel])]
    ensures Length(segs[..i]) + rel <= Length(segs)
    ensures Flat(r) == Flat(segs)[..Length(segs[..i]) + rel]
    ensures Layout(r, i) <==> !segs[i].rdonly
    ensures Capacity(r) == Capacity(segs[..i]) + segs[i].size
  {
    hide Flat, Capacity;
    var x := segs[i].(data := segs[i].data[..rel]);
    FlatAt(segs, i);
    FlatSnoc(segs[..i], x);
    forall k | 0 <= k <= i ensures StartsAt(r, k) {
      assert r[..k] == segs[..k] && StartsAt(segs, k);
    }
    assert r[i] == x;
    assert forall k :: 0 <= k < i ==> r[k] == segs[k];
    if segs[i].rdonly {
      assert !Sound(r[i]);
    }
  }

  // ------------------------------------------------------------------ read-only bytes

  /** `n` bytes, marked as read-only or not. */
  function MarkBytes(n: nat, rdonly: bool): seq<byte> {
    seq(n, _ => if rdonly then 1 else 0)
  }

  /** A segment whose bytes say whether they are read-only. */
  function Mark(s: Segment): Segment {
    s.(data := MarkBytes(|s.data|, s.rdonly))
  }

  function Marks(segs: seq<Segment>): (r: seq<Segment>)
    ensures |r| == |segs|
  {
    seq(|segs|, i requires 0 <= i < |segs| => Mark(segs[i]))
  }

  /** For every flat byte, 1 if it lies in read-only memory and 0 if not. */
  function Flags(segs: seq<Segment>): seq<byte> {
    Flat(Marks(segs))
  }

  lemma MarksParts(segs: seq<Segment>, i: nat)
    requires i <= |segs|
    ensures Marks(segs[..i]) == Marks(segs)[..i] && Marks(segs[i..]) == Marks(segs)[i..]
  {}

  /** As many marks as bytes. */
  lemma {:induction false} FlagsLength(segs: seq<Segment>)
    ensures |Flags(segs)| == Length(segs)
  {
    if segs != [] {
      var n := |segs| - 1;
      MarksParts(segs, n);
      FlagsLength(segs[..n]);
    }
  }

  lemma FlagsSnoc(segs: seq<Segment>, x: Segment)
    ensures Flags(segs + [x]) == Flags(segs) + MarkBytes(|x.data|, x.rdonly)
  {
    hide Flat;
    assert Marks(segs + [x]) == Marks(segs) + [Mark(x)];
    FlatSnoc(Marks(segs), Mark(x));
  }

  /** The marks around segment `i`. */
  lemma FlagsAt(segs: seq<Segment>, i: nat)
    requires i < |segs|
    ensures Flags(segs) == Flags(segs[..i]) + MarkBytes(|segs[i].data|, segs[i].rdonly) + Flags(segs[i + 1..])
    ensures Flags(segs[..i + 1]) == Flags(segs[..i]) + MarkBytes(|segs[i].data|, segs[i].rdonly)
    ensures |Flags(segs[..i])| == Length(segs[..i])
  {
    hide Flat;
    FlatAt(Marks(segs), i);
    MarksParts(segs, i);
    MarksParts(segs, i + 1);
    FlagsLength(segs[..i]);
  }

  /** Marks depend on lengths and flags only. */
  lemma {:induction false} FlagsSame(a: seq<Segment>, b: seq<Segment>)
    requires |a| == |b| && forall k :: 0 <= k < |a| ==> |a[k].data| == |b[k].data| && a[k].rdonly == b[k].rdonly
    ensures Flags(a) == Flags(b)
  {
    if a != [] {
      var n := |a| - 1;
      MarksParts(a, n);
      MarksParts(b, n);
      FlagsSame(a[..n], b[..n]);
    }
  }

  /** The mark of a byte of segment `i`. */
  lemma FlagOf(segs: seq<Segment>, i: nat, r: nat)
    requires i < |segs| && r < |segs[i].data|
    ensures Length(segs[..i]) + r < |Flags(segs)|
    ensures Flags(segs)[Length(segs[..i]) + r] == if segs[i].rdonly then 1 else 0
  {
    hide Flat, Flags;
    FlagsAt(segs, i);
  }

  /** Appending to the writable segment at the write position. */
  lemma FlagsAppend(segs: seq<Segment>, w: int, chunk: seq<byte>, r: seq<Segment>)
    requires Layout(segs, w) && w >= 0 && |chunk| <= segs[w].WriteRemains()
    requires r == segs[w := segs[w].(data := segs[w].data + chunk)]
    ensures Flags(r) == Flags(segs) + MarkBytes(|chunk|, false)
  {
    hide Flat, Flags, Capacity;
    FlagsAt(segs, w);
    FlagsAt(r, w);
    assert r[..w] == segs[..w] && r[w + 1..] == segs[w + 1..];
    TailEmpty(segs, w);
    FlagsLength(segs[w + 1..]);
    if |chunk| > 0 {
      assert MarkBytes(|r[w].data|, false) == MarkBytes(|segs[w].data|, false) + MarkBytes(|chunk|, false);
    } else {
      assert segs[w].data + chunk == segs[w].data;
    }
  }

  /** Cutting segment `i` short and everything behind it off. */
  lemma FlagsCut(segs: seq<Segment>, i: nat, rel: nat, r: seq<Segment>)
    requires i < |segs| && rel <= |segs[i].data|
    requires r == segs[..i] + [segs[i].(data := segs[i].data[..rel])]
    ensures Length(segs[..i]) + rel <= |Flags(segs)|
    ensures Flags(r) == Flags(segs)[..Length(segs[..i]) + rel]
  {
    hide Flat, Flags;
    FlagsAt(segs, i);
    FlagsSnoc(segs[..i], r[i]);
    assert MarkBytes(|segs[i].data|, segs[i].rdonly)[..rel] == MarkBytes(rel, segs[i].rdonly);
  }
}
