/**
  The growing buffer of cbits/hs_rdbuf.c: writes, pushes, updates and write seeks on the
  segment list, refining append, overwrite and truncate on one flat byte string.
 */
module Buf {
  import opened Bits
  import opened BufSpec

  /** sizeof(rd_segment_t) on a 64-bit platform. */
  const SEGMENT_HEADER := 64

  function Max(a: nat, b: nat): nat {
    if a > b then a else b
  }

  function Min(a: nat, b: nat): nat {
    if a < b then a else b
  }

  /** `rd_buf_t` */
  class Buffer {
    var segs: seq<Segment>
    var wpos: int            // index of the write position segment, -1 for none
    var len: nat
    var size: nat

    ghost predicate Valid()
      reads this
    {
      Layout(segs, wpos) && len == Length(segs) && size == Capacity(segs)
    }

    ghost function Bytes(): seq<byte>
      reads this
    {
      Flat(segs)
    }

    /** For every written byte, 1 if it lies in read-only memory and 0 if not. */
    ghost function ReadOnly(): seq<byte>
      reads this
    {
      Flags(segs)
    }

    /** `rd_buf_init` */
    constructor ()
      ensures Valid() && Bytes() == [] && ReadOnly() == [] && wpos == |segs| - 1
    {
      segs, wpos, len, size := [], -1, 0, 0;
    }

    /** `rd_buf_write_remains`, for a buffer nothing was erased from. */
    function WriteRemains(): int
      reads this
    {
      size - len
    }

    /**
      `rd_buf_get_writable0`: moves the write position to the first segment with room.
      Besides a laid-out buffer it accepts one whose last segment was just appended
      behind a full write position.
     */
    method GetWritable() returns (seg: int, room: nat)
      requires len == Length(segs) && size == Capacity(segs)
      requires Layout(segs, wpos) ||
               (0 <= wpos == |segs| - 2 && Layout(segs, wpos + 1) && segs[wpos].WriteRemains() == 0)
      modifies this`segs, this`wpos
      ensures Valid() && Bytes() == old(Bytes()) && |segs| == |old(segs)| && wpos >= old(wpos)
      ensures room > 0 ==> seg == wpos >= 0 && room == segs[wpos].WriteRemains()
      ensures room == 0 ==> len == size && wpos == |segs| - 1
      ensures old(wpos) >= 0 && old(segs)[old(wpos)].WriteRemains() > 0 ==> wpos == old(wpos)
      ensures old(wpos) >= 0 && old(segs)[old(wpos)].WriteRemains() == 0 && old(wpos) + 1 < |segs| ==>
                wpos == old(wpos) + 1
      ensures forall k :: 0 <= k < |segs| ==> segs[k] == old(segs)[k].(absof := segs[k].absof)
      ensures ReadOnly() == old(ReadOnly())
    {
      hide Flat, Capacity, Flags;
      seg, room := -1, 0;
      ghost var w := wpos;
      ghost var pushed := !Layout(segs, wpos);
      var i := wpos;
      while i != -1 && i < |segs|
        invariant segs == old(segs) && room == 0 && i >= w && -1 <= i <= |segs|
        invariant if i == w then wpos == w else wpos == i - 1 >= 0 && segs[i - 1].WriteRemains() == 0
        invariant if pushed then Layout(segs, w + 1) && i <= w + 2 else Layout(segs, w) && i <= w + 1
        invariant i > w >= 0 ==> segs[w].WriteRemains() == 0
        decreases |segs| - i
      {
        var remains := segs[i].WriteRemains();
        wpos := i;
        seg := i;
        if remains == 0 {
          i := i + 1;
          continue;
        }
        if !pushed && i == w + 1 {
          MoveOn(segs, w, segs[i := segs[i].(absof := len)]);
        } else if |segs[i].data| == 0 {
          EmptyEnd(segs, i);
        }
        if |segs[i].data| == 0 && segs[i].absof < len {
          FlagsSame(segs, segs[i := segs[i].(absof := len)]);
          segs := segs[i := segs[i].(absof := len)];
        } else {
          assert segs[i].data == [] ==> segs == segs[i := segs[i].(absof := len)];
        }
        room := remains;
        return;
      }
      FullLayout(segs, wpos);
    }

    /**
      `rd_buf_append_segment`: for a fresh empty segment, or for any segment when the
      write position is the last segment and full.
     */
    method AppendSegment(x: Segment)
      requires Valid() && Sound(x)
      requires (x.data == [] && !x.rdonly && x.size > 0) ||
               (wpos == |segs| - 1 && (wpos >= 0 ==> segs[wpos].WriteRemains() == 0))
      modifies this
      ensures Valid() && Bytes() == old(Bytes()) + x.data && size == old(size) + x.size
      ensures ReadOnly() == old(ReadOnly()) + MarkBytes(|x.data|, x.rdonly)
      ensures |segs| == |old(segs)| + 1
      ensures old(wpos == |segs| - 1 && (wpos >= 0 ==> segs[wpos].WriteRemains() == 0)) ==> wpos == |segs| - 1
      ensures wpos == |segs| - 1 ==> segs[wpos].WriteRemains() == x.WriteRemains()
      ensures old(wpos >= 0 && segs[wpos].WriteRemains() > 0) ==> wpos == old(wpos)
      ensures SameSizes(old(segs), segs) && wpos >= old(wpos)
    {
      hide Flat, Capacity, Flags;
      var y := x.(absof := len);
      FlatSnoc(segs, y);
      FlagsSnoc(segs, y);
      if wpos == |segs| - 1 && (wpos >= 0 ==> segs[wpos].WriteRemains() == 0) {
        LayoutTakeOver(segs, wpos, y);
      } else {
        LayoutAlloc(segs, wpos, y);
      }
      segs := segs + [y];
      len := len + |x.data|;
      size := size + x.size;
      if wpos == -1 {
        wpos := |segs| - 1;
      } else {
        var _, _ := GetWritable();
      }
    }

    /** `rd_buf_alloc_segment` */
    method AllocSegment(minSize: nat, maxSize: nat)
      requires Valid() && minSize > 0
      modifies this
      ensures Valid() && Bytes() == old(Bytes()) && size >= old(size) + (if maxSize == minSize then maxSize else minSize)
      ensures ReadOnly() == old(ReadOnly())
      ensures old(wpos >= 0 && segs[wpos].WriteRemains() > 0) ==> wpos == old(wpos)
      ensures SameSizes(old(segs), segs) && |segs| == |old(segs)| + 1 && wpos >= old(wpos)
    {
      var n := if minSize != maxSize || maxSize == 0
               then Max(SEGMENT_HEADER * 4, Max(minSize * 2, size / 2)) else maxSize;
      AppendSegment(Segment([], n, 0, false));
    }

    /** `rd_buf_write_ensure` */
    method WriteEnsure(minSize: nat, maxSize: nat)
      requires Valid() && (maxSize == 0 || maxSize >= minSize)
      modifies this
      ensures Valid() && Bytes() == old(Bytes()) && size - len >= minSize && ReadOnly() == old(ReadOnly())
      ensures old(size - len) >= minSize ==> segs == old(segs) && wpos == old(wpos) && size == old(size)
      ensures SameSizes(old(segs), segs) && |segs| <= |old(segs)| + 1 && wpos >= old(wpos)
    {
      FlatFits(segs);
      while size - len < minSize
        invariant Valid() && Bytes() == old(Bytes()) && size >= old(size) && ReadOnly() == old(ReadOnly())
        invariant size >= len
        invariant size == old(size) ==> segs == old(segs) && wpos == old(wpos)
        invariant old(size - len) >= minSize ==> size == old(size)
        invariant SameSizes(old(segs), segs) && wpos >= old(wpos)
        invariant |segs| <= |old(segs)| + (if size - len >= minSize then 1 else 0)
        decreases minSize - (size - len)
      {
        var remains := size - len;
        AllocSegment(minSize - remains, if maxSize != 0 then maxSize - remains else 0);
      }
    }

    /**
      `rd_buf_write`: appends the payload, and returns the offset at which it can be
      found and updated later.
     */
    method Write(payload: seq<byte>) returns (absof: nat)
      requires Valid()
      modifies this
      ensures Valid() && Bytes() == old(Bytes()) + payload
      ensures absof == |old(Bytes())| && Bytes()[absof..absof + |payload|] == payload
      ensures ReadOnly() == old(ReadOnly()) + MarkBytes(|payload|, false)
      ensures old(wpos == |segs| - 1) ==> wpos == |segs| - 1
    {
      hide Flat, Capacity, Layout, Flags, MarkBytes;
      NoMarks();
      absof := len;
      WriteEnsure(|payload|, 0);
      ghost var grown := |segs|;
      var done := 0;
      while done < |payload|
        invariant Valid() && done <= |payload|
        invariant Bytes() == old(Bytes()) + payload[..done]
        invariant ReadOnly() == old(ReadOnly()) + MarkBytes(done, false)
        invariant size - len >= |payload| - done
        invariant SameSizes(old(segs), segs) && |segs| == grown && wpos >= old(wpos)
      {
        var wlen := WriteChunk(payload[done..]);
        assert payload[done..][..wlen] == payload[done..done + wlen];
        ConcatPrefix(old(Bytes()), payload, done, done + wlen);
        ConcatMarks(old(ReadOnly()), done, wlen);
        done := done + wlen;
      }
      assert payload[..done] == payload;
      LayoutFacts(segs, wpos);
      if old(wpos == |segs| - 1) && wpos < |segs| - 1 {
        ReachesLast(old(segs), segs, wpos);
      }
    }

    /** One round of `rd_buf_write`: as much of the payload as the first segment with room takes. */
    method WriteChunk(payload: seq<byte>) returns (wlen: nat)
      requires Valid() && 0 < |payload| <= size - len
      modifies this
      ensures Valid() && 0 < wlen <= |payload| && size == old(size) && len == old(len) + wlen
      ensures Bytes() == old(Bytes()) + payload[..wlen]
      ensures ReadOnly() == old(ReadOnly()) + MarkBytes(wlen, false)
      ensures SameSizes(old(segs), segs) && |segs| == |old(segs)| && wpos >= old(wpos)
    {
      hide Flat, Capacity, Layout, Flags, MarkBytes;
      var seg, segRemains := GetWritable();
      LayoutFacts(segs, wpos);
      wlen := Min(|payload|, segRemains);
      ghost var before := segs;
      segs := segs[seg := segs[seg].(data := segs[seg].data + payload[..wlen])];
      AppendAt(before, wpos, payload[..wlen], segs);
      FlagsAppend(before, wpos, payload[..wlen], segs);
      len := len + wlen;
    }

    /** `rd_buf_get_segment_at_offset`, by index; -1 when out of range. */
    method SegmentAt(hint: int, absof: nat) returns (r: int)
      requires Valid() && -1 <= hint <= wpos
      ensures absof >= len <==> r == -1
      ensures r != -1 ==>
        && 0 <= r <= wpos && StartsAt(segs, r)
        && segs[r].absof <= absof < segs[r].absof + |segs[r].data|
    {
      hide Flat, Capacity;
      if absof >= len {
        return -1;
      }
      var i := hint;
      if i == -1 || absof < segs[i].absof {
        i := 0;
      }
      EmptyFlat();
      assert segs != [] && segs[..0] == [];
      assert StartsAt(segs, 0);
      assert StartsAt(segs, i);
      WithinWpos(segs, wpos);
      while i < |segs|
        invariant 0 <= i <= wpos && StartsAt(segs, i) && segs[i].absof <= absof
        decreases |segs| - i
      {
        if segs[i].absof <= absof && absof < segs[i].absof + |segs[i].data| {
          return i;
        }
        FlatAt(segs, i);
        assert i < wpos;
        assert StartsAt(segs, i + 1);
        i := i + 1;
      }
    }

    /** `rd_buf_write_update`: overwrites already written bytes, segment by segment. */
    method WriteUpdate(absof: nat, payload: seq<byte>) returns (n: nat)
      requires Valid() && absof < len && absof + |payload| <= len
      modifies this`segs
      ensures Valid() && Bytes() == Overwrite(old(Bytes()), absof, payload) && n == |payload|
      ensures ReadOnly() == old(ReadOnly())
      ensures |segs| == |old(segs)|
    {
      hide Flat, Capacity, Layout, Overwrite, Flags;
      LayoutFacts(segs, wpos);
      var i := SegmentAt(wpos, absof);
      var of := 0;
      ghost var start := Bytes();
      OverwriteNone(start, absof, payload);
      while of < |payload|
        invariant 0 <= of <= |payload| && 0 <= i <= wpos + 1
        invariant Valid() && |segs| == |old(segs)| && Bytes() == Overwrite(start, absof, payload[..of])
        invariant ReadOnly() == old(ReadOnly())
        invariant of < |payload| ==>
          i <= wpos && StartsAt(segs, i) && segs[i].absof <= absof + of <= segs[i].absof + |segs[i].data|
        decreases |segs| - i
      {
        var wlen := SegmentUpdate(i, absof + of, payload[of..]);
        OverwriteOn(start, absof, payload, of, wlen);
        of := of + wlen;
        if of < |payload| {
          NextSegment(segs, wpos, i, absof + of);
        }
        i := i + 1;
      }
      assert payload[..of] == payload;
      n := of;
    }

    /** `rd_segment_write_update`: as much of the payload as segment `i` holds. */
    method SegmentUpdate(i: nat, absof: nat, payload: seq<byte>) returns (wlen: nat)
      requires Valid() && i <= wpos && StartsAt(segs, i) && absof + |payload| <= len
      requires segs[i].absof <= absof <= segs[i].absof + |segs[i].data|
      modifies this`segs
      ensures Valid() && |segs| == |old(segs)| && StartsAt(segs, i) && segs[i].absof == old(segs[i].absof)
      ensures |segs[i].data| == |old(segs[i].data)|
      ensures wlen == Min(|payload|, segs[i].absof + |segs[i].data| - absof)
      ensures absof + wlen <= |old(Bytes())| && Bytes() == Overwrite(old(Bytes()), absof, payload[..wlen])
      ensures ReadOnly() == old(ReadOnly())
    {
      hide Flat, Capacity, Layout, Flags;
      LayoutFacts(segs, wpos);
      var rel := absof - segs[i].absof;
      wlen := Min(|payload|, |segs[i].data| - rel);
      var chunk := payload[..wlen];
      FlatOverwrite(segs, i, rel, chunk);
      LayoutOverwrite(segs, wpos, i, Overwrite(segs[i].data, rel, chunk));
      ghost var before := segs;
      segs := segs[i := segs[i].(data := Overwrite(segs[i].data, rel, chunk))];
      FlagsSame(before, segs);
      assert segs[..i] == before[..i];
    }

    /**
      `rd_buf_push0`: links foreign memory behind the written data, splitting off the
      unwritten room of the write position segment to follow it.
     */
    method Push(payload: seq<byte>, writable: bool)
      requires Valid() && wpos == |segs| - 1
      modifies this
      ensures Valid() && wpos == |segs| - 1
      ensures Bytes() == old(Bytes()) + payload && size - len == old(size - len)
      ensures ReadOnly() == old(ReadOnly()) + MarkBytes(|payload|, !writable)
    {
      hide Flat, Capacity, Flags;
      var tail := 0;
      if wpos != -1 && segs[wpos].WriteRemains() > 0 {
        tail := segs[wpos].size - |segs[wpos].data|;
        ghost var before := segs;
        segs := segs[wpos := segs[wpos].(size := |segs[wpos].data|)];
        LayoutShrink(before, wpos, segs);
        FlagsSame(before, segs);
        size := size - tail;
      }
      AppendSegment(Segment(payload, |payload|, 0, !writable));
      if tail > 0 {
        AppendSegment(Segment([], tail, 0, false));
      }
    }

    /** The segments behind `i` are destroyed. */
    method DropAfter(i: nat)
      requires i < |segs| && len == Length(segs) && size == Capacity(segs)
      modifies this`segs, this`len, this`size
      ensures segs == old(segs)[..i + 1] && len == Length(segs) && size == Capacity(segs)
    {
      hide Flat, Capacity;
      ghost var start := segs;
      while |segs| - 1 != i
        invariant i < |segs| <= |start| && segs == start[..|segs|]
        invariant len == Length(segs) && size == Capacity(segs)
        decreases |segs|
      {
        var last := segs[|segs| - 1];
        FlatSnoc(segs[..|segs| - 1], last);
        assert segs == segs[..|segs| - 1] + [last];
        segs := segs[..|segs| - 1];
        len := len - |last.data|;
        size := size - last.size;
      }
    }

    /**
      `rd_buf_write_seek`: truncates to `absof`.  The buffer stays usable exactly when
      the segment that holds the byte at `absof` is writable.
     */
    method WriteSeek(absof: nat) returns (r: int)
      requires Valid()
      modifies this
      ensures r == (if absof < |old(Bytes())| then 0 else -1)
      ensures r == -1 ==> segs == old(segs) && wpos == old(wpos) && len == old(len) && size == old(size)
      ensures r == 0 ==>
        && Bytes() == old(Bytes())[..absof] && len == absof
        && absof < |old(ReadOnly())| && ReadOnly() == old(ReadOnly())[..absof]
        && (Valid() <==> old(ReadOnly())[absof] == 0)
        && 0 <= wpos == |segs| - 1 && size == Capacity(segs)
        && HoldsByte(old(segs), wpos, absof) && segs[wpos].rdonly == old(segs)[wpos].rdonly
        && (forall i :: HoldsByte(old(segs), i, absof) && i <= old(wpos) ==> (Valid() <==> !old(segs)[i].rdonly))
        && (Valid() <==> !segs[wpos].rdonly)
        && (segs[wpos].rdonly ==> size > len)
    {
      hide Flat, Capacity, Layout, Flags;
      LayoutFacts(segs, wpos);
      var i := SegmentAt(wpos, absof);
      if i == -1 {
        return -1;
      }
      var rel := absof - segs[i].absof;
      FlagOf(segs, i, rel);
      FlagsCut(segs, i, rel, segs[..i] + [segs[i].(data := segs[i].data[..rel])]);
      ghost var start, w := segs, wpos;
      HoldsOnly(segs, wpos, i, absof);
      DropAfter(i);
      FlatAt(start, i);
      FlatSnoc(start[..i], start[i]);
      assert start[..i + 1] == start[..i] + [start[i]];
      LayoutTruncate(start, w, i, rel, start[..i] + [start[i].(data := start[i].data[..rel])]);
      segs := segs[i := segs[i].(data := segs[i].data[..rel])];
      assert segs == start[..i] + [start[i].(data := start[i].data[..rel])];
      wpos := i;
      len := segs[i].absof + |segs[i].data|;
      RoomLeft(start[..i], segs[i]);
      r := 0;
    }
  }

  lemma NoMarks()
    ensures MarkBytes(0, false) == []
  {}

  lemma ConcatMarks(s: seq<byte>, m: nat, n: nat)
    ensures (s + MarkBytes(m, false)) + MarkBytes(n, false) == s + MarkBytes(m + n, false)
  {
    MarksAdd(m, n);
  }

  lemma MarksAdd(m: nat, n: nat)
    ensures MarkBytes(m, false) + MarkBytes(n, false) == MarkBytes(m + n, false)
  {}

  /** The byte at an absolute offset is in segment `i`. */
  ghost predicate HoldsByte(segs: seq<Segment>, i: int, absof: nat) {
    0 <= i < |segs| && segs[i].absof <= absof < segs[i].absof + |segs[i].data|
  }

  lemma Before(segs: seq<Segment>, w: int, i: nat, j: nat)
    requires Layout(segs, w) && i < j <= w
    ensures segs[i].absof + |segs[i].data| <= segs[j].absof
  {
    hide Flat, Capacity;
    assert StartsAt(segs, i) && StartsAt(segs, j);
    FlatAt(segs, i);
    PrefixLength(segs, i + 1, j);
  }

  /** Only one written segment holds a given byte. */
  lemma HoldsOnly(segs: seq<Segment>, w: int, i: int, absof: nat)
    requires Layout(segs, w) && i <= w && HoldsByte(segs, i, absof)
    ensures forall j :: HoldsByte(segs, j, absof) && j <= w ==> j == i
  {
    forall j | HoldsByte(segs, j, absof) && j <= w ensures j == i {
      if i < j {
        Before(segs, w, i, j);
      } else if j < i {
        Before(segs, w, j, i);
      }
    }
  }

  lemma OverwriteNone(s: seq<byte>, at: nat, payload: seq<byte>)
    requires at <= |s|
    ensures Overwrite(s, at, payload[..0]) == s
  {}

  /** Overwriting one more piece of the payload. */
  lemma OverwriteOn(s: seq<byte>, at: nat, payload: seq<byte>, of: nat, n: nat)
    requires of + n <= |payload| && at + |payload| <= |s|
    ensures var t := Overwrite(s, at, payload[..of]);
      at + of + n <= |t| && Overwrite(t, at + of, payload[of..][..n]) == Overwrite(s, at, payload[..of + n])
  {
    assert payload[..of + n] == payload[..of] + payload[of..][..n];
    OverwriteConcat(s, at, payload[..of], payload[of..][..n]);
  }

  /** An empty segment at the write position starts at the end of the data. */
  lemma EmptyEnd(segs: seq<Segment>, w: nat)
    requires Layout(segs, w) && segs[w].data == []
    ensures segs[w].absof == Length(segs)
  {
    TailEmpty(segs, w);
    assert StartsAt(segs, w);
  }

  lemma ConcatPrefix<T>(a: seq<T>, s: seq<T>, i: nat, j: nat)
    requires i <= j <= |s|
    ensures (a + s[..i]) + s[i..j] == a + s[..j]
    ensures s[..i] + s[i..j] == s[..j]
  {}

  lemma EmptyFlat()
    ensures Length([]) == 0
  {}

  lemma LayoutFacts(segs: seq<Segment>, w: int)
    requires Layout(segs, w)
    ensures -1 <= w < |segs| && forall k :: 0 <= k < |segs| ==> Sound(segs[k])
  {}

  /** The walk of an update reaches the segment that continues at `at`. */
  lemma NextSegment(segs: seq<Segment>, w: int, i: nat, at: nat)
    requires Layout(segs, w) && i <= w && StartsAt(segs, i)
    requires at == segs[i].absof + |segs[i].data| && at < Length(segs)
    ensures i + 1 <= w && StartsAt(segs, i + 1) && segs[i + 1].absof == at
  {
    hide Flat, Capacity;
    FlatAt(segs, i);
    WithinWpos(segs, w);
    assert i != w;
    assert StartsAt(segs, i + 1);
  }

  /** A read-only segment that was cut short leaves room that is counted but not writable. */
  lemma RoomLeft(segs: seq<Segment>, x: Segment)
    requires forall k :: 0 <= k < |segs| ==> Sound(segs[k])
    requires |x.data| < x.size
    ensures Capacity(segs + [x]) > Length(segs + [x])
  {
    FlatFits(segs);
    FlatSnoc(segs, x);
  }

  /** The segments of `a` are still there in `b`, with the same capacities. */
  ghost predicate SameSizes(a: seq<Segment>, b: seq<Segment>) {
    |a| <= |b| && forall k :: 0 <= k < |a| ==> b[k].size == a[k].size
  }

  lemma {:induction false} SameCapacity(a: seq<Segment>, b: seq<Segment>)
    requires |a| == |b| && SameSizes(a, b)
    ensures Capacity(a) == Capacity(b)
  {
    if a != [] {
      SameCapacity(a[..|a| - 1], b[..|b| - 1]);
    }
  }

  /** Data that stops before an added segment fitted in the old capacity. */
  lemma ReachesLast(a: seq<Segment>, b: seq<Segment>, w: int)
    requires Layout(b, w) && SameSizes(a, b) && |b| == |a| + 1 && w < |a|
    ensures Length(b) <= Capacity(a)
  {
    hide Flat, Capacity;
    if w >= 0 {
      WithinWpos(b, w);
      PrefixLength(b, w + 1, |a|);
    }
    FlatFits(b[..|a|]);
    SameCapacity(a, b[..|a|]);
  }
}
