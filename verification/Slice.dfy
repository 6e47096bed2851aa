/**
  Read slices of cbits/hs_rdbuf.c and cbits/hs_rdbuf.h: every reader sees exactly the
  flat bytes between its position and its end, however they are cut into segments.
 */
module Slice {
  import opened Bits
  import opened BufSpec
  import opened Varint
  import opened Buf
  import Crc32cSpec
  import Crc32cHw

  /** `rd_slice_t` */
  class BufferSlice {
    const buf: Buffer
    var seg: int             // index of the current segment
    var rof: nat             // offset in it
    var start: nat
    var end: nat

    ghost predicate Valid()
      reads this, buf
    {
      && buf.Valid() && 0 <= seg <= buf.wpos && rof <= |buf.segs[seg].data|
      && start <= Pos() <= end <= buf.len
    }

    /** `rd_slice_abs_offset` */
    function Pos(): nat
      requires 0 <= seg < |buf.segs|
      reads this, buf
    {
      buf.segs[seg].absof + rof
    }

    /** The bytes still to be read. */
    ghost function Rest(): seq<byte>
      requires Valid()
      reads this, buf
    {
      buf.Bytes()[Pos()..end]
    }

    /** An unpositioned slice, to be set up by `Init`. */
    constructor (buf: Buffer)
      ensures this.buf == buf
    {
      this.buf := buf;
      seg, rof, start, end := -1, 0, 0, 0;
    }

    /** `rd_slice_init` */
    method Init(absof: nat, size: nat) returns (r: int)
      requires buf.Valid()
      modifies this
      ensures r == (if absof < buf.len && absof + size <= buf.len then 0 else -1)
      ensures r == 0 ==> Valid() && Pos() == start == absof && end == absof + size
    {
      var s := buf.SegmentAt(-1, absof);
      if s == -1 {
        return -1;
      }
      if buf.len < absof + size {
        return -1;
      }
      seg, rof := s, absof - buf.segs[s].absof;
      start, end := absof, absof + size;
      r := 0;
    }

    /** The first segment with payload at or after the position, and the offset in it. */
    method Locate() returns (i: int, r: nat)
      requires Valid()
      ensures seg <= i <= buf.wpos && StartsAt(buf.segs, i)
      ensures buf.segs[i].absof + r == Pos() && r <= |buf.segs[i].data|
      ensures i == seg ==> r == rof
      ensures i != seg ==> r == 0
      ensures Pos() < end ==> r < |buf.segs[i].data|
    {
      hide Flat, Capacity, Layout;
      LayoutFacts(buf.segs, buf.wpos);
      i, r := seg, rof;
      Started(buf.segs, buf.wpos, seg);
      while i < |buf.segs| && buf.segs[i].absof + r < end && |buf.segs[i].data| == r
        invariant seg <= i <= buf.wpos && StartsAt(buf.segs, i)
        invariant buf.segs[i].absof + r == Pos() && r <= |buf.segs[i].data|
        invariant if i == seg then r == rof else r == 0
        decreases |buf.segs| - i
      {
        NextSegment(buf.segs, buf.wpos, i, Pos());
        i, r := i + 1, 0;
      }
    }

    /**
      `rd_slice_reader0`: the next contiguous chunk, empty only at the end of the slice;
      the position moves past it when `update` is set.
     */
    method Reader(update: bool) returns (chunk: seq<byte>)
      requires Valid()
      modifies this`seg, this`rof
      ensures Valid() && chunk <= old(Rest()) && (chunk == [] <==> old(Rest()) == [])
      ensures Pos() == old(Pos()) + (if update then |chunk| else 0)
    {
      hide Flat, Capacity, Layout;
      var i, r := Locate();
      LayoutFacts(buf.segs, buf.wpos);
      if buf.segs[i].absof + r >= end {
        return [];
      }
      var rlen := Min(|buf.segs[i].data| - r, end - Pos());
      chunk := buf.segs[i].data[r..r + rlen];
      ChunkInFlat(buf.segs, i, r, rlen);
      PrefixOfRange(buf.Bytes(), Pos(), Pos() + rlen, end);
      if update {
        if seg != i {
          seg, rof := i, rlen;
        } else {
          rof := rof + rlen;
        }
      }
    }

    /** `rd_slice_read`: all of `size` bytes, or none. */
    method Read(size: nat) returns (ok: bool, dst: seq<byte>)
      requires Valid()
      modifies this`seg, this`rof, this`end
      ensures Valid() && end == old(end)
      ensures ok == (size <= |old(Rest())|)
      ensures ok ==> dst == old(Rest())[..size] && Pos() == old(Pos()) + size
      ensures !ok ==> dst == [] && Pos() == old(Pos()) && seg == old(seg) && rof == old(rof)
    {
      hide Flat, Capacity, Layout;
      LayoutFacts(buf.segs, buf.wpos);
      dst := [];
      if end - Pos() < size {
        return false, [];
      }
      var origEnd := end;
      ghost var bytes, pos := buf.Bytes(), Pos();
      end := Pos() + size;
      while true
        invariant Valid() && end == pos + size && Pos() == pos + |dst|
        invariant dst == bytes[pos..Pos()]
        decreases end - Pos()
      {
        PrefixOfRange(bytes, pos, Pos(), end);
        var chunk := Reader(true);
        if chunk == [] {
          break;
        }
        dst := dst + chunk;
        PrefixOfRange(bytes, pos, Pos(), end);
      }
      end := origEnd;
      ok := true;
    }

    /** `rd_slice_seek`: to the slice-local `offset`; at or past the end nothing changes. */
    method Seek(offset: nat) returns (r: int)
      requires Valid()
      modifies this`seg, this`rof
      ensures Valid()
      ensures r == (if start + offset < end then 0 else -1)
      ensures if r == 0 then Pos() == start + offset else seg == old(seg) && rof == old(rof)
    {
      hide Flat, Capacity, Layout;
      LayoutFacts(buf.segs, buf.wpos);
      var absof := start + offset;
      if absof >= end {
        return -1;
      }
      var s := buf.SegmentAt(seg, absof);
      seg, rof := s, absof - buf.segs[s].absof;
      r := 0;
    }

    /** `rd_slice_peek`: reads at a slice-local offset without moving the position. */
    method Peek(offset: nat, size: nat) returns (ok: bool, dst: seq<byte>)
      requires Valid()
      ensures Valid()
      ensures ok == (start + offset < end && start + offset + size <= end)
      ensures ok ==> dst == buf.Bytes()[start + offset..start + offset + size]
    {
      hide Flat, Capacity, Layout;
      var sub := new BufferSlice(buf);
      sub.seg, sub.rof, sub.start, sub.end := seg, rof, start, end;
      assert sub.Valid();
      var r := sub.Seek(offset);
      if r == -1 {
        return false, [];
      }
      ok, dst := sub.Read(size);
      if ok {
        RangeOfRange(buf.Bytes(), start + offset, size, end);
      }
    }

    /** `rd_slice_narrow`: `size` counts from the slice start and must cover what was read. */
    method Narrow(size: nat) returns (ok: bool, save: nat)
      requires Valid() && start + size >= Pos()
      modifies this`end
      ensures Valid() && save == old(end)
      ensures ok == (start + size <= old(end))
      ensures end == if ok then start + size else old(end)
    {
      hide Layout;
      save := end;
      if start + size > end {
        return false, save;
      }
      end := start + size;
      ok := true;
    }

    /** `rd_slice_narrow_relative` */
    method NarrowRelative(relsize: nat) returns (ok: bool, save: nat)
      requires Valid()
      modifies this`end
      ensures Valid() && save == old(end)
      ensures ok == (relsize <= |old(Rest())|)
      ensures ok ==> |Rest()| == relsize && Rest() <= old(Rest())
      ensures !ok ==> end == old(end)
    {
      ok, save := Narrow(Pos() - start + relsize);
    }

    /** `rd_slice_widen`: the saved end back, the position kept. */
    method Widen(save: nat)
      requires Valid() && end <= save <= buf.len
      modifies this`end
      ensures Valid() && end == save && Pos() == old(Pos())
    {
      end := save;
    }

    /**
      The inner loop of `rd_slice_read_uvarint` over segment `i`: stops at the end of the
      slice, at a terminating byte, or at the end of the segment. From the eleventh group
      on C leaves the shift undefined, so the accumulator is then any number.
     */
    method ScanSegment(i: nat, rof0: nat, k0: nat, num0: nat) returns (scan: Scan, r: nat, k: nat, num: nat)
      requires Valid() && i <= buf.wpos && StartsAt(buf.segs, i)
      requires k0 <= |Rest()| && Continues(Rest()[..k0]) && (k0 <= 9 ==> num0 == Digits(Rest()[..k0]))
      requires rof0 <= |buf.segs[i].data| && buf.segs[i].absof + rof0 == Pos() + k0
      ensures r <= |buf.segs[i].data| && buf.segs[i].absof + r == Pos() + k && k <= |Rest()|
      ensures scan == Underflow ==> VarLen(Rest()) == 0
      ensures scan == Finished ==> k == VarLen(Rest()) > 0 && (k <= 10 ==> num == Digits(Rest()[..k]) % Pow2(64))
      ensures scan == More ==>
        r == |buf.segs[i].data| && Continues(Rest()[..k]) && (k <= 9 ==> num == Digits(Rest()[..k]))
    {
      hide Flat, Capacity, Layout, Pow2, Or;
      LayoutFacts(buf.segs, buf.wpos);
      ghost var rest := Rest();
      r, k, num := rof0, k0, num0;
      while r < |buf.segs[i].data|
        invariant k <= |rest| && r <= |buf.segs[i].data|
        invariant buf.segs[i].absof + r == Pos() + k
        invariant Continues(rest[..k]) && (k <= 9 ==> num == Digits(rest[..k]))
      {
        if buf.segs[i].absof + r >= end {
          AllContinue(rest, k);
          return Underflow, r, k, num;
        }
        var oct := buf.segs[i].data[r];
        ByteInFlat(buf.segs, i, r);
        assert rest[k] == buf.Bytes()[Pos() + k];
        ContinuesOn(rest, k);
        if k <= 9 {
          GroupRead(rest, k, num);
          num := Or(num, Pow2(7 * k) * (oct % 128) % Pow2(64));
        } else {
          num := *;
        }
        k, r := k + 1, r + 1;
        if oct < 128 {
          VarLenFound(rest, k - 1);
          return Finished, r, k, num;
        }
      }
      scan := More;
    }

    /**
      `rd_slice_read_uvarint`: 0 on underflow, else the number of bytes read; the value is
      defined for up to ten of them.
     */
    method ReadUvarint() returns (n: nat, num: nat)
      requires Valid()
      modifies this`seg, this`rof
      ensures Valid() && n == VarLen(old(Rest()))
      ensures n > 0 ==> Pos() == old(Pos()) + n
      ensures 0 < n <= 10 ==> num == Digits(old(Rest())[..n]) % Pow2(64)
      ensures n == 0 ==> seg == old(seg) && rof == old(rof)
    {
      hide Flat, Capacity, Layout, Pow2, Or;
      LayoutFacts(buf.segs, buf.wpos);
      Started(buf.segs, buf.wpos, seg);
      var i, r: nat, k: nat := seg, rof, 0;
      num := 0;
      NoDigits(Rest());
      while i < |buf.segs|
        invariant Valid() && seg == old(seg) && rof == old(rof)
        invariant seg <= i <= |buf.segs| && k <= |Rest()|
        invariant i <= buf.wpos ==>
          StartsAt(buf.segs, i) && buf.segs[i].absof + r == Pos() + k && r <= |buf.segs[i].data|
        invariant i > buf.wpos ==> k == |Rest()| && r == 0
        invariant Continues(Rest()[..k]) && (k <= 9 ==> num == Digits(Rest()[..k]))
        decreases |buf.segs| - i
      {
        if i <= buf.wpos {
          var scan;
          scan, r, k, num := ScanSegment(i, r, k, num);
          if scan == Underflow {
            return 0, 0;
          }
          if scan == Finished {
            seg, rof := i, r;
            return k, num;
          }
          EndOfSegment(buf.segs, buf.wpos, i);
        } else {
          assert |buf.segs[i].data| == 0 by { Unwritten(buf.segs, buf.wpos, i); }
        }
        i, r := i + 1, 0;
      }
      AllContinue(Rest(), k);
      return 0, 0;
    }

    /** `rd_slice_read_varint` */
    method ReadVarint() returns (n: nat, num: int)
      requires Valid()
      modifies this`seg, this`rof
      ensures Valid() && n == VarLen(old(Rest()))
      ensures n > 0 ==> Pos() == old(Pos()) + n
      ensures 0 < n <= 10 ==> num == UnZigZag(Digits(old(Rest())[..n]) % Pow2(64))
      ensures n == 0 ==> seg == old(seg) && rof == old(rof)
    {
      var unum;
      n, unum := ReadUvarint();
      num := if n > 0 then UnZigZag(unum) else 0;
    }

    /**
      `rd_slice_crc32c`: chunk by chunk, at whatever addresses the chunks lie; the result
      depends only on the flat bytes of the slice.
     */
    method Crc32c(engine: Crc32cHw.Engine, addrs: seq<nat>) returns (crc: uint32)
      requires Valid() && engine.Ready()
      modifies this`seg, this`rof
      ensures Valid() && Pos() == end
      ensures crc == Crc32cSpec.Crc32c(0, old(Rest()))
    {
      hide Flat, Capacity, Layout, Crc32cSpec.Crc32c;
      LayoutFacts(buf.segs, buf.wpos);
      ghost var bytes, pos := buf.Bytes(), Pos();
      crc := 0;
      Crc32cSpec.Crc32cEmpty(0);
      assert bytes[pos..pos] == [];
      var n := 0;
      while true
        invariant Valid() && engine.Ready() && pos <= Pos()
        invariant crc == Crc32cSpec.Crc32c(0, bytes[pos..Pos()])
        decreases end - Pos()
      {
        ghost var at := Pos();
        PrefixOfRange(bytes, pos, at, end);
        var chunk := Reader(true);
        if chunk == [] {
          break;
        }
        crc := engine.Compute(crc, chunk, if n < |addrs| then addrs[n] else 0);
        Crc32cSpec.Crc32cConcat(0, bytes[pos..at], chunk);
        PrefixOfRange(bytes, at, Pos(), end);
        assert chunk == bytes[at..Pos()];
        PrefixOfRange(bytes, pos, at, Pos());
        n := n + 1;
      }
    }
  }

  /** How the scan of one segment ended. */
  datatype Scan = Underflow | Finished | More

  /** Past a fully scanned segment: the next one continues, or nothing is left. */
  lemma EndOfSegment(segs: seq<Segment>, w: int, i: nat)
    requires Layout(segs, w) && i <= w && StartsAt(segs, i)
    ensures i < w ==> StartsAt(segs, i + 1) && segs[i + 1].absof == segs[i].absof + |segs[i].data|
    ensures i == w ==> segs[i].absof + |segs[i].data| == Length(segs)
  {
    hide Flat, Capacity;
    FlatAt(segs, i);
    if i == w {
      WithinWpos(segs, i);
    } else {
      Started(segs, w, i + 1);
    }
  }

  lemma Unwritten(segs: seq<Segment>, w: int, i: nat)
    requires Layout(segs, w) && w < i < |segs|
    ensures segs[i].data == []
  {}

  lemma Started(segs: seq<Segment>, w: int, i: int)
    requires Layout(segs, w) && 0 <= i <= w
    ensures StartsAt(segs, i)
  {}

  lemma ChunkInFlat(segs: seq<Segment>, i: nat, r: nat, n: nat)
    requires i < |segs| && StartsAt(segs, i) && r + n <= |segs[i].data|
    ensures segs[i].absof + r + n <= Length(segs)
    ensures segs[i].data[r..r + n] == Flat(segs)[segs[i].absof + r..segs[i].absof + r + n]
  {
    hide Flat, Capacity;
    FlatAt(segs, i);
  }

  lemma ByteInFlat(segs: seq<Segment>, i: nat, r: nat)
    requires i < |segs| && StartsAt(segs, i) && r < |segs[i].data|
    ensures segs[i].absof + r < Length(segs) && segs[i].data[r] == Flat(segs)[segs[i].absof + r]
  {
    hide Flat, Capacity;
    FlatAt(segs, i);
  }

  lemma PrefixOfRange<T>(s: seq<T>, i: nat, j: nat, k: nat)
    requires i <= j <= k <= |s|
    ensures s[i..j] <= s[i..k]
    ensures s[i..k] == s[i..j] + s[j..k]
  {}

  lemma RangeOfRange<T>(s: seq<T>, i: nat, n: nat, k: nat)
    requires i + n <= k <= |s|
    ensures s[i..k][..n] == s[i..i + n]
  {}

  lemma NoDigits(rest: seq<byte>)
    ensures rest[..0] == [] && Digits(rest[..0]) == 0
  {}

  /** All of the remaining bytes ask for more: underflow. */
  lemma AllContinue(rest: seq<byte>, k: nat)
    requires k == |rest| && Continues(rest[..k])
    ensures VarLen(rest) == 0
  {
    assert rest[..k] == rest;
    VarLenNone(rest);
  }

  /** The accumulator after one more group. */
  lemma GroupRead(rest: seq<byte>, k: nat, num: nat)
    requires k < |rest| && k <= 9 && num == Digits(rest[..k])
    ensures Or(num, Pow2(7 * k) * (rest[k] % 128) % Pow2(64)) == Digits(rest[..k + 1]) % Pow2(64)
    ensures k < 9 ==> Digits(rest[..k + 1]) % Pow2(64) == Digits(rest[..k + 1])
  {
    hide Or, Pow2;
    assert rest[..k + 1] == rest[..k] + [rest[k]];
    DigitsSnoc(rest[..k], rest[k]);
    DigitsBound(rest[..k]);
    OrGroup(num, k, rest[k] % 128);
    if k < 9 {
      DigitsBound(rest[..k + 1]);
      Pow2Monotone(7 * (k + 1), 64);
      SmallMod(Digits(rest[..k + 1]), Pow2(64));
    }
  }

  lemma ContinuesOn(rest: seq<byte>, k: nat)
    requires k < |rest| && Continues(rest[..k])
    ensures rest[k] >= 128 ==> Continues(rest[..k + 1])
  {
    assert rest[..k + 1] == rest[..k] + [rest[k]];
  }
}
