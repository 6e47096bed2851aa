/**
  The histogram object of cbits/hs_rdhdrhistogram.c: creation, recording, the counter
  iterator, and the queries built on it.
 */
module Histogram {
  import opened Bits
  import opened HdrSpec
  import opened HdrRank

  /** `bitLen`: the bit length found by shifts of 16, 8, 4, 2 and 1. */
  method BitLength(v: nat) returns (n: nat)
    ensures n == BitLen(v)
  {
    hide Pow2, Shr, BitLen;
    ShiftUnits();
    var x := v;
    n := 0;
    while x >= 0x8000
      invariant n + BitLen(x) == BitLen(v)
      decreases x
    {
      BitLenShift(x, 16);
      ShrSmaller(x, 16);
      x := Shr(x, 16);
      n := n + 16;
    }
    if x >= 0x80 {
      BitLenShift(x, 8);
      ShrBelow(x, 8, 7);
      x := Shr(x, 8);
      n := n + 8;
    }
    if x >= 0x8 {
      BitLenShift(x, 4);
      ShrBelow(x, 4, 3);
      x := Shr(x, 4);
      n := n + 4;
    }
    if x >= 0x2 {
      BitLenShift(x, 2);
      ShrBelow(x, 2, 1);
      x := Shr(x, 2);
      n := n + 2;
    }
    BitLenBit(x);
    if x >= 0x1 {
      n := n + 1;
    }
  }

  lemma ShiftUnits()
    ensures Pow2(1) == 0x2 && Pow2(3) == 0x8 && Pow2(7) == 0x80 && Pow2(15) == 0x8000
  {}

  lemma BitLenBit(x: nat)
    requires x < 2
    ensures BitLen(x) == x
  {}

  lemma ShrSmaller(x: nat, k: nat)
    requires k >= 1 && x > 0
    ensures Shr(x, k) < x
  {
    ShrDiv(x, k);
    Pow2Monotone(1, k);
    MulMonotone(Shr(x, k), 2, Pow2(k));
  }

  // ------------------------------------------------------------------ the histogram

  class Histogram {
    const cfg: Config
    const lowestTrackable: int
    const highestTrackable: int
    var counts: array<nat>
    var totalCount: nat
    var outOfRangeCount: nat
    var lowestOutOfRange: int
    var highestOutOfRange: int
    /** The values recorded since the last reset that were in range, in order. */
    ghost var recorded: seq<nat>

    ghost predicate Valid()
      reads this, counts
    {
      cfg.buckets >= 1
      && counts.Length == cfg.CountsLen()
      && totalCount == |recorded|
      && (forall k :: 0 <= k < |recorded| ==> Index(cfg, recorded[k]) < counts.Length)
      && (forall i :: 0 <= i < counts.Length ==> counts[i] == CountAt(cfg, recorded, i))
    }

    constructor (c: Config, minValue: int, maxValue: int)
      requires c.buckets >= 1
      ensures Valid() && fresh(counts) && recorded == []
      ensures cfg == c && lowestTrackable == minValue && highestTrackable == maxValue
      ensures outOfRangeCount == 0 && lowestOutOfRange == minValue && highestOutOfRange == maxValue
    {
      cfg := c;
      lowestTrackable := minValue;
      highestTrackable := maxValue;
      counts := new nat[c.CountsLen()](_ => 0);
      totalCount := 0;
      outOfRangeCount := 0;
      lowestOutOfRange := minValue;
      highestOutOfRange := maxValue;
      recorded := [];
    }

    /** `rd_hdr_histogram_reset`; the out-of-range statistics stay. */
    method Reset()
      requires Valid()
      modifies this`totalCount, this`recorded, counts
      ensures Valid() && recorded == []
    {
      hide Index;
      totalCount := 0;
      recorded := [];
      var i := 0;
      while i < counts.Length
        invariant 0 <= i <= counts.Length
        invariant totalCount == 0 && recorded == []
        invariant forall j :: 0 <= j < i ==> counts[j] == 0
      {
        counts[i] := 0;
        i := i + 1;
      }
    }

    /**
      `rd_hdr_histogram_record`: a value is recorded exactly when it is below the smallest
      untrackable value; any other only moves the out-of-range statistics.
     */
    method Record(v: nat) returns (ok: bool)
      requires Valid()
      modifies this`totalCount, this`recorded, this`outOfRangeCount, this`lowestOutOfRange, this`highestOutOfRange, counts
      ensures Valid()
      ensures ok <==> v < Untrackable(cfg)
      ensures recorded == if ok then old(recorded) + [v] else old(recorded)
      ensures outOfRangeCount == old(outOfRangeCount) + (if ok then 0 else 1)
      ensures highestOutOfRange == if ok || v <= old(highestOutOfRange) then old(highestOutOfRange) else v
      ensures lowestOutOfRange == if ok || v >= old(lowestOutOfRange) then old(lowestOutOfRange) else v
    {
      hide Index, CountAt, CountBelow, Untrackable, Config.CountsLen;
      var idx := Index(cfg, v);
      InRange(cfg, v);
      if idx < 0 || counts.Length <= idx {
        outOfRangeCount := outOfRangeCount + 1;
        if v > highestOutOfRange {
          highestOutOfRange := v;
        }
        if v < lowestOutOfRange {
          lowestOutOfRange := v;
        }
        return false;
      }
      counts[idx] := counts[idx] + 1;
      totalCount := totalCount + 1;
      recorded := recorded + [v];
      forall i | 0 <= i < counts.Length ensures counts[i] == CountAt(cfg, recorded, i) {
        CountSnoc(cfg, old(recorded), v, i);
      }
      return true;
    }

    /** `rd_hdr_histogram_quantile` for an integer target rank. */
    method Quantile(rank: int) returns (q: nat)
      requires Valid()
      ensures q == QuantileOf(cfg, recorded, rank)
    {
      hide Index, CountAt, CountBelow, Highest, Lowest, SortValues, Config.CountsLen, Config.CountsIndex;
      var it := new Iterator(this);
      var total := 0;
      while true
        invariant Valid() && it.Valid() && it.hdr == this && fresh(it)
        invariant total == it.countToIdx
        invariant it.Position() == 0 || total < rank
        decreases counts.Length - it.Position()
      {
        var more := it.Next();
        if !more {
          break;
        }
        total := total + it.countAtIdx;
        if total >= rank {
          FoundAt(cfg, recorded, rank, it.valueFromIdx);
          return Highest(cfg, it.valueFromIdx);
        }
      }
      return 0;
    }

    /** `rd_hdr_histogram_max` */
    method Max() returns (m: nat)
      requires Valid()
      ensures m == if recorded == [] then Highest(cfg, 0) else QuantileOf(cfg, recorded, |recorded|)
    {
      hide Index, CountAt, CountBelow, Highest, Lowest, SortValues, Config.CountsLen, Config.CountsIndex;
      var it := new Iterator(this);
      var vmax := 0;
      while true
        invariant Valid() && it.Valid() && it.hdr == this && fresh(it)
        invariant it.countToIdx == 0 ==> vmax == 0
        invariant it.countToIdx > 0 ==> vmax == QuantileOf(cfg, recorded, it.countToIdx)
        decreases counts.Length - it.Position()
      {
        var more := it.Next();
        if !more {
          break;
        }
        if it.countAtIdx != 0 {
          vmax := it.highestEquivalentValue;
          FoundAt(cfg, recorded, it.countToIdx, it.valueFromIdx);
        }
      }
      BelowBound(cfg, recorded, it.Position());
      if recorded != [] {
        QuantileEnd(cfg, recorded);
      }
      return Highest(cfg, vmax);
    }

    /** `rd_hdr_histogram_min` */
    method Min() returns (m: nat)
      requires Valid()
      ensures m == if recorded == [] then 0 else Lowest(cfg, Smallest(recorded))
    {
      hide Index, CountAt, CountBelow, Highest, Lowest, SortValues, Config.CountsLen, Config.CountsIndex;
      var it := new Iterator(this);
      var vmin := 0;
      while true
        invariant Valid() && it.Valid() && it.hdr == this && fresh(it)
        invariant vmin == 0 && it.countToIdx == 0
        decreases counts.Length - it.Position()
      {
        var more := it.Next();
        if !more {
          break;
        }
        if it.countAtIdx != 0 && vmin == 0 {
          vmin := it.highestEquivalentValue;
          FoundAt(cfg, recorded, 1, it.valueFromIdx);
          EndsIdempotent(cfg, Smallest(recorded));
          break;
        }
      }
      LowestZero(cfg);
      return Lowest(cfg, vmin);
    }
  }

  /**
    `rd_hdr_histogram_new`: refuses a number of significant figures outside 1..5; the
    bucket count is the least that reaches `maxValue`. Every value below `maxValue` is then
    recordable, and `maxValue` itself unless it is a power of two at or past the end of the
    first bucket.
   */
  method NewHistogram(minValue: int, maxValue: int, sigFigs: int) returns (h: Histogram?)
    ensures h == null <==> sigFigs < 1 || sigFigs > 5
    ensures h != null ==> fresh(h) && fresh(h.counts) && h.Valid() && h.recorded == []
    ensures h != null ==> h.cfg == Shape(minValue, sigFigs).(buckets := h.cfg.buckets) && h.cfg.buckets >= 1
    ensures h != null ==> UnitFor(minValue, h.cfg.unit) && SubBucketsFor(sigFigs, h.cfg)
    ensures h != null ==> h.lowestTrackable == minValue && h.highestTrackable == maxValue
    ensures h != null ==> h.outOfRangeCount == 0 && h.lowestOutOfRange == minValue && h.highestOutOfRange == maxValue
    ensures h != null ==> maxValue <= Untrackable(h.cfg)
    ensures h != null && h.cfg.buckets > 1 ==> Untrackable(h.cfg) < 2 * maxValue
    ensures h != null && maxValue >= 0 ==>
      (Index(h.cfg, maxValue) < h.cfg.CountsLen() <==> !OnBoundary(Shape(minValue, sigFigs), maxValue))
  {
    hide Index, Pow2, BitLen, Pow10, CountAt;
    if sigFigs < 1 || sigFigs > 5 {
      return null;
    }
    var c := Shape(minValue, sigFigs);
    UnitExact(minValue, sigFigs);
    SubBucketsExact(minValue, sigFigs);
    var smallestUntrackable := c.SubCount() * Pow2(c.unit);
    var bucketsNeeded := 1;
    Pow2Add(c.half + 1, c.unit);
    while smallestUntrackable < maxValue
      invariant bucketsNeeded >= 1
      invariant smallestUntrackable == Untrackable(c.(buckets := bucketsNeeded)) >= 1
      invariant bucketsNeeded > 1 ==> smallestUntrackable < 2 * maxValue
      decreases maxValue - smallestUntrackable
    {
      Pow2Double(c.unit + c.half + bucketsNeeded);
      smallestUntrackable := 2 * smallestUntrackable;
      bucketsNeeded := bucketsNeeded + 1;
    }
    var d := c.(buckets := bucketsNeeded);
    if maxValue >= 0 {
      InRange(d, maxValue);
      BoundaryExact(d, maxValue);
    }
    h := new Histogram(d, minValue, maxValue);
  }

  // ------------------------------------------------------------------ what the queries mean

  /** The smallest recorded value. */
  ghost function Smallest(r: seq<nat>): nat
    requires r != []
  {
    SortLength(r);
    SortValues(r)[0]
  }

  lemma {:induction false} SortLength(r: seq<nat>)
    ensures |SortValues(r)| == |r|
  {
    if r != [] {
      SortLength(r[..|r| - 1]);
      InsertPermutes(r[|r| - 1], SortValues(r[..|r| - 1]));
    }
  }

  /**
    The value at a rank: the top of the range of the rank-th smallest recorded value. A
    rank below 1 means the first counter; a rank past the last sample, nothing.
   */
  ghost function QuantileOf(c: Config, r: seq<nat>, rank: int): nat {
    SortLength(r);
    if rank > |r| || r == [] then 0
    else if rank < 1 then Highest(c, 0)
    else Highest(c, SortValues(r)[rank - 1])
  }

  /** The first counter at which the running count reaches the rank gives the quantile. */
  lemma FoundAt(c: Config, r: seq<nat>, rank: int, v: nat)
    requires r != []
    requires if rank < 1 then Index(c, v) == 0 else CountBelow(c, r, Index(c, v)) < rank <= CountBelow(c, r, Index(c, v) + 1)
    ensures Highest(c, v) == QuantileOf(c, r, rank)
    ensures rank == 1 ==> Highest(c, v) == Highest(c, Smallest(r))
  {
    hide Index, CountBelow, Highest, Lowest, SortValues;
    if rank < 1 {
      IndexMonotone(c, 0, v);
      SameCounter(c, v, 0);
    } else {
      SortLength(r);
      BelowBound(c, r, Index(c, v) + 1);
      RankCounter(c, r, rank, Index(c, v));
      SameCounter(c, v, SortValues(r)[rank - 1]);
    }
  }

  lemma LowestZero(c: Config)
    ensures Lowest(c, 0) == 0
  {
    hide Index, Lowest, Highest;
    RangeOf(c, 0);
  }

  lemma QuantileEnd(c: Config, r: seq<nat>)
    requires r != []
    ensures Highest(c, QuantileOf(c, r, |r|)) == QuantileOf(c, r, |r|)
  {
    hide Highest;
    SortLength(r);
    EndsIdempotent(c, SortValues(r)[|r| - 1]);
  }

  /** Quantiles do not decrease with the rank. */
  lemma QuantileMonotone(c: Config, r: seq<nat>, j: int, k: int)
    requires j <= k <= |r|
    ensures QuantileOf(c, r, j) <= QuantileOf(c, r, k)
  {
    hide Index, Highest, Lowest, SortValues;
    if r != [] && k >= 1 {
      SortCorrect(c, r, 0);
      EndsMonotone(c, if j < 1 then 0 else SortValues(r)[j - 1], SortValues(r)[k - 1]);
    }
  }

  /** The maximum and the minimum bound every recorded value, and are tight to one range. */
  lemma ExtremesBound(c: Config, r: seq<nat>, i: nat)
    requires i < |r|
    ensures Lowest(c, Smallest(r)) <= r[i] <= QuantileOf(c, r, |r|)
    ensures Smallest(r) in r && exists v :: v in r && QuantileOf(c, r, |r|) == Highest(c, v)
  {
    hide Index, Highest, Lowest, SortValues;
    SortCorrect(c, r, 0);
    var s := SortValues(r);
    RangeOf(c, s[0]);
    RangeOf(c, s[|r| - 1]);
    assert r[i] in multiset(s);
    var k :| 0 <= k < |s| && s[k] == r[i];
    assert s[0] in multiset(r) && s[|r| - 1] in multiset(r);
    assert QuantileOf(c, r, |r|) == Highest(c, s[|r| - 1]);
  }

  // ------------------------------------------------------------------ the iterator

  class Iterator {
    const hdr: Histogram
    var bucketIdx: nat
    var subBucketIdx: int
    var countAtIdx: nat
    var countToIdx: nat
    var valueFromIdx: nat
    var highestEquivalentValue: nat

    /** How many counters have been visited. */
    ghost function Position(): int
      reads this
    {
      if subBucketIdx < 0 then 0 else hdr.cfg.CountsIndex(bucketIdx, subBucketIdx) + 1
    }

    ghost predicate Valid()
      reads this, hdr, hdr.counts
    {
      hdr.Valid()
      && 0 <= Position() <= hdr.counts.Length
      && IterPair(hdr.cfg, bucketIdx, subBucketIdx)
      && countToIdx == CountBelow(hdr.cfg, hdr.recorded, Position())
    }

    constructor (h: Histogram)
      requires h.Valid()
      ensures Valid() && hdr == h && Position() == 0 && countToIdx == 0
    {
      hdr := h;
      bucketIdx, subBucketIdx := 0, -1;
      countAtIdx, countToIdx, valueFromIdx, highestEquivalentValue := 0, 0, 0, 0;
      BelowZero(h.cfg, h.recorded);
    }

    /**
      `rd_hdr_iter_next`: visits the next counter, until the counters seen add up to all
      recorded values. It never runs past the last counter.
     */
    method Next() returns (more: bool)
      requires Valid()
      modifies this
      ensures Valid()
      ensures more <==> old(countToIdx) < hdr.totalCount
      ensures more ==> Position() == old(Position()) + 1
      ensures more ==> Index(hdr.cfg, valueFromIdx) == old(Position()) && Lowest(hdr.cfg, valueFromIdx) == valueFromIdx
      ensures more ==> countAtIdx == hdr.counts[old(Position())] && countToIdx == old(countToIdx) + countAtIdx
      ensures more ==> highestEquivalentValue == Highest(hdr.cfg, valueFromIdx)
      ensures !more ==> unchanged(this)
    {
      hide Index, CountAt, CountBelow, Highest, Lowest, SortValues, Pow2, Config.CountsIndex, Config.CountsLen, Config.ValueFrom;
      if countToIdx >= hdr.totalCount {
        return false;
      }
      BelowAll(hdr.cfg, hdr.recorded, hdr.counts.Length);
      NextPairIndex(hdr.cfg, bucketIdx, subBucketIdx);
      subBucketIdx := subBucketIdx + 1;
      if subBucketIdx >= hdr.cfg.SubCount() {
        subBucketIdx := hdr.cfg.HalfCount();
        bucketIdx := bucketIdx + 1;
      }
      if bucketIdx >= hdr.cfg.buckets {
        return false;
      }
      var i := hdr.cfg.CountsIndex(bucketIdx, subBucketIdx);
      countAtIdx := hdr.counts[i];
      countToIdx := countToIdx + countAtIdx;
      valueFromIdx := hdr.cfg.ValueFrom(bucketIdx, subBucketIdx);
      highestEquivalentValue := Highest(hdr.cfg, valueFromIdx);
      BelowNext(hdr.cfg, hdr.recorded, i);
      ValueOfPair(hdr.cfg, bucketIdx, subBucketIdx);
      return true;
    }
  }
}
