/**
  Log-linear bucket arithmetic of cbits/hs_rdhdrhistogram.c: how a non-negative value is
  mapped to a counter, and the range of values that share it.
 */
module HdrSpec {
  import opened Bits

  /** Right shift. */
  function Shr(x: nat, k: nat): nat {
    if k == 0 then x else Shr(x / 2, k - 1)
  }

  /** The number of bits needed to write `x`. */
  function BitLen(x: nat): nat {
    if x == 0 then 0 else 1 + BitLen(x / 2)
  }

  lemma {:induction false} BitLenBounds(x: nat)
    ensures x < Pow2(BitLen(x))
    ensures x > 0 ==> BitLen(x) >= 1 && Pow2(BitLen(x) - 1) <= x
  {
    if x > 1 {
      BitLenBounds(x / 2);
    }
  }

  lemma {:induction false} BitLenMonotone(x: nat, y: nat)
    requires x <= y
    ensures BitLen(x) <= BitLen(y)
  {
    if x != 0 {
      BitLenMonotone(x / 2, y / 2);
    }
  }

  /** `BitLen(x) <= k` is the same as `x < 2^k`. */
  lemma {:induction false} BitLenBelow(x: nat, k: nat)
    ensures BitLen(x) <= k <==> x < Pow2(k)
  {
    if k != 0 && x != 0 {
      BitLenBelow(x / 2, k - 1);
    }
  }

  /** Shifting out `k` bits of a number of at least `k` bits. */
  lemma {:induction false} BitLenShift(x: nat, k: nat)
    requires k >= 1 && x >= Pow2(k - 1)
    ensures BitLen(x) == k + BitLen(Shr(x, k))
    decreases k
  {
    if k == 1 {
      assert Shr(x, 1) == x / 2;
    } else {
      BitLenShift(x / 2, k - 1);
    }
  }

  lemma {:induction false} ShrDiv(x: nat, k: nat)
    ensures Pow2(k) * Shr(x, k) <= x < Pow2(k) * Shr(x, k) + Pow2(k)
    decreases k
  {
    if k != 0 {
      ShrDiv(x / 2, k - 1);
      Twice(Pow2(k - 1), Pow2(k), Shr(x, k));
    }
  }

  lemma {:induction false} ShrMonotone(x: nat, y: nat, k: nat)
    requires x <= y
    ensures Shr(x, k) <= Shr(y, k)
  {
    if k != 0 {
      ShrMonotone(x / 2, y / 2, k - 1);
    }
  }

  /** Shifting back down what was shifted up, with anything below. */
  lemma {:induction false} ShrScaled(s: nat, r: nat, k: nat)
    requires r < Pow2(k)
    ensures Shr(Pow2(k) * s + r, k) == s
  {
    if k != 0 {
      var p := Pow2(k - 1);
      Twice(p, Pow2(k), s);
      assert (2 * (p * s) + r) / 2 == p * s + r / 2;
      ShrScaled(s, r / 2, k - 1);
    }
  }

  lemma {:induction false} ShrPow2(m: nat, k: nat)
    requires k <= m
    ensures Shr(Pow2(m), k) == Pow2(m - k)
  {
    if k != 0 {
      assert Pow2(m) / 2 == Pow2(m - 1);
      ShrPow2(m - 1, k - 1);
    }
  }

  /** The longer operand decides the length of a bitwise or. */
  lemma {:induction false} BitLenOr(a: nat, b: nat)
    ensures BitLen(Or(a, b)) == if BitLen(a) > BitLen(b) then BitLen(a) else BitLen(b)
    decreases a + b
  {
    if a != 0 && b != 0 {
      OrBits(a, b);
      BitLenOr(a / 2, b / 2);
    }
  }

  // ------------------------------------------------------------------ bucket geometry

  /** `rd_hdr_histogram_t`, the fields that fix the layout of the counters. */
  datatype Config = Config(unit: nat, half: nat, buckets: nat) {

    /** `subBucketHalfCount` */
    function HalfCount(): nat {
      Pow2(half)
    }

    /** `subBucketCount` */
    function SubCount(): nat {
      Pow2(half + 1)
    }

    /** `subBucketMask` */
    function Mask(): nat {
      (SubCount() - 1) * Pow2(unit)
    }

    /** `countsLen` */
    function CountsLen(): nat {
      (buckets + 1) * HalfCount()
    }

    /** `rd_hdr_getBucketIndex` */
    function Bucket(v: nat): nat {
      MaskLength(this);
      BitLenOr(v, Mask());
      BitLen(Or(v, Mask())) - unit - (half + 1)
    }

    /** `rd_hdr_getSubBucketIdx` */
    function Sub(v: nat, b: nat): nat {
      Shr(v, b + unit)
    }

    /** `rd_hdr_valueFromIndex` */
    function ValueFrom(b: nat, s: nat): nat {
      s * Pow2(b + unit)
    }

    /** `rd_hdr_countsIndex` */
    function CountsIndex(b: nat, s: nat): int {
      (b + 1) * Pow2(half) + (s - HalfCount())
    }
  }

  lemma MaskLength(c: Config)
    ensures BitLen(c.Mask()) == c.unit + c.half + 1
  {
    hide Pow2, BitLen;
    var n, u := c.half + 1, c.unit;
    Pow2Add(n, u);
    Pow2Add(n - 1, u);
    Pow2Double(n - 1);
    MaskBounds(Pow2(n), Pow2(n - 1), Pow2(u));
    BitLenBelow(c.Mask(), n + u);
    BitLenBelow(c.Mask(), n + u - 1);
  }

  lemma MaskBounds(p: nat, q: nat, u: nat)
    requires p == 2 * q && q >= 1 && u >= 1
    ensures q * u <= (p - 1) * u < p * u
  {
    assert p - 1 >= q;
    assert (p - 1) * u == q * u + (q - 1) * u;
    assert p * u == (p - 1) * u + u;
  }

  /** Values up to one sub-bucket array are in bucket 0; each further bit is a bucket. */
  lemma BucketOf(c: Config, v: nat)
    ensures c.Bucket(v) == if BitLen(v) > c.unit + c.half + 1 then BitLen(v) - (c.unit + c.half + 1) else 0
  {
    hide BitLen, Or;
    MaskLength(c);
    BitLenOr(v, c.Mask());
  }

  /** A sub-bucket index is below the sub-bucket count, and in its upper half past bucket 0. */
  ghost predicate ValidPair(c: Config, b: int, s: int) {
    b >= 0 && 0 <= s < c.SubCount() && (b > 0 ==> s >= c.HalfCount())
  }

  lemma PairOf(c: Config, v: nat)
    ensures ValidPair(c, c.Bucket(v), c.Sub(v, c.Bucket(v)))
  {
    hide Pow2, Shr, Or;
    BucketOf(c, v);
    var b, t := c.Bucket(v), c.unit + c.half + 1;
    BitLenBounds(v);
    BitLenBelow(v, b + t);
    ShrBelow(v, b + c.unit, c.half + 1);
    if b > 0 {
      ShrMonotone(Pow2(b + t - 1), v, b + c.unit);
      ShrPow2(b + t - 1, b + c.unit);
    }
  }

  lemma {:induction false} ShrBelow(v: nat, k: nat, m: nat)
    requires v < Pow2(k + m)
    ensures Shr(v, k) < Pow2(m)
    decreases k
  {
    if k != 0 {
      ShrBelow(v / 2, k - 1, m);
    }
  }

  // ------------------------------------------------------------------ equivalent values

  /** `rd_hdr_sizeOfEquivalentValueRange` */
  function RangeSize(c: Config, v: nat): (n: nat)
    ensures n >= 1
  {
    var b := c.Bucket(v);
    var adjusted := if c.Sub(v, b) >= c.SubCount() then b + 1 else b;
    Pow2(c.unit + adjusted)
  }

  /** `rd_hdr_lowestEquivalentValue` */
  function Lowest(c: Config, v: nat): nat {
    c.ValueFrom(c.Bucket(v), c.Sub(v, c.Bucket(v)))
  }

  /** `rd_hdr_highestEquivalentValue`, through the next non-equivalent value. */
  function Highest(c: Config, v: nat): nat {
    Lowest(c, v) + RangeSize(c, v) - 1
  }

  /** `rd_hdr_countsIndexFor` */
  function Index(c: Config, v: nat): nat {
    PairOf(c, v);
    IndexShape(c, c.Bucket(v), c.Sub(v, c.Bucket(v)));
    c.CountsIndex(c.Bucket(v), c.Sub(v, c.Bucket(v)))
  }

  /** The adjustment is never taken, and every value lies in its own range. */
  lemma RangeOf(c: Config, v: nat)
    ensures RangeSize(c, v) == Pow2(c.unit + c.Bucket(v))
    ensures Lowest(c, v) <= v <= Highest(c, v)
  {
    hide Pow2, Shr, BitLen, Or;
    PairOf(c, v);
    var b := c.Bucket(v);
    ShrDiv(v, b + c.unit);
  }

  /** Past bucket 0 the range is at most one part in `HalfCount` of the value. */
  lemma RelativeError(c: Config, v: nat)
    ensures RangeSize(c, v) == Pow2(c.unit) || RangeSize(c, v) * c.HalfCount() <= v
  {
    hide Pow2, Shr, BitLen, Or;
    PairOf(c, v);
    RangeOf(c, v);
    var b := c.Bucket(v);
    if b > 0 {
      var p := Pow2(b + c.unit);
      ShrDiv(v, b + c.unit);
      MulMonotone(p, c.HalfCount(), c.Sub(v, b));
    }
  }

  lemma MulMonotone(p: nat, x: nat, y: nat)
    requires x <= y
    ensures p * x <= p * y
  {}

  /** Valid bucket pairs and counter indexes correspond one to one. */
  lemma IndexShape(c: Config, b: int, s: int)
    requires ValidPair(c, b, s)
    ensures c.CountsIndex(b, s) == if b == 0 then s else b * c.HalfCount() + s
    ensures c.CountsIndex(b, s) >= 0
    ensures b == 0 ==> c.CountsIndex(b, s) < 2 * c.HalfCount()
    ensures b > 0 ==> (b + 1) * c.HalfCount() <= c.CountsIndex(b, s) < (b + 2) * c.HalfCount()
  {
    hide Pow2;
    Pow2Double(c.half);
    var h := Pow2(c.half);
    assert (b + 1) * h == b * h + h && (b + 2) * h == b * h + 2 * h;
  }

  lemma BlockBefore(h: nat, b: nat, s: nat, b': nat, s': nat)
    requires b < b' && s < 2 * h && s' >= h
    ensures b * h + s < b' * h + s'
  {
    MulStep(h, b', b);
  }

  lemma IndexLinear(c: Config, b: nat, s: nat)
    ensures c.CountsIndex(b, s) == b * c.HalfCount() + s
  {
    hide Pow2;
    var h := Pow2(c.half);
    assert (b + 1) * h == b * h + h;
  }

  lemma IndexInjective(c: Config, b: int, s: int, b': int, s': int)
    requires ValidPair(c, b, s) && ValidPair(c, b', s')
    ensures c.CountsIndex(b, s) == c.CountsIndex(b', s') <==> b == b' && s == s'
    ensures b < b' ==> c.CountsIndex(b, s) < c.CountsIndex(b', s')
  {
    hide Pow2, Config.CountsIndex;
    Pow2Double(c.half);
    IndexLinear(c, b, s);
    IndexLinear(c, b', s');
    if b < b' {
      BlockBefore(c.HalfCount(), b, s, b', s');
    } else if b' < b {
      BlockBefore(c.HalfCount(), b', s', b, s);
    }
  }

  /** Larger values have no smaller counter index. */
  lemma IndexMonotone(c: Config, v: nat, w: nat)
    requires v <= w
    ensures Index(c, v) <= Index(c, w)
  {
    hide Pow2, Shr, BitLen, Or;
    PairOf(c, v);
    PairOf(c, w);
    BucketOf(c, v);
    BucketOf(c, w);
    BitLenMonotone(v, w);
    var b, b' := c.Bucket(v), c.Bucket(w);
    IndexInjective(c, b, c.Sub(v, b), b', c.Sub(w, b'));
    if b == b' {
      ShrMonotone(v, w, b + c.unit);
    }
  }

  /** Two values share a counter exactly when their ranges coincide. */
  lemma SameCounter(c: Config, v: nat, w: nat)
    ensures Index(c, v) == Index(c, w) <==> Lowest(c, v) == Lowest(c, w) && Highest(c, v) == Highest(c, w)
  {
    hide Pow2, Shr, BitLen, Or;
    PairOf(c, v);
    PairOf(c, w);
    RangeOf(c, v);
    RangeOf(c, w);
    var b, b' := c.Bucket(v), c.Bucket(w);
    var s, s' := c.Sub(v, b), c.Sub(w, b');
    IndexInjective(c, b, s, b', s');
    if Lowest(c, v) == Lowest(c, w) && Highest(c, v) == Highest(c, w) {
      Pow2Injective(c.unit + b, c.unit + b');
      MulCancel(s, s', Pow2(b + c.unit));
    }
  }

  lemma {:induction false} Pow2Injective(m: nat, n: nat)
    requires Pow2(m) == Pow2(n)
    ensures m == n
    decreases m + n
  {
    if m != 0 && n != 0 {
      Pow2Injective(m - 1, n - 1);
    }
  }

  lemma MulCancel(s: nat, t: nat, p: nat)
    requires p >= 1 && s * p == t * p
    ensures s == t
  {
    MulStep(p, s, t);
    MulStep(p, t, s);
  }

  lemma AddedBounds(s: nat, r: nat, p: nat, q: nat, h: nat)
    requires r < p && s < q
    ensures p * s + r < p * q && (s >= h ==> p * s + r >= p * h)
  {
    MulStep(p, q, s);
    if s >= h {
      MulMonotone(p, h, s);
    }
  }

  /** The values of a pair's range, between powers of two. */
  lemma PairBounds(c: Config, b: nat, s: nat, r: nat)
    requires s < c.SubCount() && r < Pow2(b + c.unit)
    ensures var v, k := c.ValueFrom(b, s) + r, b + c.unit;
      v == Pow2(k) * s + r && v < Pow2(k + c.half + 1) && (s >= c.HalfCount() ==> v >= Pow2(k + c.half))
  {
    hide Pow2;
    var k := b + c.unit;
    Pow2Add(k, c.half + 1);
    Pow2Add(k, c.half);
    Swapped(s, Pow2(k));
    AddedBounds(s, r, Pow2(k), c.SubCount(), c.HalfCount());
  }

  lemma Swapped(s: nat, p: nat)
    ensures s * p == p * s
  {}

  /** Every value of a pair's range is mapped to that pair. */
  lemma PairWithRest(c: Config, b: int, s: int, r: nat)
    requires ValidPair(c, b, s) && r < Pow2(b + c.unit)
    ensures var v := c.ValueFrom(b, s) + r; c.Bucket(v) == b && c.Sub(v, b) == s
  {
    hide Pow2, Shr, BitLen, Or, Config.ValueFrom, Config.Bucket;
    var k := b + c.unit;
    var v := c.ValueFrom(b, s) + r;
    PairBounds(c, b, s, r);
    BitLenBelow(v, k + c.half + 1);
    BitLenBelow(v, k + c.half);
    BucketOf(c, v);
    ShrScaled(s, r, k);
  }

  /** The value a counter stands for is mapped back to that counter, and starts its range. */
  lemma ValueOfPair(c: Config, b: int, s: int)
    requires ValidPair(c, b, s)
    ensures var v := c.ValueFrom(b, s);
      c.Bucket(v) == b && c.Sub(v, b) == s && Index(c, v) == c.CountsIndex(b, s) && Lowest(c, v) == v
  {
    hide Pow2, Shr, BitLen, Or;
    PairWithRest(c, b, s, 0);
  }

  /** The values of one counter are exactly those of its range. */
  lemma RangeIsCounter(c: Config, v: nat, w: nat)
    ensures Index(c, w) == Index(c, v) <==> Lowest(c, v) <= w <= Highest(c, v)
  {
    hide Pow2, Shr, BitLen, Or;
    PairOf(c, v);
    RangeOf(c, v);
    RangeOf(c, w);
    var b := c.Bucket(v);
    if Lowest(c, v) <= w <= Highest(c, v) {
      PairWithRest(c, b, c.Sub(v, b), w - Lowest(c, v));
    }
    SameCounter(c, v, w);
  }

  /** Ranges are ordered as their counters are, without overlap. */
  lemma RangesOrdered(c: Config, v: nat, w: nat)
    requires Index(c, v) < Index(c, w)
    ensures Highest(c, v) < Lowest(c, w)
  {
    hide Index, Lowest, Highest;
    RangeOf(c, v);
    RangeOf(c, w);
    RangeIsCounter(c, v, Highest(c, v));
    RangeIsCounter(c, w, Lowest(c, w));
    if Lowest(c, w) <= Highest(c, v) {
      IndexMonotone(c, Lowest(c, w), Highest(c, v));
    }
  }

  /** Both ends of a range have that same range. */
  lemma EndsIdempotent(c: Config, v: nat)
    ensures Highest(c, Highest(c, v)) == Highest(c, v) && Lowest(c, Highest(c, v)) == Lowest(c, v)
    ensures Highest(c, Lowest(c, v)) == Highest(c, v) && Lowest(c, Lowest(c, v)) == Lowest(c, v)
  {
    hide Index, Lowest, Highest;
    RangeOf(c, v);
    RangeIsCounter(c, v, Highest(c, v));
    RangeIsCounter(c, v, Lowest(c, v));
    SameCounter(c, v, Highest(c, v));
    SameCounter(c, v, Lowest(c, v));
  }

  lemma EndsMonotone(c: Config, v: nat, w: nat)
    requires v <= w
    ensures Lowest(c, v) <= Lowest(c, w) && Highest(c, v) <= Highest(c, w)
  {
    hide Index, Lowest, Highest;
    IndexMonotone(c, v, w);
    RangeOf(c, v);
    RangeOf(c, w);
    SameCounter(c, v, w);
    if Index(c, v) < Index(c, w) {
      RangesOrdered(c, v, w);
    }
  }

  /** The trackable values: an index is in range exactly below this power of two. */
  function Untrackable(c: Config): nat
    requires c.buckets >= 1
  {
    Pow2(c.unit + c.half + c.buckets)
  }

  lemma BlockOrder(h: nat, b: nat, n: nat)
    requires n >= 1 && h >= 1
    ensures b < n ==> (b + 2) * h <= (n + 1) * h && 2 * h <= (n + 1) * h
    ensures b >= n ==> (n + 1) * h <= (b + 1) * h
  {
    if b < n {
      MulMonotone(h, b + 2, n + 1);
      MulMonotone(h, 2, n + 1);
    } else {
      MulMonotone(h, n + 1, b + 1);
    }
  }

  lemma InRange(c: Config, v: nat)
    requires c.buckets >= 1
    ensures Index(c, v) < c.CountsLen() <==> v < Untrackable(c)
  {
    hide Pow2, Shr, BitLen, Or;
    PairOf(c, v);
    BucketOf(c, v);
    var b := c.Bucket(v);
    IndexShape(c, b, c.Sub(v, b));
    BitLenBelow(v, c.unit + c.half + c.buckets);
    BlockOrder(c.HalfCount(), b, c.buckets);
  }

  /** Where the iterator goes from a pair; sub-bucket -1 of bucket 0 is its start. */
  function NextPair(c: Config, b: nat, s: int): (nat, int) {
    if s + 1 >= c.SubCount() then (b + 1, c.HalfCount()) else (b, s + 1)
  }

  ghost predicate IterPair(c: Config, b: int, s: int) {
    ValidPair(c, b, s) || (b == 0 && s == -1)
  }

  /** Stepping visits the counters in index order and leaves the last bucket only at the end. */
  lemma NextPairIndex(c: Config, b: nat, s: int)
    requires IterPair(c, b, s)
    ensures var (b', s') := NextPair(c, b, s);
      ValidPair(c, b', s')
      && c.CountsIndex(b', s') == (if s == -1 then 0 else c.CountsIndex(b, s) + 1)
      && (c.buckets >= 1 ==> (b' < c.buckets <==> c.CountsIndex(b', s') < c.CountsLen()))
  {
    hide Pow2;
    Pow2Double(c.half);
    var h := Pow2(c.half);
    var (b', s') := NextPair(c, b, s);
    assert (b' + 1) * h == b' * h + h && (b + 1) * h == b * h + h && b' == b + 1 ==> b' * h == b * h + h;
    IndexShape(c, b', s');
    if c.buckets >= 1 {
      BlockOrder(h, b', c.buckets);
    }
  }

  /** A power of two past the first bucket: one of the values at which a bucket ends. */
  ghost predicate OnBoundary(c: Config, v: int) {
    exists k: nat :: k >= c.unit + c.half + 1 && v == Pow2(k)
  }

  lemma {:induction false} Pow2Strict(m: nat, n: nat)
    requires m < n
    ensures 2 * Pow2(m) <= Pow2(n)
  {
    Pow2Double(m);
    Pow2Monotone(m + 1, n);
  }

  /**
    With the least number of buckets that reaches `v`, the value `v` ends the last bucket
    exactly when it is a boundary.
   */
  lemma BoundaryExact(c: Config, v: int)
    requires c.buckets >= 1 && v <= Untrackable(c) && (c.buckets > 1 ==> Untrackable(c) < 2 * v)
    ensures v == Untrackable(c) <==> OnBoundary(c, v)
  {
    hide Pow2;
    var m := c.unit + c.half + c.buckets;
    if OnBoundary(c, v) {
      var k: nat :| k >= c.unit + c.half + 1 && v == Pow2(k);
      if k < m {
        Pow2Strict(k, m);
      } else if m < k {
        Pow2Strict(m, k);
      }
    }
  }

  // ------------------------------------------------------------------ set-up

  /** 10 to the given power. */
  function Pow10(n: nat): (r: nat)
    ensures r >= 1
  {
    if n == 0 then 1 else 10 * Pow10(n - 1)
  }

  /** The integer form of ceil(log2(x)). */
  function CeilLog2(x: nat): nat
    requires x >= 1
  {
    BitLen(x - 1)
  }

  /** The integer form of floor(log2(x)), 0 for non-positive values. */
  function FloorLog2(x: int): nat {
    if x < 1 then 0 else BitLen(x) - 1
  }

  /** The shape `rd_hdr_histogram_new` derives from its arguments, before counting buckets. */
  function Shape(minValue: int, sigFigs: nat): Config {
    var magnitude := CeilLog2(2 * Pow10(sigFigs));
    Config(FloorLog2(minValue), (if magnitude > 1 then magnitude else 1) - 1, 1)
  }

  /** Half a sub-bucket array resolves the requested number of significant figures. */
  lemma EnoughFigures(minValue: int, sigFigs: nat)
    requires 1 <= sigFigs <= 5
    ensures Shape(minValue, sigFigs).HalfCount() >= Pow10(sigFigs)
  {
    hide Pow2;
    var x := 2 * Pow10(sigFigs);
    BitLenBounds(x - 1);
    var m := CeilLog2(x);
    BitLenBelow(x - 1, 1);
    assert Pow10(sigFigs) == 10 * Pow10(sigFigs - 1);
    Pow2Small();
    Pow2Double(m - 1);
  }

  lemma Pow2Small()
    ensures Pow2(0) == 1 && Pow2(1) == 2
  {}

  /** The unit is the largest power of two not above `minValue`, and one below 1. */
  ghost predicate UnitFor(minValue: int, unit: nat) {
    if minValue < 1 then unit == 0 else Pow2(unit) <= minValue < 2 * Pow2(unit)
  }

  lemma UnitExact(minValue: int, sigFigs: nat)
    ensures UnitFor(minValue, Shape(minValue, sigFigs).unit)
  {
    if minValue >= 1 {
      BitLenBounds(minValue);
      Pow2Double(BitLen(minValue) - 1);
    }
  }

  /** There are as few sub-buckets as a power of two can count that resolve the figures. */
  ghost predicate SubBucketsFor(sigFigs: nat, c: Config) {
    2 * Pow10(sigFigs) <= c.SubCount() < 4 * Pow10(sigFigs) && c.SubCount() == 2 * c.HalfCount()
  }

  lemma SubBucketsExact(minValue: int, sigFigs: nat)
    requires 1 <= sigFigs <= 5
    ensures SubBucketsFor(sigFigs, Shape(minValue, sigFigs))
  {
    hide Pow2, Pow10;
    var x := 2 * Pow10(sigFigs);
    var m := CeilLog2(x);
    EnoughFigures(minValue, sigFigs);
    BitLenBounds(x - 1);
    Pow2Double(m - 1);
    Pow2Double(Shape(minValue, sigFigs).half);
    BitLenBelow(x - 1, 0);
    Pow2Small();
    BitLenBelow(x - 1, 1);
  }

  lemma Pow10Values()
    ensures Pow10(1) == 10 && Pow10(2) == 100 && Pow10(3) == 1_000 && Pow10(4) == 10_000 && Pow10(5) == 100_000
  {
    assert Pow10(5) == 10 * Pow10(4) && Pow10(4) == 10 * Pow10(3) && Pow10(3) == 10 * Pow10(2) && Pow10(2) == 10 * Pow10(1);
    assert Pow10(1) == 10 * Pow10(0) && Pow10(0) == 1;
  }

  /**
    The documented precision: a value's range is at most as wide as the lowest value to
    tell apart, or narrower than the value's part in 10^sigFigs (plus one).
   */
  lemma Precision(minValue: int, sigFigs: nat, buckets: nat, v: nat)
    requires 1 <= sigFigs <= 5
    ensures var c := Shape(minValue, sigFigs).(buckets := buckets);
      RangeSize(c, v) <= (if minValue > 1 then minValue else 1) || RangeSize(c, v) < v / Pow10(sigFigs) + 1
  {
    hide Pow2, BitLen, Pow10;
    var c := Shape(minValue, sigFigs).(buckets := buckets);
    UnitExact(minValue, sigFigs);
    Pow2Small();
    EnoughFigures(minValue, sigFigs);
    RelativeError(c, v);
    if RangeSize(c, v) * c.HalfCount() <= v {
      MulMonotone(RangeSize(c, v), Pow10(sigFigs), c.HalfCount());
      QuotientAtLeast(RangeSize(c, v), Pow10(sigFigs), v);
    }
  }

  /** Within the first bucket a range is one unit, so a unit of one keeps values apart. */
  lemma SmallExact(c: Config, v: nat)
    requires v < c.SubCount() * Pow2(c.unit)
    ensures RangeSize(c, v) == Pow2(c.unit)
    ensures c.unit == 0 ==> Lowest(c, v) == v == Highest(c, v)
  {
    hide Pow2, Shr, BitLen, Or;
    Pow2Add(c.half + 1, c.unit);
    BitLenBelow(v, c.unit + c.half + 1);
    BucketOf(c, v);
    RangeOf(c, v);
    Pow2Small();
  }

  lemma QuotientAtLeast(n: nat, d: nat, v: nat)
    requires d >= 1 && n * d <= v
    ensures n <= v / d
  {
    MulStep(d, n, v / d);
  }
}
