/**
  Ranks of recorded values: how the counters of a histogram relate to the sorted list of
  the values recorded in it.
 */
module HdrRank {
  import opened Bits
  import opened HdrSpec

  /** How many of the values fall on counter `i`. */
  function CountAt(c: Config, r: seq<nat>, i: nat): nat {
    if r == [] then 0 else CountAt(c, r[..|r| - 1], i) + (if Index(c, r[|r| - 1]) == i then 1 else 0)
  }

  /** How many of the values fall on counters before `i`. */
  function CountBelow(c: Config, r: seq<nat>, i: nat): nat {
    if r == [] then 0 else CountBelow(c, r[..|r| - 1], i) + (if Index(c, r[|r| - 1]) < i then 1 else 0)
  }

  lemma {:induction false} BelowZero(c: Config, r: seq<nat>)
    ensures CountBelow(c, r, 0) == 0
  {
    hide Index;
    if r != [] {
      BelowZero(c, r[..|r| - 1]);
    }
  }

  lemma {:induction false} BelowNext(c: Config, r: seq<nat>, i: nat)
    ensures CountBelow(c, r, i + 1) == CountBelow(c, r, i) + CountAt(c, r, i)
  {
    hide Index;
    if r != [] {
      BelowNext(c, r[..|r| - 1], i);
    }
  }

  lemma {:induction false} BelowAll(c: Config, r: seq<nat>, n: nat)
    requires forall k :: 0 <= k < |r| ==> Index(c, r[k]) < n
    ensures CountBelow(c, r, n) == |r|
  {
    hide Index;
    if r != [] {
      BelowAll(c, r[..|r| - 1], n);
    }
  }

  lemma {:induction false} BelowBound(c: Config, r: seq<nat>, n: nat)
    ensures CountBelow(c, r, n) <= |r|
  {
    hide Index;
    if r != [] {
      BelowBound(c, r[..|r| - 1], n);
    }
  }

  lemma CountSnoc(c: Config, r: seq<nat>, v: nat, i: nat)
    ensures CountAt(c, r + [v], i) == CountAt(c, r, i) + (if Index(c, v) == i then 1 else 0)
    ensures CountBelow(c, r + [v], i) == CountBelow(c, r, i) + (if Index(c, v) < i then 1 else 0)
  {
    hide Index;
    assert (r + [v])[..|r|] == r;
  }

  // ------------------------------------------------------------------ sorted samples

  ghost predicate Ascending(s: seq<nat>) {
    forall i, j :: 0 <= i < j < |s| ==> s[i] <= s[j]
  }

  function InsertValue(v: nat, s: seq<nat>): seq<nat> {
    if s == [] || s[|s| - 1] <= v then s + [v] else InsertValue(v, s[..|s| - 1]) + [s[|s| - 1]]
  }

  /** The recorded values in ascending order. */
  function SortValues(r: seq<nat>): seq<nat> {
    if r == [] then [] else InsertValue(r[|r| - 1], SortValues(r[..|r| - 1]))
  }

  lemma {:induction false} InsertPermutes(v: nat, s: seq<nat>)
    ensures |InsertValue(v, s)| == |s| + 1 && multiset(InsertValue(v, s)) == multiset(s) + multiset{v}
  {
    if s != [] && s[|s| - 1] > v {
      var t, x := s[..|s| - 1], s[|s| - 1];
      assert s == t + [x];
      InsertPermutes(v, t);
    }
  }

  lemma AscendingSnoc(s: seq<nat>, x: nat)
    requires Ascending(s) && forall k :: 0 <= k < |s| ==> s[k] <= x
    ensures Ascending(s + [x])
  {}

  lemma {:induction false} InsertAscending(v: nat, s: seq<nat>, bound: nat)
    requires Ascending(s) && v <= bound && forall k :: 0 <= k < |s| ==> s[k] <= bound
    ensures Ascending(InsertValue(v, s))
    ensures forall k :: 0 <= k < |InsertValue(v, s)| ==> InsertValue(v, s)[k] <= bound
  {
    if s == [] || s[|s| - 1] <= v {
      AscendingSnoc(s, v);
    } else {
      var t, x := s[..|s| - 1], s[|s| - 1];
      InsertAscending(v, t, x);
      AscendingSnoc(InsertValue(v, t), x);
    }
  }

  lemma {:induction false} UpperBound(s: seq<nat>) returns (b: nat)
    ensures forall k :: 0 <= k < |s| ==> s[k] <= b
  {
    b := 0;
    if s != [] {
      var x := UpperBound(s[1..]);
      b := x + s[0];
      forall k | 0 <= k < |s| ensures s[k] <= b {
        if k > 0 {
          assert s[k] == s[1..][k - 1];
        }
      }
    }
  }

  lemma {:induction false} InsertCounts(c: Config, v: nat, s: seq<nat>, i: nat)
    ensures CountBelow(c, InsertValue(v, s), i) == CountBelow(c, s, i) + (if Index(c, v) < i then 1 else 0)
  {
    hide Index, CountBelow;
    CountSnoc(c, s, v, i);
    if s != [] && s[|s| - 1] > v {
      var t, x := s[..|s| - 1], s[|s| - 1];
      assert s == t + [x];
      InsertCounts(c, v, t, i);
      CountSnoc(c, t, x, i);
      CountSnoc(c, InsertValue(v, t), x, i);
    }
  }

  /** Sorting permutes the samples and does not change how many fall below a counter. */
  lemma {:induction false} SortCorrect(c: Config, r: seq<nat>, i: nat)
    ensures Ascending(SortValues(r)) && |SortValues(r)| == |r| && multiset(SortValues(r)) == multiset(r)
    ensures CountBelow(c, SortValues(r), i) == CountBelow(c, r, i)
  {
    hide Index, CountBelow;
    if r != [] {
      var t, x := r[..|r| - 1], r[|r| - 1];
      assert r == t + [x];
      SortCorrect(c, t, i);
      InsertPermutes(x, SortValues(t));
      var bound := UpperBound(SortValues(t));
      InsertAscending(x, SortValues(t), bound + x);
      InsertCounts(c, x, SortValues(t), i);
      CountSnoc(c, t, x, i);
    }
  }

  /** In ascending order, the values below counter `i` come first. */
  lemma {:induction false} RankSplit(c: Config, s: seq<nat>, i: nat, k: nat)
    requires Ascending(s) && k < |s|
    ensures Index(c, s[k]) < i <==> k < CountBelow(c, s, i)
  {
    hide Index;
    var t, x := s[..|s| - 1], s[|s| - 1];
    BelowBound(c, t, i);
    if k < |t| {
      assert t[k] == s[k];
      RankSplit(c, t, i, k);
      IndexMonotone(c, s[k], x);
    } else if Index(c, x) < i {
      forall j | 0 <= j < |t| ensures Index(c, t[j]) < i {
        assert t[j] == s[j];
        IndexMonotone(c, s[j], x);
      }
      BelowAll(c, t, i);
    }
  }

  /** The `k`-th smallest value (from 1) falls on the counter where the running count reaches `k`. */
  lemma RankCounter(c: Config, r: seq<nat>, k: nat, i: nat)
    requires 1 <= k <= |r| && CountBelow(c, r, i) < k <= CountBelow(c, r, i + 1)
    ensures |SortValues(r)| == |r| && Index(c, SortValues(r)[k - 1]) == i
  {
    hide Index, CountBelow, SortValues;
    SortCorrect(c, r, i);
    SortCorrect(c, r, i + 1);
    var s := SortValues(r);
    RankSplit(c, s, i, k - 1);
    RankSplit(c, s, i + 1, k - 1);
  }
}
