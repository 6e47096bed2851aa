/**
  Topic-partition lists (`rd_kafka_topic_partition_list_t`), as the assignment code uses
  them.  A topic and partition pair is one integer key in comparator order.
 */
module TopParList {

  type Part = int

  /** `rd_kafka_topic_partition_t` with the fields the assignment reads. */
  datatype Tp = Tp(part: Part, offset: int, err: int)

  function Parts(s: seq<Tp>): set<Part> {
    set t | t in s :: t.part
  }

  ghost predicate Distinct(s: seq<Tp>) {
    forall i, j :: 0 <= i < j < |s| ==> s[i].part != s[j].part
  }

  /** `rd_kafka_topic_partition_list_find` as a test. */
  predicate Has(s: seq<Tp>, p: Part)
    ensures Has(s, p) <==> p in Parts(s)
  {
    p in Parts(s)
  }

  /** `rd_kafka_topic_partition_list_del`: drop the first match, if any. */
  function Del(s: seq<Tp>, p: Part): seq<Tp> {
    if s == [] then []
    else if s[0].part == p then s[1..]
    else [s[0]] + Del(s[1..], p)
  }

  lemma PartsCons(t: Tp, s: seq<Tp>)
    ensures Parts([t] + s) == {t.part} + Parts(s)
  {}

  lemma PartsConcat(a: seq<Tp>, b: seq<Tp>)
    ensures Parts(a + b) == Parts(a) + Parts(b)
  {}

  lemma {:induction false} DelAbsent(s: seq<Tp>, p: Part)
    requires p !in Parts(s)
    ensures Del(s, p) == s
  {
    if s != [] {
      assert s[0] in s;
      assert forall t :: t in s[1..] ==> t in s;
      DelAbsent(s[1..], p);
    }
  }

  /** Deleting from a list without duplicates removes exactly that key. */
  lemma {:induction false} DelParts(s: seq<Tp>, p: Part)
    requires Distinct(s)
    ensures Distinct(Del(s, p)) && Parts(Del(s, p)) == Parts(s) - {p}
    ensures p in Parts(s) ==> |Del(s, p)| == |s| - 1
    ensures forall t :: t in Del(s, p) <==> t in s && t.part != p
  {
    if s != [] {
      var h, r := s[0], s[1..];
      assert s == [h] + r;
      PartsCons(h, r);
      DistinctCons(h, r);
      if h.part != p {
        DelParts(r, p);
        PartsCons(h, Del(r, p));
        DistinctCons(h, Del(r, p));
      }
    }
  }

  lemma DistinctCons(t: Tp, s: seq<Tp>)
    ensures Distinct([t] + s) <==> t.part !in Parts(s) && Distinct(s)
  {
    var u := [t] + s;
    assert forall i :: 0 <= i < |s| ==> u[i + 1] == s[i];
    if Distinct(u) {
      assert u[0] == t;
    }
  }

  lemma DistinctConcat(a: seq<Tp>, b: seq<Tp>)
    requires Distinct(a) && Distinct(b) && Parts(a) !! Parts(b)
    ensures Distinct(a + b)
  {
    forall i, j | 0 <= i < j < |a + b| ensures (a + b)[i].part != (a + b)[j].part {
      if i < |a| <= j {
        assert a[i].part in Parts(a) && b[j - |a|].part in Parts(b);
      }
    }
  }

  // ------------------------------------------------------------------ sorting

  ghost predicate Sorted(s: seq<Tp>) {
    forall i, j :: 0 <= i < j < |s| ==> s[i].part <= s[j].part
  }

  function InsertByPart(t: Tp, s: seq<Tp>): seq<Tp> {
    if s == [] || t.part <= s[0].part then [t] + s else [s[0]] + InsertByPart(t, s[1..])
  }

  /** `rd_kafka_topic_partition_list_sort` with the default comparator. */
  function Sort(s: seq<Tp>): seq<Tp> {
    if s == [] then [] else InsertByPart(s[0], Sort(s[1..]))
  }

  lemma {:induction false} InsertPermutes(t: Tp, s: seq<Tp>)
    ensures multiset(InsertByPart(t, s)) == multiset{t} + multiset(s)
  {
    if s != [] && t.part > s[0].part {
      assert s == [s[0]] + s[1..];
      InsertPermutes(t, s[1..]);
    }
  }

  lemma SortedCons(t: Tp, s: seq<Tp>)
    requires Sorted(s) && forall u :: u in s ==> t.part <= u.part
    ensures Sorted([t] + s)
  {
    var r := [t] + s;
    assert forall i :: 0 < i < |r| ==> r[i] == s[i - 1] && r[i] in s;
  }

  lemma {:induction false} InsertSorted(t: Tp, s: seq<Tp>)
    requires Sorted(s)
    ensures Sorted(InsertByPart(t, s))
  {
    if s == [] || t.part <= s[0].part {
      assert forall u :: u in s ==> s[0].part <= u.part;
      SortedCons(t, s);
    } else {
      var h, r := s[0], s[1..];
      assert s == [h] + r;
      InsertSorted(t, r);
      InsertPermutes(t, r);
      var u := InsertByPart(t, r);
      forall x | x in u ensures h.part <= x.part {
        assert x in multiset(u);
      }
      SortedCons(h, u);
    }
  }

  /** Sorting permutes the list and orders it. */
  lemma {:induction false} SortCorrect(s: seq<Tp>)
    ensures Sorted(Sort(s)) && multiset(Sort(s)) == multiset(s)
  {
    if s != [] {
      SortCorrect(s[1..]);
      InsertSorted(s[0], Sort(s[1..]));
      InsertPermutes(s[0], Sort(s[1..]));
      assert s == [s[0]] + s[1..];
    }
  }

  lemma {:induction false} DistinctMultiset(a: seq<Tp>, b: seq<Tp>)
    requires multiset(a) == multiset(b) && Distinct(a)
    ensures Parts(a) == Parts(b) && |a| == |b| && Distinct(b)
  {
    assert |multiset(a)| == |a| && |multiset(b)| == |b|;
    assert forall t :: t in a <==> t in multiset(a);
    assert forall t :: t in b <==> t in multiset(b);
    forall i, j | 0 <= i < j < |b| ensures b[i].part != b[j].part {
      if b[i].part == b[j].part {
        SamePart(a, b[i], b[j]);
        Twice(b, i, j);
        AtMostOnce(a, b[i]);
      }
    }
  }

  lemma SamePart(a: seq<Tp>, x: Tp, y: Tp)
    requires Distinct(a) && x in a && y in a && x.part == y.part
    ensures x == y
  {}

  lemma Twice(b: seq<Tp>, i: nat, j: nat)
    requires i < j < |b| && b[i] == b[j]
    ensures multiset(b)[b[i]] >= 2
  {
    assert b == b[..j] + [b[j]] + b[j + 1..];
    assert b[i] in b[..j];
  }

  lemma {:induction false} AtMostOnce(a: seq<Tp>, x: Tp)
    requires Distinct(a)
    ensures multiset(a)[x] <= 1
  {
    if a != [] {
      assert a == [a[0]] + a[1..];
      DistinctCons(a[0], a[1..]);
      AtMostOnce(a[1..], x);
      if a[0] == x {
        assert x !in a[1..];
      }
    }
  }

  /** In a sorted list, comparing neighbours finds every duplicate. */
  lemma NeighboursSuffice(s: seq<Tp>)
    requires Sorted(s) && forall i :: 0 < i < |s| ==> s[i].part != s[i - 1].part
    ensures Distinct(s)
  {
    forall i, j | 0 <= i < j < |s| ensures s[i].part != s[j].part {
      assert s[i].part <= s[j - 1].part <= s[j].part;
    }
  }
}
