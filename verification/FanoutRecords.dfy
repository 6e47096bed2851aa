/**
  DeleteRecords over the fan-out (cbits/hs_rdkafka_admin.c): one request per partition
  leader, whose results update the requested partitions in place.
 */
module FanoutRecords {
  import opened TopParList
  import opened Fanout

  /** The content of a partial result: the partitions asked of the leader, and its answers. */
  datatype RecordsPartial = RecordsPartial(args: seq<Tp>, results: seq<Tp>)

  /** `rd_kafka_topic_partition_list_find`: the first match, or -1. */
  function FindFrom(s: seq<Tp>, p: Part, i: nat): (r: int)
    requires i <= |s|
    ensures r == -1 || i <= r < |s|
    decreases |s| - i
  {
    if i == |s| then -1 else if s[i].part == p then i else FindFrom(s, p, i + 1)
  }

  /** The error path: every requested partition of the leader gets the error. */
  function SetErrors(res: seq<Tp>, args: seq<Tp>, err: int): Merged<seq<Tp>>
    decreases |args|
  {
    if args == [] then Merged(res)
    else
      var i := FindFrom(res, args[0].part, 0);
      if i == -1 then Failed else SetErrors(res[i := res[i].(err := err)], args[1..], err)
  }

  /** The success path: each answer is copied over; one that was not requested is ignored. */
  function SetResults(res: seq<Tp>, answers: seq<Tp>): seq<Tp>
    decreases |answers|
  {
    if answers == [] then res
    else
      var i := FindFrom(res, answers[0].part, 0);
      if i == -1 then SetResults(res, answers[1..])
      else SetResults(res[i := res[i].(offset := answers[0].offset, err := answers[0].err)], answers[1..])
  }

  /** `rd_kafka_DeleteRecords_response_merge` */
  function Merge(res: seq<Tp>, p: Partial<RecordsPartial>): Merged<seq<Tp>> {
    if p.err != 0 then SetErrors(res, p.body.args, p.err) else Merged(SetResults(res, p.body.results))
  }

  // ------------------------------------------------------------------ what a merge does

  /** The partitions a partial result speaks about. */
  function Touched(p: Partial<RecordsPartial>): set<Part> {
    Parts(if p.err != 0 then p.body.args else p.body.results)
  }

  /** The last answer for a partition. */
  function LastAnswer(answers: seq<Tp>, p: Part): Tp
    requires p in Parts(answers)
  {
    var n := |answers| - 1;
    if answers[n].part == p then answers[n]
    else
      assert answers == answers[..n] + [answers[n]];
      LastAnswer(answers[..n], p)
  }

  /** A requested partition after a partial result that speaks about it. */
  function Settled(t: Tp, p: Partial<RecordsPartial>): Tp
    requires t.part in Touched(p)
  {
    if p.err != 0 then t.(err := p.err)
    else var a := LastAnswer(p.body.results, t.part); t.(offset := a.offset, err := a.err)
  }

  /** A requested partition after any partial result. */
  function After(t: Tp, p: Partial<RecordsPartial>): (r: Tp)
    ensures r.part == t.part
  {
    if t.part in Touched(p) then Settled(t, p) else t
  }

  lemma {:induction false} FindDistinct(s: seq<Tp>, i: nat, from: nat)
    requires Distinct(s) && from <= i < |s|
    ensures FindFrom(s, s[i].part, from) == i
    decreases i - from
  {
    if from < i {
      FindDistinct(s, i, from + 1);
    }
  }

  lemma {:induction false} FindAbsent(s: seq<Tp>, p: Part, from: nat)
    requires from <= |s|
    ensures FindFrom(s, p, from) == -1 <==> forall i :: from <= i < |s| ==> s[i].part != p
    ensures FindFrom(s, p, from) != -1 ==> s[FindFrom(s, p, from)].part == p
    decreases |s| - from
  {
    if from < |s| {
      FindAbsent(s, p, from + 1);
    }
  }

  /** Same partitions in the same places. */
  ghost predicate SameParts(a: seq<Tp>, b: seq<Tp>) {
    |a| == |b| && forall i :: 0 <= i < |a| ==> a[i].part == b[i].part
  }

  lemma PartsAt(s: seq<Tp>, p: Part)
    ensures p in Parts(s) <==> exists i :: 0 <= i < |s| && s[i].part == p
  {
    if p in Parts(s) {
      var t :| t in s && t.part == p;
    }
  }

  /** The error path in one step: every asked partition changes, no other does. */
  lemma {:induction false} ErrorsSet(res: seq<Tp>, args: seq<Tp>, err: int)
    requires Distinct(res)
    ensures SetErrors(res, args, err).Merged? <==> Parts(args) <= Parts(res)
    ensures SetErrors(res, args, err).Merged? ==>
      (var r := SetErrors(res, args, err).results;
       |r| == |res| && forall i :: 0 <= i < |res| ==> r[i] == if res[i].part in Parts(args) then res[i].(err := err) else res[i])
    decreases |args|
  {
    if args != [] {
      assert args == [args[0]] + args[1..];
      PartsCons(args[0], args[1..]);
      var i := FindFrom(res, args[0].part, 0);
      FindAbsent(res, args[0].part, 0);
      PartsAt(res, args[0].part);
      if i != -1 {
        var next := res[i := res[i].(err := err)];
        UpdateParts(res, next);
        ErrorsSet(next, args[1..], err);
      }
    }
  }

  lemma UpdateParts(a: seq<Tp>, b: seq<Tp>)
    requires SameParts(a, b)
    ensures Parts(a) == Parts(b) && (Distinct(a) <==> Distinct(b))
  {
    forall p ensures p in Parts(a) <==> p in Parts(b) {
      PartsAt(a, p);
      PartsAt(b, p);
    }
  }

  /** The success path in one step: the last answer for each partition counts. */
  lemma {:induction false} ResultsSet(res: seq<Tp>, answers: seq<Tp>)
    requires Distinct(res)
    ensures var r := SetResults(res, answers);
      |r| == |res| && forall i :: 0 <= i < |res| ==> r[i] == Answered(res[i], answers)
    decreases |answers|
  {
    hide LastAnswer;
    if answers != [] {
      var a, rest := answers[0], answers[1..];
      assert answers == [a] + rest;
      var i := FindFrom(res, a.part, 0);
      FindAbsent(res, a.part, 0);
      var next := if i == -1 then res else res[i := res[i].(offset := a.offset, err := a.err)];
      UpdateParts(res, next);
      ResultsSet(next, rest);
      forall j | 0 <= j < |res| ensures Answered(next[j], rest) == Answered(res[j], answers) {
        AnsweredCons(res[j], a, rest);
        FindDistinct(res, j, 0);
      }
    }
  }

  function Answered(t: Tp, answers: seq<Tp>): Tp {
    if t.part in Parts(answers) then
      var a := LastAnswer(answers, t.part); t.(offset := a.offset, err := a.err)
    else t
  }

  lemma AnsweredCons(t: Tp, a: Tp, rest: seq<Tp>)
    ensures Answered(t, [a] + rest)
         == Answered(if t.part == a.part then t.(offset := a.offset, err := a.err) else t, rest)
  {
    hide LastAnswer;
    PartsCons(a, rest);
    if t.part in Parts(rest) {
      LastCons(t.part, a, rest);
    } else if t.part == a.part {
      LastFirst(a, rest);
    }
  }

  lemma {:induction false} LastCons(p: Part, a: Tp, rest: seq<Tp>)
    requires p in Parts(rest)
    ensures p in Parts([a] + rest) && LastAnswer([a] + rest, p) == LastAnswer(rest, p)
    decreases |rest|
  {
    PartsCons(a, rest);
    var n := |rest| - 1;
    if rest[n].part != p {
      assert rest == rest[..n] + [rest[n]];
      assert ([a] + rest)[..n + 1] == [a] + rest[..n];
      LastCons(p, a, rest[..n]);
    }
  }

  lemma {:induction false} LastFirst(a: Tp, rest: seq<Tp>)
    requires a.part !in Parts(rest)
    ensures a.part in Parts([a] + rest) && LastAnswer([a] + rest, a.part) == a
    decreases |rest|
  {
    PartsCons(a, rest);
    if rest != [] {
      var n := |rest| - 1;
      assert rest == rest[..n] + [rest[n]];
      assert rest[n] in rest;
      assert ([a] + rest)[..n + 1] == [a] + rest[..n];
      LastFirst(a, rest[..n]);
    }
  }

  /**
    A merge changes exactly the requested partitions the partial result speaks about. It
    fails exactly when an error comes for a partition that was never requested.
   */
  lemma MergeMeaning(res: seq<Tp>, p: Partial<RecordsPartial>)
    requires Distinct(res)
    ensures Merge(res, p).Failed? <==> p.err != 0 && !(Parts(p.body.args) <= Parts(res))
    ensures Merge(res, p).Merged? ==>
      (var r := Merge(res, p).results; |r| == |res| && forall i :: 0 <= i < |res| ==> r[i] == After(res[i], p))
  {
    hide LastAnswer;
    if p.err != 0 {
      ErrorsSet(res, p.body.args, p.err);
    } else {
      ResultsSet(res, p.body.results);
    }
  }

  // ------------------------------------------------------------------ any arrival order

  /** Errors come only for requested partitions. */
  ghost predicate AboutRequested(res: seq<Tp>, arrivals: seq<Arrival<RecordsPartial>>) {
    forall i :: 0 <= i < |arrivals| && Effective(arrivals[i]).err != 0 ==> Touched(Effective(arrivals[i])) <= Parts(res)
  }

  /** One requested partition through the arrivals with the given numbers, in that order. */
  function Through(t: Tp, arrivals: seq<Arrival<RecordsPartial>>, seen: seq<nat>): (r: Tp)
    requires forall k :: 0 <= k < |seen| ==> seen[k] < |arrivals|
    ensures r.part == t.part
  {
    if seen == [] then t
    else After(Through(t, arrivals, seen[..|seen| - 1]), Effective(arrivals[seen[|seen| - 1]]))
  }

  /** The merges of any order treat each requested partition on its own. */
  lemma {:induction false} Settling(res: seq<Tp>, arrivals: seq<Arrival<RecordsPartial>>, order: seq<nat>, k: nat)
    requires Distinct(res) && AboutRequested(res, arrivals) && Permutation(order, |arrivals|) && k <= |order|
    ensures var m := Fold(res, Ordered(order[..k], arrivals), Merge);
      m.Merged? && |m.results| == |res| && forall i :: 0 <= i < |res| ==> m.results[i] == Through(res[i], arrivals, order[..k])
    decreases k
  {
    hide Merge, Touched, After, Effective;
    if k != 0 {
      Settling(res, arrivals, order, k - 1);
      OrderedPrefix(order, arrivals, k - 1);
      var a, j := arrivals[order[k - 1]], order[k - 1];
      var all, prior := Ordered(order[..k], arrivals), Ordered(order[..k - 1], arrivals);
      assert all[..|all| - 1] == prior;
      var m := Fold(res, prior, Merge).results;
      assert order[..k][..k - 1] == order[..k - 1];
      UpdateParts(res, m);
      ErrorsRequested(res, arrivals, j);
      MergeMeaning(m, Effective(a));
    }
  }

  lemma ErrorsRequested(res: seq<Tp>, arrivals: seq<Arrival<RecordsPartial>>, j: nat)
    requires AboutRequested(res, arrivals) && j < |arrivals|
    ensures var p := Effective(arrivals[j]); p.err != 0 ==> Parts(p.body.args) <= Parts(res)
  {}

  /** The requested partitions once everything has arrived in the given order. */
  function Verdicts(res: seq<Tp>, arrivals: seq<Arrival<RecordsPartial>>, order: seq<nat>): (s: seq<Tp>)
    requires forall k :: 0 <= k < |order| ==> order[k] < |arrivals|
    ensures |s| == |res|
  {
    seq(|res|, i requires 0 <= i < |res| => Through(res[i], arrivals, order))
  }

  function Copy(res: seq<Tp>): seq<Tp> {
    res
  }

  function Outcomes(res: seq<Tp>, arrivals: seq<Arrival<RecordsPartial>>, order: seq<nat>): Outcome<seq<Tp>, seq<Tp>>
    requires forall k :: 0 <= k < |order| ==> order[k] < |arrivals|
  {
    Run(State(|arrivals|, res, []), Ordered(order, arrivals), Merge, Copy)
  }

  /** In any order no assertion fails and one reply is sent, on the last result. */
  lemma DeleteRecordsReply(res: seq<Tp>, arrivals: seq<Arrival<RecordsPartial>>, order: seq<nat>, k: nat)
    requires Distinct(res) && AboutRequested(res, arrivals) && arrivals != []
    requires Permutation(order, |arrivals|) && k <= |arrivals|
    ensures var v := Verdicts(res, arrivals, order[..k]);
      Outcomes(res, arrivals, order[..k]) == Ok(State(|arrivals| - k, v, if k == |arrivals| then [v] else []))
  {
    hide Merge, Touched, After, Effective;
    Settling(res, arrivals, order, k);
    OneReply(State(|arrivals|, res, []), Ordered(order[..k], arrivals), Merge, Copy);
    assert Fold(res, Ordered(order[..k], arrivals), Merge).results == Verdicts(res, arrivals, order[..k]);
  }

  // ------------------------------------------------------------------ when the order shows

  /** The error a partial result reports for a partition. */
  function ErrOf(p: Partial<RecordsPartial>, x: Part): int
    requires x in Touched(p)
  {
    if p.err != 0 then p.err else LastAnswer(p.body.results, x).err
  }

  /** The offset a successful partial result reports for a partition. */
  function OffsetOf(p: Partial<RecordsPartial>, x: Part): int
    requires p.err == 0 && x in Touched(p)
  {
    LastAnswer(p.body.results, x).offset
  }

  predicate Answers(p: Partial<RecordsPartial>, x: Part) {
    p.err == 0 && x in Touched(p)
  }

  lemma AfterIs(t: Tp, p: Partial<RecordsPartial>)
    ensures After(t, p).err == if t.part in Touched(p) then ErrOf(p, t.part) else t.err
    ensures After(t, p).offset == if Answers(p, t.part) then OffsetOf(p, t.part) else t.offset
  {
    hide LastAnswer;
  }

  /** Two partial results do not contradict each other about a partition. */
  predicate Agree(p: Partial<RecordsPartial>, q: Partial<RecordsPartial>, x: Part) {
    && (x in Touched(p) && x in Touched(q) ==> ErrOf(p, x) == ErrOf(q, x))
    && (Answers(p, x) && Answers(q, x) ==> OffsetOf(p, x) == OffsetOf(q, x))
  }

  /** No two partial results contradict each other about a requested partition. */
  ghost predicate Agreeing(res: seq<Tp>, arrivals: seq<Arrival<RecordsPartial>>) {
    forall i, j, k :: 0 <= i < j < |arrivals| && 0 <= k < |res| ==>
      Agree(Effective(arrivals[i]), Effective(arrivals[j]), res[k].part)
  }

  /** Leaders that own disjoint partitions agree. */
  lemma DisjointAgree(res: seq<Tp>, arrivals: seq<Arrival<RecordsPartial>>)
    requires forall i, j :: 0 <= i < j < |arrivals| ==> Touched(Effective(arrivals[i])) !! Touched(Effective(arrivals[j]))
    ensures Agreeing(res, arrivals)
  {
    hide Effective, Touched, ErrOf, OffsetOf;
  }

  ghost predicate AgreeAbout(arrivals: seq<Arrival<RecordsPartial>>, x: Part) {
    forall i, j :: 0 <= i < |arrivals| && 0 <= j < |arrivals| ==> Agree(Effective(arrivals[i]), Effective(arrivals[j]), x)
  }

  /** Some arrival among `seen` speaks about the partition. */
  predicate Mentioned(arrivals: seq<Arrival<RecordsPartial>>, x: Part, seen: seq<nat>)
    requires forall k :: 0 <= k < |seen| ==> seen[k] < |arrivals|
  {
    exists k :: 0 <= k < |seen| && x in Touched(Effective(arrivals[seen[k]]))
  }

  predicate AnsweredBy(arrivals: seq<Arrival<RecordsPartial>>, x: Part, seen: seq<nat>)
    requires forall k :: 0 <= k < |seen| ==> seen[k] < |arrivals|
  {
    exists k :: 0 <= k < |seen| && Answers(Effective(arrivals[seen[k]]), x)
  }

  /** Among agreeing results, any one of those seen tells the error, and the offset. */
  lemma {:induction false} ThroughIs(t: Tp, arrivals: seq<Arrival<RecordsPartial>>, seen: seq<nat>, i: nat)
    requires AgreeAbout(arrivals, t.part) && i < |arrivals|
    requires forall k :: 0 <= k < |seen| ==> seen[k] < |arrivals|
    ensures !Mentioned(arrivals, t.part, seen) ==> Through(t, arrivals, seen).err == t.err
    ensures !AnsweredBy(arrivals, t.part, seen) ==> Through(t, arrivals, seen).offset == t.offset
    ensures var p := Effective(arrivals[i]);
      && (Mentioned(arrivals, t.part, seen) && t.part in Touched(p) ==> Through(t, arrivals, seen).err == ErrOf(p, t.part))
      && (AnsweredBy(arrivals, t.part, seen) && Answers(p, t.part) ==> Through(t, arrivals, seen).offset == OffsetOf(p, t.part))
    decreases |seen|
  {
    hide Effective, Touched, ErrOf, OffsetOf, After, Answers;
    if seen != [] {
      var n := |seen| - 1;
      var prior, j := seen[..n], seen[n];
      ThroughIs(t, arrivals, prior, i);
      AfterIs(Through(t, arrivals, prior), Effective(arrivals[j]));
      assert Agree(Effective(arrivals[i]), Effective(arrivals[j]), t.part);
      MentionedSnoc(arrivals, t.part, seen);
    }
  }

  lemma MentionedSnoc(arrivals: seq<Arrival<RecordsPartial>>, x: Part, seen: seq<nat>)
    requires seen != [] && forall k :: 0 <= k < |seen| ==> seen[k] < |arrivals|
    ensures var n := |seen| - 1; var p := Effective(arrivals[seen[n]]);
      && (Mentioned(arrivals, x, seen) <==> Mentioned(arrivals, x, seen[..n]) || x in Touched(p))
      && (AnsweredBy(arrivals, x, seen) <==> AnsweredBy(arrivals, x, seen[..n]) || Answers(p, x))
  {
    hide Effective, Touched, Answers;
    var n := |seen| - 1;
    assert forall k :: 0 <= k < n ==> seen[..n][k] == seen[k];
  }

  /** Two orders mention the same partitions. */
  lemma SameMentions(arrivals: seq<Arrival<RecordsPartial>>, x: Part, o: seq<nat>, o': seq<nat>)
    requires Permutation(o, |arrivals|) && Permutation(o', |arrivals|)
    ensures Mentioned(arrivals, x, o) ==> Mentioned(arrivals, x, o')
    ensures AnsweredBy(arrivals, x, o) ==> AnsweredBy(arrivals, x, o')
  {
    hide Effective, Touched, Answers;
    forall k | 0 <= k < |o| ensures exists m :: 0 <= m < |o'| && o'[m] == o[k] {
      Onto(o', |arrivals|, o[k]);
    }
  }

  /** A partition that all results agree about ends the same in two orders. */
  lemma SameEnd(t: Tp, arrivals: seq<Arrival<RecordsPartial>>, o: seq<nat>, o': seq<nat>)
    requires AgreeAbout(arrivals, t.part) && Permutation(o, |arrivals|) && Permutation(o', |arrivals|) && arrivals != []
    ensures Through(t, arrivals, o) == Through(t, arrivals, o')
  {
    hide Effective, Touched, ErrOf, OffsetOf, Agree, Through, Answers;
    SameMentions(arrivals, t.part, o, o');
    SameMentions(arrivals, t.part, o', o);
    var i := if Mentioned(arrivals, t.part, o) then Witness(arrivals, t.part, o) else 0;
    var j := if AnsweredBy(arrivals, t.part, o) then Answerer(arrivals, t.part, o) else 0;
    ThroughIs(t, arrivals, o, i);
    ThroughIs(t, arrivals, o', i);
    ThroughIs(t, arrivals, o, j);
    ThroughIs(t, arrivals, o', j);
  }

  ghost function Witness(arrivals: seq<Arrival<RecordsPartial>>, x: Part, o: seq<nat>): (i: nat)
    requires forall k :: 0 <= k < |o| ==> o[k] < |arrivals|
    requires Mentioned(arrivals, x, o)
    ensures i < |arrivals| && x in Touched(Effective(arrivals[i]))
  {
    var k :| 0 <= k < |o| && x in Touched(Effective(arrivals[o[k]]));
    o[k]
  }

  ghost function Answerer(arrivals: seq<Arrival<RecordsPartial>>, x: Part, o: seq<nat>): (i: nat)
    requires forall k :: 0 <= k < |o| ==> o[k] < |arrivals|
    requires AnsweredBy(arrivals, x, o)
    ensures i < |arrivals| && Answers(Effective(arrivals[i]), x)
  {
    var k :| 0 <= k < |o| && Answers(Effective(arrivals[o[k]]), x);
    o[k]
  }

  /** The numbers below `n` other than `i` and `j`, in order. */
  function Others(n: nat, i: nat, j: nat): seq<nat> {
    if n == 0 then []
    else if n - 1 == i || n - 1 == j then Others(n - 1, i, j)
    else Others(n - 1, i, j) + [n - 1]
  }

  lemma {:induction false} OthersAre(n: nat, i: nat, j: nat)
    requires i < j
    ensures |Others(n, i, j)| == n - (if i < n then 1 else 0) - (if j < n then 1 else 0)
    ensures forall k :: 0 <= k < |Others(n, i, j)| ==> Others(n, i, j)[k] < n && Others(n, i, j)[k] != i && Others(n, i, j)[k] != j
    ensures forall k, m :: 0 <= k < m < |Others(n, i, j)| ==> Others(n, i, j)[k] < Others(n, i, j)[m]
  {
    if n > 0 {
      OthersAre(n - 1, i, j);
    }
  }

  /** Contradicting results show when they come last, in one order and in the other. */
  lemma LastTwoShow(res: seq<Tp>, arrivals: seq<Arrival<RecordsPartial>>, i: nat, j: nat, k: nat)
    requires i < j < |arrivals| && k < |res|
    ensures var o, o' := Others(|arrivals|, i, j) + [i, j], Others(|arrivals|, i, j) + [j, i];
      Permutation(o, |arrivals|) && Permutation(o', |arrivals|)
      && (Verdicts(res, arrivals, o) == Verdicts(res, arrivals, o') ==>
          Agree(Effective(arrivals[i]), Effective(arrivals[j]), res[k].part))
  {
    hide Effective, Touched, Agree, After, Through, Others, Permutation;
    var rest := Others(|arrivals|, i, j);
    var p, q := Effective(arrivals[i]), Effective(arrivals[j]);
    OthersAre(|arrivals|, i, j);
    OthersLast(|arrivals|, i, j);
    var t := Through(res[k], arrivals, rest);
    ThroughTwo(res[k], arrivals, rest, i, j);
    ThroughTwo(res[k], arrivals, rest, j, i);
    SwapShows(t, p, q);
    if Verdicts(res, arrivals, rest + [i, j]) == Verdicts(res, arrivals, rest + [j, i]) {
      assert Verdicts(res, arrivals, rest + [i, j])[k] == Verdicts(res, arrivals, rest + [j, i])[k];
    }
  }

  /** All numbers below `n`, the two chosen ones last, in either order. */
  lemma OthersLast(n: nat, i: nat, j: nat)
    requires i < j < n
    ensures Permutation(Others(n, i, j) + [i, j], n) && Permutation(Others(n, i, j) + [j, i], n)
    ensures forall k :: 0 <= k < |Others(n, i, j)| ==> Others(n, i, j)[k] < n
  {
    hide Others;
    OthersAre(n, i, j);
  }

  /** Two partial results in a row leave the same in both orders only if they agree. */
  lemma SwapShows(t: Tp, p: Partial<RecordsPartial>, q: Partial<RecordsPartial>)
    ensures After(After(t, p), q) == After(After(t, q), p) <==> Agree(p, q, t.part)
  {
    hide Touched, ErrOf, OffsetOf, After, Answers;
    AfterIs(t, p);
    AfterIs(t, q);
    AfterIs(After(t, p), q);
    AfterIs(After(t, q), p);
    TouchedAnswers(p, t.part);
    TouchedAnswers(q, t.part);
  }

  lemma TouchedAnswers(p: Partial<RecordsPartial>, x: Part)
    ensures Answers(p, x) ==> x in Touched(p)
  {}

  lemma ThroughTwo(t: Tp, arrivals: seq<Arrival<RecordsPartial>>, rest: seq<nat>, i: nat, j: nat)
    requires i < |arrivals| && j < |arrivals| && forall k :: 0 <= k < |rest| ==> rest[k] < |arrivals|
    ensures Through(t, arrivals, rest + [i, j])
         == After(After(Through(t, arrivals, rest), Effective(arrivals[i])), Effective(arrivals[j]))
  {
    hide Effective, After;
    var o := rest + [i, j];
    assert o[..|o| - 1] == rest + [i];
    assert (rest + [i])[..|rest|] == rest;
    assert Through(t, arrivals, rest + [i]) == After(Through(t, arrivals, rest), Effective(arrivals[i]));
  }

  /**
    The reply is the same for every order of arrival if and only if no two partial results
    contradict each other about a requested partition.
   */
  lemma OrderIndependence(res: seq<Tp>, arrivals: seq<Arrival<RecordsPartial>>)
    requires Distinct(res) && AboutRequested(res, arrivals) && arrivals != []
    ensures Agreeing(res, arrivals)
        <==> forall o: seq<nat>, o': seq<nat> :: Permutation(o, |arrivals|) && Permutation(o', |arrivals|) ==>
               Outcomes(res, arrivals, o) == Outcomes(res, arrivals, o')
  {
    hide Effective, Touched, Agree, Outcomes, Verdicts;
    var n := |arrivals|;
    if Agreeing(res, arrivals) {
      forall o: seq<nat>, o': seq<nat> | Permutation(o, n) && Permutation(o', n)
        ensures Outcomes(res, arrivals, o) == Outcomes(res, arrivals, o')
      {
        AllEnds(res, arrivals, o, o');
        FullReply(res, arrivals, o);
        FullReply(res, arrivals, o');
      }
    }
    if forall o: seq<nat>, o': seq<nat> :: Permutation(o, n) && Permutation(o', n) ==> Outcomes(res, arrivals, o) == Outcomes(res, arrivals, o') {
      forall i, j, k | 0 <= i < j < n && 0 <= k < |res|
        ensures Agree(Effective(arrivals[i]), Effective(arrivals[j]), res[k].part)
      {
        LastTwoShow(res, arrivals, i, j, k);
        FullReply(res, arrivals, Others(n, i, j) + [i, j]);
        FullReply(res, arrivals, Others(n, i, j) + [j, i]);
      }
    }
  }

  lemma FullReply(res: seq<Tp>, arrivals: seq<Arrival<RecordsPartial>>, o: seq<nat>)
    requires Distinct(res) && AboutRequested(res, arrivals) && arrivals != [] && Permutation(o, |arrivals|)
    ensures var v := Verdicts(res, arrivals, o); Outcomes(res, arrivals, o) == Ok(State(0, v, [v]))
  {
    hide Outcomes, Verdicts;
    DeleteRecordsReply(res, arrivals, o, |arrivals|);
    assert o[..|arrivals|] == o;
  }

  lemma AllEnds(res: seq<Tp>, arrivals: seq<Arrival<RecordsPartial>>, o: seq<nat>, o': seq<nat>)
    requires Agreeing(res, arrivals) && arrivals != [] && Permutation(o, |arrivals|) && Permutation(o', |arrivals|)
    ensures Verdicts(res, arrivals, o) == Verdicts(res, arrivals, o')
  {
    hide Effective, Through, Agree;
    forall k | 0 <= k < |res| ensures Through(res[k], arrivals, o) == Through(res[k], arrivals, o') {
      forall i, j | 0 <= i < |arrivals| && 0 <= j < |arrivals|
        ensures Agree(Effective(arrivals[i]), Effective(arrivals[j]), res[k].part)
      {
        AgreeSwap(Effective(arrivals[i]), Effective(arrivals[j]), res[k].part);
      }
      SameEnd(res[k], arrivals, o, o');
    }
  }

  lemma AgreeSwap(p: Partial<RecordsPartial>, q: Partial<RecordsPartial>, x: Part)
    ensures Agree(p, q, x) <==> Agree(q, p, x)
    ensures Agree(p, p, x)
  {
    hide Touched, ErrOf, OffsetOf, Answers;
  }

  // ------------------------------------------------------------------ set-up

  /** Errors of the leader query, copied to the requested partitions. */
  function LeaderErrors(offsets: seq<Tp>, partitions: seq<Tp>): Merged<seq<Tp>>
    decreases |partitions|
  {
    if partitions == [] then Merged(offsets)
    else if partitions[0].err == 0 then LeaderErrors(offsets, partitions[1..])
    else
      var i := FindFrom(offsets, partitions[0].part, 0);
      if i == -1 then Failed else LeaderErrors(offsets[i := offsets[i].(err := partitions[0].err)], partitions[1..])
  }

  /** The requested partitions: sorted by the check for repeats, and marked as not done. */
  function Requested(offsets: seq<Tp>): (s: seq<Tp>) {
    var sorted := if |offsets| <= 1 then offsets else Sort(offsets);
    seq(|sorted|, i requires 0 <= i < |sorted| => sorted[i].(err := ErrNoop))
  }

  /** Every requested partition is there with its offset, marked as not done. */
  lemma RequestedKeeps(offsets: seq<Tp>)
    ensures |Requested(offsets)| == |offsets|
    ensures forall t :: t in offsets ==> t.(err := ErrNoop) in Requested(offsets)
  {
    hide Sort;
    var sorted := if |offsets| <= 1 then offsets else Sort(offsets);
    SortCorrect(offsets);
    assert |multiset(sorted)| == |sorted| && |multiset(offsets)| == |offsets|;
    forall t | t in offsets ensures t.(err := ErrNoop) in Requested(offsets) {
      assert t in multiset(sorted);
      var k :| 0 <= k < |sorted| && sorted[k] == t;
      assert Requested(offsets)[k] == t.(err := ErrNoop);
    }
  }

  datatype Setup = Refused(err: int) | Querying(offsets: seq<Tp>)

  /** `rd_kafka_topic_partition_list_has_duplicates`, on the sorted copy. */
  method HasDuplicates(sorted: seq<Tp>) returns (found: bool)
    requires Sorted(sorted)
    ensures found <==> !Distinct(sorted)
  {
    if |sorted| <= 1 {
      return false;
    }
    var i := 1;
    while i < |sorted|
      invariant 1 <= i <= |sorted| && forall j {:trigger sorted[j]} :: 0 < j < i ==> sorted[j].part != sorted[j - 1].part
    {
      if sorted[i - 1].part == sorted[i].part {
        return true;
      }
      i := i + 1;
    }
    NeighboursSuffice(sorted);
    return false;
  }

  /** `rd_kafka_DeleteRecords`: exactly one request, not empty, without repeats. */
  method DeleteRecords(requests: seq<seq<Tp>>) returns (r: Setup)
    ensures r == if |requests| == 1 && requests[0] != [] && Distinct(requests[0]) then Querying(Requested(requests[0]))
                 else Refused(ErrInvalidArg)
    ensures r.Querying? ==> Distinct(r.offsets) && Parts(r.offsets) == Parts(requests[0])
    ensures r.Querying? ==> |r.offsets| == |requests[0]| && forall t :: t in requests[0] ==> t.(err := ErrNoop) in r.offsets
  {
    hide Sort;
    if |requests| != 1 {
      return Refused(ErrInvalidArg);
    }
    var offsets := requests[0];
    if |offsets| == 0 {
      return Refused(ErrInvalidArg);
    }
    var sorted := if |offsets| <= 1 then offsets else Sort(offsets);
    SortCorrect(offsets);
    if Distinct(offsets) {
      DistinctMultiset(offsets, Sort(offsets));
    }
    if Distinct(sorted) && |offsets| > 1 {
      DistinctMultiset(sorted, offsets);
    }
    var found := HasDuplicates(sorted);
    if found {
      return Refused(ErrInvalidArg);
    }
    RequestedKeeps(offsets);
    UpdateParts(sorted, Requested(offsets));
    return Querying(Requested(offsets));
  }

  // ------------------------------------------------------------------ the op

  /** The fan-out op of a DeleteRecords, updated in place. */
  class DeleteRecordsOp {
    var outstanding: int
    var respartitions: seq<Tp>
    var replies: seq<seq<Tp>>

    function Value(): State<seq<Tp>, seq<Tp>>
      reads this
    {
      State(outstanding, respartitions, replies)
    }

    constructor ()
      ensures Value() == State(0, [], [])
    {
      outstanding, respartitions, replies := 0, [], [];
    }

    /** `rd_kafka_topic_partition_list_find` */
    method Find(s: seq<Tp>, p: Part) returns (i: int)
      ensures i == FindFrom(s, p, 0)
    {
      i := 0;
      while i < |s|
        invariant 0 <= i <= |s| && FindFrom(s, p, 0) == FindFrom(s, p, i)
      {
        if s[i].part == p {
          return;
        }
        i := i + 1;
      }
      i := -1;
    }

    /**
      `rd_kafka_DeleteRecords_leaders_queried_cb` after a successful query: the errors of
      partitions without a leader are kept, and one request per leader is outstanding.
     */
    method LeadersQueried(offsets: seq<Tp>, partitions: seq<Tp>, leaders: seq<seq<Tp>>) returns (ok: bool)
      modifies this
      ensures ok <==> LeaderErrors(offsets, partitions).Merged? && leaders != []
      ensures ok ==> Value() == State(|leaders|, LeaderErrors(offsets, partitions).results, old(replies))
      ensures ok && Distinct(offsets) ==> |respartitions| == |offsets|
      ensures ok && Distinct(offsets) ==>
        forall i :: 0 <= i < |offsets| ==>
          respartitions[i] == offsets[i].(err := LastError(partitions, offsets[i].part, offsets[i].err))
    {
      var current := offsets;
      var j := 0;
      while j < |partitions|
        invariant 0 <= j <= |partitions|
        invariant LeaderErrors(offsets, partitions) == LeaderErrors(current, partitions[j..])
        invariant replies == old(replies)
      {
        var t := partitions[j];
        assert partitions[j..][0] == t && partitions[j..][1..] == partitions[j + 1..];
        if t.err != 0 {
          var i := Find(current, t.part);
          if i == -1 {
            return false;
          }
          current := current[i := current[i].(err := t.err)];
        }
        j := j + 1;
      }
      respartitions := current;
      outstanding := |leaders|;
      if Distinct(offsets) {
        LeaderErrorsKept(offsets, partitions);
      }
      return |leaders| > 0;
    }

    /** `rd_kafka_DeleteRecords_response_merge`; not `ok` where an assertion fails. */
    method ResponseMerge(p: Partial<RecordsPartial>) returns (ok: bool)
      modifies this`respartitions
      ensures Merge(old(respartitions), p) == if ok then Merged(respartitions) else Failed
    {
      var j := 0;
      if p.err != 0 {
        while j < |p.body.args|
          invariant 0 <= j <= |p.body.args|
          invariant SetErrors(old(respartitions), p.body.args, p.err) == SetErrors(respartitions, p.body.args[j..], p.err)
        {
          var t := p.body.args[j];
          assert p.body.args[j..][0] == t && p.body.args[j..][1..] == p.body.args[j + 1..];
          var i := Find(respartitions, t.part);
          if i == -1 {
            return false;
          }
          respartitions := respartitions[i := respartitions[i].(err := p.err)];
          j := j + 1;
        }
        return true;
      }
      while j < |p.body.results|
        invariant 0 <= j <= |p.body.results|
        invariant SetResults(old(respartitions), p.body.results) == SetResults(respartitions, p.body.results[j..])
      {
        var t := p.body.results[j];
        assert p.body.results[j..][0] == t && p.body.results[j..][1..] == p.body.results[j + 1..];
        var i := Find(respartitions, t.part);
        if i != -1 {
          respartitions := respartitions[i := respartitions[i].(offset := t.offset, err := t.err)];
        }
        j := j + 1;
      }
      return true;
    }

    /** `rd_kafka_admin_fanout_worker` */
    method FanoutWorker(a: Arrival<RecordsPartial>) returns (ok: bool)
      modifies this
      ensures Worker(old(Value()), a, Merge, Copy) == if ok then Ok(Value()) else Abort
    {
      hide Merge;
      if outstanding <= 0 {
        return false;
      }
      outstanding := outstanding - 1;
      var partial := a.partial;
      if a.terminating {
        if partial.err == 0 {
          partial := partial.(err := ErrDestroy);
        }
      }
      ok := ResponseMerge(partial);
      if !ok || outstanding > 0 {
        return;
      }
      replies := replies + [Copy(respartitions)];
    }
  }

  // ------------------------------------------------------------------ leader errors

  /** The last error the leader query reports for a partition, or else `none`. */
  function LastError(partitions: seq<Tp>, p: Part, none: int): int {
    if partitions == [] then none
    else
      var t := partitions[|partitions| - 1];
      if t.part == p && t.err != 0 then t.err else LastError(partitions[..|partitions| - 1], p, none)
  }

  lemma {:induction false} LastErrorCons(a: Tp, rest: seq<Tp>, p: Part, none: int)
    ensures LastError([a] + rest, p, none) == LastError(rest, p, if a.part == p && a.err != 0 then a.err else none)
    decreases |rest|
  {
    var n := |rest|;
    if n == 0 {
      assert [a] + rest == [a] && [a][..0] == [];
    } else {
      assert ([a] + rest)[..n] == [a] + rest[..n - 1];
      LastErrorCons(a, rest[..n - 1], p, none);
    }
  }

  /**
    Copying the errors of the leader query fails exactly when one is about a partition that
    was not requested; otherwise each requested partition has the last error reported for
    it, or keeps the one it had, and nothing else changes.
   */
  lemma {:induction false} LeaderErrorsKept(offsets: seq<Tp>, partitions: seq<Tp>)
    requires Distinct(offsets)
    ensures LeaderErrors(offsets, partitions).Merged?
        <==> forall t :: t in partitions && t.err != 0 ==> t.part in Parts(offsets)
    ensures LeaderErrors(offsets, partitions).Merged? ==>
      (var r := LeaderErrors(offsets, partitions).results;
       |r| == |offsets|
       && forall i :: 0 <= i < |r| ==> r[i] == offsets[i].(err := LastError(partitions, offsets[i].part, offsets[i].err)))
    decreases |partitions|
  {
    hide LastError;
    if partitions == [] {
      NoErrors(offsets);
    } else {
      var t, rest := partitions[0], partitions[1..];
      assert partitions == [t] + rest;
      var i := FindFrom(offsets, t.part, 0);
      FindAbsent(offsets, t.part, 0);
      PartsAt(offsets, t.part);
      var next := if t.err == 0 || i == -1 then offsets else offsets[i := offsets[i].(err := t.err)];
      UpdateParts(offsets, next);
      LeaderErrorsKept(next, rest);
      forall j | 0 <= j < |offsets|
        ensures LastError(rest, next[j].part, next[j].err) == LastError(partitions, offsets[j].part, offsets[j].err)
      {
        LastErrorCons(t, rest, offsets[j].part, offsets[j].err);
        FindDistinct(offsets, j, 0);
      }
    }
  }

  lemma NoErrors(offsets: seq<Tp>)
    ensures forall i :: 0 <= i < |offsets| ==> LastError([], offsets[i].part, offsets[i].err) == offsets[i].err
  {}

  // ------------------------------------------------------------------ from request to reply

  /** A partition no partial result speaks about is left as it was. */
  lemma {:induction false} Unmentioned(t: Tp, arrivals: seq<Arrival<RecordsPartial>>, seen: seq<nat>)
    requires forall k :: 0 <= k < |seen| ==> seen[k] < |arrivals|
    requires !Mentioned(arrivals, t.part, seen)
    ensures Through(t, arrivals, seen) == t
    decreases |seen|
  {
    hide Effective, Touched, Settled;
    if seen != [] {
      MentionedSnoc(arrivals, t.part, seen);
      Unmentioned(t, arrivals, seen[..|seen| - 1]);
    }
  }

  /** The results a DeleteRecords of `request` starts from. */
  function Start(request: seq<Tp>, partitions: seq<Tp>): Merged<seq<Tp>> {
    LeaderErrors(Requested(request), partitions)
  }

  /**
    From request to reply: in any order of arrival one reply is sent, listing exactly the
    requested partitions. One that no partial result speaks about keeps its offset and has
    the error of the leader query, or else the mark of not being done; one that some
    partial result speaks about, without contradiction, has the error reported for it.
   */
  lemma RequestToReply(request: seq<Tp>, partitions: seq<Tp>, arrivals: seq<Arrival<RecordsPartial>>, order: seq<nat>)
    requires Distinct(request) && Start(request, partitions).Merged? && arrivals != []
    requires AboutRequested(Start(request, partitions).results, arrivals) && Permutation(order, |arrivals|)
    ensures var v := Verdicts(Start(request, partitions).results, arrivals, order);
      && Outcomes(Start(request, partitions).results, arrivals, order) == Ok(State(0, v, [v]))
      && Distinct(v) && Parts(v) == Parts(request) && SameParts(v, Requested(request))
      && forall i :: 0 <= i < |v| ==>
           && (!Mentioned(arrivals, v[i].part, order) ==>
                 v[i].err == LastError(partitions, v[i].part, ErrNoop) && v[i].offset == Requested(request)[i].offset)
           && forall j :: 0 <= j < |arrivals| && AgreeAbout(arrivals, v[i].part) && v[i].part in Touched(Effective(arrivals[j])) ==>
                v[i].err == ErrOf(Effective(arrivals[j]), v[i].part)
                && (Answers(Effective(arrivals[j]), v[i].part) ==> v[i].offset == OffsetOf(Effective(arrivals[j]), v[i].part))
    ensures forall t :: t in request && !Mentioned(arrivals, t.part, order) ==>
      t.(err := LastError(partitions, t.part, ErrNoop)) in Verdicts(Start(request, partitions).results, arrivals, order)
  {
    hide Effective, Touched, LeaderErrors, Requested, LastError, Through, Agree, ErrOf, OffsetOf, Outcomes;
    var req := Requested(request);
    RequestedParts(request);
    LeaderErrorsKept(req, partitions);
    var start := Start(request, partitions).results;
    UpdateParts(req, start);
    FullReply(start, arrivals, order);
    var v := Verdicts(start, arrivals, order);
    UpdateParts(start, v);
    forall i | 0 <= i < |v| && !Mentioned(arrivals, v[i].part, order) ensures v[i] == start[i] {
      Unmentioned(start[i], arrivals, order);
    }
    forall i, j | 0 <= i < |v| && 0 <= j < |arrivals| && AgreeAbout(arrivals, v[i].part) && v[i].part in Touched(Effective(arrivals[j]))
      ensures v[i].err == ErrOf(Effective(arrivals[j]), v[i].part)
      ensures Answers(Effective(arrivals[j]), v[i].part) ==> v[i].offset == OffsetOf(Effective(arrivals[j]), v[i].part)
    {
      Onto(order, |arrivals|, j);
      var k :| 0 <= k < |order| && order[k] == j;
      assert Mentioned(arrivals, v[i].part, order);
      assert Answers(Effective(arrivals[j]), v[i].part) ==> AnsweredBy(arrivals, v[i].part, order);
      ThroughIs(start[i], arrivals, order, j);
    }
    RequestedKeeps(request);
    forall t | t in request && !Mentioned(arrivals, t.part, order)
      ensures t.(err := LastError(partitions, t.part, ErrNoop)) in v
    {
      var k :| 0 <= k < |req| && req[k] == t.(err := ErrNoop);
      assert v[k] == start[k];
    }
  }

  lemma RequestedParts(request: seq<Tp>)
    requires Distinct(request)
    ensures var r := Requested(request);
      Distinct(r) && Parts(r) == Parts(request) && forall i :: 0 <= i < |r| ==> r[i].err == ErrNoop
  {
    hide Sort;
    var sorted := if |request| <= 1 then request else Sort(request);
    SortCorrect(request);
    DistinctMultiset(request, Sort(request));
    UpdateParts(sorted, Requested(request));
  }
}
