/**
  DeleteGroups over the fan-out (cbits/hs_rdkafka_admin.c): one request per group, one
  result slot per group, filled in request order whatever order the results arrive in. A
  group name is an integer key in strcmp order.
 */
module FanoutGroups {
  import opened TopParList
  import opened Fanout

  type Group = int

  /** `rd_kafka_group_result_t`; an error of 0 is none. */
  datatype GroupResult = GroupResult(group: Group, error: int)

  /** The content of a partial result: the group asked for, and the parsed results. */
  datatype GroupPartial = GroupPartial(group: Group, results: seq<GroupResult>)

  /** An element of an `rd_list_t` of pointers. */
  datatype Slot = Empty | Filled(result: GroupResult)

  /** `rd_list_elem`: past the end there is nothing. */
  function Elem(slots: seq<Slot>, i: nat): Slot {
    if i < |slots| then slots[i] else Empty
  }

  /** `rd_list_set`: the list grows to the index, with empty elements between. */
  function Set(slots: seq<Slot>, i: nat, r: GroupResult): seq<Slot> {
    if i < |slots| then slots[i := Filled(r)] else slots + seq(i - |slots|, _ => Empty) + [Filled(r)]
  }

  lemma SetElem(slots: seq<Slot>, i: nat, r: GroupResult, j: nat)
    ensures Elem(Set(slots, i, r), j) == if j == i then Filled(r) else Elem(slots, j)
    ensures |Set(slots, i, r)| == if i < |slots| then |slots| else i + 1
  {}

  /** `rd_list_index`: the first match, or -1. */
  function IndexFrom(args: seq<Group>, g: Group, i: nat): int
    requires i <= |args|
    decreases |args| - i
  {
    if i == |args| then -1 else if args[i] == g then i else IndexFrom(args, g, i + 1)
  }

  /** The result that goes into the slot. */
  function ResultOf(p: Partial<GroupPartial>): Merged<GroupResult> {
    if p.err != 0 then Merged(GroupResult(p.body.group, p.err))
    else if p.body.results == [] || p.body.results[0].group != p.body.group then Failed
    else Merged(p.body.results[0])
  }

  /** `rd_kafka_DeleteGroups_response_merge` */
  function Merge(args: seq<Group>, slots: seq<Slot>, p: Partial<GroupPartial>): Merged<seq<Slot>> {
    var r := ResultOf(p);
    var pos := IndexFrom(args, p.body.group, 0);
    if r.Failed? || pos == -1 || pos < 0 || Elem(slots, pos).Filled? then Failed
    else Merged(Set(slots, pos, r.results))
  }

  /** The copy into the reply: `rd_list_copy_to` stops at the first empty element. */
  function CopyOut(slots: seq<Slot>): seq<GroupResult> {
    if slots == [] || slots[0].Empty? then [] else [slots[0].result] + CopyOut(slots[1..])
  }

  ghost predicate NoRepeats(args: seq<Group>) {
    forall i, j :: 0 <= i < j < |args| ==> args[i] != args[j]
  }

  lemma {:induction false} IndexOfDistinct(args: seq<Group>, i: nat, from: nat)
    requires NoRepeats(args) && from <= i < |args|
    ensures IndexFrom(args, args[i], from) == i
    decreases i - from
  {
    if from < i {
      IndexOfDistinct(args, i, from + 1);
    }
  }

  lemma {:induction false} IndexFound(args: seq<Group>, g: Group, from: nat)
    requires from <= |args|
    ensures var i := IndexFrom(args, g, from);
      if i == -1 then g !in args[from..] else from <= i < |args| && args[i] == g && g !in args[from..i]
    decreases |args| - from
  {
    if from < |args| {
      IndexFound(args, g, from + 1);
      assert args[from..] == [args[from]] + args[from + 1..];
      var i := IndexFrom(args, g, from + 1);
      if i != -1 && args[from] != g {
        assert args[from..i] == [args[from]] + args[from + 1..i];
      }
    }
  }

  // ------------------------------------------------------------------ any arrival order

  /** The partial results of a DeleteGroups of `args`: one each, and each about its group. */
  ghost predicate Complete(args: seq<Group>, arrivals: seq<Arrival<GroupPartial>>) {
    |arrivals| == |args|
    && forall i :: 0 <= i < |args| ==> arrivals[i].partial.body.group == args[i] && ResultOf(Effective(arrivals[i])).Merged?
  }

  /** The results, in request order. */
  function InRequestOrder(arrivals: seq<Arrival<GroupPartial>>): (s: seq<GroupResult>)
    requires forall i :: 0 <= i < |arrivals| ==> ResultOf(Effective(arrivals[i])).Merged?
    ensures |s| == |arrivals|
  {
    seq(|arrivals|, i requires 0 <= i < |arrivals| => ResultOf(Effective(arrivals[i])).results)
  }

  /** After some arrivals, exactly their slots are filled, each with its own result. */
  ghost predicate FilledBy(slots: seq<Slot>, arrivals: seq<Arrival<GroupPartial>>, seen: seq<nat>)
    requires forall i :: 0 <= i < |arrivals| ==> ResultOf(Effective(arrivals[i])).Merged?
  {
    |slots| <= |arrivals|
    && forall j: nat :: j < |arrivals| ==>
      Elem(slots, j) == (if j in seen then Filled(InRequestOrder(arrivals)[j]) else Empty)
  }

  lemma {:induction false} Filling(args: seq<Group>, arrivals: seq<Arrival<GroupPartial>>, order: seq<nat>, k: nat)
    requires NoRepeats(args) && Complete(args, arrivals) && Permutation(order, |args|) && k <= |args|
    ensures var m := Fold([], Ordered(order[..k], arrivals), (s: seq<Slot>, p: Partial<GroupPartial>) => Merge(args, s, p));
      m.Merged? && FilledBy(m.results, arrivals, order[..k])
    decreases k
  {
    hide Elem, Set;
    var merge := (s: seq<Slot>, p: Partial<GroupPartial>) => Merge(args, s, p);
    if k == 0 {
      NothingFilled();
    } else {
      Filling(args, arrivals, order, k - 1);
      OrderedPrefix(order, arrivals, k - 1);
      var i := order[k - 1];
      var slots := Fold([], Ordered(order[..k - 1], arrivals), merge).results;
      var all := Ordered(order[..k], arrivals);
      assert all[..|all| - 1] == Ordered(order[..k - 1], arrivals);
      IndexOfDistinct(args, i, 0);
      assert i !in order[..k - 1];
      var r := InRequestOrder(arrivals)[i];
      assert Fold([], all, merge) == Merged(Set(slots, i, r));
      SetElem(slots, i, r, i);
      FillNext(slots, arrivals, order, k - 1);
    }
  }

  lemma NothingFilled()
    ensures forall j: nat :: Elem([], j) == Empty
  {}

  lemma FillNext(slots: seq<Slot>, arrivals: seq<Arrival<GroupPartial>>, order: seq<nat>, k: nat)
    requires Permutation(order, |arrivals|) && k < |arrivals|
    requires forall i :: 0 <= i < |arrivals| ==> ResultOf(Effective(arrivals[i])).Merged?
    requires FilledBy(slots, arrivals, order[..k])
    ensures FilledBy(Set(slots, order[k], InRequestOrder(arrivals)[order[k]]), arrivals, order[..k + 1])
  {
    hide Elem, Set, InRequestOrder, ResultOf;
    var i, r := order[k], InRequestOrder(arrivals)[order[k]];
    assert order[..k + 1] == order[..k] + [i];
    SetElem(slots, i, r, 0);
    forall j: nat | j < |arrivals|
      ensures Elem(Set(slots, i, r), j) == if j in order[..k + 1] then Filled(InRequestOrder(arrivals)[j]) else Empty
    {
      SetElem(slots, i, r, j);
    }
  }

  lemma {:induction false} CopyAll(slots: seq<Slot>, results: seq<GroupResult>)
    requires |slots| == |results| && forall j :: 0 <= j < |slots| ==> slots[j] == Filled(results[j])
    ensures CopyOut(slots) == results
  {
    if slots != [] {
      CopyAll(slots[1..], results[1..]);
      assert results == [results[0]] + results[1..];
    }
  }

  /**
    Slot `i` of a reply: the group asked for; with the error of the partial result if it
    has one, that of a destroyed handle if it came while terminating, and otherwise exactly
    the first parsed result.
   */
  ghost predicate Answers(r: GroupResult, g: Group, a: Arrival<GroupPartial>) {
    r.group == g
    && (if a.partial.err != 0 then r.error == a.partial.err
        else if a.terminating then r.error == ErrDestroy
        else a.partial.body.results != [] && r == a.partial.body.results[0])
  }

  lemma InOrderAnswers(args: seq<Group>, arrivals: seq<Arrival<GroupPartial>>)
    requires Complete(args, arrivals)
    ensures forall i :: 0 <= i < |args| ==> Answers(InRequestOrder(arrivals)[i], args[i], arrivals[i])
  {}

  /** A partial result is complete unless it is a success without a result for its group. */
  lemma CompleteExact(args: seq<Group>, arrivals: seq<Arrival<GroupPartial>>)
    ensures Complete(args, arrivals) <==>
      (|arrivals| == |args|
       && forall i :: 0 <= i < |args| ==>
         (var a := arrivals[i];
          a.partial.body.group == args[i]
          && (a.partial.err == 0 && !a.terminating ==>
                a.partial.body.results != [] && a.partial.body.results[0].group == args[i])))
  {}

  /**
    For every order of arrival and every mix of outcomes, no assertion fails, nothing is
    replied before the last result, and the one reply lists the results in request order.
   */
  lemma DeleteGroupsReply(args: seq<Group>, arrivals: seq<Arrival<GroupPartial>>, order: seq<nat>, k: nat)
    requires args != [] && NoRepeats(args) && Complete(args, arrivals) && Permutation(order, |args|) && k <= |args|
    ensures var r := Run(State(|args|, [], []), Ordered(order[..k], arrivals),
                         (s: seq<Slot>, p: Partial<GroupPartial>) => Merge(args, s, p), CopyOut);
      r.Ok? && r.state.outstanding == |args| - k
      && r.state.replies == if k == |args| then [InRequestOrder(arrivals)] else []
    ensures forall i :: 0 <= i < |args| ==> Answers(InRequestOrder(arrivals)[i], args[i], arrivals[i])
  {
    hide Merge, Elem, Answers, InRequestOrder, ResultOf;
    InOrderAnswers(args, arrivals);
    var merge := (s: seq<Slot>, p: Partial<GroupPartial>) => Merge(args, s, p);
    Filling(args, arrivals, order, k);
    OneReply(State(|args|, [], []), Ordered(order[..k], arrivals), merge, CopyOut);
    var m := Fold([], Ordered(order[..k], arrivals), merge);
    if k == |args| {
      assert order[..k] == order;
      AllFilled(m.results, arrivals, order);
    }
  }

  lemma AllFilled(slots: seq<Slot>, arrivals: seq<Arrival<GroupPartial>>, order: seq<nat>)
    requires Permutation(order, |arrivals|) && arrivals != []
    requires forall i :: 0 <= i < |arrivals| ==> ResultOf(Effective(arrivals[i])).Merged?
    requires FilledBy(slots, arrivals, order)
    ensures CopyOut(slots) == InRequestOrder(arrivals)
  {
    hide InRequestOrder, ResultOf;
    var n := |arrivals|;
    Onto(order, n, n - 1);
    assert Elem(slots, n - 1).Filled?;
    forall j | 0 <= j < |slots| ensures slots[j] == Filled(InRequestOrder(arrivals)[j]) {
      Onto(order, n, j);
      assert Elem(slots, j) == slots[j];
    }
    CopyAll(slots, InRequestOrder(arrivals));
  }

  /** A second result for a group already answered trips the merge's assertion. */
  lemma SecondResult(args: seq<Group>, slots: seq<Slot>, p: Partial<GroupPartial>, q: Partial<GroupPartial>)
    requires q.body.group == p.body.group && Merge(args, slots, p).Merged?
    ensures Merge(args, Merge(args, slots, p).results, q).Failed?
  {
    hide Elem, Set;
    var pos := IndexFrom(args, p.body.group, 0);
    SetElem(slots, pos, ResultOf(p).results, pos);
  }

  // ------------------------------------------------------------------ set-up

  datatype Setup = Refused(err: int) | Started(state: State<seq<Slot>, seq<GroupResult>>, requests: seq<Group>)

  function Keys(groups: seq<Group>): (s: seq<Tp>)
    ensures |s| == |groups| && forall i :: 0 <= i < |s| ==> s[i].part == groups[i]
  {
    seq(|groups|, i requires 0 <= i < |groups| => Tp(groups[i], 0, 0))
  }

  /** `rd_list_find_duplicate` on a sorted list. */
  method FindDuplicate(s: seq<Tp>) returns (found: bool)
    requires Sorted(s)
    ensures found <==> !Distinct(s)
  {
    var i := 1;
    while i < |s|
      invariant 1 <= i && forall j {:trigger s[j]} :: 0 < j < i && j < |s| ==> s[j].part != s[j - 1].part
    {
      if s[i - 1].part == s[i].part {
        return true;
      }
      i := i + 1;
    }
    NeighboursSuffice(s);
    return false;
  }

  /** `rd_kafka_DeleteGroups`: refuses an empty list and repeated groups, else one request each. */
  method DeleteGroups(groups: seq<Group>) returns (r: Setup)
    ensures r == if groups != [] && NoRepeats(groups) then Started(State(|groups|, [], []), groups) else Refused(ErrInvalidArg)
  {
    if |groups| == 0 {
      return Refused(ErrInvalidArg);
    }
    var sorted := Sort(Keys(groups));
    SortCorrect(Keys(groups));
    RepeatsKept(groups);
    var found := FindDuplicate(sorted);
    if found {
      return Refused(ErrInvalidArg);
    }
    return Started(State(|groups|, [], []), groups);
  }

  lemma RepeatsKept(groups: seq<Group>)
    ensures Distinct(Sort(Keys(groups))) <==> NoRepeats(groups)
  {
    hide Sort;
    var a, b := Keys(groups), Sort(Keys(groups));
    SortCorrect(a);
    if Distinct(a) {
      DistinctMultiset(a, b);
    }
    if Distinct(b) {
      DistinctMultiset(b, a);
    }
    assert Distinct(a) <==> NoRepeats(groups);
  }

  // ------------------------------------------------------------------ the op

  /** The fan-out op of a DeleteGroups, updated in place. */
  class DeleteGroupsOp {
    const args: seq<Group>
    var outstanding: int
    var slots: seq<Slot>
    var replies: seq<seq<GroupResult>>

    function Value(): State<seq<Slot>, seq<GroupResult>>
      reads this
    {
      State(outstanding, slots, replies)
    }

    constructor (groups: seq<Group>)
      ensures args == groups && Value() == State(|groups|, [], [])
    {
      args := groups;
      outstanding, slots, replies := |groups|, [], [];
    }

    /** `rd_list_index` on the requested groups. */
    method IndexOf(g: Group) returns (pos: int)
      ensures pos == IndexFrom(args, g, 0) && -1 <= pos < |args|
    {
      pos := 0;
      while pos < |args|
        invariant 0 <= pos <= |args| && IndexFrom(args, g, 0) == IndexFrom(args, g, pos)
      {
        if args[pos] == g {
          return;
        }
        pos := pos + 1;
      }
      pos := -1;
    }

    /** `rd_kafka_DeleteGroups_response_merge`; not `ok` where an assertion fails. */
    method ResponseMerge(p: Partial<GroupPartial>) returns (ok: bool)
      modifies this`slots
      ensures Merge(args, old(slots), p) == if ok then Merged(slots) else Failed
      ensures ok ==> p.body.group in args
      ensures ok ==>
        (forall j: nat :: j < |args| && args[j] != p.body.group ==> Elem(slots, j) == Elem(old(slots), j))
      ensures ok ==>
        (exists j: nat ::
           j < |args| && args[j] == p.body.group && Elem(old(slots), j).Empty?
           && Elem(slots, j) == Filled(if p.err != 0 then GroupResult(p.body.group, p.err) else p.body.results[0]))
    {
      var r;
      if p.err == 0 {
        if p.body.results == [] || p.body.results[0].group != p.body.group {
          return false;
        }
        r := p.body.results[0];
      } else {
        r := GroupResult(p.body.group, p.err);
      }
      var pos := IndexOf(p.body.group);
      if pos == -1 || Elem(slots, pos).Filled? {
        return false;
      }
      IndexFound(args, p.body.group, 0);
      forall j: nat ensures Elem(Set(slots, pos, r), j) == if j == pos then Filled(r) else Elem(slots, j) {
        SetElem(slots, pos, r, j);
      }
      slots := Set(slots, pos, r);
      return true;
    }

    /** `rd_kafka_admin_fanout_worker` */
    method FanoutWorker(a: Arrival<GroupPartial>) returns (ok: bool)
      modifies this
      ensures Worker(old(Value()), a, (s: seq<Slot>, p: Partial<GroupPartial>) => Merge(args, s, p), CopyOut)
           == if ok then Ok(Value()) else Abort
    {
      if outstanding <= 0 {
        return false;
      }
      outstanding := outstanding - 1;
      var partial := a.partial;
      if a.terminating {
        if partial.err == 0 {
          partial := partial.(err := ErrDestroy);
        }
      }
      ok := ResponseMerge(partial);
      if !ok || outstanding > 0 {
        return;
      }
      replies := replies + [CopyOut(slots)];
    }
  }
}
