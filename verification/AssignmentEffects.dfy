/**
  What each event of cbits/hs_rdkafka_assignment.c does, said without the transition
  functions: exactly what `serve` sends and moves, what `add` and `subtract` accept, and
  where a reply takes every partition.
 */
module AssignmentEffects {
  import opened TopParList
  import opened Assignment
  import opened AssignmentInv
  import opened AssignmentRuns
  import opened AssignmentStops
  import opened AssignmentStale

  // ------------------------------------------------------------------ offsets

  /** An absolute offset, the beginning, the end, none committed, or one from the tail. */
  predicate CanStart(offset: int) {
    offset >= 0 || offset == -2 || offset == -1 || offset == -1001 || offset <= -2000
  }

  /** The committed offset is to be used. */
  const Committed := -1000

  lemma CanStartExact(offset: int)
    ensures Startable(offset) <==> CanStart(offset)
  {}

  // ------------------------------------------------------------------ what serve stops and commits

  lemma RemoveOneLog(s: State, p: Part)
    requires RemoveOne(s, p).Ok?
    ensures var r := RemoveOne(s, p).s;
      && r.log == s.log + (if p in s.started then [StopFetcher(p)] else [])
      && r.started == s.started && r.flagged == s.flagged - {p} && r.all == s.all
  {}

  lemma {:induction false} RemoveEachLog(s: State, rest: seq<Tp>, e: Effect)
    requires RemoveEach(s, rest).Ok?
    ensures var r := RemoveEach(s, rest).s;
      && s.log <= r.log && r.started == s.started && r.flagged == s.flagged - Parts(rest) && r.all == s.all
      && (e in Sent(s, r) <==> e.StopFetcher? && e.part in Parts(rest) && e.part in s.started)
    decreases |rest|
  {
    hide RemoveOne;
    if rest != [] {
      var p, s' := rest[0].part, RemoveOne(s, rest[0].part).s;
      RemoveOneLog(s, p);
      assert rest == [rest[0]] + rest[1..];
      PartsCons(rest[0], rest[1..]);
      RemoveEachLog(s', rest[1..], e);
      var r := RemoveEach(s, rest).s;
      assert Sent(s, r) == Sent(s, s') + Sent(s', r);
    }
  }

  /** The state once the removals are served. */
  lemma RemovalsExact(s: State, env: Env, e: Effect)
    requires Inv(s)
    ensures var r := AfterRemovals(s, env);
      && s.log <= r.log && r.removed == [] && r.started == s.started && r.flagged == s.flagged - Parts(s.removed)
      && r.all == s.all && r.pending == s.pending && r.queried == s.queried && r.version == s.version
      && r.queries == s.queries && r.waitCommitCnt == s.waitCommitCnt + (if CommitDue(s, env) then 1 else 0)
      && (e in Sent(s, r) <==>
            (e.StopFetcher? && e.part in Parts(s.removed) && e.part in s.started)
            || (CommitDue(s, env) && e == SendCommit(WithStored(env, s.removed))))
  {
    hide RemoveEach, AnyValid, CommitDue;
    CommitDueExact(s, env);
    if s.removed == [] {
      NothingRemoved(s, e);
    } else {
      RemoveEachStops(s, s.removed);
      RemoveEachLog(s, s.removed, e);
      RemoveEachSent(s, s.removed);
      RemovalsKeepQueried(s, env);
      var r1, r := RemoveEach(s, s.removed).s, AfterRemovals(s, env);
      assert Sent(s, r) == Sent(s, r1) + (if CommitDue(s, env) then [SendCommit(WithStored(env, s.removed))] else []);
    }
  }

  lemma NothingRemoved(s: State, e: Effect)
    requires s.removed == []
    ensures Sent(s, s) == [] && Parts(s.removed) == {} && e !in Sent(s, s) && s.flagged - Parts(s.removed) == s.flagged
  {}

  // ------------------------------------------------------------------ serve, exactly

  /** Someone on the list has to be asked for. */
  ghost predicate AnyToAsk(ts: seq<Tp>) {
    exists t :: t in ts && !CanStart(t.offset)
  }

  /** A query is sent. */
  ghost predicate Asks(s: State, env: Env) {
    !Blocked(s, env) && env.coordinator && s.queried == [] && AnyToAsk(s.pending)
  }

  /** What `serve` sends: stops, a commit, starts, a query, completion. */
  ghost predicate Sends(s: State, env: Env, r: State, e: Effect) {
    match e
    case StopFetcher(p) => p in Parts(s.removed) && p in s.started
    case SendCommit(ps) => CommitDue(s, env) && ps == WithStored(env, s.removed)
    case StartFetcher(p, o) => !Blocked(s, env) && EntryIn(s.pending, p, o) && CanStart(o)
    case SendQuery(q) => Asks(s, env) && q == Query(r.queried, s.version)
    case AssignmentDone => r.pending == [] && r.queried == [] && r.waitStopCnt == 0 && r.waitCommitCnt == 0
  }

  ghost predicate EntryIn(ts: seq<Tp>, p: Part, o: int) {
    exists t :: t in ts && t.part == p && t.offset == o
  }

  /** Where `serve` leaves a list entry. */
  ghost predicate Leaves(s: State, env: Env, r: State, t: Tp) {
    && (t in r.pending <==>
          t in s.pending && (Blocked(s, env) || (!CanStart(t.offset) && !(env.coordinator && s.queried == []))))
    && (t in r.queried <==>
          t in s.queried || (!Blocked(s, env) && env.coordinator && s.queried == [] && t in s.pending && !CanStart(t.offset)))
  }

  lemma PendingExact(s: State, env: Env, t: Tp, e: Effect)
    requires ServePending(s, env).Ok? && s.waitStopCnt == 0 && s.waitCommitCnt == 0
    ensures var r := ServePending(s, env).s;
      && s.log <= r.log
      && (t in r.pending <==> t in s.pending && !CanStart(t.offset) && !(env.coordinator && s.queried == []))
      && (t in r.queried <==> t in s.queried || (env.coordinator && s.queried == [] && t in s.pending && !CanStart(t.offset)))
      && (e in Sent(s, r) <==>
            (e.StartFetcher? && EntryIn(s.pending, e.part, e.offset) && CanStart(e.offset))
            || (env.coordinator && s.queried == [] && r.queried != [] && e == SendQuery(Query(r.queried, s.version))))
  {
    hide PendFrom, Startable, CanStart, Starts;
    var n, q := |s.pending|, CanQuery(s, env);
    assert s.pending[..n] == s.pending && s.pending[n..] == [];
    PendFromPending(s, n, q);
    PendFromQueried(s, n, q, t);
    PendFromSent(s, n, q);
    PendFromStarts(s, n, q, e);
    WaitingAre(s.pending, t);
    CanStartExact(t.offset);
    StartsExact(s.pending, e);
    var r1, r := PendFrom(s, n, q).s, ServePending(s, env).s;
    assert Sent(s, r) == Sent(s, r1) || Sent(s, r) == Sent(s, r1) + [SendQuery(Query(r1.queried, r1.version))];
  }

  lemma StartsExact(ts: seq<Tp>, e: Effect)
    ensures Starts(ts, e) <==> e.StartFetcher? && EntryIn(ts, e.part, e.offset) && CanStart(e.offset)
  {
    hide Startable, CanStart;
    if e.StartFetcher? {
      CanStartExact(e.offset);
    }
  }

  /** What `serve` does to the state. */
  ghost predicate Serves(s: State, env: Env, r: State) {
    && s.log <= r.log
    && r.all == s.all && r.removed == [] && r.version == s.version
    && r.flagged == s.flagged - Parts(s.removed)
    && r.waitCommitCnt == s.waitCommitCnt + (if CommitDue(s, env) then 1 else 0)
    && (forall p :: r.stops[p] == s.stops[p] + (if p in s.started && p in Parts(s.removed) then 1 else 0))
    && (forall p :: p in r.started <==> p in s.started || (!Blocked(s, env) && StartableIn(s.pending, p)))
    && (forall e :: e in Sent(s, r) <==> Sends(s, env, r, e))
    && (forall t :: Leaves(s, env, r, t))
  }

  /** The partition is on the list with an offset to start from. */
  ghost predicate StartableIn(ts: seq<Tp>, p: Part) {
    exists t :: t in ts && t.part == p && CanStart(t.offset)
  }

  /** `serve`, exactly. */
  lemma ServeExact(s: State, env: Env)
    requires Inv(s)
    ensures Serve(s, env).Ok? && Serves(s, env, Serve(s, env).s)
  {
    hide Inv, Serve, Sends, Leaves, CommitDue, WithStored, Blocked, StartableIn;
    ServeInv(s, env);
    ServeSame(s, env);
    var r := Serve(s, env).s;
    forall p
      ensures r.stops[p] == s.stops[p] + (if p in s.started && p in Parts(s.removed) then 1 else 0)
      ensures p in r.started <==> p in s.started || (!Blocked(s, env) && StartableIn(s.pending, p))
    {
      ServeFetchers(s, env, p);
    }
    forall e ensures e in Sent(s, r) <==> Sends(s, env, r, e) {
      ServeSends(s, env, e);
    }
    forall t ensures Leaves(s, env, r, t) {
      ServeLeaves(s, env, t);
    }
  }

  lemma ServeSame(s: State, env: Env)
    requires Inv(s)
    ensures Serve(s, env).Ok?
    ensures var r := Serve(s, env).s;
      && s.log <= r.log && r.all == s.all && r.removed == [] && r.version == s.version
      && r.flagged == s.flagged - Parts(s.removed)
      && r.waitCommitCnt == s.waitCommitCnt + (if CommitDue(s, env) then 1 else 0)
  {
    hide Lists, NoRestop, Fetchers, Serve, AfterRemovals, ServePending, CommitDue, Blocked;
    var s1, s2, pend := ServeParts(s, env);
    RemovalsExact(s, env, AssignmentDone);
    if pend {
      PendingSame(s1, env);
      ServePendingSent(s1, env);
    }
  }

  lemma {:induction false} PendFromSame(s: State, n: nat, canQuery: bool)
    requires n <= |s.pending| && PendFrom(s, n, canQuery).Ok?
    ensures var r := PendFrom(s, n, canQuery).s; r.all == s.all && r.flagged == s.flagged
    decreases n
  {
    hide Startable;
    if n != 0 {
      PendFromSame(PendOne(s, n - 1, canQuery).s, n - 1, canQuery);
    }
  }

  lemma PendingSame(s: State, env: Env)
    requires ServePending(s, env).Ok?
    ensures ServePending(s, env).s.all == s.all && ServePending(s, env).s.flagged == s.flagged
  {
    hide PendFrom;
    PendFromSame(s, |s.pending|, CanQuery(s, env));
  }

  lemma ServeLeaves(s: State, env: Env, t: Tp)
    requires Inv(s)
    ensures Serve(s, env).Ok? && Leaves(s, env, Serve(s, env).s, t)
  {
    hide Lists, NoRestop, Fetchers, Serve, AfterRemovals, ServePending, CommitDue, Blocked, CanStart;
    var s1, s2, pend := ServeParts(s, env);
    RemovalsExact(s, env, AssignmentDone);
    ServedFirst(s, env);
    if pend {
      PendingExact(s1, env, t, AssignmentDone);
    }
  }

  /** A query goes out only when there is something to ask. */
  lemma QueriedNow(s: State, env: Env)
    requires ServePending(s, env).Ok? && s.waitStopCnt == 0 && s.waitCommitCnt == 0 && env.coordinator && s.queried == []
    ensures ServePending(s, env).s.queried != [] <==> AnyToAsk(s.pending)
  {
    hide ServePending, CanStart;
    var r := ServePending(s, env).s;
    if r.queried != [] {
      PendingExact(s, env, r.queried[0], AssignmentDone);
      assert r.queried[0] in r.queried;
    }
    if AnyToAsk(s.pending) {
      var t :| t in s.pending && !CanStart(t.offset);
      PendingExact(s, env, t, AssignmentDone);
    }
  }

  lemma NoneIn(p: Part, o: int)
    ensures !EntryIn([], p, o) && !AnyToAsk([])
  {}

  /** What is sent comes from one of the three parts of `serve`. */
  lemma ServeSentParts(s: State, env: Env, e: Effect) returns (s1: State, s2: State, pend: bool)
    requires Inv(s)
    ensures Serve(s, env).Ok? && s1 == AfterRemovals(s, env)
    ensures s.log <= s1.log <= s2.log && s.log <= Serve(s, env).s.log
    ensures pend == (s1.waitStopCnt == 0 && s1.waitCommitCnt == 0 && s1.pending != [])
    ensures if pend then ServePending(s1, env) == Ok(s2) else s2 == s1
    ensures Serve(s, env).s.queried == s2.queried
    ensures !e.AssignmentDone? ==> (e in Sent(s, Serve(s, env).s) <==> e in Sent(s, s1) || e in Sent(s1, s2))
  {
    hide Lists, NoRestop, Fetchers, Serve, AfterRemovals, ServePending;
    s1, s2, pend := ServeParts(s, env);
    var r := Serve(s, env).s;
    assert Sent(s, r) == Sent(s, s1) + Sent(s1, s2) + Sent(s2, r);
    assert Sent(s2, r) == [] || Sent(s2, r) == [AssignmentDone];
  }

  lemma ServeSends(s: State, env: Env, e: Effect)
    requires Inv(s)
    ensures Serve(s, env).Ok? && s.log <= Serve(s, env).s.log
    ensures e in Sent(s, Serve(s, env).s) <==> Sends(s, env, Serve(s, env).s, e)
  {
    hide Inv, Serve, AfterRemovals, ServePending, CommitDue, Blocked, CanStart, WithStored, EntryIn, AnyToAsk;
    if e.AssignmentDone? {
      ServeSignals(s, env);
      ServeSame(s, env);
      CountsKept(s, env);
    } else {
      var s1, s2, pend := ServeSentParts(s, env, e);
      RemovalsExact(s, env, e);
      ServedFirst(s, env);
      if pend {
        PendingExact(s1, env, Tp(0, 0, 0), e);
        if env.coordinator && s1.queried == [] {
          QueriedNow(s1, env);
        }
      } else {
        NoneIn(if e.StartFetcher? then e.part else 0, if e.StartFetcher? then e.offset else 0);
      }
    }
  }

  lemma CountsKept(s: State, env: Env)
    requires Inv(s)
    ensures Serve(s, env).Ok? && var r := Serve(s, env).s; r.waitStopCnt >= 0 && r.waitCommitCnt >= 0
  {
    hide Serve;
    ServeInv(s, env);
  }

  lemma {:induction false} PendFromFetchers(s: State, n: nat, canQuery: bool, p: Part)
    requires n <= |s.pending| && PendFrom(s, n, canQuery).Ok?
    ensures var r := PendFrom(s, n, canQuery).s;
      r.stops == s.stops && (p in r.started <==> p in s.started || StartableIn(s.pending[..n], p))
    decreases n
  {
    hide Startable, CanStart, PendOne, StartableIn;
    if n == 0 {
      NoneStartable(p);
    } else {
      var t, s' := s.pending[n - 1], PendOne(s, n - 1, canQuery).s;
      PendOneMoves(s, n - 1, canQuery);
      PendOneFetchers(s, n - 1, canQuery);
      PendFromFetchers(s', n - 1, canQuery, p);
      assert s.pending[..n] == s.pending[..n - 1] + [t];
      StartableSnoc(s.pending[..n - 1], t, p);
    }
  }

  lemma NoneStartable(p: Part)
    ensures !StartableIn([], p)
  {}

  lemma StartableSnoc(ts: seq<Tp>, t: Tp, p: Part)
    ensures StartableIn(ts + [t], p) <==> StartableIn(ts, p) || (t.part == p && CanStart(t.offset))
  {
    hide CanStart;
    assert (ts + [t])[|ts|] == t;
    forall u | u in ts ensures u in ts + [t] {}
  }

  lemma PendOneFetchers(s: State, n: nat, canQuery: bool)
    requires n < |s.pending| && PendOne(s, n, canQuery).Ok?
    ensures var r, t := PendOne(s, n, canQuery).s, s.pending[n];
      r.stops == s.stops && r.started == s.started + (if CanStart(t.offset) then {t.part} else {})
  {
    hide Startable, CanStart;
    CanStartExact(s.pending[n].offset);
  }

  lemma PendingFetchers(s: State, env: Env, p: Part)
    requires ServePending(s, env).Ok?
    ensures var r := ServePending(s, env).s;
      r.stops == s.stops && (p in r.started <==> p in s.started || StartableIn(s.pending, p))
  {
    hide PendFrom, StartableIn;
    assert s.pending[..|s.pending|] == s.pending;
    PendFromFetchers(s, |s.pending|, CanQuery(s, env), p);
  }

  lemma RemovalFetchers(s: State, env: Env, p: Part)
    requires Inv(s)
    ensures AfterRemovals(s, env).stops[p] == s.stops[p] + (if p in s.started && p in Parts(s.removed) then 1 else 0)
  {
    hide RemoveEach, AnyValid;
    RemoveEachStops(s, s.removed);
  }

  lemma ServeFetchers(s: State, env: Env, p: Part)
    requires Inv(s)
    ensures Serve(s, env).Ok?
    ensures Serve(s, env).s.stops[p] == s.stops[p] + (if p in s.started && p in Parts(s.removed) then 1 else 0)
    ensures p in Serve(s, env).s.started <==> p in s.started || (!Blocked(s, env) && StartableIn(s.pending, p))
  {
    hide Lists, NoRestop, Fetchers, Serve, AfterRemovals, ServePending, CommitDue, Blocked, StartableIn;
    var s1, s2, pend := ServeParts(s, env);
    RemovalsExact(s, env, AssignmentDone);
    RemovalFetchers(s, env, p);
    ServedFirst(s, env);
    NoneStartable(p);
    if pend {
      PendingFetchers(s1, env, p);
    }
  }

  // ------------------------------------------------------------------ replies, exactly

  /** The answer at `k` is the first for its partition, which was asked for. */
  ghost predicate FirstAnswer(s: State, offsets: seq<Tp>, k: int) {
    0 <= k < |offsets| && offsets[k].part in Parts(s.queried) && offsets[k].part !in Parts(offsets[..k])
  }

  /** An answer to use: no error, or a transaction that blocks the retrieval. */
  predicate Usable(t: Tp, err: int) {
    err == 88 || t.err == 88 || (err == 0 && t.err == 0)
  }

  lemma ApplyOneExact(s: State, o: Tp, err: int, t: Tp)
    requires Inv(s)
    ensures var r := ApplyOne(s, o, err);
      && (t in r.pending <==> t in s.pending || (t == o && o.part in Parts(s.queried) && Usable(o, err)))
      && (t in r.queried <==> t in s.queried && t.part != o.part)
      && r.all == s.all && r.removed == s.removed && r.version == s.version
  {
    hide Fetchers, NoRestop;
    DelParts(s.queried, o.part);
  }

  /**
    Exactly what a reply puts on `pending` and leaves on `queried`: the first usable answer
    for each partition that was asked for goes on `pending`, and every partition that was
    answered at all leaves `queried`.
   */
  lemma {:induction false} ApplyExact(s: State, offsets: seq<Tp>, err: int, t: Tp)
    requires Inv(s)
    ensures var r := ApplyEach(s, offsets, err);
      && (t in r.pending <==>
            t in s.pending || exists k :: FirstAnswer(s, offsets, k) && offsets[k] == t && Usable(t, err))
      && (t in r.queried <==> t in s.queried && t.part !in Parts(offsets))
      && r.all == s.all && r.removed == s.removed && r.version == s.version
    decreases |offsets|
  {
    hide Inv, ApplyOne, Usable;
    if offsets == [] {
      NoAnswer(s);
    } else {
      var o, rest := offsets[0], offsets[1..];
      var s' := ApplyOne(s, o, err);
      assert offsets == [o] + rest;
      PartsCons(o, rest);
      ApplyOneExact(s, o, err, t);
      ApplyOneEffect(s, o, err);
      ApplyExact(s', rest, err, t);
      FirstAnswerCons(s, s', o, rest);
      var r := ApplyEach(s, offsets, err);
      if exists k :: FirstAnswer(s, offsets, k) && offsets[k] == t && Usable(t, err) {
        var k :| FirstAnswer(s, offsets, k) && offsets[k] == t && Usable(t, err);
        assert k > 0 ==> FirstAnswer(s', rest, k - 1) && rest[k - 1] == t;
      }
      if t in r.pending && t !in s.pending {
        if t in s'.pending {
          assert FirstAnswer(s, offsets, 0) && offsets[0] == t;
        } else {
          var k :| FirstAnswer(s', rest, k) && rest[k] == t && Usable(t, err);
          assert FirstAnswer(s, offsets, k + 1) && offsets[k + 1] == t;
        }
      }
    }
  }

  lemma NoAnswer(s: State)
    ensures forall k :: !FirstAnswer(s, [], k)
  {}

  /** The first answers of a list: its head, and those of the rest for other partitions. */
  lemma FirstAnswerCons(s: State, r: State, o: Tp, rest: seq<Tp>)
    requires Parts(r.queried) == Parts(s.queried) - {o.part}
    ensures FirstAnswer(s, [o] + rest, 0) <==> o.part in Parts(s.queried)
    ensures forall k :: FirstAnswer(s, [o] + rest, k) ==> k == 0 || FirstAnswer(r, rest, k - 1)
    ensures forall k :: FirstAnswer(s, [o] + rest, k) ==> 0 <= k <= |rest|
    ensures forall k :: FirstAnswer(r, rest, k) ==> FirstAnswer(s, [o] + rest, k + 1) && ([o] + rest)[k + 1] == rest[k]
    ensures forall k :: FirstAnswer(s, [o] + rest, k) && k > 0 ==> ([o] + rest)[k] == rest[k - 1]
  {
    var all := [o] + rest;
    assert all[..0] == [];
    forall k | 0 < k < |all| ensures all[k] == rest[k - 1] && Parts(all[..k]) == {o.part} + Parts(rest[..k - 1]) {
      assert all[..k] == [o] + rest[..k - 1];
      PartsCons(o, rest[..k - 1]);
    }
    forall k | 0 <= k < |rest| ensures all[k + 1] == rest[k] && Parts(all[..k + 1]) == {o.part} + Parts(rest[..k]) {
      assert all[..k + 1] == [o] + rest[..k];
      PartsCons(o, rest[..k]);
    }
  }

  /** The state after the answers of a reply are applied, before the closing `serve`. */
  ghost predicate Applied(s: State, i: nat, offsets: seq<Tp>, err: int, m: State)
    requires i < |s.queries|
  {
    && Inv(m) && m.all == s.all && m.removed == s.removed && m.version == s.version && m.log == s.log
    && m.queries == s.queries[..i] + s.queries[i + 1..]
    && m.started == s.started && m.waitStopCnt == s.waitStopCnt && m.waitCommitCnt == s.waitCommitCnt
    && (forall t :: t in m.pending <==>
          t in s.pending || exists k :: FirstAnswer(s, offsets, k) && offsets[k] == t && Usable(t, err))
    && (forall t :: t in m.queried <==> t in s.queried && t.part !in Parts(offsets))
  }

  /** An OffsetFetch reply, exactly: its answers are applied, then it serves. */
  lemma ReplyExact(s: State, i: nat, offsets: seq<Tp>, err: int, env: Env) returns (m: State)
    requires Inv(s) && i < |s.queries|
    ensures Applied(s, i, offsets, err, m)
    ensures HandleOffsetFetch(s, i, Offsets(offsets, err), env).Ok?
    ensures var r := HandleOffsetFetch(s, i, Offsets(offsets, err), env).s;
      if offsets == [] then r == m else Serves(m, env, r)
  {
    hide Lists, Fetchers, NoRestop, Serve, Serves, ApplyEach, Usable;
    var s' := s.(queries := s.queries[..i] + s.queries[i + 1..]);
    QueriesInv(s, s'.queries);
    ApplyEachInv(s', offsets, err);
    ApplyEachSame(s', offsets, err);
    ApplyEachEffect(s', offsets, err);
    m := ApplyEach(s', offsets, err);
    SameFirst(s, s', offsets);
    forall t
      ensures t in m.pending <==>
        t in s.pending || exists k :: FirstAnswer(s, offsets, k) && offsets[k] == t && Usable(t, err)
      ensures t in m.queried <==> t in s.queried && t.part !in Parts(offsets)
    {
      ApplyExact(s', offsets, err, t);
    }
    ApplyExact(s', offsets, err, Tp(0, 0, 0));
    ServeExact(m, env);
    NoneApplied(s', err);
  }

  lemma NoneApplied(s: State, err: int)
    ensures ApplyEach(s, [], err) == s
  {}

  lemma SameFirst(s: State, r: State, offsets: seq<Tp>)
    requires s.queried == r.queried
    ensures forall k :: FirstAnswer(s, offsets, k) <==> FirstAnswer(r, offsets, k)
  {}

  /** A reply without offsets, or while the client ends, changes nothing but what is outstanding. */
  lemma EmptyReplies(s: State, i: nat, reply: Reply, env: Env)
    requires i < |s.queries| && !reply.Offsets? && HandleOffsetFetch(s, i, reply, env).Ok?
    ensures var r := HandleOffsetFetch(s, i, reply, env).s;
      r == if reply.Retrying? then s else s.(queries := s.queries[..i] + s.queries[i + 1..])
  {}

  lemma EarlierParts(offsets: seq<Tp>)
    ensures forall j, k :: 0 <= j < k < |offsets| ==> offsets[j].part in Parts(offsets[..k])
  {
    forall j, k | 0 <= j < k < |offsets| ensures offsets[j].part in Parts(offsets[..k]) {
      assert offsets[..k][j] == offsets[j];
    }
  }

  lemma FirstOnly(s: State, offsets: seq<Tp>, k: int)
    requires FirstAnswer(s, offsets, k)
    ensures forall j :: FirstAnswer(s, offsets, j) && offsets[j].part == offsets[k].part ==> j == k
  {
    EarlierParts(offsets);
  }

  /**
    A partition whose first answer is an error, or whose request failed, stays assigned but
    neither waits nor is queried, and is not started: it takes another assignment.
   */
  lemma ErrorReply(s: State, i: nat, offsets: seq<Tp>, err: int, env: Env, k: nat)
    requires Inv(s) && i < |s.queries| && FirstAnswer(s, offsets, k) && !Usable(offsets[k], err)
    ensures HandleOffsetFetch(s, i, Offsets(offsets, err), env).Ok?
    ensures var r, x := HandleOffsetFetch(s, i, Offsets(offsets, err), env).s, offsets[k].part;
      && x in Parts(r.all) && x !in Parts(r.pending) && x !in Parts(r.queried)
      && s.log <= r.log && (forall o :: StartFetcher(x, o) !in Sent(s, r)) && x !in r.started
  {
    hide NoRestop, Usable, HandleOffsetFetch, CommitDue, Blocked, WithStored;
    var x := offsets[k].part;
    var m := ReplyExact(s, i, offsets, err, env);
    var r := HandleOffsetFetch(s, i, Offsets(offsets, err), env).s;
    PartsOf(s.pending, x);
    PartsOf(m.pending, x);
    PartsOf(m.queried, x);
    assert offsets[k] in offsets;
    FirstOnly(s, offsets, k);
    if offsets != [] {
      NotServed(m, env, r, x);
      assert Sent(s, r) == Sent(m, r);
    }
  }

  lemma PartsOf(ts: seq<Tp>, x: Part)
    ensures x in Parts(ts) <==> exists t :: t in ts && t.part == x
  {}

  /** `serve` does nothing for a partition that is on neither list. */
  lemma NotServed(m: State, env: Env, r: State, x: Part)
    requires Serves(m, env, r) && (forall t :: t in m.pending || t in m.queried ==> t.part != x)
    ensures x !in Parts(r.pending) && x !in Parts(r.queried) && (x in r.started <==> x in m.started)
    ensures forall o :: StartFetcher(x, o) !in Sent(m, r)
  {
    hide CommitDue, Blocked, WithStored, CanStart, AnyToAsk;
    PartsOf(r.pending, x);
    PartsOf(r.queried, x);
    forall t | t in r.pending || t in r.queried ensures t.part != x {
      assert Leaves(m, env, r, t);
    }
    forall o ensures StartFetcher(x, o) !in Sent(m, r) {
      assert StartFetcher(x, o) in Sent(m, r) <==> Sends(m, env, r, StartFetcher(x, o));
    }
    assert !StartableIn(m.pending, x);
  }

  // ------------------------------------------------------------------ add and subtract, exactly

  /** An offset that may be given to `add`: one to start from, or the committed one. */
  predicate Acceptable(offset: int) {
    CanStart(offset) || offset == Committed
  }

  lemma {:induction false} CheckAddExact(all: seq<Tp>, ps: seq<Tp>, i: nat)
    requires i <= |ps|
    ensures CheckAdd(all, ps, i) == [] <==>
      forall k :: i <= k < |ps| ==>
        Acceptable(ps[k].offset) && (k > 0 ==> ps[k].part != ps[k - 1].part) && ps[k].part !in Parts(all)
    ensures (forall k :: i <= k < |ps| ==> ps[k].part !in Parts(all)) ==> CheckAdd(all, ps, i) != [Conflict]
    ensures (forall k :: i <= k < |ps| ==> Acceptable(ps[k].offset) && (k > 0 ==> ps[k].part != ps[k - 1].part)) ==>
      CheckAdd(all, ps, i) != [InvalidArg]
    decreases |ps| - i
  {
    if i < |ps| {
      CheckAddExact(all, ps, i + 1);
    }
  }

  /** What `add` stores: INVALID, the default, means the committed offset. */
  function StartAt(t: Tp): Tp {
    if t.offset == -1001 then t.(offset := -1000) else t
  }

  /** What an accepted `add` does to the state. */
  ghost predicate Extends(s: State, ps: seq<Tp>, r: State) {
    && r.log == s.log && r.queried == s.queried && r.queries == s.queries && r.removed == s.removed
    && r.started == s.started && r.startedCnt == s.startedCnt && r.stops == s.stops
    && r.waitStopCnt == s.waitStopCnt && r.waitCommitCnt == s.waitCommitCnt
    && r.version == s.version + 1 && r.flagged == s.flagged + Parts(ps)
    && (forall t :: t in r.pending <==> t in s.pending || exists u :: u in ps && t == StartAt(u))
    && (forall t :: t in r.all <==> t in s.all || exists u :: u in ps && t == StartAt(u))
    && |r.all| == |s.all| + |ps| && |r.pending| == |s.pending| + |ps|
    && (Sorted(s.all) ==> Sorted(r.all)) && s.pending <= r.pending && Sorted(r.pending[|s.pending|..])
  }

  /** Which lists `add` takes, and what for. */
  lemma AddExact(s: State, ps: seq<Tp>)
    requires Inv(s)
    ensures Add(s, ps).Added? <==>
      Distinct(ps) && Parts(ps) !! Parts(s.all) && forall t :: t in ps ==> Acceptable(t.offset)
    ensures Parts(ps) !! Parts(s.all) ==> Add(s, ps) != Rejected(Conflict)
    ensures Distinct(ps) && (forall t :: t in ps ==> Acceptable(t.offset)) ==> Add(s, ps) != Rejected(InvalidArg)
    ensures Add(s, ps).Added? && Add(s, ps).res.Ok? ==> Extends(s, ps, Add(s, ps).res.s)
  {
    hide Sort, CheckAdd, FlagEach, Stored, Acceptable, Fetchers, NoRestop, Lists;
    var q := Sort(ps);
    SortParts(ps);
    SortCorrect(ps);
    CheckAddExact(s.all, q, 0);
    SameMembers(ps, q);
    SortedNeighbours(q);
    PartsByIndex(q, s.all);
    MembersByIndex(q);
    if Add(s, ps).Added? && Add(s, ps).res.Ok? {
      AddedExact(s, ps);
    }
  }

  lemma SameMembers(a: seq<Tp>, b: seq<Tp>)
    requires multiset(a) == multiset(b)
    ensures |a| == |b| && forall t :: t in a <==> t in b
  {
    assert |multiset(a)| == |a| && |multiset(b)| == |b|;
    assert forall t :: t in a <==> t in multiset(a);
    assert forall t :: t in b <==> t in multiset(b);
  }

  lemma SortedNeighbours(q: seq<Tp>)
    requires Sorted(q)
    ensures Distinct(q) <==> forall k :: 0 < k < |q| ==> q[k].part != q[k - 1].part
  {
    if forall k :: 0 < k < |q| ==> q[k].part != q[k - 1].part {
      NeighboursSuffice(q);
    }
  }

  lemma PartsByIndex(q: seq<Tp>, all: seq<Tp>)
    ensures Parts(q) !! Parts(all) <==> forall k :: 0 <= k < |q| ==> q[k].part !in Parts(all)
  {
    if forall k :: 0 <= k < |q| ==> q[k].part !in Parts(all) {
      forall p | p in Parts(q) ensures p !in Parts(all) {
        PartsOf(q, p);
      }
    }
  }

  lemma MembersByIndex(q: seq<Tp>)
    ensures (forall t :: t in q ==> Acceptable(t.offset)) <==> forall k :: 0 <= k < |q| ==> Acceptable(q[k].offset)
  {
    hide Acceptable;
  }

  /** An accepted `add`, field by field. */
  lemma AddedFields(s: State, ps: seq<Tp>)
    requires Inv(s) && Add(s, ps).Added? && Add(s, ps).res.Ok?
    ensures var r, qs := Add(s, ps).res.s, StoredAll(Sort(ps));
      r == s.(all := (if s.all != [] then Sort(s.all + qs) else s.all + qs), pending := s.pending + qs,
              flagged := s.flagged + Parts(ps), version := s.version + 1)
  {
    hide Sort, CheckAdd, FlagEach, Stored, Fetchers, NoRestop, Lists;
    AcceptedInput(s, ps);
    FlagEachOk(s, StoredAll(Sort(ps)));
  }

  lemma AddedExact(s: State, ps: seq<Tp>)
    requires Inv(s) && Add(s, ps).Added? && Add(s, ps).res.Ok?
    ensures Extends(s, ps, Add(s, ps).res.s)
  {
    hide Add, Sort, Inv, Sorted, StartAt;
    AddedFields(s, ps);
    var qs := StoredAll(Sort(ps));
    StoredMembers(ps);
    SortCorrect(ps);
    SameMembers(ps, Sort(ps));
    var all := s.all + qs;
    SortCorrect(all);
    SameMembers(all, Sort(all));
    StoredSorted(ps);
    if s.all == [] {
      assert all == qs;
    }
  }

  lemma StoredSorted(ps: seq<Tp>)
    ensures Sorted(StoredAll(Sort(ps)))
  {
    hide Sort;
    SortCorrect(ps);
  }

  lemma StoredMembers(ps: seq<Tp>)
    ensures forall t :: t in StoredAll(Sort(ps)) <==> exists u :: u in ps && t == StartAt(u)
  {
    hide Sort;
    var q := Sort(ps);
    SortCorrect(ps);
    SameMembers(ps, q);
    forall t | t in StoredAll(q) ensures exists u :: u in ps && t == StartAt(u) {
      var k :| 0 <= k < |q| && StoredAll(q)[k] == t;
      assert t == StartAt(q[k]) && q[k] in ps;
    }
    forall u | u in ps ensures StartAt(u) in StoredAll(q) {
      var k :| 0 <= k < |q| && q[k] == u;
      assert StoredAll(q)[k] == StartAt(u);
    }
  }

  /** `r` is `s` without the partitions `ps`; the entries of `gone` wait to be decommissioned. */
  ghost predicate Shrinks(s: State, ps: set<Part>, gone: seq<Tp>, r: State) {
    && r.log == s.log && r.queries == s.queries && r.flagged == s.flagged
    && r.started == s.started && r.startedCnt == s.startedCnt && r.stops == s.stops
    && r.waitStopCnt == s.waitStopCnt && r.waitCommitCnt == s.waitCommitCnt
    && (forall t :: t in r.all <==> t in s.all && t.part !in ps)
    && (forall t :: t in r.pending <==> t in s.pending && t.part !in ps)
    && (forall t :: t in r.queried <==> t in s.queried && t.part !in ps)
    && (forall t :: t in r.removed <==> t in s.removed || t in gone)
    && s.removed <= r.removed && |r.removed| == |s.removed| + |gone|
  }

  lemma SubOneExact(s: State, t: Tp)
    requires Lists(s) && t.part in Parts(s.all)
    ensures SubOne(s, t).Ok? && Shrinks(s, {t.part}, [t], SubOne(s, t).s) && SubOne(s, t).s.version == s.version
  {
    DelParts(s.all, t.part);
    DelParts(s.queried, t.part);
    DelParts(s.pending, t.part);
    PartsOf(s.pending, t.part);
    PartsOf(s.queried, t.part);
  }

  lemma ShrinksTwice(s: State, m: State, r: State, t: Tp, ps: set<Part>, gone: seq<Tp>)
    requires Shrinks(s, {t.part}, [t], m) && Shrinks(m, ps, gone, r)
    ensures Shrinks(s, ps + {t.part}, gone + [t], r)
  {}

  lemma {:induction false} SubFromExact(s: State, ps: seq<Tp>, n: nat)
    requires Lists(s) && Fetchers(s) && n <= |ps| && SubFrom(s, ps, n).Ok?
    ensures Shrinks(s, Parts(ps[..n]), ps[..n], SubFrom(s, ps, n).s) && SubFrom(s, ps, n).s.version == s.version
    decreases n
  {
    hide Lists, Fetchers, SubOne, Shrinks, Parts;
    if n == 0 {
      assert ps[..0] == [];
      NoShrink(s);
    } else {
      var t := ps[n - 1];
      PrefixParts(ps, n);
      SubFromInv(s, ps, n);
      SubOneExact(s, t);
      SubOneInv(s, t);
      SubFromExact(SubOne(s, t).s, ps, n - 1);
      ShrinksTwice(s, SubOne(s, t).s, SubFrom(s, ps, n).s, t, Parts(ps[..n - 1]), ps[..n - 1]);
      assert ps[..n] == ps[..n - 1] + [t];
    }
  }

  lemma NoShrink(s: State)
    ensures Shrinks(s, Parts([]), [], s)
  {}

  lemma ShrinksSame(s: State, ps: set<Part>, a: seq<Tp>, b: seq<Tp>, r: State, v: int)
    requires Shrinks(s, ps, a, r) && |a| == |b| && forall t :: t in a <==> t in b
    ensures Shrinks(s, ps, b, r.(version := v))
  {}

  /** Which lists `subtract` takes, and what for. */
  lemma SubtractExact(s: State, ps: seq<Tp>)
    requires Inv(s)
    ensures Subtract(s, ps).Added? <==> Parts(ps) <= Parts(s.all)
    ensures !(Parts(ps) <= Parts(s.all)) ==> Subtract(s, ps) == Rejected(InvalidArg)
    ensures Parts(ps) <= Parts(s.all) && Distinct(ps) ==>
      Subtract(s, ps).res.Ok? && Shrinks(s, Parts(ps), ps, Subtract(s, ps).res.s)
      && Subtract(s, ps).res.s.version == s.version + 1
  {
    hide Sort, SubFrom, CheckSubtract, Lists, Fetchers, Shrinks;
    var q := Sort(ps);
    SortParts(ps);
    SortCorrect(ps);
    SameMembers(ps, q);
    CheckSubtractOk(s.all, q, 0);
    assert q[0..] == q && q[..|q|] == q;
    NothingAssigned(s, ps);
    if Parts(ps) <= Parts(s.all) && Distinct(ps) {
      SubtractInv(s, ps);
      SubFromExact(s, q, |q|);
      ShrinksSame(s, Parts(ps), q, ps, SubFrom(s, q, |q|).s, s.version + 1);
    }
  }

  lemma NothingAssigned(s: State, ps: seq<Tp>)
    ensures s.all == [] && ps != [] ==> !(Parts(ps) <= Parts(s.all))
  {
    if s.all == [] && ps != [] {
      assert ps[0].part in Parts(ps) && ps[0].part !in Parts(s.all);
    }
  }

  /** `clear` takes every partition off, and does nothing when there is none. */
  lemma ClearExact(s: State)
    requires Inv(s)
    ensures Shrinks(s, Parts(s.all), s.all, Clear(s))
    ensures Clear(s).version == s.version + (if s.all != [] then 1 else 0)
    ensures s.all == [] ==> Clear(s) == s
  {
    hide Fetchers, NoRestop;
    PartsConcat(s.removed, s.all);
    if s.all == [] {
      LeftOverNone(s);
    } else {
      ClearMembers(s.all, s.all);
      ClearMembers(s.pending, s.all);
      ClearMembers(s.queried, s.all);
    }
  }

  lemma ClearMembers(ts: seq<Tp>, all: seq<Tp>)
    requires Parts(ts) <= Parts(all)
    ensures forall t :: t in ts ==> t.part in Parts(all)
  {
    forall t | t in ts ensures t.part in Parts(all) {
      assert t.part in Parts(ts);
    }
  }

  // ------------------------------------------------------------------ stops and commits, exactly

  /** A stop reply ends the fetcher; the last one outstanding serves. */
  lemma StoppedExact(s: State, p: Part, env: Env) returns (m: State)
    requires Inv(s) && p in s.stops
    ensures m.started == s.started - {p} && m.startedCnt == s.startedCnt - 1
    ensures m.stops == s.stops - multiset{p} && m.waitStopCnt == s.waitStopCnt - 1
    ensures m == s.(started := m.started, startedCnt := m.startedCnt, stops := m.stops, waitStopCnt := m.waitStopCnt)
    ensures Stopped(s, p, env).Ok?
    ensures if s.waitStopCnt > 1 then Stopped(s, p, env).s == m else Serves(m, env, Stopped(s, p, env).s)
  {
    hide Serve, Serves;
    m := s.(waitStopCnt := s.waitStopCnt - 1, started := s.started - {p},
            startedCnt := s.startedCnt - 1, stops := s.stops - multiset{p});
    StopTaken(s, p, m);
    StoppedInv(s, p, env);
    ServeExact(m, env);
  }

  /** So does the last commit reply. */
  lemma CommitExact(s: State, env: Env)
    requires Inv(s) && s.waitCommitCnt > 0
    ensures CommitDone(s, env).Ok?
    ensures var m := s.(waitCommitCnt := s.waitCommitCnt - 1);
      if s.waitCommitCnt > 1 then CommitDone(s, env).s == m else Serves(m, env, CommitDone(s, env).s)
  {
    hide Serve, Serves;
    CommitTaken(s);
    ServeExact(s.(waitCommitCnt := s.waitCommitCnt - 1), env);
  }

  // ------------------------------------------------------------------ waiting for the committed offset

  /** The partition waits for its committed offset: on `pending` to be asked for, or asked for. */
  ghost predicate Awaits(s: State, x: Part) {
    EntryIn(s.pending, x, Committed) || x in Parts(s.queried)
  }

  lemma AwaitsOnly(s: State, x: Part)
    requires Inv(s) && Awaits(s, x)
    ensures forall t :: t in s.pending && t.part == x ==> t.offset == Committed
  {
    hide Fetchers, NoRestop;
    PartsOf(s.pending, x);
  }

  /** `serve` does not start it, and puts it on `queried` when it sends a query. */
  lemma ServeAwaits(s: State, env: Env, x: Part)
    requires Inv(s) && Awaits(s, x)
    ensures Serve(s, env).Ok? && s.log <= Serve(s, env).s.log
    ensures var r := Serve(s, env).s;
      && Awaits(r, x) && (forall o :: StartFetcher(x, o) !in Sent(s, r))
      && (forall q :: SendQuery(q) in Sent(s, r) ==> x in Parts(r.queried) && x in Parts(q.parts))
  {
    hide Inv, Serve, CommitDue, Blocked, WithStored, AnyToAsk;
    ServeExact(s, env);
    AwaitsOnly(s, x);
    var r := Serve(s, env).s;
    forall o ensures StartFetcher(x, o) !in Sent(s, r) {
      assert StartFetcher(x, o) in Sent(s, r) <==> Sends(s, env, r, StartFetcher(x, o));
    }
    forall q ensures SendQuery(q) in Sent(s, r) ==> Asks(s, env) && q.parts == r.queried {
      assert SendQuery(q) in Sent(s, r) <==> Sends(s, env, r, SendQuery(q));
    }
    PartsOf(s.queried, x);
    PartsOf(r.queried, x);
    if EntryIn(s.pending, x, Committed) {
      var t :| t in s.pending && t.part == x && t.offset == Committed;
      assert Leaves(s, env, r, t);
    } else {
      var t :| t in s.queried && t.part == x;
      assert Leaves(s, env, r, t);
    }
  }

  /** The event is a reply that names the partition. */
  predicate Names(e: Event, x: Part) {
    e.EvReply? && e.reply.Offsets? && x in Parts(e.reply.offsets)
  }

  lemma SameAwaits(s: State, r: State, x: Part)
    requires Awaits(s, x)
    requires forall t :: t in s.pending && t.part == x ==> t in r.pending
    requires forall t :: t in s.queried && t.part == x ==> t in r.queried
    ensures Awaits(r, x)
  {
    PartsOf(s.queried, x);
    PartsOf(r.queried, x);
  }

  lemma StepAwaits(s: State, e: Event, x: Part)
    requires Inv(s) && Possible(s, e) && Allowed(s, e) && Awaits(s, x) && Keeps(e, x) && !Names(e, x)
    ensures Step(s, e).Ok? && s.log <= Step(s, e).s.log
    ensures Awaits(Step(s, e).s, x) && forall o :: StartFetcher(x, o) !in Sent(s, Step(s, e).s)
  {
    hide Lists, Fetchers, NoRestop, Add, Subtract, Serve, Distinct, ApplyEach, Awaits, Serves, FirstAnswer, Usable, Shrinks, Extends;
    StepExact(s, e);
    match e {
      case EvAdd(ps) => AddAwaits(s, ps, x);
      case EvSubtract(ps) => SubtractAwaits(s, ps, x);
      case EvClear =>
      case EvServe(env) => ServeAwaits(s, env, x);
      case EvStopped(q, env) =>
        var m := s.(waitStopCnt := s.waitStopCnt - 1, started := s.started - {q},
                    startedCnt := s.startedCnt - 1, stops := s.stops - multiset{q});
        StopTaken(s, q, m);
        SameAwaits(s, m, x);
        ServeAwaits(m, env, x);
      case EvCommitSent => SameAwaits(s, Step(s, e).s, x);
      case EvCommitDone(env) =>
        CommitTaken(s);
        var m := s.(waitCommitCnt := s.waitCommitCnt - 1);
        SameAwaits(s, m, x);
        ServeAwaits(m, env, x);
      case EvReply(i, reply, env) => ReplyAwaits(s, i, reply, env, x);
    }
  }

  lemma AddAwaits(s: State, ps: seq<Tp>, x: Part)
    requires Inv(s) && Awaits(s, x) && OfAdd(s, Add(s, ps)).Ok?
    ensures var r := OfAdd(s, Add(s, ps)).s; r.log == s.log && Awaits(r, x)
  {
    hide Add, Inv, Awaits;
    if Add(s, ps).Added? {
      AddExact(s, ps);
      SameAwaits(s, Add(s, ps).res.s, x);
    }
  }

  lemma SubtractAwaits(s: State, ps: seq<Tp>, x: Part)
    requires Inv(s) && Awaits(s, x) && x !in Parts(ps) && OfAdd(s, Subtract(s, ps)).Ok?
    ensures var r := OfAdd(s, Subtract(s, ps)).s; r.log == s.log && Awaits(r, x)
  {
    hide Subtract, Inv, Awaits, Distinct;
    if Subtract(s, ps).Added? {
      SubtractInv(s, ps);
      SubtractExact(s, ps);
      SameAwaits(s, Subtract(s, ps).res.s, x);
    }
  }

  lemma ReplyAwaits(s: State, i: nat, reply: Reply, env: Env, x: Part)
    requires Inv(s) && Awaits(s, x) && i < |s.queries| && HandleOffsetFetch(s, i, reply, env).Ok?
    requires reply.Offsets? ==> x !in Parts(reply.offsets)
    ensures var r := HandleOffsetFetch(s, i, reply, env).s;
      s.log <= r.log && Awaits(r, x) && forall o :: StartFetcher(x, o) !in Sent(s, r)
  {
    hide Inv, Serve, ApplyEach, Awaits, Usable, FirstAnswer;
    if reply.Offsets? {
      var s' := s.(queries := s.queries[..i] + s.queries[i + 1..]);
      QueriesInv(s, s'.queries);
      ApplyEachInv(s', reply.offsets, reply.err);
      ApplyEachEffect(s', reply.offsets, reply.err);
      var m := ApplyEach(s', reply.offsets, reply.err);
      forall t
        ensures t in s.pending ==> t in m.pending
        ensures t in s.queried && t.part == x ==> t in m.queried
      {
        ApplyExact(s', reply.offsets, reply.err, t);
      }
      SameAwaits(s, m, x);
      ServeAwaits(m, env, x);
    } else {
      EmptyReplies(s, i, reply, env);
      SameAwaits(s, HandleOffsetFetch(s, i, reply, env).s, x);
    }
  }

  /** All events are possible and allowed when they happen. */
  ghost predicate AllowedFrom(s: State, es: seq<Event>)
    decreases |es|
  {
    es == [] ||
    (Possible(s, es[0]) && Allowed(s, es[0]) && Step(s, es[0]).Ok? && AllowedFrom(Step(s, es[0]).s, es[1..]))
  }

  lemma {:induction false} RunAwaits(s: State, es: seq<Event>, x: Part)
    requires Inv(s) && Awaits(s, x) && AllowedFrom(s, es)
    requires forall k :: 0 <= k < |es| ==> Keeps(es[k], x) && !Names(es[k], x)
    ensures RunFrom(s, es).Ok? && s.log <= RunFrom(s, es).s.log
    ensures Awaits(RunFrom(s, es).s, x) && forall o :: StartFetcher(x, o) !in Sent(s, RunFrom(s, es).s)
    decreases |es|
  {
    hide Inv, Allowed, Step, Possible, Keeps, Names, Awaits;
    if es != [] {
      StepExact(s, es[0]);
      StepAwaits(s, es[0], x);
      var s' := Step(s, es[0]).s;
      RunAwaits(s', es[1..], x);
      var r := RunFrom(s, es).s;
      assert Sent(s, r) == Sent(s, s') + Sent(s', r);
    }
  }

  /**
    A partition assigned with the default start offset, or with the committed one, is not
    started before a reply names it, however long that takes: it waits on `pending` until
    it is asked for, and then on `queried`.
   */
  lemma AddedAwaits(s: State, ps: seq<Tp>, t: Tp, es: seq<Event>)
    requires Inv(s) && t in ps && (t.offset == -1001 || t.offset == Committed)
    requires Add(s, ps).Added? && Allowed(s, EvAdd(ps)) && Step(s, EvAdd(ps)).Ok? && AllowedFrom(Step(s, EvAdd(ps)).s, es)
    requires forall k :: 0 <= k < |es| ==> Keeps(es[k], t.part) && !Names(es[k], t.part)
    ensures RunFrom(s, [EvAdd(ps)] + es).Ok? && s.log <= RunFrom(s, [EvAdd(ps)] + es).s.log
    ensures var r := RunFrom(s, [EvAdd(ps)] + es).s;
      Awaits(r, t.part) && forall o :: StartFetcher(t.part, o) !in Sent(s, r)
  {
    hide Inv, Add, AllowedFrom, Keeps, Names, RunFrom;
    var e := EvAdd(ps);
    StepExact(s, e);
    AddExact(s, ps);
    var s1 := Step(s, e).s;
    assert StartAt(t) in s1.pending && StartAt(t).part == t.part && StartAt(t).offset == Committed;
    RunAwaits(s1, es, t.part);
    RunCons(s, e, es);
  }
}
