/**
  Ordering properties of the assignment state machine over whole runs: when fetchers are
  started and offset queries sent, when completion is signalled, and which OffsetFetch
  replies are used.
 */
module AssignmentRuns {
  import opened TopParList
  import opened Assignment
  import opened AssignmentInv

  /** What was done between `s` and `r`. */
  function Sent(s: State, r: State): seq<Effect>
    requires s.log <= r.log
  {
    r.log[|s.log|..]
  }

  predicate StartsOrQueries(e: Effect) {
    e.StartFetcher? || e.SendQuery?
  }

  // ------------------------------------------------------------------ effects of the parts of serve

  lemma {:induction false} RemoveEachSent(s: State, rest: seq<Tp>)
    requires RemoveEach(s, rest).Ok?
    ensures var r := RemoveEach(s, rest).s;
      && s.log <= r.log && (forall e :: e in Sent(s, r) ==> e.StopFetcher?)
      && r.queries == s.queries && r.waitCommitCnt == s.waitCommitCnt && r.version == s.version
    decreases |rest|
  {
    if rest != [] {
      var s' := RemoveOne(s, rest[0].part).s;
      RemoveEachSent(s', rest[1..]);
      var r := RemoveEach(s, rest).s;
      assert r.log == s'.log + Sent(s', r);
      assert s'.log <= s.log + [StopFetcher(rest[0].part)];
    }
  }

  lemma {:induction false} PendFromSent(s: State, n: nat, canQuery: bool)
    requires n <= |s.pending| && PendFrom(s, n, canQuery).Ok?
    ensures var r := PendFrom(s, n, canQuery).s;
      && s.log <= r.log && (forall e :: e in Sent(s, r) ==> e.StartFetcher?)
      && r.queries == s.queries && r.version == s.version && r.removed == s.removed
      && r.waitStopCnt == s.waitStopCnt && r.waitCommitCnt == s.waitCommitCnt
      && s.queried <= r.queried && (!canQuery ==> r.queried == s.queried)
    decreases n
  {
    hide Startable;
    if n != 0 {
      var s' := PendOne(s, n - 1, canQuery).s;
      PendFromSent(s', n - 1, canQuery);
      var r := PendFrom(s, n, canQuery).s;
      assert r.log == s'.log + Sent(s', r);
      var t := s.pending[n - 1];
      assert s'.log <= s.log + [StartFetcher(t.part, t.offset)];
    }
  }

  lemma ServeRemovalsSent(s: State, env: Env)
    requires ServeRemovals(s, env).Ok?
    ensures var r := ServeRemovals(s, env).s;
      && s.log <= r.log && (forall e :: e in Sent(s, r) ==> e.StopFetcher? || e.SendCommit?)
      && r.queries == s.queries && r.removed == [] && r.version == s.version
  {
    hide AnyValid, RemoveEach;
    RemoveEachSent(s, s.removed);
    var r1, r := RemoveEach(s, s.removed).s, ServeRemovals(s, env).s;
    assert Sent(s, r) == Sent(s, r1) || Sent(s, r) == Sent(s, r1) + [SendCommit(WithStored(env, s.removed))];
  }

  lemma ServePendingSent(s: State, env: Env)
    requires ServePending(s, env).Ok?
    ensures var r := ServePending(s, env).s;
      && s.log <= r.log && (forall e :: e in Sent(s, r) ==> StartsOrQueries(e))
      && r.removed == s.removed && r.version == s.version
      && r.waitStopCnt == s.waitStopCnt && r.waitCommitCnt == s.waitCommitCnt
      && (forall q :: SendQuery(q) in Sent(s, r) ==>
            s.queried == [] && q == Query(r.queried, r.version) && r.queries == s.queries + [q])
      && (r.queries == s.queries || (s.queried == [] && SendQuery(Query(r.queried, r.version)) in Sent(s, r)))
      && (r.queries == s.queries ==> r.queried == s.queried)
  {
    hide PendFrom;
    PendFromSent(s, |s.pending|, CanQuery(s, env));
    var r1, r := PendFrom(s, |s.pending|, CanQuery(s, env)).s, ServePending(s, env).s;
    if r != r1 {
      var q := Query(r1.queried, r1.version);
      assert Sent(s, r) == Sent(s, r1) + [SendQuery(q)];
      assert SendQuery(q) in Sent(s, r);
    }
  }

  /** The state once `serve` has dealt with the removed partitions. */
  function AfterRemovals(s: State, env: Env): State {
    if s.removed != [] && ServeRemovals(s, env).Ok? then ServeRemovals(s, env).s else s
  }

  /** `serve` in steps: removals, then pending partitions, then the signal. */
  lemma ServeParts(s: State, env: Env) returns (s1: State, s2: State, pend: bool)
    requires Inv(s)
    ensures s1 == AfterRemovals(s, env)
    ensures Serve(s, env).Ok? && Inv(s1) && s1.removed == []
    ensures s.log <= s1.log <= s2.log <= Serve(s, env).s.log
    ensures forall e :: e in Sent(s, s1) ==> e.StopFetcher? || e.SendCommit?
    ensures s1.queries == s.queries && s1.version == s.version && s1.queried == s.queried && s1.pending == s.pending
    ensures pend == (s1.waitStopCnt == 0 && s1.waitCommitCnt == 0 && s1.pending != [])
    ensures if pend then ServePending(s1, env) == Ok(s2) else s2 == s1
    ensures Serve(s, env).s == (if s2.waitStopCnt + s2.waitCommitCnt + |s2.queried| + (if pend then |s2.pending| else 0) == 0
                                then s2.(log := s2.log + [AssignmentDone]) else s2)
  {
    hide ServeRemovals, ServePending, Lists, NoRestop;
    ServeRemovalsInv(s, env);
    s1 := if s.removed != [] then ServeRemovals(s, env).s else s;
    if s.removed != [] {
      ServeRemovalsSent(s, env);
      RemovalsKeepQueried(s, env);
    }
    pend := s1.waitStopCnt == 0 && s1.waitCommitCnt == 0 && s1.pending != [];
    s2 := s1;
    if pend {
      ServePendingInv(s1, env);
      s2 := ServePending(s1, env).s;
      ServePendingSent(s1, env);
    }
    assert s1.waitStopCnt >= 0 && s1.waitCommitCnt >= 0;
  }

  lemma {:induction false} RemoveEachKeepsQueried(s: State, rest: seq<Tp>)
    requires Inv(s.(removed := rest)) && RemoveEach(s, rest).Ok?
    ensures RemoveEach(s, rest).s.queried == s.queried && RemoveEach(s, rest).s.pending == s.pending
    decreases |rest|
  {
    if rest != [] {
      assert rest == [rest[0]] + rest[1..];
      PartsCons(rest[0], rest[1..]);
      DelAbsent(s.queried, rest[0].part);
      DelAbsent(s.pending, rest[0].part);
      RemoveOneInv(s, rest[0], rest[1..]);
      RemoveEachKeepsQueried(RemoveOne(s, rest[0].part).s, rest[1..]);
    }
  }

  lemma RemovalsKeepQueried(s: State, env: Env)
    requires Inv(s) && ServeRemovals(s, env).Ok?
    ensures ServeRemovals(s, env).s.queried == s.queried && ServeRemovals(s, env).s.pending == s.pending
  {
    hide RemoveEach, AnyValid, Inv;
    assert s.(removed := s.removed) == s;
    RemoveEachKeepsQueried(s, s.removed);
  }

  /**
    After any `serve`: completion is signalled exactly when nothing is in progress, and
    nothing was started or queried while a stop or a commit is outstanding.
   */
  lemma ServeSignals(s: State, env: Env)
    requires Inv(s)
    ensures Serve(s, env).Ok? && s.log <= Serve(s, env).s.log
    ensures var r := Serve(s, env).s; AssignmentDone in Sent(s, r) <==> !InProgress(r)
    ensures var r := Serve(s, env).s;
      forall e :: e in Sent(s, r) && StartsOrQueries(e) ==> r.waitStopCnt == 0 && r.waitCommitCnt == 0
  {
    hide Serve, AfterRemovals, ServePending, Lists, NoRestop;
    var s1, s2, pend := ServeParts(s, env);
    if pend {
      ServePendingSent(s1, env);
      ServePendingInv(s1, env);
    }
    var r := Serve(s, env).s;
    assert Sent(s, s2) == Sent(s, s1) + Sent(s1, s2);
    assert r != s2 ==> Sent(s, r) == Sent(s, s2) + [AssignmentDone];
    assert s1.waitStopCnt >= 0 && s1.waitCommitCnt >= 0;
  }

  // ------------------------------------------------------------------ offset queries

  /** `serve` sends a query only when none of an earlier query's partitions is left. */
  lemma ServeQueries(s: State, env: Env)
    requires Inv(s)
    ensures Serve(s, env).Ok? && s.log <= Serve(s, env).s.log
    ensures var r := Serve(s, env).s;
      && (s.queried != [] ==> r.queried == s.queried && r.queries == s.queries
                              && forall e :: e in Sent(s, r) ==> !e.SendQuery?)
      && (r.queries == s.queries || (s.queried == [] && r.queries == s.queries + [Query(r.queried, r.version)]))
      && (r.queries == s.queries ==> r.queried == s.queried)
      && (r.queries == s.queries ==> forall e :: e in Sent(s, r) ==> !e.SendQuery?)
      && (r.queries != s.queries ==> SendQuery(Query(r.queried, r.version)) in Sent(s, r))
      && (forall q :: SendQuery(q) in Sent(s, r) ==> q == Query(r.queried, r.version))
      && r.version == s.version
  {
    hide Serve, AfterRemovals, ServePending, Inv;
    var s1, s2, pend := ServeParts(s, env);
    if pend {
      ServePendingSent(s1, env);
    }
    var r := Serve(s, env).s;
    assert Sent(s, s2) == Sent(s, s1) + Sent(s1, s2);
    assert r != s2 ==> Sent(s, r) == Sent(s, s2) + [AssignmentDone];
  }

  /** Partition `p` is on `queried` and the event does not take it off. */
  ghost predicate Stays(s: State, e: Event, p: Part) {
    && p in Parts(s.queried)
    && match e
       case EvSubtract(ps) => p !in Parts(ps)
       case EvClear => false
       case EvReply(_, Offsets(offsets, _), _) => p !in Parts(offsets)
       case _ => true
  }

  lemma SubOneQueried(s: State, t: Tp)
    requires Lists(s) && Fetchers(s) && SubOne(s, t).Ok?
    ensures var r := SubOne(s, t).s;
      && Lists(r) && Fetchers(r) && r.log == s.log && r.queries == s.queries && r.version == s.version
      && Parts(r.queried) == Parts(s.queried) - {t.part}
  {
    SubOneInv(s, t);
    DelParts(s.queried, t.part);
  }

  lemma {:induction false} SubFromQueried(s: State, ps: seq<Tp>, n: nat)
    requires Lists(s) && Fetchers(s) && n <= |ps| && SubFrom(s, ps, n).Ok?
    ensures var r := SubFrom(s, ps, n).s;
      && r.log == s.log && r.queries == s.queries && r.version == s.version
      && Parts(r.queried) == Parts(s.queried) - Parts(ps[..n])
    decreases n
  {
    hide Fetchers, Lists, SubOne;
    if n == 0 {
      assert ps[..n] == [];
    } else {
      PrefixParts(ps, n);
      SubOneQueried(s, ps[n - 1]);
      SubFromQueried(SubOne(s, ps[n - 1]).s, ps, n - 1);
    }
  }

  /** Replies only ever touch partitions that are on `queried`. */
  lemma ApplyOneEffect(s: State, o: Tp, err: int)
    requires Inv(s)
    ensures var r := ApplyOne(s, o, err);
      && Inv(r) && r.log == s.log && r.queries == s.queries && r.version == s.version
      && Parts(r.queried) == Parts(s.queried) - {o.part}
      && (forall t: Tp :: t.part !in Parts(s.queried) ==> (t in r.pending <==> t in s.pending))
  {
    hide Fetchers, NoRestop;
    DelParts(s.queried, o.part);
    ApplyOneInv(s, o, err);
  }

  lemma {:induction false} ApplyEachEffect(s: State, offsets: seq<Tp>, err: int)
    requires Inv(s)
    ensures var r := ApplyEach(s, offsets, err);
      && r.log == s.log && r.queries == s.queries && r.version == s.version
      && Parts(r.queried) == Parts(s.queried) - Parts(offsets)
      && (forall t: Tp :: t.part !in Parts(s.queried) ==> (t in r.pending <==> t in s.pending))
    decreases |offsets|
  {
    hide Inv, ApplyOne;
    if offsets != [] {
      assert offsets == [offsets[0]] + offsets[1..];
      PartsCons(offsets[0], offsets[1..]);
      ApplyOneEffect(s, offsets[0], err);
      ApplyEachEffect(ApplyOne(s, offsets[0], err), offsets[1..], err);
    }
  }

  lemma SubtractQueried(s: State, ps: seq<Tp>)
    requires Inv(s) && Subtract(s, ps).Added? && Subtract(s, ps).res.Ok?
    ensures var r := Subtract(s, ps).res.s;
      && r.log == s.log && r.queries == s.queries
      && Parts(r.queried) == Parts(s.queried) - Parts(ps)
  {
    hide SubFrom, Sort, CheckSubtract, Lists, Fetchers, NoRestop;
    var q := Sort(ps);
    SortParts(ps);
    SubFromQueried(s, q, |q|);
    assert q[..|q|] == q;
  }

  /** While `p` stays on `queried`, an event sends no query and queries no other partition. */
  lemma StepWindow(s: State, e: Event, p: Part)
    requires Inv(s) && Possible(s, e) && Allowed(s, e) && Stays(s, e, p)
    ensures Step(s, e).Ok? && s.log <= Step(s, e).s.log
    ensures var r := Step(s, e).s;
      && p in Parts(r.queried) && Parts(r.queried) <= Parts(s.queried)
      && (forall x :: x in Sent(s, r) ==> !x.SendQuery?)
  {
    hide Lists, Fetchers, NoRestop, Serve, Subtract, ApplyEach, Distinct;
    StepExact(s, e);
    assert s.queried != [];
    match e {
      case EvAdd(ps) => AddKeeps(s, ps);
      case EvSubtract(ps) => if Subtract(s, ps).Added? { SubtractQueried(s, ps); }
      case EvClear =>
      case EvServe(env) => ServeQueries(s, env);
      case EvStopped(q, env) =>
        var s' := s.(waitStopCnt := s.waitStopCnt - 1, started := s.started - {q},
                     startedCnt := s.startedCnt - 1, stops := s.stops - multiset{q});
        StopTaken(s, q, s');
        ServeQueries(s', env);
      case EvCommitSent =>
      case EvCommitDone(env) =>
        CommitTaken(s);
        ServeQueries(s.(waitCommitCnt := s.waitCommitCnt - 1), env);
      case EvReply(i, reply, env) =>
        if reply.Offsets? {
          var s' := s.(queries := s.queries[..i] + s.queries[i + 1..]);
          QueriesInv(s, s'.queries);
          ApplyEachEffect(s', reply.offsets, reply.err);
          ApplyEachInv(s', reply.offsets, reply.err);
          var s2 := ApplyEach(s', reply.offsets, reply.err);
          assert p in Parts(s2.queried) && s2.queried != [];
          ServeQueries(s2, env);
        }
    }
  }

  lemma QueriesInv(s: State, qs: seq<Query>)
    requires Inv(s)
    ensures Inv(s.(queries := qs))
  {}

  lemma AddKeeps(s: State, ps: seq<Tp>)
    requires Add(s, ps).Added? ==> Add(s, ps).res.Ok?
    ensures var r := OfAdd(s, Add(s, ps)).s; r.queried == s.queried && r.log == s.log && r.queries == s.queries
  {
    if Add(s, ps).Added? {
      AcceptedInput(s, ps);
      FlagEachOk(s, StoredAll(Sort(ps)));
    }
  }

  /** The state after the events `es` from `s`. */
  function RunFrom(s: State, es: seq<Event>): Res
    decreases |es|
  {
    if es == [] then Ok(s)
    else if !Possible(s, es[0]) then RunFrom(s, es[1..])
    else
      match Step(s, es[0])
      case Fail(why) => Fail(why)
      case Ok(s') => RunFrom(s', es[1..])
  }

  /** All events are allowed, and `p` stays on `queried` throughout. */
  ghost predicate Window(s: State, es: seq<Event>, p: Part)
    decreases |es|
  {
    es == [] ||
    (Possible(s, es[0]) && Allowed(s, es[0]) && Stays(s, es[0], p) &&
     Step(s, es[0]).Ok? && Window(Step(s, es[0]).s, es[1..], p))
  }

  /** No second query is sent in the window, however long it is. */
  lemma {:induction false} WindowNoQuery(s: State, es: seq<Event>, p: Part)
    requires Inv(s) && Window(s, es, p)
    ensures RunFrom(s, es).Ok? && s.log <= RunFrom(s, es).s.log && Inv(RunFrom(s, es).s)
    ensures var r := RunFrom(s, es).s;
      && Parts(r.queried) <= Parts(s.queried)
      && (forall x :: x in Sent(s, r) ==> !x.SendQuery?)
    decreases |es|
  {
    hide Inv, Allowed, Stays, Step, Possible;
    if es != [] {
      StepWindow(s, es[0], p);
      StepExact(s, es[0]);
      var s' := Step(s, es[0]).s;
      WindowNoQuery(s', es[1..], p);
      var r := RunFrom(s, es).s;
      assert Sent(s, r) == Sent(s, s') + Sent(s', r);
    }
  }

  /**
    A partition `x` that is off `queried` (unassigned, perhaps assigned again) when the
    window is at `s` has its start position untouched by the reply that ends the window.
   */
  lemma ReassignedIgnored(s: State, es: seq<Event>, p: Part, x: Part, offsets: seq<Tp>, err: int, t: Tp)
    requires Inv(s) && Window(s, es, p) && x !in Parts(s.queried) && t.part == x
    ensures RunFrom(s, es).Ok?
    ensures var r := RunFrom(s, es).s;
      && x !in Parts(r.queried)
      && (t in ApplyEach(r, offsets, err).pending <==> t in r.pending)
  {
    hide Inv, Window, RunFrom, ApplyEach;
    WindowNoQuery(s, es, p);
    ApplyEachEffect(RunFrom(s, es).s, offsets, err);
  }

  // ------------------------------------------------------------------ which query a reply is used for

  datatype Last = NoQuery | LastSent(query: Query)

  /** The query sent last, from what was done so far. */
  function LastQuery(log: seq<Effect>): Last {
    if log == [] then NoQuery
    else
      var e := log[|log| - 1];
      if e.SendQuery? then LastSent(e.query) else LastQuery(log[..|log| - 1])
  }

  lemma {:induction false} LastQueryKept(a: seq<Effect>, b: seq<Effect>)
    requires forall e :: e in b ==> !e.SendQuery?
    ensures LastQuery(a + b) == LastQuery(a)
  {
    if b == [] {
      assert a + b == a;
    } else {
      assert (a + b)[..|a + b| - 1] == a + b[..|b| - 1];
      LastQueryKept(a, b[..|b| - 1]);
    }
  }

  lemma {:induction false} LastQueryNew(a: seq<Effect>, b: seq<Effect>, q: Query)
    requires SendQuery(q) in b && forall q' :: SendQuery(q') in b ==> q' == q
    ensures LastQuery(a + b) == LastSent(q)
  {
    var c := b[..|b| - 1];
    assert (a + b)[..|a + b| - 1] == a + c;
    if !b[|b| - 1].SendQuery? {
      assert SendQuery(q) in c by { assert b == c + [b[|b| - 1]]; }
      LastQueryNew(a, c, q);
    }
  }

  /** Everything on `queried` was put there by the query sent last. */
  ghost predicate OfLast(s: State) {
    s.queried != [] ==>
      LastQuery(s.log).LastSent? && Parts(s.queried) <= Parts(LastQuery(s.log).query.parts)
  }

  lemma ServeOfLast(s: State, env: Env)
    requires Inv(s) && OfLast(s)
    ensures Serve(s, env).Ok? && OfLast(Serve(s, env).s)
  {
    hide Serve, Inv;
    ServeQueries(s, env);
    var r := Serve(s, env).s;
    assert r.log == s.log + Sent(s, r);
    if r.queries == s.queries {
      LastQueryKept(s.log, Sent(s, r));
    } else {
      LastQueryNew(s.log, Sent(s, r), Query(r.queried, r.version));
    }
  }

  lemma FewerOfLast(s: State, r: State)
    requires OfLast(s) && r.log == s.log && Parts(r.queried) <= Parts(s.queried)
    ensures OfLast(r)
  {
    if r.queried != [] {
      assert r.queried[0].part in Parts(r.queried);
      assert s.queried != [];
    }
  }

  lemma StepOfLast(s: State, e: Event)
    requires Inv(s) && OfLast(s) && Possible(s, e) && Allowed(s, e)
    ensures Step(s, e).Ok? && OfLast(Step(s, e).s)
  {
    hide Lists, Fetchers, NoRestop, Serve, Subtract, ApplyEach, Distinct, OfLast;
    StepExact(s, e);
    match e {
      case EvAdd(ps) => AddKeeps(s, ps); FewerOfLast(s, Step(s, e).s);
      case EvSubtract(ps) =>
        if Subtract(s, ps).Added? { SubtractQueried(s, ps); }
        FewerOfLast(s, Step(s, e).s);
      case EvClear => FewerOfLast(s, Step(s, e).s);
      case EvServe(env) => ServeOfLast(s, env);
      case EvStopped(q, env) =>
        var s' := s.(waitStopCnt := s.waitStopCnt - 1, started := s.started - {q},
                     startedCnt := s.startedCnt - 1, stops := s.stops - multiset{q});
        StopTaken(s, q, s');
        FewerOfLast(s, s');
        ServeOfLast(s', env);
      case EvCommitSent => FewerOfLast(s, Step(s, e).s);
      case EvCommitDone(env) =>
        CommitTaken(s);
        var s' := s.(waitCommitCnt := s.waitCommitCnt - 1);
        FewerOfLast(s, s');
        ServeOfLast(s', env);
      case EvReply(i, reply, env) =>
        var s' := s.(queries := s.queries[..i] + s.queries[i + 1..]);
        FewerOfLast(s, s');
        if reply.Offsets? {
          QueriesInv(s, s'.queries);
          ApplyEachEffect(s', reply.offsets, reply.err);
          ApplyEachInv(s', reply.offsets, reply.err);
          var s2 := ApplyEach(s', reply.offsets, reply.err);
          FewerOfLast(s', s2);
          ServeOfLast(s2, env);
        }
    }
  }

  /**
    On every allowed run, a reply can only be used for partitions that the query sent
    last asked for.
   */
  lemma {:induction false} RunOfLast(es: seq<Event>)
    requires AllowedRun(es)
    ensures Run(es).Ok? && OfLast(Run(es).s)
  {
    hide Inv, Allowed, Step, Possible, OfLast;
    if es == [] {
      assert OfLast(Init()) by { InitOfLast(); }
    } else {
      var before := es[..|es| - 1];
      RunSafe(before);
      RunOfLast(before);
      StepOfLast(Run(before).s, es[|es| - 1]);
    }
  }

  lemma InitOfLast()
    ensures OfLast(Init())
  {}

  /** A partition list of one entry, added to an empty assignment. */
  lemma AddSingle(s: State, t: Tp)
    requires s.all == [] && s.pending == [] && t.part !in s.flagged && t.offset == OFFSET_STORED
    ensures Add(s, [t]) == Added(Ok(s.(all := [t], pending := [t], flagged := s.flagged + {t.part},
                                       version := s.version + 1)))
  {
    assert [t][1..] == [] && Sort([t]) == [t];
    assert StoredAll([t]) == [t] && CheckAdd([], [t], 1) == [];
    assert FlagEach(s, [t]) == Ok(s.(flagged := s.flagged + {t.part}));
    assert [] + [t] == [t];
  }

  lemma QuerySingle(s: State, t: Tp, env: Env)
    requires s.all == [t] && s.pending == [t] && s.queried == [] && s.removed == [] && t.offset == OFFSET_STORED
    requires s.waitStopCnt == 0 && s.waitCommitCnt == 0 && env.coordinator && t.part !in s.started
    ensures var q := Query([t], s.version);
      Serve(s, env) == Ok(s.(pending := [], queried := [t], queries := s.queries + [q], log := s.log + [SendQuery(q)]))
  {
    assert s.pending[..0] + s.pending[1..] == [];
    assert s.queried + [t] == [t];
    var r := s.(pending := [], queried := [t]);
    assert PendOne(s, 0, true) == Ok(r);
    assert PendFrom(s, 1, true) == PendFrom(r, 0, true);
  }

  lemma UnassignSingle(s: State, t: Tp, env: Env)
    requires s.all == [t] && s.pending == [] && s.queried == [t] && s.removed == []
    requires s.waitStopCnt == 0 && s.waitCommitCnt == 0 && s.started == {} && s.flagged == {t.part} && !env.autoCommit
    ensures Subtract(s, [t]) ==
            Added(Ok(s.(all := [], queried := [], removed := [t], version := s.version + 1)))
    ensures Serve(Subtract(s, [t]).res.s, env) ==
            Ok(s.(all := [], queried := [], flagged := {}, version := s.version + 1, log := s.log + [AssignmentDone]))
  {
    assert [t][1..] == [] && Sort([t]) == [t];
    assert CheckSubtract(s.all, [t], 1);
    var s1 := s.(all := [], queried := [], removed := [t]);
    assert [] + [t] == [t];
    assert SubOne(s, t) == Ok(s1);
    assert SubFrom(s, [t], 1) == SubFrom(s1, [t], 0);
    var s2 := s1.(version := s.version + 1);
    assert RemoveOne(s2, t.part) == Ok(s2.(flagged := {}));
    assert RemoveEach(s2, [t]) == RemoveEach(s2.(flagged := {}), []);
  }

  lemma ReplySingle(s: State, t: Tp, o: Tp, env: Env)
    requires |s.queries| > 0 && s.all == [t] && s.pending == [] && s.queried == [t] && s.removed == []
    requires s.waitStopCnt == 0 && s.waitCommitCnt == 0 && s.started == {}
    requires o.part == t.part && o.err == ERR_NONE && o.offset >= 0
    ensures HandleOffsetFetch(s, 0, Offsets([o], ERR_NONE), env).Ok?
    ensures var r := HandleOffsetFetch(s, 0, Offsets([o], ERR_NONE), env).s;
      r.queries == s.queries[1..] && StartFetcher(o.part, o.offset) in r.log
  {
    assert [o][1..] == [] && [t][1..] == [];
    var s1 := s.(queries := s.queries[..0] + s.queries[1..]);
    assert s1.queries == s.queries[1..];
    assert [] + [o] == [o];
    var s2 := s1.(queried := [], pending := [o]);
    assert ApplyOne(s1, o, ERR_NONE) == s2;
    assert ApplyEach(s1, [o], ERR_NONE) == s2;
    var canQuery := CanQuery(s2, env);
    assert s2.pending[..0] + s2.pending[1..] == [];
    var s3 := s2.(pending := [], started := {o.part}, startedCnt := s.startedCnt + 1,
                  log := s.log + [StartFetcher(o.part, o.offset)]);
    assert PendOne(s2, 0, canQuery) == Ok(s3);
    assert PendFrom(s2, 1, canQuery) == PendFrom(s3, 0, canQuery);
    assert ServePending(s2, env) == Ok(s3);
    assert StartFetcher(o.part, o.offset) in s3.log;
    assert Serve(s2, env) == Ok(s3.(log := s3.log + [AssignmentDone]));
  }

  /**
    The window condition is needed: when every partition of the outstanding query has
    been unassigned, a second query goes out, and the first reply's offset is then used
    although the partition was unassigned and assigned again in between.
   */
  lemma StaleOffsetUsed(env: Env)
    requires env.coordinator && !env.autoCommit
    ensures var t := Tp(1, OFFSET_STORED, ERR_NONE);
      var es := [EvAdd([t]), EvServe(env), EvSubtract([t]), EvServe(env), EvAdd([t]), EvServe(env),
                 EvReply(0, Offsets([Tp(1, 20, ERR_NONE)], ERR_NONE), env)];
      && RunFrom(Init(), es).Ok?
      && StartFetcher(1, 20) in RunFrom(Init(), es).s.log
      && |RunFrom(Init(), es).s.queries| == 1
  {
    hide Add, Subtract, Serve, HandleOffsetFetch;
    var t, o := Tp(1, OFFSET_STORED, ERR_NONE), Tp(1, 20, ERR_NONE);
    var reply := EvReply(0, Offsets([o], ERR_NONE), env);
    var es := [EvAdd([t]), EvServe(env), EvSubtract([t]), EvServe(env), EvAdd([t]), EvServe(env), reply];
    var s0 := Init();
    AddSingle(s0, t);
    var s1 := Add(s0, [t]).res.s;
    QuerySingle(s1, t, env);
    var s2 := Serve(s1, env).s;
    UnassignSingle(s2, t, env);
    var s3 := Subtract(s2, [t]).res.s;
    var s4 := Serve(s3, env).s;
    AddSingle(s4, t);
    var s5 := Add(s4, [t]).res.s;
    QuerySingle(s5, t, env);
    var s6 := Serve(s5, env).s;
    ReplySingle(s6, t, o, env);
    var s7 := HandleOffsetFetch(s6, 0, Offsets([o], ERR_NONE), env).s;
    assert es[6..] == [reply] && es[6..][1..] == [];
    assert RunFrom(s6, es[6..]) == Ok(s7);
    assert es[5..][1..] == es[6..] && es[4..][1..] == es[5..] && es[3..][1..] == es[4..];
    assert RunFrom(s5, es[5..]) == Ok(s7);
    assert RunFrom(s4, es[4..]) == Ok(s7);
    assert RunFrom(s3, es[3..]) == Ok(s7);
    assert es[2..][1..] == es[3..] && es[1..][1..] == es[2..];
    assert RunFrom(s2, es[2..]) == Ok(s7);
    assert RunFrom(s1, es[1..]) == Ok(s7);
    assert RunFrom(s0, es) == Ok(s7);
  }
}
