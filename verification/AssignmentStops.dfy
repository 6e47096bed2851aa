/**
  Why the conditions on the callers of the assignment are needed: whatever they refuse
  leads to a failed assertion of cbits/hs_rdkafka_assignment.c by itself, through nothing
  but `serve` and the stop replies that are outstanding.
 */
module AssignmentStops {
  import opened TopParList
  import opened Assignment
  import opened AssignmentInv
  import opened AssignmentRuns

  // ------------------------------------------------------------------ a second stop

  /** Decommissioning sends one more stop to every started partition of the list. */
  lemma {:induction false} RemoveEachStops(s: State, rest: seq<Tp>)
    requires Distinct(rest) && Parts(rest) <= s.flagged && s.startedCnt == |s.started|
    ensures RemoveEach(s, rest).Ok?
    ensures var r := RemoveEach(s, rest).s;
      && r.started == s.started && r.startedCnt == s.startedCnt && r.waitCommitCnt == s.waitCommitCnt
      && r.waitStopCnt - |r.stops| == s.waitStopCnt - |s.stops|
    ensures forall p :: RemoveEach(s, rest).s.stops[p] == s.stops[p] + (if p in s.started && p in Parts(rest) then 1 else 0)
    decreases |rest|
  {
    if rest != [] {
      var p := rest[0].part;
      assert rest == [rest[0]] + rest[1..];
      PartsCons(rest[0], rest[1..]);
      DistinctCons(rest[0], rest[1..]);
      if p in s.started {
        assert {p} <= s.started;
      }
      RemoveEachStops(RemoveOne(s, p).s, rest[1..]);
    }
  }

  /** A `serve` that stops a partition again leaves it with two stop replies to come. */
  lemma ServeRestops(s: State, p: Part, env: Env)
    requires Lists(s) && Fetchers(s) && p in s.stops && p in Parts(s.removed)
    ensures Serve(s, env).Ok?
    ensures var r := Serve(s, env).s;
      r.stops[p] >= 2 && r.waitStopCnt == |r.stops| && p in r.started && r.startedCnt == |r.started|
  {
    hide RemoveEach, AnyValid, ServePending;
    assert s.removed != [];
    RemoveEachStops(s, s.removed);
    var r := RemoveEach(s, s.removed).s;
    TwoStops(r.stops, p);
  }

  lemma TwoStops(m: multiset<Part>, p: Part)
    requires m[p] >= 2
    ensures |m| >= 2 && p in m - multiset{p} && |m - multiset{p}| == |m| - 1
  {
    assert multiset{p, p} <= m;
    assert m == multiset{p, p} + (m - multiset{p, p});
  }

  /**
    A partition that is unassigned again while its stop reply is outstanding is stopped
    twice by the next `serve`; both replies come, and the second always fails its assertion.
   */
  lemma DoubleStopFails(s: State, p: Part, env: Env)
    requires Lists(s) && Fetchers(s) && p in s.stops && p in Parts(s.removed)
    ensures Serve(s, env).Ok? && p in Serve(s, env).s.stops
    ensures var first := Stopped(Serve(s, env).s, p, env);
      first.Ok? && p in first.s.stops && Stopped(first.s, p, env) == Fail(StoppedNotStarted)
    ensures RunFrom(s, [EvServe(env), EvStopped(p, env), EvStopped(p, env)]) == Fail(StoppedNotStarted)
  {
    hide Serve, Stopped, RunFrom, Lists, Fetchers;
    ServeRestops(s, p, env);
    var r := Serve(s, env).s;
    SecondReply(r, p, env);
    var f := Stopped(r, p, env).s;
    var es := [EvServe(env), EvStopped(p, env), EvStopped(p, env)];
    var one := [EvStopped(p, env)];
    assert es == [EvServe(env)] + ([EvStopped(p, env)] + one) && one == one + [];
    RunCons(f, EvStopped(p, env), []);
    RunCons(r, EvStopped(p, env), one);
    RunCons(s, EvServe(env), [EvStopped(p, env)] + one);
  }

  /** Two stop replies for one partition: the second finds it no longer started. */
  lemma SecondReply(r: State, p: Part, env: Env)
    requires r.stops[p] >= 2 && r.waitStopCnt == |r.stops| && p in r.started && r.startedCnt == |r.started|
    ensures var first := Stopped(r, p, env);
      first.Ok? && p in first.s.stops && Stopped(first.s, p, env) == Fail(StoppedNotStarted)
  {
    hide Serve;
    TwoStops(r.stops, p);
    assert {p} <= r.started;
  }

  // ------------------------------------------------------------------ what is refused, fails

  /** Nothing but serving and stop replies. */
  predicate Replies(es: seq<Event>) {
    forall i :: 0 <= i < |es| ==> es[i].EvServe? || es[i].EvStopped?
  }

  lemma RunCons(s: State, e: Event, es: seq<Event>)
    requires Possible(s, e)
    ensures Step(s, e).Fail? ==> RunFrom(s, [e] + es) == Step(s, e)
    ensures Step(s, e).Ok? ==> RunFrom(s, [e] + es) == RunFrom(Step(s, e).s, es)
  {
    hide Step, Possible;
    assert ([e] + es)[1..] == es;
  }

  /** An unassignment while a stop is outstanding has a continuation that fails. */
  lemma RestopContinues(s: State, e: Event, r: State, p: Part, env: Env) returns (es: seq<Event>)
    requires Possible(s, e) && Step(s, e) == Ok(r)
    requires Lists(r) && Fetchers(r) && p in r.stops && p in Parts(r.removed)
    ensures Replies(es) && RunFrom(s, [e] + es).Fail?
  {
    hide Step, Possible, Lists, Fetchers, RunFrom;
    es := [EvServe(env), EvStopped(p, env), EvStopped(p, env)];
    DoubleStopFails(r, p, env);
    RunCons(s, e, es);
  }

  /** Every event its caller's condition refuses leads to a failed assertion. */
  lemma RefusedFails(s: State, e: Event, env: Env) returns (es: seq<Event>)
    requires Inv(s) && Possible(s, e) && !Allowed(s, e)
    ensures Replies(es) && RunFrom(s, [e] + es).Fail?
  {
    hide Lists, Fetchers, Add, Subtract, Clear, HandleOffsetFetch, Distinct, RunFrom;
    es := [];
    RunCons(s, e, es);
    match e {
      case EvAdd(ps) => AddInv(s, ps);
      case EvSubtract(ps) =>
        SubtractInv(s, ps);
        if Distinct(ps) {
          var p :| p in Parts(ps) && p in s.stops;
          es := RestopContinues(s, e, Step(s, e).s, p, env);
        }
      case EvClear =>
        ClearInv(s);
        var p :| p in Parts(s.all) && p in s.stops;
        es := RestopContinues(s, e, Step(s, e).s, p, env);
      case EvReply(i, reply, renv) => ReplyInv(s, i, reply, renv);
      case _ =>
    }
  }

  lemma {:induction false} RepliesSafe(s: State, es: seq<Event>)
    requires Inv(s) && Replies(es)
    ensures RunFrom(s, es).Ok?
    decreases |es|
  {
    hide Inv, Step;
    if es != [] {
      if Possible(s, es[0]) {
        assert Allowed(s, es[0]);
        StepExact(s, es[0]);
        RepliesSafe(Step(s, es[0]).s, es[1..]);
      } else {
        RepliesSafe(s, es[1..]);
      }
    }
  }

  /**
    The caller's condition is exact: an event meets it if and only if no assertion fails,
    then or later, however `serve` and the outstanding stop replies follow.
   */
  lemma AllowedExact(s: State, e: Event)
    requires Inv(s) && Possible(s, e)
    ensures Allowed(s, e) <==> forall es :: Replies(es) ==> RunFrom(s, [e] + es).Ok?
  {
    hide Inv, Allowed, Step, Possible, RunFrom, Replies;
    if Allowed(s, e) {
      StepExact(s, e);
      forall es | Replies(es) ensures RunFrom(s, [e] + es).Ok? {
        RunCons(s, e, es);
        RepliesSafe(Step(s, e).s, es);
      }
    } else {
      var es := RefusedFails(s, e, Env(false, map[], false));
      assert Replies(es) && !RunFrom(s, [e] + es).Ok?;
    }
  }

  // ------------------------------------------------------------------ a run that gets there

  lemma AddStarting(s: State, t: Tp)
    requires s.all == [] && s.pending == [] && t.part !in s.flagged && t.offset == OFFSET_BEGINNING
    ensures Add(s, [t]) == Added(Ok(s.(all := [t], pending := [t], flagged := s.flagged + {t.part},
                                       version := s.version + 1)))
  {
    assert [t][1..] == [] && Sort([t]) == [t];
    assert StoredAll([t]) == [t] && CheckAdd([], [t], 1) == [];
    assert FlagEach(s, [t]) == Ok(s.(flagged := s.flagged + {t.part}));
    assert [] + [t] == [t];
  }

  lemma ServeStarts(s: State, t: Tp, env: Env)
    requires s.pending == [t] && s.queried == [] && s.removed == [] && t.offset == OFFSET_BEGINNING
    requires s.waitStopCnt == 0 && s.waitCommitCnt == 0 && t.part !in s.started
    ensures Serve(s, env) == Ok(s.(pending := [], started := s.started + {t.part}, startedCnt := s.startedCnt + 1,
                                   log := s.log + [StartFetcher(t.part, t.offset)] + [AssignmentDone]))
  {
    assert s.pending[..0] + s.pending[1..] == [];
    var r := s.(pending := [], started := s.started + {t.part}, startedCnt := s.startedCnt + 1,
                log := s.log + [StartFetcher(t.part, t.offset)]);
    var q := CanQuery(s, env);
    assert PendOne(s, 0, q) == Ok(r);
    assert PendFrom(s, 1, q) == PendFrom(r, 0, q);
  }

  lemma SubtractOnly(s: State, t: Tp)
    requires s.all == [t] && s.queried == [] && s.removed == [] && (s.pending == [] || s.pending == [t])
    ensures Subtract(s, [t]) == Added(Ok(s.(all := [], pending := [], removed := [t], version := s.version + 1)))
  {
    assert [t][1..] == [] && Sort([t]) == [t];
    assert CheckSubtract(s.all, [t], 1);
    var s1 := s.(all := [], pending := [], removed := [t]);
    assert [] + [t] == [t];
    assert SubOne(s, t) == Ok(s1);
    assert SubFrom(s, [t], 1) == SubFrom(s1, [t], 0);
  }

  lemma ServeStops(s: State, t: Tp, env: Env)
    requires s.removed == [t] && s.pending == [] && s.queried == [] && t.part in s.flagged && t.part in s.started
    requires s.startedCnt > 0 && s.waitStopCnt == 0 && s.waitCommitCnt == 0 && !env.autoCommit
    ensures Serve(s, env) == Ok(s.(removed := [], waitStopCnt := 1, stops := s.stops + multiset{t.part},
                                   flagged := s.flagged - {t.part}, log := s.log + [StopFetcher(t.part)]))
  {
    assert [t][1..] == [];
    var r := s.(waitStopCnt := 1, stops := s.stops + multiset{t.part}, flagged := s.flagged - {t.part},
                log := s.log + [StopFetcher(t.part)]);
    assert RemoveOne(s, t.part) == Ok(r);
    assert RemoveEach(s, [t]) == RemoveEach(r, []);
  }

  /**
    From the initial state: a partition is started, unassigned, assigned again while its
    stop is outstanding, and unassigned again. Every event up to the last is allowed, the
    last is not, and the run fails on the second stop reply.
   */
  lemma RestopReached(env: Env)
    requires !env.autoCommit
    ensures var t := Tp(1, OFFSET_BEGINNING, ERR_NONE);
      var es := [EvAdd([t]), EvServe(env), EvSubtract([t]), EvServe(env), EvAdd([t])];
      && AllowedRun(es) && Run(es).Ok?
      && Possible(Run(es).s, EvSubtract([t])) && !Allowed(Run(es).s, EvSubtract([t]))
      && RunFrom(Run(es).s, [EvSubtract([t]), EvServe(env), EvStopped(1, env), EvStopped(1, env)]) == Fail(StoppedNotStarted)
  {
    hide Run, AllowedRun, RunFrom, Subtract, Inv;
    var t := Tp(1, OFFSET_BEGINNING, ERR_NONE);
    var s := AssignedAgain(t, env);
    var es := [EvAdd([t]), EvServe(env), EvSubtract([t]), EvServe(env), EvAdd([t])];
    assert Run(es).s == s;
    RunSafe(es);
    SubtractOnly(s, t);
    SubtractInv(s, [t]);
    assert t in [t];
    var r := Subtract(s, [t]).res.s;
    DoubleStopFails(r, 1, env);
    var rest := [EvServe(env), EvStopped(1, env), EvStopped(1, env)];
    RunCons(s, EvSubtract([t]), rest);
    assert [EvSubtract([t])] + rest == [EvSubtract([t]), EvServe(env), EvStopped(1, env), EvStopped(1, env)];
  }

  lemma RunSnoc(es: seq<Event>, s: State, e: Event, r: State)
    requires AllowedRun(es) && Run(es) == Ok(s) && Possible(s, e) && Allowed(s, e) && Step(s, e) == Ok(r)
    ensures AllowedRun(es + [e]) && Run(es + [e]) == Ok(r)
  {
    hide Step, Allowed, Possible;
    assert (es + [e])[..|es|] == es;
  }

  /** The allowed part of that run. */
  lemma AssignedAgain(t: Tp, env: Env) returns (s: State)
    requires !env.autoCommit && t.offset == OFFSET_BEGINNING
    ensures var es := [EvAdd([t]), EvServe(env), EvSubtract([t]), EvServe(env), EvAdd([t])];
      AllowedRun(es) && Run(es) == Ok(s)
    ensures s.all == [t] && s.pending == [t] && s.queried == [] && s.removed == [] && s.stops == multiset{t.part}
  {
    hide Run, AllowedRun, Add, Subtract, Serve;
    var es := [EvAdd([t]), EvServe(env), EvSubtract([t]), EvServe(env), EvAdd([t])];
    var s0 := Init();
    NoRun();
    AddStarting(s0, t);
    var s1 := Add(s0, [t]).res.s;
    RunSnoc([], s0, EvAdd([t]), s1);
    ServeStarts(s1, t, env);
    var s2 := Serve(s1, env).s;
    assert [] + [EvAdd([t])] == [EvAdd([t])] == es[..1];
    RunSnoc(es[..1], s1, EvServe(env), s2);
    SubtractOnly(s2, t);
    var s3 := Subtract(s2, [t]).res.s;
    OneDistinct(t);
    assert es[..1] + [EvServe(env)] == es[..2];
    RunSnoc(es[..2], s2, EvSubtract([t]), s3);
    ServeStops(s3, t, env);
    var s4 := Serve(s3, env).s;
    assert es[..2] + [EvSubtract([t])] == es[..3];
    RunSnoc(es[..3], s3, EvServe(env), s4);
    AddStarting(s4, t);
    s := Add(s4, [t]).res.s;
    assert es[..3] + [EvServe(env)] == es[..4];
    RunSnoc(es[..4], s4, EvAdd([t]), s);
    assert es[..4] + [EvAdd([t])] == es;
  }

  lemma NoRun()
    ensures AllowedRun([]) && Run([]) == Ok(Init())
  {}

  lemma OneDistinct(t: Tp)
    ensures Distinct([t]) && Parts([t]) == {t.part} && Parts([]) == {}
  {
    assert t in [t];
  }
}
