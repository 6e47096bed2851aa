/**
  Which OffsetFetch replies bring a stale offset, in cbits/hs_rdkafka_assignment.c: an
  offset is stale for a partition that was assigned again after the query was sent.
 */
module AssignmentStale {
  import opened TopParList
  import opened Assignment
  import opened AssignmentInv
  import opened AssignmentRuns
  import opened AssignmentStops

  // ------------------------------------------------------------------ partitions through serve

  /** The partitions whose offset has to be asked for. */
  function Waiting(ts: seq<Tp>): seq<Tp> {
    if ts == [] then []
    else
      var n := |ts| - 1;
      Waiting(ts[..n]) + (if Startable(ts[n].offset) then [] else [ts[n]])
  }

  lemma {:induction false} WaitingAre(ts: seq<Tp>, t: Tp)
    ensures t in Waiting(ts) <==> t in ts && !Startable(t.offset)
  {
    hide Startable;
    if ts != [] {
      var n := |ts| - 1;
      assert ts == ts[..n] + [ts[n]];
      WaitingAre(ts[..n], t);
    }
  }

  /** `e` starts one of the listed partitions. */
  ghost predicate Starts(ts: seq<Tp>, e: Effect) {
    exists t :: t in ts && Startable(t.offset) && e == StartFetcher(t.part, t.offset)
  }

  lemma PendOneMoves(s: State, n: nat, canQuery: bool)
    requires n < |s.pending| && PendOne(s, n, canQuery).Ok?
    ensures var r, t := PendOne(s, n, canQuery).s, s.pending[n];
      if Startable(t.offset) || canQuery
      then r.pending[..n] == s.pending[..n] && r.pending[n..] == s.pending[n + 1..] && |r.pending| == |s.pending| - 1
      else r == s
  {}

  /** What the backward loop of `serve_pending` leaves pending. */
  lemma {:induction false} PendFromPending(s: State, n: nat, canQuery: bool)
    requires n <= |s.pending| && PendFrom(s, n, canQuery).Ok?
    ensures PendFrom(s, n, canQuery).s.pending
         == (if canQuery then s.pending[n..] else Waiting(s.pending[..n]) + s.pending[n..])
    decreases n
  {
    hide Startable, PendOne;
    if n != 0 {
      PendOneMoves(s, n - 1, canQuery);
      PendFromPending(PendOne(s, n - 1, canQuery).s, n - 1, canQuery);
      assert s.pending[..n][..n - 1] == s.pending[..n - 1];
      assert s.pending[n - 1..] == [s.pending[n - 1]] + s.pending[n..];
    }
  }

  lemma PendOneQueried(s: State, n: nat, canQuery: bool, t: Tp)
    requires n < |s.pending| && PendOne(s, n, canQuery).Ok?
    ensures t in PendOne(s, n, canQuery).s.queried
        <==> t in s.queried || (canQuery && t == s.pending[n] && !Startable(t.offset))
  {
    hide Startable;
  }

  /** What it puts on `queried`. */
  lemma {:induction false} PendFromQueried(s: State, n: nat, canQuery: bool, t: Tp)
    requires n <= |s.pending| && PendFrom(s, n, canQuery).Ok?
    ensures t in PendFrom(s, n, canQuery).s.queried
        <==> t in s.queried || (canQuery && t in s.pending[..n] && !Startable(t.offset))
    decreases n
  {
    hide Startable, PendOne;
    if n != 0 {
      PendOneMoves(s, n - 1, canQuery);
      PendOneQueried(s, n - 1, canQuery, t);
      PendFromQueried(PendOne(s, n - 1, canQuery).s, n - 1, canQuery, t);
      assert s.pending[..n] == s.pending[..n - 1] + [s.pending[n - 1]];
    }
  }

  lemma PendOneStarts(s: State, n: nat, canQuery: bool)
    requires n < |s.pending| && PendOne(s, n, canQuery).Ok?
    ensures var r, t := PendOne(s, n, canQuery).s, s.pending[n];
      r.log == s.log + (if Startable(t.offset) then [StartFetcher(t.part, t.offset)] else [])
  {
    hide Startable;
  }

  /** What it starts. */
  lemma {:induction false} PendFromStarts(s: State, n: nat, canQuery: bool, e: Effect)
    requires n <= |s.pending| && PendFrom(s, n, canQuery).Ok?
    ensures s.log <= PendFrom(s, n, canQuery).s.log
    ensures e in Sent(s, PendFrom(s, n, canQuery).s) <==> Starts(s.pending[..n], e)
    decreases n
  {
    hide Startable, PendOne, Starts;
    StartsNone(e);
    if n != 0 {
      var t, s' := s.pending[n - 1], PendOne(s, n - 1, canQuery).s;
      PendOneMoves(s, n - 1, canQuery);
      PendOneStarts(s, n - 1, canQuery);
      PendFromStarts(s', n - 1, canQuery, e);
      var r := PendFrom(s, n, canQuery).s;
      assert Sent(s, r) == Sent(s, s') + Sent(s', r);
      assert s.pending[..n] == s.pending[..n - 1] + [t];
      StartsSnoc(s.pending[..n - 1], t, e);
    }
  }

  lemma StartsNone(e: Effect)
    ensures !Starts([], e)
  {}

  lemma StartsSnoc(ts: seq<Tp>, t: Tp, e: Effect)
    ensures Starts(ts + [t], e) <==> Starts(ts, e) || (Startable(t.offset) && e == StartFetcher(t.part, t.offset))
  {
    hide Startable;
    assert (ts + [t])[|ts|] == t;
    forall u | u in ts ensures u in ts + [t] {}
  }

  /**
    Where one `serve` takes the pending partitions: with a query, those to be asked for go
    on `queried` and nothing stays pending; without one, they stay.
   */
  lemma ServeFlow(s: State, env: Env, t: Tp)
    requires Inv(s)
    ensures Serve(s, env).Ok?
    ensures var r := Serve(s, env).s;
      && (t in r.pending ==> t in s.pending)
      && (r.queries != s.queries ==> r.pending == [] && (t in r.queried <==> t in s.pending && !Startable(t.offset)))
      && (r.queries == s.queries && t in s.pending && !Startable(t.offset) ==> t in r.pending)
  {
    hide Serve, AfterRemovals, ServePending, Inv, PendFrom, Startable;
    var s1, s2, pend := ServeParts(s, env);
    if pend {
      PendingFlow(s1, env, t);
    }
  }

  lemma PendingFlow(s: State, env: Env, t: Tp)
    requires ServePending(s, env).Ok?
    ensures var r := ServePending(s, env).s;
      && (t in r.pending ==> t in s.pending)
      && (r.queries != s.queries ==> r.pending == [] && (t in r.queried <==> t in s.pending && !Startable(t.offset)))
      && (r.queries == s.queries && t in s.pending && !Startable(t.offset) ==> t in r.pending)
  {
    hide PendFrom, Startable;
    var n, q := |s.pending|, CanQuery(s, env);
    assert s.pending[..n] == s.pending && s.pending[n..] == [];
    PendFromPending(s, n, q);
    PendFromQueried(s, n, q, t);
    PendFromSent(s, n, q);
    WaitingAre(s.pending, t);
  }

  // ------------------------------------------------------------------ when a partition was assigned

  /** The event is an `add` that goes through and names `x`. */
  ghost predicate Adds(s: State, e: Event, x: Part) {
    e.EvAdd? && Add(s, e.parts).Added? && Add(s, e.parts).res.Ok? && x in Parts(e.parts)
  }

  /** The assignment version set by the last `add` of `x`, or 0 when there was none. */
  ghost function AddedAt(es: seq<Event>, x: Part): int {
    if es == [] then 0
    else
      var before, e := Run(es[..|es| - 1]), es[|es| - 1];
      if before.Ok? && Adds(before.s, e, x) then Add(before.s, e.parts).res.s.version
      else AddedAt(es[..|es| - 1], x)
  }

  /** Versions only grow; what is on `queried` was assigned when the last query was sent. */
  ghost predicate Fresh(s: State, at: Part -> int) {
    && (forall x :: at(x) <= s.version)
    && (forall q :: SendQuery(q) in s.log ==> q.version <= s.version)
    && (forall q :: q in s.queries ==> SendQuery(q) in s.log)
    && (s.queried != [] ==> LastQuery(s.log).LastSent?)
    && (forall x :: x in Parts(s.queried) ==> at(x) <= LastVersion(s))
  }

  ghost function LastVersion(s: State): int {
    if LastQuery(s.log).LastSent? then LastQuery(s.log).query.version else s.version
  }

  /** What waits or is queried was assigned after every query but the last one was sent. */
  ghost predicate Newer(s: State, at: Part -> int) {
    && (forall t, q :: t in s.pending && !Startable(t.offset) && SendQuery(q) in s.log ==> at(t.part) > q.version)
    && (forall x, q :: x in Parts(s.queried) && SendQuery(q) in s.log && LastSent(q) != LastQuery(s.log) ==> at(x) > q.version)
  }

  /** A change that queries nothing: the lists shrink, but for `add`, which bumps the version. */
  lemma LessFresh(s: State, r: State, at: Part -> int)
    requires Fresh(s, at) && r.log == s.log && r.version >= s.version && Parts(r.queried) <= Parts(s.queried)
    requires forall q :: q in r.queries ==> q in s.queries
    ensures Fresh(r, at)
  {
    hide LastQuery;
    if r.queried != [] {
      assert r.queried[0].part in Parts(r.queried);
      assert s.queried != [];
    }
  }

  lemma LessNewer(s: State, r: State, at: Part -> int)
    requires Newer(s, at) && r.log == s.log && Parts(r.queried) <= Parts(s.queried)
    requires forall t :: t in r.pending && !Startable(t.offset) ==> t in s.pending
    ensures Newer(r, at)
  {
    hide LastQuery, Startable;
  }

  lemma ServeFresh(s: State, env: Env, at: Part -> int)
    requires Inv(s) && Fresh(s, at)
    ensures Serve(s, env).Ok? && Fresh(Serve(s, env).s, at)
    ensures Newer(s, at) ==> Newer(Serve(s, env).s, at)
  {
    hide Serve, Inv, LastQuery, Startable;
    ServeQueries(s, env);
    var r := Serve(s, env).s;
    assert r.log == s.log + Sent(s, r);
    forall t ensures (t in r.pending ==> t in s.pending)
                  && (r.queries != s.queries ==> r.pending == [] && (t in r.queried <==> t in s.pending && !Startable(t.offset))) {
      ServeFlow(s, env, t);
    }
    if r.queries == s.queries {
      LastQueryKept(s.log, Sent(s, r));
    } else {
      LastQueryNew(s.log, Sent(s, r), Query(r.queried, r.version));
    }
  }

  // ------------------------------------------------------------------ one event

  /** What an accepted `add` does to the lists. */
  lemma AddEffect(s: State, ps: seq<Tp>)
    requires Inv(s) && Add(s, ps).Added? && Add(s, ps).res.Ok?
    ensures var r := Add(s, ps).res.s;
      && r.log == s.log && r.queried == s.queried && r.queries == s.queries && r.version == s.version + 1
      && Parts(ps) !! Parts(s.all)
      && (forall t :: t in r.pending ==> t in s.pending || t.part in Parts(ps))
      && (forall t :: t in s.pending ==> t in r.pending)
      && (forall t :: t in ps ==> Stored(t) in r.pending)
  {
    hide Lists, Fetchers, NoRestop, CheckAdd, Stored;
    AcceptedInput(s, ps);
    var qs := StoredAll(Sort(ps));
    FlagEachOk(s, qs);
    forall t | t in qs ensures t.part in Parts(ps) {
      assert t.part in Parts(qs);
    }
    SortCorrect(ps);
    forall t | t in ps ensures Stored(t) in qs {
      assert t in multiset(Sort(ps));
      var k :| 0 <= k < |Sort(ps)| && Sort(ps)[k] == t;
      assert qs[k] == Stored(t);
    }
  }

  /** The replies of the run carry offsets a fetcher can start from. */
  predicate StartableReply(e: Event) {
    e.EvReply? && e.reply.Offsets? ==> forall t :: t in e.reply.offsets ==> Startable(t.offset)
  }

  /** Replies put on `pending` only what they carry. */
  lemma {:induction false} ApplyEachPending(s: State, offsets: seq<Tp>, err: int, t: Tp)
    ensures t in ApplyEach(s, offsets, err).pending ==> t in s.pending || t in offsets
    ensures t in s.pending ==> t in ApplyEach(s, offsets, err).pending
    decreases |offsets|
  {
    if offsets != [] {
      ApplyEachPending(ApplyOne(s, offsets[0], err), offsets[1..], err, t);
    }
  }

  /** `at` after the event: the parts it adds are assigned now. */
  ghost predicate Reassigned(s: State, e: Event, at: Part -> int, at': Part -> int) {
    forall x :: at'(x) == if Adds(s, e, x) then s.version + 1 else at(x)
  }

  lemma AddFresh(s: State, ps: seq<Tp>, at: Part -> int, at': Part -> int)
    requires Inv(s) && Fresh(s, at) && Reassigned(s, EvAdd(ps), at, at')
    requires Add(s, ps).Added? && Add(s, ps).res.Ok?
    ensures Fresh(Add(s, ps).res.s, at') && (Newer(s, at) ==> Newer(Add(s, ps).res.s, at'))
  {
    hide Add, LastQuery, Startable, Fetchers, NoRestop;
    AddEffect(s, ps);
  }

  /** One event keeps both, the second as long as replies can be started from. */
  lemma StepFresh(s: State, e: Event, at: Part -> int, at': Part -> int)
    requires Inv(s) && Possible(s, e) && Allowed(s, e) && Fresh(s, at) && Reassigned(s, e, at, at')
    ensures Step(s, e).Ok? && Fresh(Step(s, e).s, at')
    ensures Newer(s, at) && StartableReply(e) ==> Newer(Step(s, e).s, at')
  {
    hide Lists, Fetchers, NoRestop, Fresh, Newer, Add, Subtract, Serve, ApplyEach, Distinct, Startable;
    StepExact(s, e);
    if e.EvAdd? && Add(s, e.parts).Added? {
      AddFresh(s, e.parts, at, at');
    } else {
      SameAt(s, s, at, at');
      OtherFresh(s, e, at');
    }
  }

  lemma SameAt(s: State, r: State, at: Part -> int, at': Part -> int)
    requires s == r && forall x :: at(x) == at'(x)
    ensures Fresh(s, at) ==> Fresh(r, at')
    ensures Newer(s, at) ==> Newer(r, at')
  {
    hide LastQuery, Startable;
  }

  lemma OtherFresh(s: State, e: Event, at: Part -> int)
    requires Inv(s) && Possible(s, e) && Allowed(s, e) && Fresh(s, at)
    requires e.EvAdd? ==> Add(s, e.parts).Rejected?
    ensures Step(s, e).Ok? && Fresh(Step(s, e).s, at)
    ensures Newer(s, at) && StartableReply(e) ==> Newer(Step(s, e).s, at)
  {
    hide Lists, Fetchers, NoRestop, Fresh, Newer, Add, Subtract, Serve, Distinct, Startable, ApplyEach;
    StepExact(s, e);
    match e {
      case EvAdd(ps) =>
      case EvSubtract(ps) =>
        if Subtract(s, ps).Added? {
          var r := Subtract(s, ps).res.s;
          SubtractQueried(s, ps);
          SubtractPending(s, ps);
          LessFresh(s, r, at);
          if Newer(s, at) { LessNewer(s, r, at); }
        }
      case EvClear => ClearFresh(s, at);
      case EvServe(env) => ServeFresh(s, env, at);
      case EvStopped(q, env) =>
        var s' := s.(waitStopCnt := s.waitStopCnt - 1, started := s.started - {q},
                     startedCnt := s.startedCnt - 1, stops := s.stops - multiset{q});
        StopTaken(s, q, s');
        CountsFresh(s, s', at);
        ServeFresh(s', env, at);
      case EvCommitSent => CountsFresh(s, Step(s, e).s, at);
      case EvCommitDone(env) =>
        CommitTaken(s);
        var s' := s.(waitCommitCnt := s.waitCommitCnt - 1);
        CountsFresh(s, s', at);
        ServeFresh(s', env, at);
      case EvReply(i, reply, env) => ReplyFresh(s, i, reply, env, at);
    }
  }

  lemma CountsFresh(s: State, r: State, at: Part -> int)
    requires Fresh(s, at) && r.log == s.log && r.version == s.version && r.queried == s.queried
    requires r.queries == s.queries && r.pending == s.pending
    ensures Fresh(r, at) && (Newer(s, at) ==> Newer(r, at))
  {
    hide LastQuery, Startable, Fresh, Newer;
    LessFresh(s, r, at);
    if Newer(s, at) {
      LessNewer(s, r, at);
    }
  }

  lemma ClearFresh(s: State, at: Part -> int)
    requires Fresh(s, at)
    ensures Fresh(Clear(s), at) && (Newer(s, at) ==> Newer(Clear(s), at))
  {
    hide LastQuery, Startable, Fresh, Newer;
    LessFresh(s, Clear(s), at);
    if Newer(s, at) {
      LessNewer(s, Clear(s), at);
    }
  }

  lemma {:induction false} SubFromPending(s: State, ps: seq<Tp>, n: nat)
    requires n <= |ps| && SubFrom(s, ps, n).Ok?
    ensures forall t :: t in SubFrom(s, ps, n).s.pending ==> t in s.pending
    ensures forall t :: t in s.pending && t.part !in Parts(ps) ==> t in SubFrom(s, ps, n).s.pending
    ensures SubFrom(s, ps, n).s.version == s.version
    decreases n
  {
    hide SubOne, Parts;
    if n != 0 {
      SubOnePending(s, ps[n - 1]);
      PartIn(ps, n - 1);
      SubFromPending(SubOne(s, ps[n - 1]).s, ps, n - 1);
    }
  }

  lemma SubOnePending(s: State, t: Tp)
    requires SubOne(s, t).Ok?
    ensures forall u :: u in SubOne(s, t).s.pending ==> u in s.pending
    ensures forall u :: u in s.pending && u.part != t.part ==> u in SubOne(s, t).s.pending
    ensures SubOne(s, t).s.version == s.version
  {
    DelKeeps(s.pending, t.part);
  }

  lemma PartIn(ps: seq<Tp>, i: nat)
    requires i < |ps|
    ensures ps[i].part in Parts(ps)
  {}

  lemma {:induction false} DelKeeps(s: seq<Tp>, p: Part)
    ensures forall t :: t in Del(s, p) ==> t in s
    ensures forall t :: t in s && t.part != p ==> t in Del(s, p)
  {
    if s != [] {
      assert s == [s[0]] + s[1..];
      DelKeeps(s[1..], p);
    }
  }

  lemma SubtractPending(s: State, ps: seq<Tp>)
    requires Subtract(s, ps).Added? && Subtract(s, ps).res.Ok?
    ensures var r := Subtract(s, ps).res.s;
      && r.version == s.version + 1
      && (forall t :: t in r.pending ==> t in s.pending)
      && (forall t :: t in s.pending && t.part !in Parts(ps) ==> t in r.pending)
  {
    hide SubFrom, Sort, CheckSubtract;
    var q := Sort(ps);
    SortParts(ps);
    SubFromPending(s, q, |q|);
  }

  lemma ReplyFresh(s: State, i: nat, reply: Reply, env: Env, at: Part -> int)
    requires Inv(s) && i < |s.queries| && Fresh(s, at) && HandleOffsetFetch(s, i, reply, env).Ok?
    ensures Fresh(HandleOffsetFetch(s, i, reply, env).s, at)
    ensures Newer(s, at) && StartableReply(EvReply(i, reply, env)) ==> Newer(HandleOffsetFetch(s, i, reply, env).s, at)
  {
    hide Lists, Fetchers, NoRestop, Fresh, Newer, Serve, Startable, ApplyEach;
    var s' := s.(queries := s.queries[..i] + s.queries[i + 1..]);
    LessFresh(s, s', at);
    if Newer(s, at) {
      LessNewer(s, s', at);
    }
    if reply.Offsets? {
      QueriesInv(s, s'.queries);
      ApplyEachEffect(s', reply.offsets, reply.err);
      ApplyEachInv(s', reply.offsets, reply.err);
      var s2 := ApplyEach(s', reply.offsets, reply.err);
      LessFresh(s', s2, at);
      if Newer(s, at) && StartableReply(EvReply(i, reply, env)) {
        forall t | t in s2.pending && !Startable(t.offset) ensures t in s'.pending {
          ApplyEachPending(s', reply.offsets, reply.err, t);
        }
        LessNewer(s', s2, at);
      }
      ServeFresh(s2, env, at);
    }
  }

  // ------------------------------------------------------------------ whole runs

  predicate StartableRun(es: seq<Event>) {
    forall k :: 0 <= k < |es| ==> StartableReply(es[k])
  }

  lemma {:induction false} RunFresh(es: seq<Event>)
    requires AllowedRun(es)
    ensures Run(es).Ok? && Inv(Run(es).s) && Fresh(Run(es).s, x => AddedAt(es, x))
    ensures StartableRun(es) ==> Newer(Run(es).s, x => AddedAt(es, x))
  {
    hide Inv, Allowed, Step, Possible, Fresh, Newer, Init, StartableReply;
    if es == [] {
      InitFresh(x => AddedAt(es, x));
      InitInv();
    } else {
      var before, e := es[..|es| - 1], es[|es| - 1];
      RunFresh(before);
      var s := Run(before).s;
      StepExact(s, e);
      var at, at' := (x => AddedAt(before, x)), (x => AddedAt(es, x));
      AddedNow(es);
      StepFresh(s, e, at, at');
    }
  }

  lemma InitFresh(at: Part -> int)
    requires forall x :: at(x) == 0
    ensures Fresh(Init(), at) && Newer(Init(), at)
  {}

  lemma AddedNow(es: seq<Event>)
    requires es != [] && Run(es[..|es| - 1]).Ok? && Inv(Run(es[..|es| - 1]).s)
    ensures Reassigned(Run(es[..|es| - 1]).s, es[|es| - 1], x => AddedAt(es[..|es| - 1], x), x => AddedAt(es, x))
  {
    hide Inv, Add, Run;
    var s, e := Run(es[..|es| - 1]).s, es[|es| - 1];
    if e.EvAdd? && Add(s, e.parts).Added? && Add(s, e.parts).res.Ok? {
      AddEffect(s, e.parts);
    }
  }

  /**
    On every allowed run, a partition on `queried` was last assigned before the query sent
    last, so a reply to that query is never stale.
   */
  lemma LastReplyFresh(es: seq<Event>, x: Part)
    requires AllowedRun(es)
    ensures Run(es).Ok?
    ensures var s := Run(es).s;
      x in Parts(s.queried) ==> LastQuery(s.log).LastSent? && AddedAt(es, x) <= LastQuery(s.log).query.version
  {
    hide Inv, Newer, Run, AllowedRun, LastQuery;
    RunFresh(es);
    var s := Run(es).s;
    if x in Parts(s.queried) {
      assert s.queried != [];
    }
  }

  /**
    Exactly when an outstanding reply would bring a stale offset: for a partition that is
    on `queried`, the offset in the reply to query `i` is stale if and only if another
    query was sent last. Replies are taken to carry offsets a fetcher can start from, which
    is what the reply parser produces.
   */
  lemma StaleExactly(es: seq<Event>, i: nat, x: Part)
    requires AllowedRun(es) && StartableRun(es)
    ensures Run(es).Ok?
    ensures var s := Run(es).s;
      i < |s.queries| && x in Parts(s.queried) ==>
        (AddedAt(es, x) > s.queries[i].version <==> LastQuery(s.log) != LastSent(s.queries[i]))
  {
    hide Inv, Run, AllowedRun, LastQuery;
    RunFresh(es);
    LastReplyFresh(es, x);
    var s := Run(es).s;
    if i < |s.queries| {
      assert s.queries[i] in s.queries;
    }
  }

  /** A reply uses its offset for exactly the partitions that are on `queried`. */
  ghost predicate UsesStale(es: seq<Event>, s: State, i: nat, offsets: seq<Tp>)
    requires i < |s.queries|
  {
    exists x :: x in Parts(offsets) && x in Parts(s.queried) && AddedAt(es, x) > s.queries[i].version
  }

  /** A reply uses a stale offset if and only if it is used at all and its query is not the last. */
  lemma ReplyStaleExactly(es: seq<Event>, i: nat, offsets: seq<Tp>)
    requires AllowedRun(es) && StartableRun(es)
    ensures Run(es).Ok?
    ensures var s := Run(es).s;
      i < |s.queries| ==>
        (UsesStale(es, s, i, offsets)
         <==> LastQuery(s.log) != LastSent(s.queries[i]) && !(Parts(offsets) !! Parts(s.queried)))
  {
    hide Inv, Run, AllowedRun, LastQuery;
    RunFresh(es);
    var s := Run(es).s;
    forall x ensures i < |s.queries| && x in Parts(s.queried) ==>
      (AddedAt(es, x) > s.queries[i].version <==> LastQuery(s.log) != LastSent(s.queries[i])) {
      StaleExactly(es, i, x);
    }
  }

  // ------------------------------------------------------------------ waiting on pending

  /** The event does not unassign `x`. */
  predicate Keeps(e: Event, x: Part) {
    match e
    case EvSubtract(ps) => x !in Parts(ps)
    case EvClear => false
    case _ => true
  }

  lemma ServeWaits(s: State, env: Env, t: Tp)
    requires Inv(s) && s.queried != [] && t in s.pending && !Startable(t.offset)
    ensures Serve(s, env).Ok? && t in Serve(s, env).s.pending
  {
    hide Serve, Inv, Startable;
    ServeQueries(s, env);
    ServeFlow(s, env, t);
  }

  /** In the window, a partition that has to be asked for stays on `pending`. */
  lemma StepWaits(s: State, e: Event, p: Part, t: Tp)
    requires Inv(s) && Possible(s, e) && Allowed(s, e) && Stays(s, e, p) && Keeps(e, t.part)
    requires t in s.pending && !Startable(t.offset)
    ensures Step(s, e).Ok? && t in Step(s, e).s.pending
  {
    hide Lists, Fetchers, NoRestop, Add, Subtract, Serve, Distinct, Startable, ApplyEach;
    StepExact(s, e);
    assert s.queried != [];
    match e {
      case EvAdd(ps) => if Add(s, ps).Added? { AddEffect(s, ps); }
      case EvSubtract(ps) => if Subtract(s, ps).Added? { SubtractPending(s, ps); }
      case EvClear =>
      case EvServe(env) => ServeWaits(s, env, t);
      case EvStopped(q, env) =>
        var s' := s.(waitStopCnt := s.waitStopCnt - 1, started := s.started - {q},
                     startedCnt := s.startedCnt - 1, stops := s.stops - multiset{q});
        StopTaken(s, q, s');
        ServeWaits(s', env, t);
      case EvCommitSent =>
      case EvCommitDone(env) =>
        CommitTaken(s);
        ServeWaits(s.(waitCommitCnt := s.waitCommitCnt - 1), env, t);
      case EvReply(i, reply, env) =>
        if reply.Offsets? {
          var s' := s.(queries := s.queries[..i] + s.queries[i + 1..]);
          QueriesInv(s, s'.queries);
          ApplyEachEffect(s', reply.offsets, reply.err);
          ApplyEachInv(s', reply.offsets, reply.err);
          ApplyEachPending(s', reply.offsets, reply.err, t);
          var s2 := ApplyEach(s', reply.offsets, reply.err);
          assert p in Parts(s2.queried) && s2.queried != [];
          ServeWaits(s2, env, t);
        }
    }
  }

  lemma {:induction false} WindowWaits(s: State, es: seq<Event>, p: Part, t: Tp)
    requires Inv(s) && Window(s, es, p) && t in s.pending && !Startable(t.offset)
    requires forall k :: 0 <= k < |es| ==> Keeps(es[k], t.part)
    ensures RunFrom(s, es).Ok? && t in RunFrom(s, es).s.pending
    decreases |es|
  {
    hide Inv, Allowed, Stays, Step, Possible, Keeps, Startable;
    if es != [] {
      StepExact(s, es[0]);
      StepWaits(s, es[0], p, t);
      WindowWaits(Step(s, es[0]).s, es[1..], p, t);
    }
  }

  /**
    A partition assigned (again) inside the window, with a start position that has to be
    asked for, waits on `pending` to the end of the window and is not on `queried`, and the
    reply that ends the window leaves it waiting.
   */
  lemma ReassignedWaits(s: State, ps: seq<Tp>, es: seq<Event>, p: Part, t: Tp, offsets: seq<Tp>, err: int)
    requires Inv(s) && Window(s, [EvAdd(ps)] + es, p)
    requires t in ps && Add(s, ps).Added? && !Startable(Stored(t).offset)
    requires forall k :: 0 <= k < |es| ==> Keeps(es[k], t.part)
    ensures RunFrom(s, [EvAdd(ps)] + es).Ok?
    ensures var r := RunFrom(s, [EvAdd(ps)] + es).s;
      && Stored(t) in r.pending && t.part !in Parts(r.queried)
      && Stored(t) in ApplyEach(r, offsets, err).pending && t.part !in Parts(ApplyEach(r, offsets, err).queried)
  {
    hide Inv, Add, Startable, Stored, Window, RunFrom, ApplyEach;
    var e := EvAdd(ps);
    WindowCons(s, e, es, p);
    var s1 := Step(s, e).s;
    StepExact(s, e);
    AddEffect(s, ps);
    StoredPart(t);
    NotQueried(s, ps, t);
    WindowWaits(s1, es, p, Stored(t));
    WindowNoQuery(s1, es, p);
    RunCons(s, e, es);
    var r := RunFrom(s1, es).s;
    ApplyEachPending(r, offsets, err, Stored(t));
    ApplyEachEffect(r, offsets, err);
  }

  lemma WindowCons(s: State, e: Event, es: seq<Event>, p: Part)
    requires Window(s, [e] + es, p)
    ensures Possible(s, e) && Allowed(s, e) && Step(s, e).Ok? && Window(Step(s, e).s, es, p)
  {
    hide Step, Allowed, Stays;
    assert ([e] + es)[1..] == es;
  }

  lemma StoredPart(t: Tp)
    ensures Stored(t).part == t.part
  {}

  lemma NotQueried(s: State, ps: seq<Tp>, t: Tp)
    requires Inv(s) && t in ps && Add(s, ps).Added? && Add(s, ps).res.Ok?
    ensures t.part !in Parts(Add(s, ps).res.s.queried)
  {
    hide Add, Fetchers, NoRestop;
    AddEffect(s, ps);
    assert t.part in Parts(ps);
  }

  // ------------------------------------------------------------------ what a reply starts

  /** Stops or commits are outstanding, or the removals served first cause some. */
  ghost predicate Blocked(s: State, env: Env) {
    || s.waitStopCnt > 0 || s.waitCommitCnt > 0
    || (exists t :: t in s.removed && t.part in s.started)
    || CommitDue(s, env)
  }

  /** Some removed partition has an offset to commit, and committing is automatic. */
  ghost predicate CommitDue(s: State, env: Env) {
    env.autoCommit && exists t :: t in s.removed && t.part in env.stored && env.stored[t.part] >= 0
  }

  lemma CommitDueExact(s: State, env: Env)
    ensures CommitDue(s, env) <==> s.removed != [] && env.autoCommit && AnyValid(env, s.removed)
  {
    if AnyValid(env, s.removed) {
      var t :| t in s.removed && !Logical(StoredOffset(env, t.part));
      assert t.part in env.stored && env.stored[t.part] >= 0;
    }
    if CommitDue(s, env) {
      var t :| t in s.removed && t.part in env.stored && env.stored[t.part] >= 0;
      assert !Logical(StoredOffset(env, t.part));
    }
  }

  lemma RemovalsBlock(s: State, env: Env)
    requires Inv(s)
    ensures ServeRemovals(s, env).Ok?
    ensures var r := ServeRemovals(s, env).s;
      s.removed != [] ==> (r.waitStopCnt == 0 && r.waitCommitCnt == 0 <==> !Blocked(s, env))
  {
    hide RemoveEach, AnyValid, CommitDue;
    CommitDueExact(s, env);
    RemoveEachStops(s, s.removed);
    var r := RemoveEach(s, s.removed).s;
    if exists t :: t in s.removed && t.part in s.started {
      var t :| t in s.removed && t.part in s.started;
      assert r.stops[t.part] >= 1;
      assert |r.stops| > 0;
    } else if |s.stops| == 0 {
      assert forall p :: r.stops[p] == 0;
      assert r.stops == multiset{};
    } else {
      forall p ensures s.stops[p] <= r.stops[p] {
        assert r.stops[p] == s.stops[p] + (if p in s.started && p in Parts(s.removed) then 1 else 0);
      }
      LargerBag(s.stops, r.stops);
    }
  }

  lemma LargerBag(a: multiset<Part>, b: multiset<Part>)
    requires forall p :: a[p] <= b[p]
    ensures |a| <= |b|
  {
    var c := a + (b - a);
    forall p ensures c[p] == b[p] {
      assert a[p] <= b[p];
    }
    assert c == b;
  }

  /** Exactly which fetchers a `serve` starts. */
  lemma ServeStartsExactly(s: State, env: Env, t: Tp)
    requires Inv(s) && t in s.pending
    ensures Serve(s, env).Ok? && s.log <= Serve(s, env).s.log
    ensures StartFetcher(t.part, t.offset) in Sent(s, Serve(s, env).s) <==> Startable(t.offset) && !Blocked(s, env)
  {
    hide Lists, NoRestop, Serve, AfterRemovals, ServePending, Startable, PendFrom, AnyValid, Blocked;
    var e := StartFetcher(t.part, t.offset);
    var s1, s2, pend := ServeParts(s, env);
    ServedFirst(s, env);
    var r := Serve(s, env).s;
    assert Sent(s, r) == Sent(s, s1) + Sent(s1, s2) + Sent(s2, r);
    assert Sent(s2, r) == [] || Sent(s2, r) == [AssignmentDone];
    if pend {
      PendingStarts(s1, env, e);
    }
  }

  lemma ServedFirst(s: State, env: Env)
    requires Inv(s)
    ensures var r := AfterRemovals(s, env); r.waitStopCnt == 0 && r.waitCommitCnt == 0 <==> !Blocked(s, env)
  {
    hide ServeRemovals, AnyValid, Lists, NoRestop;
    RemovalsBlock(s, env);
  }

  lemma PendingStarts(s: State, env: Env, e: Effect)
    requires ServePending(s, env).Ok? && e.StartFetcher?
    ensures s.log <= ServePending(s, env).s.log
    ensures e in Sent(s, ServePending(s, env).s) <==> Starts(s.pending, e)
  {
    hide PendFrom, Starts;
    var n, q := |s.pending|, CanQuery(s, env);
    assert s.pending[..n] == s.pending;
    PendFromStarts(s, n, q, e);
    var r1, r := PendFrom(s, n, q).s, ServePending(s, env).s;
    assert Sent(s, r) == Sent(s, r1) || Sent(s, r) == Sent(s, r1) + [SendQuery(Query(r1.queried, r1.version))];
  }

  /** The reply puts the partition back on `pending`: no error, or a blocking transaction. */
  predicate GoesBack(t: Tp, err: int) {
    || err == ERR_UNSTABLE_OFFSET_COMMIT || t.err == ERR_UNSTABLE_OFFSET_COMMIT
    || (t.err == ERR_NONE && err == ERR_NONE)
  }

  lemma {:induction false} ApplyEachBack(s: State, offsets: seq<Tp>, err: int, k: nat)
    requires Inv(s) && k < |offsets| && offsets[k].part in Parts(s.queried) && GoesBack(offsets[k], err)
    requires offsets[k].part !in Parts(offsets[..k])
    ensures offsets[k] in ApplyEach(s, offsets, err).pending
    decreases k
  {
    hide Inv;
    ApplyOneEffect(s, offsets[0], err);
    var s' := ApplyOne(s, offsets[0], err);
    if k == 0 {
      ApplyEachPending(s', offsets[1..], err, offsets[0]);
    } else {
      assert offsets[..k] == [offsets[0]] + offsets[1..][..k - 1];
      PartsCons(offsets[0], offsets[1..][..k - 1]);
      ApplyEachBack(s', offsets[1..], err, k - 1);
    }
  }

  lemma {:induction false} ApplyEachSame(s: State, offsets: seq<Tp>, err: int)
    ensures var r := ApplyEach(s, offsets, err);
      && r.waitStopCnt == s.waitStopCnt && r.waitCommitCnt == s.waitCommitCnt
      && r.removed == s.removed && r.started == s.started && r.log == s.log
    decreases |offsets|
  {
    if offsets != [] {
      ApplyEachSame(ApplyOne(s, offsets[0], err), offsets[1..], err);
    }
  }

  /**
    What becomes of a queried partition that a reply puts back on `pending`, be it for a
    committed offset or because a transaction blocks the retrieval: its fetcher is started
    at once, at the offset in the reply, exactly when that offset can be started from
    (INVALID included) and no stop or commit is or becomes outstanding.
   */
  lemma ReplyStartsExactly(s: State, i: nat, offsets: seq<Tp>, err: int, env: Env, k: nat)
    requires Inv(s) && i < |s.queries| && k < |offsets| && offsets[k].part in Parts(s.queried)
    requires offsets[k].part !in Parts(offsets[..k]) && GoesBack(offsets[k], err)
    ensures HandleOffsetFetch(s, i, Offsets(offsets, err), env).Ok?
    ensures var r, t := HandleOffsetFetch(s, i, Offsets(offsets, err), env).s, offsets[k];
      && s.log <= r.log
      && (StartFetcher(t.part, t.offset) in Sent(s, r) <==> Startable(t.offset) && !Blocked(s, env))
  {
    hide Lists, Fetchers, NoRestop, Serve, Startable, ApplyEach, AnyValid;
    var s' := s.(queries := s.queries[..i] + s.queries[i + 1..]);
    QueriesInv(s, s'.queries);
    ApplyEachInv(s', offsets, err);
    ApplyEachBack(s', offsets, err, k);
    ApplyEachSame(s', offsets, err);
    ServeStartsExactly(ApplyEach(s', offsets, err), env, offsets[k]);
  }
}
