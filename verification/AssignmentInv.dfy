/**
  What every run of the assignment state machine keeps, and exactly when the assertions
  in cbits/hs_rdkafka_assignment.c can fail.
 */
module AssignmentInv {
  import opened TopParList
  import opened Assignment

  ghost predicate Lists(s: State) {
    && Distinct(s.all) && Distinct(s.pending) && Distinct(s.queried) && Distinct(s.removed)
    && Parts(s.pending) <= Parts(s.all) && Parts(s.queried) <= Parts(s.all)
    && Parts(s.pending) !! Parts(s.queried) && Parts(s.removed) !! Parts(s.all)
    && s.flagged == Parts(s.all) + Parts(s.removed)
  }

  /** Stop replies outstanding, each at most once. */
  ghost predicate Single(m: multiset<Part>) {
    forall p :: m[p] <= 1
  }

  /** No partition is being unassigned again while its stop reply is outstanding. */
  ghost predicate NoRestop(s: State) {
    forall p :: p in s.stops ==> p !in Parts(s.removed)
  }

  ghost predicate Fetchers(s: State) {
    && s.startedCnt == |s.started| && s.waitStopCnt == |s.stops| && s.waitCommitCnt >= 0
    && Single(s.stops)
    && (forall p :: p in s.stops ==> p in s.started)
    && (forall p :: p in s.stops && p in Parts(s.all) ==> p in Parts(s.pending))
    && (forall p :: p in s.started && p in Parts(s.pending) ==> p in s.stops)
    && s.started !! Parts(s.queried)
    && (forall p :: p in s.started ==> p in s.stops || p in Parts(s.all) || p in Parts(s.removed))
  }

  /** The invariant of the assignment. */
  ghost predicate Inv(s: State) {
    Lists(s) && Fetchers(s) && NoRestop(s)
  }

  lemma InitInv()
    ensures Inv(Init())
  {}

  // ------------------------------------------------------------------ serve_removals

  lemma RemoveOneInv(s: State, t: Tp, rest: seq<Tp>)
    requires Inv(s.(removed := [t] + rest))
    ensures RemoveOne(s, t.part).Ok? && Inv(RemoveOne(s, t.part).s.(removed := rest))
  {
    var p := t.part;
    PartsCons(t, rest);
    DistinctCons(t, rest);
    DelAbsent(s.pending, p);
    DelAbsent(s.queried, p);
    if p in s.started {
      assert {p} <= s.started;
    }
  }

  lemma {:induction false} RemoveEachInv(s: State, rest: seq<Tp>)
    requires Inv(s.(removed := rest))
    ensures RemoveEach(s, rest).Ok? && Inv(RemoveEach(s, rest).s.(removed := []))
    decreases |rest|
  {
    hide Lists, Fetchers, NoRestop, RemoveOne;
    if rest != [] {
      assert rest == [rest[0]] + rest[1..];
      RemoveOneInv(s, rest[0], rest[1..]);
      RemoveEachInv(RemoveOne(s, rest[0].part).s, rest[1..]);
    }
  }

  lemma ServeRemovalsInv(s: State, env: Env)
    requires Inv(s)
    ensures ServeRemovals(s, env).Ok? && Inv(ServeRemovals(s, env).s)
  {
    hide RemoveEach, AnyValid;
    assert s.(removed := s.removed) == s;
    RemoveEachInv(s, s.removed);
  }

  // ------------------------------------------------------------------ serve_pending

  lemma DropParts(s: seq<Tp>, i: nat)
    requires i < |s| && Distinct(s)
    ensures Distinct(s[..i] + s[i + 1..])
    ensures Parts(s[..i] + s[i + 1..]) == Parts(s) - {s[i].part}
  {
    var r := s[..i] + s[i + 1..];
    assert forall k :: 0 <= k < |r| ==> r[k] == if k < i then s[k] else s[k + 1];
    forall p | p in Parts(s) && p != s[i].part ensures p in Parts(r) {
      var k :| 0 <= k < |s| && s[k].part == p;
      assert r[if k < i then k else k - 1] == s[k];
    }
  }

  /** With no stop outstanding, a pending partition may be started or queried. */
  lemma PendOneInv(s: State, i: nat, canQuery: bool)
    requires Inv(s) && s.waitStopCnt == 0 && i < |s.pending|
    ensures var r := PendOne(s, i, canQuery);
      r.Ok? && Inv(r.s) && r.s.waitStopCnt == 0 && r.s.removed == s.removed && |r.s.pending| >= i
  {
    hide Startable, Inv;
    var t := s.pending[i];
    assert t in s.pending && t.part in Parts(s.pending);
    NothingStopping(s, t.part);
    var r := PendOne(s, i, canQuery);
    if r.s.queried == s.queried && r.s != s {
      PendStarted(s, i, r.s);
    } else if r.s != s {
      PendQueried(s, i, r.s);
    }
  }

  lemma NothingStopping(s: State, p: Part)
    requires Inv(s) && s.waitStopCnt == 0 && p in Parts(s.pending)
    ensures p !in s.started && p !in Parts(s.queried)
  {
    assert s.stops == multiset{};
  }

  lemma PendStarted(s: State, i: nat, r: State)
    requires Inv(s) && s.waitStopCnt == 0 && i < |s.pending| && s.pending[i].part !in s.started
    requires r == s.(pending := s.pending[..i] + s.pending[i + 1..], started := s.started + {s.pending[i].part},
                     startedCnt := s.startedCnt + 1, log := r.log)
    ensures Inv(r)
  {
    assert s.pending[i] in s.pending && s.pending[i].part in Parts(s.pending);
    assert s.stops == multiset{};
    DropParts(s.pending, i);
  }

  lemma PendQueried(s: State, i: nat, r: State)
    requires Inv(s) && i < |s.pending| && s.pending[i].part !in s.started
    requires s.pending[i].part !in Parts(s.queried)
    requires r == s.(pending := s.pending[..i] + s.pending[i + 1..], queried := s.queried + [s.pending[i]])
    ensures Inv(r)
  {
    assert s.pending[i] in s.pending && s.pending[i].part in Parts(s.pending);
    DropParts(s.pending, i);
    DistinctSnoc(s.queried, s.pending[i]);
  }

  lemma LogInv(s: State, l: seq<Effect>)
    requires Inv(s)
    ensures Inv(s.(log := l))
  {}

  lemma DistinctSnoc(s: seq<Tp>, t: Tp)
    requires Distinct(s) && t.part !in Parts(s)
    ensures Distinct(s + [t]) && Parts(s + [t]) == Parts(s) + {t.part}
  {
    DistinctConcat(s, [t]);
    PartsConcat(s, [t]);
  }

  lemma {:induction false} PendFromInv(s: State, n: nat, canQuery: bool)
    requires Inv(s) && s.waitStopCnt == 0 && n <= |s.pending|
    ensures var r := PendFrom(s, n, canQuery); r.Ok? && Inv(r.s) && r.s.removed == s.removed
    decreases n
  {
    hide Inv, PendOne;
    if n != 0 {
      PendOneInv(s, n - 1, canQuery);
      PendFromInv(PendOne(s, n - 1, canQuery).s, n - 1, canQuery);
    }
  }

  lemma ServePendingInv(s: State, env: Env)
    requires Inv(s) && s.waitStopCnt == 0
    ensures ServePending(s, env).Ok? && Inv(ServePending(s, env).s)
  {
    hide PendFrom;
    PendFromInv(s, |s.pending|, CanQuery(s, env));
  }

  /** No assertion in `serve` can fail, and it keeps the invariant. */
  lemma ServeInv(s: State, env: Env)
    requires Inv(s)
    ensures Serve(s, env).Ok? && Inv(Serve(s, env).s)
  {
    hide ServeRemovals, ServePending, Lists, Fetchers, NoRestop;
    assert forall r, l :: Inv(r) ==> Inv(r.(log := l)) by {
      forall r, l | Inv(r) ensures Inv(r.(log := l)) { LogInv(r, l); }
    }
    ServeRemovalsInv(s, env);
    var s1 := if s.removed != [] then ServeRemovals(s, env).s else s;
    if s1.waitStopCnt == 0 {
      ServePendingInv(s1, env);
    }
  }

  // ------------------------------------------------------------------ changes

  lemma {:induction false} FlagEachOk(s: State, ps: seq<Tp>)
    requires Distinct(ps)
    ensures FlagEach(s, ps).Ok? <==> Parts(ps) !! s.flagged
    ensures FlagEach(s, ps).Ok? ==> FlagEach(s, ps).s == s.(flagged := s.flagged + Parts(ps))
    decreases |ps|
  {
    if ps != [] {
      var t, r := ps[0], ps[1..];
      assert ps == [t] + r;
      PartsCons(t, r);
      DistinctCons(t, r);
      FlagEachOk(s.(flagged := s.flagged + {t.part}), r);
      assert s.flagged + {t.part} + Parts(r) == s.flagged + Parts(ps);
    }
  }

  lemma {:induction false} CheckAddOk(all: seq<Tp>, ps: seq<Tp>, i: nat)
    requires i <= |ps| && CheckAdd(all, ps, i) == []
    ensures forall k :: i <= k < |ps| ==> ps[k].part !in Parts(all)
    ensures forall k :: i <= k < |ps| && k > 0 ==> ps[k].part != ps[k - 1].part
    decreases |ps| - i
  {
    if i < |ps| {
      CheckAddOk(all, ps, i + 1);
    }
  }

  lemma StoredParts(ps: seq<Tp>)
    ensures Parts(StoredAll(ps)) == Parts(ps) && (Distinct(ps) ==> Distinct(StoredAll(ps)))
  {
    var r := StoredAll(ps);
    assert forall i :: 0 <= i < |ps| ==> r[i].part == ps[i].part;
    forall p | p in Parts(ps) ensures p in Parts(r) {
      var i :| 0 <= i < |ps| && ps[i].part == p;
      assert r[i] in r;
    }
    forall p | p in Parts(r) ensures p in Parts(ps) {
      var i :| 0 <= i < |r| && r[i].part == p;
      assert ps[i] in ps;
    }
  }

  lemma SortParts(s: seq<Tp>)
    ensures Parts(Sort(s)) == Parts(s) && (Distinct(s) <==> Distinct(Sort(s)))
  {
    SortCorrect(s);
    assert forall t :: t in s <==> t in multiset(s);
    assert forall t :: t in Sort(s) <==> t in multiset(Sort(s));
    if Distinct(s) { DistinctMultiset(s, Sort(s)); }
    if Distinct(Sort(s)) { DistinctMultiset(Sort(s), s); }
  }

  /** What the input list looks like once `assignment_add` accepted it. */
  lemma AcceptedInput(s: State, partitions: seq<Tp>)
    requires Add(s, partitions).Added?
    ensures var ps := StoredAll(Sort(partitions));
      Distinct(ps) && Parts(ps) == Parts(partitions) && Parts(ps) !! Parts(s.all)
  {
    var ps := Sort(partitions);
    CheckAddOk(s.all, ps, 0);
    SortCorrect(partitions);
    NeighboursSuffice(ps);
    StoredParts(ps);
    SortParts(partitions);
    forall p | p in Parts(ps) ensures p !in Parts(s.all) {
      var k :| 0 <= k < |ps| && ps[k].part == p;
    }
  }

  /**
    An accepted `add` fails its flag assertion exactly when one of the partitions was
    unassigned and `serve` has not run since; otherwise it keeps the invariant.
   */
  lemma AddInv(s: State, partitions: seq<Tp>)
    requires Inv(s) && Add(s, partitions).Added?
    ensures Add(s, partitions).res.Ok? <==> Parts(partitions) !! Parts(s.removed)
    ensures Add(s, partitions).res.Ok? ==> Inv(Add(s, partitions).res.s)
  {
    AcceptedInput(s, partitions);
    var ps := StoredAll(Sort(partitions));
    FlagEachOk(s, ps);
    if Parts(partitions) !! Parts(s.removed) {
      DistinctConcat(s.all, ps);
      PartsConcat(s.all, ps);
      DistinctConcat(s.pending, ps);
      PartsConcat(s.pending, ps);
      SortParts(s.all + ps);
      AddedInv(s, Add(s, partitions).res.s, ps);
    }
  }

  lemma AddedInv(s: State, r: State, ps: seq<Tp>)
    requires Inv(s) && Parts(ps) !! Parts(s.all) && Parts(ps) !! Parts(s.removed)
    requires Distinct(r.all) && Parts(r.all) == Parts(s.all) + Parts(ps)
    requires Distinct(r.pending) && Parts(r.pending) == Parts(s.pending) + Parts(ps)
    requires r == s.(all := r.all, pending := r.pending, flagged := s.flagged + Parts(ps), version := r.version)
    ensures Inv(r)
  {}

  lemma SubOneInv(s: State, t: Tp)
    requires Lists(s) && Fetchers(s) && t.part in Parts(s.all)
    ensures SubOne(s, t).Ok?
    ensures var r := SubOne(s, t).s;
      && Lists(r) && Fetchers(r) && r.stops == s.stops
      && Parts(r.all) == Parts(s.all) - {t.part} && Parts(r.removed) == Parts(s.removed) + {t.part}
  {
    var p := t.part;
    DelParts(s.all, p);
    DelParts(s.queried, p);
    DelParts(s.pending, p);
    DistinctSnoc(s.removed, t);
    if p !in Parts(s.queried) {
      DelAbsent(s.queried, p);
    } else {
      DelAbsent(s.pending, p);
    }
    SubOneSets(s, SubOne(s, t).s, p);
  }

  lemma SubOneSets(s: State, r: State, p: Part)
    requires Lists(s) && Fetchers(s) && p in Parts(s.all)
    requires r == s.(all := r.all, pending := r.pending, queried := r.queried, removed := r.removed)
    requires Distinct(r.all) && Distinct(r.pending) && Distinct(r.queried) && Distinct(r.removed)
    requires Parts(r.all) == Parts(s.all) - {p} && Parts(r.removed) == Parts(s.removed) + {p}
    requires Parts(r.pending) == Parts(s.pending) - {p} && Parts(r.queried) == Parts(s.queried) - {p}
    ensures Lists(r) && Fetchers(r)
  {}

  lemma PrefixParts(ps: seq<Tp>, n: nat)
    requires 0 < n <= |ps|
    ensures Parts(ps[..n]) == Parts(ps[..n - 1]) + {ps[n - 1].part}
    ensures Distinct(ps[..n]) <==> Distinct(ps[..n - 1]) && ps[n - 1].part !in Parts(ps[..n - 1])
  {
    var a, t := ps[..n - 1], ps[n - 1];
    assert ps[..n] == a + [t];
    PartsConcat(a, [t]);
    if Distinct(ps[..n]) {
      assert forall i :: 0 <= i < |a| ==> a[i] == ps[..n][i];
      assert ps[..n][n - 1] == t;
    }
    if Distinct(a) && t.part !in Parts(a) {
      DistinctSnoc(a, t);
    }
  }

  lemma {:induction false} SubFromInv(s: State, ps: seq<Tp>, n: nat)
    requires Lists(s) && Fetchers(s) && n <= |ps|
    ensures SubFrom(s, ps, n).Ok? <==> Distinct(ps[..n]) && Parts(ps[..n]) <= Parts(s.all)
    ensures SubFrom(s, ps, n).Ok? ==>
      var r := SubFrom(s, ps, n).s;
      && Lists(r) && Fetchers(r) && r.stops == s.stops
      && Parts(r.removed) == Parts(s.removed) + Parts(ps[..n])
    decreases n
  {
    hide Lists, Fetchers, SubOne, Distinct;
    if n == 0 {
      DistinctEmpty();
      assert ps[..n] == [];
    } else {
      var p := ps[n - 1].part;
      PrefixParts(ps, n);
      if p in Parts(s.all) {
        SubOneInv(s, ps[n - 1]);
        SubFromInv(SubOne(s, ps[n - 1]).s, ps, n - 1);
      } else {
        SubOneFails(s, ps[n - 1]);
      }
    }
  }

  lemma DistinctEmpty()
    ensures Distinct([])
  {}

  lemma SubOneFails(s: State, t: Tp)
    requires t.part !in Parts(s.all)
    ensures SubOne(s, t).Fail?
  {}

  lemma {:induction false} CheckSubtractOk(all: seq<Tp>, ps: seq<Tp>, i: nat)
    requires i <= |ps|
    ensures CheckSubtract(all, ps, i) <==> Parts(ps[i..]) <= Parts(all)
    decreases |ps| - i
  {
    if i < |ps| {
      CheckSubtractOk(all, ps, i + 1);
      assert ps[i..] == [ps[i]] + ps[i + 1..];
      PartsCons(ps[i], ps[i + 1..]);
    }
  }

  lemma NoParts(s: seq<Tp>)
    requires Parts(s) == {}
    ensures s == []
  {
    assert s != [] ==> s[0].part in Parts(s);
  }

  lemma LeftOverNone(s: State)
    requires Lists(s) && s.all == []
    ensures s.pending == [] && s.queried == []
  {
    NoParts(s.pending);
    NoParts(s.queried);
  }

  lemma VersionInv(s: State, v: int)
    ensures Lists(s.(version := v)) <==> Lists(s)
    ensures Fetchers(s.(version := v)) <==> Fetchers(s)
    ensures Inv(s) <==> Lists(s) && Fetchers(s) && NoRestop(s)
  {}

  /** `r` is `s` with partitions unassigned; only the condition on stops may be broken. */
  ghost predicate Unassigned(s: State, r: State, ps: set<Part>) {
    Lists(r) && Fetchers(r) && r.stops == s.stops && Parts(r.removed) == Parts(s.removed) + ps
  }

  /**
    An accepted `subtract` hits its internal error exactly when a partition is listed
    twice, and keeps the invariant exactly when none of them awaits a stop reply.
   */
  lemma SubtractInv(s: State, partitions: seq<Tp>)
    requires Inv(s) && Subtract(s, partitions).Added?
    ensures Subtract(s, partitions).res.Ok? <==> Distinct(partitions)
    ensures Subtract(s, partitions).res.Ok? ==>
      (Inv(Subtract(s, partitions).res.s) <==> forall p :: p in Parts(partitions) ==> p !in s.stops)
    ensures Subtract(s, partitions).res.Ok? ==> Unassigned(s, Subtract(s, partitions).res.s, Parts(partitions))
  {
    hide SubFrom, CheckSubtract, Sort, Distinct, Lists, Fetchers;
    var ps := Sort(partitions);
    SortParts(partitions);
    CheckSubtractOk(s.all, ps, 0);
    assert ps[0..] == ps && ps[..|ps|] == ps;
    SubFromInv(s, ps, |ps|);
    if Distinct(partitions) {
      var r := SubFrom(s, ps, |ps|).s;
      VersionInv(r, s.version + 1);
      if r.all == [] {
        LeftOverNone(r);
      }
    }
  }

  /** `clear` keeps the invariant exactly when no assigned partition awaits a stop reply. */
  lemma ClearInv(s: State)
    requires Inv(s)
    ensures Inv(Clear(s)) <==> forall p :: p in Parts(s.all) ==> p !in s.stops
    ensures Unassigned(s, Clear(s), Parts(s.all))
  {
    if s.all != [] {
      PartsConcat(s.removed, s.all);
      DistinctConcat(s.removed, s.all);
      var r := Clear(s);
      assert Parts(r.all) == {} && Parts(r.pending) == {} && Parts(r.queried) == {};
      assert Lists(r) && Fetchers(r);
    }
  }

  // ------------------------------------------------------------------ replies

  lemma StoppedInv(s: State, p: Part, env: Env)
    requires Inv(s) && p in s.stops
    ensures Stopped(s, p, env).Ok? && Inv(Stopped(s, p, env).s)
  {
    hide Serve;
    assert multiset{p} <= s.stops && {p} <= s.started;
    var s' := s.(waitStopCnt := s.waitStopCnt - 1, started := s.started - {p},
                 startedCnt := s.startedCnt - 1, stops := s.stops - multiset{p});
    assert Inv(s') by { StopTaken(s, p, s'); }
    ServeInv(s', env);
  }

  lemma StopTaken(s: State, p: Part, r: State)
    requires Inv(s) && p in s.stops
    requires r == s.(waitStopCnt := s.waitStopCnt - 1, started := s.started - {p},
                     startedCnt := s.startedCnt - 1, stops := s.stops - multiset{p})
    ensures Inv(r)
  {
    assert |s.stops - multiset{p}| == |s.stops| - 1;
    assert |s.started - {p}| == |s.started| - 1;
  }

  lemma CommitTaken(s: State)
    requires Inv(s) && s.waitCommitCnt > 0
    ensures Inv(s.(waitCommitCnt := s.waitCommitCnt - 1))
  {}

  lemma CommitInv(s: State, env: Env)
    requires Inv(s)
    ensures Inv(s.(waitCommitCnt := s.waitCommitCnt + 1))
    ensures CommitDone(s, env).Ok? <==> s.waitCommitCnt > 0
    ensures CommitDone(s, env).Ok? ==> Inv(CommitDone(s, env).s)
  {
    hide Serve;
    if s.waitCommitCnt > 0 {
      ServeInv(s.(waitCommitCnt := s.waitCommitCnt - 1), env);
    }
  }

  lemma ApplyOneInv(s: State, t: Tp, err: int)
    requires Inv(s)
    ensures Inv(ApplyOne(s, t, err))
  {
    if Has(s.queried, t.part) {
      DelParts(s.queried, t.part);
      DistinctSnoc(s.pending, t);
      AppliedSets(s, ApplyOne(s, t, err), t.part);
    }
  }

  lemma AppliedSets(s: State, r: State, p: Part)
    requires Inv(s) && p in Parts(s.queried)
    requires r == s.(pending := r.pending, queried := r.queried)
    requires Distinct(r.pending) && Distinct(r.queried)
    requires Parts(r.pending) == Parts(s.pending) || Parts(r.pending) == Parts(s.pending) + {p}
    requires Parts(r.queried) == Parts(s.queried) - {p}
    ensures Inv(r)
  {}

  lemma {:induction false} ApplyEachInv(s: State, offsets: seq<Tp>, err: int)
    requires Inv(s)
    ensures Inv(ApplyEach(s, offsets, err))
    decreases |offsets|
  {
    hide Inv, ApplyOne;
    if offsets != [] {
      ApplyOneInv(s, offsets[0], err);
      ApplyEachInv(ApplyOne(s, offsets[0], err), offsets[1..], err);
    }
  }

  /** The reply handler fails exactly on a reply without offsets for the current version. */
  lemma ReplyInv(s: State, i: nat, reply: Reply, env: Env)
    requires Inv(s) && i < |s.queries|
    ensures HandleOffsetFetch(s, i, reply, env).Fail? <==> reply.NoReply? && s.queries[i].version == s.version
    ensures HandleOffsetFetch(s, i, reply, env).Ok? ==> Inv(HandleOffsetFetch(s, i, reply, env).s)
  {
    hide Serve, ApplyEach;
    var s' := s.(queries := s.queries[..i] + s.queries[i + 1..]);
    assert Inv(s');
    if reply.Offsets? {
      ApplyEachInv(s', reply.offsets, reply.err);
      ServeInv(ApplyEach(s', reply.offsets, reply.err), env);
    }
  }

  // ------------------------------------------------------------------ runs

  datatype Event =
    | EvAdd(parts: seq<Tp>)
    | EvSubtract(parts: seq<Tp>)
    | EvClear
    | EvServe(env: Env)
    | EvStopped(part: Part, env: Env)
    | EvCommitSent
    | EvCommitDone(env: Env)
    | EvReply(index: nat, reply: Reply, env: Env)

  function OfAdd(s: State, r: AddRes): Res {
    match r
    case Rejected(_) => Ok(s)
    case Added(res) => res
  }

  /** Events that can reach the state machine at all: replies answer what was sent. */
  predicate Possible(s: State, e: Event) {
    match e
    case EvStopped(p, _) => p in s.stops
    case EvCommitDone(_) => s.waitCommitCnt > 0
    case EvReply(i, _, _) => i < |s.queries|
    case _ => true
  }

  function Step(s: State, e: Event): Res
    requires Possible(s, e)
  {
    match e
    case EvAdd(ps) => OfAdd(s, Add(s, ps))
    case EvSubtract(ps) => OfAdd(s, Subtract(s, ps))
    case EvClear => Ok(Clear(s))
    case EvServe(env) => Serve(s, env)
    case EvStopped(p, env) => Stopped(s, p, env)
    case EvCommitSent => Ok(s.(waitCommitCnt := s.waitCommitCnt + 1))
    case EvCommitDone(env) => CommitDone(s, env)
    case EvReply(i, reply, env) => HandleOffsetFetch(s, i, reply, env)
  }

  /** What a caller can check before each event. */
  ghost predicate Allowed(s: State, e: Event)
    requires Possible(s, e)
  {
    match e
    case EvAdd(ps) => Add(s, ps).Added? ==> Parts(ps) !! Parts(s.removed)
    case EvSubtract(ps) => Subtract(s, ps).Added? ==>
      Distinct(ps) && forall p :: p in Parts(ps) ==> p !in s.stops
    case EvClear => forall p :: p in Parts(s.all) ==> p !in s.stops
    case EvReply(i, reply, _) => !(reply.NoReply? && s.queries[i].version == s.version)
    case _ => true
  }

  /** One event: no assertion fails and the invariant is kept exactly when it is allowed. */
  lemma StepExact(s: State, e: Event)
    requires Inv(s) && Possible(s, e)
    ensures Step(s, e).Ok? && Inv(Step(s, e).s) <==> Allowed(s, e)
  {
    hide Inv, Add, Subtract, Serve, Stopped, CommitDone, HandleOffsetFetch, Clear, Distinct;
    match e {
      case EvAdd(ps) => if Add(s, ps).Added? { AddInv(s, ps); }
      case EvSubtract(ps) => if Subtract(s, ps).Added? { SubtractInv(s, ps); }
      case EvClear => ClearInv(s);
      case EvServe(env) => ServeInv(s, env);
      case EvStopped(p, env) => StoppedInv(s, p, env);
      case EvCommitSent => CommitInv(s, Env(false, map[], false));
      case EvCommitDone(env) => CommitInv(s, env);
      case EvReply(i, reply, env) => ReplyInv(s, i, reply, env);
    }
  }

  /** The state after a run, as long as nothing failed. */
  function Run(es: seq<Event>): Res {
    if es == [] then Ok(Init())
    else
      match Run(es[..|es| - 1])
      case Fail(why) => Fail(why)
      case Ok(s) => if Possible(s, es[|es| - 1]) then Step(s, es[|es| - 1]) else Ok(s)
  }

  /** Every event of the run was possible and allowed when it happened. */
  ghost predicate AllowedRun(es: seq<Event>) {
    es == [] ||
    var before := es[..|es| - 1];
    && AllowedRun(before) && Run(before).Ok?
    && Possible(Run(before).s, es[|es| - 1]) && Allowed(Run(before).s, es[|es| - 1])
  }

  /** On every allowed run, no assertion ever fails and the invariant always holds. */
  lemma {:induction false} RunSafe(es: seq<Event>)
    requires AllowedRun(es)
    ensures Run(es).Ok? && Inv(Run(es).s)
  {
    hide Inv, Allowed, Step, Possible, Init;
    if es == [] {
      InitInv();
    } else {
      var before := es[..|es| - 1];
      RunSafe(before);
      StepExact(Run(before).s, es[|es| - 1]);
    }
  }
}
