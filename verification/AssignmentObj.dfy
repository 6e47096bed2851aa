/**
  The assignment as the object the consumer updates in place: the loops of
  cbits/hs_rdkafka_assignment.c over its lists and counters, each proved to make the
  transition of module `Assignment` with none of its assertions failing.
 */
module AssignmentObj {
  import opened TopParList
  import A = Assignment
  import opened AssignmentInv

  type State = A.State
  type Env = A.Env

  lemma NothingStored(env: Env)
    ensures !A.AnyValid(env, []) && A.WithStored(env, []) == []
  {}

  lemma StoredSnoc(env: Env, s: seq<Tp>, t: Tp)
    ensures A.AnyValid(env, s + [t]) <==> A.AnyValid(env, s) || !A.Logical(A.StoredOffset(env, t.part))
    ensures A.WithStored(env, s + [t]) == A.WithStored(env, s) + [t.(offset := A.StoredOffset(env, t.part))]
  {
    if A.AnyValid(env, s) {
      var u :| u in s && !A.Logical(A.StoredOffset(env, u.part));
      assert u in s + [t];
    }
    assert t in s + [t];
  }

  /** `rd_kafka_assignment_t`, with the partition flags and messages it works on. */
  class ConsumerAssignment {
    var all: seq<Tp>
    var pending: seq<Tp>
    var queried: seq<Tp>
    var removed: seq<Tp>
    var startedCnt: int
    var waitStopCnt: int
    var waitCommitCnt: int
    var version: int
    var started: set<Part>
    var flagged: set<Part>
    var stops: multiset<Part>
    var queries: seq<A.Query>
    var log: seq<A.Effect>

    function S(): State
      reads this
    {
      A.State(all, pending, queried, removed, startedCnt, waitStopCnt, waitCommitCnt, version,
              started, flagged, stops, queries, log)
    }

    constructor ()
      ensures S() == A.Init() && Inv(S())
    {
      all, pending, queried, removed := [], [], [], [];
      startedCnt, waitStopCnt, waitCommitCnt, version := 0, 0, 0, 0;
      started, flagged, stops, queries, log := {}, {}, multiset{}, [], [];
      new;
      InitInv();
    }

    /** The loop body of `rd_kafka_assignment_serve_removals`. */
    method RemovePartition(p: Part)
      requires A.RemoveOne(S(), p).Ok?
      modifies this
      ensures A.RemoveOne(old(S()), p) == A.Ok(S()) && removed == old(removed)
    {
      hide Del;
      pending, queried := Del(pending, p), Del(queried, p);
      if p in started {
        assert startedCnt > 0;
        SendStop(p);
      }
      assert p in flagged;
      flagged := flagged - {p};
    }

    /** `rd_kafka_toppar_op_fetch_stop` and the count of replies to wait for. */
    method SendStop(p: Part)
      modifies this`stops, this`log, this`waitStopCnt
      ensures waitStopCnt == old(waitStopCnt) + 1 && stops == old(stops) + multiset{p}
      ensures log == old(log) + [A.StopFetcher(p)]
    {
      stops := stops + multiset{p};
      log := log + [A.StopFetcher(p)];
      waitStopCnt := waitStopCnt + 1;
    }

    /** `rd_kafka_assignment_serve_removals` */
    method ServeRemovals(env: Env) returns (inProgress: int)
      requires A.ServeRemovals(S(), env).Ok?
      modifies this
      ensures S() == A.ServeRemovals(old(S()), env).s
      ensures inProgress == waitStopCnt + waitCommitCnt
    {
      hide A.RemoveOne, A.StoredOffset, A.AnyValid, A.WithStored, A.Logical;
      NothingStored(env);
      var validOffsets := 0;
      var toCommit: seq<Tp> := [];
      ghost var start := S();
      for i := 0 to |removed|
        invariant removed == start.removed
        invariant A.RemoveEach(S(), removed[i..]) == A.RemoveEach(start, start.removed)
        invariant validOffsets > 0 <==> A.AnyValid(env, removed[..i])
        invariant validOffsets >= 0
        invariant toCommit == A.WithStored(env, removed[..i])
      {
        assert removed[i..][1..] == removed[i + 1..];
        assert removed[..i + 1] == removed[..i] + [removed[i]];
        var t := removed[i];
        RemovePartition(t.part);
        StoredSnoc(env, removed[..i], t);
        toCommit := toCommit + [t.(offset := A.StoredOffset(env, t.part))];
        if !A.Logical(A.StoredOffset(env, t.part)) {
          validOffsets := validOffsets + 1;
        }
      }
      assert removed[..|removed|] == removed;
      if validOffsets > 0 && env.autoCommit {
        waitCommitCnt := waitCommitCnt + 1;
        log := log + [A.SendCommit(toCommit)];
      }
      removed := [];
      inProgress := waitStopCnt + waitCommitCnt;
    }

    /** The loop body of `rd_kafka_assignment_serve_pending`, at index `i`. */
    method ServePartition(i: nat, canQuery: bool)
      requires i < |pending| && A.PendOne(S(), i, canQuery).Ok?
      modifies this
      ensures A.PendOne(old(S()), i, canQuery) == A.Ok(S())
      ensures |pending| >= i && version == old(version)
    {
      var t := pending[i];
      assert t.part !in started;
      if A.Startable(t.offset) {
        started := started + {t.part};
        startedCnt := startedCnt + 1;
        log := log + [A.StartFetcher(t.part, t.offset)];
      } else if canQuery {
        assert !Has(queried, t.part);
        queried := queried + [t];
      } else {
        return;
      }
      pending := pending[..i] + pending[i + 1..];
    }

    /** `rd_kafka_assignment_serve_pending` */
    method ServePending(env: Env) returns (inProgress: int)
      requires A.ServePending(S(), env).Ok?
      modifies this
      ensures S() == A.ServePending(old(S()), env).s
      ensures inProgress == |pending| + |queried|
    {
      hide A.PendOne;
      var canQuery := env.coordinator && waitCommitCnt == 0 && queried == [];
      ghost var start := S();
      var i := |pending|;
      while i > 0
        invariant 0 <= i <= |pending|
        invariant A.PendFrom(S(), i, canQuery) == A.PendFrom(start, |start.pending|, canQuery)
        invariant version == start.version
      {
        i := i - 1;
        ServePartition(i, canQuery);
      }
      if canQuery && queried != [] {
        var q := A.Query(queried, version);
        queries := queries + [q];
        log := log + [A.SendQuery(q)];
      }
      inProgress := |pending| + |queried|;
    }

    /** `rd_kafka_assignment_serve` */
    method Serve(env: Env)
      requires Inv(S())
      modifies this
      ensures A.Serve(old(S()), env) == A.Ok(S()) && Inv(S())
    {
      ServeInv(S(), env);
      hide A.ServeRemovals, A.ServePending, Inv;
      var inpRemovals, inpPending := 0, 0;
      if |removed| > 0 {
        inpRemovals := ServeRemovals(env);
      }
      if waitStopCnt == 0 && waitCommitCnt == 0 && inpRemovals == 0 && |pending| > 0 {
        inpPending := ServePending(env);
      }
      if inpRemovals + inpPending + |queried| + waitStopCnt + waitCommitCnt == 0 {
        log := log + [A.AssignmentDone];
      }
    }

    /** `rd_kafka_assignment_in_progress`: what `serve` has just not signalled as done. */
    method InProgress() returns (r: bool)
      ensures r == A.InProgress(S())
    {
      r := waitCommitCnt > 0 || waitStopCnt > 0 || |pending| > 0 || |queried| > 0 || |removed| > 0;
    }

    /** `rd_kafka_assignment_clear` */
    method Clear() returns (cnt: nat)
      requires Inv(S()) && Allowed(S(), EvClear)
      modifies this
      ensures S() == A.Clear(old(S())) && Inv(S()) && cnt == |old(all)|
    {
      ClearInv(S());
      cnt := |all|;
      if cnt == 0 {
        return;
      }
      pending, queried := [], [];
      removed := removed + all;
      all := [];
      version := version + 1;
    }

    /** The checking loop of `rd_kafka_assignment_add` over the sorted input. */
    method CheckInput(ps: seq<Tp>) returns (r: seq<A.Error>)
      ensures r == A.CheckAdd(all, ps, 0)
    {
      for i := 0 to |ps|
        invariant A.CheckAdd(all, ps, i) == A.CheckAdd(all, ps, 0)
      {
        if A.Logical(ps[i].offset) && ps[i].offset != A.OFFSET_BEGINNING && ps[i].offset != A.OFFSET_END &&
           ps[i].offset != A.OFFSET_STORED && ps[i].offset != A.OFFSET_INVALID && ps[i].offset > A.OFFSET_TAIL_BASE {
          return [A.InvalidArg];
        }
        if i > 0 && ps[i].part == ps[i - 1].part {
          return [A.InvalidArg];
        }
        if Has(all, ps[i].part) {
          return [A.Conflict];
        }
      }
      r := [];
    }

    /** The loop that marks each added partition as assigned. */
    method Flag(ps: seq<Tp>)
      requires A.FlagEach(S(), ps).Ok?
      modifies this`flagged
      ensures A.FlagEach(old(S()), ps) == A.Ok(S())
    {
      ghost var start := S();
      for i := 0 to |ps|
        invariant A.FlagEach(S(), ps[i..]) == A.FlagEach(start, ps)
      {
        assert ps[i..][1..] == ps[i + 1..];
        assert ps[i].part !in flagged;
        flagged := flagged + {ps[i].part};
      }
    }

    /** `rd_kafka_assignment_add` */
    method Add(partitions: seq<Tp>) returns (r: seq<A.Error>)
      requires Inv(S()) && Allowed(S(), EvAdd(partitions))
      modifies this
      ensures Inv(S())
      ensures match A.Add(old(S()), partitions)
              case Rejected(e) => r == [e] && S() == old(S())
              case Added(res) => r == [] && res == A.Ok(S())
    {
      hide Inv, Sort, Distinct, A.FlagEach, A.CheckAdd;
      var ps := Sort(partitions);
      r := CheckInput(ps);
      if r != [] {
        return;
      }
      AddInv(S(), partitions);
      ps := A.StoredAll(ps);
      Flag(ps);
      var wasEmpty := |all| == 0;
      all := all + ps;
      if !wasEmpty {
        all := Sort(all);
      }
      pending := pending + ps;
      version := version + 1;
    }

    /** The loop body of `rd_kafka_assignment_subtract`. */
    method UnassignPartition(t: Tp)
      requires A.SubOne(S(), t).Ok?
      modifies this
      ensures A.SubOne(old(S()), t) == A.Ok(S()) && version == old(version)
    {
      assert Has(all, t.part);
      all := Del(all, t.part);
      if Has(queried, t.part) {
        queried := Del(queried, t.part);
      } else {
        pending := Del(pending, t.part);
      }
      removed := removed + [t];
    }

    /** The check of `rd_kafka_assignment_subtract`. */
    method AllAssigned(ps: seq<Tp>) returns (r: bool)
      ensures r <==> A.CheckSubtract(all, ps, 0)
    {
      for i := 0 to |ps|
        invariant A.CheckSubtract(all, ps, i) == A.CheckSubtract(all, ps, 0)
      {
        if !Has(all, ps[i].part) {
          return false;
        }
      }
      r := true;
    }

    /** The backwards loop of `rd_kafka_assignment_subtract`. */
    method UnassignAll(ps: seq<Tp>)
      requires A.SubFrom(S(), ps, |ps|).Ok?
      modifies this
      ensures A.SubFrom(old(S()), ps, |ps|) == A.Ok(S()) && version == old(version)
    {
      hide A.SubOne;
      ghost var start := S();
      var i := |ps|;
      while i > 0
        invariant 0 <= i <= |ps|
        invariant A.SubFrom(S(), ps, i) == A.SubFrom(start, ps, |ps|)
        invariant version == start.version
      {
        i := i - 1;
        UnassignPartition(ps[i]);
      }
    }

    /** `rd_kafka_assignment_subtract` */
    method Subtract(partitions: seq<Tp>) returns (r: seq<A.Error>)
      requires Inv(S()) && Allowed(S(), EvSubtract(partitions))
      modifies this
      ensures Inv(S())
      ensures match A.Subtract(old(S()), partitions)
              case Rejected(e) => r == [e] && S() == old(S())
              case Added(res) => r == [] && res == A.Ok(S())
    {
      hide Inv, A.SubOne, A.SubFrom, A.CheckSubtract, Sort;
      if |all| == 0 && |partitions| > 0 {
        return [A.InvalidArg];
      }
      var ps := Sort(partitions);
      var known := AllAssigned(ps);
      if !known {
        return [A.InvalidArg];
      }
      SubtractInv(S(), partitions);
      UnassignAll(ps);
      if |all| == 0 {
        assert |pending| == 0;
        assert |queried| == 0;
      }
      version := version + 1;
      r := [];
    }

    /** `rd_kafka_assignment_partition_stopped` */
    method PartitionStopped(p: Part, env: Env)
      requires Inv(S()) && p in stops
      modifies this
      ensures A.Stopped(old(S()), p, env) == A.Ok(S()) && Inv(S())
    {
      hide Inv, A.Serve;
      StoppedInv(S(), p, env);
      ghost var was := S();
      TakeStop(p);
      StopTaken(was, p, S());
      if waitStopCnt == 0 {
        Serve(env);
      }
    }

    /** The assertions and counters of `rd_kafka_assignment_partition_stopped`. */
    method TakeStop(p: Part)
      requires waitStopCnt > 0 && p in started && startedCnt > 0
      modifies this
      ensures S() == old(S()).(waitStopCnt := old(waitStopCnt) - 1, started := old(started) - {p},
                               startedCnt := old(startedCnt) - 1, stops := old(stops) - multiset{p})
    {
      waitStopCnt := waitStopCnt - 1;
      started := started - {p};
      startedCnt := startedCnt - 1;
      stops := stops - multiset{p};
    }

    /** The outstanding-commit bookkeeping at the end of the OffsetCommit reply handler. */
    method CommitReplied(env: Env)
      requires Inv(S()) && waitCommitCnt > 0
      modifies this
      ensures A.CommitDone(old(S()), env) == A.Ok(S()) && Inv(S())
    {
      hide Inv, A.Serve;
      CommitInv(S(), env);
      CommitTaken(S());
      waitCommitCnt := waitCommitCnt - 1;
      if waitCommitCnt == 0 {
        Serve(env);
      }
    }

    /** `rd_kafka_assignment_apply_offsets` */
    method ApplyOffsets(offsets: seq<Tp>, err: int, env: Env)
      requires Inv(S())
      modifies this
      ensures A.ApplyOffsets(old(S()), offsets, err, env) == A.Ok(S()) && Inv(S())
    {
      hide Inv, A.Serve;
      ghost var start := S();
      ApplyEachInv(start, offsets, err);
      for i := 0 to |offsets|
        invariant A.ApplyEach(S(), offsets[i..], err) == A.ApplyEach(start, offsets, err)
      {
        ghost var was := S();
        assert offsets[i..][1..] == offsets[i + 1..];
        var t := offsets[i];
        if !Has(queried, t.part) {
          assert A.ApplyOne(was, t, err) == S();
          continue;
        }
        queried := Del(queried, t.part);
        if err == A.ERR_UNSTABLE_OFFSET_COMMIT || t.err == A.ERR_UNSTABLE_OFFSET_COMMIT {
          pending := pending + [t];
        } else if t.err != A.ERR_NONE {
        } else if err == A.ERR_NONE {
          pending := pending + [t];
        }
        assert A.ApplyOne(was, t, err) == S();
      }
      if |offsets| > 0 {
        Serve(env);
      }
    }

    /** `rd_kafka_assignment_handle_OffsetFetch` */
    method HandleOffsetFetch(i: nat, reply: A.Reply, env: Env)
      requires Inv(S()) && i < |queries| && Allowed(S(), EvReply(i, reply, env))
      modifies this
      ensures A.HandleOffsetFetch(old(S()), i, reply, env) == A.Ok(S()) && Inv(S())
    {
      var allowRetry := queries[i].version == version;
      if reply.Retrying? {
        return;
      }
      queries := queries[..i] + queries[i + 1..];
      match reply {
        case Destroyed =>
        case NoReply(err) => assert !allowRetry;
        case Offsets(offsets, err) => ApplyOffsets(offsets, err, env);
      }
    }
  }
}
