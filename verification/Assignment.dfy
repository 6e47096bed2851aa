/**
  The consumer assignment state machine of cbits/hs_rdkafka_assignment.c as transition
  functions.  A failed `rd_assert` (or a NULL dereference) is the outcome `Fail`; messages
  in flight to fetchers and to the group coordinator are part of the state.
 */
module Assignment {
  import opened TopParList

  const OFFSET_BEGINNING := -2
  const OFFSET_END := -1
  const OFFSET_STORED := -1000
  const OFFSET_INVALID := -1001
  const OFFSET_TAIL_BASE := -2000

  const ERR_NONE := 0
  const ERR_UNSTABLE_OFFSET_COMMIT := 88

  /** An OffsetFetch request on its way: what it asked for, and under which version. */
  datatype Query = Query(parts: seq<Tp>, version: int)

  /** What the state machine did, in order. */
  datatype Effect =
    | StopFetcher(part: Part)
    | StartFetcher(part: Part, offset: int)
    | SendQuery(query: Query)
    | SendCommit(parts: seq<Tp>)
    | AssignmentDone

  datatype State = State(
    all: seq<Tp>, pending: seq<Tp>, queried: seq<Tp>, removed: seq<Tp>,
    startedCnt: int, waitStopCnt: int, waitCommitCnt: int, version: int,
    started: set<Part>,          // rktp_started
    flagged: set<Part>,         // RD_KAFKA_TOPPAR_F_ASSIGNED
    stops: multiset<Part>,       // FETCH_STOP replies outstanding
    queries: seq<Query>,         // OffsetFetch replies outstanding
    log: seq<Effect>)

  datatype Failure =
    | NotStartedCount            // started_cnt > 0
    | NotAssigned                // flag expected when a partition is decommissioned
    | AlreadyAssigned            // flag unexpected when a partition is added
    | PendingStarted             // a pending partition must not be started
    | PendingQueried             // a pending partition must not be queried
    | RemovedNotFound            // RD_BUG in assignment_subtract
    | LeftOver                   // empty assignment with pending or queried entries
    | NoStopOutstanding          // wait_stop_cnt > 0
    | StoppedNotStarted          // stop reply for a partition that is not started
    | NoOffsets                  // reply without offsets dereferenced
    | NoCommitOutstanding        // wait_commit_cnt > 0

  datatype Res = Ok(s: State) | Fail(why: Failure)

  datatype Error = InvalidArg | Conflict

  /** Everything `serve` asks of its surroundings. */
  datatype Env = Env(coordinator: bool, stored: map<Part, int>, autoCommit: bool)

  predicate Logical(offset: int) {
    offset < 0
  }

  /** Offsets the partition fetcher can start from without asking the coordinator. */
  predicate Startable(offset: int) {
    || !Logical(offset) || offset == OFFSET_BEGINNING || offset == OFFSET_END
    || offset == OFFSET_INVALID || offset <= OFFSET_TAIL_BASE
  }

  // ------------------------------------------------------------------ serve

  /** One turn of the loop in `serve_removals`. */
  function RemoveOne(s: State, p: Part): Res {
    var s := s.(pending := Del(s.pending, p), queried := Del(s.queried, p));
    if p in s.started && s.startedCnt <= 0 then Fail(NotStartedCount)
    else
      var s := if p in s.started
               then s.(waitStopCnt := s.waitStopCnt + 1, stops := s.stops + multiset{p},
                       log := s.log + [StopFetcher(p)])
               else s;
      if p !in s.flagged then Fail(NotAssigned)
      else Ok(s.(flagged := s.flagged - {p}))
  }

  function RemoveEach(s: State, rest: seq<Tp>): Res
    decreases |rest|
  {
    if rest == [] then Ok(s)
    else
      match RemoveOne(s, rest[0].part)
      case Fail(why) => Fail(why)
      case Ok(s') => RemoveEach(s', rest[1..])
  }

  function StoredOffset(env: Env, p: Part): int {
    if p in env.stored then env.stored[p] else OFFSET_INVALID
  }

  /** Whether any removed partition has an absolute stored offset to commit. */
  predicate AnyValid(env: Env, removed: seq<Tp>) {
    exists t :: t in removed && !Logical(StoredOffset(env, t.part))
  }

  /** The removed partitions with their stored offsets, as they are committed. */
  function WithStored(env: Env, removed: seq<Tp>): (r: seq<Tp>)
    ensures |r| == |removed|
    ensures forall i :: 0 <= i < |r| ==> r[i] == removed[i].(offset := StoredOffset(env, removed[i].part))
  {
    seq(|removed|, i requires 0 <= i < |removed| => removed[i].(offset := StoredOffset(env, removed[i].part)))
  }

  function ServeRemovals(s: State, env: Env): Res {
    match RemoveEach(s, s.removed)
    case Fail(why) => Fail(why)
    case Ok(s') =>
      var s' := if env.autoCommit && AnyValid(env, s.removed)
                then s'.(waitCommitCnt := s'.waitCommitCnt + 1, log := s'.log + [SendCommit(WithStored(env, s.removed))])
                else s';
      Ok(s'.(removed := []))
  }

  predicate CanQuery(s: State, env: Env) {
    env.coordinator && s.waitCommitCnt == 0 && s.queried == []
  }

  /** One turn of the backward loop in `serve_pending`, at index `i`. */
  function PendOne(s: State, i: nat, canQuery: bool): Res
    requires i < |s.pending|
  {
    var t := s.pending[i];
    var rest := s.pending[..i] + s.pending[i + 1..];
    if t.part in s.started then Fail(PendingStarted)
    else if Startable(t.offset) then
      Ok(s.(pending := rest, started := s.started + {t.part}, startedCnt := s.startedCnt + 1,
            log := s.log + [StartFetcher(t.part, t.offset)]))
    else if canQuery then
      if Has(s.queried, t.part) then Fail(PendingQueried)
      else Ok(s.(pending := rest, queried := s.queried + [t]))
    else Ok(s)
  }

  function PendFrom(s: State, n: nat, canQuery: bool): Res
    requires n <= |s.pending|
    decreases n
  {
    if n == 0 then Ok(s)
    else
      match PendOne(s, n - 1, canQuery)
      case Fail(why) => Fail(why)
      case Ok(s') => PendFrom(s', n - 1, canQuery)
  }

  /** `serve_pending`; the list queried is exactly what the loop put on `queried`. */
  function ServePending(s: State, env: Env): Res {
    var canQuery := CanQuery(s, env);
    match PendFrom(s, |s.pending|, canQuery)
    case Fail(why) => Fail(why)
    case Ok(s') =>
      if canQuery && s'.queried != [] then
        var q := Query(s'.queried, s'.version);
        Ok(s'.(queries := s'.queries + [q], log := s'.log + [SendQuery(q)]))
      else Ok(s')
  }

  /** `rd_kafka_assignment_serve` */
  function Serve(s: State, env: Env): Res {
    match if s.removed != [] then ServeRemovals(s, env) else Ok(s)
    case Fail(why) => Fail(why)
    case Ok(s1) =>
      var inpRemovals := if s.removed != [] then s1.waitStopCnt + s1.waitCommitCnt else 0;
      var servePending := s1.waitStopCnt == 0 && s1.waitCommitCnt == 0 && inpRemovals == 0 && s1.pending != [];
      match if servePending then ServePending(s1, env) else Ok(s1)
      case Fail(why) => Fail(why)
      case Ok(s2) =>
        var inpPending := if servePending then |s2.pending| + |s2.queried| else 0;
        if inpRemovals + inpPending + |s2.queried| + s2.waitStopCnt + s2.waitCommitCnt == 0
        then Ok(s2.(log := s2.log + [AssignmentDone]))
        else Ok(s2)
  }

  /** `rd_kafka_assignment_in_progress` */
  predicate InProgress(s: State) {
    || s.waitCommitCnt > 0 || s.waitStopCnt > 0 || s.pending != [] || s.queried != [] || s.removed != []
  }

  // ------------------------------------------------------------------ changes

  /** The sanity checks of `assignment_add`, in order, over the sorted input. */
  function CheckAdd(all: seq<Tp>, ps: seq<Tp>, i: nat): (e: seq<Error>)
    requires i <= |ps|
    ensures |e| <= 1
    decreases |ps| - i
  {
    if i == |ps| then []
    else if Logical(ps[i].offset) && !Startable(ps[i].offset) && ps[i].offset != OFFSET_STORED then [InvalidArg]
    else if i > 0 && ps[i].part == ps[i - 1].part then [InvalidArg]
    else if Has(all, ps[i].part) then [Conflict]
    else CheckAdd(all, ps, i + 1)
  }

  /** INVALID start offsets mean: use the committed offset. */
  function Stored(t: Tp): Tp {
    if t.offset == OFFSET_INVALID then t.(offset := OFFSET_STORED) else t
  }

  function StoredAll(ps: seq<Tp>): (r: seq<Tp>)
    ensures |r| == |ps| && forall i :: 0 <= i < |ps| ==> r[i] == Stored(ps[i])
  {
    seq(|ps|, i requires 0 <= i < |ps| => Stored(ps[i]))
  }

  /** The flag loop: every partition must not be flagged yet. */
  function FlagEach(s: State, ps: seq<Tp>): Res
    decreases |ps|
  {
    if ps == [] then Ok(s)
    else if ps[0].part in s.flagged then Fail(AlreadyAssigned)
    else FlagEach(s.(flagged := s.flagged + {ps[0].part}), ps[1..])
  }

  datatype AddRes = Rejected(error: Error) | Added(res: Res)

  /** `rd_kafka_assignment_add` */
  function Add(s: State, partitions: seq<Tp>): AddRes {
    var ps := Sort(partitions);
    var e := CheckAdd(s.all, ps, 0);
    if e != [] then Rejected(e[0])
    else
      var ps := StoredAll(ps);
      match FlagEach(s, ps)
      case Fail(why) => Added(Fail(why))
      case Ok(s') =>
        Added(Ok(s'.(all := if s.all != [] then Sort(s.all + ps) else s.all + ps,
                     pending := s.pending + ps, version := s.version + 1)))
  }

  function CheckSubtract(all: seq<Tp>, ps: seq<Tp>, i: nat): bool
    requires i <= |ps|
    decreases |ps| - i
  {
    i == |ps| || (Has(all, ps[i].part) && CheckSubtract(all, ps, i + 1))
  }

  /** One turn of the backward loop in `assignment_subtract`. */
  function SubOne(s: State, t: Tp): Res {
    if !Has(s.all, t.part) then Fail(RemovedNotFound)
    else
      var s := s.(all := Del(s.all, t.part), removed := s.removed + [t]);
      if Has(s.queried, t.part) then Ok(s.(queried := Del(s.queried, t.part)))
      else Ok(s.(pending := Del(s.pending, t.part)))
  }

  function SubFrom(s: State, ps: seq<Tp>, n: nat): Res
    requires n <= |ps|
    decreases n
  {
    if n == 0 then Ok(s)
    else
      match SubOne(s, ps[n - 1])
      case Fail(why) => Fail(why)
      case Ok(s') => SubFrom(s', ps, n - 1)
  }

  /** `rd_kafka_assignment_subtract` */
  function Subtract(s: State, partitions: seq<Tp>): AddRes {
    if s.all == [] && partitions != [] then Rejected(InvalidArg)
    else
      var ps := Sort(partitions);
      if !CheckSubtract(s.all, ps, 0) then Rejected(InvalidArg)
      else
        match SubFrom(s, ps, |ps|)
        case Fail(why) => Added(Fail(why))
        case Ok(s') =>
          if s'.all == [] && (s'.pending != [] || s'.queried != []) then Added(Fail(LeftOver))
          else Added(Ok(s'.(version := s.version + 1)))
  }

  /** `rd_kafka_assignment_clear` */
  function Clear(s: State): State {
    if s.all == [] then s
    else s.(pending := [], queried := [], removed := s.removed + s.all, all := [], version := s.version + 1)
  }

  // ------------------------------------------------------------------ replies

  /** `rd_kafka_assignment_partition_stopped` */
  function Stopped(s: State, p: Part, env: Env): Res {
    if s.waitStopCnt <= 0 then Fail(NoStopOutstanding)
    else if p !in s.started then Fail(StoppedNotStarted)
    else if s.startedCnt <= 0 then Fail(NotStartedCount)
    else
      var s' := s.(waitStopCnt := s.waitStopCnt - 1, started := s.started - {p},
                   startedCnt := s.startedCnt - 1, stops := s.stops - multiset{p});
      if s'.waitStopCnt == 0 then Serve(s', env) else Ok(s')
  }

  /** The end of `rd_kafka_cgrp_op_handle_OffsetCommit`. */
  function CommitDone(s: State, env: Env): Res {
    if s.waitCommitCnt <= 0 then Fail(NoCommitOutstanding)
    else
      var s' := s.(waitCommitCnt := s.waitCommitCnt - 1);
      if s'.waitCommitCnt == 0 then Serve(s', env) else Ok(s')
  }

  /** One turn of the loop in `apply_offsets`. */
  function ApplyOne(s: State, t: Tp, err: int): State {
    if !Has(s.queried, t.part) then s
    else
      var s := s.(queried := Del(s.queried, t.part));
      if err == ERR_UNSTABLE_OFFSET_COMMIT || t.err == ERR_UNSTABLE_OFFSET_COMMIT
      then s.(pending := s.pending + [t])
      else if t.err != ERR_NONE then s
      else if err == ERR_NONE then s.(pending := s.pending + [t])
      else s
  }

  function ApplyEach(s: State, offsets: seq<Tp>, err: int): State
    decreases |offsets|
  {
    if offsets == [] then s else ApplyEach(ApplyOne(s, offsets[0], err), offsets[1..], err)
  }

  function ApplyOffsets(s: State, offsets: seq<Tp>, err: int, env: Env): Res {
    var s' := ApplyEach(s, offsets, err);
    if offsets != [] then Serve(s', env) else Ok(s')
  }

  /** What the OffsetFetch parser hands to the assignment's reply handler. */
  datatype Reply =
    | Destroyed                                   // client is terminating
    | Retrying                                    // request was re-sent
    | NoReply(err: int)                           // no offset list, e.g. transport error
    | Offsets(offsets: seq<Tp>, err: int)

  /** `rd_kafka_assignment_handle_OffsetFetch` for the outstanding query number `i`. */
  function HandleOffsetFetch(s: State, i: nat, reply: Reply, env: Env): Res
    requires i < |s.queries|
  {
    var allowRetry := s.queries[i].version == s.version;
    var s' := s.(queries := s.queries[..i] + s.queries[i + 1..]);
    match reply
    case Destroyed => Ok(s')
    case Retrying => Ok(s)
    case NoReply(err) => if allowRetry then Fail(NoOffsets) else Ok(s')
    case Offsets(offsets, err) => ApplyOffsets(s', offsets, err, env)
  }

  /** `rd_kafka_assignment_init` */
  function Init(): State {
    State([], [], [], [], 0, 0, 0, 0, {}, {}, multiset{}, [], [])
  }
}
