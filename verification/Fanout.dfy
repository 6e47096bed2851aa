/**
  The fan-out of cbits/hs_rdkafka_admin.c: an admin request split over several brokers,
  whose partial results arrive in any order and are merged into one reply.
 */
module Fanout {

  /** `RD_KAFKA_RESP_ERR__DESTROY` */
  const ErrDestroy := -197

  /** `RD_KAFKA_RESP_ERR__INVALID_ARG` */
  const ErrInvalidArg := -186

  /** `RD_KAFKA_RESP_ERR__NOOP` */
  const ErrNoop := -141

  /** A partial result: its error (0 for none) and its content. */
  datatype Partial<T> = Partial(err: int, body: T)

  /** A partial result as it arrives; `terminating` is the state of the handle at that time. */
  datatype Arrival<T> = Arrival(partial: Partial<T>, terminating: bool)

  /** A terminating handle turns success into an error. */
  function Effective<T>(a: Arrival<T>): Partial<T> {
    if a.terminating && a.partial.err == 0 then a.partial.(err := ErrDestroy) else a.partial
  }

  /** The outcome of a callback that holds assertions. */
  datatype Merged<R> = Failed | Merged(results: R)

  /** The fan-out op: requests outstanding, results so far, replies sent to the application. */
  datatype State<R, Q> = State(outstanding: int, results: R, replies: seq<Q>)

  datatype Outcome<R, Q> = Abort | Ok(state: State<R, Q>)

  /** `rd_kafka_admin_fanout_worker`, with the op's two callbacks. */
  function Worker<R, T, Q>(f: State<R, Q>, a: Arrival<T>, merge: (R, Partial<T>) -> Merged<R>, copy: R -> Q): Outcome<R, Q> {
    if f.outstanding <= 0 then Abort
    else
      var left := f.outstanding - 1;
      var m := merge(f.results, Effective(a));
      if m.Failed? then Abort
      else if left > 0 then Ok(State(left, m.results, f.replies))
      else Ok(State(left, m.results, f.replies + [copy(m.results)]))
  }

  /** All arrivals, in order. */
  function Run<R, T, Q>(f: State<R, Q>, arrivals: seq<Arrival<T>>, merge: (R, Partial<T>) -> Merged<R>, copy: R -> Q): Outcome<R, Q> {
    if arrivals == [] then Ok(f)
    else
      var r := Run(f, arrivals[..|arrivals| - 1], merge, copy);
      if r.Abort? then Abort else Worker(r.state, arrivals[|arrivals| - 1], merge, copy)
  }

  /** The merges alone. */
  function Fold<R, T>(results: R, arrivals: seq<Arrival<T>>, merge: (R, Partial<T>) -> Merged<R>): Merged<R> {
    if arrivals == [] then Merged(results)
    else
      var r := Fold(results, arrivals[..|arrivals| - 1], merge);
      if r.Failed? then Failed else merge(r.results, Effective(arrivals[|arrivals| - 1]))
  }

  /**
    As long as the merges succeed, the counter counts down, and the one reply is sent on
    the last arrival with everything merged so far.
   */
  lemma {:induction false} OneReply<R, T, Q>(f: State<R, Q>, arrivals: seq<Arrival<T>>,
                                             merge: (R, Partial<T>) -> Merged<R>, copy: R -> Q)
    requires f.outstanding > 0 && f.replies == [] && |arrivals| <= f.outstanding
    requires Fold(f.results, arrivals, merge).Merged?
    ensures var merged := Fold(f.results, arrivals, merge).results;
      Run(f, arrivals, merge, copy)
      == Ok(State(f.outstanding - |arrivals|, merged, if |arrivals| == f.outstanding then [copy(merged)] else []))
  {
    if arrivals != [] {
      OneReply(f, arrivals[..|arrivals| - 1], merge, copy);
    }
  }

  /** A partial result beyond those counted trips the worker's assertion. */
  lemma NoneLeft<R, T, Q>(f: State<R, Q>, arrivals: seq<Arrival<T>>, extra: Arrival<T>,
                          merge: (R, Partial<T>) -> Merged<R>, copy: R -> Q)
    requires f.outstanding > 0 && f.replies == [] && |arrivals| == f.outstanding
    requires Fold(f.results, arrivals, merge).Merged?
    ensures Run(f, arrivals + [extra], merge, copy).Abort?
  {
    OneReply(f, arrivals, merge, copy);
    assert (arrivals + [extra])[..|arrivals|] == arrivals;
  }

  // ------------------------------------------------------------------ arrival orders

  /** An order in which the sub-operations 0..n-1 report, each once. */
  ghost predicate Permutation(order: seq<nat>, n: nat) {
    |order| == n && (forall k :: 0 <= k < n ==> order[k] < n) && forall j, k :: 0 <= j < k < n ==> order[j] != order[k]
  }

  /** The arrivals in that order. */
  function Ordered<T>(order: seq<nat>, arrivals: seq<Arrival<T>>): (s: seq<Arrival<T>>)
    requires forall k :: 0 <= k < |order| ==> order[k] < |arrivals|
    ensures |s| == |order|
  {
    seq(|order|, k requires 0 <= k < |order| => arrivals[order[k]])
  }

  lemma OrderedPrefix<T>(order: seq<nat>, arrivals: seq<Arrival<T>>, k: nat)
    requires k < |order| && forall k :: 0 <= k < |order| ==> order[k] < |arrivals|
    ensures Ordered(order[..k + 1], arrivals) == Ordered(order[..k], arrivals) + [arrivals[order[k]]]
  {}

  /** Every sub-operation occurs in the order. */
  lemma Onto(order: seq<nat>, n: nat, i: nat)
    requires Permutation(order, n) && i < n
    ensures i in order
  {
    var image := set k | 0 <= k < n :: order[k];
    ImageSize(order, n, n);
    UpToSize(n);
    assert image <= UpTo(n);
    assert UpTo(n) == image + (UpTo(n) - image);
    assert i in UpTo(n);
  }

  lemma {:induction false} ImageSize(order: seq<nat>, n: nat, m: nat)
    requires Permutation(order, n) && m <= n
    ensures |set k | 0 <= k < m :: order[k]| == m
    decreases m
  {
    var s := set k | 0 <= k < m :: order[k];
    if m > 0 {
      ImageSize(order, n, m - 1);
      var r := set k | 0 <= k < m - 1 :: order[k];
      assert s == r + {order[m - 1]};
      assert order[m - 1] !in r;
    } else {
      assert s == {};
    }
  }

  ghost function UpTo(n: nat): set<nat> {
    if n == 0 then {} else UpTo(n - 1) + {n - 1}
  }

  lemma {:induction false} UpToSize(n: nat)
    ensures |UpTo(n)| == n && forall i: nat :: i in UpTo(n) <==> i < n
  {
    if n > 0 {
      UpToSize(n - 1);
    }
  }
}
