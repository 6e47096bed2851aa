/**
  Whole runs on a segmented buffer (cbits/hs_rdbuf.c) refine the same run on one flat byte
  string that knows which of its bytes are read-only, and the offset a write returned goes
  on addressing the bytes it wrote.
 */
module BufRuns {
  import opened Bits
  import opened BufSpec
  import opened Buf

  /** The bytes, and for each a 1 if it lies in read-only memory. */
  datatype FlatState = FlatState(bytes: seq<byte>, rdonly: seq<byte>) {
    predicate Valid() {
      |bytes| == |rdonly|
    }
  }

  datatype Op =
    | Write(payload: seq<byte>)
    | Push(payload: seq<byte>, writable: bool)
    | Update(absof: nat, payload: seq<byte>)
    | Seek(absof: nat)

  /** An update stays inside what was written; everything else may always be asked for. */
  predicate InRange(s: FlatState, op: Op) {
    op.Update? ==> op.absof < |s.bytes| && op.absof + |op.payload| <= |s.bytes|
  }

  /** The buffer can be used afterwards: not a seek to a read-only byte. */
  predicate Usable(s: FlatState, op: Op)
    requires s.Valid()
  {
    op.Seek? && op.absof < |s.bytes| ==> s.rdonly[op.absof] == 0
  }

  /** The operation on the flat string: append, append, overwrite, truncate. */
  function FlatStep(s: FlatState, op: Op): (r: FlatState)
    requires s.Valid() && InRange(s, op)
    ensures r.Valid()
  {
    match op
    case Write(p) => FlatState(s.bytes + p, s.rdonly + MarkBytes(|p|, false))
    case Push(p, writable) => FlatState(s.bytes + p, s.rdonly + MarkBytes(|p|, !writable))
    case Update(at, p) => s.(bytes := Overwrite(s.bytes, at, p))
    case Seek(at) => if at < |s.bytes| then FlatState(s.bytes[..at], s.rdonly[..at]) else s
  }

  predicate RunInRange(s: FlatState, ops: seq<Op>)
    requires s.Valid()
    decreases |ops|
  {
    ops == [] || (InRange(s, ops[0]) && RunInRange(FlatStep(s, ops[0]), ops[1..]))
  }

  function FlatRun(s: FlatState, ops: seq<Op>): (r: FlatState)
    requires s.Valid() && RunInRange(s, ops)
    ensures r.Valid()
    decreases |ops|
  {
    if ops == [] then s else FlatRun(FlatStep(s, ops[0]), ops[1..])
  }

  lemma {:induction false} RunSnoc(s: FlatState, ops: seq<Op>, op: Op)
    requires s.Valid() && RunInRange(s, ops) && InRange(FlatRun(s, ops), op)
    ensures RunInRange(s, ops + [op]) && FlatRun(s, ops + [op]) == FlatStep(FlatRun(s, ops), op)
    decreases |ops|
  {
    hide FlatStep;
    if ops == [] {
      assert [op][1..] == [];
    } else {
      assert (ops + [op])[1..] == ops[1..] + [op];
      RunSnoc(FlatStep(s, ops[0]), ops[1..], op);
    }
  }

  /** The flat string a buffer stands for. */
  ghost function Value(b: Buffer): FlatState
    reads b
  {
    FlatState(b.Bytes(), b.ReadOnly())
  }

  lemma ValueValid(b: Buffer)
    ensures Value(b).Valid()
  {
    FlagsLength(b.segs);
  }

  /** One operation on the buffer; it stays usable exactly unless it sought to a read-only byte. */
  method Apply(b: Buffer, op: Op) returns (usable: bool)
    requires b.Valid() && b.wpos == |b.segs| - 1 && Value(b).Valid() && InRange(Value(b), op)
    modifies b
    ensures Value(b).Valid() && Value(b) == FlatStep(old(Value(b)), op)
    ensures usable <==> Usable(old(Value(b)), op)
    ensures usable ==> b.Valid() && b.wpos == |b.segs| - 1
  {
    hide Flat, Layout, Capacity, Flags, MarkBytes;
    usable := true;
    ghost var before := Value(b);
    match op
    case Write(p) =>
      var absof := b.Write(p);
      ValueValid(b);
    case Push(p, writable) =>
      b.Push(p, writable);
      ValueValid(b);
    case Update(at, p) =>
      var n := b.WriteUpdate(at, p);
      ValueValid(b);
    case Seek(at) =>
      var r := b.WriteSeek(at);
      ValueValid(b);
      usable := r == -1 || !b.segs[b.wpos].rdonly;
  }

  /** Every operation of the run is in range and leaves the buffer usable. */
  predicate Smooth(s: FlatState, ops: seq<Op>)
    requires s.Valid()
    decreases |ops|
  {
    ops == [] || (InRange(s, ops[0]) && Usable(s, ops[0]) && Smooth(FlatStep(s, ops[0]), ops[1..]))
  }

  /** The last of the first `n` operations sought to a read-only byte. */
  predicate EndsUnusable(s: FlatState, ops: seq<Op>, n: nat)
    requires s.Valid() && n <= |ops|
  {
    n > 0 && RunInRange(s, ops[..n - 1]) && !Usable(FlatRun(s, ops[..n - 1]), ops[n - 1])
  }

  lemma {:induction false} SmoothAt(s: FlatState, ops: seq<Op>, n: nat)
    requires s.Valid() && Smooth(s, ops) && n < |ops|
    ensures RunInRange(s, ops[..n]) && InRange(FlatRun(s, ops[..n]), ops[n]) && Usable(FlatRun(s, ops[..n]), ops[n])
    decreases n
  {
    hide FlatStep, Usable, InRange;
    if n > 0 {
      assert ops[..n][0] == ops[0] && ops[..n][1..] == ops[1..][..n - 1];
      SmoothAt(FlatStep(s, ops[0]), ops[1..], n - 1);
    }
  }

  /**
    Any run from a buffer that writes at its end, as an empty one does: after every
    operation the segments hold exactly the flat string of that run. It goes through to the
    end whenever, on the flat string, no update is out of range and no seek goes to a
    read-only byte; otherwise it ends before that update, or after that seek.
   */
  method RunAll(b: Buffer, ops: seq<Op>) returns (n: nat, usable: bool)
    requires b.Valid() && b.wpos == |b.segs| - 1
    modifies b
    ensures old(Value(b)).Valid() && Value(b).Valid()
    ensures n <= |ops| && RunInRange(old(Value(b)), ops[..n]) && Value(b) == FlatRun(old(Value(b)), ops[..n])
    ensures Smooth(old(Value(b)), ops) ==> n == |ops| && usable
    ensures usable ==> b.Valid()
    ensures usable && n < |ops| ==> !InRange(Value(b), ops[n])
    ensures !usable ==> EndsUnusable(old(Value(b)), ops, n)
  {
    hide Flat, Layout, Capacity, Flags, FlatStep, Usable;
    ValueValid(b);
    n, usable := 0, true;
    while usable && n < |ops| && InRangeNow(b, ops[n])
      invariant 0 <= n <= |ops| && Value(b).Valid() && RunInRange(old(Value(b)), ops[..n])
      invariant Value(b) == FlatRun(old(Value(b)), ops[..n])
      invariant usable ==> b.Valid() && b.wpos == |b.segs| - 1
      invariant !usable ==> EndsUnusable(old(Value(b)), ops, n)
      decreases |ops| - n
    {
      RunSnoc(old(Value(b)), ops[..n], ops[n]);
      assert ops[..n + 1] == ops[..n] + [ops[n]];
      usable := Apply(b, ops[n]);
      n := n + 1;
    }
    if Smooth(old(Value(b)), ops) {
      if n < |ops| {
        SmoothAt(old(Value(b)), ops, n);
      }
      if n > 0 {
        SmoothAt(old(Value(b)), ops, n - 1);
      }
    }
  }

  /** The range check on the buffer's own length. */
  function InRangeNow(b: Buffer, op: Op): (r: bool)
    reads b
    requires b.Valid()
    ensures r <==> InRange(Value(b), op)
  {
    op.Update? ==> op.absof < b.len && op.absof + |op.payload| <= b.len
  }

  // ------------------------------------------------------------------ returned offsets

  /** An operation that neither overwrites nor cuts off the range. */
  predicate Spares(op: Op, from: nat, to: nat) {
    match op
    case Update(at, p) => at + |p| <= from || to <= at
    case Seek(at) => at >= to
    case _ => true
  }

  lemma StepSpares(s: FlatState, op: Op, from: nat, to: nat)
    requires s.Valid() && InRange(s, op) && from <= to <= |s.bytes| && Spares(op, from, to)
    ensures to <= |FlatStep(s, op).bytes| && FlatStep(s, op).bytes[from..to] == s.bytes[from..to]
  {
    var r := FlatStep(s, op).bytes;
    assert to <= |r|;
    assert forall i :: from <= i < to ==> r[i] == s.bytes[i];
  }

  /** Bytes stay where a write's returned offset says, through any run that spares them. */
  lemma {:induction false} OffsetStays(s: FlatState, ops: seq<Op>, from: nat, to: nat)
    requires s.Valid() && RunInRange(s, ops) && from <= to <= |s.bytes|
    requires forall i :: 0 <= i < |ops| ==> Spares(ops[i], from, to)
    ensures to <= |FlatRun(s, ops).bytes| && FlatRun(s, ops).bytes[from..to] == s.bytes[from..to]
    decreases |ops|
  {
    hide FlatStep, Spares;
    if ops != [] {
      StepSpares(s, ops[0], from, to);
      OffsetStays(FlatStep(s, ops[0]), ops[1..], from, to);
    }
  }
}
