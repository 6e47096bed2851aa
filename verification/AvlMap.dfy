/**
  Insertion, removal and lookup of cbits/hs_rdavl.c on top of `Avl`, under the caller's
  comparator, and what every run of them keeps: a strictly sorted in-order sequence, the
  contents of a map keyed by comparator equality, balance and logarithmic height.
 */
module AvlMap {
  import opened Avl

  datatype Option<+X> = None | Some(value: X)

  /** A tree position: the node object and the element it points back to. */
  datatype Entry<N, E> = Entry(node: N, elm: E)

  type Cmp<!E> = (E, E) -> int

  ghost predicate TotalOrder<E(!new)>(cmp: Cmp<E>) {
    && (forall a, b :: cmp(a, b) < 0 <==> cmp(b, a) > 0)
    && (forall a, b, c :: cmp(a, b) <= 0 && cmp(b, c) <= 0 ==> cmp(a, c) <= 0)
  }

  // ------------------------------------------------------------------ abstract contents

  /** The entries of `s` that compare below `k`, in order. */
  function Less<N, E>(cmp: Cmp<E>, s: seq<Entry<N, E>>, k: E): seq<Entry<N, E>> {
    if s == [] then []
    else (if cmp(k, s[0].elm) > 0 then [s[0]] else []) + Less(cmp, s[1..], k)
  }

  /** The entries of `s` that compare above `k`, in order. */
  function Greater<N, E>(cmp: Cmp<E>, s: seq<Entry<N, E>>, k: E): seq<Entry<N, E>> {
    if s == [] then []
    else (if cmp(k, s[0].elm) < 0 then [s[0]] else []) + Greater(cmp, s[1..], k)
  }

  /** The first entry of `s` that compares equal to `k`. */
  function Lookup<N, E>(cmp: Cmp<E>, s: seq<Entry<N, E>>, k: E): Option<Entry<N, E>> {
    if s == [] then None
    else if cmp(k, s[0].elm) == 0 then Some(s[0])
    else Lookup(cmp, s[1..], k)
  }

  ghost predicate Sorted<N, E>(cmp: Cmp<E>, s: seq<Entry<N, E>>) {
    forall i, j :: 0 <= i < j < |s| ==> cmp(s[i].elm, s[j].elm) < 0
  }

  lemma {:induction false} LessConcat<N, E>(cmp: Cmp<E>, a: seq<Entry<N, E>>, b: seq<Entry<N, E>>, k: E)
    ensures Less(cmp, a + b, k) == Less(cmp, a, k) + Less(cmp, b, k)
  {
    if a == [] {
      assert a + b == b;
    } else {
      assert (a + b)[1..] == a[1..] + b;
      LessConcat(cmp, a[1..], b, k);
    }
  }

  lemma {:induction false} GreaterConcat<N, E>(cmp: Cmp<E>, a: seq<Entry<N, E>>, b: seq<Entry<N, E>>, k: E)
    ensures Greater(cmp, a + b, k) == Greater(cmp, a, k) + Greater(cmp, b, k)
  {
    if a == [] {
      assert a + b == b;
    } else {
      assert (a + b)[1..] == a[1..] + b;
      GreaterConcat(cmp, a[1..], b, k);
    }
  }

  lemma {:induction false} LookupConcat<N, E>(cmp: Cmp<E>, a: seq<Entry<N, E>>, b: seq<Entry<N, E>>, k: E)
    ensures Lookup(cmp, a + b, k) ==
            if Lookup(cmp, a, k).Some? then Lookup(cmp, a, k) else Lookup(cmp, b, k)
  {
    if a == [] {
      assert a + b == b;
    } else {
      assert (a + b)[1..] == a[1..] + b;
      LookupConcat(cmp, a[1..], b, k);
    }
  }

  lemma {:induction false} AllBelow<N, E>(cmp: Cmp<E>, s: seq<Entry<N, E>>, k: E)
    requires forall i :: 0 <= i < |s| ==> cmp(k, s[i].elm) > 0
    ensures Less(cmp, s, k) == s && Greater(cmp, s, k) == [] && Lookup(cmp, s, k) == None
  {
    if s != [] {
      AllBelow(cmp, s[1..], k);
    }
  }

  lemma {:induction false} AllAbove<N, E>(cmp: Cmp<E>, s: seq<Entry<N, E>>, k: E)
    requires forall i :: 0 <= i < |s| ==> cmp(k, s[i].elm) < 0
    ensures Greater(cmp, s, k) == s && Less(cmp, s, k) == [] && Lookup(cmp, s, k) == None
  {
    if s != [] {
      AllAbove(cmp, s[1..], k);
    }
  }

  /** Transitivity with one strict side. */
  lemma Below<E(!new)>(cmp: Cmp<E>, a: E, b: E, c: E)
    requires TotalOrder(cmp)
    requires (cmp(a, b) <= 0 && cmp(b, c) < 0) || (cmp(a, b) < 0 && cmp(c, b) >= 0)
    ensures cmp(a, c) < 0 && cmp(c, a) > 0
  {}

  /** Both sides of a node are sorted, and strictly on their side of it. */
  lemma Sides<N, E(!new)>(cmp: Cmp<E>, l: seq<Entry<N, E>>, x: Entry<N, E>, r: seq<Entry<N, E>>)
    requires Sorted(cmp, l + [x] + r)
    ensures Sorted(cmp, l) && Sorted(cmp, r)
    ensures forall i :: 0 <= i < |l| ==> cmp(l[i].elm, x.elm) < 0
    ensures forall i :: 0 <= i < |r| ==> cmp(x.elm, r[i].elm) < 0
  {
    var s := l + [x] + r;
    assert s[|l|] == x;
    assert forall i :: 0 <= i < |l| ==> l[i] == s[i];
    assert forall i :: 0 <= i < |r| ==> r[i] == s[|l| + 1 + i];
  }

  lemma Combine<N, E>(cmp: Cmp<E>, l: seq<Entry<N, E>>, x: Entry<N, E>, r: seq<Entry<N, E>>, k: E)
    ensures Less(cmp, l + [x] + r, k) ==
            Less(cmp, l, k) + (if cmp(k, x.elm) > 0 then [x] else []) + Less(cmp, r, k)
    ensures Greater(cmp, l + [x] + r, k) ==
            Greater(cmp, l, k) + (if cmp(k, x.elm) < 0 then [x] else []) + Greater(cmp, r, k)
    ensures Lookup(cmp, l + [x] + r, k) ==
            if Lookup(cmp, l, k).Some? then Lookup(cmp, l, k)
            else if cmp(k, x.elm) == 0 then Some(x) else Lookup(cmp, r, k)
  {
    hide Less, Greater, Lookup;
    One(cmp, x, k);
    LessConcat(cmp, l + [x], r, k);
    LessConcat(cmp, l, [x], k);
    GreaterConcat(cmp, l + [x], r, k);
    GreaterConcat(cmp, l, [x], k);
    LookupConcat(cmp, l + [x], r, k);
    LookupConcat(cmp, l, [x], k);
  }

  lemma One<N, E>(cmp: Cmp<E>, x: Entry<N, E>, k: E)
    ensures Less(cmp, [x], k) == (if cmp(k, x.elm) > 0 then [x] else [])
    ensures Greater(cmp, [x], k) == (if cmp(k, x.elm) < 0 then [x] else [])
    ensures Lookup(cmp, [x], k) == (if cmp(k, x.elm) == 0 then Some(x) else None)
  {
    assert [x][1..] == [];
  }

  /** Going left at `x`: everything at and right of it stays above `k`. */
  lemma RightSide<N, E(!new)>(cmp: Cmp<E>, l: seq<Entry<N, E>>, x: Entry<N, E>, r: seq<Entry<N, E>>, k: E)
    requires TotalOrder(cmp) && Sorted(cmp, l + [x] + r) && cmp(k, x.elm) <= 0
    ensures Sorted(cmp, l) && Sorted(cmp, r)
    ensures Greater(cmp, r, k) == r && Less(cmp, r, k) == [] && Lookup(cmp, r, k) == None
  {
    hide Less, Greater, Lookup;
    Sides(cmp, l, x, r);
    forall i | 0 <= i < |r| ensures cmp(k, r[i].elm) < 0 { Below(cmp, k, x.elm, r[i].elm); }
    AllAbove(cmp, r, k);
  }

  /** Going right at `x`: everything at and left of it stays below `k`. */
  lemma LeftSide<N, E(!new)>(cmp: Cmp<E>, l: seq<Entry<N, E>>, x: Entry<N, E>, r: seq<Entry<N, E>>, k: E)
    requires TotalOrder(cmp) && Sorted(cmp, l + [x] + r) && cmp(k, x.elm) >= 0
    ensures Sorted(cmp, l) && Sorted(cmp, r)
    ensures Less(cmp, l, k) == l && Greater(cmp, l, k) == [] && Lookup(cmp, l, k) == None
  {
    hide Less, Greater, Lookup;
    Sides(cmp, l, x, r);
    forall i | 0 <= i < |l| ensures cmp(k, l[i].elm) > 0 { Below(cmp, l[i].elm, x.elm, k); }
    AllBelow(cmp, l, k);
  }

  lemma {:induction false} LessMember<N, E>(cmp: Cmp<E>, s: seq<Entry<N, E>>, k: E, x: Entry<N, E>)
    ensures x in Less(cmp, s, k) <==> x in s && cmp(k, x.elm) > 0
  {
    if s != [] {
      assert s == [s[0]] + s[1..];
      LessMember(cmp, s[1..], k, x);
    }
  }

  lemma {:induction false} GreaterMember<N, E>(cmp: Cmp<E>, s: seq<Entry<N, E>>, k: E, x: Entry<N, E>)
    ensures x in Greater(cmp, s, k) <==> x in s && cmp(k, x.elm) < 0
  {
    if s != [] {
      assert s == [s[0]] + s[1..];
      GreaterMember(cmp, s[1..], k, x);
    }
  }

  /** The entry equal to `k`, if any, as a sequence. */
  function Equal<N, E>(cmp: Cmp<E>, s: seq<Entry<N, E>>, k: E): (m: seq<Entry<N, E>>)
    ensures |m| <= 1
  {
    match Lookup(cmp, s, k)
    case None => []
    case Some(x) => [x]
  }

  /** A sorted sequence is its lesser part, the entry equal to `k`, and its greater part. */
  lemma {:induction false} SplitSorted<N, E(!new)>(cmp: Cmp<E>, s: seq<Entry<N, E>>, k: E)
    requires TotalOrder(cmp) && Sorted(cmp, s)
    ensures s == Less(cmp, s, k) + Equal(cmp, s, k) + Greater(cmp, s, k)
  {
    hide TotalOrder, Sorted, Less, Greater, Equal;
    SplitNone<N, E>(cmp, k);
    if s != [] {
      var x, t := s[0], s[1..];
      assert s == [] + [x] + t;
      Sides(cmp, [], x, t);
      SplitHead(cmp, x, t, k);
      if cmp(k, x.elm) <= 0 {
        RightSide(cmp, [], x, t, k);
        EqualNone(cmp, t, k);
      } else {
        SplitSorted(cmp, t, k);
        ConcatAssoc([x], Less(cmp, t, k), Equal(cmp, t, k));
        ConcatAssoc([x], Less(cmp, t, k) + Equal(cmp, t, k), Greater(cmp, t, k));
      }
    }
  }

  lemma SplitNone<N, E>(cmp: Cmp<E>, k: E)
    ensures var s: seq<Entry<N, E>> := []; Less(cmp, s, k) == [] && Equal(cmp, s, k) == [] && Greater(cmp, s, k) == []
  {}

  lemma EqualNone<N, E>(cmp: Cmp<E>, s: seq<Entry<N, E>>, k: E)
    requires Lookup(cmp, s, k) == None
    ensures Equal(cmp, s, k) == []
  {}

  /** The three parts of a sequence by where its first entry goes. */
  lemma SplitHead<N, E>(cmp: Cmp<E>, x: Entry<N, E>, t: seq<Entry<N, E>>, k: E)
    ensures Less(cmp, [] + [x] + t, k) == (if cmp(k, x.elm) > 0 then [x] + Less(cmp, t, k) else Less(cmp, t, k))
    ensures Greater(cmp, [] + [x] + t, k) == (if cmp(k, x.elm) < 0 then [x] + Greater(cmp, t, k) else Greater(cmp, t, k))
    ensures Equal(cmp, [] + [x] + t, k) == (if cmp(k, x.elm) == 0 then [x] else Equal(cmp, t, k))
  {
    hide Less, Greater, Lookup;
    AllBelow<N, E>(cmp, [], k);
    Combine(cmp, [], x, t, k);
  }

  /** Putting `e` between the parts below and above it keeps the sequence sorted. */
  lemma InsertSorted<N, E(!new)>(cmp: Cmp<E>, s: seq<Entry<N, E>>, e: Entry<N, E>)
    requires TotalOrder(cmp) && Sorted(cmp, s)
    ensures Sorted(cmp, Less(cmp, s, e.elm) + [e] + Greater(cmp, s, e.elm))
    ensures Sorted(cmp, Less(cmp, s, e.elm) + Greater(cmp, s, e.elm))
  {
    hide Less, Greater, Equal, TotalOrder;
    var a, m, b := Less(cmp, s, e.elm), Equal(cmp, s, e.elm), Greater(cmp, s, e.elm);
    SplitSorted(cmp, s, e.elm);
    forall i | 0 <= i < |a| ensures cmp(a[i].elm, e.elm) < 0 {
      LessMember(cmp, s, e.elm, a[i]);
      Flip(cmp, a[i].elm, e.elm);
    }
    forall i | 0 <= i < |b| ensures cmp(e.elm, b[i].elm) < 0 {
      GreaterMember(cmp, s, e.elm, b[i]);
    }
    Join(cmp, a, m, b, e);
  }

  lemma Flip<E(!new)>(cmp: Cmp<E>, a: E, b: E)
    requires TotalOrder(cmp)
    ensures cmp(a, b) < 0 <==> cmp(b, a) > 0
  {}

  lemma Join<N, E>(cmp: Cmp<E>, a: seq<Entry<N, E>>, m: seq<Entry<N, E>>, b: seq<Entry<N, E>>, e: Entry<N, E>)
    requires Sorted(cmp, a + m + b)
    requires forall i :: 0 <= i < |a| ==> cmp(a[i].elm, e.elm) < 0
    requires forall i :: 0 <= i < |b| ==> cmp(e.elm, b[i].elm) < 0
    ensures Sorted(cmp, a + [e] + b) && Sorted(cmp, a + b)
  {
    var s := a + m + b;
    forall i, j | 0 <= i < j < |a + b| ensures cmp((a + b)[i].elm, (a + b)[j].elm) < 0 {
      var i', j' := if i < |a| then i else i + |m|, if j < |a| then j else j + |m|;
      assert (a + b)[i] == s[i'] && (a + b)[j] == s[j'];
    }
    var r := a + [e] + b;
    forall i, j | 0 <= i < j < |r| ensures cmp(r[i].elm, r[j].elm) < 0 {
      if i != |a| && j != |a| {
        var i', j' := if i < |a| then i else i - 1, if j < |a| then j else j - 1;
        assert r[i] == (a + b)[i'] && r[j] == (a + b)[j'];
      }
    }
  }

  // ------------------------------------------------------------------ operations

  type ElmTree<N, E> = Tree<Entry<N, E>>

  /** Balanced in stored heights and strictly sorted under `cmp`. */
  ghost predicate Valid<N, E>(cmp: Cmp<E>, t: ElmTree<N, E>) {
    t.Ok() && Sorted(cmp, t.InOrder())
  }

  /** `rd_avl_insert_node`: the new tree and the entry it replaced, if any. */
  function Insert<N, E>(cmp: Cmp<E>, t: ElmTree<N, E>, e: Entry<N, E>)
    : (r: (ElmTree<N, E>, Option<Entry<N, E>>))
    requires t.Ok()
    ensures r.0.Ok() && r.0.Node?
  {
    hide BalanceSpec;
    if t.Nil? then (Node(Nil, e, 0, Nil), None)
    else
      var c := cmp(e.elm, t.elm.elm);
      if c == 0 then (Node(t.left, e, t.height, t.right), Some(t.elm))
      else if c < 0 then
        var (l, existing) := Insert(cmp, t.left, e);
        BalanceOk(t.(left := l));
        (Balance(t.(left := l)), existing)
      else
        var (l, existing) := Insert(cmp, t.right, e);
        BalanceOk(t.(right := l));
        (Balance(t.(right := l)), existing)
  }

  /** `rd_avl_move`: hang all of `src` at the far `dir` end of `dst`. */
  function Move<T>(dst: Tree<T>, src: Tree<T>, dir: Dir): (r: Tree<T>)
    requires dst.Ok() && src.Ok()
    ensures r.Ok()
    decreases dst
  {
    hide BalanceSpec;
    if dst.Nil? then src
    else
      var t := dst.WithChild(dir, Move(dst.Child(dir), src, dir));
      BalanceOk(t);
      Balance(t)
  }

  /** `rd_avl_remove_elm0`, with `rd_avl_remove_node0` at the matching node. */
  function Remove<N, E>(cmp: Cmp<E>, t: ElmTree<N, E>, k: E): (r: ElmTree<N, E>)
    requires t.Ok()
    ensures r.Ok()
  {
    hide BalanceSpec;
    if t.Nil? then Nil
    else
      var c := cmp(k, t.elm.elm);
      if c == 0 then Move(t.left, t.right, Right)
      else if c < 0 then
        var t' := t.(left := Remove(cmp, t.left, k));
        BalanceOk(t');
        Balance(t')
      else
        var t' := t.(right := Remove(cmp, t.right, k));
        BalanceOk(t');
        Balance(t')
  }

  /** `rd_avl_find_node` */
  function Find<N, E>(cmp: Cmp<E>, t: ElmTree<N, E>, k: E): Option<Entry<N, E>> {
    if t.Nil? then None
    else
      var c := cmp(k, t.elm.elm);
      if c == 0 then Some(t.elm)
      else if c < 0 then Find(cmp, t.left, k)
      else Find(cmp, t.right, k)
  }

  lemma BalanceOk<T>(t: Tree<T>)
    requires t.ChildrenOk()
    ensures Balance(t).Node? && Balance(t).Ok() && Balance(t).InOrder() == t.InOrder()
  {}

  lemma MoveStep<T>(dst: Tree<T>, src: Tree<T>, dir: Dir)
    requires dst.Ok() && src.Ok() && dst.Node?
    ensures dst.Child(dir).Ok()
    ensures Move(dst, src, dir).InOrder() ==
            dst.WithChild(dir, Move(dst.Child(dir), src, dir)).InOrder()
  {
    hide BalanceSpec, Balance, Tree.InOrder;
    BalanceOk(dst.WithChild(dir, Move(dst.Child(dir), src, dir)));
  }

  lemma {:induction false} MoveInOrder<T>(dst: Tree<T>, src: Tree<T>, dir: Dir)
    requires dst.Ok() && src.Ok()
    ensures Move(dst, src, dir).InOrder() ==
            if dir == Right then dst.InOrder() + src.InOrder() else src.InOrder() + dst.InOrder()
    decreases dst
  {
    hide Tree.Ok, BalanceSpec, Balance, Move;
    if dst.Nil? {
      MoveNil(dst, src, dir);
    } else {
      MoveStep(dst, src, dir);
      MoveInOrder(dst.Child(dir), src, dir);
      var l, r, m := dst.left.InOrder(), dst.right.InOrder(), src.InOrder();
      ConcatAssoc(l + [dst.elm], r, m);
      ConcatAssoc(m, l, [dst.elm]);
      ConcatAssoc(m, l + [dst.elm], r);
    }
  }

  lemma MoveNil<T>(dst: Tree<T>, src: Tree<T>, dir: Dir)
    requires dst.Nil? && src.Ok()
    ensures Move(dst, src, dir) == src && [] + src.InOrder() == src.InOrder() + [] == src.InOrder()
  {}

  lemma ConcatAssoc<X>(a: seq<X>, b: seq<X>, c: seq<X>)
    ensures (a + b) + c == a + (b + c)
  {}

  /** Insertion replaces the entry with an equal key or adds one, and reports the old one. */
  lemma {:induction false} InsertCorrect<N, E(!new)>(cmp: Cmp<E>, t: ElmTree<N, E>, e: Entry<N, E>)
    requires TotalOrder(cmp) && Valid(cmp, t)
    ensures Insert(cmp, t, e).0.InOrder() ==
            Less(cmp, t.InOrder(), e.elm) + [e] + Greater(cmp, t.InOrder(), e.elm)
    ensures Insert(cmp, t, e).1 == Lookup(cmp, t.InOrder(), e.elm)
    ensures Valid(cmp, Insert(cmp, t, e).0)
    decreases t
  {
    hide BalanceSpec, Less, Greater, Lookup, TotalOrder, Balance;
    InsertSorted(cmp, t.InOrder(), e);
    if t.Nil? {
      AllBelow<N, E>(cmp, [], e.elm);
    } else {
      var l, x, r := t.left.InOrder(), t.elm, t.right.InOrder();
      Sides(cmp, l, x, r);
      Combine(cmp, l, x, r, e.elm);
      if cmp(e.elm, x.elm) <= 0 {
        RightSide(cmp, l, x, r, e.elm);
      }
      if cmp(e.elm, x.elm) >= 0 {
        LeftSide(cmp, l, x, r, e.elm);
      }
      if cmp(e.elm, x.elm) < 0 {
        InsertCorrect(cmp, t.left, e);
        var a, b := Less(cmp, l, e.elm), Greater(cmp, l, e.elm);
        ConcatAssoc(a + [e], b, [x] + r);
        ConcatAssoc(a + [e] + b, [x], r);
        ConcatAssoc(b, [x], r);
        BalanceOk(t.(left := Insert(cmp, t.left, e).0));
      } else if cmp(e.elm, x.elm) > 0 {
        InsertCorrect(cmp, t.right, e);
        var a, b := Less(cmp, r, e.elm), Greater(cmp, r, e.elm);
        ConcatAssoc(l + [x], a, [e]);
        ConcatAssoc(l + [x], a + [e], b);
        BalanceOk(t.(right := Insert(cmp, t.right, e).0));
      }
    }
  }

  /** Removal drops exactly the entry with an equal key, if there is one. */
  lemma {:induction false} RemoveCorrect<N, E(!new)>(cmp: Cmp<E>, t: ElmTree<N, E>, k: E)
    requires TotalOrder(cmp) && Valid(cmp, t)
    ensures Remove(cmp, t, k).InOrder() == Less(cmp, t.InOrder(), k) + Greater(cmp, t.InOrder(), k)
    decreases t
  {
    hide BalanceSpec, Less, Greater, Lookup, TotalOrder, Balance;
    if t.Nil? {
      AllBelow<N, E>(cmp, [], k);
    } else {
      var l, x, r := t.left.InOrder(), t.elm, t.right.InOrder();
      Sides(cmp, l, x, r);
      Combine(cmp, l, x, r, k);
      if cmp(k, x.elm) <= 0 {
        RightSide(cmp, l, x, r, k);
      }
      if cmp(k, x.elm) >= 0 {
        LeftSide(cmp, l, x, r, k);
      }
      if cmp(k, x.elm) == 0 {
        MoveInOrder(t.left, t.right, Right);
      } else if cmp(k, x.elm) < 0 {
        RemoveCorrect(cmp, t.left, k);
        var a, b := Less(cmp, l, k), Greater(cmp, l, k);
        ConcatAssoc(a, b, [x]);
        ConcatAssoc(a, b + [x], r);
        BalanceOk(t.(left := Remove(cmp, t.left, k)));
      } else {
        RemoveCorrect(cmp, t.right, k);
        ConcatAssoc(l + [x], Less(cmp, r, k), Greater(cmp, r, k));
        BalanceOk(t.(right := Remove(cmp, t.right, k)));
      }
    }
  }

  /** Lookup in the tree agrees with lookup in the sequence. */
  lemma {:induction false} FindCorrect<N, E(!new)>(cmp: Cmp<E>, t: ElmTree<N, E>, k: E)
    requires TotalOrder(cmp) && Valid(cmp, t)
    ensures Find(cmp, t, k) == Lookup(cmp, t.InOrder(), k)
    decreases t
  {
    hide Less, Greater, Lookup, TotalOrder;
    if t.Nil? {
      AllBelow<N, E>(cmp, [], k);
    } else {
      var l, x, r := t.left.InOrder(), t.elm, t.right.InOrder();
      Sides(cmp, l, x, r);
      Combine(cmp, l, x, r, k);
      if cmp(k, x.elm) <= 0 {
        RightSide(cmp, l, x, r, k);
      }
      if cmp(k, x.elm) >= 0 {
        LeftSide(cmp, l, x, r, k);
      }
      FindCorrect(cmp, t.left, k);
      FindCorrect(cmp, t.right, k);
    }
  }

  // ------------------------------------------------------------------ map laws

  lemma {:induction false} LookupNone<N, E>(cmp: Cmp<E>, s: seq<Entry<N, E>>, k: E)
    requires forall x :: x in s ==> cmp(k, x.elm) != 0
    ensures Lookup(cmp, s, k) == None
  {
    if s != [] {
      assert s[0] in s;
      LookupNone(cmp, s[1..], k);
    }
  }

  lemma {:induction false} LookupSome<N, E>(cmp: Cmp<E>, s: seq<Entry<N, E>>, k: E)
    ensures Lookup(cmp, s, k).Some? ==>
              Lookup(cmp, s, k).value in s && cmp(k, Lookup(cmp, s, k).value.elm) == 0
  {
    if s != [] {
      LookupSome(cmp, s[1..], k);
    }
  }

  /** Equal keys may be exchanged in comparisons. */
  lemma EqualKeys<E(!new)>(cmp: Cmp<E>, a: E, b: E, c: E)
    requires TotalOrder(cmp) && cmp(a, b) == 0
    ensures cmp(a, c) == 0 <==> cmp(b, c) == 0
    ensures cmp(a, c) < 0 <==> cmp(b, c) < 0
    ensures cmp(c, a) == 0 <==> cmp(c, b) == 0
  {
    assert cmp(b, a) == 0;
  }

  /** Around `j`, lookups of keys different from `j` see the same entries as before. */
  lemma LookupAround<N, E(!new)>(cmp: Cmp<E>, s: seq<Entry<N, E>>, mid: seq<Entry<N, E>>, j: E, k: E)
    requires TotalOrder(cmp) && Sorted(cmp, s)
    requires forall x :: x in mid ==> cmp(j, x.elm) == 0
    ensures Lookup(cmp, Less(cmp, s, j) + mid + Greater(cmp, s, j), k) ==
            if cmp(k, j) == 0 then Lookup(cmp, mid, k) else Lookup(cmp, s, k)
  {
    hide TotalOrder, Less, Greater, Lookup, Sorted;
    var a, b, m := Less(cmp, s, j), Greater(cmp, s, j), Equal(cmp, s, j);
    SplitSorted(cmp, s, j);
    LookupConcat(cmp, a + mid, b, k);
    LookupConcat(cmp, a, mid, k);
    LookupConcat(cmp, a + m, b, k);
    LookupConcat(cmp, a, m, k);
    if cmp(k, j) == 0 {
      forall x | x in a ensures cmp(k, x.elm) != 0 { LessMember(cmp, s, j, x); EqualKeys(cmp, k, j, x.elm); }
      forall x | x in b ensures cmp(k, x.elm) != 0 { GreaterMember(cmp, s, j, x); EqualKeys(cmp, k, j, x.elm); }
      LookupNone(cmp, a, k);
      LookupNone(cmp, b, k);
    } else {
      LookupSome(cmp, s, j);
      forall x | x in m ensures cmp(k, x.elm) != 0 { EqualKeys(cmp, j, x.elm, k); }
      forall x | x in mid ensures cmp(k, x.elm) != 0 { EqualKeys(cmp, j, x.elm, k); }
      LookupNone(cmp, m, k);
      LookupNone(cmp, mid, k);
    }
  }

  /** After inserting `e`, exactly the keys equal to it answer with `e`. */
  lemma FindAfterInsert<N, E(!new)>(cmp: Cmp<E>, t: ElmTree<N, E>, e: Entry<N, E>, k: E)
    requires TotalOrder(cmp) && Valid(cmp, t)
    ensures Find(cmp, Insert(cmp, t, e).0, k) == if cmp(k, e.elm) == 0 then Some(e) else Find(cmp, t, k)
  {
    hide Less, Greater, Lookup, Find, Insert;
    assert cmp(e.elm, e.elm) == 0;
    InsertCorrect(cmp, t, e);
    FindCorrect(cmp, t, k);
    FindCorrect(cmp, Insert(cmp, t, e).0, k);
    LookupAround(cmp, t.InOrder(), [e], e.elm, k);
    One(cmp, e, k);
  }

  /** After removing `j`, exactly the keys equal to it are gone. */
  lemma FindAfterRemove<N, E(!new)>(cmp: Cmp<E>, t: ElmTree<N, E>, j: E, k: E)
    requires TotalOrder(cmp) && Valid(cmp, t)
    ensures Valid(cmp, Remove(cmp, t, j))
    ensures Find(cmp, Remove(cmp, t, j), k) == if cmp(k, j) == 0 then None else Find(cmp, t, k)
  {
    hide Less, Greater, Lookup, Find, Remove;
    RemoveCorrect(cmp, t, j);
    RemoveSorted(cmp, t.InOrder(), j);
    FindCorrect(cmp, t, k);
    FindCorrect(cmp, Remove(cmp, t, j), k);
    LookupAround<N, E>(cmp, t.InOrder(), [], j, k);
    LookupNone<N, E>(cmp, [], k);
    var a, b := Less(cmp, t.InOrder(), j), Greater(cmp, t.InOrder(), j);
    assert a + [] + b == a + b;
  }

  lemma RemoveSorted<N, E(!new)>(cmp: Cmp<E>, s: seq<Entry<N, E>>, j: E)
    requires TotalOrder(cmp) && Sorted(cmp, s)
    ensures Sorted(cmp, Less(cmp, s, j) + Greater(cmp, s, j))
  {
    hide TotalOrder, Less, Greater, Equal;
    var a, m, b := Less(cmp, s, j), Equal(cmp, s, j), Greater(cmp, s, j);
    SplitSorted(cmp, s, j);
    JoinParts(cmp, a, m, b);
  }

  lemma JoinParts<N, E>(cmp: Cmp<E>, a: seq<Entry<N, E>>, m: seq<Entry<N, E>>, b: seq<Entry<N, E>>)
    requires Sorted(cmp, a + m + b)
    ensures Sorted(cmp, a + b)
  {
    var s := a + m + b;
    forall i, j | 0 <= i < j < |a + b| ensures cmp((a + b)[i].elm, (a + b)[j].elm) < 0 {
      var i', j' := if i < |a| then i else i + |m|, if j < |a| then j else j + |m|;
      assert (a + b)[i] == s[i'] && (a + b)[j] == s[j'];
    }
  }

  // ------------------------------------------------------------------ runs

  datatype Op<N, E> = OpInsert(entry: Entry<N, E>) | OpRemove(key: E)

  /** The tree after a run of operations from the empty tree. */
  function Run<N, E>(cmp: Cmp<E>, ops: seq<Op<N, E>>): (t: ElmTree<N, E>)
    ensures t.Ok()
  {
    if ops == [] then Nil
    else
      var before := Run(cmp, ops[..|ops| - 1]);
      match ops[|ops| - 1]
      case OpInsert(e) => Insert(cmp, before, e).0
      case OpRemove(k) => Remove(cmp, before, k)
  }

  /** What a map keyed by comparator equality holds for `k` after the run. */
  function MapAfter<N, E>(cmp: Cmp<E>, ops: seq<Op<N, E>>, k: E): Option<Entry<N, E>> {
    if ops == [] then None
    else
      match ops[|ops| - 1]
      case OpInsert(e) => if cmp(k, e.elm) == 0 then Some(e) else MapAfter(cmp, ops[..|ops| - 1], k)
      case OpRemove(j) => if cmp(k, j) == 0 then None else MapAfter(cmp, ops[..|ops| - 1], k)
  }

  lemma {:induction false} RunValid<N, E(!new)>(cmp: Cmp<E>, ops: seq<Op<N, E>>)
    requires TotalOrder(cmp)
    ensures Valid(cmp, Run(cmp, ops))
  {
    hide TotalOrder, Insert, Remove, Sorted;
    if ops == [] {
      SortedEmpty<N, E>(cmp);
    } else {
      var prev := ops[..|ops| - 1];
      RunValid(cmp, prev);
      match ops[|ops| - 1] {
        case OpInsert(e) => InsertCorrect(cmp, Run(cmp, prev), e);
        case OpRemove(k) => FindAfterRemove(cmp, Run(cmp, prev), k, k);
      }
    }
  }

  lemma SortedEmpty<N, E>(cmp: Cmp<E>)
    ensures Sorted<N, E>(cmp, [])
  {}

  /** Every run refines the map: lookups agree for every key, after every history. */
  lemma {:induction false} RunRefinesMap<N, E(!new)>(cmp: Cmp<E>, ops: seq<Op<N, E>>, k: E)
    requires TotalOrder(cmp)
    ensures Find(cmp, Run(cmp, ops), k) == MapAfter(cmp, ops, k)
  {
    hide TotalOrder, Insert, Remove, Valid;
    if ops != [] {
      var prev := ops[..|ops| - 1];
      RunRefinesMap(cmp, prev, k);
      RunValid(cmp, prev);
      match ops[|ops| - 1] {
        case OpInsert(e) => FindAfterInsert(cmp, Run(cmp, prev), e, k);
        case OpRemove(j) => FindAfterRemove(cmp, Run(cmp, prev), j, k);
      }
    }
  }

  /** The element an insertion returns is the one the map held for that key. */
  lemma InsertReturnsOld<N, E(!new)>(cmp: Cmp<E>, ops: seq<Op<N, E>>, e: Entry<N, E>)
    requires TotalOrder(cmp)
    ensures Insert(cmp, Run(cmp, ops), e).1 == MapAfter(cmp, ops, e.elm)
  {
    hide TotalOrder, Insert, Run, MapAfter, Find;
    RunValid(cmp, ops);
    RunRefinesMap(cmp, ops, e.elm);
    InsertCorrect(cmp, Run(cmp, ops), e);
    FindCorrect(cmp, Run(cmp, ops), e.elm);
  }

  // ------------------------------------------------------------------ height

  function TrueHeight<T>(t: Tree<T>): nat {
    if t.Nil? then 0
    else 1 + (if TrueHeight(t.left) > TrueHeight(t.right) then TrueHeight(t.left) else TrueHeight(t.right))
  }

  function Fib(n: nat): nat {
    if n < 2 then n else Fib(n - 1) + Fib(n - 2)
  }

  /** Stored heights trail the true ones by at most the fresh leaf's missing level. */
  lemma {:induction false} StoredHeight<T>(t: Tree<T>)
    requires t.Ok()
    ensures t.H() <= TrueHeight(t) <= t.H() + 1
  {
    if t.Node? {
      StoredHeight(t.left);
      StoredHeight(t.right);
      OkHeight(t.left);
      OkHeight(t.right);
    }
  }

  lemma {:induction false} FibMonotone(m: nat, n: nat)
    requires m <= n
    ensures Fib(m) <= Fib(n)
  {
    if m < n {
      FibMonotone(m, n - 1);
    }
  }

  /** A balanced tree of stored height h holds at least Fib(h + 2) - 1 nodes. */
  lemma {:induction false} NodeCount<T>(t: Tree<T>)
    requires t.Ok()
    ensures t.H() >= 0 && t.Size() + 1 >= Fib(t.H() + 2)
  {
    hide Fib, Tree.Size, Tree.InOrder;
    OkHeight(t);
    FibStep(0);
    if t.Node? {
      NodeCount(t.left);
      NodeCount(t.right);
      SizeOfNode(t);
      OkHeight(t.left);
      OkHeight(t.right);
      FibJoin(t.H(), t.left.H(), t.right.H(), t.left.Size(), t.right.Size());
    }
  }

  lemma SizeOfNode<T>(t: Tree<T>)
    requires t.Node?
    ensures t.Size() == t.left.Size() + 1 + t.right.Size()
  {}

  /** The count of a node from those of its children. */
  lemma FibJoin(h: nat, l: nat, r: nat, m: nat, n: nat)
    requires m + 1 >= Fib(l + 2) && n + 1 >= Fib(r + 2)
    requires h == 0 || (h == 1 + (if l > r then l else r) && l - r <= 1 && r - l <= 1)
    ensures m + 1 + n + 1 >= Fib(h + 2)
  {
    hide Fib;
    FibMonotone(h, l + 2);
    FibMonotone(h, r + 2);
    FibStep(h);
  }

  lemma FibStep(h: nat)
    ensures Fib(h + 2) == Fib(h + 1) + Fib(h) && Fib(2) == 1
  {}

  /** The height bound on every run. */
  lemma RunHeight<N, E>(cmp: Cmp<E>, ops: seq<Op<N, E>>)
    ensures var t := Run(cmp, ops);
      t.H() >= 0 && TrueHeight(t) <= t.H() + 1 && Fib(TrueHeight(t) + 1) <= t.Size() + 1
  {
    hide Run;
    var t := Run(cmp, ops);
    NodeCount(t);
    StoredHeight(t);
    FibMonotone(TrueHeight(t) + 1, t.H() + 2);
  }
}
