/**
  The linked form of cbits/hs_rdavl.c: nodes whose child pointers and stored heights are
  rewritten in place.  Every operation is proved to take the linked tree that represents
  a value tree `t` to the linked tree that represents the same operation on `t`, using
  exactly the same node objects.
 */
module AvlHeap {
  import opened Avl
  import opened AvlMap

  /** `rd_avl_node_t` */
  class AvlNode<E> {
    var left: AvlNode?<E>
    var right: AvlNode?<E>
    var height: int
    var elm: E

    constructor (elm: E)
      ensures left == null && right == null && height == 0 && this.elm == elm
    {
      this.elm := elm;
      left, right, height := null, null, 0;
    }

    function Get(dir: Dir): AvlNode?<E>
      reads this
    {
      if dir == Left then left else right
    }

    method Set(dir: Dir, c: AvlNode?<E>)
      modifies this`left, this`right
      ensures Get(dir) == c && Get(dir.Opposite()) == old(Get(dir.Opposite()))
    {
      if dir == Left { left := c; } else { right := c; }
    }
  }

  /** A value tree that remembers which node object sits where. */
  type Shape<!E> = Tree<Entry<AvlNode<E>, E>>

  ghost function Foot<E>(t: Shape<E>): set<AvlNode<E>> {
    if t.Nil? then {} else {t.elm.node} + Foot(t.left) + Foot(t.right)
  }

  /** No node object occurs twice. */
  ghost predicate Apart<E>(t: Shape<E>) {
    t.Node? ==>
      && Apart(t.left) && Apart(t.right) && Foot(t.left) !! Foot(t.right)
      && t.elm.node !in Foot(t.left) && t.elm.node !in Foot(t.right)
  }

  ghost function Root<E>(t: Shape<E>): AvlNode?<E> {
    if t.Nil? then null else t.elm.node
  }

  /** The nodes of `t` whose fields disagree with their place in it. */
  ghost function Faults<E>(t: Shape<E>): set<AvlNode<E>>
    reads Foot(t)
  {
    if t.Nil? then {}
    else
      var n := t.elm.node;
      (if n.left == Root(t.left) && n.right == Root(t.right) && n.elm == t.elm.elm && n.height == t.height
       then {} else {n})
      + Faults(t.left) + Faults(t.right)
  }

  /** The linked tree at `p` is `t`, and no node object occurs twice. */
  ghost predicate Linked<E>(p: AvlNode?<E>, t: Shape<E>)
    reads Foot(t)
  {
    p == Root(t) && Faults(t) == {} && Apart(t)
  }

  // ------------------------------------------------------------------ footprints follow the in-order sequence

  ghost function Nodes<E>(s: seq<Entry<AvlNode<E>, E>>): set<AvlNode<E>> {
    set x | x in s :: x.node
  }

  ghost predicate NoDup<E>(s: seq<Entry<AvlNode<E>, E>>) {
    forall i, j :: 0 <= i < j < |s| ==> s[i].node != s[j].node
  }

  lemma {:induction false} FootInOrder<E>(t: Shape<E>)
    ensures Foot(t) == Nodes(t.InOrder())
  {
    if t.Node? {
      FootInOrder(t.left);
      FootInOrder(t.right);
    }
  }

  lemma NoDupSplit<E>(l: seq<Entry<AvlNode<E>, E>>, x: Entry<AvlNode<E>, E>, r: seq<Entry<AvlNode<E>, E>>)
    requires NoDup(l + [x] + r)
    ensures NoDup(l) && NoDup(r) && Nodes(l) !! Nodes(r) && x.node !in Nodes(l) && x.node !in Nodes(r)
  {
    var s := l + [x] + r;
    assert forall i :: 0 <= i < |l| ==> s[i] == l[i];
    assert s[|l|] == x;
    assert forall i :: 0 <= i < |r| ==> s[|l| + 1 + i] == r[i];
  }

  lemma NoDupJoin<E>(l: seq<Entry<AvlNode<E>, E>>, x: Entry<AvlNode<E>, E>, r: seq<Entry<AvlNode<E>, E>>)
    requires NoDup(l) && NoDup(r) && Nodes(l) !! Nodes(r) && x.node !in Nodes(l) && x.node !in Nodes(r)
    ensures NoDup(l + [x] + r)
  {
    var s := l + [x] + r;
    forall i, j | 0 <= i < j < |s| ensures s[i].node != s[j].node {
      if i < |l| { assert s[i].node in Nodes(l); }
      if j > |l| { assert s[j] == r[j - |l| - 1] && s[j].node in Nodes(r); }
      if i > |l| { assert s[i] == r[i - |l| - 1]; }
    }
  }

  lemma {:induction false} ApartInOrder<E>(t: Shape<E>)
    ensures Apart(t) <==> NoDup(t.InOrder())
  {
    if t.Node? {
      ApartInOrder(t.left);
      ApartInOrder(t.right);
      FootInOrder(t.left);
      FootInOrder(t.right);
      if NoDup(t.InOrder()) {
        NoDupSplit(t.left.InOrder(), t.elm, t.right.InOrder());
      }
      if Apart(t) {
        NoDupJoin(t.left.InOrder(), t.elm, t.right.InOrder());
      }
    }
  }

  /** Rearranging a tree without changing its in-order sequence keeps its footprint. */
  lemma SameInOrder<E>(t: Shape<E>, r: Shape<E>)
    requires t.InOrder() == r.InOrder()
    ensures Foot(t) == Foot(r) && (Apart(t) <==> Apart(r))
  {
    FootInOrder(t);
    FootInOrder(r);
    ApartInOrder(t);
    ApartInOrder(r);
  }

  // ------------------------------------------------------------------ in-place operations

  lemma BalanceFoot<E>(t: Shape<E>)
    requires t.ChildrenOk()
    ensures Foot(Balance(t)) == Foot(t) && (Apart(Balance(t)) <==> Apart(t))
  {
    hide Balance, BalanceSpec, Foot, Apart;
    BalanceOk(t);
    SameInOrder(Balance(t), t);
  }

  lemma RotateFoot<E>(t: Shape<E>, dir: Dir)
    requires Rotatable(t, dir)
    ensures Foot(Rotate(t, dir)) == Foot(t) && (Apart(Rotate(t, dir)) <==> Apart(t))
  {
    hide Rotatable, Balance, BalanceSpec, Foot, Apart;
    RotateInner(t, dir);
    assert RotateSpec(t, dir, Rotate(t, dir));
    SameInOrder(Rotate(t, dir), t);
  }

  lemma MayPreRotate<E>(t: Shape<E>, dir: Dir)
    requires PreRotation(t, dir)
    ensures Rotatable(t, dir)
  {}

  lemma MayMainRotate<E>(t: Shape<E>, dir: Dir)
    requires MainRotation(t, dir)
    ensures Rotatable(t, dir)
  {}

  /** What is linked under a node, in one direction. */
  lemma UnderNode<E>(p: AvlNode<E>, t: Shape<E>, dir: Dir)
    requires t.Node? && Linked(p, t)
    ensures p == t.elm.node && Linked(p.Get(dir), t.Child(dir))
    ensures p.elm == t.elm.elm && p.height == t.height
    ensures p !in Foot(t.Child(dir)) && Foot(t.Child(dir)) !! Foot(t.Child(dir.Opposite()))
    ensures Foot(t) == {p} + Foot(t.Child(dir)) + Foot(t.Child(dir.Opposite()))
  {}

  /** A node over two separate linked trees. */
  lemma OverNodes<E>(p: AvlNode<E>, t: Shape<E>, dir: Dir)
    requires t.Node? && p == t.elm.node && p.elm == t.elm.elm && p.height == t.height
    requires Linked(p.Get(dir), t.Child(dir)) && Linked(p.Get(dir.Opposite()), t.Child(dir.Opposite()))
    requires p !in Foot(t.Child(dir)) && p !in Foot(t.Child(dir.Opposite()))
    requires Foot(t.Child(dir)) !! Foot(t.Child(dir.Opposite()))
    ensures Linked(p, t)
    ensures Foot(t) == {p} + Foot(t.Child(dir)) + Foot(t.Child(dir.Opposite()))
  {}

  lemma StoredHeightOf<E>(p: AvlNode?<E>, t: Shape<E>)
    requires Linked(p, t)
    ensures (p == null <==> t.Nil?) && (p != null ==> p in Foot(t) && p.height == t.H())
  {}

  /** The first two pointer moves of a rotation. */
  method Unhook<E>(ran: AvlNode<E>, dir: Dir, ghost t: Shape<E>) returns (n: AvlNode<E>)
    requires t.Node? && t.Child(dir.Opposite()).Node? && Linked(ran, t)
    modifies ran`left, ran`right
    ensures Linked(ran, Inner(t, dir))
    ensures var c := t.Child(dir.Opposite()); var far := c.Child(dir.Opposite());
      && n == c.elm.node && n.elm == c.elm.elm && n.height == c.height
      && Linked(n.Get(dir.Opposite()), far)
      && n !in Foot(Inner(t, dir)) && n !in Foot(far) && Foot(far) !! Foot(Inner(t, dir))
      && Foot(t) == {n} + Foot(Inner(t, dir)) + Foot(far)
  {
    var odir := dir.Opposite();
    hide Foot, Faults;
    ghost var c := t.Child(odir);
    UnderNode(ran, t, dir);
    UnderNode(ran, t, odir);
    StoredHeightOf(ran.Get(odir), c);
    n := ran.Get(odir);
    UnderNode(n, c, dir);
    UnderNode(n, c, odir);
    var g := n.Get(dir);
    assert allocated(Foot(t.Child(dir))) && allocated(Foot(c.Child(dir))) && allocated(Foot(c.Child(odir)));
    ran.Set(odir, g);
    OverNodes(ran, Inner(t, dir), dir);
  }

  /** `rd_avl_rotate` */
  method RotateNode<E>(ran: AvlNode<E>, dir: Dir, ghost t: Shape<E>) returns (r: AvlNode<E>)
    requires Rotatable(t, dir) && Linked(ran, t)
    modifies Foot(t)`left, Foot(t)`right, Foot(t)`height
    ensures Linked(r, Rotate(t, dir)) && Foot(Rotate(t, dir)) == Foot(t)
    decreases t.Size(), RotateRank(t)
  {
    hide Rotatable, Balance, BalanceSpec, RotateSpec, RotateRank, Foot, Faults;
    RotateFoot(t, dir);
    RotateInner(t, dir);
    ghost var i := Inner(t, dir);
    UnderNode(ran, t, dir);
    var n := Unhook(ran, dir, t);
    ghost var far := t.Child(dir.Opposite()).Child(dir.Opposite());
    assert allocated(Foot(far));
    var b := BalanceNode(ran, i);
    assert allocated(Foot(Balance(i)));
    n.Set(dir, b);
    assert BalanceSpec(i, Balance(i));
    RotateOuter(t, dir, Balance(i));
    ghost var o := Outer(t, dir, Balance(i));
    OverNodes(n, o, dir);
    r := BalanceNode(n, o);
  }

  /** `rd_avl_balance_node` */
  method BalanceNode<E>(ran: AvlNode<E>, ghost t: Shape<E>) returns (r: AvlNode<E>)
    requires t.ChildrenOk() && Linked(ran, t)
    modifies Foot(t)`left, Foot(t)`right, Foot(t)`height
    ensures Linked(r, Balance(t)) && Foot(Balance(t)) == Foot(t)
    decreases t.Size(), 2 * t.Rank() + 1
  {
    hide Rotatable, BalanceSpec, RotateSpec, RotateRank, Foot, Faults;
    BalanceFoot(t);
    UnderNode(ran, t, Left);
    UnderNode(ran, t, Right);
    StoredHeightOf(ran.left, t.left);
    StoredHeightOf(ran.right, t.right);
    var hl := if ran.left == null then 0 else ran.left.height;
    var hr := if ran.right == null then 0 else ran.right.height;
    if hl - hr < -1 {
      r := BalanceHeavy(ran, Right, t);
    } else if hl - hr > 1 {
      r := BalanceHeavy(ran, Left, t);
    } else {
      ran.height := 0;
      if hl > ran.height { ran.height := hl; }
      if hr > ran.height { ran.height := hr; }
      ran.height := ran.height + 1;
      OkHeight(t.left);
      OkHeight(t.right);
      OverNodes(ran, Balance(t), Left);
      r := ran;
    }
  }

  /** The heavy child once an inward lean has been rotated outwards. */
  ghost function Turned<E>(t: Shape<E>, hv: Dir): Shape<E>
    requires t.Node? && t.Child(hv).Node? && (LeansIn(t, hv.Opposite()) ==> Rotatable(t.Child(hv), hv))
  {
    if LeansIn(t, hv.Opposite()) then Rotate(t.Child(hv), hv) else t.Child(hv)
  }

  /** A heavy tree is balanced by turning its heavy child, then rotating. */
  lemma TurnedReady<E>(t: Shape<E>, hv: Dir)
    requires t.ChildrenOk() && t.Gap() >= 2 && hv == t.Heavy()
    ensures t.Child(hv).Node? && t.Child(hv).Size() < t.Size()
    ensures LeansIn(t, hv.Opposite()) ==> Rotatable(t.Child(hv), hv)
    ensures var t' := t.WithChild(hv, Turned(t, hv));
      && Rotatable(t', hv.Opposite()) && Balance(t) == Rotate(t', hv.Opposite())
      && t'.Size() == t.Size() && RotateRank(t') < 2 * t.Rank() + 1
  {
    hide Rotate, RotateSpec, RotateRank, BalanceSpec, Tree.Rank, Tree.Stuck;
    HeavyChild(t);
    LeanIn(t, hv);
    var c := t.Child(hv);
    if LeansIn(t, hv.Opposite()) {
      MayPreRotate(c, hv);
    }
    var t' := t.WithChild(hv, Turned(t, hv));
    HeavyReady(t, hv, Turned(t, hv));
    MayMainRotate(t', hv.Opposite());
    BalanceUnfold(t, hv);
  }

  lemma BalanceUnfold<E>(t: Shape<E>, hv: Dir)
    requires t.ChildrenOk() && t.Gap() >= 2 && hv == t.Heavy() && t.Child(hv).Node?
    requires LeansIn(t, hv.Opposite()) ==> Rotatable(t.Child(hv), hv)
    requires Rotatable(t.WithChild(hv, Turned(t, hv)), hv.Opposite())
    ensures Balance(t) == Rotate(t.WithChild(hv, Turned(t, hv)), hv.Opposite())
  {
    hide Rotate, Rotatable, RotateSpec, RotateRank, BalanceSpec, Tree.Rank, Tree.Stuck;
  }

  lemma TurnedFoot<E>(t: Shape<E>, hv: Dir)
    requires t.Node? && t.Child(hv).Node? && (LeansIn(t, hv.Opposite()) ==> Rotatable(t.Child(hv), hv))
    ensures Foot(Turned(t, hv)) == Foot(t.Child(hv))
  {
    hide Rotatable, Rotate, Foot;
    if LeansIn(t, hv.Opposite()) {
      RotateFoot(t.Child(hv), hv);
    }
  }

  /** The test of the inner branch: whether the heavy child leans inwards, from the nodes. */
  method Leaning<E>(ran: AvlNode<E>, hv: Dir, ghost t: Shape<E>) returns (leans: bool)
    requires t.Node? && t.Child(hv).Node? && Linked(ran, t)
    ensures leans == LeansIn(t, hv.Opposite())
  {
    hide Foot, Faults;
    ghost var c := t.Child(hv);
    UnderNode(ran, t, hv);
    StoredHeightOf(ran.Get(hv), c);
    var h := ran.Get(hv);
    UnderNode(h, c, hv);
    UnderNode(h, c, hv.Opposite());
    StoredHeightOf(h.Get(hv), c.Child(hv));
    StoredHeightOf(h.Get(hv.Opposite()), c.Child(hv.Opposite()));
    var outer := if h.Get(hv) == null then 0 else h.Get(hv).height;
    var inner := if h.Get(hv.Opposite()) == null then 0 else h.Get(hv.Opposite()).height;
    leans := inner > outer;
  }

  /** The inner branch: rotates the heavy child outwards if it leans inwards. */
  method TurnHeavy<E>(ran: AvlNode<E>, hv: Dir, ghost t: Shape<E>)
    requires t.Node? && t.Child(hv).Node? && Linked(ran, t) && t.Child(hv).Size() < t.Size()
    requires LeansIn(t, hv.Opposite()) ==> Rotatable(t.Child(hv), hv)
    modifies Foot(t)`left, Foot(t)`right, Foot(t)`height
    ensures Linked(ran, t.WithChild(hv, Turned(t, hv))) && Foot(t.WithChild(hv, Turned(t, hv))) == Foot(t)
    decreases t.Size(), 0
  {
    hide Rotatable, Rotate, RotateSpec, RotateRank, Foot, Faults, LeansIn, Tree.Size;
    ghost var c := t.Child(hv);
    UnderNode(ran, t, hv);
    UnderNode(ran, t, hv.Opposite());
    StoredHeightOf(ran.Get(hv), c);
    TurnedFoot(t, hv);
    assert allocated(Foot(c)) && allocated(Foot(t.Child(hv.Opposite())));
    var leans := Leaning(ran, hv, t);
    if leans {
      var h := RotateNode(ran.Get(hv), hv, c);
      assert allocated(Foot(Turned(t, hv)));
      ran.Set(hv, h);
    }
    OverNodes(ran, t.WithChild(hv, Turned(t, hv)), hv);
  }

  /** The two symmetric branches of `rd_avl_balance_node`, for heavy side `hv`. */
  method BalanceHeavy<E>(ran: AvlNode<E>, hv: Dir, ghost t: Shape<E>) returns (r: AvlNode<E>)
    requires t.ChildrenOk() && Linked(ran, t) && t.Gap() >= 2 && hv == t.Heavy()
    modifies Foot(t)`left, Foot(t)`right, Foot(t)`height
    ensures Linked(r, Balance(t)) && Foot(Balance(t)) == Foot(t)
    decreases t.Size(), 2 * t.Rank() + 1, 0
  {
    hide Rotatable, Rotate, Balance, BalanceSpec, RotateSpec, RotateRank, Foot, Faults, LeansIn, Turned, Tree.Size, Tree.Rank, Tree.Stuck;
    TurnedReady(t, hv);
    TurnHeavy(ran, hv, t);
    r := RotateNode(ran, hv.Opposite(), t.WithChild(hv, Turned(t, hv)));
  }

  // ------------------------------------------------------------------ insertion, removal, lookup

  lemma {:induction false} InsertFoot<E>(cmp: Cmp<E>, t: Shape<E>, e: Entry<AvlNode<E>, E>)
    requires t.Ok() && Apart(t) && e.node !in Foot(t)
    ensures var (r, existing) := Insert(cmp, t, e);
      && Apart(r) && e.node in Foot(r)
      && Foot(r) == Foot(t) + {e.node} - (if existing.Some? then {existing.value.node} else {})
      && (existing.Some? ==> existing.value.node in Foot(t))
    decreases t
  {
    hide Balance, BalanceSpec, Foot;
    FootNode(Node(Nil, e, 0, Nil));
    FootNil<E>(Nil);
    if t.Node? {
      FootNode(t);
      var c := cmp(e.elm, t.elm.elm);
      if c == 0 {
        FootNode(Node(t.left, e, t.height, t.right));
      } else {
        var dir := if c < 0 then Left else Right;
        InsertFoot(cmp, t.Child(dir), e);
        var t' := t.WithChild(dir, Insert(cmp, t.Child(dir), e).0);
        FootNode(t');
        BalanceFoot(t');
      }
    }
  }

  lemma FootNode<E>(t: Shape<E>)
    requires t.Node?
    ensures Foot(t) == {t.elm.node} + Foot(t.left) + Foot(t.right)
  {}

  lemma FootNil<E>(t: Shape<E>)
    requires t.Nil?
    ensures Foot(t) == {}
  {}

  ghost function NodeOf<E>(x: Option<Entry<AvlNode<E>, E>>): AvlNode?<E> {
    if x.None? then null else x.value.node
  }

  /** `rd_avl_insert_node` */
  method InsertNode<E>(cmp: Cmp<E>, parent: AvlNode?<E>, ran: AvlNode<E>, ghost t: Shape<E>)
    returns (r: AvlNode<E>, existing: AvlNode?<E>)
    requires t.Ok() && Linked(parent, t) && ran !in Foot(t)
    requires ran.left == null && ran.right == null && ran.height == 0
    modifies Foot(t)`left, Foot(t)`right, Foot(t)`height, ran`left, ran`right, ran`height
    ensures Linked(r, Insert(cmp, t, Entry(ran, ran.elm)).0)
    ensures existing == NodeOf(Insert(cmp, t, Entry(ran, ran.elm)).1)
    ensures existing != null ==> existing.elm == Insert(cmp, t, Entry(ran, ran.elm)).1.value.elm
    decreases t
  {
    hide Balance, BalanceSpec, Faults, Foot;
    ghost var e := Entry(ran, ran.elm);
    InsertFoot(cmp, t, e);
    StoredHeightOf(parent, t);
    if parent == null {
      Leaf(ran, e);
      return ran, null;
    }
    UnderNode(parent, t, Left);
    UnderNode(parent, t, Right);
    var c := cmp(ran.elm, parent.elm);
    if c == 0 {
      assert allocated(Foot(t.left)) && allocated(Foot(t.right));
      ran.left, ran.right, ran.height := parent.left, parent.right, parent.height;
      OverNodes(ran, Node(t.left, e, t.height, t.right), Left);
      return ran, parent;
    }
    var dir := if c < 0 then Left else Right;
    assert allocated(Foot(t.Child(dir.Opposite())));
    var child;
    child, existing := InsertNode(cmp, parent.Get(dir), ran, t.Child(dir));
    ghost var sub := Insert(cmp, t.Child(dir), e).0;
    InsertFoot(cmp, t.Child(dir), e);
    assert allocated(Foot(sub));
    parent.Set(dir, child);
    ghost var t' := t.WithChild(dir, sub);
    OverNodes(parent, t', dir);
    r := BalanceNode(parent, t');
  }

  lemma Leaf<E>(ran: AvlNode<E>, e: Entry<AvlNode<E>, E>)
    requires e == Entry(ran, ran.elm) && ran.left == null && ran.right == null && ran.height == 0
    ensures Linked(ran, Node(Nil, e, 0, Nil))
  {}

  lemma {:induction false} MoveFoot<E>(dst: Shape<E>, src: Shape<E>, dir: Dir)
    requires dst.Ok() && src.Ok() && Apart(dst) && Apart(src) && Foot(dst) !! Foot(src)
    ensures Apart(Move(dst, src, dir)) && Foot(Move(dst, src, dir)) == Foot(dst) + Foot(src)
    decreases dst
  {
    hide Balance, BalanceSpec;
    if dst.Node? {
      MoveFoot(dst.Child(dir), src, dir);
      BalanceFoot(dst.WithChild(dir, Move(dst.Child(dir), src, dir)));
    }
  }

  /** `rd_avl_move` */
  method MoveNode<E>(dst: AvlNode?<E>, src: AvlNode?<E>, dir: Dir, ghost td: Shape<E>, ghost ts: Shape<E>)
    returns (r: AvlNode?<E>)
    requires td.Ok() && ts.Ok() && Linked(dst, td) && Linked(src, ts) && Foot(td) !! Foot(ts)
    modifies Foot(td)`left, Foot(td)`right, Foot(td)`height, Foot(ts)`left, Foot(ts)`right, Foot(ts)`height
    ensures Linked(r, Move(td, ts, dir))
    decreases td
  {
    hide Balance, BalanceSpec, Faults, Foot;
    StoredHeightOf(dst, td);
    if dst == null {
      return src;
    }
    MoveFoot(td, ts, dir);
    UnderNode(dst, td, dir);
    UnderNode(dst, td, dir.Opposite());
    assert allocated(Foot(td.Child(dir.Opposite())));
    MoveFoot(td.Child(dir), ts, dir);
    var child := MoveNode(dst.Get(dir), src, dir, td.Child(dir), ts);
    ghost var sub := Move(td.Child(dir), ts, dir);
    assert allocated(Foot(sub));
    dst.Set(dir, child);
    ghost var t' := td.WithChild(dir, sub);
    OverNodes(dst, t', dir);
    r := BalanceNode(dst, t');
  }

  lemma {:induction false} RemoveFoot<E>(cmp: Cmp<E>, t: Shape<E>, k: E)
    requires t.Ok() && Apart(t)
    ensures Apart(Remove(cmp, t, k)) && Foot(Remove(cmp, t, k)) <= Foot(t)
    decreases t
  {
    hide Balance, BalanceSpec;
    if t.Node? {
      var c := cmp(k, t.elm.elm);
      if c == 0 {
        MoveFoot(t.left, t.right, Right);
      } else if c < 0 {
        RemoveFoot(cmp, t.left, k);
        BalanceFoot(t.(left := Remove(cmp, t.left, k)));
      } else {
        RemoveFoot(cmp, t.right, k);
        BalanceFoot(t.(right := Remove(cmp, t.right, k)));
      }
    }
  }

  /** `rd_avl_remove_elm0`, with `rd_avl_remove_node0` inlined at the matching node. */
  method RemoveNode<E>(cmp: Cmp<E>, parent: AvlNode?<E>, elm: E, ghost t: Shape<E>) returns (r: AvlNode?<E>)
    requires t.Ok() && Linked(parent, t)
    modifies Foot(t)`left, Foot(t)`right, Foot(t)`height
    ensures Linked(r, Remove(cmp, t, elm))
    decreases t
  {
    hide Balance, BalanceSpec, Faults, Foot;
    StoredHeightOf(parent, t);
    if parent == null {
      return null;
    }
    RemoveFoot(cmp, t, elm);
    UnderNode(parent, t, Left);
    UnderNode(parent, t, Right);
    var c := cmp(elm, parent.elm);
    if c == 0 {
      r := MoveNode(parent.left, parent.right, Right, t.left, t.right);
      MoveFoot(t.left, t.right, Right);
      assert allocated(Foot(Move(t.left, t.right, Right)));
      parent.left, parent.right := null, null;
      return r;
    }
    var dir := if c < 0 then Left else Right;
    assert allocated(Foot(t.Child(dir.Opposite())));
    RemoveFoot(cmp, t.Child(dir), elm);
    var child := RemoveNode(cmp, parent.Get(dir), elm, t.Child(dir));
    ghost var sub := Remove(cmp, t.Child(dir), elm);
    assert allocated(Foot(sub));
    parent.Set(dir, child);
    ghost var t' := t.WithChild(dir, sub);
    OverNodes(parent, t', dir);
    r := BalanceNode(parent, t');
  }

  /** `rd_avl_find_node` */
  method FindNode<E>(cmp: Cmp<E>, begin: AvlNode?<E>, elm: E, ghost t: Shape<E>) returns (r: AvlNode?<E>)
    requires Linked(begin, t)
    ensures r == NodeOf(Find(cmp, t, elm))
    ensures r != null ==> r.elm == Find(cmp, t, elm).value.elm
    decreases t
  {
    StoredHeightOf(begin, t);
    if begin == null {
      return null;
    }
    UnderNode(begin, t, Left);
    UnderNode(begin, t, Right);
    var c := cmp(elm, begin.elm);
    if c == 0 {
      r := begin;
    } else if c < 0 {
      r := FindNode(cmp, begin.left, elm, t.left);
    } else {
      r := FindNode(cmp, begin.right, elm, t.right);
    }
  }

  /** `rd_avl_t` with the wrappers of cbits/hs_rdavl.h; locking is left to the caller. */
  class AvlTree<E(!new)> {
    var root: AvlNode?<E>
    const cmp: Cmp<E>
    ghost var shape: Shape<E>

    ghost predicate Valid()
      reads this, Foot(shape)
    {
      Linked(root, shape) && AvlMap.Valid(cmp, shape)
    }

    constructor (cmp: Cmp<E>)
      ensures Valid() && this.cmp == cmp && shape == Nil
    {
      this.cmp := cmp;
      root, shape := null, Nil;
    }

    /** `rd_avl_insert`: returns the element that was overwritten, if any. */
    method InsertElm(elm: E, ran: AvlNode<E>) returns (old_elm: Option<E>)
      requires Valid() && TotalOrder(cmp) && ran !in Foot(shape)
      modifies this, Foot(shape), ran
      ensures Valid()
      ensures shape == Insert(cmp, old(shape), Entry(ran, elm)).0
      ensures old_elm == match Find(cmp, old(shape), elm) case None => None case Some(x) => Some(x.elm)
    {
      hide Balance, BalanceSpec, Faults, Foot, TotalOrder, Insert, Sorted, Find, Lookup, Less, Greater, Apart;
      assert allocated(Foot(shape));
      ran.left, ran.right, ran.height, ran.elm := null, null, 0, elm;
      ghost var e := Entry(ran, elm);
      InsertCorrect(cmp, shape, e);
      FindCorrect(cmp, shape, elm);
      InsertFoot(cmp, shape, e);
      var r, existing := InsertNode(cmp, root, ran, shape);
      root := r;
      shape := Insert(cmp, shape, e).0;
      old_elm := if existing == null then None else Some(existing.elm);
    }

    /** `rd_avl_remove_elm` */
    method RemoveElm(elm: E)
      requires Valid() && TotalOrder(cmp)
      modifies this, Foot(shape)
      ensures Valid()
      ensures shape == Remove(cmp, old(shape), elm)
    {
      hide Balance, BalanceSpec, Faults, Foot, TotalOrder, Remove, Sorted, Find;
      FindAfterRemove(cmp, shape, elm, elm);
      RemoveFoot(cmp, shape, elm);
      root := RemoveNode(cmp, root, elm, shape);
      shape := Remove(cmp, shape, elm);
    }

    /** `rd_avl_find` */
    method FindElm(elm: E) returns (r: Option<E>)
      requires Valid()
      ensures r == match Find(cmp, shape, elm) case None => None case Some(x) => Some(x.elm)
    {
      var n := FindNode(cmp, root, elm, shape);
      r := if n == null then None else Some(n.elm);
    }
  }
}
