/**
  The AVL tree of cbits/hs_rdavl.c and cbits/hs_rdavl.h as an algorithm on values:
  rotation and balancing are mutually recursive, exactly as in the source.  Heights are
  the stored ones; a freshly inserted leaf has stored height 0, like an empty tree.
 */
module Avl {

  datatype Dir = Left | Right {
    function Opposite(): Dir {
      if this == Left then Right else Left
    }
  }

  datatype Tree<T> = Nil | Node(left: Tree<T>, elm: T, height: int, right: Tree<T>) {

    /** Stored height: `RD_AVL_NODE_HEIGHT`. */
    function H(): int {
      if Nil? then 0 else height
    }

    function Child(dir: Dir): Tree<T>
      requires Node?
    {
      if dir == Left then left else right
    }

    function WithChild(dir: Dir, c: Tree<T>): Tree<T>
      requires Node?
    {
      if dir == Left then this.(left := c) else this.(right := c)
    }

    /** `RD_AVL_NODE_DELTA` */
    function Delta(): int
      requires Node?
    {
      left.H() - right.H()
    }

    function InOrder(): seq<T> {
      if Nil? then [] else left.InOrder() + [elm] + right.InOrder()
    }

    function Size(): nat {
      |InOrder()|
    }

    /** Largest stored height of the two children. */
    function ChildMax(): int
      requires Node?
    {
      if left.H() > right.H() then left.H() else right.H()
    }

    /** How far the stored heights of the children are apart. */
    function Gap(): nat
      requires Node?
    {
      if Delta() < 0 then -Delta() else Delta()
    }

    /** Balanced in stored heights; only a childless node may still store height 0. */
    ghost predicate Ok() {
      Node? ==>
        && left.Ok() && right.Ok() && Gap() <= 1
        && (height == 1 + ChildMax() || (height == 0 && left.Nil? && right.Nil?))
    }

    ghost predicate ChildrenOk() {
      Node? && left.Ok() && right.Ok()
    }

    /** The taller side (Right when equal). */
    ghost function Heavy(): Dir
      requires Node?
    {
      if Delta() > 0 then Left else Right
    }

    /**
      The heavy child leans inwards and its inner grandchild leans outwards again: the
      first half of the double rotation is then undone by its own rebalancing.
     */
    ghost predicate Stuck() {
      Node? && var hv := Heavy(); var op := hv.Opposite(); var c := Child(hv);
      && c.Node? && c.Child(op).H() > c.Child(hv).H()
      && var n := c.Child(op); n.Node? && n.Child(op).H() < n.Child(hv).H()
    }

    /** How many more times balancing can be called on the same set of nodes. */
    ghost function Rank(): nat
      requires Node?
    {
      if Gap() <= 1 then 0
      else if Gap() > 2 then 3
      else if Stuck() then 2
      else 1
    }
  }

  lemma {:induction false} OkHeight<T>(t: Tree<T>)
    requires t.Ok()
    ensures t.H() >= 0
  {
    if t.Node? {
      OkHeight(t.left);
      OkHeight(t.right);
    }
  }

  // ------------------------------------------------------------------ rotation shapes

  /** The rotated node with the inner grandchild in place of its far child. */
  function Inner<T>(t: Tree<T>, dir: Dir): Tree<T>
    requires t.Node? && t.Child(dir.Opposite()).Node?
  {
    t.WithChild(dir.Opposite(), t.Child(dir.Opposite()).Child(dir))
  }

  /** The far child on top of `b`. */
  function Outer<T>(t: Tree<T>, dir: Dir, b: Tree<T>): Tree<T>
    requires t.Node? && t.Child(dir.Opposite()).Node?
  {
    t.Child(dir.Opposite()).WithChild(dir, b)
  }

  function Reheight<T>(t: Tree<T>): Tree<T>
    requires t.Node?
  {
    t.(height := t.ChildMax() + 1)
  }

  /** One plain rotation with both heights recomputed. */
  ghost function Single<T>(t: Tree<T>, dir: Dir): Tree<T>
    requires t.Node? && t.Child(dir.Opposite()).Node?
  {
    Reheight(Outer(t, dir, Reheight(Inner(t, dir))))
  }

  /** The far child of a rotation in direction `dir` leans inwards. */
  ghost predicate LeansIn<T>(t: Tree<T>, dir: Dir)
    requires t.Node? && t.Child(dir.Opposite()).Node?
  {
    var c := t.Child(dir.Opposite());
    c.Child(dir).H() > c.Child(dir.Opposite()).H()
  }

  /** Rotating before the main rotation: a balanced node whose far child is the taller. */
  ghost predicate PreRotation<T>(t: Tree<T>, dir: Dir) {
    && t.Ok() && t.Node? && t.H() >= 2
    && t.Child(dir.Opposite()).H() == t.Child(dir).H() + 1
  }

  /** The main rotation: far child at least two taller, leaning outwards unless stuck. */
  ghost predicate MainRotation<T>(t: Tree<T>, dir: Dir) {
    && t.ChildrenOk() && t.Gap() >= 2 && t.Heavy() == dir.Opposite()
    && t.Child(dir.Opposite()).Node?
    && (!LeansIn(t, dir) || t.Stuck())
  }

  lemma InOrderRotation<T>(t: Tree<T>, dir: Dir, b: Tree<T>)
    requires t.Node? && t.Child(dir.Opposite()).Node?
    requires b.InOrder() == Inner(t, dir).InOrder()
    ensures Outer(t, dir, b).InOrder() == t.InOrder()
    ensures Inner(t, dir).Size() < t.Size()
  {
    var c := t.Child(dir.Opposite());
    if dir == Left {
      assert t.InOrder() ==
        t.left.InOrder() + [t.elm] + c.left.InOrder() + [c.elm] + c.right.InOrder();
    } else {
      assert t.InOrder() ==
        c.left.InOrder() + [c.elm] + c.right.InOrder() + [t.elm] + t.right.InOrder();
    }
  }

  /** Stored heights around a node that is balanced and not a fresh leaf. */
  lemma OkNode<T>(t: Tree<T>)
    requires t.Ok() && t.H() >= 1
    ensures t.Node? && t.ChildrenOk() && t.Gap() <= 1 && t.H() == 1 + t.ChildMax()
    ensures t.left.H() >= 0 && t.right.H() >= 0
  {
    OkHeight(t.left);
    OkHeight(t.right);
  }

  lemma PreInner<T>(t: Tree<T>, dir: Dir)
    requires PreRotation(t, dir)
    ensures t.Child(dir.Opposite()).Node?
    ensures Inner(t, dir).ChildrenOk() && Inner(t, dir).Gap() <= 1
    ensures Reheight(Inner(t, dir)).Ok() && Reheight(Inner(t, dir)).H() == t.H() - 1
  {
    OkNode(t);
    OkNode(t.Child(dir.Opposite()));
  }

  lemma PreOuter<T>(t: Tree<T>, dir: Dir, o: Tree<T>)
    requires PreRotation(t, dir) && t.Child(dir.Opposite()).Node?
    requires o == Outer(t, dir, Reheight(Inner(t, dir)))
    ensures o.ChildrenOk() && o.Gap() <= 2
    ensures !LeansIn(t, dir) ==> o.Gap() <= 1 && Reheight(o).H() == t.H() &&
                                 o.Child(dir.Opposite()).H() <= o.Child(dir).H()
    ensures LeansIn(t, dir) ==> o.Gap() == 2 && o.Heavy() == dir
  {
    PreInner(t, dir);
    OkNode(t);
    OkNode(t.Child(dir.Opposite()));
  }

  /** The first half of the double rotation undone. */
  lemma PreUndone<T>(t: Tree<T>, dir: Dir, o: Tree<T>)
    requires PreRotation(t, dir) && t.Child(dir.Opposite()).Node? && LeansIn(t, dir)
    requires o == Outer(t, dir, Reheight(Inner(t, dir)))
    ensures MainRotation(o, dir.Opposite()) && !LeansIn(o, dir.Opposite())
    ensures Single(o, dir.Opposite()) == t
  {
    PreOuter(t, dir, o);
    OkNode(t);
    var c := t.Child(dir.Opposite());
    OkNode(c);
    var b := Reheight(Inner(t, dir));
    assert o.Child(dir) == b;
    assert Inner(o, dir.Opposite()) == c.(height := o.height);
    assert Reheight(Inner(o, dir.Opposite())) == c;
    assert Outer(o, dir.Opposite(), c) == t.(height := b.height);
  }

  /** What balancing `i` may return, in stored heights. */
  ghost predicate Balanced<T>(i: Tree<T>, b: Tree<T>)
    requires i.Node?
  {
    && b.Node? && b.Ok()
    && (if i.Gap() <= 1 then b == Reheight(i) else i.ChildMax() <= b.H() <= i.ChildMax() + 1)
  }

  lemma HeavyChild<T>(t: Tree<T>)
    requires t.ChildrenOk() && t.Gap() >= 2
    ensures t.Child(t.Heavy()).H() == t.ChildMax() == t.Child(t.Heavy().Opposite()).H() + t.Gap()
    ensures t.Child(t.Heavy().Opposite()).H() >= 0
    ensures t.Child(t.Heavy()).Node?
  {
    OkHeight(t.left);
    OkHeight(t.right);
  }

  lemma MainOuter<T>(t: Tree<T>, dir: Dir, b: Tree<T>, o: Tree<T>)
    requires MainRotation(t, dir)
    requires Balanced(Inner(t, dir), b) && o == Outer(t, dir, b)
    ensures o.ChildrenOk() && o.Gap() <= 2
    ensures o.Gap() <= 1 ==> t.ChildMax() <= o.ChildMax() + 1 <= t.ChildMax() + 1
    ensures o.Gap() == 2 ==> o.ChildMax() == t.ChildMax() && o.Heavy() == dir
    ensures !LeansIn(t, dir) ==> o.Gap() <= 1
    ensures t.Gap() == 2 ==> b == Reheight(Inner(t, dir))
  {
    HeavyChild(t);
    OkNode(t.Child(dir.Opposite()));
  }

  lemma MainRank<T>(t: Tree<T>, dir: Dir, b: Tree<T>, o: Tree<T>)
    requires MainRotation(t, dir)
    requires Balanced(Inner(t, dir), b) && o == Outer(t, dir, b)
    ensures o.ChildrenOk() && o.Rank() < t.Rank()
  {
    MainOuter(t, dir, b, o);
    if t.Gap() == 2 && o.Gap() == 2 {
      assert LeansIn(t, dir) && t.Stuck();
      assert o.Child(dir) == b;
      assert b.Child(dir.Opposite()) == t.Child(dir.Opposite()).Child(dir);
      assert !o.Stuck();
    }
  }

  // ------------------------------------------------------------------ contracts of the pair

  /** What `rd_avl_balance_node` promises about `r`, given two balanced children. */
  ghost predicate BalanceSpec<T>(t: Tree<T>, r: Tree<T>)
    requires t.Node?
  {
    && Balanced(t, r) && r.InOrder() == t.InOrder()
    && (t.Gap() == 2 && t.Child(t.Heavy()).Node? && !LeansIn(t, t.Heavy().Opposite()) ==>
          r == Single(t, t.Heavy().Opposite()))
  }

  ghost predicate Rotatable<T>(t: Tree<T>, dir: Dir) {
    PreRotation(t, dir) || MainRotation(t, dir)
  }

  ghost predicate RotateSpec<T>(t: Tree<T>, dir: Dir, r: Tree<T>)
    requires t.Node? && t.Child(dir.Opposite()).Node?
  {
    && r.Node? && r.Ok() && r.InOrder() == t.InOrder()
    && (PreRotation(t, dir) ==> r == if LeansIn(t, dir) then t else Single(t, dir))
    && (MainRotation(t, dir) ==> t.ChildMax() <= r.H() <= t.ChildMax() + 1)
    && (MainRotation(t, dir) && t.Gap() == 2 && !LeansIn(t, dir) ==> r == Single(t, dir))
  }

  ghost function RotateRank<T>(t: Tree<T>): nat
    requires t.Node?
  {
    if t.Gap() <= 1 then 6 else 2 * t.Rank()
  }

  lemma RotateInner<T>(t: Tree<T>, dir: Dir)
    requires Rotatable(t, dir)
    ensures t.Node? && t.Child(dir.Opposite()).Node?
    ensures Inner(t, dir).ChildrenOk() && Inner(t, dir).Size() < t.Size()
  {
    if PreRotation(t, dir) {
      PreInner(t, dir);
    } else {
      HeavyChild(t);
      OkNode(t.Child(dir.Opposite()));
    }
    InOrderRotation(t, dir, Inner(t, dir));
  }

  lemma RotateOuter<T>(t: Tree<T>, dir: Dir, b: Tree<T>)
    requires Rotatable(t, dir) && t.Child(dir.Opposite()).Node?
    requires BalanceSpec(Inner(t, dir), b)
    ensures Outer(t, dir, b).ChildrenOk() && Outer(t, dir, b).InOrder() == t.InOrder()
    ensures 2 * Outer(t, dir, b).Rank() + 1 < RotateRank(t)
  {
    InOrderRotation(t, dir, b);
    if PreRotation(t, dir) {
      PreInner(t, dir);
      PreOuter(t, dir, Outer(t, dir, b));
    } else {
      MainRank(t, dir, b, Outer(t, dir, b));
    }
  }

  lemma RotateResult<T>(t: Tree<T>, dir: Dir, b: Tree<T>, r: Tree<T>)
    requires Rotatable(t, dir) && t.Child(dir.Opposite()).Node?
    requires BalanceSpec(Inner(t, dir), b) && BalanceSpec(Outer(t, dir, b), r)
    ensures RotateSpec(t, dir, r)
  {
    hide Tree.InOrder;
    var o := Outer(t, dir, b);
    assert r.InOrder() == t.InOrder() by {
      InOrderRotation(t, dir, b);
    }
    if PreRotation(t, dir) {
      PreInner(t, dir);
      PreOuter(t, dir, o);
      if LeansIn(t, dir) {
        PreUndone(t, dir, o);
      }
    } else {
      MainOuter(t, dir, b, o);
    }
  }

  /** A heavy child that leans inwards is first rotated outwards. */
  lemma LeanIn<T>(t: Tree<T>, hv: Dir)
    requires t.ChildrenOk() && t.Gap() >= 2 && hv == t.Heavy() && t.Child(hv).Node?
    ensures t.Child(hv).Size() < t.Size()
    ensures LeansIn(t, hv.Opposite()) ==> PreRotation(t.Child(hv), hv)
  {
    HeavyChild(t);
    OkNode(t.Child(hv));
  }

  lemma HeavyReady<T>(t: Tree<T>, hv: Dir, c: Tree<T>)
    requires t.ChildrenOk() && t.Gap() >= 2 && hv == t.Heavy() && t.Child(hv).Node?
    requires if LeansIn(t, hv.Opposite())
             then t.Child(hv).Child(hv.Opposite()).Node? && RotateSpec(t.Child(hv), hv, c)
             else c == t.Child(hv)
    ensures MainRotation(t.WithChild(hv, c), hv.Opposite())
    ensures t.WithChild(hv, c).InOrder() == t.InOrder()
    ensures t.WithChild(hv, c).ChildMax() == t.ChildMax()
    ensures RotateRank(t.WithChild(hv, c)) < 2 * t.Rank() + 1
    ensures !LeansIn(t, hv.Opposite()) ==> t.WithChild(hv, c) == t
  {
    hide RotateSpec, Tree.InOrder, Tree.Ok;
    HeavyChild(t);
    if LeansIn(t, hv.Opposite()) {
      TurnedOut(t.Child(hv), hv, c, t, hv.Opposite());
      SameHeights(t, hv, c);
    }
  }

  /** A tree over a child of the same height and contents. */
  lemma SameHeights<T>(t: Tree<T>, dir: Dir, c: Tree<T>)
    requires t.ChildrenOk() && c.Ok() && c.H() == t.Child(dir).H() && c.InOrder() == t.Child(dir).InOrder()
    ensures var r := t.WithChild(dir, c);
      && r.ChildrenOk() && r.Gap() == t.Gap() && r.Heavy() == t.Heavy() && r.ChildMax() == t.ChildMax()
      && r.InOrder() == t.InOrder()
  {}

  /** The rotated heavy child leans outwards, or the rotation was undone. */
  lemma TurnedOut<T>(d: Tree<T>, hv: Dir, c: Tree<T>, t: Tree<T>, dir: Dir)
    requires t.ChildrenOk() && t.Gap() >= 2 && hv == t.Heavy() && dir == hv.Opposite() && d == t.Child(hv) && d.Node?
    requires LeansIn(t, dir) && d.Child(dir).Node? && RotateSpec(d, hv, c)
    ensures c.Node? && c.Ok() && c.H() == d.H() && c.InOrder() == d.InOrder()
    ensures (c == d && t.Stuck()) || c.Child(dir).H() <= c.Child(hv).H()
  {
    hide Tree.InOrder;
    LeanIn(t, hv);
    PreInner(d, hv);
    PreOuter(d, hv, Outer(d, hv, Reheight(Inner(d, hv))));
  }

  /** `rd_avl_rotate` */
  function Rotate<T>(t: Tree<T>, dir: Dir): (r: Tree<T>)
    requires Rotatable(t, dir)
    ensures t.Node? && t.Child(dir.Opposite()).Node? && RotateSpec(t, dir, r)
    decreases t.Size(), RotateRank(t)
  {
    hide BalanceSpec, RotateSpec, Rotatable, RotateRank;
    RotateInner(t, dir);
    var odir := dir.Opposite();
    var n := t.Child(odir);
    var t' := t.WithChild(odir, n.Child(dir));
    var b := Balance(t');
    RotateOuter(t, dir, b);
    var n' := n.WithChild(dir, b);
    var top := Balance(n');
    RotateResult(t, dir, b, top);
    top
  }

  /** `rd_avl_balance_node` */
  function Balance<T>(t: Tree<T>): (r: Tree<T>)
    requires t.ChildrenOk()
    ensures BalanceSpec(t, r)
    decreases t.Size(), 2 * t.Rank() + 1
  {
    if t.Delta() < -1 then
      HeavyChild(t);
      LeanIn(t, Right);
      var c := if t.right.Delta() > 0 then Rotate(t.right, Right) else t.right;
      HeavyReady(t, Right, c);
      Rotate(t.(right := c), Left)
    else if t.Delta() > 1 then
      HeavyChild(t);
      LeanIn(t, Left);
      var c := if t.left.Delta() < 0 then Rotate(t.left, Left) else t.left;
      HeavyReady(t, Left, c);
      Rotate(t.(left := c), Right)
    else
      t.(height := t.ChildMax() + 1)
  }
}
