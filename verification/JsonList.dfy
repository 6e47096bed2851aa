/**
  The element lists of cbits/hs_cJSON.c: items linked by `next` and `prev`, where the
  first item's `prev` is the last item. Each operation is proved to do to the linked list
  what the same operation does to a sequence.
 */
module JsonList {

  /** The links of a `cJSON` item. */
  class Node {
    var next: Node?
    var prev: Node?
    var child: Node?

    constructor ()
      ensures next == null && prev == null && child == null
    {
      next, prev, child := null, null, null;
    }
  }

  // ------------------------------------------------------------------ the invariant

  function NextOf(s: seq<Node>, i: nat): Node?
    requires i < |s|
  {
    if i + 1 < |s| then s[i + 1] else null
  }

  function PrevOf(s: seq<Node>, i: nat): Node
    requires i < |s|
  {
    if i == 0 then s[|s| - 1] else s[i - 1]
  }

  ghost predicate Distinct(s: seq<Node>) {
    forall i, j :: 0 <= i < j < |s| ==> s[i] != s[j]
  }

  lemma Different(s: seq<Node>, i: nat, j: nat)
    requires Distinct(s) && i < |s| && j < |s|
    ensures s[i] == s[j] <==> i == j
  {}

  /** Every item but the last is linked to its neighbours, and the first back to the last. */
  ghost predicate Linked(a: Node, s: seq<Node>)
    reads a, s
  {
    a.child == (if s == [] then null else s[0])
    && (forall i {:trigger s[i].prev} :: 0 <= i < |s| ==> s[i].prev == PrevOf(s, i))
    && (forall i {:trigger s[i].next} :: 0 <= i < |s| - 1 ==> s[i].next == NextOf(s, i))
  }

  /** `a` holds exactly the items `s`, in order, ended by a null `next`. */
  ghost predicate Holds(a: Node, s: seq<Node>)
    reads a, s
  {
    Distinct(s) && Linked(a, s) && (s != [] ==> s[|s| - 1].next == null)
  }

  lemma NextLink(a: Node, s: seq<Node>, i: nat)
    requires Holds(a, s) && i < |s|
    ensures s[i].next == NextOf(s, i)
  {
    hide Distinct;
  }

  /** The links determine the items. */
  lemma {:induction false} HoldsOnce(a: Node, s: seq<Node>, t: seq<Node>, k: nat)
    requires Holds(a, s) && Holds(a, t) && k <= |s| && k <= |t| && s[..k] == t[..k]
    ensures s == t
    decreases |s| - k
  {
    hide Holds, Distinct, Linked;
    FirstLink(a, s);
    FirstLink(a, t);
    if k > 0 {
      NextLink(a, s, k - 1);
      NextLink(a, t, k - 1);
      assert s[k - 1] == s[..k][k - 1] == t[k - 1];
    }
    if k < |s| && k < |t| {
      assert s[..k + 1] == s[..k] + [s[k]] && t[..k + 1] == t[..k] + [t[k]];
      HoldsOnce(a, s, t, k + 1);
    } else {
      assert s[..|s|] == s && t[..|t|] == t;
    }
  }

  lemma FirstLink(a: Node, s: seq<Node>)
    requires Holds(a, s)
    ensures a.child == At(s, 0)
  {
    hide Distinct;
  }

  // ------------------------------------------------------------------ sequences

  function Inserted(s: seq<Node>, k: nat, x: Node): seq<Node> {
    if k < |s| then s[..k] + [x] + s[k..] else s + [x]
  }

  function Removed(s: seq<Node>, k: nat): seq<Node> {
    if k < |s| then s[..k] + s[k + 1..] else s
  }

  function Replaced(s: seq<Node>, k: nat, x: Node): seq<Node> {
    if k < |s| then s[k := x] else s
  }

  function At(s: seq<Node>, k: nat): Node? {
    if k < |s| then s[k] else null
  }

  ghost function NodeSet(x: Node?): set<Node> {
    if x == null then {} else {x}
  }

  ghost function Members(s: seq<Node>): set<Node> {
    set x | x in s
  }

  lemma DistinctInserted(s: seq<Node>, k: nat, x: Node)
    requires Distinct(s) && x !in s
    ensures Distinct(Inserted(s, k, x))
  {
    var t := Inserted(s, k, x);
    forall i, j | 0 <= i < j < |t| ensures t[i] != t[j] {
      var m := if k < |s| then k else |s|;
      assert i != m ==> t[i] == s[if i < m then i else i - 1];
      assert j != m ==> t[j] == s[if j < m then j else j - 1];
    }
  }

  lemma DistinctRemoved(s: seq<Node>, k: nat)
    requires Distinct(s)
    ensures Distinct(Removed(s, k))
  {
    var t := Removed(s, k);
    forall i, j | 0 <= i < j < |t| ensures t[i] != t[j] {
      assert k < |s| ==> t[i] == s[if i < k then i else i + 1] && t[j] == s[if j < k then j else j + 1];
    }
  }

  lemma DistinctReplaced(s: seq<Node>, k: nat, x: Node)
    requires Distinct(s) && x !in s
    ensures Distinct(Replaced(s, k, x))
  {}

  // ------------------------------------------------------------------ changed links

  /** The links of some items at one moment. */
  datatype Links = Links(next: map<Node, Node?>, prev: map<Node, Node?>)

  /** `l` are the links of the items `s`. */
  ghost predicate LinksOf(l: Links, s: seq<Node>) {
    (forall i {:trigger s[i]} :: 0 <= i < |s| ==> s[i] in l.next && s[i] in l.prev)
    && (forall i {:trigger l.next[s[i]]} :: 0 <= i < |s| ==> l.next[s[i]] == NextOf(s, i))
    && (forall i {:trigger l.prev[s[i]]} :: 0 <= i < |s| ==> l.prev[s[i]] == PrevOf(s, i))
  }

  /** Every item of `s` but those in `except` still has its link to the next. */
  ghost predicate NextKept(l: Links, s: seq<Node>, except: set<Node?>)
    reads s
  {
    forall x {:trigger x.next} :: x in Members(s) && x !in except ==> x in l.next && x.next == l.next[x]
  }

  ghost predicate PrevKept(l: Links, s: seq<Node>, except: set<Node?>)
    reads s
  {
    forall x {:trigger x.prev} :: x in Members(s) && x !in except ==> x in l.prev && x.prev == l.prev[x]
  }

  lemma LinkAt(l: Links, s: seq<Node>, i: nat)
    requires LinksOf(l, s) && i < |s|
    ensures s[i] in l.next && s[i] in l.prev && l.next[s[i]] == NextOf(s, i) && l.prev[s[i]] == PrevOf(s, i)
  {}

  lemma InsertedAt(s: seq<Node>, k: nat, x: Node, i: nat)
    requires k < |s| && i < |s| + 1
    ensures |Inserted(s, k, x)| == |s| + 1
    ensures Inserted(s, k, x)[i] == if i < k then s[i] else if i == k then x else s[i - 1]
  {}

  lemma RemovedAt(s: seq<Node>, k: nat, i: nat)
    requires k < |s| && i < |s| - 1
    ensures |Removed(s, k)| == |s| - 1
    ensures Removed(s, k)[i] == if i < k then s[i] else s[i + 1]
  {}

  lemma RemovedEnds(s: seq<Node>, k: nat)
    requires k < |s|
    ensures |Removed(s, k)| == |s| - 1
    ensures |s| > 1 ==> Removed(s, k)[0] == if k == 0 then s[1] else s[0]
  {}

  lemma Snapshot(a: Node, s: seq<Node>) returns (l: Links)
    requires Holds(a, s)
    ensures LinksOf(l, s)
    ensures forall x :: x in Members(s) ==> x in l.next && x in l.prev && x.next == l.next[x] && x.prev == l.prev[x]
  {
    hide Distinct;
    l := Links(map x | x in Members(s) :: x.next, map x | x in Members(s) :: x.prev);
  }

  lemma MembersAre(s: seq<Node>)
    ensures forall x {:trigger x in Members(s)} :: x in Members(s) <==> x in s
    ensures forall x {:trigger x in s} :: x in s ==> x in Members(s)
  {}

  lemma InMembers(s: seq<Node>, i: nat)
    requires i < |s|
    ensures s[i] in Members(s)
  {}

  /** The links after an insertion at `k`. */
  lemma LinkedInserted(l: Links, a: Node, s: seq<Node>, k: nat, x: Node)
    requires Distinct(s) && LinksOf(l, s) && x !in s && k < |s|
    requires a.child == if k == 0 then x else s[0]
    requires x.next == s[k] && x.prev == PrevOf(s, k)
    requires PrevKept(l, s, {s[k]}) && s[k].prev == x
    requires NextKept(l, s, if k == 0 then {} else {s[k - 1]}) && (k > 0 ==> s[k - 1].next == x)
    ensures Holds(a, Inserted(s, k, x))
  {
    hide Distinct, Members, LinksOf, Inserted;
    var t := Inserted(s, k, x);
    DistinctInserted(s, k, x);
    InsertedAt(s, k, x, 0);
    InsertedAt(s, k, x, |s|);
    forall i | 0 <= i < |t| ensures t[i].prev == PrevOf(t, i) && t[i].next == NextOf(t, i) {
      InsertedAt(s, k, x, i);
      InsertedAt(s, k, x, if i > 0 then i - 1 else |s|);
      InsertedAt(s, k, x, if i < |s| then i + 1 else 0);
      if i != k {
        var j := if i < k then i else i - 1;
        InMembers(s, j);
        Different(s, j, k);
        Different(s, j, if k > 0 then k - 1 else 0);
        LinkAt(l, s, j);
      }
    }
  }

  /** The links after the removal of position `k`. */
  lemma LinkedRemoved(l: Links, a: Node, s: seq<Node>, k: nat)
    requires Distinct(s) && LinksOf(l, s) && k < |s|
    requires a.child == if k == 0 then NextOf(s, 0) else s[0]
    requires NextKept(l, s, if k == 0 then {s[k]} else {s[k - 1], s[k]}) && (k > 0 ==> s[k - 1].next == NextOf(s, k))
    requires PrevKept(l, s, if k + 1 < |s| then {s[k + 1], s[k]} else {s[0], s[k]})
    requires k + 1 < |s| ==> s[k + 1].prev == PrevOf(s, k)
    requires k > 0 && k + 1 == |s| ==> s[0].prev == PrevOf(s, k)
    ensures Holds(a, Removed(s, k))
  {
    hide Distinct, Members, LinksOf, Removed;
    var t := Removed(s, k);
    DistinctRemoved(s, k);
    RemovedEnds(s, k);
    forall i | 0 <= i < |t| ensures t[i].prev == PrevOf(t, i) && t[i].next == NextOf(t, i) {
      RemovedAt(s, k, i);
      RemovedAt(s, k, if i > 0 then i - 1 else |s| - 2);
      RemovedAt(s, k, if i < |s| - 2 then i + 1 else 0);
      var j := if i < k then i else i + 1;
      InMembers(s, j);
      Different(s, j, k);
      Different(s, j, 0);
      Different(s, j, if k > 0 then k - 1 else 0);
      Different(s, j, if k + 1 < |s| then k + 1 else 0);
      LinkAt(l, s, j);
    }
  }

  /** The links after the replacement of position `k`. */
  lemma LinkedReplaced(l: Links, a: Node, s: seq<Node>, k: nat, x: Node)
    requires Distinct(s) && LinksOf(l, s) && x !in s && k < |s|
    requires a.child == if k == 0 then x else s[0]
    requires x.next == NextOf(s, k) && x.prev == if |s| == 1 then x else PrevOf(s, k)
    requires NextKept(l, s, if k == 0 then {s[k]} else {s[k - 1], s[k]}) && (k > 0 ==> s[k - 1].next == x)
    requires PrevKept(l, s, if k + 1 < |s| then {s[k + 1], s[k]} else {s[0], s[k]})
    requires k + 1 < |s| ==> s[k + 1].prev == x
    requires k > 0 && k + 1 == |s| ==> s[0].prev == x
    ensures Holds(a, Replaced(s, k, x))
  {
    hide Distinct, Members, LinksOf;
    var t := Replaced(s, k, x);
    DistinctReplaced(s, k, x);
    forall i | 0 <= i < |t| ensures t[i].prev == PrevOf(t, i) && t[i].next == NextOf(t, i) {
      if i != k {
        assert t[i] == s[i];
        InMembers(s, i);
        Different(s, i, k);
        Different(s, i, 0);
        Different(s, i, if k > 0 then k - 1 else 0);
        Different(s, i, if k + 1 < |s| then k + 1 else 0);
        LinkAt(l, s, i);
      }
    }
  }

  // ------------------------------------------------------------------ operations

  /** `get_array_item` */
  method GetArrayItem(a: Node, index: nat, ghost s: seq<Node>) returns (item: Node?)
    requires Holds(a, s)
    ensures item == At(s, index)
  {
    hide Holds, Linked, Distinct;
    item := a.child;
    var left := index;
    FirstLink(a, s);
    while item != null && left > 0
      invariant 0 <= left <= index && item == At(s, index - left)
      decreases left
    {
      NextLink(a, s, index - left);
      left := left - 1;
      item := item.next;
    }
    if item == null {
      AtPast(s, index - left, index);
    }
  }

  /**
    `add_item_to_array`: the item joins the end of the list. Its `next` is reset only when
    the list was empty, so the list stays ended exactly when the item's `next` was null.
   */
  method AddItemToArray(a: Node, item: Node?, ghost s: seq<Node>) returns (ok: bool)
    requires Holds(a, s)
    requires item != null ==> item !in s
    modifies a`child, Members(s)`next, Members(s)`prev, NodeSet(item)`next, NodeSet(item)`prev
    ensures ok <==> item != null && a != item
    ensures ok ==> Linked(a, s + [item]) && Distinct(s + [item])
    ensures ok ==> item.next == if s == [] then null else old(item.next)
    ensures ok ==> (Holds(a, s + [item]) <==> s == [] || old(item.next) == null)
    ensures !ok ==> Holds(a, s)
  {
    hide Distinct;
    if item == null || a == item {
      return false;
    }
    var child := a.child;
    if child == null {
      a.child := item;
      item.prev := item;
      item.next := null;
    } else {
      if child.prev != null {
        SuffixObject(child.prev, item);
        a.child.prev := item;
      }
    }
    DistinctInserted(s, |s|, item);
    ghost var t := s + [item];
    forall i | 0 <= i < |s| - 1 ensures s[i].next == s[i + 1] && s[i + 1].prev == s[i] {
      Different(s, i, |s| - 1);
      Different(s, i + 1, 0);
    }
    assert forall i :: 0 <= i < |s| ==> t[i] == s[i];
    return true;
  }

  lemma AtNull(s: seq<Node>, k: nat)
    ensures At(s, k) == null <==> k >= |s|
    ensures k >= |s| ==> forall x :: Inserted(s, k, x) == s + [x]
  {}

  lemma AtPast(s: seq<Node>, k: nat, j: nat)
    requires At(s, k) == null && k <= j
    ensures At(s, j) == null
  {}

  /** `suffix_object` */
  method SuffixObject(prev: Node, item: Node)
    modifies prev`next, item`prev
    ensures prev.next == item && item.prev == prev
  {
    prev.next := item;
    item.prev := prev;
  }

  /** `cJSON_InsertItemInArray`: past the end, it appends. */
  method InsertItemInArray(a: Node, which: int, newItem: Node, ghost s: seq<Node>) returns (ok: bool)
    requires Holds(a, s) && newItem !in s && newItem != a
    modifies a`child, Members(s)`next, Members(s)`prev, newItem`next, newItem`prev
    ensures ok <==> which >= 0
    ensures ok ==> (Holds(a, Inserted(s, which, newItem)) <==> which < |s| || s == [] || old(newItem.next) == null)
    ensures !ok ==> Holds(a, s) && newItem.next == old(newItem.next)
  {
    hide Distinct, Holds, Linked;
    if which < 0 {
      return false;
    }
    var after := GetArrayItem(a, which, s);
    if after == null {
      AtNull(s, which);
      ok := AddItemToArray(a, newItem, s);
      return;
    }
    InsertBefore(a, after, newItem, s, which);
    return true;
  }

  /** The link updates of `cJSON_InsertItemInArray`. */
  method InsertBefore(a: Node, after: Node, newItem: Node, ghost s: seq<Node>, ghost k: nat)
    requires Holds(a, s) && newItem !in s && newItem != a && k < |s| && after == s[k]
    modifies a`child, Members(s)`next, Members(s)`prev, newItem`next, newItem`prev
    ensures Holds(a, Inserted(s, k, newItem))
  {
    hide Distinct, Inserted, Members, Linked, Holds, LinksOf;
    ghost var l := Around(a, s, k);
    assert newItem !in Members(s) by { MembersAre(s); }
    newItem.next := after;
    newItem.prev := after.prev;
    after.prev := newItem;
    if after == a.child {
      a.child := newItem;
    } else {
      newItem.prev.next := newItem;
    }
    LinkedInserted(l, a, s, k, newItem);
  }

  /** The links before a change at position `k`. */
  lemma Around(a: Node, s: seq<Node>, k: nat) returns (l: Links)
    requires Holds(a, s) && k < |s|
    ensures Distinct(s) && LinksOf(l, s)
    ensures forall x :: x in Members(s) ==> x in l.next && x in l.prev && x.next == l.next[x] && x.prev == l.prev[x]
    ensures s[k].next == NextOf(s, k) && s[k].prev == PrevOf(s, k) && a.child == s[0]
    ensures s[k] == s[0] <==> k == 0
    ensures s[0] == s[|s| - 1] <==> |s| == 1
    ensures k + 1 < |s| ==> s[k + 1] != s[k] && s[k + 1] in Members(s)
    ensures k > 0 ==> s[k - 1] != s[k] && s[k - 1] in Members(s) && s[0].prev == s[|s| - 1]
    ensures s[k] in Members(s) && s[0] in Members(s)
  {
    hide Distinct, Members;
    l := Snapshot(a, s);
    NextLink(a, s, k);
    InMembers(s, k);
    InMembers(s, 0);
    Different(s, k, 0);
    Different(s, 0, |s| - 1);
    Different(s, k, if k + 1 < |s| then k + 1 else 0);
    Different(s, k, if k > 0 then k - 1 else 0);
    InMembers(s, if k > 0 then k - 1 else 0);
    InMembers(s, if k + 1 < |s| then k + 1 else 0);
    assert s[k].prev == PrevOf(s, k) && s[0].prev == PrevOf(s, 0);
  }

  /** `cJSON_DetachItemViaPointer`, for an item of the list. */
  method DetachItemViaPointer(a: Node, item: Node?, ghost s: seq<Node>, ghost k: nat) returns (r: Node?)
    requires Holds(a, s)
    requires item == At(s, k)
    modifies a`child, Members(s)`next, Members(s)`prev
    ensures r == item
    ensures Holds(a, Removed(s, k)) && (r != null ==> r.next == null && r.prev == null)
    ensures r == null ==> forall x :: x in s ==> x.next == old(x.next)
  {
    hide Distinct, Removed, Members, Linked, Holds, LinksOf;
    if item == null {
      RemovedNone(s, k);
      return null;
    }
    ghost var l := Around(a, s, k);
    if item != a.child {
      item.prev.next := item.next;
    }
    if item.next != null {
      item.next.prev := item.prev;
    }
    if item == a.child {
      a.child := item.next;
    } else if item.next == null {
      a.child.prev := item.prev;
    }
    item.prev := null;
    item.next := null;
    LinkedRemoved(l, a, s, k);
    return item;
  }

  lemma RemovedNone(s: seq<Node>, k: nat)
    ensures k >= |s| ==> Removed(s, k) == s
  {}

  /** `cJSON_DetachItemFromArray` */
  method DetachItemFromArray(a: Node, which: int, ghost s: seq<Node>) returns (r: Node?)
    requires Holds(a, s)
    modifies a`child, Members(s)`next, Members(s)`prev
    ensures r == if which < 0 then null else At(s, which)
    ensures Holds(a, if which < 0 then s else Removed(s, which))
    ensures r != null ==> r.next == null && r.prev == null
  {
    hide Distinct, Holds, Linked, Removed;
    if which < 0 {
      return null;
    }
    var item := GetArrayItem(a, which, s);
    r := DetachItemViaPointer(a, item, s, which);
  }

  /** `cJSON_ReplaceItemViaPointer`, for an item of the list, up to freeing the old item. */
  method ReplaceItemViaPointer(a: Node, item: Node?, replacement: Node, ghost s: seq<Node>, ghost k: nat) returns (ok: bool)
    requires Holds(a, s)
    requires item == At(s, k)
    requires replacement != item ==> replacement !in s && replacement != a
    modifies a`child, Members(s)`next, Members(s)`prev, replacement`next, replacement`prev
    ensures ok <==> item != null
    ensures Holds(a, Replaced(s, k, replacement))
    ensures ok && replacement != item ==> item.next == null && item.prev == null
    ensures !ok ==> replacement.next == old(replacement.next)
  {
    hide Distinct, Replaced, Members, Linked, Holds, LinksOf;
    ReplacedNone(s, k, replacement);
    if item == null {
      return false;
    }
    if replacement == item {
      return true;
    }
    ghost var l := Around(a, s, k);
    assert replacement !in Members(s) by { MembersAre(s); }
    replacement.next := item.next;
    replacement.prev := item.prev;
    if replacement.next != null {
      replacement.next.prev := replacement;
    }
    if a.child == item {
      if a.child.prev == a.child {
        replacement.prev := replacement;
      }
      a.child := replacement;
    } else {
      if replacement.prev != null {
        replacement.prev.next := replacement;
      }
      if replacement.next == null {
        a.child.prev := replacement;
      }
    }
    item.next := null;
    item.prev := null;
    LinkedReplaced(l, a, s, k, replacement);
    return true;
  }

  lemma ReplacedNone(s: seq<Node>, k: nat, x: Node)
    ensures k >= |s| || s[k] == x ==> Replaced(s, k, x) == s
    ensures Replaced(s, k, x) != [] <==> s != []
  {}

  /** `cJSON_ReplaceItemInArray` */
  method ReplaceItemInArray(a: Node, which: int, newItem: Node, ghost s: seq<Node>) returns (ok: bool)
    requires Holds(a, s) && newItem !in s && newItem != a
    modifies a`child, Members(s)`next, Members(s)`prev, newItem`next, newItem`prev
    ensures ok <==> 0 <= which < |s|
    ensures Holds(a, if which < 0 then s else Replaced(s, which, newItem))
    ensures ok ==> s[which].next == null && s[which].prev == null
    ensures !ok ==> newItem.next == old(newItem.next)
  {
    hide Distinct, Holds, Linked, Replaced;
    if which < 0 {
      return false;
    }
    var item := GetArrayItem(a, which, s);
    ok := ReplaceItemViaPointer(a, item, newItem, s, which);
  }

  // ------------------------------------------------------------------ runs

  datatype Op =
    | Append(item: Node)
    | Insert(which: int, item: Node)
    | Detach(which: int)
    | Replace(which: int, item: Node)

  /** The operation on the sequence of items. */
  function Step(s: seq<Node>, op: Op): seq<Node> {
    match op
    case Append(x) => s + [x]
    case Insert(which, x) => if which < 0 then s else Inserted(s, which, x)
    case Detach(which) => if which < 0 then s else Removed(s, which)
    case Replace(which, x) => if which < 0 then s else Replaced(s, which, x)
  }

  function Run(s: seq<Node>, ops: seq<Op>): seq<Node>
    decreases |ops|
  {
    if ops == [] then s else Run(Step(s, ops[0]), ops[1..])
  }

  /** Only items that are not in the list are added to it. */
  predicate Legal(s: seq<Node>, op: Op) {
    op.Detach? || op.item !in s
  }

  predicate LegalRun(s: seq<Node>, ops: seq<Op>)
    decreases |ops|
  {
    ops == [] || (Legal(s, ops[0]) && LegalRun(Step(s, ops[0]), ops[1..]))
  }

  /** The items a run works with, apart from the list's own. */
  ghost function Pool(ops: seq<Op>): set<Node> {
    set op | op in ops && !op.Detach? :: op.item
  }

  /** Items outside the list have no successor. */
  ghost predicate Loose(s: seq<Node>, pool: set<Node>)
    reads pool
  {
    forall x :: x in pool && x !in s ==> x.next == null
  }

  /** One operation on the linked list. */
  method Apply(a: Node, op: Op, ghost s: seq<Node>, ghost pool: set<Node>)
    requires Holds(a, s) && Legal(s, op) && Loose(s, pool) && a !in pool
    requires Members(s) <= pool && (op.Detach? || op.item in pool)
    modifies a`child, pool`next, pool`prev
    ensures Holds(a, Step(s, op)) && Loose(Step(s, op), pool) && Members(Step(s, op)) <= pool
  {
    hide Holds, Linked, Distinct, Inserted, Removed, Replaced, Members;
    MembersAre(s);
    MembersAre(Step(s, op));
    StepMembers(s, op);
    StepPool(s, op, pool);
    match op
    case Append(x) =>
      var ok := AddItemToArray(a, x, s);
    case Insert(which, x) =>
      var ok := InsertItemInArray(a, which, x, s);
    case Detach(which) =>
      var r := DetachItemFromArray(a, which, s);
    case Replace(which, x) =>
      var ok := ReplaceItemInArray(a, which, x, s);
  }

  /** `y` is the item an operation takes out of the list. */
  ghost predicate Taken(s: seq<Node>, op: Op, y: Node) {
    (op.Detach? || op.Replace?) && 0 <= op.which < |s| && y == s[op.which]
  }

  /** What a step adds to the list and what it takes away. */
  lemma StepMembers(s: seq<Node>, op: Op)
    ensures forall y :: y in Step(s, op) ==> y in s || (!op.Detach? && y == op.item)
    ensures forall y :: y in s ==> (y in Step(s, op) || Taken(s, op, y))
    ensures op.Append? || (op.Insert? && op.which >= 0) || (op.Replace? && 0 <= op.which < |s|) ==> op.item in Step(s, op)
  {
    var t := Step(s, op);
    if op.Append? || (op.Insert? && op.which >= |s|) {
      assert t == s + [op.item] && t[|s|] == op.item;
    } else if 0 <= op.which < |s| {
      var k := op.which;
      assert s == s[..k] + [s[k]] + s[k + 1..] && s[k..] == [s[k]] + s[k + 1..];
      assert op.Replace? ==> t == s[..k] + [op.item] + s[k + 1..];
    }
  }

  lemma StepPool(s: seq<Node>, op: Op, pool: set<Node>)
    requires Members(s) <= pool && (op.Detach? || op.item in pool)
    ensures Members(Step(s, op)) <= pool
  {
    hide Step;
    StepMembers(s, op);
    MembersAre(s);
  }

  /** Every run of list operations keeps the links and does what the run on a sequence does. */
  method ApplyAll(a: Node, ops: seq<Op>, ghost s: seq<Node>, ghost pool: set<Node>)
    requires Holds(a, s) && LegalRun(s, ops) && Loose(s, pool) && a !in pool
    requires Members(s) + Pool(ops) <= pool
    modifies a`child, pool`next, pool`prev
    ensures Holds(a, Run(s, ops))
  {
    var i := 0;
    ghost var t := s;
    while i < |ops|
      invariant 0 <= i <= |ops| && Holds(a, t) && Loose(t, pool) && Members(t) <= pool
      invariant LegalRun(t, ops[i..]) && Run(t, ops[i..]) == Run(s, ops)
    {
      assert ops[i..][0] == ops[i] && ops[i..][1..] == ops[i + 1..];
      assert ops[i] in ops;
      Apply(a, ops[i], t, pool);
      t := Step(t, ops[i]);
      i := i + 1;
    }
  }
}
