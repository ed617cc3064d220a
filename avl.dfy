/**
 * The AVL index of src/activities_container_avl.c, keyed on the activity id.
 *
 * A node owns its record and its two subtrees, and keeps the cached `height` of the C struct.
 * The C functions rewrite `left`, `right` and `height` in place and return the new subtree
 * root; here they return the new subtree as a value.
 */
module AvlTree {
  import opened Wrappers
  import opened Activities
  import opened ActivityHelper
  import opened Utils

  datatype Tree = Nil | Node(activity: Record, left: Tree, right: Tree, height: int)

  // ---------------------------------------------------------------------------
  // Reference definitions

  /** The true height of a tree: the number of nodes on its longest path. */
  ghost function Depth(t: Tree): nat {
    if t.Nil? then 0 else 1 + Max(Depth(t.left), Depth(t.right))
  }

  /** Every cached height is the true height of its subtree. */
  ghost predicate HeightsOk(t: Tree) {
    t.Node? ==> HeightsOk(t.left) && HeightsOk(t.right) && t.height == Depth(t)
  }

  /** Every node's balance factor is -1, 0 or 1. */
  ghost predicate Balanced(t: Tree) {
    t.Node? ==> Balanced(t.left) && Balanced(t.right) && -1 <= BalanceFactor(t) <= 1
  }

  ghost predicate IsAvl(t: Tree) {
    HeightsOk(t) && Balanced(t)
  }

  /** The records held in the tree. */
  ghost function Elements(t: Tree): set<Record> {
    if t.Nil? then {} else {t.activity} + Elements(t.left) + Elements(t.right)
  }

  /** Strict binary-search-tree order on ids: smaller ids on the left, larger on the right. */
  ghost predicate Ordered(t: Tree) {
    t.Node? ==>
      && Ordered(t.left) && Ordered(t.right)
      && (forall x :: x in Elements(t.left) ==> x.id < t.activity.id)
      && (forall x :: x in Elements(t.right) ==> t.activity.id < x.id)
  }

  /** The records of `s` whose id is not `activityId`. */
  ghost function Without(s: set<Record>, activityId: int): set<Record> {
    set x | x in s && x.id != activityId
  }

  /** In-order traversal (the order of `inOrder` in src/activities_container.c). */
  function InOrder(t: Tree): seq<Record> {
    if t.Nil? then [] else InOrder(t.left) + [t.activity] + InOrder(t.right)
  }

  // ---------------------------------------------------------------------------
  // Node helpers (src/activities_container_avl.c:171-230)

  /** `getHeight`: 0 for NULL, otherwise the cached height. */
  function GetHeight(t: Tree): (r: int)
    ensures t.Nil? ==> r == 0
    ensures HeightsOk(t) ==> r == Depth(t)
  {
    if t.Nil? then 0 else t.height
  }

  /** `createNode`: NULL for a NULL record, otherwise a leaf of height 1. */
  function CreateNode(activity: Activity): (r: Tree)
    ensures activity.None? <==> r.Nil?
    ensures activity.Some? ==>
      && IsAvl(r) && Ordered(r) && GetHeight(r) == 1 && r.left.Nil? && r.right.Nil?
      && Elements(r) == {activity.value} && InOrder(r) == [activity.value]
  {
    if activity.None? then Nil else Node(activity.value, Nil, Nil, 1)
  }

  /** `getBalanceFactor`: left height minus right height, 0 for NULL. */
  function BalanceFactor(t: Tree): (r: int)
    ensures t.Nil? ==> r == 0
    ensures t.Node? && HeightsOk(t) ==> r == Depth(t.left) - Depth(t.right)
  {
    if t.Nil? then 0 else GetHeight(t.left) - GetHeight(t.right)
  }

  // ---------------------------------------------------------------------------
  // Rotations (src/activities_container_avl.c:254-304)

  /** `rightRotate`: the left child becomes the root; y's height is recomputed first, then x's. */
  function RightRotate(y: Tree): (r: Tree)
    requires y.Node? && y.left.Node?
    ensures r.Node? && r.activity == y.left.activity
    ensures InOrder(r) == InOrder(y)
  {
    var x := y.left;
    var t2 := x.right;
    var y' := Node(y.activity, t2, y.right, Max(GetHeight(t2), GetHeight(y.right)) + 1);
    var r := Node(x.activity, x.left, y', Max(GetHeight(x.left), GetHeight(y')) + 1);
    assert InOrder(r) == InOrder(x.left) + [x.activity] + (InOrder(t2) + [y.activity] + InOrder(y.right));
    assert InOrder(y) == (InOrder(x.left) + [x.activity] + InOrder(t2)) + [y.activity] + InOrder(y.right);
    r
  }

  /** `leftRotate`: the mirror image of `rightRotate`. */
  function LeftRotate(x: Tree): (r: Tree)
    requires x.Node? && x.right.Node?
    ensures r.Node? && r.activity == x.right.activity
    ensures InOrder(r) == InOrder(x)
  {
    var y := x.right;
    var t2 := y.left;
    var x' := Node(x.activity, x.left, t2, Max(GetHeight(x.left), GetHeight(t2)) + 1);
    var r := Node(y.activity, x', y.right, Max(GetHeight(x'), GetHeight(y.right)) + 1);
    assert InOrder(r) == (InOrder(x.left) + [x.activity] + InOrder(t2)) + [y.activity] + InOrder(y.right);
    assert InOrder(x) == InOrder(x.left) + [x.activity] + (InOrder(t2) + [y.activity] + InOrder(y.right));
    r
  }

  /** A rotation keeps the records and the BST order. */
  lemma RightRotatePreservesOrder(y: Tree)
    requires y.Node? && y.left.Node?
    ensures Elements(RightRotate(y)) == Elements(y)
    ensures Ordered(y) ==> Ordered(RightRotate(y))
  {
    var x, t2, r := y.left, y.left.right, RightRotate(y);
    var y' := r.right;
    assert Elements(y') == {y.activity} + Elements(t2) + Elements(y.right);
    assert Elements(r) == {x.activity} + Elements(x.left) + Elements(y');
    if Ordered(y) {
      RightRotateOrdered(y);
    }
  }

  lemma RightRotateOrdered(y: Tree)
    requires y.Node? && y.left.Node? && Ordered(y)
    ensures Ordered(RightRotate(y))
  {
    var x, t2, r := y.left, y.left.right, RightRotate(y);
    var y' := r.right;
    assert Elements(y') == {y.activity} + Elements(t2) + Elements(y.right);
    assert Elements(r) == {x.activity} + Elements(x.left) + Elements(y');
    assert Elements(x) == {x.activity} + Elements(x.left) + Elements(t2);
    assert Ordered(x) && Ordered(t2) && Ordered(y.right);
    assert x.activity.id < y.activity.id;
    assert forall e :: e in Elements(t2) ==> x.activity.id < e.id < y.activity.id;
    assert Ordered(y');
  }

  lemma LeftRotatePreservesOrder(x: Tree)
    requires x.Node? && x.right.Node?
    ensures Elements(LeftRotate(x)) == Elements(x)
    ensures Ordered(x) ==> Ordered(LeftRotate(x))
  {
    var y, t2, r := x.right, x.right.left, LeftRotate(x);
    var x' := r.left;
    assert Elements(x') == {x.activity} + Elements(x.left) + Elements(t2);
    assert Elements(r) == {y.activity} + Elements(x') + Elements(y.right);
    if Ordered(x) {
      LeftRotateOrdered(x);
    }
  }

  lemma LeftRotateOrdered(x: Tree)
    requires x.Node? && x.right.Node? && Ordered(x)
    ensures Ordered(LeftRotate(x))
  {
    var y, t2, r := x.right, x.right.left, LeftRotate(x);
    var x' := r.left;
    assert Elements(x') == {x.activity} + Elements(x.left) + Elements(t2);
    assert Elements(r) == {y.activity} + Elements(x') + Elements(y.right);
    assert Elements(y) == {y.activity} + Elements(t2) + Elements(y.right);
    assert Ordered(y) && Ordered(t2) && Ordered(x.left);
    assert x.activity.id < y.activity.id;
    assert forall e :: e in Elements(t2) ==> x.activity.id < e.id < y.activity.id;
    assert Ordered(x');
  }

  /** The double rotation of the LR case keeps the records and the BST order. */
  lemma LeftRightPreservesOrder(n: Tree)
    requires n.Node? && n.left.Node? && n.left.right.Node?
    ensures Elements(RightRotate(n.(left := LeftRotate(n.left)))) == Elements(n)
    ensures Ordered(n) ==> Ordered(RightRotate(n.(left := LeftRotate(n.left))))
  {
    var m := n.(left := LeftRotate(n.left));
    LeftRotatePreservesOrder(n.left);
    assert Elements(m) == Elements(n);
    RightRotatePreservesOrder(m);
  }

  /** The double rotation of the RL case keeps the records and the BST order. */
  lemma RightLeftPreservesOrder(n: Tree)
    requires n.Node? && n.right.Node? && n.right.left.Node?
    ensures Elements(LeftRotate(n.(right := RightRotate(n.right)))) == Elements(n)
    ensures Ordered(n) ==> Ordered(LeftRotate(n.(right := RightRotate(n.right))))
  {
    var m := n.(right := RightRotate(n.right));
    RightRotatePreservesOrder(n.right);
    assert Elements(m) == Elements(n);
    LeftRotatePreservesOrder(m);
  }

  /**
   * A node whose left subtree is two levels taller than its right one, with a left child that
   * does not lean right, is repaired by one right rotation.
   */
  lemma RightRotateRestores(n: Tree)
    requires n.Node? && IsAvl(n.left) && IsAvl(n.right)
    requires GetHeight(n.left) == GetHeight(n.right) + 2 && BalanceFactor(n.left) >= 0
    ensures n.left.Node? && IsAvl(RightRotate(n))
    ensures GetHeight(RightRotate(n)) == GetHeight(n.left) + (if BalanceFactor(n.left) == 0 then 1 else 0)
  {
    var x := n.left;
    assert x.Node?;
    var y' := RightRotate(n).right;
    assert Depth(y') == 1 + Max(Depth(x.right), Depth(n.right));
  }

  /** A left-heavy node whose left child leans right is repaired by the double rotation. */
  lemma LeftRightRotateRestores(n: Tree)
    requires n.Node? && IsAvl(n.left) && IsAvl(n.right)
    requires GetHeight(n.left) == GetHeight(n.right) + 2 && BalanceFactor(n.left) < 0
    ensures n.left.Node? && n.left.right.Node?
    ensures IsAvl(RightRotate(n.(left := LeftRotate(n.left))))
    ensures GetHeight(RightRotate(n.(left := LeftRotate(n.left)))) == GetHeight(n.left)
  {
    var x := n.left;
    assert x.Node?;
    var z := x.right;
    assert z.Node?;
    var x2 := Node(x.activity, x.left, z.left, Max(GetHeight(x.left), GetHeight(z.left)) + 1);
    var n2 := Node(n.activity, z.right, n.right, Max(GetHeight(z.right), GetHeight(n.right)) + 1);
    var r := Node(z.activity, x2, n2, Max(GetHeight(x2), GetHeight(n2)) + 1);
    assert LeftRotate(x) == Node(z.activity, x2, z.right, Max(GetHeight(x2), GetHeight(z.right)) + 1);
    var d := GetHeight(n.right);
    assert HeightsOk(x.left) && HeightsOk(z) && Balanced(x.left) && Balanced(z);
    assert GetHeight(z) == d + 1 && GetHeight(x.left) == d;
    assert d - 1 <= GetHeight(z.left) <= d && d - 1 <= GetHeight(z.right) <= d;
    assert RightRotate(n.(left := LeftRotate(x))) == r;
    assert HeightsOk(x2) && Balanced(x2);
    assert HeightsOk(n2) && Balanced(n2);
    assert HeightsOk(r) && Balanced(r);
  }

  /** Mirror of RightRotateRestores. */
  lemma LeftRotateRestores(n: Tree)
    requires n.Node? && IsAvl(n.left) && IsAvl(n.right)
    requires GetHeight(n.right) == GetHeight(n.left) + 2 && BalanceFactor(n.right) <= 0
    ensures n.right.Node? && IsAvl(LeftRotate(n))
    ensures GetHeight(LeftRotate(n)) == GetHeight(n.right) + (if BalanceFactor(n.right) == 0 then 1 else 0)
  {
    var y := n.right;
    assert y.Node?;
    var x' := LeftRotate(n).left;
    assert Depth(x') == 1 + Max(Depth(n.left), Depth(y.left));
  }

  /** Mirror of LeftRightRotateRestores. */
  lemma RightLeftRotateRestores(n: Tree)
    requires n.Node? && IsAvl(n.left) && IsAvl(n.right)
    requires GetHeight(n.right) == GetHeight(n.left) + 2 && BalanceFactor(n.right) > 0
    ensures n.right.Node? && n.right.left.Node?
    ensures IsAvl(LeftRotate(n.(right := RightRotate(n.right))))
    ensures GetHeight(LeftRotate(n.(right := RightRotate(n.right)))) == GetHeight(n.right)
  {
    var y := n.right;
    assert y.Node?;
    var z := y.left;
    assert z.Node?;
    var y2 := Node(y.activity, z.right, y.right, Max(GetHeight(z.right), GetHeight(y.right)) + 1);
    var n2 := Node(n.activity, n.left, z.left, Max(GetHeight(n.left), GetHeight(z.left)) + 1);
    var r := Node(z.activity, n2, y2, Max(GetHeight(n2), GetHeight(y2)) + 1);
    assert RightRotate(y) == Node(z.activity, z.left, y2, Max(GetHeight(z.left), GetHeight(y2)) + 1);
    var d := GetHeight(n.left);
    assert HeightsOk(y.right) && HeightsOk(z) && Balanced(y.right) && Balanced(z);
    assert GetHeight(z) == d + 1 && GetHeight(y.right) == d;
    assert d - 1 <= GetHeight(z.left) <= d && d - 1 <= GetHeight(z.right) <= d;
    assert LeftRotate(n.(right := RightRotate(y))) == r;
    assert HeightsOk(y2) && Balanced(y2);
    assert HeightsOk(n2) && Balanced(n2);
    assert HeightsOk(r) && Balanced(r);
  }

  // ---------------------------------------------------------------------------
  // Search (src/activities_container_avl.c:136-148)

  /** `search`: BST descent by id; NULL when the id is not on the search path. */
  function Search(root: Tree, activityId: int): (r: Tree)
    ensures r.Node? ==> r.activity.id == activityId && r.activity in Elements(root)
    ensures Ordered(root) ==> (r.Nil? <==> forall x :: x in Elements(root) ==> x.id != activityId)
  {
    if root.Nil? then Nil
    else
      var compareResult := CompareWithId(Some(root.activity), activityId);
      if compareResult == 0 then root
      else if compareResult < 0 then Search(root.right, activityId)
      else Search(root.left, activityId)
  }

  // ---------------------------------------------------------------------------
  // Insertion (src/activities_container_avl.c:331-388)

  /**
   * Steps 3-4 of `insertNode`: with both subtrees AVL and the node's height recomputed, rotate
   * when the balance factor is +-2, choosing the case by comparing the inserted key with the
   * heavy child's key.
   */
  function InsertRebalance(n: Tree, a: Record): (r: Tree)
    requires n.Node? && IsAvl(n.left) && IsAvl(n.right) && n.height == Depth(n)
    requires -2 <= BalanceFactor(n) <= 2
    requires BalanceFactor(n) == 2 ==>
      n.left.Node? && a.id != n.left.activity.id
      && BalanceFactor(n.left) == (if a.id < n.left.activity.id then 1 else -1)
    requires BalanceFactor(n) == -2 ==>
      n.right.Node? && a.id != n.right.activity.id
      && BalanceFactor(n.right) == (if a.id < n.right.activity.id then 1 else -1)
    ensures r.Node? && IsAvl(r)
    ensures Elements(r) == Elements(n) && (Ordered(n) ==> Ordered(r))
    ensures -1 <= BalanceFactor(n) <= 1 ==> r == n
    ensures BalanceFactor(n) == 2 || BalanceFactor(n) == -2 ==> GetHeight(r) == GetHeight(n) - 1
  {
    var balance := BalanceFactor(n);
    if n.left.Node? && balance > 1 && CompareActivityById(Some(a), Some(n.left.activity)) < 0 then
      // Case LL
      RightRotateRestores(n);
      RightRotatePreservesOrder(n);
      RightRotate(n)
    else if n.left.Node? && balance > 1 && CompareActivityById(Some(a), Some(n.left.activity)) > 0 then
      // Case LR
      LeftRightRotateRestores(n);
      LeftRightPreservesOrder(n);
      RightRotate(n.(left := LeftRotate(n.left)))
    else if n.right.Node? && balance < -1 && CompareActivityById(Some(a), Some(n.right.activity)) > 0 then
      // Case RR
      LeftRotateRestores(n);
      LeftRotatePreservesOrder(n);
      LeftRotate(n)
    else if n.right.Node? && balance < -1 && CompareActivityById(Some(a), Some(n.right.activity)) < 0 then
      // Case RL
      RightLeftRotateRestores(n);
      RightLeftPreservesOrder(n);
      LeftRotate(n.(right := RightRotate(n.right)))
    else
      n
  }

  /**
   * How insertion may change a subtree's height: by at most one level, and when it grew, the
   * root stayed and leans towards the side the new key went to.
   */
  ghost predicate InsertGrowth(before: Tree, after: Tree, a: Record) {
    && GetHeight(before) <= GetHeight(after) <= GetHeight(before) + 1
    && (GetHeight(after) == GetHeight(before) + 1 && before.Node? ==>
         && after.Node? && after.activity == before.activity && a.id != before.activity.id
         && BalanceFactor(after) == (if a.id < before.activity.id then 1 else -1))
  }

  /**
   * After hanging the grown subtree under the old root, the node is within one step of balance,
   * a +-2 imbalance is in the shape InsertRebalance repairs, and otherwise the growth rule holds.
   */
  lemma InsertedBelow(node: Tree, n: Tree, a: Record)
    requires node.Node? && IsAvl(node) && n.Node? && n.activity == node.activity
    requires n.height == 1 + Max(GetHeight(n.left), GetHeight(n.right))
    requires
      || (a.id < node.activity.id && n.right == node.right && IsAvl(n.left) && InsertGrowth(node.left, n.left, a))
      || (a.id > node.activity.id && n.left == node.left && IsAvl(n.right) && InsertGrowth(node.right, n.right, a))
    ensures IsAvl(n.left) && IsAvl(n.right) && n.height == Depth(n)
    ensures -2 <= BalanceFactor(n) <= 2
    ensures BalanceFactor(n) == 2 ==>
      n.left.Node? && a.id != n.left.activity.id
      && BalanceFactor(n.left) == (if a.id < n.left.activity.id then 1 else -1)
    ensures BalanceFactor(n) == -2 ==>
      n.right.Node? && a.id != n.right.activity.id
      && BalanceFactor(n.right) == (if a.id < n.right.activity.id then 1 else -1)
    ensures -1 <= BalanceFactor(n) <= 1 ==> InsertGrowth(node, n, a)
    ensures BalanceFactor(n) == 2 || BalanceFactor(n) == -2 ==> GetHeight(n) == GetHeight(node) + 1
  {
  }

  /** No record of `t` carries the id. */
  ghost predicate FreshId(t: Tree, activityId: int) {
    forall x :: x in Elements(t) ==> x.id != activityId
  }

  /**
   * Hanging the subtree that received a fresh record under the old root keeps the BST order and
   * adds exactly that record, provided the recursive insertion did so for the subtree.
   */
  lemma HangInserted(node: Tree, n: Tree, a: Record)
    requires node.Node? && n.Node? && n.activity == node.activity
    requires
      || (a.id < node.activity.id && n.right == node.right)
      || (a.id > node.activity.id && n.left == node.left)
    ensures
      && Ordered(node) && FreshId(node, a.id)
      && (a.id < node.activity.id && Ordered(node.left) && FreshId(node.left, a.id) ==>
            Ordered(n.left) && Elements(n.left) == Elements(node.left) + {a})
      && (a.id > node.activity.id && Ordered(node.right) && FreshId(node.right, a.id) ==>
            Ordered(n.right) && Elements(n.right) == Elements(node.right) + {a})
      ==> Ordered(n) && Elements(n) == Elements(node) + {a}
  {
  }

  /**
   * `insertNode`: BST insertion by id, ignoring a duplicate id, then rebalancing on the way up.
   * The result is AVL and at most one level taller; when it grew, its root is the old root and
   * it leans towards the side the new key went to.
   */
  function InsertNode(node: Tree, activity: Record): (r: Tree)
    requires IsAvl(node)
    ensures r.Node? && IsAvl(r) && InsertGrowth(node, r, activity)
    ensures Ordered(node) && FreshId(node, activity.id) ==>
      Ordered(r) && Elements(r) == Elements(node) + {activity}
  {
    if node.Nil? then CreateNode(Some(activity))
    else
      var compareResult := CompareActivityById(Some(activity), Some(node.activity));
      if compareResult < 0 then
        var l := InsertNode(node.left, activity);
        var n := Node(node.activity, l, node.right, 1 + Max(GetHeight(l), GetHeight(node.right)));
        InsertedBelow(node, n, activity);
        HangInserted(node, n, activity);
        InsertRebalance(n, activity)
      else if compareResult > 0 then
        var r := InsertNode(node.right, activity);
        var n := Node(node.activity, node.left, r, 1 + Max(GetHeight(node.left), GetHeight(r)));
        InsertedBelow(node, n, activity);
        HangInserted(node, n, activity);
        InsertRebalance(n, activity)
      else
        node
  }

  // ---------------------------------------------------------------------------
  // Minimum (src/activities_container_avl.c:412-421)

  /** The leftmost node of a non-empty tree: it has no left child and holds the smallest id. */
  function LeftmostNode(t: Tree): (r: Tree)
    requires t.Node?
    ensures r.Node? && r.left.Nil? && r.activity in Elements(t)
    ensures Ordered(t) ==> forall x :: x in Elements(t) ==> r.activity.id <= x.id
  {
    if t.left.Nil? then t else LeftmostNode(t.left)
  }

  /** `minValueNode`: walks a cursor down the left links; NULL for NULL. */
  method MinValueNode(node: Tree) returns (current: Tree)
    ensures node.Nil? ==> current.Nil?
    ensures node.Node? ==> current == LeftmostNode(node)
  {
    if node.Nil? {
      return Nil;
    }
    current := node;
    while current.left.Node?
      invariant current.Node? && LeftmostNode(current) == LeftmostNode(node)
      decreases current
    {
      current := current.left;
    }
  }

  // ---------------------------------------------------------------------------
  // Deletion (src/activities_container_avl.c:447-529)

  /**
   * Steps 2-3 of `deleteNode`: rebalance a node whose height has been recomputed, choosing the
   * case from the balance factor of the heavy child.
   */
  function DeleteRebalance(n: Tree): (r: Tree)
    requires n.Node? && IsAvl(n.left) && IsAvl(n.right) && n.height == Depth(n)
    requires -2 <= BalanceFactor(n) <= 2
    ensures r.Node? && IsAvl(r)
    ensures Elements(r) == Elements(n) && (Ordered(n) ==> Ordered(r))
    ensures -1 <= BalanceFactor(n) <= 1 ==> r == n
    ensures GetHeight(n) - 1 <= GetHeight(r) <= GetHeight(n)
  {
    var balance := BalanceFactor(n);
    if balance > 1 && BalanceFactor(n.left) >= 0 then
      // Case LL
      RightRotateRestores(n);
      RightRotatePreservesOrder(n);
      RightRotate(n)
    else if balance > 1 && BalanceFactor(n.left) < 0 then
      // Case LR
      LeftRightRotateRestores(n);
      LeftRightPreservesOrder(n);
      RightRotate(n.(left := LeftRotate(n.left)))
    else if balance < -1 && BalanceFactor(n.right) <= 0 then
      // Case RR
      LeftRotateRestores(n);
      LeftRotatePreservesOrder(n);
      LeftRotate(n)
    else if balance < -1 && BalanceFactor(n.right) > 0 then
      // Case RL
      RightLeftRotateRestores(n);
      RightLeftPreservesOrder(n);
      LeftRotate(n.(right := RightRotate(n.right)))
    else
      n
  }

  /**
   * After hanging a subtree that shrank by at most one level, the node is within one step of
   * balance, no taller than before and at most one level shorter; a +-2 imbalance leaves its
   * height unchanged.
   */
  lemma DeletedBelow(node: Tree, n: Tree)
    requires node.Node? && IsAvl(node) && n.Node?
    requires n.height == 1 + Max(GetHeight(n.left), GetHeight(n.right))
    requires
      || (n.right == node.right && IsAvl(n.left)
          && GetHeight(node.left) - 1 <= GetHeight(n.left) <= GetHeight(node.left))
      || (n.left == node.left && IsAvl(n.right)
          && GetHeight(node.right) - 1 <= GetHeight(n.right) <= GetHeight(node.right))
    ensures IsAvl(n.left) && IsAvl(n.right) && n.height == Depth(n)
    ensures -2 <= BalanceFactor(n) <= 2
    ensures GetHeight(node) - 1 <= GetHeight(n) <= GetHeight(node)
    ensures BalanceFactor(n) == 2 || BalanceFactor(n) == -2 ==> GetHeight(n) == GetHeight(node)
  {
  }

  /**
   * Hanging the subtree that lost the records with a given id under the old root, provided the
   * recursive deletion removed exactly those from the subtree.
   */
  lemma HangDeleted(node: Tree, n: Tree, k: int)
    requires node.Node? && n.Node? && n.activity == node.activity
    requires
      || (k < node.activity.id && n.right == node.right)
      || (k > node.activity.id && n.left == node.left)
    ensures
      && Ordered(node)
      && (k < node.activity.id && Ordered(node.left) ==>
            Ordered(n.left) && Elements(n.left) == Without(Elements(node.left), k))
      && (k > node.activity.id && Ordered(node.right) ==>
            Ordered(n.right) && Elements(n.right) == Without(Elements(node.right), k))
      ==> Ordered(n) && Elements(n) == Without(Elements(node), k)
  {
  }

  /** A node with at most one child, deleted by its own id, is replaced by that child. */
  lemma PromoteChild(root: Tree, child: Tree, n: Tree, k: int)
    requires root.Node? && child.Node? && n.Node?
    ensures
      && Ordered(root) && root.activity.id == k && (root.left.Nil? || root.right.Nil?)
      && child == (if root.left.Node? then root.left else root.right)
      && n.activity == child.activity && n.left == child.left && n.right == child.right
      ==> Ordered(n) && Elements(n) == Without(Elements(root), k)
  {
    if && Ordered(root) && root.activity.id == k && (root.left.Nil? || root.right.Nil?)
       && child == (if root.left.Node? then root.left else root.right)
       && n.activity == child.activity && n.left == child.left && n.right == child.right {
      assert Elements(n) == Elements(child);
      assert Elements(root) == {root.activity} + Elements(child);
      assert forall x :: x in Elements(child) ==> x.id != k;
      assert Without(Elements(root), k) == Elements(child);
      assert Ordered(child);
    }
  }

  /**
   * The node deleted by its own id, holding the successor's record over the right subtree from
   * which the successor was deleted.
   */
  lemma HangSuccessor(root: Tree, n: Tree, k: int)
    requires root.Node? && root.right.Node? && n.Node?
    requires n.activity == LeftmostNode(root.right).activity && n.left == root.left
    ensures
      && Ordered(root) && root.activity.id == k
      && (Ordered(root.right) ==>
            Ordered(n.right) && Elements(n.right) == Without(Elements(root.right), n.activity.id))
      ==> Ordered(n) && Elements(n) == Without(Elements(root), k)
  {
    var succ := n.activity;
    if && Ordered(root) && root.activity.id == k
       && (Ordered(root.right) ==>
             Ordered(n.right) && Elements(n.right) == Without(Elements(root.right), succ.id)) {
      forall y | y in Elements(root.right) && y.id == succ.id
        ensures y == succ
      {
        OrderedIdsUnique(root.right, y, succ);
      }
      assert Elements(root.right) == {succ} + Elements(n.right);
    }
  }

  /**
   * `deleteNode`: BST deletion by id. A node with at most one child is replaced by that child
   * (the struct copy `*root = *temp`); a node with two children takes a copy of its in-order
   * successor's record, and the successor is then deleted from the right subtree by its id.
   * The result is AVL and at most one level shorter.
   */
  function DeleteNode(root: Tree, activityId: int): (r: Tree)
    requires IsAvl(root)
    ensures IsAvl(r)
    ensures GetHeight(root) - 1 <= GetHeight(r) <= GetHeight(root)
    ensures Ordered(root) ==> Ordered(r) && Elements(r) == Without(Elements(root), activityId)
  {
    if root.Nil? then root
    else
      var compareResult := CompareWithId(Some(root.activity), activityId);
      if compareResult > 0 then
        var l := DeleteNode(root.left, activityId);
        var n := Node(root.activity, l, root.right, 1 + Max(GetHeight(l), GetHeight(root.right)));
        DeletedBelow(root, n);
        HangDeleted(root, n, activityId);
        DeleteRebalance(n)
      else if compareResult < 0 then
        var r := DeleteNode(root.right, activityId);
        var n := Node(root.activity, root.left, r, 1 + Max(GetHeight(root.left), GetHeight(r)));
        DeletedBelow(root, n);
        HangDeleted(root, n, activityId);
        DeleteRebalance(n)
      else if root.left.Nil? || root.right.Nil? then
        var temp := if root.left.Node? then root.left else root.right;
        if temp.Nil? then Nil
        else
          var n := Node(temp.activity, temp.left, temp.right, 1 + Max(GetHeight(temp.left), GetHeight(temp.right)));
          PromoteChild(root, temp, n, activityId);
          DeleteRebalance(n)
      else
        var temp := LeftmostNode(root.right);
        var copy := CopyActivity(Some(temp.activity)).value;
        var r := DeleteNode(root.right, GetActivityId(Some(temp.activity)));
        var n := Node(copy, root.left, r, 1 + Max(GetHeight(root.left), GetHeight(r)));
        DeletedBelow(root, n);
        HangSuccessor(root, n, activityId);
        DeleteRebalance(n)
  }

  // ---------------------------------------------------------------------------
  // Teardown (src/activities_container_avl.c:550-558)

  /** `deleteSubtree`: the records freed, in the post-order in which they are freed. */
  function DeleteSubtree(root: Tree): (freed: seq<Record>)
    ensures multiset(freed) == multiset(InOrder(root))
  {
    if root.Nil? then [] else DeleteSubtree(root.left) + DeleteSubtree(root.right) + [root.activity]
  }

  // ---------------------------------------------------------------------------
  // Ordering lemmas

  /** In an ordered tree the id identifies the record. */
  lemma {:induction false} OrderedIdsUnique(t: Tree, x: Record, y: Record)
    requires Ordered(t) && x in Elements(t) && y in Elements(t) && x.id == y.id
    ensures x == y
  {
    if x in Elements(t.left) && y in Elements(t.left) {
      OrderedIdsUnique(t.left, x, y);
    } else if x in Elements(t.right) && y in Elements(t.right) {
      OrderedIdsUnique(t.right, x, y);
    }
  }

  /** The in-order traversal lists exactly the records of the tree. */
  lemma {:induction false} InOrderElements(t: Tree)
    ensures forall x :: x in InOrder(t) <==> x in Elements(t)
  {
    if t.Node? {
      InOrderElements(t.left);
      InOrderElements(t.right);
    }
  }

  /** The in-order traversal of an ordered tree lists the records by strictly increasing id. */
  lemma {:induction false} InOrderAscending(t: Tree)
    requires Ordered(t)
    ensures forall i, j :: 0 <= i < j < |InOrder(t)| ==> InOrder(t)[i].id < InOrder(t)[j].id
  {
    if t.Node? {
      InOrderAscending(t.left);
      InOrderAscending(t.right);
      InOrderElements(t.left);
      InOrderElements(t.right);
      var L, R, s := InOrder(t.left), InOrder(t.right), InOrder(t);
      assert s == L + [t.activity] + R;
      forall i, j | 0 <= i < j < |s|
        ensures s[i].id < s[j].id
      {
        if j < |L| {
          assert s[i] == L[i] && s[j] == L[j];
        } else if i < |L| {
          assert s[i] == L[i] && L[i] in Elements(t.left);
          if j > |L| {
            assert s[j] == R[j - |L| - 1] && R[j - |L| - 1] in Elements(t.right);
          }
        } else if i == |L| {
          assert s[j] == R[j - |L| - 1] && R[j - |L| - 1] in Elements(t.right);
        } else {
          assert s[i] == R[i - |L| - 1] && s[j] == R[j - |L| - 1];
        }
      }
    }
  }

  /** `insertNode` with an id already in the tree returns the tree unchanged. */
  lemma {:induction false} InsertNodeDuplicate(t: Tree, a: Record, x: Record)
    requires IsAvl(t) && Ordered(t) && x in Elements(t) && x.id == a.id
    ensures InsertNode(t, a) == t
  {
    if a.id < t.activity.id {
      assert x in Elements(t.left);
      InsertNodeDuplicate(t.left, a, x);
      InsertNodeUnchangedBelow(t, a);
    } else if a.id > t.activity.id {
      assert x in Elements(t.right);
      InsertNodeDuplicate(t.right, a, x);
      InsertNodeUnchangedBelow(t, a);
    }
  }

  /** When the subtree the key descends into comes back unchanged, so does the node. */
  lemma InsertNodeUnchangedBelow(t: Tree, a: Record)
    requires IsAvl(t) && t.Node? && a.id != t.activity.id
    requires a.id < t.activity.id ==> InsertNode(t.left, a) == t.left
    requires a.id > t.activity.id ==> InsertNode(t.right, a) == t.right
    ensures InsertNode(t, a) == t
  {
    assert t == Node(t.activity, t.left, t.right, 1 + Max(GetHeight(t.left), GetHeight(t.right)));
  }

  /** Deleting an id that is not in the tree returns the tree unchanged. */
  lemma {:induction false} DeleteNodeMissing(t: Tree, activityId: int)
    requires IsAvl(t) && Ordered(t) && forall x :: x in Elements(t) ==> x.id != activityId
    ensures DeleteNode(t, activityId) == t
  {
    if t.Node? {
      if t.activity.id > activityId {
        DeleteNodeMissing(t.left, activityId);
      } else {
        DeleteNodeMissing(t.right, activityId);
      }
    }
  }
}
