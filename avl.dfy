/** The AVL tree: the baseline search tree plus a cached `height` in every
    node, which `insert` and `remove` use to rebalance each node on the way
    back up with single or double rotations.

    As in the baseline, a smaller key goes left and an equal or larger key
    goes right. Rotations can move a key equal to a node's value into its
    left subtree, so the ordering kept here is the non-strict one: the
    in-order key sequence is sorted. Each mutator returns the new value of
    the subtree it was called on. */
module Avl {
  import opened Common

  datatype Tree = Nil | Node(left: Tree, value: int, right: Tree, height: int)

  /** `new Node(val)`: two null children and a cached height of 1. */
  function Leaf(val: int): Tree {
    Node(Nil, val, Nil, 1)
  }

  /** The keys in the order an in-order traversal visits them. */
  ghost function InOrder(t: Tree): seq<int> {
    match t
    case Nil => []
    case Node(l, v, r, _) => InOrder(l) + [v] + InOrder(r)
  }

  /** The true height: 0 for a null pointer, one more than the taller child otherwise. */
  ghost function Depth(t: Tree): nat {
    match t
    case Nil => 0
    case Node(l, _, r, _) => 1 + Max(Depth(l), Depth(r))
  }

  /** Every cached height equals the true height of its subtree. */
  ghost predicate HeightsOk(t: Tree) {
    match t
    case Nil => true
    case Node(l, _, r, h) => HeightsOk(l) && HeightsOk(r) && h == Depth(t)
  }

  /** The AVL balance condition at every node. */
  ghost predicate Balanced(t: Tree) {
    match t
    case Nil => true
    case Node(l, _, r, _) => Balanced(l) && Balanced(r) && -1 <= Depth(l) - Depth(r) <= 1
  }

  ghost predicate IsAvl(t: Tree) {
    HeightsOk(t) && Balanced(t)
  }

  /** `getHeight`, guarded as at every call site: a null child counts 0. */
  function GetHeight(t: Tree): (h: int)
    ensures HeightsOk(t) ==> h == Depth(t)
  {
    if t.Nil? then 0 else t.height
  }

  /** `updateHeight`: refreshes the node's own cache from its children's. */
  function UpdateHeight(t: Tree): (r: Tree)
    requires t.Node?
    ensures r.Node? && r.left == t.left && r.value == t.value && r.right == t.right
    ensures HeightsOk(t.left) && HeightsOk(t.right) ==> HeightsOk(r)
  {
    t.(height := 1 + Max(GetHeight(t.left), GetHeight(t.right)))
  }

  /** `getBalance`: left height minus right height. */
  function GetBalance(t: Tree): (b: int)
    requires t.Node?
    ensures HeightsOk(t) ==> b == Depth(t.left) - Depth(t.right)
  {
    GetHeight(t.left) - GetHeight(t.right)
  }

  /** `rightRotate`: the left child becomes the local root and the old root
      its right child, taking over the left child's right subtree. The old
      root's height is refreshed before the new root's. */
  function RightRotate(t: Tree): (r: Tree)
    requires t.Node? && t.left.Node?
    ensures r.Node? && r.right.Node?
    ensures r.value == t.left.value && r.left == t.left.left
    ensures r.right.value == t.value && r.right.left == t.left.right && r.right.right == t.right
    ensures InOrder(r) == InOrder(t)
    ensures HeightsOk(t.left.left) && HeightsOk(t.left.right) && HeightsOk(t.right) ==> HeightsOk(r)
  {
    var newRoot := t.left;
    var oldRoot := UpdateHeight(t.(left := newRoot.right));
    UpdateHeight(newRoot.(right := oldRoot))
  }

  /** `leftRotate`: the mirror image of `RightRotate`. */
  function LeftRotate(t: Tree): (r: Tree)
    requires t.Node? && t.right.Node?
    ensures r.Node? && r.left.Node?
    ensures r.value == t.right.value && r.right == t.right.right
    ensures r.left.value == t.value && r.left.right == t.right.left && r.left.left == t.left
    ensures InOrder(r) == InOrder(t)
    ensures HeightsOk(t.left) && HeightsOk(t.right.left) && HeightsOk(t.right.right) ==> HeightsOk(r)
  {
    var newRoot := t.right;
    var oldRoot := UpdateHeight(t.(right := newRoot.left));
    UpdateHeight(newRoot.(left := oldRoot))
  }

  /** A single right rotation repairs a node that is two levels left-heavy
      when its left child leans left or not at all; the height drops by one
      exactly when the child leaned left. */
  lemma RightRotateBalanced(t: Tree)
    requires t.Node? && t.left.Node? && Balanced(t.left) && Balanced(t.right)
    requires Depth(t.left) == Depth(t.right) + 2
    requires 0 <= Depth(t.left.left) - Depth(t.left.right)
    ensures Balanced(RightRotate(t))
    ensures Depth(t.left.left) > Depth(t.left.right) ==> Depth(RightRotate(t)) == Depth(t) - 1
    ensures Depth(t.left.left) == Depth(t.left.right) ==> Depth(RightRotate(t)) == Depth(t)
  {
    var r := RightRotate(t);
    assert Depth(r.right) == 1 + Max(Depth(t.left.right), Depth(t.right));
  }

  lemma LeftRotateBalanced(t: Tree)
    requires t.Node? && t.right.Node? && Balanced(t.left) && Balanced(t.right)
    requires Depth(t.right) == Depth(t.left) + 2
    requires 0 <= Depth(t.right.right) - Depth(t.right.left)
    ensures Balanced(LeftRotate(t))
    ensures Depth(t.right.right) > Depth(t.right.left) ==> Depth(LeftRotate(t)) == Depth(t) - 1
    ensures Depth(t.right.right) == Depth(t.right.left) ==> Depth(LeftRotate(t)) == Depth(t)
  {
    var r := LeftRotate(t);
    assert Depth(r.left) == 1 + Max(Depth(t.left), Depth(t.right.left));
  }

  /** The double rotation repairs a node that is two levels left-heavy when
      its left child leans right; the height drops by one. */
  lemma LeftRightRotateBalanced(t: Tree)
    requires t.Node? && t.left.Node? && t.left.right.Node? && Balanced(t.left) && Balanced(t.right)
    requires Depth(t.left) == Depth(t.right) + 2
    requires Depth(t.left.left) < Depth(t.left.right)
    ensures Balanced(RightRotate(t.(left := LeftRotate(t.left))))
    ensures Depth(RightRotate(t.(left := LeftRotate(t.left)))) == Depth(t) - 1
  {
    var l := LeftRotate(t.left);
    var r := RightRotate(t.(left := l));
    var c := t.left.right;
    assert Depth(l.left) == 1 + Max(Depth(t.left.left), Depth(c.left));
    assert Depth(r.right) == 1 + Max(Depth(c.right), Depth(t.right));
  }

  lemma RightLeftRotateBalanced(t: Tree)
    requires t.Node? && t.right.Node? && t.right.left.Node? && Balanced(t.left) && Balanced(t.right)
    requires Depth(t.right) == Depth(t.left) + 2
    requires Depth(t.right.right) < Depth(t.right.left)
    ensures Balanced(LeftRotate(t.(right := RightRotate(t.right))))
    ensures Depth(LeftRotate(t.(right := RightRotate(t.right)))) == Depth(t) - 1
  {
    var r0 := RightRotate(t.right);
    var r := LeftRotate(t.(right := r0));
    var c := t.right.left;
    assert Depth(r0.right) == 1 + Max(Depth(c.right), Depth(t.right.right));
    assert Depth(r.left) == 1 + Max(Depth(t.left), Depth(c.left));
  }

  /** Rotating a node that is two levels out of balance, whatever its
      heavier child's shape, keeps every cache right and lowers the height
      by at most one. */
  lemma RightRotateDepth(t: Tree)
    requires t.Node? && t.left.Node? && HeightsOk(t)
    ensures HeightsOk(RightRotate(t))
    ensures Depth(t.left) == Depth(t.right) + 2 ==> Depth(t) - 1 <= Depth(RightRotate(t)) <= Depth(t)
  {
    var r := RightRotate(t);
    assert Depth(r.right) == 1 + Max(Depth(t.left.right), Depth(t.right));
  }

  lemma LeftRotateDepth(t: Tree)
    requires t.Node? && t.right.Node? && HeightsOk(t)
    ensures HeightsOk(LeftRotate(t))
    ensures Depth(t.right) == Depth(t.left) + 2 ==> Depth(t) - 1 <= Depth(LeftRotate(t)) <= Depth(t)
  {
    var r := LeftRotate(t);
    assert Depth(r.left) == 1 + Max(Depth(t.left), Depth(t.right.left));
  }

  lemma LeftRightRotateDepth(t: Tree)
    requires t.Node? && t.left.Node? && t.left.right.Node? && HeightsOk(t)
    ensures HeightsOk(RightRotate(t.(left := LeftRotate(t.left))))
    ensures Depth(t.left) == Depth(t.right) + 2 ==> Depth(t) - 1 <= Depth(RightRotate(t.(left := LeftRotate(t.left)))) <= Depth(t)
  {
    var c := t.left.right;
    assert HeightsOk(t.left) && HeightsOk(c);
    var l := LeftRotate(t.left);
    assert HeightsOk(l.left) && HeightsOk(l.right);
    var r := RightRotate(t.(left := l));
    assert Depth(l.left) == 1 + Max(Depth(t.left.left), Depth(c.left));
    assert Depth(r.right) == 1 + Max(Depth(c.right), Depth(t.right));
  }

  lemma RightLeftRotateDepth(t: Tree)
    requires t.Node? && t.right.Node? && t.right.left.Node? && HeightsOk(t)
    ensures HeightsOk(LeftRotate(t.(right := RightRotate(t.right))))
    ensures Depth(t.right) == Depth(t.left) + 2 ==> Depth(t) - 1 <= Depth(LeftRotate(t.(right := RightRotate(t.right)))) <= Depth(t)
  {
    var c := t.right.left;
    assert HeightsOk(t.right) && HeightsOk(c);
    var r0 := RightRotate(t.right);
    assert HeightsOk(r0.left) && HeightsOk(r0.right);
    var r := LeftRotate(t.(right := r0));
    assert Depth(r0.right) == 1 + Max(Depth(c.right), Depth(t.right.right));
    assert Depth(r.left) == 1 + Max(Depth(t.left), Depth(c.left));
  }

  /** What the rebalancing step after an insertion needs in order to rotate:
      a node whose cached heights are right, at most two levels out of
      balance, and whose heavier child has a subtree on the side the new key
      went (the source dereferences these children without a null test). */
  ghost predicate Rebalanceable(t: Tree, val: int) {
    && t.Node? && HeightsOk(t)
    && -2 <= Depth(t.left) - Depth(t.right) <= 2
    && (Depth(t.left) - Depth(t.right) == 2 ==>
          (val < t.left.value ==> t.left.left.Node?) && (t.left.value <= val ==> t.left.right.Node?))
    && (Depth(t.right) - Depth(t.left) == 2 ==>
          (val < t.right.value ==> t.right.left.Node?) && (t.right.value <= val ==> t.right.right.Node?))
  }

  /** The rebalancing tail of `insert`: the four cases keyed on the inserted
      value, tested in the source's order (LL, RR, LR, RL). A key equal to
      the heavy child's value matches none of them. */
  function InsertRebalance(t: Tree, val: int): (r: Tree)
    requires Rebalanceable(t, val)
    ensures r.Node? && HeightsOk(r) && InOrder(r) == InOrder(t)
    ensures -1 <= GetBalance(t) <= 1 ==> r == t
    ensures r == t || (r.left.Node? && r.right.Node?)
    ensures Depth(t) - 1 <= Depth(r) <= Depth(t)
  {
    var balance := GetBalance(t);
    if balance > 1 && val < t.left.value then
      RightRotateDepth(t); RightRotate(t)
    else if balance < -1 && val > t.right.value then
      LeftRotateDepth(t); LeftRotate(t)
    else if balance > 1 && val > t.left.value then
      LeftRightRotateDepth(t); RightRotate(t.(left := LeftRotate(t.left)))
    else if balance < -1 && val < t.right.value then
      RightLeftRotateDepth(t); LeftRotate(t.(right := RightRotate(t.right)))
    else t
  }

  /** `Node::insert`: descend (`<` left, otherwise right), attach a leaf at
      the null child reached, refresh the height and rebalance on the way
      back; the result is the new root of the subtree. The height grows by
      at most one, and the new key's side of the root is never empty. */
  function Insert(t: Tree, val: int): (r: Tree)
    requires t.Node? && IsAvl(t)
    ensures r.Node? && HeightsOk(r)
    ensures Depth(t) <= Depth(r) <= Depth(t) + 1
    ensures val < r.value ==> r.left.Node?
    ensures r.value <= val ==> r.right.Node?
    decreases t, 0
  {
    if val < t.value then InsertRebalance(UpdateHeight(t.(left := InsertChild(t.left, val))), val)
    else InsertRebalance(UpdateHeight(t.(right := InsertChild(t.right, val))), val)
  }

  /** `child ? child->insert(val) : new Node(val)`. */
  function InsertChild(c: Tree, val: int): (r: Tree)
    requires IsAvl(c)
    ensures r.Node? && HeightsOk(r)
    ensures Depth(c) <= Depth(r) <= Depth(c) + 1
    ensures c.Node? ==> (val < r.value ==> r.left.Node?) && (r.value <= val ==> r.right.Node?)
    decreases c, 1
  {
    if c.Nil? then Leaf(val) else Insert(c, val)
  }

  /** The keys `Insert` adds: with a sorted in-order sequence, the new key
      is placed after every equal key and before every larger one. */
  lemma {:induction false} InsertInOrder(t: Tree, val: int)
    requires t.Node? && IsAvl(t) && Sorted(InOrder(t))
    ensures InOrder(Insert(t, val)) == InsertSorted(InOrder(t), val)
    decreases t, 0
  {
    SortedSplit(InOrder(t.left), t.value, InOrder(t.right));
    InsertSortedSplit(InOrder(t.left), t.value, InOrder(t.right), val);
    if val < t.value {
      InsertChildInOrder(t.left, val);
    } else {
      InsertChildInOrder(t.right, val);
    }
  }

  lemma {:induction false} InsertChildInOrder(c: Tree, val: int)
    requires IsAvl(c) && Sorted(InOrder(c))
    ensures InOrder(InsertChild(c, val)) == InsertSorted(InOrder(c), val)
    decreases c, 1
  {
    if c.Node? { InsertInOrder(c, val); }
  }

  /** The duplicate-key defect: the tree `b` with left child `a < b` is a
      valid AVL tree, but inserting a second `a` sends it to the right of
      the `a`, leaves the root two levels left-heavy, and no case of the
      rebalancing fires because the key equals its left child's value
      (for instance `a` = 3, `b` = 5). */
  lemma InsertDuplicateUnbalances(a: int, b: int)
    requires a < b
    ensures IsAvl(Node(Leaf(a), b, Nil, 2))
    ensures GetBalance(Insert(Node(Leaf(a), b, Nil, 2), a)) == 2
    ensures !Balanced(Insert(Node(Leaf(a), b, Nil, 2), a))
  {
    var l1 := Node(Nil, a, Leaf(a), 2);
    DuplicateBelowLeaf(a, b);
    var t1 := UpdateHeight(Node(l1, b, Nil, 2));
    assert t1 == Node(l1, b, Nil, 3);
    assert Depth(l1) == 2;
    assert GetBalance(t1) == 2;
    assert InsertRebalance(t1, a) == t1;
  }

  /** The first step of the example: the second `a` goes to the right of the first. */
  lemma DuplicateBelowLeaf(a: int, b: int)
    requires a < b
    ensures IsAvl(Leaf(a)) && IsAvl(Node(Leaf(a), b, Nil, 2))
    ensures InsertChild(Leaf(a), a) == Node(Nil, a, Leaf(a), 2)
    ensures HeightsOk(Node(Nil, a, Leaf(a), 2))
  {
    assert Depth(Leaf(a)) == 1 && HeightsOk(Leaf(a));
    assert InsertChild(Nil, a) == Leaf(a);
    var l1 := UpdateHeight(Node(Nil, a, Leaf(a), 1));
    assert l1 == Node(Nil, a, Leaf(a), 2);
    assert Depth(l1) == 2 && HeightsOk(l1);
    assert GetBalance(l1) == -1;
    assert Insert(Leaf(a), a) == InsertRebalance(l1, a) == l1;
  }

  /** The rebalancing tail with the comparisons the routing calls for: a key
      equal to the heavy child's value went to that child's right side, so
      it selects LR on the left and RR on the right. */
  function InsertRebalanceCorrected(t: Tree, val: int): (r: Tree)
    requires Rebalanceable(t, val)
    ensures r.Node? && HeightsOk(r) && InOrder(r) == InOrder(t)
    ensures -1 <= GetBalance(t) <= 1 ==> r == t
    ensures r == t || (r.left.Node? && r.right.Node?)
    ensures Depth(t) - 1 <= Depth(r) <= Depth(t)
  {
    var balance := GetBalance(t);
    if balance > 1 && val < t.left.value then
      RightRotateDepth(t); RightRotate(t)
    else if balance < -1 && val >= t.right.value then
      LeftRotateDepth(t); LeftRotate(t)
    else if balance > 1 && val >= t.left.value then
      LeftRightRotateDepth(t); RightRotate(t.(left := LeftRotate(t.left)))
    else if balance < -1 && val < t.right.value then
      RightLeftRotateDepth(t); LeftRotate(t.(right := RightRotate(t.right)))
    else t
  }

  /** `Insert` with `InsertRebalanceCorrected` as its rebalancing tail. */
  function InsertCorrected(t: Tree, val: int): (r: Tree)
    requires t.Node? && IsAvl(t)
    ensures r.Node? && HeightsOk(r)
    ensures Depth(t) <= Depth(r) <= Depth(t) + 1
    ensures val < r.value ==> r.left.Node?
    ensures r.value <= val ==> r.right.Node?
    decreases t, 0
  {
    if val < t.value then InsertRebalanceCorrected(UpdateHeight(t.(left := InsertChildCorrected(t.left, val))), val)
    else InsertRebalanceCorrected(UpdateHeight(t.(right := InsertChildCorrected(t.right, val))), val)
  }

  function InsertChildCorrected(c: Tree, val: int): (r: Tree)
    requires IsAvl(c)
    ensures r.Node? && HeightsOk(r)
    ensures Depth(c) <= Depth(r) <= Depth(c) + 1
    ensures c.Node? ==> (val < r.value ==> r.left.Node?) && (r.value <= val ==> r.right.Node?)
    decreases c, 1
  {
    if c.Nil? then Leaf(val) else InsertCorrected(c, val)
  }

  /** The corrected insertion keeps every node balanced, for every key,
      duplicates included. When the height grows, no rotation happened at
      the root and the root leans towards the side the key went. */
  lemma {:induction false} InsertCorrectedBalanced(t: Tree, val: int)
    requires t.Node? && IsAvl(t)
    ensures Balanced(InsertCorrected(t, val))
    ensures var r := InsertCorrected(t, val);
      Depth(r) == Depth(t) + 1 ==>
        && r.value == t.value
        && (val < r.value ==> Depth(r.left) == Depth(r.right) + 1)
        && (r.value <= val ==> Depth(r.right) == Depth(r.left) + 1)
    decreases t, 2
  {
    if val < t.value {
      InsertCorrectedLeft(t, val);
    } else {
      InsertCorrectedRight(t, val);
    }
  }

  lemma {:induction false} InsertCorrectedLeft(t: Tree, val: int)
    requires t.Node? && IsAvl(t) && val < t.value
    ensures Balanced(InsertCorrected(t, val))
    ensures var r := InsertCorrected(t, val);
      Depth(r) == Depth(t) + 1 ==> r.value == t.value && Depth(r.left) == Depth(r.right) + 1
    decreases t, 1
  {
    var l' := InsertChildCorrected(t.left, val);
    InsertChildCorrectedBalanced(t.left, val);
    var t1 := UpdateHeight(t.(left := l'));
    assert InsertCorrected(t, val) == InsertRebalanceCorrected(t1, val);
    if Depth(l') - Depth(t.right) == 2 {
      if val < l'.value {
        RightRotateBalanced(t1);
      } else {
        LeftRightRotateBalanced(t1);
      }
    }
  }

  lemma {:induction false} InsertCorrectedRight(t: Tree, val: int)
    requires t.Node? && IsAvl(t) && t.value <= val
    ensures Balanced(InsertCorrected(t, val))
    ensures var r := InsertCorrected(t, val);
      Depth(r) == Depth(t) + 1 ==> r.value == t.value && Depth(r.right) == Depth(r.left) + 1
    decreases t, 1
  {
    var r' := InsertChildCorrected(t.right, val);
    InsertChildCorrectedBalanced(t.right, val);
    var t1 := UpdateHeight(t.(right := r'));
    assert InsertCorrected(t, val) == InsertRebalanceCorrected(t1, val);
    if Depth(r') - Depth(t.left) == 2 {
      if val >= r'.value {
        LeftRotateBalanced(t1);
      } else {
        RightLeftRotateBalanced(t1);
      }
    }
  }

  lemma {:induction false} InsertChildCorrectedBalanced(c: Tree, val: int)
    requires IsAvl(c)
    ensures Balanced(InsertChildCorrected(c, val))
    ensures var r := InsertChildCorrected(c, val);
      c.Node? && Depth(r) == Depth(c) + 1 ==>
        && r.value == c.value
        && (val < r.value ==> Depth(r.left) == Depth(r.right) + 1)
        && (r.value <= val ==> Depth(r.right) == Depth(r.left) + 1)
    decreases c, 3
  {
    if c.Node? { InsertCorrectedBalanced(c, val); }
  }

  lemma {:induction false} InsertCorrectedInOrder(t: Tree, val: int)
    requires t.Node? && IsAvl(t) && Sorted(InOrder(t))
    ensures InOrder(InsertCorrected(t, val)) == InsertSorted(InOrder(t), val)
    decreases t, 0
  {
    SortedSplit(InOrder(t.left), t.value, InOrder(t.right));
    InsertSortedSplit(InOrder(t.left), t.value, InOrder(t.right), val);
    if val < t.value {
      InsertChildCorrectedInOrder(t.left, val);
    } else {
      InsertChildCorrectedInOrder(t.right, val);
    }
  }

  lemma {:induction false} InsertChildCorrectedInOrder(c: Tree, val: int)
    requires IsAvl(c) && Sorted(InOrder(c))
    ensures InOrder(InsertChildCorrected(c, val)) == InsertSorted(InOrder(c), val)
    decreases c, 1
  {
    if c.Node? { InsertCorrectedInOrder(c, val); }
  }

  /** For a key not yet in the tree the source's comparisons and the
      corrected ones never disagree: a heavy child that grew kept its root,
      whose value differs from the new key. */
  lemma {:induction false} InsertMatchesCorrected(t: Tree, val: int)
    requires t.Node? && IsAvl(t) && val !in multiset(InOrder(t))
    ensures Insert(t, val) == InsertCorrected(t, val)
    decreases t, 0
  {
    assert multiset(InOrder(t)) == multiset(InOrder(t.left)) + multiset{t.value} + multiset(InOrder(t.right));
    if val < t.value {
      var c := t.left;
      InsertChildMatchesCorrected(c, val);
      InsertChildCorrectedBalanced(c, val);
      if c.Node? { assert c.value in multiset(InOrder(c)); }
      RebalanceAgrees(UpdateHeight(t.(left := InsertChild(c, val))), val);
    } else {
      var c := t.right;
      InsertChildMatchesCorrected(c, val);
      InsertChildCorrectedBalanced(c, val);
      if c.Node? { assert c.value in multiset(InOrder(c)); }
      RebalanceAgrees(UpdateHeight(t.(right := InsertChild(c, val))), val);
    }
  }

  /** The two rebalancing tails differ only when the key equals the value
      of a child that is two levels heavier than its sibling. */
  lemma RebalanceAgrees(t: Tree, val: int)
    requires Rebalanceable(t, val)
    requires Depth(t.left) - Depth(t.right) == 2 ==> val != t.left.value
    requires Depth(t.right) - Depth(t.left) == 2 ==> val != t.right.value
    ensures InsertRebalance(t, val) == InsertRebalanceCorrected(t, val)
  {
  }

  lemma {:induction false} InsertChildMatchesCorrected(c: Tree, val: int)
    requires IsAvl(c) && val !in multiset(InOrder(c))
    ensures InsertChild(c, val) == InsertChildCorrected(c, val)
    decreases c, 1
  {
    if c.Node? { InsertMatchesCorrected(c, val); }
  }

  /** `Node::insert` of a key not yet present keeps the tree an AVL tree. */
  lemma InsertBalanced(t: Tree, val: int)
    requires t.Node? && IsAvl(t) && val !in multiset(InOrder(t))
    ensures IsAvl(Insert(t, val))
  {
    InsertMatchesCorrected(t, val);
    InsertCorrectedBalanced(t, val);
  }

  /** `s` is `t` or lies somewhere below it. */
  ghost predicate IsSubtree(s: Tree, t: Tree) {
    s == t || (t.Node? && (IsSubtree(s, t.left) || IsSubtree(s, t.right)))
  }

  /** `Node::search`: the subtree rooted at the first node on the descent
      whose value equals `val`, or `None` once a null child is reached. */
  function Search(t: Tree, val: int): (r: Option<Tree>)
    requires t.Node?
    ensures r.Some? ==> r.value.Node? && r.value.value == val && IsSubtree(r.value, t)
    ensures r.Some? ==> val in multiset(InOrder(t))
  {
    if val == t.value then Some(t)
    else if val < t.value then
      (if t.left.Node? then Search(t.left, val) else None)
    else
      (if t.right.Node? then Search(t.right, val) else None)
  }

  /** On a sorted tree the descent cannot miss a stored key: a key smaller
      than a node's value cannot be on its right, a larger one not on its left. */
  lemma {:induction false} SearchFinds(t: Tree, val: int)
    requires t.Node? && Sorted(InOrder(t)) && val in multiset(InOrder(t))
    ensures Search(t, val).Some?
  {
    SortedSplit(InOrder(t.left), t.value, InOrder(t.right));
    if val < t.value {
      assert val !in multiset(InOrder(t.right));
      SearchFinds(t.left, val);
    } else if val > t.value {
      assert val !in multiset(InOrder(t.left));
      SearchFinds(t.right, val);
    }
  }

  /** The value of the leftmost node, reached by following left links only. */
  function LeftmostValue(t: Tree): int
    requires t.Node?
  {
    if t.left.Nil? then t.value else LeftmostValue(t.left)
  }

  /** The leftmost value is the first key of the in-order sequence, hence
      the least key of a sorted tree. */
  lemma {:induction false} LeftmostFirst(t: Tree)
    requires t.Node?
    ensures InOrder(t) != [] && LeftmostValue(t) == InOrder(t)[0]
  {
    if t.left.Node? {
      LeftmostFirst(t.left);
    }
  }

  /** `Node::findMin`: walks left links until a node without a left child. */
  method FindMin(t: Tree) returns (m: Tree)
    requires t.Node?
    ensures m.Node? && m.left.Nil? && IsSubtree(m, t)
    ensures m.value == LeftmostValue(t)
    ensures Sorted(InOrder(t)) ==> forall k | k in multiset(InOrder(t)) :: m.value <= k
  {
    LeftmostFirst(t);
    var current := t;
    while current.left.Node?
      invariant current.Node? && IsSubtree(current, t)
      invariant LeftmostValue(current) == LeftmostValue(t)
      decreases current
    {
      SubtreeLeft(current.left, current, t);
      current := current.left;
    }
    m := current;
    if Sorted(InOrder(t)) {
      forall k | k in multiset(InOrder(t)) ensures m.value <= k {
        var i :| 0 <= i < |InOrder(t)| && InOrder(t)[i] == k;
      }
    }
  }

  lemma {:induction false} SubtreeLeft(s: Tree, u: Tree, t: Tree)
    requires u.Node? && s == u.left && IsSubtree(u, t)
    ensures IsSubtree(s, t)
    decreases t
  {
    if u != t {
      if IsSubtree(u, t.left) { SubtreeLeft(s, u, t.left); } else { SubtreeLeft(s, u, t.right); }
    }
  }

  /** The rebalancing tail of `remove`, keyed on the heavier child's own
      balance: a child in balance takes the single rotation. */
  function RemoveRebalance(t: Tree): (r: Tree)
    requires t.Node? && HeightsOk(t)
    ensures r.Node? && HeightsOk(r) && InOrder(r) == InOrder(t)
    ensures -1 <= GetBalance(t) <= 1 ==> r == t
    ensures -2 <= GetBalance(t) <= 2 ==> Depth(t) - 1 <= Depth(r) <= Depth(t)
  {
    var balance := GetBalance(t);
    if balance > 1 && GetBalance(t.left) >= 0 then
      RightRotateDepth(t); RightRotate(t)
    else if balance > 1 && GetBalance(t.left) < 0 then
      LeftRightRotateDepth(t); RightRotate(t.(left := LeftRotate(t.left)))
    else if balance < -1 && GetBalance(t.right) <= 0 then
      LeftRotateDepth(t); LeftRotate(t)
    else if balance < -1 && GetBalance(t.right) > 0 then
      RightLeftRotateDepth(t); LeftRotate(t.(right := RightRotate(t.right)))
    else t
  }

  /** `Node::remove`: returns the new root of the subtree, `Nil` exactly when
      its only node is the one removed. A node holding `val` with two
      children takes the value of the leftmost node of its right subtree,
      which is then removed from the right subtree; every node on the way
      back has its height refreshed and is rebalanced. */
  function Remove(t: Tree, val: int): (r: Tree)
    requires t.Node? && HeightsOk(t)
    ensures HeightsOk(r)
    ensures r.Nil? <==> t.left.Nil? && t.right.Nil? && val == t.value
    decreases t
  {
    if val < t.value then
      RemoveRebalance(UpdateHeight(if t.left.Node? then t.(left := Remove(t.left, val)) else t))
    else if val > t.value then
      RemoveRebalance(UpdateHeight(if t.right.Node? then t.(right := Remove(t.right, val)) else t))
    else if t.left.Nil? && t.right.Nil? then Nil
    else if t.left.Nil? then t.right
    else if t.right.Nil? then t.left
    else
      var m := LeftmostValue(t.right);
      RemoveRebalance(UpdateHeight(t.(value := m, right := Remove(t.right, m))))
  }

  /** On a sorted tree, `Remove` takes out the first occurrence of `val` in
      the in-order sequence (nothing when it is absent); the sequence stays
      sorted. */
  lemma {:induction false} RemoveInOrder(t: Tree, val: int)
    requires t.Node? && HeightsOk(t) && Sorted(InOrder(t))
    ensures InOrder(Remove(t, val)) == RemoveFirst(InOrder(t), val)
    ensures Sorted(InOrder(Remove(t, val)))
    decreases t, 2
  {
    RemoveFirstOrder(InOrder(t), val);
    if val < t.value {
      RemoveLeftInOrder(t, val);
    } else if val > t.value {
      RemoveRightInOrder(t, val);
    } else {
      RemoveHereInOrder(t);
    }
  }

  lemma {:induction false} RemoveLeftInOrder(t: Tree, val: int)
    requires t.Node? && HeightsOk(t) && Sorted(InOrder(t)) && val < t.value
    ensures InOrder(Remove(t, val)) == RemoveFirst(InOrder(t), val)
    decreases t, 1
  {
    var l, v, r := InOrder(t.left), t.value, InOrder(t.right);
    SortedSplit(l, v, r);
    RemoveFirstLeft(l, v, r, val);
    if t.left.Node? {
      RemoveInOrder(t.left, val);
      assert InOrder(Remove(t, val)) == InOrder(Remove(t.left, val)) + [v] + r;
    } else {
      assert InOrder(Remove(t, val)) == InOrder(t);
    }
  }

  lemma {:induction false} RemoveRightInOrder(t: Tree, val: int)
    requires t.Node? && HeightsOk(t) && Sorted(InOrder(t)) && val > t.value
    ensures InOrder(Remove(t, val)) == RemoveFirst(InOrder(t), val)
    decreases t, 1
  {
    var l, v, r := InOrder(t.left), t.value, InOrder(t.right);
    SortedSplit(l, v, r);
    RemoveFirstRight(l, v, r, val);
    if t.right.Node? {
      RemoveInOrder(t.right, val);
      assert InOrder(Remove(t, val)) == l + [v] + InOrder(Remove(t.right, val));
    } else {
      assert InOrder(Remove(t, val)) == InOrder(t);
    }
  }

  lemma {:induction false} RemoveHereInOrder(t: Tree)
    requires t.Node? && HeightsOk(t) && Sorted(InOrder(t))
    ensures InOrder(Remove(t, t.value)) == RemoveFirst(InOrder(t), t.value)
    decreases t, 1
  {
    var l, v, r := InOrder(t.left), t.value, InOrder(t.right);
    SortedSplit(l, v, r);
    RemoveFirstSplit(l, v, r);
    if t.left.Node? && t.right.Node? {
      RemoveSuccessorInOrder(t);
    }
  }

  /** The two-child case: the successor's value replaces the node's, and
      the successor is the first key of the right subtree. */
  lemma {:induction false} RemoveSuccessorInOrder(t: Tree)
    requires t.Node? && HeightsOk(t) && Sorted(InOrder(t)) && t.left.Node? && t.right.Node?
    ensures InOrder(Remove(t, t.value)) == InOrder(t.left) + InOrder(t.right)
    decreases t, 0
  {
    var l, r := InOrder(t.left), InOrder(t.right);
    var m := LeftmostValue(t.right);
    LeftmostFirst(t.right);
    DropHead(l, m, r);
    assert InOrder(Remove(t.right, m)) == r[1..] by {
      SortedSplit(l, t.value, r);
      RemoveInOrder(t.right, m);
    }
    assert InOrder(Remove(t, t.value)) == l + [m] + r[1..] by {
      RemoveSuccessorStep(t);
    }
  }

  /** One unfolding of `Remove` at a node with two children. */
  lemma RemoveSuccessorStep(t: Tree)
    requires t.Node? && HeightsOk(t) && t.left.Node? && t.right.Node?
    ensures var m := LeftmostValue(t.right);
      Remove(t, t.value) == RemoveRebalance(UpdateHeight(t.(value := m, right := Remove(t.right, m))))
  {
  }

  /** A key that is not stored leaves the tree exactly as it was: every
      height on the path is already right and no node is out of balance. */
  lemma {:induction false} RemoveAbsent(t: Tree, val: int)
    requires t.Node? && IsAvl(t) && val !in multiset(InOrder(t))
    ensures Remove(t, val) == t
    decreases t, 1
  {
    assert multiset(InOrder(t)) == multiset(InOrder(t.left)) + multiset{t.value} + multiset(InOrder(t.right));
    if val < t.value {
      RemoveAbsentLeft(t, val);
    } else {
      RemoveAbsentRight(t, val);
    }
  }

  lemma {:induction false} RemoveAbsentLeft(t: Tree, val: int)
    requires t.Node? && IsAvl(t) && val < t.value && val !in multiset(InOrder(t.left))
    ensures Remove(t, val) == t
    decreases t, 0
  {
    var t0 := if t.left.Node? then t.(left := Remove(t.left, val)) else t;
    if t.left.Node? {
      RemoveAbsent(t.left, val);
    }
    assert t0 == t;
    assert UpdateHeight(t) == t;
    assert Remove(t, val) == RemoveRebalance(t);
  }

  lemma {:induction false} RemoveAbsentRight(t: Tree, val: int)
    requires t.Node? && IsAvl(t) && val > t.value && val !in multiset(InOrder(t.right))
    ensures Remove(t, val) == t
    decreases t, 0
  {
    var t0 := if t.right.Node? then t.(right := Remove(t.right, val)) else t;
    if t.right.Node? {
      RemoveAbsent(t.right, val);
    }
    assert t0 == t;
    assert UpdateHeight(t) == t;
    assert Remove(t, val) == RemoveRebalance(t);
  }

  /** `Node::remove` keeps an AVL tree an AVL tree, and the height drops by
      at most one. */
  lemma {:induction false} RemoveBalanced(t: Tree, val: int)
    requires t.Node? && IsAvl(t)
    ensures IsAvl(Remove(t, val))
    ensures Depth(t) - 1 <= Depth(Remove(t, val)) <= Depth(t)
    decreases t, 1
  {
    if val < t.value {
      if t.left.Node? { RemoveLeftBalanced(t, val); }
      else { assert UpdateHeight(t) == t; }
    } else if val > t.value {
      if t.right.Node? { RemoveRightBalanced(t, val, val); }
      else { assert UpdateHeight(t) == t; }
    } else if t.left.Node? && t.right.Node? {
      RemoveRightBalanced(t, val, LeftmostValue(t.right));
    }
  }

  /** Rebalancing after the left subtree lost at most one level. */
  lemma {:induction false} RemoveLeftBalanced(t: Tree, val: int)
    requires t.Node? && IsAvl(t) && val < t.value && t.left.Node?
    ensures IsAvl(Remove(t, val))
    ensures Depth(t) - 1 <= Depth(Remove(t, val)) <= Depth(t)
    decreases t, 0
  {
    RemoveBalanced(t.left, val);
    var t1 := UpdateHeight(t.(left := Remove(t.left, val)));
    assert Remove(t, val) == RemoveRebalance(t1);
    if Depth(t1.right) - Depth(t1.left) == 2 {
      if Depth(t1.right.right) >= Depth(t1.right.left) {
        LeftRotateBalanced(t1);
      } else {
        RightLeftRotateBalanced(t1);
      }
    }
  }

  /** Rebalancing after the right subtree lost at most one level: the
      descent to the right and the two-child case, where the node first takes
      the successor value `m` and `m` is removed from the right subtree. */
  lemma {:induction false} RemoveRightBalanced(t: Tree, val: int, m: int)
    requires t.Node? && IsAvl(t) && t.right.Node?
    requires (val > t.value && m == val) || (val == t.value && t.left.Node? && m == LeftmostValue(t.right))
    ensures IsAvl(Remove(t, val))
    ensures Depth(t) - 1 <= Depth(Remove(t, val)) <= Depth(t)
    decreases t, 0
  {
    RemoveBalanced(t.right, m);
    var t1 := UpdateHeight(t.(value := if val > t.value then t.value else m, right := Remove(t.right, m)));
    assert Remove(t, val) == RemoveRebalance(t1);
    if Depth(t1.left) - Depth(t1.right) == 2 {
      if Depth(t1.left.left) >= Depth(t1.left.right) {
        RightRotateBalanced(t1);
      } else {
        LeftRightRotateBalanced(t1);
      }
    }
  }
}
