/** The unbalanced binary search tree (the baseline engine).

    A node holds an integer `value` and two optional children. A key smaller
    than a node's value is routed left; an equal or larger key is routed
    right, so duplicates are stored as extra nodes in right subtrees. The
    source rewrites child pointers of existing nodes in place; here a
    subtree is a value, and every mutator returns the new value of the
    subtree it was called on (the same node, or `Nil` for a null pointer). */
module Bst {
  import opened Common

  datatype Tree = Nil | Node(left: Tree, value: int, right: Tree)

  /** `new Node(val)`: a node with two null children. */
  function Leaf(val: int): Tree {
    Node(Nil, val, Nil)
  }

  /** The keys stored in a subtree, with their multiplicities. */
  function Keys(t: Tree): multiset<int> {
    match t
    case Nil => multiset{}
    case Node(l, v, r) => Keys(l) + multiset{v} + Keys(r)
  }

  /** The keys in the order an in-order traversal visits them. */
  ghost function InOrder(t: Tree): seq<int> {
    match t
    case Nil => []
    case Node(l, v, r) => InOrder(l) + [v] + InOrder(r)
  }

  /** The routing invariant: every key left of a node is smaller than its
      value, every key right of it is at least its value. */
  ghost predicate Ordered(t: Tree) {
    match t
    case Nil => true
    case Node(l, v, r) =>
      && Ordered(l) && Ordered(r)
      && AllBelow(l, v) && AllAtLeast(r, v)
  }

  ghost predicate AllBelow(t: Tree, v: int) {
    forall k | k in Keys(t) :: k < v
  }

  ghost predicate AllAtLeast(t: Tree, v: int) {
    forall k | k in Keys(t) :: v <= k
  }

  /** `s` is `t` or lies somewhere below it. */
  ghost predicate IsSubtree(s: Tree, t: Tree) {
    s == t || (t.Node? && (IsSubtree(s, t.left) || IsSubtree(s, t.right)))
  }

  lemma {:induction false} InOrderKeys(t: Tree)
    ensures multiset(InOrder(t)) == Keys(t)
    ensures Ordered(t) ==> Sorted(InOrder(t))
  {
    if t.Node? {
      InOrderKeys(t.left);
      InOrderKeys(t.right);
      if Ordered(t) {
        SortedJoin(InOrder(t.left), t.value, InOrder(t.right));
      }
    }
  }

  lemma {:induction false} SubtreeKeys(s: Tree, t: Tree)
    requires IsSubtree(s, t)
    ensures Keys(s) <= Keys(t)
  {
    if s != t {
      if IsSubtree(s, t.left) { SubtreeKeys(s, t.left); } else { SubtreeKeys(s, t.right); }
    }
  }

  /** `Node::insert`: a new leaf is attached at the first null child met on
      the `<`-left / else-right descent. The node called on keeps its value;
      the key lands in the left subtree exactly when it is smaller. */
  function Insert(t: Tree, val: int): (r: Tree)
    requires t.Node?
    ensures r.Node? && r.value == t.value
    ensures Keys(r) == Keys(t) + multiset{val}
    ensures val < t.value ==> r.right == t.right && Keys(r.left) == Keys(t.left) + multiset{val}
    ensures t.value <= val ==> r.left == t.left && Keys(r.right) == Keys(t.right) + multiset{val}
    decreases t, 0
  {
    if val < t.value then t.(left := InsertChild(t.left, val))
    else t.(right := InsertChild(t.right, val))
  }

  /** `child ? child->insert(val) : new Node(val)`. */
  function InsertChild(c: Tree, val: int): (r: Tree)
    ensures r.Node? && Keys(r) == Keys(c) + multiset{val}
    decreases c, 1
  {
    if c.Nil? then Leaf(val) else Insert(c, val)
  }

  /** Insertion keeps the routing invariant, so the in-order sequence stays sorted. */
  lemma {:induction false} InsertOrdered(t: Tree, val: int)
    requires t.Node? && Ordered(t)
    ensures Ordered(Insert(t, val))
  {
    if val < t.value {
      var l' := InsertChild(t.left, val);
      if t.left.Node? { InsertOrdered(t.left, val); }
      assert Ordered(l');
      AllBelowAdd(t.left, l', val, t.value);
      assert Insert(t, val) == Node(l', t.value, t.right);
    } else {
      var r' := InsertChild(t.right, val);
      if t.right.Node? { InsertOrdered(t.right, val); }
      assert Ordered(r');
      AllAboveAdd(t.right, r', val, t.value);
      assert Insert(t, val) == Node(t.left, t.value, r');
    }
  }

  lemma AllBelowAdd(a: Tree, b: Tree, x: int, v: int)
    requires Keys(b) == Keys(a) + multiset{x} && x < v
    requires AllBelow(a, v)
    ensures AllBelow(b, v)
  {
  }

  lemma AllAboveAdd(a: Tree, b: Tree, x: int, v: int)
    requires Keys(b) == Keys(a) + multiset{x} && v <= x
    requires AllAtLeast(a, v)
    ensures AllAtLeast(b, v)
  {
  }


  /** `Node::search`: the subtree rooted at the first node on the descent
      whose value equals `val`, or `None` for a null pointer. */
  function Search(t: Tree, val: int): (r: Option<Tree>)
    requires t.Node?
    ensures r.Some? ==> r.value.Node? && r.value.value == val && IsSubtree(r.value, t)
    ensures r.Some? ==> val in Keys(t)
    ensures Ordered(t) && val in Keys(t) ==> r.Some?
  {
    if val == t.value then Some(t)
    else if val < t.value then
      (if t.left.Node? then Search(t.left, val) else None)
    else
      (if t.right.Node? then Search(t.right, val) else None)
  }

  /** The value of the leftmost node, reached by following left links only. */
  function LeftmostValue(t: Tree): int
    requires t.Node?
  {
    if t.left.Nil? then t.value else LeftmostValue(t.left)
  }

  /** In an ordered tree the leftmost value is the least key. */
  lemma {:induction false} LeftmostIsMinimum(t: Tree)
    requires t.Node?
    ensures LeftmostValue(t) in Keys(t)
    ensures Ordered(t) ==> forall k | k in Keys(t) :: LeftmostValue(t) <= k
  {
    if t.left.Node? {
      LeftmostIsMinimum(t.left);
    }
  }

  /** `Node::findMin`: walks left links until a node without a left child. */
  method FindMin(t: Tree) returns (m: Tree)
    requires t.Node?
    ensures m.Node? && m.left.Nil? && IsSubtree(m, t)
    ensures m.value == LeftmostValue(t)
    ensures m.value in Keys(t)
    ensures Ordered(t) ==> forall k | k in Keys(t) :: m.value <= k
  {
    LeftmostIsMinimum(t);
    var current := t;
    while current.left.Node?
      invariant current.Node? && IsSubtree(current, t)
      invariant LeftmostValue(current) == LeftmostValue(t)
      decreases current
    {
      SubtreeLeft(current.left, current, t);
      current := current.left;
    }
    m := current;
  }

  lemma {:induction false} SubtreeLeft(s: Tree, u: Tree, t: Tree)
    requires u.Node? && s == u.left && IsSubtree(u, t)
    ensures IsSubtree(s, t)
    decreases t
  {
    if u != t {
      if IsSubtree(u, t.left) { SubtreeLeft(s, u, t.left); } else { SubtreeLeft(s, u, t.right); }
    }
  }

  /** `Node::remove`: returns the new root of the subtree (`Nil` when the
      last node goes). A node holding `val` with two children takes the
      value of the leftmost node of its right subtree, which is then
      removed from the right subtree. */
  function Remove(t: Tree, val: int): (r: Tree)
    requires t.Node?
    ensures val !in Keys(t) ==> r == t
  {
    if val < t.value then
      if t.left.Node? then t.(left := Remove(t.left, val)) else t
    else if val > t.value then
      if t.right.Node? then t.(right := Remove(t.right, val)) else t
    else if t.left.Nil? && t.right.Nil? then Nil
    else if t.left.Nil? then t.right
    else if t.right.Nil? then t.left
    else
      var m := LeftmostValue(t.right);
      Node(t.left, m, Remove(t.right, m))
  }

  /** On an ordered tree, removal takes out one occurrence of `val` (none
      when it is absent) and keeps the routing invariant. */
  lemma {:induction false} RemoveOrdered(t: Tree, val: int)
    requires t.Node? && Ordered(t)
    ensures Ordered(Remove(t, val))
    ensures Keys(Remove(t, val)) == Keys(t) - multiset{val}
    decreases t, 1
  {
    if val < t.value {
      if t.left.Node? { RemoveLeftOrdered(t, val); }
      else { assert val !in Keys(t.right); }
    } else if val > t.value {
      if t.right.Node? { RemoveRightOrdered(t, val); }
    } else if t.left.Node? && t.right.Node? {
      RemoveSuccessorOrdered(t);
    }
  }

  lemma {:induction false} RemoveLeftOrdered(t: Tree, val: int)
    requires t.Node? && Ordered(t) && val < t.value && t.left.Node?
    ensures Ordered(Remove(t, val))
    ensures Keys(Remove(t, val)) == Keys(t) - multiset{val}
    decreases t, 0
  {
    RemoveOrdered(t.left, val);
    var l' := Remove(t.left, val);
    AllBelowSub(t.left, l', t.value);
    assert Remove(t, val) == Node(l', t.value, t.right);
    assert val !in Keys(t.right);
    KeysMinus(t.left, l', t.value, t.right, val);
  }

  lemma {:induction false} RemoveRightOrdered(t: Tree, val: int)
    requires t.Node? && Ordered(t) && val > t.value && t.right.Node?
    ensures Ordered(Remove(t, val))
    ensures Keys(Remove(t, val)) == Keys(t) - multiset{val}
    decreases t, 0
  {
    RemoveOrdered(t.right, val);
    var r' := Remove(t.right, val);
    AllAtLeastSub(t.right, r', t.value);
    assert Remove(t, val) == Node(t.left, t.value, r');
    assert val !in Keys(t.left);
    KeysMinus(t.right, r', t.value, t.left, val);
  }

  /** Removing `val` below one side of a node, when the node and the other
      side do not hold it, removes it from the whole node. */
  lemma KeysMinus(c: Tree, c': Tree, v: int, other: Tree, val: int)
    requires Keys(c') == Keys(c) - multiset{val} && val != v && val !in Keys(other)
    ensures Keys(Node(c', v, other)) == Keys(Node(c, v, other)) - multiset{val}
    ensures Keys(Node(other, v, c')) == Keys(Node(other, v, c)) - multiset{val}
  {
    var a, a' := Keys(c), Keys(c');
    var b, b' := multiset{v} + Keys(other), Keys(other) + multiset{v};
    assert val !in b && val !in b';
    MinusOutside(a, b, val);
    MinusOutside(a, b', val);
    assert a' + multiset{v} + Keys(other) == a' + b && a + multiset{v} + Keys(other) == a + b;
  }

  lemma MinusOutside(a: multiset<int>, b: multiset<int>, x: int)
    requires x !in b
    ensures (a - multiset{x}) + b == (a + b) - multiset{x}
    ensures b + (a - multiset{x}) == (b + a) - multiset{x}
  {
  }

  lemma {:induction false} RemoveSuccessorOrdered(t: Tree)
    requires t.Node? && Ordered(t) && t.left.Node? && t.right.Node?
    ensures Ordered(Remove(t, t.value))
    ensures Keys(Remove(t, t.value)) == Keys(t) - multiset{t.value}
    decreases t, 0
  {
    var m := LeftmostValue(t.right);
    LeftmostIsMinimum(t.right);
    RemoveOrdered(t.right, m);
    var r' := Remove(t.right, m);
    assert Remove(t, t.value) == Node(t.left, m, r');
    assert AllBelow(t.left, m);
    AllAtLeastSub(t.right, r', m);
    assert Keys(t.right) == multiset{m} + Keys(r');
  }

  lemma AllBelowSub(a: Tree, b: Tree, v: int)
    requires Keys(b) <= Keys(a) && AllBelow(a, v)
    ensures AllBelow(b, v)
  {
  }

  lemma AllAtLeastSub(a: Tree, b: Tree, v: int)
    requires Keys(b) <= Keys(a) && AllAtLeast(a, v)
    ensures AllAtLeast(b, v)
  {
  }

  /** The three shapes of removing the key a node holds: a leaf disappears,
      a node with one child is replaced by that child, and a node with two
      children keeps its place but takes its successor's value, the least
      key of its right subtree, of which one occurrence leaves that subtree. */
  lemma RemoveAtNode(t: Tree)
    requires t.Node? && Ordered(t)
    ensures t.left.Nil? && t.right.Nil? ==> Remove(t, t.value) == Nil
    ensures t.left.Nil? ==> Remove(t, t.value) == t.right
    ensures t.right.Nil? ==> Remove(t, t.value) == t.left
    ensures t.left.Node? && t.right.Node? ==>
      var r := Remove(t, t.value);
      && r.Node? && r.left == t.left
      && r.value in Keys(t.right)
      && (forall k | k in Keys(t.right) :: r.value <= k)
      && Keys(r.right) == Keys(t.right) - multiset{r.value}
  {
    if t.left.Node? && t.right.Node? {
      LeftmostIsMinimum(t.right);
      RemoveOrdered(t.right, LeftmostValue(t.right));
    }
  }

  /** `Node::height`: 0 for a null pointer, else one more than the taller child. */
  function Height(t: Tree): (h: nat)
    ensures h <= |Keys(t)|
    ensures t.Node? <==> h > 0
  {
    match t
    case Nil => 0
    case Node(l, _, r) => 1 + if Height(l) < Height(r) then Height(r) else Height(l)
  }

  /** Inserting the keys of `s` one by one, as the benchmark driver does. */
  function InsertAll(t: Tree, s: seq<int>): (r: Tree)
    requires t.Node?
    ensures r.Node? && Keys(r) == Keys(t) + multiset(s)
    decreases |s|
  {
    if s == [] then t
    else
      assert s == [s[0]] + s[1..];
      InsertAll(Insert(t, s[0]), s[1..])
  }

  /** A chain of nodes linked only through right children. */
  ghost predicate RightChain(t: Tree) {
    t.Node? && t.left.Nil? && (t.right.Nil? || RightChain(t.right))
  }

  ghost predicate StrictlyIncreasing(s: seq<int>) {
    forall i, j | 0 <= i < j < |s| :: s[i] < s[j]
  }

  /** A key larger than every key of a right chain is appended at its end. */
  lemma {:induction false} InsertAboveChain(t: Tree, k: int)
    requires RightChain(t) && AllBelow(t, k)
    ensures RightChain(Insert(t, k)) && Height(Insert(t, k)) == Height(t) + 1
  {
    assert t.value in Keys(t);
    var r' := InsertChild(t.right, k);
    if t.right.Node? {
      AllBelowSub(t, t.right, k);
      InsertAboveChain(t.right, k);
    }
    assert Insert(t, k) == Node(Nil, t.value, r');
  }

  lemma {:induction false} ChainHeight(t: Tree)
    requires RightChain(t)
    ensures Height(t) == |Keys(t)|
  {
    if t.right.Node? {
      ChainHeight(t.right);
    }
  }

  /** Worst case of the baseline: keys inserted in increasing order build a
      right-only chain whose height is the number of keys. */
  lemma {:induction false} IncreasingInsertsMakeChain(first: int, s: seq<int>)
    requires StrictlyIncreasing([first] + s)
    ensures RightChain(InsertAll(Leaf(first), s))
    ensures Height(InsertAll(Leaf(first), s)) == 1 + |s|
  {
    assert Keys(Leaf(first)) == multiset{first};
    forall i | 0 <= i < |s| ensures AllBelow(Leaf(first), s[i]) {
      assert first == ([first] + s)[0] && s[i] == ([first] + s)[i + 1];
    }
    assert StrictlyIncreasing(s) by {
      forall i, j | 0 <= i < j < |s| ensures s[i] < s[j] {
        assert s[i] == ([first] + s)[i + 1] && s[j] == ([first] + s)[j + 1];
      }
    }
    IncreasingChainFrom(Leaf(first), s);
  }

  lemma {:induction false} IncreasingChainFrom(t: Tree, s: seq<int>)
    requires RightChain(t) && StrictlyIncreasing(s)
    requires forall i | 0 <= i < |s| :: AllBelow(t, s[i])
    ensures RightChain(InsertAll(t, s)) && Height(InsertAll(t, s)) == Height(t) + |s|
    decreases |s|
  {
    if s != [] {
      InsertAboveChain(t, s[0]);
      var t' := Insert(t, s[0]);
      forall i | 0 <= i < |s[1..]| ensures AllBelow(t', s[1..][i]) {
        assert s[1..][i] == s[i + 1];
        assert AllBelow(t, s[i + 1]);
      }
      IncreasingChainFrom(t', s[1..]);
    }
  }
}
