/** The red-black tree's node store, as a value.

    The source keeps its nodes on the heap and links them by pointers: each
    node has a key, a colour and `left`, `right` and `parent` pointers, one
    shared black sentinel `TNULL` stands for every empty child, and the tree
    object holds `root` and `TNULL`. Here the nodes live in an arena of
    parallel sequences indexed by node number: index 0 is the sentinel and
    `NIL` (-1) is the null pointer, which only ever appears as the root's
    parent and as the sentinel's own children.

    A `Heap` is a snapshot of that arena together with three pieces of
    bookkeeping that the source does not store: `live` is the set of nodes
    currently in the tree, `elems[i]` is the in-order key sequence of the
    subtree rooted at `i`, and `bh[i]` is the number of black nodes on any
    path from `i` down to the sentinel, `i` included. All invariants are
    stated node by node, so an operation that touches a few nodes only has
    to re-establish them at those nodes. */
module RedBlackHeap {
  import opened Common

  datatype Color = Red | Black

  /** The sentinel's index. */
  const TNULL: int := 0
  /** The null pointer. */
  const NIL: int := -1

  datatype Heap = Heap(
    key: seq<int>, color: seq<Color>,
    left: seq<int>, right: seq<int>, parent: seq<int>,
    root: int,
    live: set<int>, elems: seq<seq<int>>, bh: seq<int>)

  /** 1 for a black node, 0 for a red one. */
  function Blk(c: Color): int {
    if c == Black then 1 else 0
  }

  ghost predicate Sized(h: Heap) {
    && |h.key| >= 1
    && |h.color| == |h.key| && |h.left| == |h.key| && |h.right| == |h.key|
    && |h.parent| == |h.key| && |h.elems| == |h.key| && |h.bh| == |h.key|
    && (forall i | i in h.live :: 0 < i < |h.key|)
  }

  /** What a child pointer of a live node may hold: the sentinel or a live node. */
  ghost predicate Slot(h: Heap, c: int) {
    c == TNULL || c in h.live
  }

  /** Pointer consistency at a live node: both children are the sentinel or
      live and point back to it, two real children are distinct, and the
      node is the root exactly when its parent is null; otherwise its
      parent is live and holds it as a child. */
  ghost predicate Linked(h: Heap, i: int)
    requires Sized(h) && i in h.live
  {
    var l, r, p := h.left[i], h.right[i], h.parent[i];
    && Slot(h, l) && Slot(h, r)
    && (l != TNULL ==> h.parent[l] == i)
    && (r != TNULL ==> h.parent[r] == i)
    && (l == r ==> l == TNULL)
    && (i == h.root <==> p == NIL)
    && (i != h.root ==> p in h.live && (h.left[p] == i || h.right[p] == i))
  }

  /** The in-order bookkeeping at a live node, and its order. */
  ghost predicate ElemsOk(h: Heap, i: int)
    requires Sized(h) && i in h.live && Slot(h, h.left[i]) && Slot(h, h.right[i])
  {
    && h.elems[i] == h.elems[h.left[i]] + [h.key[i]] + h.elems[h.right[i]]
    && Sorted(h.elems[i])
  }

  /** The structural invariant. The sentinel is black with null children,
      an empty key sequence and black height 0; an empty tree has no live
      nodes. Because a node's key sequence is strictly longer than each of
      its children's, the links cannot form a cycle. */
  ghost predicate WellFormed(h: Heap) {
    && Sized(h)
    && h.left[TNULL] == NIL && h.right[TNULL] == NIL
    && h.color[TNULL] == Black && h.elems[TNULL] == [] && h.bh[TNULL] == 0
    && (h.root == TNULL ==> h.live == {})
    && (h.root != TNULL ==> h.root in h.live)
    && (forall i {:trigger NodeOk(h, i)} | i in h.live :: NodeOk(h, i))
  }

  /** The node-local part of `WellFormed`. Quantifiers over the live nodes
      fire only on this predicate, not on set membership, so that unfolding
      one node's links does not drag in its neighbours. */
  ghost predicate NodeOk(h: Heap, i: int)
    requires Sized(h) && i in h.live
  {
    Linked(h, i) && ElemsOk(h, i)
  }

  /** No red node has a red child. */
  ghost predicate RedOk(h: Heap, i: int)
    requires WellFormed(h) && i in h.live
  {
    assert NodeOk(h, i);
    h.color[i] == Red ==> h.color[h.left[i]] == Black && h.color[h.right[i]] == Black
  }

  /** Both children have the same black height, the node's own being one
      more when it is black. */
  ghost predicate BhOk(h: Heap, i: int)
    requires WellFormed(h) && i in h.live
  {
    assert NodeOk(h, i);
    && h.bh[i] == h.bh[h.left[i]] + Blk(h.color[i])
    && h.bh[i] == h.bh[h.right[i]] + Blk(h.color[i])
  }

  /** The red-black properties: a black root, no red node with a red child,
      and the same number of black nodes on every path to the sentinel. */
  ghost predicate IsRedBlack(h: Heap) {
    && WellFormed(h)
    && h.color[h.root] == Black
    && (forall i {:trigger RedOk(h, i)} | i in h.live :: RedOk(h, i))
    && (forall i {:trigger BhOk(h, i)} | i in h.live :: BhOk(h, i))
  }

  /** The keys stored in the tree, in order. */
  ghost function Contents(h: Heap): seq<int>
    requires WellFormed(h)
  {
    h.elems[h.root]
  }

  /** The links of one live node, without its key sequence; no node is
      its own child or parent. */
  lemma LinkedAt(h: Heap, i: int)
    requires WellFormed(h) && i in h.live
    ensures Linked(h, i) && h.left[i] != i && h.right[i] != i && h.parent[i] != i
  {
    assert NodeOk(h, i);
    if i != h.root {
      assert NodeOk(h, h.parent[i]);
    }
  }

  /** Colours and black heights of live nodes play no part in `WellFormed`. */
  lemma RecolouredWellFormed(h: Heap, h': Heap)
    requires WellFormed(h) && h' == h.(color := h'.color, bh := h'.bh)
    requires |h'.color| == |h.color| && |h'.bh| == |h.bh|
    requires h'.color[TNULL] == Black && h'.bh[TNULL] == 0
    ensures WellFormed(h')
  {
    forall i | i in h'.live ensures NodeOk(h', i) {
      assert NodeOk(h, i);
    }
  }

  /** `i->color = BLACK`; a red node's black height grows by one. */
  ghost function Blacken(h: Heap, i: int): Heap
    requires Sized(h) && 0 <= i < |h.key|
  {
    h.(color := h.color[i := Black], bh := h.bh[i := h.bh[i] + 1 - Blk(h.color[i])])
  }

  /** Node `i` looks the same in `h` and `h'` as far as the red-black
      rules at `i` are concerned. */
  ghost predicate SameAt(h: Heap, h': Heap, i: int)
    requires WellFormed(h) && WellFormed(h') && |h'.key| == |h.key| && i in h.live
  {
    assert NodeOk(h, i);
    && h'.left[i] == h.left[i] && h'.right[i] == h.right[i]
    && h'.color[i] == h.color[i] && h'.bh[i] == h.bh[i]
    && h'.color[h.left[i]] == h.color[h.left[i]] && h'.bh[h.left[i]] == h.bh[h.left[i]]
    && h'.color[h.right[i]] == h.color[h.right[i]] && h'.bh[h.right[i]] == h.bh[h.right[i]]
  }

  lemma SameAtRules(h: Heap, h': Heap, i: int)
    requires WellFormed(h) && WellFormed(h') && |h'.key| == |h.key|
    requires i in h.live && i in h'.live && SameAt(h, h', i)
    ensures RedOk(h', i) == RedOk(h, i) && BhOk(h', i) == BhOk(h, i)
  {
  }

  /** A live node's key sequence is part of the root's: following parent
      links the sequences only grow. */
  lemma ElemsBound(h: Heap, i: int)
    requires WellFormed(h) && i in h.live
    ensures |h.elems[i]| <= |h.elems[h.root]|
    decreases Larger(h, i)
  {
    if i != h.root {
      assert NodeOk(h, i);
      var p := h.parent[i];
      assert NodeOk(h, p);
      assert p in Larger(h, i) && p !in Larger(h, p);
      ElemsBound(h, p);
    }
  }

  /** The live nodes whose key sequence is longer than `i`'s. */
  ghost function Larger(h: Heap, i: int): set<int>
    requires Sized(h) && i in h.live
  {
    set j | j in h.live && |h.elems[j]| > |h.elems[i]|
  }

  /** `leftRotate(pt, pt->parent)` as a function of the arena: `y`, the
      right child of `x`, takes `x`'s place under `x`'s parent (or as the
      root), `y`'s left subtree becomes `x`'s right subtree, and `x` becomes
      `y`'s left child. The sentinel's parent is not written. */
  ghost function LeftRotated(h: Heap, x: int): (h': Heap)
    requires WellFormed(h) && x in h.live && h.right[x] in h.live
    ensures Sized(h') && h'.live == h.live
    ensures h'.key == h.key && h'.color == h.color && h'.bh == h.bh
  {
    assert NodeOk(h, x) && NodeOk(h, h.right[x]);
    var y := h.right[x];
    var b := h.left[y];
    var p := h.parent[x];
    var right1 := h.right[x := b];
    var parent1 := if b != TNULL then h.parent[b := x] else h.parent;
    var parent2 := parent1[y := p];
    var root1 := if x == h.root then y else h.root;
    var left1 := if x != h.root && x == h.left[p] then h.left[p := y] else h.left;
    var right2 := if x != h.root && x != h.left[p] then right1[p := y] else right1;
    var left2 := left1[y := x];
    var parent3 := parent2[x := y];
    var elemsX := h.elems[h.left[x]] + [h.key[x]] + h.elems[b];
    h.(left := left2, right := right2, parent := parent3, root := root1,
       elems := h.elems[x := elemsX][y := h.elems[x]])
  }

  /** `rightRotate(pt, pt->parent)`: the mirror image of `LeftRotated`. */
  ghost function RightRotated(h: Heap, x: int): (h': Heap)
    requires WellFormed(h) && x in h.live && h.left[x] in h.live
    ensures Sized(h') && h'.live == h.live
    ensures h'.key == h.key && h'.color == h.color && h'.bh == h.bh
  {
    assert NodeOk(h, x) && NodeOk(h, h.left[x]);
    var y := h.left[x];
    var b := h.right[y];
    var p := h.parent[x];
    var left1 := h.left[x := b];
    var parent1 := if b != TNULL then h.parent[b := x] else h.parent;
    var parent2 := parent1[y := p];
    var root1 := if x == h.root then y else h.root;
    var left2 := if x != h.root && x == h.left[p] then left1[p := y] else left1;
    var right1 := if x != h.root && x != h.left[p] then h.right[p := y] else h.right;
    var right2 := right1[y := x];
    var parent3 := parent2[x := y];
    var elemsX := h.elems[b] + [h.key[x]] + h.elems[h.right[x]];
    h.(left := left2, right := right2, parent := parent3, root := root1,
       elems := h.elems[x := elemsX][y := h.elems[x]])
  }

  /** A rotation keeps the arena well formed and the tree's key sequence
      unchanged; keys, colours and the set of nodes are untouched. */
  lemma LeftRotatedWellFormed(h: Heap, x: int)
    requires WellFormed(h) && x in h.live && h.right[x] in h.live
    ensures WellFormed(LeftRotated(h, x))
    ensures Contents(LeftRotated(h, x)) == Contents(h)
  {
    var h' := LeftRotated(h, x);
    assert h'.left[TNULL] == NIL && h'.right[TNULL] == NIL && h'.elems[TNULL] == [] by {
      assert NodeOk(h, x);
      LeftRotatedFrame(h, x, TNULL);
    }
    assert h'.root in h'.live && h'.elems[h'.root] == h.elems[h.root] by {
      assert NodeOk(h, x) && NodeOk(h, h.right[x]);
      if x != h.root {
        assert NodeOk(h, h.parent[x]);
        LeftRotatedFrame(h, x, h.root);
      }
    }
    forall i | i in h'.live ensures NodeOk(h', i) {
      LeftRotatedNode(h, x, i);
    }
  }

  lemma LeftRotatedNode(h: Heap, x: int, i: int)
    requires WellFormed(h) && x in h.live && h.right[x] in h.live && i in h.live
    ensures NodeOk(LeftRotated(h, x), i)
  {
    var y, b, p := h.right[x], h.left[h.right[x]], h.parent[x];
    assert NodeOk(h, x) && NodeOk(h, y);
    if i == x {
      LeftRotatedPivot(h, x);
    } else if i == y {
      LeftRotatedRiser(h, x);
    } else if i == b {
      LeftRotatedInner(h, x);
    } else if i == p {
      LeftRotatedAbove(h, x);
    } else {
      LeftRotatedOther(h, x, i);
    }
  }

  /** Facts about a left rotation's nodes that follow from the key sequences
      getting strictly longer towards the root: the pivot `x`, its right
      child `y`, `y`'s left child `b` and `x`'s parent are all different. */
  lemma LeftRotatedDistinct(h: Heap, x: int)
    requires WellFormed(h) && x in h.live && h.right[x] in h.live
    ensures var y, b, p := h.right[x], h.left[h.right[x]], h.parent[x];
      && NodeOk(h, x) && NodeOk(h, y)
      && |h.elems[y]| < |h.elems[x]| && |h.elems[b]| < |h.elems[y]|
      && y != x && b != x && b != y && h.right[y] != x
      && (x != h.root ==> NodeOk(h, p) && |h.elems[x]| < |h.elems[p]| && p != y && p != b)
  {
    var y := h.right[x];
    assert NodeOk(h, x) && NodeOk(h, y);
    if x != h.root {
      assert NodeOk(h, h.parent[x]);
    }
  }

  lemma LeftRotatedPivot(h: Heap, x: int)
    requires WellFormed(h) && x in h.live && h.right[x] in h.live
    ensures NodeOk(LeftRotated(h, x), x)
  {
    var h' := LeftRotated(h, x);
    var y, b := h.right[x], h.left[h.right[x]];
    LeftRotatedDistinct(h, x);
    var a := h.left[x];
    assert h'.left[x] == a && h'.right[x] == b && h'.parent[x] == y && h'.root != x;
    assert h'.left[y] == x;
    if a != TNULL {
      assert NodeOk(h, a);
      assert h'.parent[a] == x;
    }
    if b != TNULL {
      assert NodeOk(h, b);
      assert h'.parent[b] == x;
    }
    assert h'.elems[a] == h.elems[a] && h'.elems[b] == h.elems[b];
    assert h'.elems[x] == h.elems[a] + [h.key[x]] + h.elems[b];
    SortedRotate(h.elems[a], h.key[x], h.elems[b], h.key[y], h.elems[h.right[y]]);
  }

  lemma LeftRotatedRiser(h: Heap, x: int)
    requires WellFormed(h) && x in h.live && h.right[x] in h.live
    ensures NodeOk(LeftRotated(h, x), h.right[x])
  {
    var h' := LeftRotated(h, x);
    var y, b := h.right[x], h.left[h.right[x]];
    LeftRotatedDistinct(h, x);
    var c := h.right[y];
    if c != TNULL {
      assert NodeOk(h, c);
    }
    assert h'.elems[y] == h'.elems[x] + [h.key[y]] + h'.elems[c];
  }

  lemma LeftRotatedInner(h: Heap, x: int)
    requires WellFormed(h) && x in h.live && h.right[x] in h.live
    requires h.left[h.right[x]] in h.live
    ensures NodeOk(LeftRotated(h, x), h.left[h.right[x]])
  {
    var h' := LeftRotated(h, x);
    var y, b := h.right[x], h.left[h.right[x]];
    LeftRotatedDistinct(h, x);
    assert NodeOk(h, b);
    var l, r := h.left[b], h.right[b];
    if l != TNULL {
      assert NodeOk(h, l);
    }
    if r != TNULL {
      assert NodeOk(h, r);
    }
  }

  lemma LeftRotatedAbove(h: Heap, x: int)
    requires WellFormed(h) && x in h.live && h.right[x] in h.live && h.parent[x] in h.live
    ensures NodeOk(LeftRotated(h, x), h.parent[x])
  {
    var h' := LeftRotated(h, x);
    var y, b, p := h.right[x], h.left[h.right[x]], h.parent[x];
    LeftRotatedDistinct(h, x);
    var s := if h.left[p] == x then h.right[p] else h.left[p];
    if s != TNULL {
      assert NodeOk(h, s);
    }
    if p != h.root {
      assert NodeOk(h, h.parent[p]);
    }
  }

  /** A sorted sequence seen as `a x (b y c)` is also sorted as `a x b`:
      the key sequence of the lower node after a rotation. */
  lemma SortedRotate(a: seq<int>, kx: int, b: seq<int>, ky: int, c: seq<int>)
    requires Sorted(a + [kx] + (b + [ky] + c))
    ensures Sorted(a + [kx] + b) && Sorted(b + [ky] + c)
    ensures a + [kx] + (b + [ky] + c) == (a + [kx] + b) + [ky] + c
  {
    var s := a + [kx] + (b + [ky] + c);
    assert s == (a + [kx] + b) + [ky] + c;
    SortedSplit(a + [kx] + b, ky, c);
    SortedSplit(a, kx, b + [ky] + c);
  }

  /** The mirror image of `SortedRotate`. */
  lemma SortedRotateBack(a: seq<int>, ky: int, b: seq<int>, kx: int, c: seq<int>)
    requires Sorted((a + [ky] + b) + [kx] + c)
    ensures Sorted(b + [kx] + c) && Sorted(a + [ky] + b)
    ensures (a + [ky] + b) + [kx] + c == a + [ky] + (b + [kx] + c)
  {
    var s := (a + [ky] + b) + [kx] + c;
    assert s == a + [ky] + (b + [kx] + c);
    SortedSplit(a, ky, b + [kx] + c);
    SortedSplit(a + [ky] + b, kx, c);
  }

  /** A node other than the pivot, its child and its parent keeps its
      links and its key sequence through a left rotation. */
  lemma LeftRotatedOther(h: Heap, x: int, i: int)
    requires WellFormed(h) && x in h.live && h.right[x] in h.live
    requires i in h.live && i != x && i != h.right[x] && i != h.parent[x]
    requires i != h.left[h.right[x]]
    ensures NodeOk(LeftRotated(h, x), i)
  {
    var h' := LeftRotated(h, x);
    var y, b, p := h.right[x], h.left[h.right[x]], h.parent[x];
    assert NodeOk(h, i) && NodeOk(h, x) && NodeOk(h, y);
    var l, r := h.left[i], h.right[i];
    LeftRotatedFrame(h, x, i);
    assert l != x && l != y && r != x && r != y;
    if l != TNULL {
      assert l != b;
      LeftRotatedFrame(h, x, l);
    }
    if r != TNULL {
      assert r != b;
      LeftRotatedFrame(h, x, r);
    }
    if i != h.root {
      var q := h.parent[i];
      assert NodeOk(h, q);
      if q != p && q != x && q != y {
        LeftRotatedFrame(h, x, q);
      }
    }
  }

  /** What a left rotation leaves alone. */
  lemma LeftRotatedFrame(h: Heap, x: int, j: int)
    requires WellFormed(h) && x in h.live && h.right[x] in h.live && 0 <= j < |h.key|
    ensures j != x && j != h.right[x] && j != h.parent[x] ==> LeftRotated(h, x).left[j] == h.left[j]
    ensures j != x && j != h.right[x] && j != h.parent[x] ==> LeftRotated(h, x).right[j] == h.right[j]
    ensures j != x && j != h.right[x] && j != h.left[h.right[x]] ==> LeftRotated(h, x).parent[j] == h.parent[j]
    ensures j != x && j != h.right[x] ==> LeftRotated(h, x).elems[j] == h.elems[j]
  {
    assert NodeOk(h, x) && NodeOk(h, h.right[x]);
  }

  /** The same for a right rotation. */
  lemma RightRotatedWellFormed(h: Heap, x: int)
    requires WellFormed(h) && x in h.live && h.left[x] in h.live
    ensures WellFormed(RightRotated(h, x))
    ensures Contents(RightRotated(h, x)) == Contents(h)
  {
    var h' := RightRotated(h, x);
    assert h'.right[TNULL] == NIL && h'.left[TNULL] == NIL && h'.elems[TNULL] == [] by {
      assert NodeOk(h, x);
      RightRotatedFrame(h, x, TNULL);
    }
    assert h'.root in h'.live && h'.elems[h'.root] == h.elems[h.root] by {
      assert NodeOk(h, x) && NodeOk(h, h.left[x]);
      if x != h.root {
        assert NodeOk(h, h.parent[x]);
        RightRotatedFrame(h, x, h.root);
      }
    }
    forall i | i in h'.live ensures NodeOk(h', i) {
      RightRotatedNode(h, x, i);
    }
  }

  lemma RightRotatedNode(h: Heap, x: int, i: int)
    requires WellFormed(h) && x in h.live && h.left[x] in h.live && i in h.live
    ensures NodeOk(RightRotated(h, x), i)
  {
    var y, b, p := h.left[x], h.right[h.left[x]], h.parent[x];
    assert NodeOk(h, x) && NodeOk(h, y);
    if i == x {
      RightRotatedPivot(h, x);
    } else if i == y {
      RightRotatedRiser(h, x);
    } else if i == b {
      RightRotatedInner(h, x);
    } else if i == p {
      RightRotatedAbove(h, x);
    } else {
      RightRotatedOther(h, x, i);
    }
  }

  /** Facts about a right rotation's nodes that follow from the key sequences
      getting strictly longer towards the root: the pivot `x`, its left
      child `y`, `y`'s right child `b` and `x`'s parent are all different. */
  lemma RightRotatedDistinct(h: Heap, x: int)
    requires WellFormed(h) && x in h.live && h.left[x] in h.live
    ensures var y, b, p := h.left[x], h.right[h.left[x]], h.parent[x];
      && NodeOk(h, x) && NodeOk(h, y)
      && |h.elems[y]| < |h.elems[x]| && |h.elems[b]| < |h.elems[y]|
      && y != x && b != x && b != y && h.left[y] != x
      && (x != h.root ==> NodeOk(h, p) && |h.elems[x]| < |h.elems[p]| && p != y && p != b)
  {
    var y := h.left[x];
    assert NodeOk(h, x) && NodeOk(h, y);
    if x != h.root {
      assert NodeOk(h, h.parent[x]);
    }
  }

  lemma RightRotatedPivot(h: Heap, x: int)
    requires WellFormed(h) && x in h.live && h.left[x] in h.live
    ensures NodeOk(RightRotated(h, x), x)
  {
    var h' := RightRotated(h, x);
    var y, b := h.left[x], h.right[h.left[x]];
    RightRotatedDistinct(h, x);
    var a := h.right[x];
    assert h'.right[x] == a && h'.left[x] == b && h'.parent[x] == y && h'.root != x;
    assert h'.right[y] == x;
    if a != TNULL {
      assert NodeOk(h, a);
      assert h'.parent[a] == x;
    }
    if b != TNULL {
      assert NodeOk(h, b);
      assert h'.parent[b] == x;
    }
    assert h'.elems[a] == h.elems[a] && h'.elems[b] == h.elems[b];
    assert h'.elems[x] == h.elems[b] + [h.key[x]] + h.elems[a];
    SortedRotateBack(h.elems[h.left[y]], h.key[y], h.elems[b], h.key[x], h.elems[a]);
  }

  lemma RightRotatedRiser(h: Heap, x: int)
    requires WellFormed(h) && x in h.live && h.left[x] in h.live
    ensures NodeOk(RightRotated(h, x), h.left[x])
  {
    var h' := RightRotated(h, x);
    var y, b := h.left[x], h.right[h.left[x]];
    RightRotatedDistinct(h, x);
    var c := h.left[y];
    if c != TNULL {
      assert NodeOk(h, c);
    }
    assert h'.elems[y] == h'.elems[c] + [h.key[y]] + h'.elems[x];
  }

  lemma RightRotatedInner(h: Heap, x: int)
    requires WellFormed(h) && x in h.live && h.left[x] in h.live
    requires h.right[h.left[x]] in h.live
    ensures NodeOk(RightRotated(h, x), h.right[h.left[x]])
  {
    var h' := RightRotated(h, x);
    var y, b := h.left[x], h.right[h.left[x]];
    RightRotatedDistinct(h, x);
    assert NodeOk(h, b);
    var l, r := h.right[b], h.left[b];
    if l != TNULL {
      assert NodeOk(h, l);
    }
    if r != TNULL {
      assert NodeOk(h, r);
    }
  }

  lemma RightRotatedAbove(h: Heap, x: int)
    requires WellFormed(h) && x in h.live && h.left[x] in h.live && h.parent[x] in h.live
    ensures NodeOk(RightRotated(h, x), h.parent[x])
  {
    var h' := RightRotated(h, x);
    var y, b, p := h.left[x], h.right[h.left[x]], h.parent[x];
    RightRotatedDistinct(h, x);
    var s := if h.right[p] == x then h.left[p] else h.right[p];
    if s != TNULL {
      assert NodeOk(h, s);
    }
    if p != h.root {
      assert NodeOk(h, h.parent[p]);
    }
  }

  lemma RightRotatedOther(h: Heap, x: int, i: int)
    requires WellFormed(h) && x in h.live && h.left[x] in h.live
    requires i in h.live && i != x && i != h.left[x] && i != h.parent[x]
    requires i != h.right[h.left[x]]
    ensures NodeOk(RightRotated(h, x), i)
  {
    var h' := RightRotated(h, x);
    var y, b, p := h.left[x], h.right[h.left[x]], h.parent[x];
    assert NodeOk(h, i) && NodeOk(h, x) && NodeOk(h, y);
    var l, r := h.right[i], h.left[i];
    RightRotatedFrame(h, x, i);
    assert l != x && l != y && r != x && r != y;
    if l != TNULL {
      assert l != b;
      RightRotatedFrame(h, x, l);
    }
    if r != TNULL {
      assert r != b;
      RightRotatedFrame(h, x, r);
    }
    if i != h.root {
      var q := h.parent[i];
      assert NodeOk(h, q);
      if q != p && q != x && q != y {
        RightRotatedFrame(h, x, q);
      }
    }
  }

  /** What a right rotation leaves alone. */
  lemma RightRotatedFrame(h: Heap, x: int, j: int)
    requires WellFormed(h) && x in h.live && h.left[x] in h.live && 0 <= j < |h.key|
    ensures j != x && j != h.left[x] && j != h.parent[x] ==> RightRotated(h, x).right[j] == h.right[j]
    ensures j != x && j != h.left[x] && j != h.parent[x] ==> RightRotated(h, x).left[j] == h.left[j]
    ensures j != x && j != h.left[x] && j != h.right[h.left[x]] ==> RightRotated(h, x).parent[j] == h.parent[j]
    ensures j != x && j != h.left[x] ==> RightRotated(h, x).elems[j] == h.elems[j]
  {
    assert NodeOk(h, x) && NodeOk(h, h.left[x]);
  }
  /** Two to the power `n`, for `n` at least 0. */
  function Pow2(n: int): (r: int)
    ensures r >= 1
  {
    if n <= 0 then 1 else 2 * Pow2(n - 1)
  }

  lemma {:induction false} Pow2Monotone(a: int, b: int)
    requires 0 <= a <= b
    ensures Pow2(a) <= Pow2(b)
    decreases b
  {
    if a < b {
      Pow2Monotone(a, b - 1);
    }
  }

  /** A subtree of black height `b` holds at least `2^b - 1` keys: every
      path from its root down crosses `b` black nodes, so the black nodes
      alone fill a perfect tree of that height. */
  lemma {:induction false} BlackHeightSize(h: Heap, i: int)
    requires IsRedBlack(h) && Slot(h, i)
    ensures h.bh[i] >= 0 && Pow2(h.bh[i]) <= |h.elems[i]| + 1
    decreases |h.elems[i]|
  {
    if i != TNULL {
      assert NodeOk(h, i) && BhOk(h, i);
      var l, r := h.left[i], h.right[i];
      BlackHeightSize(h, l);
      BlackHeightSize(h, r);
    }
  }

  /** A red-black tree of height `ht` (at most twice its black height, as
      `getHeight` shows) holds at least `2^(ht/2) - 1` keys: its height is
      logarithmic in its size. */
  lemma LogarithmicHeight(h: Heap, ht: int)
    requires IsRedBlack(h) && 0 <= ht <= 2 * h.bh[h.root]
    ensures Pow2(ht / 2) <= |Contents(h)| + 1
  {
    BlackHeightSize(h, h.root);
    Pow2Monotone(ht / 2, h.bh[h.root]);
  }
}
