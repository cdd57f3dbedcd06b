/** The red-black tree of `RB.cpp` as a class whose fields the operations
    update in place. The node store is a set of parallel sequences indexed
    by node number (see `RedBlackHeap`); the ghost fields carry the
    bookkeeping the proofs need and `Snap` packs everything into a `Heap`
    value, so that each method can be stated against the pure functions and
    lemmas of the other modules. */
module RedBlack {
  import opened Common
  import opened RedBlackHeap
  import opened RedBlackInsertFix
  import opened RedBlackInsert
  import opened RedBlackDeleteFix
  import opened RedBlackDelete
  import opened RedBlackRelink

  class RedBlackTree {
    var key: seq<int>
    var color: seq<Color>
    var left: seq<int>
    var right: seq<int>
    var parent: seq<int>
    var root: int
    ghost var live: set<int>
    ghost var elems: seq<seq<int>>
    ghost var bh: seq<int>

    /** The whole state as a value. */
    ghost function Snap(): Heap
      reads this
    {
      Heap(key, color, left, right, parent, root, live, elems, bh)
    }

    /** The tree is red-black. */
    ghost predicate Valid()
      reads this
    {
      IsRedBlack(Snap())
    }

    /** The keys in the tree, in order. */
    ghost function Keys(): seq<int>
      reads this
      requires WellFormed(Snap())
    {
      Contents(Snap())
    }

    /** An empty tree: only the black sentinel, which is also the root. */
    constructor()
      ensures Valid() && Keys() == [] && live == {}
    {
      key := [0];
      color := [Black];
      left := [NIL];
      right := [NIL];
      parent := [NIL];
      root := TNULL;
      live := {};
      elems := [[]];
      bh := [0];
    }

    /** `leftRotate(pt, ppt)`, called with `ppt` the parent of `pt`. */
    method LeftRotate(pt: int, ppt: int)
      requires WellFormed(Snap()) && pt in live && right[pt] in live && ppt == parent[pt]
      modifies this
      ensures Snap() == LeftRotated(old(Snap()), pt)
    {
      ghost var h := Snap();
      LinkedAt(h, pt);
      LinkedAt(h, right[pt]);
      if pt != root {
        LinkedAt(h, ppt);
      }
      var y := right[pt];
      right := right[pt := left[y]];
      if left[y] != TNULL {
        parent := parent[left[y] := pt];
      }
      parent := parent[y := ppt];
      if pt == root {
        root := y;
      } else if pt == left[ppt] {
        left := left[ppt := y];
      } else {
        right := right[ppt := y];
      }
      left := left[y := pt];
      parent := parent[pt := y];
      elems := elems[pt := h.elems[h.left[pt]] + [key[pt]] + h.elems[h.left[y]]][y := h.elems[pt]];
    }

    /** `rightRotate(pt, ppt)`, called with `ppt` the parent of `pt`. */
    method RightRotate(pt: int, ppt: int)
      requires WellFormed(Snap()) && pt in live && left[pt] in live && ppt == parent[pt]
      modifies this
      ensures Snap() == RightRotated(old(Snap()), pt)
    {
      ghost var h := Snap();
      LinkedAt(h, pt);
      LinkedAt(h, left[pt]);
      if pt != root {
        LinkedAt(h, ppt);
      }
      var y := left[pt];
      left := left[pt := right[y]];
      if right[y] != TNULL {
        parent := parent[right[y] := pt];
      }
      parent := parent[y := ppt];
      if pt == root {
        root := y;
      } else if pt == left[ppt] {
        left := left[ppt := y];
      } else {
        right := right[ppt := y];
      }
      right := right[y := pt];
      parent := parent[pt := y];
      elems := elems[pt := h.elems[h.right[y]] + [key[pt]] + h.elems[h.right[pt]]][y := h.elems[pt]];
    }

    /** The red-uncle recolouring: `g` red, `p` and `u` black. */
    method Recolour(g: int, p: int, u: int)
      requires Sized(Snap()) && 0 <= g < |key| && 0 <= p < |key| && 0 <= u < |key| && p != u
      modifies this
      ensures Snap() == RecolourUp(old(Snap()), g, p, u)
    {
      color := color[g := Red];
      color := color[p := Black];
      bh := bh[p := bh[p] + 1];
      color := color[u := Black];
      bh := bh[u := bh[u] + 1];
    }

    /** `std::swap(a->color, b->color)`. */
    method SwapColour(a: int, b: int)
      requires Sized(Snap()) && 0 <= a < |key| && 0 <= b < |key|
      modifies this
      ensures Snap() == SwapColours(old(Snap()), a, b)
    {
      color := color[a := color[b]][b := color[a]];
      bh := bh[a := bh[b]][b := bh[a]];
    }

    /** One pass of the `fixInsert` loop when `pt`'s parent is a left
        child: recolour and move up, or rotate once or twice and stop. */
    method FixInsertLeft(pt0: int) returns (pt: int)
      requires InsertFixing(Snap(), pt0) && Violated(Snap(), pt0)
      requires var h := Snap(); NodeOk(h, pt0) && h.parent[pt0] in h.live && h.parent[h.parent[pt0]] in h.live
      requires var h := Snap(); h.parent[pt0] == h.left[h.parent[h.parent[pt0]]]
      modifies this
      ensures InsertFixing(Snap(), pt) && NodeOk(Snap(), pt)
      ensures key == old(key) && live == old(live) && Keys() == old(Keys())
      ensures |old(elems)[pt0]| < |elems[pt]|
    {
      ghost var h := Snap();
      Family(h, pt0);
      pt := pt0;
      var parentPt := parent[pt];
      var grandParentPt := parent[parent[pt]];
      var unclePt := right[grandParentPt];
      if unclePt != TNULL && color[unclePt] == Red {
        FixInsertRecolour(h, pt, parentPt, grandParentPt, unclePt);
        Recolour(grandParentPt, parentPt, unclePt);
        pt := grandParentPt;
      } else {
        if pt == right[parentPt] {
          FixInsertLeftZig(h, pt, parentPt, grandParentPt);
          LeftRotate(parentPt, grandParentPt);
          pt := parentPt;
          parentPt := parent[pt];
        }
        ghost var h1 := Snap();
        FixInsertLeftLine(h1, pt, parentPt, grandParentPt, unclePt);
        RightRotate(grandParentPt, parent[grandParentPt]);
        SwapColour(parentPt, grandParentPt);
        pt := parentPt;
      }
      assert NodeOk(Snap(), pt);
    }

    /** The mirror image of `FixInsertLeft`, for a parent that is a right
        child. */
    method FixInsertRight(pt0: int) returns (pt: int)
      requires InsertFixing(Snap(), pt0) && Violated(Snap(), pt0)
      requires var h := Snap(); NodeOk(h, pt0) && h.parent[pt0] in h.live && h.parent[h.parent[pt0]] in h.live
      requires var h := Snap(); h.parent[pt0] != h.left[h.parent[h.parent[pt0]]]
      modifies this
      ensures InsertFixing(Snap(), pt) && NodeOk(Snap(), pt)
      ensures key == old(key) && live == old(live) && Keys() == old(Keys())
      ensures |old(elems)[pt0]| < |elems[pt]|
    {
      ghost var h := Snap();
      Family(h, pt0);
      pt := pt0;
      var parentPt := parent[pt];
      var grandParentPt := parent[parent[pt]];
      var unclePt := left[grandParentPt];
      if unclePt != TNULL && color[unclePt] == Red {
        FixInsertRecolour(h, pt, parentPt, grandParentPt, unclePt);
        Recolour(grandParentPt, parentPt, unclePt);
        pt := grandParentPt;
      } else {
        if pt == left[parentPt] {
          FixInsertRightZig(h, pt, parentPt, grandParentPt);
          RightRotate(parentPt, grandParentPt);
          pt := parentPt;
          parentPt := parent[pt];
        }
        ghost var h1 := Snap();
        FixInsertRightLine(h1, pt, parentPt, grandParentPt, unclePt);
        LeftRotate(grandParentPt, parent[grandParentPt]);
        SwapColour(parentPt, grandParentPt);
        pt := parentPt;
      }
      assert NodeOk(Snap(), pt);
    }

    /** `fixInsert(pt)`: from a tree that is red-black except that `pt`
        may be a red child of a red parent (or a red root), restore the
        red-black properties by recolouring and rotating, without changing
        the keys or the set of nodes. */
    method FixInsert(pt0: int)
      requires InsertFixing(Snap(), pt0)
      modifies this
      ensures Valid()
      ensures key == old(key) && live == old(live) && Keys() == old(Keys())
    {
      var pt := pt0;
      assert NodeOk(Snap(), pt);
      while pt != root && color[pt] != Black && color[parent[pt]] == Red
        invariant InsertFixing(Snap(), pt) && NodeOk(Snap(), pt)
        invariant key == old(key) && live == old(live) && Keys() == old(Keys())
        decreases |elems[root]| - |elems[pt]|
      {
        ElemsBound(Snap(), pt);
        Family(Snap(), pt);
        if parent[pt] == left[parent[parent[pt]]] {
          pt := FixInsertLeft(pt);
        } else {
          pt := FixInsertRight(pt);
        }
        assert NodeOk(Snap(), pt);
      }
      FixInsertDone(Snap(), pt);
      bh := bh[root := bh[root] + 1 - Blk(color[root])];
      color := color[root := Black];
    }

    /** The search loop of `insert`: walk down from the root, left for a
        key smaller than the node's and right otherwise, to the last node
        `y` before the sentinel (null for an empty tree). Along the way the
        key sequences of the nodes passed take in the new key. */
    method FindParent(k: int) returns (y: int)
      requires WellFormed(Snap())
      modifies this`elems
      ensures |elems| == old(|elems|)
      ensures forall i | 0 <= i < |elems| && i !in live :: elems[i] == old(elems[i])
      ensures Descending(Snap(), k, y) && (y != NIL ==> y in live)
      ensures y == NIL ==> root == TNULL && elems == old(elems)
      ensures y != NIL ==> Next(Snap(), y, k) == TNULL
      ensures y != NIL ==> elems[root] == InsertSorted(old(elems[root]), k)
    {
      ghost var h0 := Snap();
      ghost var g := h0;
      y := NIL;
      var x := root;
      while x != TNULL
        invariant Snap() == h0 && Descent(h0, g, k, y, x)
        decreases |h0.elems[x]|
      {
        g := DescentMove(h0, g, k, y, x);
        y := x;
        if k < key[x] {
          x := left[x];
        } else {
          x := right[x];
        }
      }
      elems := g.elems;
    }

    /** `insert(key)`: a new red node is hung below the last node of the
        search path (left for a smaller key, right otherwise) and the tree
        is repaired. The result is a red-black tree holding the old keys
        and the new one, with one more node. */
    method Insert(k: int)
      requires Valid()
      modifies this
      ensures Valid()
      ensures Keys() == InsertSorted(old(Keys()), k)
      ensures live == old(live) + {old(|key|)} && key == old(key) + [k]
    {
      ghost var h := Snap();
      AllocatedRedBlack(h, k);
      var pt := NewNode(k);
      ghost var h0 := Snap();
      var y := FindParent(k);
      ghost var hd := Snap();
      assert hd.(elems := h0.elems) == h0;
      Link(pt, y);
      if y == NIL {
        AttachRoot(h0, k, pt);
      } else {
        AttachChild(h0, hd, k, y, pt);
      }
      if parent[pt] == NIL {
        color := color[pt := Black];
        bh := bh[pt := 1];
        return;
      }
      if parent[parent[pt]] == NIL {
        FixInsertDone(Snap(), pt);
        return;
      }
      FixInsert(pt);
    }

    /** `new Node(key)` with `TNULL` children: a red node outside the tree. */
    method NewNode(k: int) returns (pt: int)
      modifies this
      ensures Snap() == Allocated(old(Snap()), k) && pt == old(|key|)
    {
      pt := |key|;
      key := key + [k];
      color := color + [Red];
      left := left + [TNULL];
      right := right + [TNULL];
      parent := parent + [NIL];
      elems := elems + [[k]];
      bh := bh + [0];
    }

    /** The new node `pt` is linked below `y`, or as the root when `y` is
        null. */
    method Link(pt: int, y: int)
      requires Sized(Snap()) && (y == NIL || 0 <= y < |key|) && 0 <= pt < |key|
      modifies this
      ensures Snap() == Attached(old(Snap()), y, pt)
    {
      parent := parent[pt := y];
      if y == NIL {
        root := pt;
      } else if key[pt] < key[y] {
        left := left[y := pt];
      } else {
        right := right[y := pt];
      }
      live := live + {pt};
    }

    /** Two colour writes: `a` takes colour `ca` and `b` colour `cb`;
        their black heights are traded. */
    method Repaint(a: int, b: int, ca: Color, cb: Color)
      requires Sized(Snap()) && 0 <= a < |key| && 0 <= b < |key|
      modifies this
      ensures Snap() == Exchange(old(Snap()), a, b, ca, cb)
    {
      color := color[a := ca];
      color := color[b := cb];
      bh := bh[a := bh[b]][b := bh[a]];
    }

    /** `s->color = RED` in the black-nephews branch: `s` and its parent
        `p` lose one black level. */
    method PaintRed(s: int, p: int)
      requires Sized(Snap()) && 0 <= s < |key| && 0 <= p < |key|
      modifies this
      ensures Snap() == Lighten(old(Snap()), s, p)
    {
      color := color[s := Red];
      bh := bh[s := bh[s] - 1][p := bh[p] - 1];
    }

    /** `i->color = BLACK`. */
    method PaintBlack(i: int)
      requires Sized(Snap()) && 0 <= i < |key|
      modifies this
      ensures Snap() == Blacken(old(Snap()), i)
    {
      bh := bh[i := bh[i] + 1 - Blk(color[i])];
      color := color[i := Black];
    }

    /** One pass of the `fixDelete` loop when `x` is its parent's left
        child: a red sibling is first rotated away; then either the
        sibling turns red and the deficit moves up to the parent, or one
        or two rotations remove it and `x` becomes the root. */
    method FixDeleteLeft(x0: int) returns (x: int)
      requires DeleteFixing(Snap(), x0) && Deficit(Snap(), x0)
      requires x0 == left[parent[x0]]
      modifies this
      ensures DeleteFixing(Snap(), x)
      ensures key == old(key) && live == old(live) && Keys() == old(Keys())
      ensures |old(elems)[x0]| < |elems[x]|
    {
      DeleteFamily(Snap(), x0);
      x := x0;
      var s := right[parent[x]];
      if color[s] == Red {
        LeftRedRotation(x, s);
        s := right[parent[x]];
      }
      x := LeftBlackSibling(x, s);
    }

    /** The rest of the pass once `x`'s sibling `s` is black: if both of
        `s`'s children are black, `s` turns red and `x` moves up to its
        parent; otherwise one or two rotations end the loop at the root. */
    method LeftBlackSibling(x0: int, s0: int) returns (x: int)
      requires DeleteFixing(Snap(), x0) && Deficit(Snap(), x0)
      requires x0 == left[parent[x0]] && s0 == right[parent[x0]] && s0 in live && color[s0] == Black
      modifies this
      ensures DeleteFixing(Snap(), x)
      ensures key == old(key) && live == old(live) && Keys() == old(Keys())
      ensures |old(elems)[x0]| < |elems[x]|
    {
      ghost var h := Snap();
      DeleteFamily(h, x0);
      ElemsBound(h, parent[x0]);
      x := x0;
      var s := s0;
      if color[right[s]] == Black && color[left[s]] == Black {
        FixDeleteLighten(h, x);
        PaintRed(s, parent[x]);
        x := parent[x];
      } else {
        if color[right[s]] == Black {
          LeftInnerRotation(x, s);
          s := right[parent[x]];
          assert NodeOk(Snap(), s);
        }
        LeftOuterRotation(x, s);
        x := root;
        RedBlackFixing(Snap());
      }
    }

    /** The red-sibling branch with `x` a left child: `s` turns black, the
        parent red, and a left rotation at the parent gives `x` a black
        sibling. */
    method LeftRedRotation(x: int, s: int)
      requires DeleteFixing(Snap(), x) && Deficit(Snap(), x)
      requires x == left[parent[x]] && s == right[parent[x]] && s in live && color[s] == Red
      modifies this
      ensures DeleteFixing(Snap(), x) && Deficit(Snap(), x)
      ensures parent[x] == old(parent[x]) && x == left[parent[x]]
      ensures right[parent[x]] in live && color[right[parent[x]]] == Black
      ensures elems[x] == old(elems[x])
      ensures key == old(key) && live == old(live) && Keys() == old(Keys())
    {
      ghost var h := Snap();
      var p := parent[x];
      FixDeleteLeftRed(h, x);
      Repaint(s, p, Black, Red);
      LeftRotate(p, parent[p]);
    }

    /** The inner-nephew branch with `x` a left child: `s`'s red left
        child turns black, `s` red, and a right rotation at `s` makes that
        child `x`'s sibling, with a red right child. */
    method LeftInnerRotation(x: int, s: int)
      requires DeleteFixing(Snap(), x) && Deficit(Snap(), x)
      requires x == left[parent[x]] && s == right[parent[x]] && s in live && NodeOk(Snap(), s) && color[s] == Black
      requires color[right[s]] == Black && color[left[s]] == Red
      modifies this
      ensures DeleteFixing(Snap(), x) && Deficit(Snap(), x)
      ensures parent[x] == old(parent[x]) && x == left[parent[x]]
      ensures right[parent[x]] in live && color[right[parent[x]]] == Black
      ensures right[right[parent[x]]] in live && color[right[right[parent[x]]]] == Red
      ensures elems[x] == old(elems[x])
      ensures key == old(key) && live == old(live) && Keys() == old(Keys())
    {
      ghost var h := Snap();
      FixDeleteLeftInner(h, x);
      Repaint(left[s], s, Black, Red);
      RightRotate(s, parent[s]);
    }

    /** The outer-nephew branch with `x` a left child: `s` takes the
        parent's colour, the parent and `s`'s right child turn black, and
        a left rotation at the parent pays back the missing black. */
    method LeftOuterRotation(x: int, s: int)
      requires DeleteFixing(Snap(), x) && Deficit(Snap(), x)
      requires x == left[parent[x]] && s == right[parent[x]] && s in live && NodeOk(Snap(), s) && color[s] == Black
      requires color[right[s]] == Red
      modifies this
      ensures IsRedBlack(Snap())
      ensures key == old(key) && live == old(live) && Keys() == old(Keys())
    {
      ghost var h := Snap();
      var p := parent[x];
      FixDeleteLeftOuter(h, x);
      Repaint(s, p, color[p], Black);
      PaintBlack(right[s]);
      LeftRotate(p, parent[p]);
    }

    /** The mirror image of `FixDeleteLeft`, for `x` a right child. The
        black-nephews branch is taken when both of the sibling's children
        are black; RB.cpp:202 tests only the right one (see
        `RecolourTestAsWritten`). */
    method FixDeleteRight(x0: int) returns (x: int)
      requires DeleteFixing(Snap(), x0) && Deficit(Snap(), x0)
      requires x0 != left[parent[x0]]
      modifies this
      ensures DeleteFixing(Snap(), x)
      ensures key == old(key) && live == old(live) && Keys() == old(Keys())
      ensures |old(elems)[x0]| < |elems[x]|
    {
      DeleteFamily(Snap(), x0);
      x := x0;
      var s := left[parent[x]];
      if color[s] == Red {
        RightRedRotation(x, s);
        s := left[parent[x]];
      }
      x := RightBlackSibling(x, s);
    }

    /** The mirror image of `LeftBlackSibling`, with both of the
        sibling's children tested. */
    method RightBlackSibling(x0: int, s0: int) returns (x: int)
      requires DeleteFixing(Snap(), x0) && Deficit(Snap(), x0)
      requires x0 == right[parent[x0]] && x0 != left[parent[x0]]
      requires s0 == left[parent[x0]] && s0 in live && color[s0] == Black
      modifies this
      ensures DeleteFixing(Snap(), x)
      ensures key == old(key) && live == old(live) && Keys() == old(Keys())
      ensures |old(elems)[x0]| < |elems[x]|
    {
      ghost var h := Snap();
      DeleteFamily(h, x0);
      ElemsBound(h, parent[x0]);
      x := x0;
      var s := s0;
      if color[right[s]] == Black && color[left[s]] == Black {
        FixDeleteLighten(h, x);
        PaintRed(s, parent[x]);
        x := parent[x];
      } else {
        if color[left[s]] == Black {
          RightInnerRotation(x, s);
          s := left[parent[x]];
          assert NodeOk(Snap(), s);
        }
        RightOuterRotation(x, s);
        x := root;
        RedBlackFixing(Snap());
      }
    }

    /** The mirror image of `LeftRedRotation`. */
    method RightRedRotation(x: int, s: int)
      requires DeleteFixing(Snap(), x) && Deficit(Snap(), x)
      requires x == right[parent[x]] && s == left[parent[x]] && s in live && color[s] == Red
      modifies this
      ensures DeleteFixing(Snap(), x) && Deficit(Snap(), x)
      ensures parent[x] == old(parent[x]) && x == right[parent[x]] && x != left[parent[x]]
      ensures left[parent[x]] in live && color[left[parent[x]]] == Black
      ensures elems[x] == old(elems[x])
      ensures key == old(key) && live == old(live) && Keys() == old(Keys())
    {
      ghost var h := Snap();
      var p := parent[x];
      FixDeleteRightRed(h, x);
      Repaint(s, p, Black, Red);
      RightRotate(p, parent[p]);
    }

    /** The mirror image of `LeftInnerRotation`. */
    method RightInnerRotation(x: int, s: int)
      requires DeleteFixing(Snap(), x) && Deficit(Snap(), x)
      requires x == right[parent[x]] && s == left[parent[x]] && s in live && NodeOk(Snap(), s) && color[s] == Black
      requires color[left[s]] == Black && color[right[s]] == Red
      modifies this
      ensures DeleteFixing(Snap(), x) && Deficit(Snap(), x)
      ensures parent[x] == old(parent[x]) && x == right[parent[x]] && x != left[parent[x]]
      ensures left[parent[x]] in live && color[left[parent[x]]] == Black
      ensures left[left[parent[x]]] in live && color[left[left[parent[x]]]] == Red
      ensures elems[x] == old(elems[x])
      ensures key == old(key) && live == old(live) && Keys() == old(Keys())
    {
      ghost var h := Snap();
      FixDeleteRightInner(h, x);
      Repaint(right[s], s, Black, Red);
      LeftRotate(s, parent[s]);
    }

    /** The mirror image of `LeftOuterRotation`. */
    method RightOuterRotation(x: int, s: int)
      requires DeleteFixing(Snap(), x) && Deficit(Snap(), x)
      requires x == right[parent[x]] && s == left[parent[x]] && s in live && NodeOk(Snap(), s) && color[s] == Black
      requires color[left[s]] == Red
      modifies this
      ensures IsRedBlack(Snap())
      ensures key == old(key) && live == old(live) && Keys() == old(Keys())
    {
      ghost var h := Snap();
      var p := parent[x];
      FixDeleteRightOuter(h, x);
      Repaint(s, p, color[p], Black);
      PaintBlack(left[s]);
      RightRotate(p, parent[p]);
    }

    /** `fixDelete(x)`: from a tree whose only fault is the extra black
        carried by `x`, restore the red-black properties by recolouring
        and rotating, without changing the keys or the set of nodes. */
    method FixDelete(x0: int)
      requires DeleteFixing(Snap(), x0)
      modifies this
      ensures Valid()
      ensures key == old(key) && live == old(live) && Keys() == old(Keys())
    {
      var x := x0;
      while x != root && color[x] == Black
        invariant DeleteFixing(Snap(), x)
        invariant key == old(key) && live == old(live) && Keys() == old(Keys())
        decreases |elems[root]| - |elems[x]|
      {
        DeleteFamily(Snap(), x);
        ElemsBound(Snap(), parent[x]);
        if x == left[parent[x]] {
          x := FixDeleteLeft(x);
        } else {
          x := FixDeleteRight(x);
        }
      }
      FixDeleteDone(Snap(), x);
      PaintBlack(x);
    }

    /** `rbTransplant(u, v)`: `v` takes `u`'s place under `u`'s parent,
        or as the root, and gets `u`'s parent as its own, even when `v`
        is the sentinel. */
    method Transplant(u: int, v: int)
      requires Sized(Snap()) && 0 <= u < |key| && 0 <= v < |key|
      requires parent[u] == NIL || 0 <= parent[u] < |key|
      modifies this
      ensures Snap() == Transplanted(old(Snap()), u, v)
    {
      if parent[u] == NIL {
        root := v;
      } else if u == left[parent[u]] {
        left := left[parent[u] := v];
      } else {
        right := right[parent[u] := v];
      }
      parent := parent[v := parent[u]];
    }

    /** `minimum(node)`: follow left links down to a node without a left
        child. `sp` is the path walked. During a deletion the arena is
        well formed except at the pending node `y`, and `node` lies below
        it. */
    method Minimum(node: int, ghost k: int, ghost y: int) returns (m: int, ghost sp: seq<int>)
      requires Removing(Snap(), k, y) && node in live && (y == NIL || |elems[node]| < |elems[y]|)
      ensures LeftSpine(Snap(), sp) && sp[0] == node && m == sp[|sp| - 1] && m in live
      ensures left[m] == TNULL
    {
      m := node;
      sp := [node];
      while left[m] != TNULL
        invariant m in live && (y == NIL || |elems[m]| < |elems[y]|)
        invariant |sp| >= 1 && sp[0] == node && sp[|sp| - 1] == m
        invariant forall i | 0 <= i < |sp| :: sp[i] != TNULL && 0 <= sp[i] < |key|
        invariant forall i {:trigger left[sp[i]]} | 0 <= i < |sp| - 1 :: left[sp[i]] == sp[i + 1]
        decreases |elems[m]|
      {
        RemovingLeft(Snap(), k, y, m);
        m := left[m];
        sp := sp + [m];
      }
    }

    /** The search loop of `deleteNodeHelper`: walk down from `node`, the
        root, left for a key smaller than the node's and right otherwise,
        to the sentinel, remembering the last node `z` holding `k`. Along
        the way the key sequences of the nodes above `z` lose one copy of
        `k`; `y` is the lowest of them, `z`'s parent. */
    method FindKey(node: int, k: int) returns (z: int, ghost y: int)
      requires Valid() && node == root
      modifies this`elems
      ensures Snap().(elems := old(elems)) == old(Snap()) && |elems| == old(|elems|)
      ensures z == TNULL <==> k !in multiset(old(Keys()))
      ensures z == TNULL ==> elems == old(elems)
      ensures z != TNULL ==> Found(old(Snap()), Snap(), k, y, z)
      ensures z != TNULL ==> k !in multiset(old(elems[right[z]]))
      ensures z != TNULL && y == NIL ==> elems == old(elems)
      ensures z != TNULL && y != NIL ==> elems[root] == RemoveFirst(old(elems[root]), k)
    {
      ghost var h0 := Snap();
      // `g` is the tree with the pending occurrence of `k` taken off the
      // contents of the nodes above it; it is written back once found.
      ghost var g := h0;
      ghost var found := false;
      y := NIL;
      z := TNULL;
      var x := node;
      SearchStart(h0, k);
      while x != TNULL
        invariant SearchState(h0, g, k, y, x, z, found) && Snap() == h0
        decreases |h0.elems[x]|
      {
        g, y, found := SearchMove(h0, g, k, y, x, z, found);
        if key[x] == k {
          z := x;
        }
        if key[x] <= k {
          x := right[x];
        } else {
          x := left[x];
        }
      }
      SearchFinish(h0, g, k, y, z, found);
      elems := g.elems;
    }

    /** Lines 257-264 of `deleteNodeHelper`: `z` has at most one child,
        which takes its place; `z` leaves the tree. */
    method ReplaceByChild(z: int, ghost h0: Heap, ghost k: int, ghost y: int) returns (x: int)
      requires Found(h0, Snap(), k, y, z) && (left[z] == TNULL || right[z] == TNULL)
      modifies this
      ensures x == OnlyChild(old(Snap()), z) && Snap() == Spliced(old(Snap()), z)
    {
      LocatedDetached(Snap(), k, y, z);
      if left[z] == TNULL {
        x := right[z];
        Transplant(z, right[z]);
      } else {
        x := left[z];
        Transplant(z, left[z]);
      }
      live := live - {z};
    }

    /** Lines 265-282 of `deleteNodeHelper`: `z` has two children. Its
        successor `m`, the leftmost node of its right subtree, leaves its
        place to its right child `x` and takes `z`'s place, subtrees and
        colour; `z` leaves the tree. `c` is `m`'s colour before the move. */
    method ReplaceBySuccessor(z: int, ghost h0: Heap, ghost k: int, ghost y: int)
      returns (x: int, c: Color, ghost sp: seq<int>)
      requires Found(h0, Snap(), k, y, z) && left[z] != TNULL && right[z] != TNULL
      modifies this
      ensures LeftSpine(old(Snap()), sp) && sp[0] == old(right[z])
      ensures x == old(right[sp[|sp| - 1]]) && c == old(color[sp[|sp| - 1]])
      ensures SpinePath(old(Snap()), z, sp) && forall i | 0 <= i < |sp| :: sp[i] != old(parent[z])
      ensures Snap() == Relinked(old(Snap()), z, sp)
    {
      ghost var h := Snap();
      LocatedDetached(h, k, y, z);
      assert NodeOk(h, z);
      var m;
      m, sp := Minimum(right[z], k, y);
      SuccessorSpine(h, k, y, z, sp);
      c := color[m];
      x := right[m];
      Unhook(z, m, sp);
      Relink(z, m, h, sp);
    }

    /** Lines 268-276 of `deleteNodeHelper`: unless the successor `m` is
        `z`'s right child, `m` leaves its place to its right child and
        takes over `z`'s right subtree; otherwise only that child's parent
        becomes `m`. */
    method Unhook(z: int, m: int, ghost sp: seq<int>)
      requires Sized(Snap()) && SpinePath(Snap(), z, sp) && m == sp[|sp| - 1]
      modifies this
      ensures Snap() == Unhooked(old(Snap()), z, sp)
    {
      var x := right[m];
      if parent[m] == z {
        parent := parent[x := m];
      } else {
        Transplant(m, x);
        right := right[m := right[z]];
        parent := parent[right[m] := m];
      }
    }

    /** Lines 277-281 of `deleteNodeHelper`: `m` takes `z`'s place, its
        left subtree and its colour; `z` leaves the tree. `h` is the arena
        before the successor was unhooked. */
    method Relink(z: int, m: int, ghost h: Heap, ghost sp: seq<int>)
      requires Sized(h) && LeftSpine(h, sp) && m == sp[|sp| - 1] && 0 <= z < |h.key|
      requires 0 <= h.left[z] < |h.key| && 0 <= h.right[z] < |h.key|
      requires Sized(Snap()) && |key| == |h.key| && 0 <= m < |key|
      requires parent[z] == NIL || 0 <= parent[z] < |key|
      requires left[z] == h.left[z] && color[z] == h.color[z]
      modifies this
      ensures Snap() == Adopted(Transplanted(old(Snap()), z, m), h, z, sp)
    {
      var l := left[z];
      Transplant(z, m);
      left := left[m := l];
      parent := parent[l := m];
      color := color[m := color[z]];
      elems := Dropped(h.elems, sp[..|sp| - 1])[m := h.elems[h.left[z]] + h.elems[h.right[z]]];
      bh := h.bh[m := h.bh[z]];
      live := h.live - {z};
    }

    /** `deleteNodeHelper(node, key)`, called with the root: find the last
        node on the search path that holds `k`; if there is none, nothing
        changes. Otherwise take it out of the tree and, when the node that
        left its position was black, repair the tree with `fixDelete`. */
    method DeleteNodeHelper(node: int, k: int)
      requires Valid() && node == root
      modifies this
      ensures Valid() && Keys() == RemoveFirst(old(Keys()), k)
      ensures key == old(key) && live <= old(live)
      ensures k !in multiset(old(Keys())) ==> Snap() == old(Snap())
      ensures k in multiset(old(Keys())) ==>
                exists z :: z in old(live) && old(key[z]) == k && live == old(live) - {z}
    {
      ghost var h0 := Snap();
      ghost var y;
      var z;
      z, y := FindKey(node, k);
      if z == TNULL {
        RemoveFirstAbsent(h0.elems[h0.root], k);
        return;
      }
      var x, c := TakeOut(z, h0, k, y);
      if c == Black {
        FixDelete(x);
      }
    }

    /** Lines 252-283 of `deleteNodeHelper`: take the found node `z` out of
        the tree, by its only child or by its successor. `c` is the colour
        that left its position and `x` the node that took it; when `c` is
        black, `x` is one black short. */
    method TakeOut(z: int, ghost h0: Heap, ghost k: int, ghost y: int) returns (x: int, c: Color)
      requires Found(h0, Snap(), k, y, z)
      modifies this
      ensures WellFormed(Snap()) && key == old(key) && live == old(live) - {z}
      ensures Keys() == if y == NIL then RemoveFirst(old(elems[z]), k) else old(elems[root])
      ensures c == Black ==> DeleteFixing(Snap(), x)
      ensures c == Red ==> Valid()
    {
      ghost var h := Snap();
      if left[z] == TNULL || right[z] == TNULL {
        c := color[z];
        x := ReplaceByChild(z, h0, k, y);
        SpliceOut(h0, h, k, y, z);
      } else {
        ghost var sp;
        x, c, sp := ReplaceBySuccessor(z, h0, k, y);
        RelinkOut(h0, h, k, y, z, sp);
      }
    }

    /** `deleteNode(value)`: remove one copy of `k`, if the tree holds one,
        and leave a red-black tree. */
    method DeleteNode(k: int)
      requires Valid()
      modifies this
      ensures Valid() && Keys() == RemoveFirst(old(Keys()), k)
      ensures key == old(key) && live <= old(live)
      ensures k !in multiset(old(Keys())) ==> Snap() == old(Snap())
      ensures k in multiset(old(Keys())) ==>
                exists z :: z in old(live) && old(key[z]) == k && live == old(live) - {z}
    {
      DeleteNodeHelper(root, k);
    }

    /** `search(value)`: the node holding `value`, or null when no node
        does. */
    method Search(value: int) returns (r: int)
      requires WellFormed(Snap())
      ensures r == NIL || (r in live && key[r] == value)
      ensures r == NIL <==> value !in multiset(Keys())
    {
      ghost var h := Snap();
      var current := root;
      while current != TNULL
        invariant Slot(h, current)
        invariant value in multiset(Keys()) <==> value in multiset(elems[current])
        decreases |elems[current]|
      {
        assert NodeOk(h, current);
        SortedSplit(elems[left[current]], key[current], elems[right[current]]);
        if value == key[current] {
          return current;
        } else if value < key[current] {
          current := left[current];
        } else {
          current := right[current];
        }
      }
      return NIL;
    }

    /** `getHeight(node)`: the number of nodes on the longest path from
        `node` down to the sentinel. It is at most the subtree's size, and
        in a red-black tree it lies between the node's black height and
        twice that (one more for a red node). */
    function GetHeight(node: int): (r: int)
      reads this
      requires WellFormed(Snap()) && Slot(Snap(), node)
      ensures 0 <= r <= |elems[node]|
      ensures IsRedBlack(Snap()) ==> bh[node] <= r <= 2 * bh[node] + 1 - Blk(color[node])
      decreases |elems[node]|
    {
      if node == TNULL then 0
      else
        assert NodeOk(Snap(), node);
        assert IsRedBlack(Snap()) ==> RedOk(Snap(), node) && BhOk(Snap(), node);
        Max(GetHeight(left[node]), GetHeight(right[node])) + 1
    }

    /** `getHeight()`: the height of the whole tree, which for a red-black
        tree is logarithmic in the number of keys. */
    function Height(): (r: int)
      reads this
      requires WellFormed(Snap())
      ensures 0 <= r <= |Keys()|
      ensures IsRedBlack(Snap()) ==> Pow2(r / 2) <= |Keys()| + 1
    {
      var r := GetHeight(root);
      assert IsRedBlack(Snap()) ==> Pow2(r / 2) <= |Keys()| + 1 by {
        if IsRedBlack(Snap()) {
          LogarithmicHeight(Snap(), r);
        }
      }
      r
    }
  }
}
