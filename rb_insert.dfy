/** The first half of `insert` on the arena: the new node, the descent from
    the root to the empty child where the key belongs, and the link that
    hangs the new node there. While the descent runs, the key sequences of
    the nodes already passed are updated to include the new key, so that
    when the node is linked in the whole arena is well formed again. */
module RedBlackInsert {
  import opened Common
  import opened RedBlackHeap
  import opened RedBlackInsertFix

  /** `new Node(key)` with both children set to the sentinel: a red node
      with no parent, appended to the arena and not yet part of the tree. */
  ghost function Allocated(h: Heap, k: int): Heap {
    h.(key := h.key + [k], color := h.color + [Red],
       left := h.left + [TNULL], right := h.right + [TNULL], parent := h.parent + [NIL],
       elems := h.elems + [[k]], bh := h.bh + [0])
  }

  /** `n` is a node built by `Allocated` for key `k`. */
  ghost predicate Fresh(h: Heap, n: int, k: int) {
    && Sized(h) && 0 < n < |h.key| && n !in h.live
    && h.key[n] == k && h.color[n] == Red
    && h.left[n] == TNULL && h.right[n] == TNULL && h.parent[n] == NIL
    && h.elems[n] == [k] && h.bh[n] == 0
  }

  /** A new node does not disturb the tree. */
  lemma AllocatedRedBlack(h: Heap, k: int)
    requires IsRedBlack(h)
    ensures IsRedBlack(Allocated(h, k)) && Fresh(Allocated(h, k), |h.key|, k)
    ensures Allocated(h, k).live == h.live && Contents(Allocated(h, k)) == Contents(h)
  {
    var h' := Allocated(h, k);
    forall i | i in h'.live ensures NodeOk(h', i) {
      assert NodeOk(h, i);
    }
    forall i | i in h'.live ensures RedOk(h', i) && BhOk(h', i) {
      assert NodeOk(h, i) && RedOk(h, i) && BhOk(h, i);
    }
  }

  /** The child of `y` the descent moves to: left for a smaller key,
      right otherwise. */
  ghost function Next(h: Heap, y: int, k: int): int
    requires Sized(h) && 0 <= y < |h.key|
  {
    if k < h.key[y] then h.left[y] else h.right[y]
  }

  /** `y`'s key sequence already holds `k`, on the side the descent takes. */
  ghost predicate Pending(h: Heap, y: int, k: int)
    requires Sized(h) && y in h.live && Slot(h, h.left[y]) && Slot(h, h.right[y])
  {
    var l, r := h.elems[h.left[y]], h.elems[h.right[y]];
    && h.elems[y] == (if k < h.key[y] then InsertSorted(l, k) + [h.key[y]] + r
                      else l + [h.key[y]] + InsertSorted(r, k))
    && Sorted(h.elems[y])
  }

  /** The invariant of the descent loop, `y` being the last node visited
      (`NIL` before the first step): the arena is well formed except that
      `y`'s key sequence, and those of the nodes above it, already include
      `k`. */
  ghost predicate Descending(h: Heap, k: int, y: int) {
    if y == NIL then WellFormed(h)
    else
      && Sized(h)
      && h.left[TNULL] == NIL && h.right[TNULL] == NIL
      && h.color[TNULL] == Black && h.elems[TNULL] == [] && h.bh[TNULL] == 0
      && h.root in h.live
      && y in h.live && Linked(h, y) && Pending(h, y, k)
      && (forall i {:trigger NodeOk(h, i)} | i in h.live && i != y :: NodeOk(h, i))
  }

  /** One step of the descent: `x`, the next node, takes the new key into
      its key sequence and becomes the node last visited. Only the root's
      sequence changes on the first step, so the tree's contents become
      the old contents with `k` inserted. */
  lemma DescendStep(h: Heap, k: int, y: int, x: int)
    requires Descending(h, k, y)
    requires y != NIL ==> y in h.live
    requires x == (if y == NIL then h.root else Next(h, y, k)) && x != TNULL
    ensures x in h.live && Sized(h)
    ensures var h' := h.(elems := h.elems[x := InsertSorted(h.elems[x], k)]);
      && Descending(h', k, x)
      && h'.elems[h'.root] == (if y == NIL then InsertSorted(h.elems[h.root], k) else h.elems[h.root])
  {
    var h' := h.(elems := h.elems[x := InsertSorted(h.elems[x], k)]);
    assert x in h.live && Linked(h', x) && Pending(h', x, k) by {
      DescendPivot(h, k, y, x);
    }
    forall i | i in h'.live && i != x ensures NodeOk(h', i) {
      DescendNode(h, k, y, x, i);
    }
    if y != NIL {
      assert x != h.root by {
        assert x != y by {
          assert |InsertSorted(h.elems[x], k)| > |h.elems[x]|;
        }
        assert NodeOk(h, x) && h.parent[x] == y;
      }
    }
  }

  /** The state of the descent in `insert`: `h0` is the arena before it,
      `g` the arena with `k` added to the key sequences on the path down
      to `y`, and `x` the next node to visit. */
  ghost predicate Descent(h0: Heap, g: Heap, k: int, y: int, x: int) {
    && WellFormed(h0) && g.(elems := h0.elems) == h0 && |g.elems| == |h0.elems|
    && (forall i | 0 <= i < |g.elems| && i !in g.live :: g.elems[i] == h0.elems[i])
    && Descending(g, k, y) && (y != NIL ==> y in g.live)
    && x == (if y == NIL then g.root else Next(g, y, k))
    && Slot(h0, x)
    && (y == NIL ==> g.elems == h0.elems)
    && (y != NIL ==> g.elems[g.root] == InsertSorted(h0.elems[g.root], k))
  }

  /** The loop body of the descent keeps `Descent` and shortens the key
      sequence below the next node. */
  lemma DescentMove(h0: Heap, g: Heap, k: int, y: int, x: int) returns (g': Heap)
    requires Descent(h0, g, k, y, x) && x != TNULL
    ensures 0 <= x < |h0.key| && g' == g.(elems := g.elems[x := InsertSorted(g.elems[x], k)])
    ensures Descent(h0, g', k, x, if k < h0.key[x] then h0.left[x] else h0.right[x])
    ensures |h0.elems[if k < h0.key[x] then h0.left[x] else h0.right[x]]| < |h0.elems[x]|
  {
    DescendStep(g, k, y, x);
    assert NodeOk(h0, x);
    g' := g.(elems := g.elems[x := InsertSorted(g.elems[x], k)]);
  }

  lemma DescendPivot(h: Heap, k: int, y: int, x: int)
    requires Descending(h, k, y)
    requires y != NIL ==> y in h.live
    requires x == (if y == NIL then h.root else Next(h, y, k)) && x != TNULL
    ensures x in h.live && Sized(h)
    ensures var h' := h.(elems := h.elems[x := InsertSorted(h.elems[x], k)]);
      Linked(h', x) && Pending(h', x, k)
  {
    if y != NIL {
      assert x != y by {
        assert |InsertSorted(h.elems[x], k)| > |h.elems[x]|;
      }
    }
    assert x in h.live && NodeOk(h, x);
    var l, r := h.left[x], h.right[x];
    assert l != x && r != x;
    InsertSortedSplit(h.elems[l], h.key[x], h.elems[r], k);
    InsertSortedOrder(h.elems[x], k);
  }

  lemma DescendNode(h: Heap, k: int, y: int, x: int, i: int)
    requires Descending(h, k, y)
    requires y != NIL ==> y in h.live
    requires x == (if y == NIL then h.root else Next(h, y, k)) && x != TNULL
    requires x in h.live && i in h.live && i != x
    ensures NodeOk(h.(elems := h.elems[x := InsertSorted(h.elems[x], k)]), i)
  {
    var h' := h.(elems := h.elems[x := InsertSorted(h.elems[x], k)]);
    assert NodeOk(h, x);
    if i == y {
      assert h.left[y] != h.right[y];
    } else {
      assert NodeOk(h, i);
      if y == NIL {
        assert h.parent[x] == NIL;
      } else {
        assert h.parent[x] == y;
      }
      assert h.left[i] != x && h.right[i] != x;
    }
  }

  /** `pt->parent = y`, then `n` becomes the root when `y` is null, and
      otherwise `y`'s left child for a smaller key and its right child for
      a larger or equal one. */
  ghost function Attached(h: Heap, y: int, n: int): Heap
    requires Sized(h) && (y == NIL || 0 <= y < |h.key|) && 0 <= n < |h.key|
  {
    var k := h.key[n];
    if y == NIL then
      h.(parent := h.parent[n := y], root := n, live := h.live + {n})
    else
      h.(parent := h.parent[n := y],
         left := if k < h.key[y] then h.left[y := n] else h.left,
         right := if k < h.key[y] then h.right else h.right[y := n],
         live := h.live + {n})
  }

  /** Hanging the new red node where the descent ended leaves a tree that
      is red-black except that the new node may be a red child of a red
      parent: the invariant `fixInsert` starts from. Its contents are the
      old contents with the key inserted. `h0` is the arena before the
      descent, which differs from `h` only in the key sequences. */
  lemma AttachChild(h0: Heap, h: Heap, k: int, y: int, n: int)
    requires IsRedBlack(h0) && Fresh(h0, n, k)
    requires h.(elems := h0.elems) == h0 && |h.elems| == |h0.elems| && h.elems[n] == [k]
    requires y != NIL && Descending(h, k, y) && Next(h, y, k) == TNULL
    ensures Sized(h) && y < |h.key| && n < |h.key|
    ensures InsertFixing(Attached(h, y, n), n)
    ensures Attached(h, y, n).live == h.live + {n}
    ensures Attached(h, y, n).parent[n] == y && Attached(h, y, n).root == h.root
    ensures Contents(Attached(h, y, n)) == h.elems[h.root]
  {
    var h' := Attached(h, y, n);
    AttachWellFormed(h0, h, k, y, n);
    forall i | i in h'.live
      ensures BhOk(h', i) && (i != y ==> RedOk(h', i))
    {
      AttachColours(h0, h, k, y, n, i);
    }
    assert RedOkBut(h', y, n) by {
      AttachColours(h0, h, k, y, n, y);
    }
    assert h.root != n && h0.color[h.root] == Black;
  }

  lemma AttachWellFormed(h0: Heap, h: Heap, k: int, y: int, n: int)
    requires IsRedBlack(h0) && Fresh(h0, n, k)
    requires h.(elems := h0.elems) == h0 && |h.elems| == |h0.elems| && h.elems[n] == [k]
    requires y != NIL && Descending(h, k, y) && Next(h, y, k) == TNULL
    ensures Sized(h) && y < |h.key| && n < |h.key| && WellFormed(Attached(h, y, n))
  {
    var h' := Attached(h, y, n);
    forall i | i in h'.live ensures NodeOk(h', i) {
      AttachNode(h0, h, k, y, n, i);
    }
  }

  lemma AttachNode(h0: Heap, h: Heap, k: int, y: int, n: int, i: int)
    requires IsRedBlack(h0) && Fresh(h0, n, k)
    requires h.(elems := h0.elems) == h0 && |h.elems| == |h0.elems| && h.elems[n] == [k]
    requires y != NIL && Descending(h, k, y) && Next(h, y, k) == TNULL
    requires i in h.live + {n}
    ensures NodeOk(Attached(h, y, n), i)
  {
    if i == n {
      AttachNew(h0, h, k, y, n);
    } else if i == y {
      AttachParent(h0, h, k, y, n);
    } else {
      AttachOther(h0, h, k, y, n, i);
    }
  }

  lemma AttachNew(h0: Heap, h: Heap, k: int, y: int, n: int)
    requires IsRedBlack(h0) && Fresh(h0, n, k)
    requires h.(elems := h0.elems) == h0 && |h.elems| == |h0.elems| && h.elems[n] == [k]
    requires y != NIL && Descending(h, k, y) && Next(h, y, k) == TNULL
    ensures NodeOk(Attached(h, y, n), n)
  {
    var h' := Attached(h, y, n);
    assert h.root != n;
    assert h'.elems[n] == [] + [k] + [];
  }

  lemma AttachParent(h0: Heap, h: Heap, k: int, y: int, n: int)
    requires IsRedBlack(h0) && Fresh(h0, n, k)
    requires h.(elems := h0.elems) == h0 && |h.elems| == |h0.elems| && h.elems[n] == [k]
    requires y != NIL && Descending(h, k, y) && Next(h, y, k) == TNULL
    ensures NodeOk(Attached(h, y, n), y)
  {
    assert InsertSorted([], k) == [k];
    var c := if k < h.key[y] then h.right[y] else h.left[y];
    assert c != n;
    if c != TNULL {
      assert NodeOk(h, c);
    }
  }

  lemma AttachOther(h0: Heap, h: Heap, k: int, y: int, n: int, i: int)
    requires IsRedBlack(h0) && Fresh(h0, n, k)
    requires h.(elems := h0.elems) == h0 && |h.elems| == |h0.elems| && h.elems[n] == [k]
    requires y != NIL && Descending(h, k, y) && Next(h, y, k) == TNULL
    requires i in h.live && i != y
    ensures NodeOk(Attached(h, y, n), i)
  {
    assert NodeOk(h, i);
    assert h.left[i] != n && h.right[i] != n;
  }

  lemma AttachColours(h0: Heap, h: Heap, k: int, y: int, n: int, i: int)
    requires IsRedBlack(h0) && Fresh(h0, n, k)
    requires h.(elems := h0.elems) == h0 && |h.elems| == |h0.elems| && h.elems[n] == [k]
    requires y != NIL && Descending(h, k, y) && Next(h, y, k) == TNULL
    requires WellFormed(Attached(h, y, n)) && i in h.live + {n}
    ensures var h' := Attached(h, y, n);
      && BhOk(h', i) && (i != y ==> RedOk(h', i)) && (i == y ==> RedOkBut(h', y, n))
  {
    var h' := Attached(h, y, n);
    if i != n {
      assert NodeOk(h0, i) && RedOk(h0, i) && BhOk(h0, i);
      if i != y {
        assert SameAt(h0, h', i);
        SameAtRules(h0, h', i);
      }
    }
  }

  /** Inserting into the empty tree: the new node becomes the root and is
      coloured black (`pt->color = BLACK`), which gives a one-node
      red-black tree. */
  lemma AttachRoot(h: Heap, k: int, n: int)
    requires IsRedBlack(h) && Fresh(h, n, k) && h.root == TNULL
    ensures var h' := Blacken(Attached(h, NIL, n), n);
      IsRedBlack(h') && h'.live == {n} && Contents(h') == [k]
  {
    var h' := Blacken(Attached(h, NIL, n), n);
    assert h.elems[n] == [] + [k] + [];
    assert NodeOk(h', n);
    assert RedOk(h', n) && BhOk(h', n);
  }
}
