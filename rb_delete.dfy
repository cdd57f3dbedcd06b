/** The structural half of `deleteNodeHelper` on the arena: the search for
    the node `z` holding the key, and the relinking that takes `z` out of
    the tree, either by splicing in its only child or by moving the
    leftmost node of its right subtree into its place. While the search
    runs, the key sequences of the nodes above `z` are updated to lack one
    copy of the key, so that once `z` is gone the arena is well formed
    again; the colours are then as `fixDelete` expects them. */
module RedBlackDelete {
  import opened Common
  import opened RedBlackHeap
  import opened RedBlackInsertFix
  import opened RedBlackInsert
  import opened RedBlackDeleteFix

  /** `y`'s key sequence already lacks one copy of `k`, taken from the
      child the search moves to, which holds `k`. */
  ghost predicate RemovePending(h: Heap, y: int, k: int)
    requires Sized(h) && y in h.live && Slot(h, h.left[y]) && Slot(h, h.right[y])
  {
    var l, r := h.elems[h.left[y]], h.elems[h.right[y]];
    && k in multiset(if k < h.key[y] then l else r)
    && h.elems[y] == (if k < h.key[y] then RemoveFirst(l, k) + [h.key[y]] + r
                      else l + [h.key[y]] + RemoveFirst(r, k))
    && Sorted(h.elems[y])
  }

  /** A node whose sequence already lacks a copy of `k` still counts
      its two subtrees' keys, so it stays longer than either child. */
  lemma PendingLength(h: Heap, y: int, k: int)
    requires Sized(h) && y in h.live && Slot(h, h.left[y]) && Slot(h, h.right[y])
    requires RemovePending(h, y, k)
    ensures |h.elems[y]| == |h.elems[h.left[y]]| + |h.elems[h.right[y]]|
  {
    var s := h.elems[if k < h.key[y] then h.left[y] else h.right[y]];
    assert |multiset(RemoveFirst(s, k))| == |multiset(s)| - 1;
  }

  /** The invariant of the search loop of `deleteNodeHelper`, `y` being the
      last node whose key sequence was updated (`NIL` before the first):
      the arena is well formed except that `y`'s sequence, and those of the
      nodes above it, already lack one copy of `k`. */
  ghost predicate Removing(h: Heap, k: int, y: int) {
    && Sized(h)
    && h.left[TNULL] == NIL && h.right[TNULL] == NIL
    && h.color[TNULL] == Black && h.elems[TNULL] == [] && h.bh[TNULL] == 0
    && (h.root == TNULL ==> h.live == {})
    && (h.root != TNULL ==> h.root in h.live)
    && (y != NIL ==> y in h.live && Linked(h, y) && RemovePending(h, y, k)
                     && h.left[y] != y && h.right[y] != y)
    && (forall i {:trigger NodeOk(h, i)} | i in h.live && i != y :: NodeOk(h, i))
  }

  /** Below the pending node the arena is well formed: a left step from a
      node there stays there, and goes to a shorter key sequence. */
  lemma RemovingLeft(h: Heap, k: int, y: int, m: int)
    requires Removing(h, k, y) && m in h.live && (y == NIL || |h.elems[m]| < |h.elems[y]|)
    requires h.left[m] != TNULL
    ensures h.left[m] in h.live && 0 < h.left[m] < |h.key|
    ensures |h.elems[h.left[m]]| < |h.elems[m]|
    ensures y == NIL || |h.elems[h.left[m]]| < |h.elems[y]|
  {
    assert m != y;
    assert NodeOk(h, m);
  }

  /** Before the first step the arena is well formed. */
  lemma RemovingStart(h: Heap, k: int)
    ensures Removing(h, k, NIL) <==> WellFormed(h)
  {
  }

  /** The search moves from a node holding `k` in its subtree to the child
      it takes; when that child does not hold `k`, the node itself holds
      it, and the search went right. */
  lemma RemoveFound(h: Heap, k: int, x: int)
    requires Sized(h) && x in h.live && Slot(h, h.left[x]) && Slot(h, h.right[x]) && ElemsOk(h, x)
    requires k in multiset(h.elems[x]) && k !in multiset(h.elems[Next(h, x, k)])
    ensures h.key[x] == k && Next(h, x, k) == h.right[x]
  {
    var l, m, r := h.elems[h.left[x]], h.key[x], h.elems[h.right[x]];
    SortedSplit(l, m, r);
    assert multiset(h.elems[x]) == multiset(l) + multiset{m} + multiset(r);
  }

  /** One step of the search: `x`, the node the search has reached, holds
      `k` in the subtree it goes on to, so `x`'s key sequence loses one
      copy of `k` and `x` becomes the last node updated. On the first step
      the root's sequence changes, so the tree's contents lose one `k`. */
  lemma RemoveStep(h: Heap, k: int, y: int, x: int)
    requires Removing(h, k, y) && (y != NIL ==> y in h.live)
    requires x == (if y == NIL then h.root else Next(h, y, k))
    requires x in h.live && NodeOk(h, x) && k in multiset(h.elems[x])
    requires k in multiset(h.elems[Next(h, x, k)])
    ensures var h' := h.(elems := h.elems[x := RemoveFirst(h.elems[x], k)]);
      && Removing(h', k, x)
      && h'.elems[h'.root] == (if y == NIL then RemoveFirst(h.elems[h.root], k) else h.elems[h.root])
  {
    assert x != y;
    RemovePivot(h, k, x);
    RemoveNodes(h, k, y, x);
    if y != NIL {
      assert h.parent[x] == y && x != h.root;
    }
  }

  lemma RemoveNodes(h: Heap, k: int, y: int, x: int)
    requires Removing(h, k, y) && (y != NIL ==> y in h.live)
    requires x == (if y == NIL then h.root else Next(h, y, k))
    requires x in h.live && NodeOk(h, x)
    ensures var h' := h.(elems := h.elems[x := RemoveFirst(h.elems[x], k)]);
      forall i | i in h'.live && i != x :: NodeOk(h', i)
  {
    var h' := h.(elems := h.elems[x := RemoveFirst(h.elems[x], k)]);
    forall i | i in h'.live && i != x ensures NodeOk(h', i) {
      RemoveNode(h, k, y, x, i);
    }
  }

  lemma RemovePivot(h: Heap, k: int, x: int)
    requires Sized(h) && x in h.live && NodeOk(h, x)
    requires k in multiset(h.elems[x]) && k in multiset(h.elems[Next(h, x, k)])
    ensures var h' := h.(elems := h.elems[x := RemoveFirst(h.elems[x], k)]);
      Linked(h', x) && RemovePending(h', x, k)
  {
    var l, m, r := h.elems[h.left[x]], h.key[x], h.elems[h.right[x]];
    assert h.left[x] != x && h.right[x] != x;
    RemoveFirstOrder(h.elems[x], k);
    if k < m {
      RemoveFirstLeft(l, m, r, k);
    } else if m < k {
      RemoveFirstRight(l, m, r, k);
    } else {
      RemoveFirstEqualRight(l, m, r);
    }
  }

  lemma RemoveNode(h: Heap, k: int, y: int, x: int, i: int)
    requires Removing(h, k, y) && (y != NIL ==> y in h.live)
    requires x == (if y == NIL then h.root else Next(h, y, k))
    requires x in h.live && NodeOk(h, x) && i in h.live && i != x
    ensures NodeOk(h.(elems := h.elems[x := RemoveFirst(h.elems[x], k)]), i)
  {
    if i == y {
      assert h.left[y] != h.right[y];
    } else {
      assert NodeOk(h, i);
      if y == NIL {
        assert h.parent[x] == NIL;
      } else {
        assert h.parent[x] == y;
      }
      assert h.left[i] != x && h.right[i] != x;
    }
  }

  /** The invariant of the search loop of `deleteNodeHelper`. `x` is the
      node reached, `z` the last node seen holding `k` (the sentinel before
      the first), `y` the last node whose key sequence lost a copy of `k`,
      and `found` says whether `z` is the node that will leave the tree:
      once it is, no node further down holds `k`. Before that, either the
      search is still at the root or below the pending node `y`, or the
      tree does not hold `k` at all. */
  ghost predicate Searching(h0: Heap, h: Heap, k: int, y: int, x: int, z: int, found: bool) {
    && IsRedBlack(h0) && h.(elems := h0.elems) == h0 && |h.elems| == |h0.elems|
    && Slot(h0, x) && 0 <= z < |h.key|
    && Removing(h, k, y) && (y != NIL ==> y in h.live)
    && (y == NIL ==> h.elems == h0.elems)
    && (y != NIL ==> h.elems[h.root] == RemoveFirst(h0.elems[h0.root], k))
    && (!found && y != NIL ==> x == Next(h, y, k))
    && (!found && y == NIL && x != h.root ==> k !in multiset(h.elems[h.root]) && k !in multiset(h.elems[x]))
    && (!found ==> z == TNULL || (y != NIL && h.key[z] == k))
    && (found ==> Located(h, k, y, z) && k !in multiset(h.elems[x]))
    && (found ==> y == NIL || |h.elems[x]| < |h.elems[y]|)
  }

  /** What the search has learned about the tree before it: only nodes
      above `x` have had their key sequences changed; once the search has
      passed a node holding `k` the tree holds `k`; and the node to remove
      is the last one on the path holding `k`, so its right subtree, where
      the search went on, holds no copy of `k`. */
  ghost predicate Tracked(h0: Heap, h: Heap, k: int, y: int, x: int, z: int, found: bool) {
    && |h.elems| == |h0.elems| == |h0.right| && 0 <= h0.root < |h0.elems|
    && 0 <= x < |h0.elems| && 0 <= z < |h0.right|
    && (forall i {:trigger h.elems[i]} | 0 <= i < |h.elems| && h.elems[i] != h0.elems[i] ::
          |h0.elems[x]| < |h0.elems[i]|)
    && (y != NIL || found ==> k in multiset(h0.elems[h0.root]))
    && (found ==> 0 <= h0.right[z] < |h0.elems| && k !in multiset(h0.elems[h0.right[z]]))
  }

  /** The search starts at the root of a red-black tree. */
  lemma SearchStart(h0: Heap, k: int)
    requires IsRedBlack(h0)
    ensures Searching(h0, h0, k, NIL, h0.root, TNULL, false)
    ensures Tracked(h0, h0, k, NIL, h0.root, TNULL, false)
  {
  }

  /** When the search reaches the sentinel, `z` is the node to remove, or
      the sentinel when the tree does not hold `k`. */
  lemma SearchEnd(h0: Heap, h: Heap, k: int, y: int, z: int, found: bool)
    requires Searching(h0, h, k, y, TNULL, z, found)
    ensures z == TNULL <==> !found
    ensures z == TNULL ==> h.elems == h0.elems && k !in multiset(Contents(h0))
    ensures z != TNULL ==> Found(h0, h, k, y, z)
  {
    if !found && y != NIL {
      assert false;
    }
  }

  /** When the search reaches the sentinel having found `z`, the tree held
      `k` and `z` is the last node on the path holding it. */
  lemma TrackedEnd(h0: Heap, h: Heap, k: int, y: int, z: int, found: bool)
    requires Searching(h0, h, k, y, TNULL, z, found) && Tracked(h0, h, k, y, TNULL, z, found)
    ensures z != TNULL ==> k in multiset(Contents(h0)) && k !in multiset(h0.elems[h0.right[z]])
  {
    SearchEnd(h0, h, k, y, z, found);
  }

  /** The loop invariant of the search: `Searching` and `Tracked`. */
  ghost predicate SearchState(h0: Heap, h: Heap, k: int, y: int, x: int, z: int, found: bool) {
    Searching(h0, h, k, y, x, z, found) && Tracked(h0, h, k, y, x, z, found)
  }

  /** One turn of the search loop, in the loop's own terms: right on
      `<=`, left otherwise, remembering `x` when it holds `k`. */
  lemma SearchMove(h0: Heap, h: Heap, k: int, y: int, x: int, z: int, found: bool)
    returns (h': Heap, y': int, found': bool)
    requires SearchState(h0, h, k, y, x, z, found) && x != TNULL
    ensures 0 <= x < |h0.key| && 0 <= h0.left[x] < |h0.key| && 0 <= h0.right[x] < |h0.key|
    ensures SearchState(h0, h', k, y', if h0.key[x] <= k then h0.right[x] else h0.left[x],
                        if h0.key[x] == k then x else z, found')
    ensures |h0.elems[if h0.key[x] <= k then h0.right[x] else h0.left[x]]| < |h0.elems[x]|
  {
    h', y', found' := SearchStep(h0, h, k, y, x, z, found);
    assert Next(h, x, k) == if h0.key[x] <= k then h0.right[x] else h0.left[x];
  }

  /** What the search loop leaves behind when it reaches the sentinel. */
  lemma SearchFinish(h0: Heap, h: Heap, k: int, y: int, z: int, found: bool)
    requires SearchState(h0, h, k, y, TNULL, z, found)
    ensures h.(elems := h0.elems) == h0 && |h.elems| == |h0.elems|
    ensures z == TNULL <==> k !in multiset(Contents(h0))
    ensures z == TNULL ==> h.elems == h0.elems
    ensures z != TNULL ==> Found(h0, h, k, y, z) && k !in multiset(h0.elems[h0.right[z]])
    ensures z != TNULL && y == NIL ==> h.elems == h0.elems
    ensures z != TNULL && y != NIL ==> h.elems[h.root] == RemoveFirst(h0.elems[h0.root], k)
  {
    SearchEnd(h0, h, k, y, z, found);
    TrackedEnd(h0, h, k, y, z, found);
  }

  /** One step of the search at `x`: when `x`'s subtree holds `k` and the
      child the search moves to does too, `x`'s key sequence loses one
      copy of `k` and `x` becomes the pending node; when the child does
      not, `x` holds `k` and is the node to remove; otherwise only the
      position changes. */
  lemma SearchStep(h0: Heap, h: Heap, k: int, y: int, x: int, z: int, found: bool)
    returns (h': Heap, y': int, found': bool)
    requires Searching(h0, h, k, y, x, z, found) && x != TNULL
    requires Tracked(h0, h, k, y, x, z, found)
    ensures x in h.live && x != y && 0 <= x < |h.key|
    ensures 0 <= h.left[x] < |h.key| && 0 <= h.right[x] < |h.key|
    ensures y' == y || y' == x
    ensures h' == if y' == x then h.(elems := h.elems[x := RemoveFirst(h.elems[x], k)]) else h
    ensures Searching(h0, h', k, y', Next(h, x, k), if h.key[x] == k then x else z, found')
    ensures Tracked(h0, h', k, y', Next(h, x, k), if h.key[x] == k then x else z, found')
    ensures |h0.elems[Next(h, x, k)]| < |h0.elems[x]|
  {
    SearchAt(h0, h, k, y, x, z, found);
    SearchTraced(h0, h, k, y, x, z, found);
    h', y', found' := h, y, found;
    if !found && k in multiset(h.elems[x]) {
      if k in multiset(h.elems[Next(h, x, k)]) {
        SearchDescend(h0, h, k, y, x, z);
        h' := h.(elems := h.elems[x := RemoveFirst(h.elems[x], k)]);
        y' := x;
        TrackDescend(h0, h, k, y, x, z);
      } else {
        SearchHit(h0, h, k, y, x, z);
        found' := true;
        TrackHit(h0, h, k, y, x, z);
      }
    } else {
      SearchPass(h0, h, k, y, x, z, found);
      TrackPass(h0, h, k, y, x, z, found);
    }
  }

  /** The few facts of `Searching` that `Tracked` relies on: the search
      changes nothing but key sequences; away from the root, with no node
      pending, the subtree reached holds no copy of `k`; and once the node
      to remove is found, neither does any subtree below it. */
  ghost predicate Traced(h0: Heap, h: Heap, k: int, y: int, x: int, found: bool) {
    && Sized(h0) && Sized(h) && |h.elems| == |h0.elems| && h.root == h0.root
    && h.key == h0.key && h.left == h0.left && h.right == h0.right
    && 0 <= x < |h0.key| && 0 <= h0.left[x] < |h0.key| && 0 <= h0.right[x] < |h0.key|
    && (y == NIL ==> h.elems == h0.elems)
    && (!found && y == NIL && x != h.root ==> k !in multiset(h.elems[x]))
    && (found ==> k !in multiset(h.elems[x]))
  }

  lemma SearchTraced(h0: Heap, h: Heap, k: int, y: int, x: int, z: int, found: bool)
    requires Searching(h0, h, k, y, x, z, found) && x in h.live && NodeOk(h, x)
    ensures Traced(h0, h, k, y, x, found) && h.key[x] in multiset(h.elems[x])
  {
    assert h.elems[x] == h.elems[h.left[x]] + [h.key[x]] + h.elems[h.right[x]];
  }

  /** Before the search takes a step, the child it moves to is smaller
      than every node whose key sequence has changed, and a node holding
      `k` in its subtree lies on the path of a tree holding `k`. */
  lemma TrackMove(h0: Heap, h: Heap, k: int, y: int, x: int, z: int, found: bool)
    requires Traced(h0, h, k, y, x, found) && Tracked(h0, h, k, y, x, z, found)
    requires |h0.elems[Next(h, x, k)]| < |h0.elems[x]|
    ensures forall i {:trigger h.elems[i]} | 0 <= i < |h.elems| && h.elems[i] != h0.elems[i] ::
              |h0.elems[Next(h, x, k)]| < |h0.elems[i]|
    ensures k in multiset(h.elems[x]) && !found ==> k in multiset(h0.elems[h0.root])
  {
  }

  lemma TrackDescend(h0: Heap, h: Heap, k: int, y: int, x: int, z: int)
    requires Traced(h0, h, k, y, x, false) && Tracked(h0, h, k, y, x, z, false)
    requires |h0.elems[Next(h, x, k)]| < |h0.elems[x]| && k in multiset(h.elems[x])
    ensures Tracked(h0, h.(elems := h.elems[x := RemoveFirst(h.elems[x], k)]), k, x, Next(h, x, k),
                    if h.key[x] == k then x else z, false)
  {
    TrackMove(h0, h, k, y, x, z, false);
    var h' := h.(elems := h.elems[x := RemoveFirst(h.elems[x], k)]);
    var x' := Next(h, x, k);
    forall i | 0 <= i < |h'.elems| && h'.elems[i] != h0.elems[i]
      ensures |h0.elems[x']| < |h0.elems[i]|
    {
      if i != x {
        assert h.elems[i] == h'.elems[i];
      }
    }
  }

  lemma TrackHit(h0: Heap, h: Heap, k: int, y: int, x: int, z: int)
    requires Traced(h0, h, k, y, x, false) && Tracked(h0, h, k, y, x, z, false)
    requires |h0.elems[Next(h, x, k)]| < |h0.elems[x]| && k in multiset(h.elems[x])
    requires h.key[x] == k && k !in multiset(h.elems[Next(h, x, k)])
    ensures Tracked(h0, h, k, y, Next(h, x, k), x, true)
  {
    TrackMove(h0, h, k, y, x, z, false);
    assert Next(h, x, k) == h0.right[x];
    assert h.elems[h.right[x]] == h0.elems[h.right[x]];
  }

  lemma TrackPass(h0: Heap, h: Heap, k: int, y: int, x: int, z: int, found: bool)
    requires Traced(h0, h, k, y, x, found) && Tracked(h0, h, k, y, x, z, found)
    requires |h0.elems[Next(h, x, k)]| < |h0.elems[x]| && h.key[x] in multiset(h.elems[x])
    requires found || k !in multiset(h.elems[x])
    ensures Tracked(h0, h, k, y, Next(h, x, k), if h.key[x] == k then x else z, found)
  {
    TrackMove(h0, h, k, y, x, z, found);
  }

  /** The node the search is at is a live node below the pending one, and
      the search moves on to a shorter key sequence. */
  lemma SearchAt(h0: Heap, h: Heap, k: int, y: int, x: int, z: int, found: bool)
    requires Searching(h0, h, k, y, x, z, found) && x != TNULL
    ensures x in h.live && x != y && 0 <= x < |h.key| && NodeOk(h, x)
    ensures 0 <= h.left[x] < |h.key| && 0 <= h.right[x] < |h.key|
    ensures |h0.elems[Next(h, x, k)]| < |h0.elems[x]|
  {
    SearchLive(h0, h, k, y, x, z, found);
    SearchShorter(h0, h, k, x);
  }

  lemma SearchLive(h0: Heap, h: Heap, k: int, y: int, x: int, z: int, found: bool)
    requires Searching(h0, h, k, y, x, z, found) && x != TNULL
    ensures x in h.live && x != y && 0 <= x < |h.key| && NodeOk(h, x)
  {
    assert h.live == h0.live;
    if y != NIL && !found {
      assert h.left[y] != y && h.right[y] != y;
    }
  }

  lemma SearchShorter(h0: Heap, h: Heap, k: int, x: int)
    requires IsRedBlack(h0) && Sized(h) && h.(elems := h0.elems) == h0 && x in h0.live
    ensures 0 <= x < |h.key|
    ensures 0 <= h.left[x] < |h.key| && 0 <= h.right[x] < |h.key|
    ensures |h0.elems[Next(h, x, k)]| < |h0.elems[x]|
  {
    assert NodeOk(h0, x);
    assert h.left == h0.left && h.right == h0.right && h.key == h0.key;
  }

  /** The child the search moves to holds `k`: `x` becomes pending. */
  lemma SearchDescend(h0: Heap, h: Heap, k: int, y: int, x: int, z: int)
    requires Searching(h0, h, k, y, x, z, false) && x in h.live && x != y && NodeOk(h, x)
    requires k in multiset(h.elems[x]) && k in multiset(h.elems[Next(h, x, k)])
    ensures var h' := h.(elems := h.elems[x := RemoveFirst(h.elems[x], k)]);
      && Searching(h0, h', k, x, Next(h, x, k), if h.key[x] == k then x else z, false)
      && |h'.elems[Next(h, x, k)]| < |h.elems[x]|
  {
    RemoveStep(h, k, y, x);
  }

  /** The child the search moves to does not hold `k`: `x` does, and is
      the node to remove. */
  lemma SearchHit(h0: Heap, h: Heap, k: int, y: int, x: int, z: int)
    requires Searching(h0, h, k, y, x, z, false) && x in h.live && x != y && NodeOk(h, x)
    requires k in multiset(h.elems[x]) && k !in multiset(h.elems[Next(h, x, k)])
    ensures h.key[x] == k
    ensures Searching(h0, h, k, y, Next(h, x, k), x, true)
    ensures |h.elems[Next(h, x, k)]| < |h.elems[x]|
  {
    RemoveFound(h, k, x);
    LocatedDetached(h, k, y, x);
  }

  /** `x`'s subtree does not hold `k`, or the node to remove is already
      known: nothing changes but the position. */
  lemma SearchPass(h0: Heap, h: Heap, k: int, y: int, x: int, z: int, found: bool)
    requires Searching(h0, h, k, y, x, z, found) && x in h.live && x != y && NodeOk(h, x)
    requires found || k !in multiset(h.elems[x])
    ensures Searching(h0, h, k, y, Next(h, x, k), if h.key[x] == k then x else z, found)
    ensures |h.elems[Next(h, x, k)]| < |h.elems[x]|
  {
  }

  /** `rbTransplant(u, v)`: `v` takes `u`'s place under `u`'s parent, or
      as the root, and `v`'s parent pointer is set to `u`'s parent, even
      when `v` is the sentinel. */
  ghost function Transplanted(h: Heap, u: int, v: int): (h': Heap)
    requires Sized(h) && 0 <= u < |h.key| && 0 <= v < |h.key|
    requires h.parent[u] == NIL || 0 <= h.parent[u] < |h.key|
    ensures Sized(h') && h'.live == h.live && h'.parent == h.parent[v := h.parent[u]]
    ensures h'.key == h.key && h'.color == h.color && h'.elems == h.elems && h'.bh == h.bh
    ensures h'.root == (if h.parent[u] == NIL then v else h.root)
    ensures h'.left == (if h.parent[u] != NIL && u == h.left[h.parent[u]] then h.left[h.parent[u] := v] else h.left)
    ensures h'.right == (if h.parent[u] != NIL && u != h.left[h.parent[u]] then h.right[h.parent[u] := v] else h.right)
  {
    var p := h.parent[u];
    if p == NIL then h.(root := v, parent := h.parent[v := p])
    else if u == h.left[p] then h.(left := h.left[p := v], parent := h.parent[v := p])
    else h.(right := h.right[p := v], parent := h.parent[v := p])
  }

  /** The child that takes `z`'s place when `z` has at most one. */
  ghost function OnlyChild(h: Heap, z: int): int
    requires Sized(h) && 0 <= z < |h.key|
  {
    if h.left[z] == TNULL then h.right[z] else h.left[z]
  }

  /** The search has found `z`, the node holding `k` that takes the place
      of the pending removal below `y`. */
  ghost predicate Located(h: Heap, k: int, y: int, z: int) {
    && Removing(h, k, y) && (y != NIL ==> y in h.live)
    && z == (if y == NIL then h.root else Next(h, y, k))
    && z in h.live && h.key[z] == k && NodeOk(h, z) && z != y
  }

  /** What `Located` says about the links alone: `z` hangs below `y`, or
      is the root when `y` is `NIL`, and every node but `y` is in order. */
  ghost predicate Detached(h: Heap, y: int, z: int) {
    && Apart(h, y, z) && NodeOk(h, z)
    && (forall i {:trigger NodeOk(h, i)} | i in h.live && i != y :: NodeOk(h, i))
  }

  /** The part of `Detached` that mentions no node's order. */
  ghost predicate Apart(h: Heap, y: int, z: int) {
    && Sized(h)
    && h.left[TNULL] == NIL && h.right[TNULL] == NIL
    && h.color[TNULL] == Black && h.elems[TNULL] == [] && h.bh[TNULL] == 0
    && h.root in h.live
    && (y != NIL ==> y in h.live && Linked(h, y) && (h.left[y] == z || h.right[y] == z)
                     && h.left[y] != y && h.right[y] != y)
    && (y == NIL ==> z == h.root)
    && z in h.live && z != y && h.parent[z] == y
    && h.left[z] != y && h.right[z] != y
    && (y != NIL && y != h.root ==> h.parent[y] != z)
    && (y != NIL ==> |h.elems[z]| <= |h.elems[y]|)
    && (y != NIL && y != h.root ==> |h.elems[y]| < |h.elems[h.parent[y]]|)
  }

  lemma LocatedDetached(h: Heap, k: int, y: int, z: int)
    requires Located(h, k, y, z)
    ensures Detached(h, y, z)
  {
    ParentOfFound(h, k, y, z);
    if y != NIL {
      PendingLength(h, y, k);
      if y != h.root {
        LocatedAbove(h, k, y, z);
      }
    }
  }

  /** Above the pending node the search came down one node at a time. */
  lemma LocatedAbove(h: Heap, k: int, y: int, z: int)
    requires Located(h, k, y, z) && y != NIL && y != h.root
    ensures h.parent[y] != z && |h.elems[y]| < |h.elems[h.parent[y]]|
  {
    ParentOfFound(h, k, y, z);
    PendingLength(h, y, k);
    if h.parent[y] == z {
      assert false;
    }
    assert NodeOk(h, h.parent[y]);
  }

  /** The situation after the search: `h0` is the red-black arena before
      the search and `h` the arena after it, which differs only in the key
      sequences of the nodes above `z`. */
  ghost predicate Found(h0: Heap, h: Heap, k: int, y: int, z: int) {
    && IsRedBlack(h0) && h.(elems := h0.elems) == h0 && |h.elems| == |h0.elems|
    && Located(h, k, y, z)
  }

  /** `rbTransplant(z, x)` with `x` the only child of `z`, and `z` leaving
      the tree. */
  ghost function Spliced(h: Heap, z: int): (h': Heap)
    requires Sized(h) && z in h.live && Slot(h, h.left[z]) && Slot(h, h.right[z])
    requires h.parent[z] == NIL || 0 <= h.parent[z] < |h.key|
    ensures Sized(h') && h'.live == h.live - {z}
    ensures h' == Transplanted(h, z, OnlyChild(h, z)).(live := h.live - {z})
  {
    Transplanted(h, z, OnlyChild(h, z)).(live := h.live - {z})
  }

  /** `z` has at most one child and is replaced by it (`rbTransplant(z,
      z->right)` or `rbTransplant(z, z->left)`), then leaves the tree. The
      arena is well formed and the tree has lost one copy of `k`. When `z`
      was red the tree is red-black; when it was black, the child carries
      the deficit `fixDelete` repairs. */
  lemma SpliceOut(h0: Heap, h: Heap, k: int, y: int, z: int)
    requires Found(h0, h, k, y, z)
    requires h.left[z] == TNULL || h.right[z] == TNULL
    ensures h.parent[z] == y
    ensures var h' := Spliced(h, z);
      && WellFormed(h') && h'.live == h.live - {z}
      && Contents(h') == (if y == NIL then RemoveFirst(h.elems[z], k) else h.elems[h.root])
      && (h.color[z] == Black ==> DeleteFixing(h', OnlyChild(h, z)))
      && (h.color[z] == Red ==> IsRedBlack(h'))
  {
    var x := OnlyChild(h, z);
    LocatedDetached(h, k, y, z);
    SplicedShapeOf(h, y, z);
    SpliceWellFormed(h, k, y, z);
    SpliceColours(h0, h, Spliced(h, z), y, z, x);
  }

  /** The arena after splicing out `z`, field by field: `z`'s child `x`
      hangs where `z` did, with `z`'s parent as its own. */
  ghost predicate SplicedShape(h: Heap, h': Heap, y: int, z: int, x: int)
    requires Sized(h) && (y == NIL || 0 <= y < |h.key|)
  {
    && Sized(h') && h'.live == h.live - {z}
    && h'.key == h.key && h'.color == h.color && h'.elems == h.elems && h'.bh == h.bh
    && 0 <= x < |h.key| && h'.parent == h.parent[x := y]
    && h'.root == (if y == NIL then x else h.root)
    && h'.left == (if y != NIL && h.left[y] == z then h.left[y := x] else h.left)
    && h'.right == (if y != NIL && h.left[y] != z then h.right[y := x] else h.right)
  }

  lemma SplicedShapeOf(h: Heap, y: int, z: int)
    requires Detached(h, y, z)
    requires h.left[z] == TNULL || h.right[z] == TNULL
    ensures SplicedShape(h, Spliced(h, z), y, z, OnlyChild(h, z))
  {
  }

  lemma SpliceWellFormed(h: Heap, k: int, y: int, z: int)
    requires Located(h, k, y, z)
    requires h.left[z] == TNULL || h.right[z] == TNULL
    ensures h.parent[z] == y
    ensures var h' := Spliced(h, z);
      && WellFormed(h') && h'.live == h.live - {z}
      && Contents(h') == (if y == NIL then RemoveFirst(h.elems[z], k) else h.elems[h.root])
  {
    var x := OnlyChild(h, z);
    LocatedDetached(h, k, y, z);
    SplicedShapeOf(h, y, z);
    if y == NIL {
      RemoveFirstSplit(h.elems[h.left[z]], k, h.elems[h.right[z]]);
      if x == TNULL {
        OnlyRoot(h, z);
      }
    }
    SpliceNodes(h, Spliced(h, z), k, y, z, x);
  }

  /** Every node of the spliced arena is in order, so the arena is well
      formed. */
  lemma SpliceNodes(h: Heap, h': Heap, k: int, y: int, z: int, x: int)
    requires Detached(h, y, z)
    requires h.left[z] == TNULL || h.right[z] == TNULL
    requires x == OnlyChild(h, z) && SplicedShape(h, h', y, z, x)
    requires y != NIL ==> h.key[z] == k && z == Next(h, y, k) && RemovePending(h, y, k)
    requires y == NIL && x == TNULL ==> h.live == {z}
    ensures WellFormed(h')
  {
    SpliceTop(h, h', y, z, x);
    forall i | i in h'.live ensures NodeOk(h', i) {
      SpliceNode(h, h', k, y, z, x, i);
    }
  }

  /** The sentinel is untouched and the root is live, or the tree empty. */
  lemma SpliceTop(h: Heap, h': Heap, y: int, z: int, x: int)
    requires Detached(h, y, z)
    requires h.left[z] == TNULL || h.right[z] == TNULL
    requires x == OnlyChild(h, z) && SplicedShape(h, h', y, z, x)
    requires y == NIL && x == TNULL ==> h.live == {z}
    ensures h'.left[TNULL] == NIL && h'.right[TNULL] == NIL
    ensures h'.color[TNULL] == Black && h'.elems[TNULL] == [] && h'.bh[TNULL] == 0
    ensures h'.root == TNULL ==> h'.live == {}
    ensures h'.root != TNULL ==> h'.root in h'.live
  {
    if y != NIL {
      assert h.root != z;
    }
  }

  lemma SpliceNode(h: Heap, h': Heap, k: int, y: int, z: int, x: int, i: int)
    requires Detached(h, y, z)
    requires h.left[z] == TNULL || h.right[z] == TNULL
    requires x == OnlyChild(h, z) && SplicedShape(h, h', y, z, x)
    requires y != NIL ==> h.key[z] == k && z == Next(h, y, k) && RemovePending(h, y, k)
    requires i in h'.live
    ensures NodeOk(h', i)
  {
    if i == y {
      SpliceParentLinked(h, h', y, z, x);
      SpliceParentElems(h, h', k, y, z, x);
    } else if i == x {
      SpliceChild(h, h', y, z, x);
    } else {
      SpliceOther(h, h', y, z, x, i);
    }
  }

  /** A root with two empty children is the only node. */
  lemma OnlyRoot(h: Heap, z: int)
    requires WellFormed(h) && z == h.root && z in h.live
    requires h.left[z] == TNULL && h.right[z] == TNULL
    ensures h.live == {z}
  {
    assert NodeOk(h, z);
    assert |h.elems[z]| == 1;
    forall i | i in h.live ensures i == z {
      if i != z {
        assert NodeOk(h, i);
        var p := h.parent[i];
        assert NodeOk(h, p);
        ElemsBound(h, p);
        assert false;
      }
    }
  }

  /** `z` hangs below `y`, or is the root when the search updated no node. */
  lemma ParentOfFound(h: Heap, k: int, y: int, z: int)
    requires Located(h, k, y, z)
    ensures h.parent[z] == y && (y == NIL <==> z == h.root)
  {
    if y != NIL {
      assert h.parent[z] == y;
    }
  }

  /** `y` keeps its other child and its place, and takes `z`'s child. */
  lemma SpliceParentLinked(h: Heap, h': Heap, y: int, z: int, x: int)
    requires Detached(h, y, z) && y != NIL
    requires h.left[z] == TNULL || h.right[z] == TNULL
    requires x == OnlyChild(h, z) && SplicedShape(h, h', y, z, x)
    ensures y in h'.live && Linked(h', y)
  {
    var o := if h.left[y] == z then h.right[y] else h.left[y];
    assert o != z;
    assert o != TNULL ==> h.parent[o] == y && o != x;
    assert x != TNULL ==> h.parent[x] == z;
    if h.left[y] == z {
      assert h'.left[y] == x && h'.right[y] == o;
    } else {
      assert h'.right[y] == x && h'.left[y] == o;
    }
    assert h'.parent[y] == h.parent[y];
    if y != h.root {
      var p := h.parent[y];
      assert p != z;
      assert NodeOk(h, p);
      assert h'.left[p] == h.left[p] && h'.right[p] == h.right[p];
    }
  }

  /** `y`'s pending sequence is exactly the in-order sequence once `z`'s
      child stands in for `z`. */
  lemma SpliceParentElems(h: Heap, h': Heap, k: int, y: int, z: int, x: int)
    requires Detached(h, y, z) && y != NIL && h.key[z] == k
    requires z == Next(h, y, k) && RemovePending(h, y, k)
    requires h.left[z] == TNULL || h.right[z] == TNULL
    requires x == OnlyChild(h, z) && SplicedShape(h, h', y, z, x)
    requires y in h'.live && Slot(h', h'.left[y]) && Slot(h', h'.right[y])
    ensures ElemsOk(h', y)
  {
    assert RemoveFirst(h.elems[z], k) == h.elems[x] by {
      RemoveFirstSplit(h.elems[h.left[z]], k, h.elems[h.right[z]]);
    }
    assert x != y;
    if h.left[y] == z {
      assert h'.left[y] == x && h'.right[y] == h.right[y];
    } else {
      assert h'.right[y] == x && h'.left[y] == h.left[y];
    }
  }

  lemma SpliceChild(h: Heap, h': Heap, y: int, z: int, x: int)
    requires Detached(h, y, z)
    requires h.left[z] == TNULL || h.right[z] == TNULL
    requires x == OnlyChild(h, z) && SplicedShape(h, h', y, z, x) && x in h.live
    ensures x in h'.live && NodeOk(h', x)
  {
    assert x != y;
    assert NodeOk(h, x);
    var l, r := h.left[x], h.right[x];
    assert l != z && r != z && l != x && r != x;
    assert h'.left[x] == l && h'.right[x] == r && h'.parent[x] == y;
    assert l != TNULL ==> h'.parent[l] == x;
    assert r != TNULL ==> h'.parent[r] == x;
    if y == NIL {
      assert h'.root == x;
    } else {
      assert h'.root == h.root && h.root != z && h.root != x;
      assert h'.left[y] == x || h'.right[y] == x;
    }
    assert ElemsOk(h', x);
    assert Linked(h', x);
  }

  lemma SpliceOther(h: Heap, h': Heap, y: int, z: int, x: int, i: int)
    requires Detached(h, y, z)
    requires h.left[z] == TNULL || h.right[z] == TNULL
    requires x == OnlyChild(h, z) && SplicedShape(h, h', y, z, x)
    requires i in h.live && i != z && i != y && i != x
    ensures i in h'.live && NodeOk(h', i)
  {
    assert NodeOk(h, i);
    var l, r, p := h.left[i], h.right[i], h.parent[i];
    assert l != z && r != z;
    assert h'.left[i] == l && h'.right[i] == r && h'.parent[i] == p;
    assert l != TNULL ==> l != x && h'.parent[l] == i;
    assert r != TNULL ==> r != x && h'.parent[r] == i;
    if y == NIL {
      assert h'.root == x && i != h.root && p != z;
    } else {
      assert h'.root == h.root && h.root != z;
    }
    if i != h.root {
      assert p != z && p in h'.live;
      if p == y {
        assert h'.left[p] == i || h'.right[p] == i;
      } else {
        assert h'.left[p] == h.left[p] && h'.right[p] == h.right[p];
      }
    }
  }

  /** The colours after the splice: every node but `y` keeps its children,
      colour and black height. A black `z` leaves its child's side of `y`
      one black short; a red `z` had two empty children and leaves the tree
      red-black. */
  lemma SpliceColours(h0: Heap, h: Heap, h': Heap, y: int, z: int, x: int)
    requires IsRedBlack(h0) && h.(elems := h0.elems) == h0 && |h.elems| == |h0.elems|
    requires Detached(h, y, z)
    requires h.left[z] == TNULL || h.right[z] == TNULL
    requires x == OnlyChild(h, z) && SplicedShape(h, h', y, z, x) && WellFormed(h')
    ensures h.color[z] == Black ==> DeleteFixing(h', x)
    ensures h.color[z] == Red ==> IsRedBlack(h')
  {
    forall i | i in h'.live && i != y
      ensures BhOk(h', i) && RedOk(h', i)
    {
      SpliceKept(h0, h, h', y, z, x, i);
    }
    if h.color[z] == Black {
      SpliceBlack(h0, h, h', y, z, x);
    } else {
      SpliceRed(h0, h, h', y, z, x);
    }
  }

  /** Every node but `y` is balanced and has no red child wrongly. */
  ghost predicate KeptColours(h': Heap, y: int)
    requires WellFormed(h')
  {
    && (forall i {:trigger BhOk(h', i)} | i in h'.live && i != y :: BhOk(h', i))
    && (forall i {:trigger RedOk(h', i)} | i in h'.live && i != y :: RedOk(h', i))
  }

  /** Below a black `z`, `y` is one black short on `x`'s side. */
  lemma SpliceBlack(h0: Heap, h: Heap, h': Heap, y: int, z: int, x: int)
    requires IsRedBlack(h0) && h.(elems := h0.elems) == h0 && |h.elems| == |h0.elems|
    requires Detached(h, y, z) && h.color[z] == Black
    requires h.left[z] == TNULL || h.right[z] == TNULL
    requires x == OnlyChild(h, z) && SplicedShape(h, h', y, z, x) && WellFormed(h')
    requires KeptColours(h', y)
    ensures DeleteFixing(h', x)
  {
    BlackHeightSize(h0, x);
    if y != NIL {
      SpliceShort(h0, h, h', y, z, x);
      assert h'.root == h.root;
      if x != TNULL {
        assert NodeOk(h, x) && h.parent[x] == z;
      }
    } else {
      assert h'.root == x;
    }
  }

  lemma SpliceShort(h0: Heap, h: Heap, h': Heap, y: int, z: int, x: int)
    requires IsRedBlack(h0) && h.(elems := h0.elems) == h0 && |h.elems| == |h0.elems|
    requires Detached(h, y, z) && y != NIL && h.color[z] == Black
    requires h.left[z] == TNULL || h.right[z] == TNULL
    requires x == OnlyChild(h, z) && SplicedShape(h, h', y, z, x) && WellFormed(h')
    ensures y in h'.live && Short(h', y, x) && RedOkBut(h', y, x)
  {
    assert NodeOk(h0, z) && BhOk(h0, z);
    assert NodeOk(h0, y) && BhOk(h0, y) && RedOk(h0, y);
    assert h'.left[y] == x || h'.right[y] == x;
  }

  /** A red `z` had only empty children, so `y` keeps its black height. */
  lemma SpliceRed(h0: Heap, h: Heap, h': Heap, y: int, z: int, x: int)
    requires IsRedBlack(h0) && h.(elems := h0.elems) == h0 && |h.elems| == |h0.elems|
    requires Detached(h, y, z) && h.color[z] == Red
    requires h.left[z] == TNULL || h.right[z] == TNULL
    requires x == OnlyChild(h, z) && SplicedShape(h, h', y, z, x) && WellFormed(h')
    requires KeptColours(h', y)
    ensures IsRedBlack(h')
  {
    assert NodeOk(h0, z) && BhOk(h0, z) && RedOk(h0, z);
    assert y != NIL;
    assert x == TNULL by {
      if x != TNULL {
        assert NodeOk(h0, x) && BhOk(h0, x);
        BlackHeightSize(h0, h0.left[x]);
      }
    }
    assert NodeOk(h0, y) && BhOk(h0, y) && RedOk(h0, y);
    assert h'.left[y] == x || h'.right[y] == x;
    assert h'.root == h.root;
    assert BhOk(h', y) && RedOk(h', y);
  }

  /** A node other than `y` looks the same from the colours' side. */
  lemma SpliceKept(h0: Heap, h: Heap, h': Heap, y: int, z: int, x: int, i: int)
    requires IsRedBlack(h0) && h.(elems := h0.elems) == h0 && |h.elems| == |h0.elems|
    requires Detached(h, y, z)
    requires x == OnlyChild(h, z) && SplicedShape(h, h', y, z, x) && WellFormed(h')
    requires i in h'.live && i != y
    ensures BhOk(h', i) && RedOk(h', i)
  {
    assert NodeOk(h, i) && NodeOk(h0, i) && BhOk(h0, i) && RedOk(h0, i);
    assert SameAt(h0, h', i);
    SameAtRules(h0, h', i);
  }
}
