/** The two-child case of `deleteNodeHelper`: `z`'s successor `m`, the
    leftmost node of its right subtree, leaves its place to its right child
    and takes `z`'s place, subtrees and colour. */
module RedBlackRelink {
  import opened Common
  import opened RedBlackHeap
  import opened RedBlackInsertFix
  import opened RedBlackInsert
  import opened RedBlackDeleteFix
  import opened RedBlackDelete

  /** The path `minimum` walks: left links from its start down to a node
      without a left child, every node on it a real one. */
  ghost predicate LeftSpine(h: Heap, sp: seq<int>)
    requires Sized(h)
  {
    && |sp| >= 1
    && (forall i | 0 <= i < |sp| :: sp[i] != TNULL && 0 <= sp[i] < |h.key|)
    && (forall i {:trigger h.left[sp[i]]} | 0 <= i < |sp| - 1 :: h.left[sp[i]] == sp[i + 1])
    && h.left[sp[|sp| - 1]] == TNULL
  }

  /** What the relinking reads of the spine: it starts at `z`'s right
      child, avoids `z`, and its last node hangs below the one before it,
      or below `z` when it is the only one. */
  ghost predicate SpinePath(h: Heap, z: int, sp: seq<int>)
    requires Sized(h)
  {
    && LeftSpine(h, sp) && 0 <= z < |h.key| && sp[0] == h.right[z]
    && (forall i | 0 <= i < |sp| :: sp[i] != z)
    && 0 <= h.right[sp[|sp| - 1]] < |h.key| && h.right[sp[|sp| - 1]] != z
    && h.parent[sp[|sp| - 1]] == (if |sp| > 1 then sp[|sp| - 2] else z)
  }

  /** The left spine of `z`'s right subtree in a tree that is in order
      below `z`: live nodes, each the parent of the next, all distinct,
      whose key sequences all start with the last node's key. */
  ghost predicate SpineOk(h: Heap, z: int, sp: seq<int>)
    requires Sized(h)
  {
    && LeftSpine(h, sp) && 0 <= z < |h.key| && sp[0] == h.right[z]
    && (forall i | 0 <= i < |sp| :: sp[i] in h.live && sp[i] != z)
    && (forall i | 0 <= i < |sp| :: |h.elems[sp[i]]| < |h.elems[z]|)
    && h.parent[sp[0]] == z
    && (forall i {:trigger h.parent[sp[i]]} | 0 < i < |sp| :: h.parent[sp[i]] == sp[i - 1])
    && (forall i, j | 0 <= i < j < |sp| :: sp[i] != sp[j])
    && Slot(h, h.right[sp[|sp| - 1]]) && 0 <= h.parent[sp[|sp| - 1]] < |h.key|
    && h.right[sp[|sp| - 1]] != z
    && (h.right[sp[|sp| - 1]] != TNULL ==> h.parent[h.right[sp[|sp| - 1]]] == sp[|sp| - 1])
    && (forall i | 0 <= i < |sp| :: sp[i] != h.right[sp[|sp| - 1]])
    && |h.elems[h.right[sp[|sp| - 1]]]| < |h.elems[z]|
    && SpinePath(h, z, sp)
  }

  /** Every key sequence along the spine starts with the last node's key,
      the smallest of the subtree. */
  ghost predicate SpineHeads(h: Heap, sp: seq<int>)
    requires Sized(h) && LeftSpine(h, sp)
  {
    forall i | 0 <= i < |sp| :: h.elems[sp[i]] != [] && h.elems[sp[i]][0] == h.key[sp[|sp| - 1]]
  }

  lemma SpineFacts(h: Heap, y: int, z: int, sp: seq<int>)
    requires Detached(h, y, z) && h.left[z] != TNULL && h.right[z] != TNULL
    requires LeftSpine(h, sp) && sp[0] == h.right[z]
    ensures SpineOk(h, z, sp) && SpineHeads(h, sp) && forall i | 0 <= i < |sp| :: sp[i] != y
  {
    SpineDown(h, y, z, sp, |sp|);
    SpineFirst(h, y, z, sp, 0);
    var m := sp[|sp| - 1];
    assert NodeOk(h, m);
    assert |h.elems[h.right[m]]| < |h.elems[m]|;
    if |sp| > 1 {
      assert h.parent[sp[|sp| - 1]] == sp[|sp| - 2];
    }
  }

  /** Down the first `j` nodes of the spine the key sequences shrink, so
      the nodes are distinct, and lie below `z`, so none of them is `y`. */
  lemma {:induction false} SpineDown(h: Heap, y: int, z: int, sp: seq<int>, j: int)
    requires Detached(h, y, z) && h.left[z] != TNULL && h.right[z] != TNULL
    requires LeftSpine(h, sp) && sp[0] == h.right[z] && 1 <= j <= |sp|
    ensures forall i | 0 <= i < j :: sp[i] in h.live && sp[i] != z && sp[i] != y
    ensures forall i | 0 <= i < j :: |h.elems[sp[i]]| < |h.elems[z]|
    ensures h.parent[sp[0]] == z
    ensures forall i {:trigger h.parent[sp[i]]} | 0 < i < j :: h.parent[sp[i]] == sp[i - 1]
    ensures forall i, i' | 0 <= i < i' < j :: |h.elems[sp[i']]| < |h.elems[sp[i]]|
    decreases j
  {
    if j == 1 {
      assert NodeOk(h, z);
    } else {
      SpineDown(h, y, z, sp, j - 1);
      var a := sp[j - 2];
      assert NodeOk(h, a);
    }
  }

  /** Every node of the spine from `j` on holds the last node's key first. */
  lemma {:induction false} SpineFirst(h: Heap, y: int, z: int, sp: seq<int>, j: int)
    requires Detached(h, y, z) && LeftSpine(h, sp) && 0 <= j < |sp|
    requires forall i | 0 <= i < |sp| :: sp[i] in h.live && sp[i] != y
    ensures forall i | j <= i < |sp| :: h.elems[sp[i]] != [] && h.elems[sp[i]][0] == h.key[sp[|sp| - 1]]
    decreases |sp| - j
  {
    var a := sp[j];
    assert NodeOk(h, a);
    var e := h.elems[h.right[a]];
    if j < |sp| - 1 {
      SpineFirst(h, y, z, sp, j + 1);
      var c := h.elems[sp[j + 1]];
      assert h.elems[a] == c + [h.key[a]] + e;
      assert h.elems[a][0] == c[0];
    } else {
      assert h.elems[a] == [h.key[a]] + e;
    }
  }

  /** The key sequences with the first key dropped at the nodes of `ds`. */
  ghost function Dropped(e: seq<seq<int>>, ds: seq<int>): (e': seq<seq<int>>)
    ensures |e'| == |e|
    ensures forall i | 0 <= i < |e| :: e'[i] == (if i in ds && e[i] != [] then e[i][1..] else e[i])
  {
    seq(|e|, i requires 0 <= i < |e| => if i in ds && e[i] != [] then e[i][1..] else e[i])
  }

  /** Lines 268-276 of `deleteNodeHelper`, with `m` the last node of
      `sp`, the leftmost node of `z`'s right subtree, and `x` its right
      child: unless `m` is `z`'s right child, `m` leaves its place to `x`
      and takes over `z`'s right subtree; otherwise only `x`'s parent is
      set to `m`. */
  ghost function Unhooked(h: Heap, z: int, sp: seq<int>): (h1: Heap)
    requires Sized(h) && SpinePath(h, z, sp)
    ensures var n, m := |sp|, sp[|sp| - 1];
      && Sized(h1) && h1.live == h.live && h1.root == h.root && h1.key == h.key
      && h1.color == h.color && h1.elems == h.elems && h1.bh == h.bh
      && h1.left == (if n > 1 then h.left[sp[n - 2] := h.right[m]] else h.left)
      && h1.right == (if n > 1 then h.right[m := h.right[z]] else h.right)
      && h1.parent == (if n > 1 then h.parent[h.right[m] := sp[n - 2]][h.right[z] := m]
                       else h.parent[h.right[m] := m])
  {
    var m := sp[|sp| - 1];
    var x := h.right[m];
    if h.parent[m] == z then h.(parent := h.parent[x := m])
    else
      var t := Transplanted(h, m, x);
      t.(right := t.right[m := h.right[z]], parent := t.parent[h.right[z] := m])
  }

  /** The arena after the relinking, field by field: the links, ... */
  ghost predicate RelinkedShape(h: Heap, h': Heap, y: int, z: int, sp: seq<int>)
    requires Sized(h) && LeftSpine(h, sp) && 0 <= z < |h.key| && (y == NIL || 0 <= y < |h.key|)
    requires 0 <= h.right[sp[|sp| - 1]] < |h.key| && 0 <= h.left[z] < |h.key| && 0 <= h.right[z] < |h.key|
  {
    RelinkedLinks(h, h', y, z, sp) && RelinkedData(h, h', z, sp)
  }

  ghost predicate RelinkedLinks(h: Heap, h': Heap, y: int, z: int, sp: seq<int>)
    requires Sized(h) && LeftSpine(h, sp) && 0 <= z < |h.key| && (y == NIL || 0 <= y < |h.key|)
    requires 0 <= h.right[sp[|sp| - 1]] < |h.key| && 0 <= h.left[z] < |h.key| && 0 <= h.right[z] < |h.key|
  {
    var n := |sp|;
    var m, x := sp[n - 1], h.right[sp[n - 1]];
    var zl, zr := h.left[z], h.right[z];
    var l1 := if n > 1 then h.left[sp[n - 2] := x] else h.left;
    var r1 := if n > 1 then h.right[m := zr] else h.right;
    var onLeft := y != NIL && h.left[y] == z;
    && Sized(h') && h'.live == h.live - {z} && h'.key == h.key
    && h'.root == (if y == NIL then m else h.root)
    && h'.left == (if onLeft then l1[y := m] else l1)[m := zl]
    && h'.right == (if y != NIL && !onLeft then r1[y := m] else r1)
    && h'.parent == (if n > 1 then h.parent[x := sp[n - 2]][zr := m] else h.parent[x := m])[m := y][zl := m]
  }

  /** ... and the colours, black heights and key sequences. */
  ghost predicate RelinkedData(h: Heap, h': Heap, z: int, sp: seq<int>)
    requires Sized(h) && LeftSpine(h, sp) && 0 <= z < |h.key|
    requires 0 <= h.left[z] < |h.key| && 0 <= h.right[z] < |h.key|
  {
    var n, m := |sp|, sp[|sp| - 1];
    && h'.color == h.color[m := h.color[z]] && h'.bh == h.bh[m := h.bh[z]]
    && h'.elems == Dropped(h.elems, sp[..n - 1])[m := h.elems[h.left[z]] + h.elems[h.right[z]]]
  }

  /** Lines 277-282 once `m` has taken `z`'s place in `t`: `m` takes `z`'s
      left subtree and colour, and `z` leaves the tree. */
  ghost function Adopted(t: Heap, h: Heap, z: int, sp: seq<int>): (h': Heap)
    requires Sized(h) && LeftSpine(h, sp) && 0 <= z < |h.key| && 0 <= h.left[z] < |h.key|
    requires 0 <= h.right[z] < |h.key| && |t.left| == |t.parent| == |t.color| == |h.key|
    ensures |h'.left| == |h'.parent| == |h'.color| == |h'.elems| == |h'.bh| == |h.key|
  {
    var m := sp[|sp| - 1];
    t.(left := t.left[m := h.left[z]], parent := t.parent[h.left[z] := m],
       color := t.color[m := h.color[z]],
       elems := Dropped(h.elems, sp[..|sp| - 1])[m := h.elems[h.left[z]] + h.elems[h.right[z]]],
       bh := h.bh[m := h.bh[z]], live := h.live - {z})
  }

  /** Lines 277-282: `m` takes `z`'s place, `z`'s left subtree and `z`'s
      colour, and `z` leaves the tree. The key sequences along the spine
      above `m` lose their first key, `m`'s, and `m` holds what `z`'s two
      subtrees held. */
  ghost function Relinked(h: Heap, z: int, sp: seq<int>): (h': Heap)
    requires Sized(h) && z in h.live && SpinePath(h, z, sp)
    requires 0 <= h.left[z] < |h.key| && (h.parent[z] == NIL || 0 <= h.parent[z] < |h.key|)
    requires forall i | 0 <= i < |sp| :: sp[i] != h.parent[z]
    ensures RelinkedShape(h, h', h.parent[z], z, sp)
  {
    Adopted(Transplanted(Unhooked(h, z, sp), z, sp[|sp| - 1]), h, z, sp)
  }


  /** Every live node but `y` is linked consistently. */
  ghost predicate LinkedBut(h: Heap, y: int)
    requires Sized(h)
  {
    forall i {:trigger Linked(h, i)} | i in h.live && i != y :: Linked(h, i)
  }

  /** Every live node but `y` is in order. */
  ghost predicate ElemsBut(h: Heap, y: int)
    requires Sized(h)
  {
    forall i {:trigger ElemsOk(h, i)} | i in h.live && i != y && Slot(h, h.left[i]) && Slot(h, h.right[i])
      :: ElemsOk(h, i)
  }

  lemma DetachedParts(h: Heap, y: int, z: int)
    requires Detached(h, y, z)
    ensures Apart(h, y, z) && LinkedBut(h, y) && ElemsBut(h, y)
  {
    forall i | i in h.live && i != y ensures Linked(h, i) {
      assert NodeOk(h, i);
    }
    forall i | i in h.live && i != y && Slot(h, h.left[i]) && Slot(h, h.right[i]) ensures ElemsOk(h, i) {
      assert NodeOk(h, i);
    }
  }

  /** The arena `h'` is `h` relinked around the spine `sp` of `z`'s right
      subtree, `z` hanging below `y` in the arena after the search; only
      the links are mentioned. */
  ghost predicate Relinking(h: Heap, h': Heap, y: int, z: int, sp: seq<int>) {
    && Apart(h, y, z) && LinkedBut(h, y) && Linked(h, z) && h.left[z] != TNULL && h.right[z] != TNULL
    && SpineOk(h, z, sp) && (forall i | 0 <= i < |sp| :: sp[i] != y)
    && RelinkedLinks(h, h', y, z, sp)
  }

  /** Where the relinking leaves a node's links as they were. */
  lemma LinksAt(h: Heap, h': Heap, y: int, z: int, sp: seq<int>, i: int)
    requires Relinking(h, h', y, z, sp) && 0 <= i < |h.key|
    ensures var n, m := |sp|, sp[|sp| - 1];
      && (i != y && i != m && (n == 1 || i != sp[n - 2]) ==> h'.left[i] == h.left[i])
      && (i != y && i != m ==> h'.right[i] == h.right[i])
      && (i != h.right[m] && i != h.right[z] && i != m && i != h.left[z] ==> h'.parent[i] == h.parent[i])
  {
  }

  /** `m` stands where `z` stood, over `z`'s left subtree and the rest of
      its right one, and holds what both held. */
  lemma RelinkSuccessor(h: Heap, h': Heap, y: int, z: int, sp: seq<int>)
    requires Relinking(h, h', y, z, sp) && ElemsBut(h, y) && RelinkedData(h, h', z, sp) && SpineHeads(h, sp)
    ensures sp[|sp| - 1] in h'.live && NodeOk(h', sp[|sp| - 1])
  {
    var n, m := |sp|, sp[|sp| - 1];
    RelinkSuccessorLinks(h, h', y, z, sp);
    assert Linked(h, z) && Linked(h, m);
    assert ElemsOk(h, z) && ElemsOk(h, m);
    assert m !in sp[..n - 1];
    assert h.left[z] !in sp;
    SuccessorElems(h, h', z, sp);
  }

  lemma RelinkSuccessorLinks(h: Heap, h': Heap, y: int, z: int, sp: seq<int>)
    requires Relinking(h, h', y, z, sp)
    ensures sp[|sp| - 1] in h'.live && Linked(h', sp[|sp| - 1])
    ensures h'.left[sp[|sp| - 1]] == h.left[z]
    ensures h'.right[sp[|sp| - 1]] == (if |sp| > 1 then h.right[z] else h.right[sp[|sp| - 1]])
    ensures h'.parent[h.right[sp[|sp| - 1]]] == (if |sp| > 1 then sp[|sp| - 2] else sp[|sp| - 1])
  {
    var n, m := |sp|, sp[|sp| - 1];
    var x, zl, zr := h.right[m], h.left[z], h.right[z];
    assert Linked(h, z);
    assert zl != zr && zl != m && zl != x && zl !in sp;
    assert h'.left[m] == zl && h'.parent[zl] == m && h'.parent[m] == y;
    var r := if n > 1 then zr else x;
    assert h'.right[m] == r;
    assert r != TNULL ==> h'.parent[r] == m;
    if y != NIL {
      assert Linked(h, m);
      assert h'.root == h.root && h.root != m;
      assert h'.left[y] == m || h'.right[y] == m;
    }
  }

  /** `m`'s new key sequence is `z`'s without `z`'s key, in order. */
  lemma SuccessorElems(h: Heap, h': Heap, z: int, sp: seq<int>)
    requires Sized(h) && Sized(h') && h'.key == h.key && LeftSpine(h, sp) && SpineHeads(h, sp)
    requires 0 <= z < |h.key| && h.right[z] == sp[0] && 0 <= h.right[sp[|sp| - 1]] < |h.key|
    requires 0 <= h.left[z] < |h.key| && RelinkedData(h, h', z, sp)
    requires sp[|sp| - 1] !in sp[..|sp| - 1] && h.right[sp[|sp| - 1]] !in sp && h.left[z] !in sp
    requires h.elems[TNULL] == []
    requires |sp| == 1 ==> h.elems[sp[0]] == h.elems[h.left[sp[0]]] + [h.key[sp[0]]] + h.elems[h.right[sp[0]]]
    requires h.elems[z] == h.elems[h.left[z]] + [h.key[z]] + h.elems[h.right[z]] && Sorted(h.elems[z])
    requires sp[|sp| - 1] in h'.live && h'.left[sp[|sp| - 1]] == h.left[z]
    requires h'.right[sp[|sp| - 1]] == (if |sp| > 1 then h.right[z] else h.right[sp[|sp| - 1]])
    requires Slot(h', h'.left[sp[|sp| - 1]]) && Slot(h', h'.right[sp[|sp| - 1]])
    ensures ElemsOk(h', sp[|sp| - 1])
  {
    var m, zl, zr := sp[|sp| - 1], h.left[z], h.right[z];
    var r' := h'.elems[h'.right[m]];
    assert h'.elems[m] == h.elems[zl] + h.elems[zr];
    assert h'.elems[zl] == h.elems[zl];
    SuccessorRight(h, h', z, sp);
    Regroup(h.elems[zl], h.key[m], r');
    assert Sorted(h.elems[zl] + h.elems[zr]) by {
      JoinSorted(h.elems[zl], h.key[z], h.elems[zr]);
    }
  }

  /** The key sequence `m` gets as its new right subtree is `z`'s old right
      subtree's without its first key, which is `m`'s own. */
  lemma SuccessorRight(h: Heap, h': Heap, z: int, sp: seq<int>)
    requires Sized(h) && LeftSpine(h, sp) && SpineHeads(h, sp)
    requires 0 <= z < |h.key| && h.right[z] == sp[0] && 0 <= h.right[sp[|sp| - 1]] < |h.key|
    requires sp[|sp| - 1] !in sp[..|sp| - 1]
    requires 0 <= h.left[z] < |h.key| && RelinkedData(h, h', z, sp)
    requires h.elems[TNULL] == [] && h.right[sp[|sp| - 1]] !in sp
    requires |sp| == 1 ==> h.elems[sp[0]] == h.elems[h.left[sp[0]]] + [h.key[sp[0]]] + h.elems[h.right[sp[0]]]
    ensures h.elems[h.right[z]] == [h.key[sp[|sp| - 1]]] + h'.elems[if |sp| > 1 then h.right[z] else h.right[sp[|sp| - 1]]]
  {
    var n, m := |sp|, sp[|sp| - 1];
    var zr := h.right[z];
    if n > 1 {
      assert zr == sp[0] && zr != m;
      assert zr in sp[..n - 1];
      assert h.elems[zr] == [h.elems[zr][0]] + h.elems[zr][1..];
    }
  }

  /** Dropping a key from the middle of a sorted sequence keeps it sorted. */
  lemma JoinSorted(l: seq<int>, k: int, r: seq<int>)
    requires Sorted(l + [k] + r)
    ensures Sorted(l + r)
  {
    RemoveFirstSplit(l, k, r);
    RemoveFirstOrder(l + [k] + r, k);
  }

  /** The sentinel is untouched and the root is `m` or stays where it was. */
  lemma RelinkTop(h: Heap, h': Heap, y: int, z: int, sp: seq<int>)
    requires Relinking(h, h', y, z, sp) && RelinkedData(h, h', z, sp)
    ensures h'.left[TNULL] == NIL && h'.right[TNULL] == NIL
    ensures h'.color[TNULL] == Black && h'.elems[TNULL] == [] && h'.bh[TNULL] == 0
    ensures h'.root != TNULL && h'.root in h'.live
  {
    var n := |sp|;
    assert TNULL !in sp[..n - 1];
    if y != NIL {
      assert h.root != z;
    }
  }

  /** `z`'s left child now hangs below `m`. */
  lemma RelinkLeftLinks(h: Heap, h': Heap, y: int, z: int, sp: seq<int>)
    requires Relinking(h, h', y, z, sp)
    ensures h.left[z] in h'.live && Linked(h', h.left[z])
    ensures h'.left[h.left[z]] == h.left[h.left[z]] && h'.right[h.left[z]] == h.right[h.left[z]]
    ensures h.left[z] !in sp && h.left[h.left[z]] !in sp && h.right[h.left[z]] !in sp
  {
    var n, m := |sp|, sp[|sp| - 1];
    var x, zl, zr := h.right[m], h.left[z], h.right[z];
    assert Linked(h, z) && Linked(h, zl);
    assert zl !in sp && zl != y && zl != x;
    LinksAt(h, h', y, z, sp, zl);
    var l, r := h.left[zl], h.right[zl];
    LinksAt(h, h', y, z, sp, l);
    LinksAt(h, h', y, z, sp, r);
    assert l != TNULL ==> l !in sp && l != m && l != x && l != zl && l != z;
    assert r != TNULL ==> r !in sp && r != m && r != x && r != zl && r != z;
    assert h'.parent[zl] == m && h'.left[m] == zl;
    assert h'.root != zl;
  }

  /** `m`'s right child now hangs where `m` hung, or stays below `m`. */
  lemma RelinkRightLinks(h: Heap, h': Heap, y: int, z: int, sp: seq<int>)
    requires Relinking(h, h', y, z, sp) && h.right[sp[|sp| - 1]] != TNULL
    ensures h.right[sp[|sp| - 1]] in h'.live && Linked(h', h.right[sp[|sp| - 1]])
    ensures var x := h.right[sp[|sp| - 1]];
      && h'.left[x] == h.left[x] && h'.right[x] == h.right[x]
      && x !in sp && h.left[x] !in sp && h.right[x] !in sp
  {
    var n, m := |sp|, sp[|sp| - 1];
    var x, zl, zr := h.right[m], h.left[z], h.right[z];
    assert Linked(h, z) && Linked(h, x);
    assert x !in sp && x != y && x != zl;
    LinksAt(h, h', y, z, sp, x);
    var l, r := h.left[x], h.right[x];
    LinksAt(h, h', y, z, sp, l);
    LinksAt(h, h', y, z, sp, r);
    assert l != TNULL ==> l !in sp && l != m && l != x && l != zl && l != z;
    assert r != TNULL ==> r !in sp && r != m && r != x && r != zl && r != z;
    if n > 1 {
      assert h'.parent[x] == sp[n - 2] && h'.left[sp[n - 2]] == x;
    } else {
      assert h'.parent[x] == m && h'.right[m] == x;
    }
    assert h'.root != x;
  }

  /** A node of the spine above `m` keeps its right child and its place,
      and its left child is the next node, or `m`'s right child instead of
      `m`. */
  lemma RelinkSpineLinks(h: Heap, h': Heap, y: int, z: int, sp: seq<int>, j: int)
    requires Relinking(h, h', y, z, sp) && 0 <= j < |sp| - 1
    ensures sp[j] in h'.live && Linked(h', sp[j])
    ensures h'.left[sp[j]] == (if j == |sp| - 2 then h.right[sp[|sp| - 1]] else sp[j + 1])
    ensures h'.right[sp[j]] == h.right[sp[j]] && h.right[sp[j]] !in sp
  {
    RelinkSpineBelow(h, h', y, z, sp, j);
    RelinkSpineAbove(h, h', y, z, sp, j);
  }

  lemma RelinkSpineBelow(h: Heap, h': Heap, y: int, z: int, sp: seq<int>, j: int)
    requires Relinking(h, h', y, z, sp) && 0 <= j < |sp| - 1
    ensures h'.left[sp[j]] == (if j == |sp| - 2 then h.right[sp[|sp| - 1]] else sp[j + 1])
    ensures h'.right[sp[j]] == h.right[sp[j]] && h.right[sp[j]] !in sp
    ensures var s := sp[j];
      && Slot(h', h'.left[s]) && Slot(h', h'.right[s])
      && (h'.left[s] != TNULL ==> h'.parent[h'.left[s]] == s)
      && (h'.right[s] != TNULL ==> h'.parent[h'.right[s]] == s)
      && (h'.left[s] == h'.right[s] ==> h'.left[s] == TNULL)
  {
    var n, m, s := |sp|, sp[|sp| - 1], sp[j];
    var x, zl, zr := h.right[m], h.left[z], h.right[z];
    assert Linked(h, s);
    assert s != m && s != y;
    LinksAt(h, h', y, z, sp, s);
    var c, r := h'.left[s], h.right[s];
    if j == n - 2 {
      assert c == x;
      LinksAt(h, h', y, z, sp, x);
    } else {
      assert c == sp[j + 1] && c != m && c != zr;
      LinksAt(h, h', y, z, sp, c);
      assert h'.parent[c] == s;
    }
    LinksAt(h, h', y, z, sp, r);
    assert r != TNULL ==> r !in sp && r != x && r != zl && r != z && h'.parent[r] == s;
  }

  lemma RelinkSpineAbove(h: Heap, h': Heap, y: int, z: int, sp: seq<int>, j: int)
    requires Relinking(h, h', y, z, sp) && 0 <= j < |sp| - 1
    ensures var s := sp[j];
      && s in h'.live && s != h'.root && h'.parent[s] != NIL
      && h'.parent[s] in h'.live && (h'.left[h'.parent[s]] == s || h'.right[h'.parent[s]] == s)
  {
    var n, m, s := |sp|, sp[|sp| - 1], sp[j];
    var x, zl, zr := h.right[m], h.left[z], h.right[z];
    assert Linked(h, s);
    assert s != zl && s != x && s != m;
    LinksAt(h, h', y, z, sp, s);
    if j == 0 {
      assert h'.parent[s] == m && h'.right[m] == s;
    } else {
      assert h'.parent[s] == sp[j - 1];
      LinksAt(h, h', y, z, sp, sp[j - 1]);
      assert sp[j - 1] != y && sp[j - 1] != m;
      assert h'.left[sp[j - 1]] == s;
    }
    assert h'.root != s;
  }

  /** `y` holds `m` where it held `z`, and keeps its other child and its
      place. */
  lemma RelinkParentLinks(h: Heap, h': Heap, y: int, z: int, sp: seq<int>)
    requires Relinking(h, h', y, z, sp) && y != NIL
    ensures y in h'.live && Linked(h', y)
    ensures var m := sp[|sp| - 1];
      && (h.left[y] == z ==> h'.left[y] == m && h'.right[y] == h.right[y])
      && (h.left[y] != z ==> h'.right[y] == m && h'.left[y] == h.left[y])
    ensures y !in sp && h.left[y] != h.right[y]
    ensures (h.left[y] == z ==> h.right[y] !in sp) && (h.left[y] != z ==> h.left[y] !in sp)
  {
    var n, m := |sp|, sp[|sp| - 1];
    var x, zl, zr := h.right[m], h.left[z], h.right[z];
    assert Linked(h, z);
    assert y !in sp && y != zl && y != x;
    LinksAt(h, h', y, z, sp, y);
    var o := if h.left[y] == z then h.right[y] else h.left[y];
    assert o != z;
    LinksAt(h, h', y, z, sp, o);
    assert o != TNULL ==> o !in sp && o != x && o != zl && h'.parent[o] == y;
    assert h'.parent[m] == y;
    if y != h.root {
      var p := h.parent[y];
      assert p != z && p != y && p !in sp;
      LinksAt(h, h', y, z, sp, p);
    }
  }

  /** Any other node keeps its links. */
  lemma RelinkOtherLinks(h: Heap, h': Heap, y: int, z: int, sp: seq<int>, i: int)
    requires Relinking(h, h', y, z, sp)
    requires i in h.live && i != z && i != y && i !in sp && i != h.left[z] && i != h.right[sp[|sp| - 1]]
    ensures i in h'.live && Linked(h', i)
    ensures h'.left[i] == h.left[i] && h'.right[i] == h.right[i]
    ensures h.left[i] !in sp && h.right[i] !in sp
  {
    RelinkOtherBelow(h, h', y, z, sp, i);
    RelinkOtherAbove(h, h', y, z, sp, i);
  }

  lemma RelinkOtherBelow(h: Heap, h': Heap, y: int, z: int, sp: seq<int>, i: int)
    requires Relinking(h, h', y, z, sp)
    requires i in h.live && i != z && i != y && i !in sp && i != h.left[z] && i != h.right[sp[|sp| - 1]]
    ensures h'.left[i] == h.left[i] && h'.right[i] == h.right[i]
    ensures Slot(h', h.left[i]) && Slot(h', h.right[i])
    ensures h.left[i] != TNULL ==> h'.parent[h.left[i]] == i
    ensures h.right[i] != TNULL ==> h'.parent[h.right[i]] == i
    ensures h.left[i] == h.right[i] ==> h.left[i] == TNULL
    ensures h.left[i] !in sp && h.right[i] !in sp
  {
    var n, m := |sp|, sp[|sp| - 1];
    var x, zl, zr := h.right[m], h.left[z], h.right[z];
    assert Linked(h, i);
    LinksAt(h, h', y, z, sp, i);
    var l, r := h.left[i], h.right[i];
    LinksAt(h, h', y, z, sp, l);
    LinksAt(h, h', y, z, sp, r);
    assert l != TNULL ==> l != z && l != x && l != zl && l !in sp;
    assert r != TNULL ==> r != z && r != x && r != zl && r !in sp;
  }

  lemma RelinkOtherAbove(h: Heap, h': Heap, y: int, z: int, sp: seq<int>, i: int)
    requires Relinking(h, h', y, z, sp)
    requires i in h.live && i != z && i != y && i !in sp && i != h.left[z] && i != h.right[sp[|sp| - 1]]
    ensures i in h'.live && h'.parent[i] == h.parent[i]
    ensures i == h'.root <==> h'.parent[i] == NIL
    ensures i != h'.root ==> h'.parent[i] in h'.live && (h'.left[h'.parent[i]] == i || h'.right[h'.parent[i]] == i)
  {
    var n, m := |sp|, sp[|sp| - 1];
    assert Linked(h, i);
    LinksAt(h, h', y, z, sp, i);
    if y == NIL {
      assert i != h.root && h'.root == m;
    }
    if i != h.root {
      var p := h.parent[i];
      assert p != z;
      LinksAt(h, h', y, z, sp, p);
      if p in sp {
        assert p != m;
        assert i == h.right[p];
      }
    }
  }

  /** A node whose links and whose children's key sequences the
      relinking leaves alone stays in order. */
  lemma KeptElems(h: Heap, h': Heap, z: int, sp: seq<int>, i: int)
    requires Sized(h) && Sized(h') && h'.key == h.key && LeftSpine(h, sp)
    requires 0 <= z < |h.key| && 0 <= h.left[z] < |h.key| && 0 <= h.right[z] < |h.key|
    requires RelinkedData(h, h', z, sp)
    requires i in h.live && Slot(h, h.left[i]) && Slot(h, h.right[i]) && ElemsOk(h, i)
    requires i in h'.live && h'.left[i] == h.left[i] && h'.right[i] == h.right[i]
    requires Slot(h', h.left[i]) && Slot(h', h.right[i])
    requires i !in sp && h.left[i] !in sp && h.right[i] !in sp
    ensures ElemsOk(h', i)
  {
    var n := |sp|;
    assert i !in sp[..n - 1] && h.left[i] !in sp[..n - 1] && h.right[i] !in sp[..n - 1];
  }

  /** The relinking leaves the key sequence of a node off the spine as
      it was. */
  lemma ElemsOff(h: Heap, h': Heap, z: int, sp: seq<int>, i: int)
    requires Sized(h) && LeftSpine(h, sp)
    requires 0 <= z < |h.key| && 0 <= h.left[z] < |h.key| && 0 <= h.right[z] < |h.key|
    requires RelinkedData(h, h', z, sp) && 0 <= i < |h.key| && i !in sp
    ensures h'.elems[i] == h.elems[i]
  {
    assert i !in sp[..|sp| - 1] && i != sp[|sp| - 1];
  }

  /** ... and drops the first key of every node on it above `m`. */
  lemma ElemsOn(h: Heap, h': Heap, z: int, sp: seq<int>, j: int)
    requires Sized(h) && LeftSpine(h, sp)
    requires 0 <= z < |h.key| && 0 <= h.left[z] < |h.key| && 0 <= h.right[z] < |h.key|
    requires RelinkedData(h, h', z, sp) && 0 <= j < |sp| - 1
    requires sp[j] != sp[|sp| - 1] && h.elems[sp[j]] != []
    ensures h'.elems[sp[j]] == h.elems[sp[j]][1..]
  {
    assert sp[j] in sp[..|sp| - 1];
  }

  /** A node of the spine above `m` loses its first key, `m`'s, as its
      left subtree does. */
  lemma SpineElems(h: Heap, h': Heap, z: int, sp: seq<int>, j: int)
    requires Sized(h) && Sized(h') && h'.key == h.key && LeftSpine(h, sp)
    requires 0 <= z < |h.key| && 0 <= h.left[z] < |h.key| && 0 <= h.right[z] < |h.key|
    requires RelinkedData(h, h', z, sp) && 0 <= j < |sp| - 1
    requires 0 <= h.right[sp[|sp| - 1]] < |h.key| && 0 <= h.right[sp[j]] < |h.key|
    requires sp[j] != sp[|sp| - 1] && (j < |sp| - 2 ==> sp[j + 1] != sp[|sp| - 1])
    requires h.elems[sp[j]] != [] && h.elems[sp[j + 1]] != []
    requires h.right[sp[j]] !in sp && h.right[sp[|sp| - 1]] !in sp
    requires h.elems[sp[j]] == h.elems[sp[j + 1]] + [h.key[sp[j]]] + h.elems[h.right[sp[j]]]
    requires Sorted(h.elems[sp[j]])
    requires j == |sp| - 2 ==> h.elems[sp[j + 1]] == [h.key[sp[j + 1]]] + h.elems[h.right[sp[j + 1]]]
    requires sp[j] in h'.live && h'.right[sp[j]] == h.right[sp[j]]
    requires h'.left[sp[j]] == (if j == |sp| - 2 then h.right[sp[|sp| - 1]] else sp[j + 1])
    requires Slot(h', h'.left[sp[j]]) && Slot(h', h'.right[sp[j]])
    ensures ElemsOk(h', sp[j])
  {
    var s := sp[j];
    SpineParts(h, h', z, sp, j);
    DropHead(h.elems[sp[j + 1]], h.key[s], h.elems[h.right[s]], h.elems[s]);
  }

  /** The key sequences `SpineElems` relates, with no order in sight. */
  lemma SpineParts(h: Heap, h': Heap, z: int, sp: seq<int>, j: int)
    requires Sized(h) && Sized(h') && LeftSpine(h, sp)
    requires 0 <= z < |h.key| && 0 <= h.left[z] < |h.key| && 0 <= h.right[z] < |h.key|
    requires RelinkedData(h, h', z, sp) && 0 <= j < |sp| - 1
    requires 0 <= h.right[sp[|sp| - 1]] < |h.key| && 0 <= h.right[sp[j]] < |h.key|
    requires sp[j] != sp[|sp| - 1] && (j < |sp| - 2 ==> sp[j + 1] != sp[|sp| - 1])
    requires h.elems[sp[j]] != [] && h.elems[sp[j + 1]] != []
    requires h.right[sp[j]] !in sp && h.right[sp[|sp| - 1]] !in sp
    requires j == |sp| - 2 ==> h.elems[sp[j + 1]] == [h.key[sp[j + 1]]] + h.elems[h.right[sp[j + 1]]]
    requires h'.left[sp[j]] == (if j == |sp| - 2 then h.right[sp[|sp| - 1]] else sp[j + 1])
    ensures h'.elems[sp[j]] == h.elems[sp[j]][1..]
    ensures h'.elems[h'.left[sp[j]]] == h.elems[sp[j + 1]][1..]
    ensures h'.elems[h.right[sp[j]]] == h.elems[h.right[sp[j]]]
  {
    var n := |sp|;
    if j == n - 2 {
      var x := h.right[sp[n - 1]];
      ElemsOff(h, h', z, sp, x);
      assert h'.elems[x] == h.elems[sp[j + 1]][1..];
    } else {
      ElemsOn(h, h', z, sp, j + 1);
    }
    ElemsOff(h, h', z, sp, h.right[sp[j]]);
    ElemsOn(h, h', z, sp, j);
  }

  /** Dropping the first key of a sorted sequence drops it from its left
      part. */
  lemma DropHead(e: seq<int>, k: int, r: seq<int>, s: seq<int>)
    requires s == e + [k] + r && e != [] && Sorted(s)
    ensures s[1..] == e[1..] + [k] + r && Sorted(s[1..])
  {
    assert s == [s[0]] + s[1..];
    SortedTail(s[0], s[1..]);
  }

  /** `y` sees in `m` what it expected of `z` once `k` is gone. */
  lemma ParentElems(h: Heap, h': Heap, k: int, y: int, z: int, sp: seq<int>)
    requires Sized(h) && Sized(h') && h'.key == h.key && LeftSpine(h, sp)
    requires 0 <= z < |h.key| && 0 <= h.left[z] < |h.key| && 0 <= h.right[z] < |h.key|
    requires RelinkedData(h, h', z, sp)
    requires y in h.live && Slot(h, h.left[y]) && Slot(h, h.right[y]) && RemovePending(h, y, k)
    requires z == Next(h, y, k) && h.key[z] == k
    requires h.elems[z] == h.elems[h.left[z]] + [k] + h.elems[h.right[z]] && Sorted(h.elems[z])
    requires y !in sp && h.left[y] != h.right[y]
    requires (h.left[y] == z ==> h.right[y] !in sp) && (h.left[y] != z ==> h.left[y] !in sp)
    requires y in h'.live
    requires h.left[y] == z ==> h'.left[y] == sp[|sp| - 1] && h'.right[y] == h.right[y]
    requires h.left[y] != z ==> h'.right[y] == sp[|sp| - 1] && h'.left[y] == h.left[y]
    requires Slot(h', h'.left[y]) && Slot(h', h'.right[y])
    ensures ElemsOk(h', y)
  {
    ParentParts(h, h', y, z, sp);
    RemoveFirstSplit(h.elems[h.left[z]], k, h.elems[h.right[z]]);
  }

  /** The key sequences `ParentElems` relates, with no order in sight. */
  lemma ParentParts(h: Heap, h': Heap, y: int, z: int, sp: seq<int>)
    requires Sized(h) && LeftSpine(h, sp)
    requires 0 <= z < |h.key| && 0 <= h.left[z] < |h.key| && 0 <= h.right[z] < |h.key|
    requires RelinkedData(h, h', z, sp)
    requires y in h.live && Slot(h, h.left[y]) && Slot(h, h.right[y])
    requires y !in sp && (h.left[y] == z ==> h.right[y] !in sp) && (h.left[y] != z ==> h.left[y] !in sp)
    ensures h'.elems[sp[|sp| - 1]] == h.elems[h.left[z]] + h.elems[h.right[z]]
    ensures h'.elems[y] == h.elems[y]
    ensures h.left[y] == z ==> h'.elems[h.right[y]] == h.elems[h.right[y]]
    ensures h.left[y] != z ==> h'.elems[h.left[y]] == h.elems[h.left[y]]
  {
    ElemsOff(h, h', z, sp, y);
    var o := if h.left[y] == z then h.right[y] else h.left[y];
    ElemsOff(h, h', z, sp, o);
  }

  /** What the relinking needs of the search: `y`'s sequence lacks a copy
      of `k` on `z`'s side, and `z` holds `k`. */
  ghost predicate Pends(h: Heap, k: int, y: int, z: int)
    requires Sized(h) && 0 <= z < |h.key| && (y != NIL ==> y in h.live && Linked(h, y))
  {
    y != NIL ==> h.key[z] == k && 0 <= y < |h.key| && z == Next(h, y, k) && RemovePending(h, y, k)
  }

  /** Every live node of the relinked arena is in order. */
  lemma RelinkNode(h: Heap, h': Heap, k: int, y: int, z: int, sp: seq<int>, i: int)
    requires Relinking(h, h', y, z, sp) && ElemsBut(h, y) && RelinkedData(h, h', z, sp) && SpineHeads(h, sp)
    requires Pends(h, k, y, z) && i in h'.live
    ensures NodeOk(h', i)
  {
    var n, m := |sp|, sp[|sp| - 1];
    if i == m {
      RelinkSuccessor(h, h', y, z, sp);
    } else if i == y {
      RelinkParent(h, h', k, y, z, sp);
    } else if i == h.left[z] {
      RelinkLeft(h, h', y, z, sp);
    } else if i == h.right[m] {
      RelinkRight(h, h', y, z, sp);
    } else if i in sp {
      var j :| 0 <= j < n && sp[j] == i;
      RelinkSpine(h, h', y, z, sp, j);
    } else {
      RelinkOther(h, h', y, z, sp, i);
    }
  }

  lemma RelinkLeft(h: Heap, h': Heap, y: int, z: int, sp: seq<int>)
    requires Relinking(h, h', y, z, sp) && ElemsBut(h, y) && RelinkedData(h, h', z, sp)
    ensures h.left[z] in h'.live && NodeOk(h', h.left[z])
  {
    var zl := h.left[z];
    RelinkLeftLinks(h, h', y, z, sp);
    assert Linked(h, zl) && ElemsOk(h, zl);
    KeptElems(h, h', z, sp, zl);
  }

  lemma RelinkRight(h: Heap, h': Heap, y: int, z: int, sp: seq<int>)
    requires Relinking(h, h', y, z, sp) && ElemsBut(h, y) && RelinkedData(h, h', z, sp)
    requires h.right[sp[|sp| - 1]] != TNULL
    ensures h.right[sp[|sp| - 1]] in h'.live && NodeOk(h', h.right[sp[|sp| - 1]])
  {
    var x := h.right[sp[|sp| - 1]];
    RelinkRightLinks(h, h', y, z, sp);
    assert Linked(h, x) && ElemsOk(h, x);
    KeptElems(h, h', z, sp, x);
  }

  lemma RelinkOther(h: Heap, h': Heap, y: int, z: int, sp: seq<int>, i: int)
    requires Relinking(h, h', y, z, sp) && ElemsBut(h, y) && RelinkedData(h, h', z, sp)
    requires i in h.live && i != z && i != y && i !in sp && i != h.left[z] && i != h.right[sp[|sp| - 1]]
    ensures i in h'.live && NodeOk(h', i)
  {
    RelinkOtherLinks(h, h', y, z, sp, i);
    assert Linked(h, i) && ElemsOk(h, i);
    KeptElems(h, h', z, sp, i);
  }

  lemma RelinkSpine(h: Heap, h': Heap, y: int, z: int, sp: seq<int>, j: int)
    requires Relinking(h, h', y, z, sp) && ElemsBut(h, y) && RelinkedData(h, h', z, sp)
    requires 0 <= j < |sp| - 1 && h.elems[sp[j]] != [] && h.elems[sp[j + 1]] != []
    ensures sp[j] in h'.live && NodeOk(h', sp[j])
  {
    RelinkSpineLinks(h, h', y, z, sp, j);
    RelinkSpineOrder(h, h', y, z, sp, j);
  }

  lemma RelinkSpineOrder(h: Heap, h': Heap, y: int, z: int, sp: seq<int>, j: int)
    requires Sized(h) && Sized(h') && h'.key == h.key && SpineOk(h, z, sp)
    requires 0 <= h.left[z] < |h.key| && LinkedBut(h, y) && ElemsBut(h, y) && RelinkedData(h, h', z, sp)
    requires forall i | 0 <= i < |sp| :: sp[i] != y
    requires h.elems[TNULL] == []
    requires 0 <= j < |sp| - 1 && h.elems[sp[j]] != [] && h.elems[sp[j + 1]] != []
    requires sp[j] in h'.live && h'.right[sp[j]] == h.right[sp[j]] && h.right[sp[j]] !in sp
    requires h'.left[sp[j]] == (if j == |sp| - 2 then h.right[sp[|sp| - 1]] else sp[j + 1])
    requires Slot(h', h'.left[sp[j]]) && Slot(h', h'.right[sp[j]])
    ensures ElemsOk(h', sp[j])
  {
    var n, m, s := |sp|, sp[|sp| - 1], sp[j];
    if j == n - 2 {
      LastElems(h, y, m);
    }
    assert Linked(h, s) && ElemsOk(h, s);
    SpineElems(h, h', z, sp, j);
  }

  /** The last node of the spine holds its own key and then its right
      subtree's. */
  lemma LastElems(h: Heap, y: int, m: int)
    requires Sized(h) && LinkedBut(h, y) && ElemsBut(h, y) && h.elems[TNULL] == []
    requires m in h.live && m != y && h.left[m] == TNULL
    ensures 0 <= h.right[m] < |h.key| && h.elems[m] == [h.key[m]] + h.elems[h.right[m]]
  {
    assert Linked(h, m) && ElemsOk(h, m);
  }

  lemma RelinkParent(h: Heap, h': Heap, k: int, y: int, z: int, sp: seq<int>)
    requires Relinking(h, h', y, z, sp) && RelinkedData(h, h', z, sp)
    requires Pends(h, k, y, z) && y != NIL && ElemsOk(h, z)
    ensures y in h'.live && NodeOk(h', y)
  {
    RelinkParentLinks(h, h', y, z, sp);
    ParentElems(h, h', k, y, z, sp);
  }

  /** Every node of the relinked arena is in order, so it is well formed. */
  lemma RelinkNodes(h: Heap, h': Heap, k: int, y: int, z: int, sp: seq<int>)
    requires Relinking(h, h', y, z, sp) && ElemsBut(h, y) && RelinkedData(h, h', z, sp) && SpineHeads(h, sp)
    requires Pends(h, k, y, z)
    ensures WellFormed(h')
  {
    RelinkTop(h, h', y, z, sp);
    forall i | i in h'.live ensures NodeOk(h', i) {
      RelinkNode(h, h', k, y, z, sp, i);
    }
  }

  /** The leftmost node of `z`'s right subtree, found by `minimum`, lies
      on a spine that `Relinked` can work on, below `z` and away from `y`. */
  lemma SuccessorSpine(h: Heap, k: int, y: int, z: int, sp: seq<int>)
    requires Located(h, k, y, z) && h.left[z] != TNULL && h.right[z] != TNULL
    requires LeftSpine(h, sp) && sp[0] == h.right[z]
    ensures z in h.live && 0 <= h.left[z] < |h.key| && (y == NIL || 0 <= y < |h.key|)
    ensures h.parent[z] == y && SpinePath(h, z, sp) && forall i | 0 <= i < |sp| :: sp[i] != y
  {
    LocatedDetached(h, k, y, z);
    SpineFacts(h, y, z, sp);
    DetachedParts(h, y, z);
  }

  /** Lines 265-282 of `deleteNodeHelper` on an arena where the search
      found `z` with two children below `y`: `z`'s successor takes its
      place, and the arena is well formed and holds the keys it held
      without one copy of `k`. */
  lemma RelinkWellFormed(h: Heap, k: int, y: int, z: int, sp: seq<int>)
    requires Located(h, k, y, z) && h.left[z] != TNULL && h.right[z] != TNULL
    requires LeftSpine(h, sp) && sp[0] == h.right[z]
    ensures h.parent[z] == y && SpinePath(h, z, sp) && forall i | 0 <= i < |sp| :: sp[i] != y
    ensures var h' := Relinked(h, z, sp);
      && WellFormed(h') && h'.live == h.live - {z}
      && Contents(h') == (if y == NIL then RemoveFirst(h.elems[z], k) else h.elems[h.root])
  {
    LocatedDetached(h, k, y, z);
    SpineFacts(h, y, z, sp);
    DetachedParts(h, y, z);
    var h' := Relinked(h, z, sp);
    RelinkNodes(h, h', k, y, z, sp);
    RelinkContents(h, h', k, y, z, sp);
  }

  lemma RelinkContents(h: Heap, h': Heap, k: int, y: int, z: int, sp: seq<int>)
    requires Relinking(h, h', y, z, sp) && RelinkedData(h, h', z, sp) && h.key[z] == k
    requires NodeOk(h, z) && LinkedBut(h, y)
    ensures h'.elems[h'.root] == (if y == NIL then RemoveFirst(h.elems[z], k) else h.elems[h.root])
  {
    if y == NIL {
      RemoveFirstSplit(h.elems[h.left[z]], k, h.elems[h.right[z]]);
    } else {
      assert Linked(h, h.root) && h.root != z;
      assert h.root !in sp;
      ElemsOff(h, h', z, sp, h.root);
    }
  }

  /** `z` has two children: its successor `m`, the last node of the left
      spine `sp` of `z`'s right subtree, is unhooked (its right child takes
      its place), then takes `z`'s place, subtrees and colour, and `z`
      leaves the tree. The arena is well formed and the tree has lost one
      copy of `k`. When `m` was red the tree is red-black; when it was
      black, `m`'s old right child carries the deficit `fixDelete`
      repairs. */
  lemma RelinkOut(h0: Heap, h: Heap, k: int, y: int, z: int, sp: seq<int>)
    requires Found(h0, h, k, y, z) && h.left[z] != TNULL && h.right[z] != TNULL
    requires LeftSpine(h, sp) && sp[0] == h.right[z]
    ensures h.parent[z] == y && SpinePath(h, z, sp) && forall i | 0 <= i < |sp| :: sp[i] != y
    ensures var h', m := Relinked(h, z, sp), sp[|sp| - 1];
      && WellFormed(h') && h'.live == h.live - {z}
      && Contents(h') == (if y == NIL then RemoveFirst(h.elems[z], k) else h.elems[h.root])
      && (h.color[m] == Black ==> DeleteFixing(h', h.right[m]))
      && (h.color[m] == Red ==> IsRedBlack(h'))
  {
    RelinkWellFormed(h, k, y, z, sp);
    LocatedDetached(h, k, y, z);
    SpineFacts(h, y, z, sp);
    DetachedParts(h, y, z);
    var h' := Relinked(h, z, sp);
    assert NodeOk(h, z);
    RelinkColours(h0, h, h', y, z, sp);
  }

  /** `h0` is the red-black arena before the search, `h` the arena after
      it and `h'` the relinked one, which is well formed. */
  ghost predicate Recolouring(h0: Heap, h: Heap, h': Heap, y: int, z: int, sp: seq<int>) {
    && IsRedBlack(h0) && h.(elems := h0.elems) == h0 && |h.elems| == |h0.elems|
    && Relinking(h, h', y, z, sp) && RelinkedData(h, h', z, sp) && WellFormed(h')
  }

  /** The node whose left (or, when `m` was `z`'s right child, right)
      subtree lost `m`'s black: `m`'s old parent, or `m` itself. */
  ghost function Lowered(sp: seq<int>): int
    requires |sp| >= 1
  {
    if |sp| > 1 then sp[|sp| - 2] else sp[|sp| - 1]
  }

  /** A node other than `y`, `m` and the lowered node looks the same from
      the colours' side. */
  lemma RelinkKept(h0: Heap, h: Heap, h': Heap, y: int, z: int, sp: seq<int>, i: int)
    requires Recolouring(h0, h, h', y, z, sp)
    requires i in h'.live && i != y && i != sp[|sp| - 1] && i != Lowered(sp)
    ensures BhOk(h', i) && RedOk(h', i)
  {
    var n, m := |sp|, sp[|sp| - 1];
    assert Linked(h, i) && Linked(h, m);
    LinksAt(h, h', y, z, sp, i);
    assert h.left[i] != m && h.right[i] != m;
    assert BhOk(h0, i) && RedOk(h0, i);
    assert SameAt(h0, h', i);
    SameAtRules(h0, h', i);
  }

  /** `m`, moved up from the spine, carries `z`'s colour and black height
      over `z`'s subtrees. */
  lemma RelinkMoved(h0: Heap, h: Heap, h': Heap, y: int, z: int, sp: seq<int>)
    requires Recolouring(h0, h, h', y, z, sp) && |sp| > 1
    ensures sp[|sp| - 1] in h'.live && BhOk(h', sp[|sp| - 1]) && RedOk(h', sp[|sp| - 1])
  {
    var n, m := |sp|, sp[|sp| - 1];
    RelinkSuccessorLinks(h, h', y, z, sp);
    assert h.left[z] != m && h.right[z] != m;
    assert BhOk(h0, z) && RedOk(h0, z);
  }

  /** `y` sees in `m` the colour and black height `z` had. */
  lemma RelinkAbove(h0: Heap, h: Heap, h': Heap, y: int, z: int, sp: seq<int>)
    requires Recolouring(h0, h, h', y, z, sp) && y != NIL
    ensures y in h'.live && BhOk(h', y) && RedOk(h', y)
  {
    var m := sp[|sp| - 1];
    RelinkParentLinks(h, h', y, z, sp);
    assert h.left[y] != m && h.right[y] != m;
    assert BhOk(h0, y) && RedOk(h0, y);
  }

  /** The colours and black heights after the relinking: `m` takes
      `z`'s, every other node keeps its own. */
  ghost predicate Painted(h0: Heap, h': Heap, z: int, m: int) {
    && IsRedBlack(h0) && WellFormed(h') && |h'.key| == |h0.key| && 0 <= z < |h0.key| && 0 <= m < |h0.key|
    && h'.color == h0.color[m := h0.color[z]] && h'.bh == h0.bh[m := h0.bh[z]]
  }

  /** A black `m` leaves the lowered node one black short on `x`'s side,
      where `x` is `m`'s old right child. */
  lemma RelinkBlack(h0: Heap, h: Heap, h': Heap, y: int, z: int, sp: seq<int>)
    requires Recolouring(h0, h, h', y, z, sp) && h.color[sp[|sp| - 1]] == Black
    ensures var p, x := Lowered(sp), h.right[sp[|sp| - 1]];
      && p in h'.live && h'.parent[x] == p && Short(h', p, x) && RedOkBut(h', p, x)
  {
    var n, m := |sp|, sp[|sp| - 1];
    var x := h.right[m];
    RelinkSuccessorLinks(h, h', y, z, sp);
    if n > 1 {
      var p := sp[n - 2];
      RelinkSpineLinks(h, h', y, z, sp, n - 2);
      assert Linked(h, p) && h.left[p] == m;
      BlackBelow(h0, h', z, m, p);
    } else {
      BlackAt(h0, h', z, m);
    }
  }

  lemma BlackBelow(h0: Heap, h': Heap, z: int, m: int, p: int)
    requires Painted(h0, h', z, m) && h0.color[m] == Black
    requires m in h0.live && p in h0.live && p != m && h0.left[p] == m && h0.left[m] == TNULL
    requires h0.right[p] != m && h0.right[m] != m
    requires p in h'.live && h'.left[p] == h0.right[m] && h'.right[p] == h0.right[p]
    ensures Short(h', p, h0.right[m]) && RedOkBut(h', p, h0.right[m])
  {
    assert BhOk(h0, m) && BhOk(h0, p) && RedOk(h0, p);
  }

  lemma BlackAt(h0: Heap, h': Heap, z: int, m: int)
    requires Painted(h0, h', z, m) && h0.color[m] == Black
    requires m in h0.live && z in h0.live && h0.right[z] == m && h0.left[m] == TNULL
    requires h0.left[z] != m && h0.right[m] != m
    requires m in h'.live && h'.left[m] == h0.left[z] && h'.right[m] == h0.right[m]
    ensures Short(h', m, h0.right[m]) && RedOkBut(h', m, h0.right[m])
  {
    assert BhOk(h0, m) && BhOk(h0, z) && RedOk(h0, z);
  }

  /** A red `m` had only the sentinel below it, so the lowered node keeps
      its black height. */
  lemma RelinkRed(h0: Heap, h: Heap, h': Heap, y: int, z: int, sp: seq<int>)
    requires Recolouring(h0, h, h', y, z, sp) && h.color[sp[|sp| - 1]] == Red
    ensures h.right[sp[|sp| - 1]] == TNULL
    ensures Lowered(sp) in h'.live && BhOk(h', Lowered(sp)) && RedOk(h', Lowered(sp))
  {
    var n, m := |sp|, sp[|sp| - 1];
    assert Linked(h, m);
    RedLeaf(h0, m);
    RelinkSuccessorLinks(h, h', y, z, sp);
    if n > 1 {
      var p := sp[n - 2];
      RelinkSpineLinks(h, h', y, z, sp, n - 2);
      assert Linked(h, p) && h.left[p] == m;
      RedBelow(h0, h', z, m, p);
    } else {
      RedAt(h0, h', z, m);
    }
  }

  /** A red node without a left child has no right child either. */
  lemma RedLeaf(h0: Heap, m: int)
    requires IsRedBlack(h0) && m in h0.live && h0.color[m] == Red && h0.left[m] == TNULL
    ensures h0.right[m] == TNULL
  {
    assert BhOk(h0, m) && RedOk(h0, m);
    var x := h0.right[m];
    if x != TNULL {
      assert NodeOk(h0, m) && NodeOk(h0, x) && BhOk(h0, x);
      BlackHeightSize(h0, h0.left[x]);
    }
  }

  lemma RedBelow(h0: Heap, h': Heap, z: int, m: int, p: int)
    requires Painted(h0, h', z, m) && h0.color[m] == Red
    requires m in h0.live && p in h0.live && p != m && h0.left[p] == m && h0.left[m] == TNULL
    requires h0.right[p] != m && h0.right[m] == TNULL
    requires p in h'.live && h'.left[p] == TNULL && h'.right[p] == h0.right[p]
    ensures BhOk(h', p) && RedOk(h', p)
  {
    assert BhOk(h0, m) && BhOk(h0, p) && RedOk(h0, p);
  }

  lemma RedAt(h0: Heap, h': Heap, z: int, m: int)
    requires Painted(h0, h', z, m) && h0.color[m] == Red
    requires m in h0.live && z in h0.live && h0.right[z] == m && h0.left[m] == TNULL
    requires h0.left[z] != m && h0.right[m] == TNULL
    requires m in h'.live && h'.left[m] == h0.left[z] && h'.right[m] == TNULL
    ensures BhOk(h', m) && RedOk(h', m)
  {
    assert BhOk(h0, m) && BhOk(h0, z) && RedOk(h0, z);
  }

  /** The colours after the relinking. `m` takes `z`'s colour, so every
      node but the lowered one keeps its balance. When `m` was black, its
      old right child `x` carries the deficit `fixDelete` repairs; when it
      was red, the tree stays red-black. */
  lemma RelinkColours(h0: Heap, h: Heap, h': Heap, y: int, z: int, sp: seq<int>)
    requires Recolouring(h0, h, h', y, z, sp)
    ensures h.color[sp[|sp| - 1]] == Black ==> DeleteFixing(h', h.right[sp[|sp| - 1]])
    ensures h.color[sp[|sp| - 1]] == Red ==> IsRedBlack(h')
  {
    var n, m, p := |sp|, sp[|sp| - 1], Lowered(sp);
    forall i | i in h'.live && i != p
      ensures BhOk(h', i) && RedOk(h', i)
    {
      if i == y {
        RelinkAbove(h0, h, h', y, z, sp);
      } else if i == m {
        RelinkMoved(h0, h, h', y, z, sp);
      } else {
        RelinkKept(h0, h, h', y, z, sp, i);
      }
    }
    RelinkRoot(h0, h, h', y, z, sp);
    if h.color[m] == Black {
      RelinkDeficit(h0, h, h', y, z, sp);
    } else {
      RelinkRed(h0, h, h', y, z, sp);
    }
  }

  /** The root stays black: it is either untouched or `m` in `z`'s place
      and colour. */
  lemma RelinkRoot(h0: Heap, h: Heap, h': Heap, y: int, z: int, sp: seq<int>)
    requires Recolouring(h0, h, h', y, z, sp)
    ensures h'.color[h'.root] == Black
  {
    var n, m := |sp|, sp[|sp| - 1];
    assert Linked(h, m);
    assert h.parent[m] != NIL by {
      if n > 1 {
        assert h.parent[sp[n - 1]] == sp[n - 2];
      }
    }
    assert h0.color[h0.root] == Black;
  }

  /** With a black `m`, the arena satisfies the invariant of the
      `fixDelete` loop at `x`. */
  lemma RelinkDeficit(h0: Heap, h: Heap, h': Heap, y: int, z: int, sp: seq<int>)
    requires Recolouring(h0, h, h', y, z, sp) && h.color[sp[|sp| - 1]] == Black
    requires KeptColours(h', Lowered(sp)) && h'.color[h'.root] == Black
    ensures DeleteFixing(h', h.right[sp[|sp| - 1]])
  {
    var m := sp[|sp| - 1];
    var x := h.right[m];
    RelinkBlack(h0, h, h', y, z, sp);
    assert Linked(h, m) && x != m;
    BlackHeightSize(h0, x);
    ShortFixing(h', Lowered(sp), x);
  }

  /** A node `x` below `p`, one black short there, with the rest of the
      tree balanced: the invariant of the `fixDelete` loop. */
  lemma ShortFixing(h: Heap, p: int, x: int)
    requires WellFormed(h) && p in h.live && 0 <= x < |h.key| && h.parent[x] == p
    requires Short(h, p, x) && RedOkBut(h, p, x) && KeptColours(h, p)
    requires h.color[h.root] == Black && h.bh[x] >= 0
    ensures DeleteFixing(h, x)
  {
    assert NodeOk(h, p);
    assert x != h.root by {
      if x != TNULL {
        assert NodeOk(h, x);
      }
    }
  }
}
