/** The repair loop `fixDelete` on the arena. After a black node leaves
    the tree, the node `x` that took its place carries an extra black: the
    paths through `x` have one black node fewer than the paths through its
    sibling. Each pass of the loop either moves that deficit one level up,
    or removes it with at most three rotations. The invariant and one lemma
    per branch of the loop body are stated here; every branch keeps the
    key sequence and the set of nodes. */
module RedBlackDeleteFix {
  import opened Common
  import opened RedBlackHeap
  import opened RedBlackInsertFix

  /** `x`'s sibling. `x` is taken to be the left child exactly when
      `x == x->parent->left`, as the source tests it; the sentinel's
      parent pointer says where an empty `x` sits. */
  ghost function Sibling(h: Heap, x: int): int
    requires Sized(h) && 0 <= x < |h.key| && 0 <= h.parent[x] < |h.key|
  {
    var p := h.parent[x];
    if h.left[p] == x then h.right[p] else h.left[p]
  }

  /** `x` is a child of `p` and its side is one black node short: `p`'s
      black height is counted on the sibling's side. */
  ghost predicate Short(h: Heap, p: int, x: int)
    requires WellFormed(h) && p in h.live
  {
    assert NodeOk(h, p);
    && (h.left[p] == x || h.right[p] == x)
    && var s := if h.left[p] == x then h.right[p] else h.left[p];
    && h.bh[p] == h.bh[x] + 1 + Blk(h.color[p])
    && h.bh[p] == h.bh[s] + Blk(h.color[p])
  }

  /** The invariant of the `fixDelete` loop. The tree is well formed and
      red-black except around `x`: unless `x` is the root, `x`'s side of
      its parent is one black short, and `x` may be a red child of a red
      parent (or have a red child itself, when it is red). A red root is
      allowed only when it is `x`. */
  ghost predicate DeleteFixing(h: Heap, x: int) {
    && WellFormed(h) && Slot(h, x) && h.bh[x] >= 0
    && (x != h.root ==> h.parent[x] in h.live && Short(h, h.parent[x], x) && RedOkBut(h, h.parent[x], x))
    && (forall i {:trigger BhOk(h, i)} | i in h.live && (x == h.root || i != h.parent[x]) :: BhOk(h, i))
    && (forall i {:trigger RedOk(h, i)} | i in h.live && i != x && (x == h.root || i != h.parent[x]) :: RedOk(h, i))
    && (h.color[h.root] == Black || x == h.root)
  }

  /** The loop condition of `fixDelete`. */
  ghost predicate Deficit(h: Heap, x: int)
    requires Sized(h) && 0 <= x < |h.key|
  {
    x != h.root && h.color[x] == Black
  }

  /** A red-black tree satisfies the invariant with `x` at the root. */
  lemma RedBlackFixing(h: Heap)
    requires IsRedBlack(h)
    ensures DeleteFixing(h, h.root)
  {
    BlackHeightSize(h, h.root);
  }

  /** Two nodes are given new colours and trade black heights: the first
      two colour writes of the red-sibling branch, of the inner-nephew
      branch and of the outer-nephew branch. */
  ghost function Exchange(h: Heap, a: int, b: int, ca: Color, cb: Color): Heap
    requires Sized(h) && 0 <= a < |h.key| && 0 <= b < |h.key|
  {
    h.(color := h.color[a := ca][b := cb], bh := h.bh[a := h.bh[b]][b := h.bh[a]])
  }

  /** `s->color = RED` with both of `s`'s children black: `s`'s subtree and
      its parent `p`'s lose one black level, so the deficit moves to `p`. */
  ghost function Lighten(h: Heap, s: int, p: int): Heap
    requires Sized(h) && 0 <= s < |h.key| && 0 <= p < |h.key|
  {
    h.(color := h.color[s := Red], bh := h.bh[s := h.bh[s] - 1][p := h.bh[p] - 1])
  }

  /** What the invariant says about `x`'s parent and sibling while the
      loop runs. */
  lemma DeleteFamily(h: Heap, x: int)
    requires DeleteFixing(h, x) && Deficit(h, x)
    ensures h.parent[x] in h.live && NodeOk(h, h.parent[x])
    ensures var p, s := h.parent[x], Sibling(h, x);
      && (h.left[p] == x || h.right[p] == x) && s in h.live && NodeOk(h, s)
      && Short(h, p, x) && RedOkBut(h, p, x)
      && s != x && s != p && BhOk(h, s) && RedOk(h, s)
      && (h.left[p] == x ==> h.right[p] == s) && (h.left[p] != x ==> h.left[p] == s)
      && h.bh[s] == h.bh[x] + 1 && h.bh[p] == h.bh[s] + Blk(h.color[p])
      && (h.color[s] == Red ==> h.color[p] == Black)
      && |h.elems[x]| < |h.elems[p]| && |h.elems[s]| < |h.elems[p]|
      && (x in h.live ==> NodeOk(h, x) && BhOk(h, x) && x != p)
      && (p != h.root ==> h.parent[p] in h.live && NodeOk(h, h.parent[p])
                          && BhOk(h, h.parent[p]) && RedOk(h, h.parent[p]))
  {
    var p := h.parent[x];
    assert NodeOk(h, p);
    var s := Sibling(h, x);
    assert s != TNULL;
    assert NodeOk(h, s) && BhOk(h, s) && RedOk(h, s);
    if x in h.live {
      assert NodeOk(h, x) && BhOk(h, x);
    }
    if p != h.root {
      var g := h.parent[p];
      assert NodeOk(h, g) && BhOk(h, g) && RedOk(h, g);
    }
  }

  /** When the loop stops, `x->color = BLACK` leaves a red-black tree: a
      red `x` made black pays back the missing black level below its
      parent, and a red root may always be made black. */
  lemma FixDeleteDone(h: Heap, x: int)
    requires DeleteFixing(h, x) && !Deficit(h, x)
    ensures IsRedBlack(Blacken(h, x))
    ensures Blacken(h, x).live == h.live && Contents(Blacken(h, x)) == Contents(h)
  {
    var h' := Blacken(h, x);
    RecolouredWellFormed(h, h');
    forall i | i in h.live ensures RedOk(h', i) && BhOk(h', i) {
      DoneNode(h, x, i);
    }
    assert h'.root == h.root;
  }

  lemma DoneNode(h: Heap, x: int, i: int)
    requires DeleteFixing(h, x) && !Deficit(h, x) && i in h.live
    requires WellFormed(Blacken(h, x))
    ensures RedOk(Blacken(h, x), i) && BhOk(Blacken(h, x), i)
  {
    var h' := Blacken(h, x);
    assert NodeOk(h, i);
    if x in h.live {
      assert NodeOk(h, x);
    }
    if x != h.root {
      var p := h.parent[x];
      assert NodeOk(h, p) && Short(h, p, x) && RedOkBut(h, p, x);
      if i == p {
        assert h'.bh[x] == h.bh[x] + 1;
      } else if i == x {
        assert BhOk(h, i);
      } else {
        assert BhOk(h, i) && RedOk(h, i);
        assert SameAt(h, h', i);
        SameAtRules(h, h', i);
      }
    } else if i == x {
      assert BhOk(h, i);
    } else {
      assert BhOk(h, i) && RedOk(h, i);
      assert SameAt(h, h', i);
      SameAtRules(h, h', i);
    }
  }

  /** The black-sibling, black-nephews branch (either side): `s` turns
      red and `x` moves up to its parent, whose key sequence is longer. */
  lemma FixDeleteLighten(h: Heap, x: int)
    requires DeleteFixing(h, x) && Deficit(h, x)
    requires var s := Sibling(h, x); s in h.live && NodeOk(h, s) && h.color[s] == Black
    requires var s := Sibling(h, x); h.color[h.left[s]] == Black && h.color[h.right[s]] == Black
    ensures var p, s := h.parent[x], Sibling(h, x);
      0 <= s < |h.key| && p in h.live
    ensures var p, s := h.parent[x], Sibling(h, x);
      var h' := Lighten(h, s, p);
      && DeleteFixing(h', p) && h'.live == h.live && Contents(h') == Contents(h)
      && h'.elems == h.elems && |h.elems[x]| < |h.elems[p]|
  {
    DeleteFamily(h, x);
    var p, s := h.parent[x], Sibling(h, x);
    var h' := Lighten(h, s, p);
    RecolouredWellFormed(h, h');
    forall i | i in h'.live
      ensures (p == h'.root || i != h'.parent[p]) ==> BhOk(h', i)
      ensures i != p && (p == h'.root || i != h'.parent[p]) ==> RedOk(h', i)
    {
      LightenNode(h, x, i);
    }
    if p != h.root {
      var g := h.parent[p];
      assert NodeOk(h, g) && BhOk(h, g) && RedOk(h, g);
      assert Short(h', g, p);
      assert RedOkBut(h', g, p);
    }
  }

  lemma LightenNode(h: Heap, x: int, i: int)
    requires DeleteFixing(h, x) && Deficit(h, x)
    requires var s := Sibling(h, x); s in h.live && NodeOk(h, s) && h.color[s] == Black
    requires var s := Sibling(h, x); h.color[h.left[s]] == Black && h.color[h.right[s]] == Black
    requires h.parent[x] in h.live && WellFormed(Lighten(h, Sibling(h, x), h.parent[x]))
    requires i in h.live
    ensures var p := h.parent[x]; var h' := Lighten(h, Sibling(h, x), p);
      && ((p == h'.root || i != h'.parent[p]) ==> BhOk(h', i))
      && (i != p && (p == h'.root || i != h'.parent[p]) ==> RedOk(h', i))
  {
    DeleteFamily(h, x);
    var p, s := h.parent[x], Sibling(h, x);
    var h' := Lighten(h, s, p);
    assert NodeOk(h, i);
    if i == p {
    } else if i == s {
      assert h'.bh[s] == h.bh[s] - 1;
    } else if i == x {
      assert h.color[x] == Black;
    } else if p != h.root && i == h.parent[p] {
    } else {
      assert BhOk(h, i) && RedOk(h, i);
      assert SameAt(h, h', i);
      SameAtRules(h, h', i);
    }
  }

  /** The red-sibling branch with `x` a left child: the sibling turns
      black, the parent red, and a left rotation at the parent brings the
      sibling's left child in as `x`'s new, black, sibling. `x` keeps its
      parent and its deficit. */
  lemma FixDeleteLeftRed(h: Heap, x: int)
    requires DeleteFixing(h, x) && Deficit(h, x)
    requires h.parent[x] in h.live && x == h.left[h.parent[x]]
    requires Sibling(h, x) in h.live && h.color[Sibling(h, x)] == Red
    ensures var p, s := h.parent[x], Sibling(h, x);
      && s in h.live && s == h.right[p]
      && WellFormed(Exchange(h, s, p, Black, Red))
    ensures var p, s := h.parent[x], Sibling(h, x);
      var h' := LeftRotated(Exchange(h, s, p, Black, Red), p);
      && DeleteFixing(h', x) && Deficit(h', x) && h'.parent[x] == p && h'.left[p] == x
      && Sibling(h', x) in h'.live && h'.color[Sibling(h', x)] == Black
      && h'.elems[x] == h.elems[x] && h'.live == h.live && Contents(h') == Contents(h)
  {
    DeleteFamily(h, x);
    var p, s := h.parent[x], Sibling(h, x);
    var h1 := Exchange(h, s, p, Black, Red);
    RecolouredWellFormed(h, h1);
    LeftRotatedWellFormed(h1, p);
    var h' := LeftRotated(h1, p);
    LeftRotatedDistinct(h1, p);
    LeftRedPivot(h, x);
    forall i | i in h'.live
      ensures i != p ==> BhOk(h', i)
      ensures i != x && i != p ==> RedOk(h', i)
    {
      LeftRedNode(h, x, i);
    }
    assert h'.root != x;
    if p == h.root {
      assert h'.root == s && h'.color[s] == Black;
    } else {
      LeftRotatedFrame(h1, p, h.root);
      assert h'.root == h.root;
    }
  }

  lemma LeftRedPivot(h: Heap, x: int)
    requires DeleteFixing(h, x) && Deficit(h, x)
    requires h.parent[x] in h.live && x == h.left[h.parent[x]]
    requires Sibling(h, x) in h.live && h.color[Sibling(h, x)] == Red
    requires WellFormed(Exchange(h, Sibling(h, x), h.parent[x], Black, Red))
    requires var p, s := h.parent[x], Sibling(h, x);
      var h1 := Exchange(h, s, p, Black, Red);
      h1.right[p] in h1.live && WellFormed(LeftRotated(h1, p))
    ensures var p, s := h.parent[x], Sibling(h, x);
      var h' := LeftRotated(Exchange(h, s, p, Black, Red), p);
      && h'.parent[x] == p && h'.left[p] == x && h'.right[p] == h.left[s]
      && h.left[s] in h.live && h'.color[h.left[s]] == Black
      && h'.elems[x] == h.elems[x] && p in h'.live
      && Short(h', p, x) && RedOkBut(h', p, x)
  {
    DeleteFamily(h, x);
    var p, s := h.parent[x], Sibling(h, x);
    var h1 := Exchange(h, s, p, Black, Red);
    var h' := LeftRotated(h1, p);
    LeftRotatedDistinct(h1, p);
    var b := h.left[s];
    assert NodeOk(h, s) && RedOk(h, s) && BhOk(h, s);
    assert b in h.live && h.color[b] == Black;
    assert h'.left[p] == x && h'.right[p] == b && h'.parent[x] == p;
    assert h'.color[p] == Red && h'.bh[p] == h.bh[s];
    assert h'.elems[x] == h.elems[x] by {
      LeftRotatedFrame(h1, p, x);
    }
  }

  lemma LeftRedNode(h: Heap, x: int, i: int)
    requires DeleteFixing(h, x) && Deficit(h, x)
    requires h.parent[x] in h.live && x == h.left[h.parent[x]]
    requires Sibling(h, x) in h.live && h.color[Sibling(h, x)] == Red
    requires WellFormed(Exchange(h, Sibling(h, x), h.parent[x], Black, Red))
    requires var p, s := h.parent[x], Sibling(h, x);
      var h1 := Exchange(h, s, p, Black, Red);
      h1.right[p] in h1.live && WellFormed(LeftRotated(h1, p))
    requires i in h.live
    ensures var p, s := h.parent[x], Sibling(h, x);
      var h' := LeftRotated(Exchange(h, s, p, Black, Red), p);
      && (i != p ==> BhOk(h', i))
      && (i != x && i != p ==> RedOk(h', i))
  {
    DeleteFamily(h, x);
    var p, s := h.parent[x], Sibling(h, x);
    if i == p {
    } else if i == s {
      LeftRedSibling(h, x);
    } else if p != h.root && i == h.parent[p] {
      LeftRedAbove(h, x);
    } else {
      LeftRedOther(h, x, i);
    }
  }

  /** The sibling, which becomes the subtree's root. */
  lemma LeftRedSibling(h: Heap, x: int)
    requires DeleteFixing(h, x) && Deficit(h, x)
    requires h.parent[x] in h.live && x == h.left[h.parent[x]]
    requires Sibling(h, x) in h.live && h.color[Sibling(h, x)] == Red
    requires WellFormed(Exchange(h, Sibling(h, x), h.parent[x], Black, Red))
    requires var p, s := h.parent[x], Sibling(h, x);
      var h1 := Exchange(h, s, p, Black, Red);
      h1.right[p] in h1.live && WellFormed(LeftRotated(h1, p))
    ensures var p, s := h.parent[x], Sibling(h, x);
      var h' := LeftRotated(Exchange(h, s, p, Black, Red), p);
      BhOk(h', s) && RedOk(h', s)
  {
    DeleteFamily(h, x);
    var p, s := h.parent[x], Sibling(h, x);
    var h1 := Exchange(h, s, p, Black, Red);
    var h' := LeftRotated(h1, p);
    LeftRotatedDistinct(h1, p);
    assert h'.left[s] == p && h'.right[s] == h.right[s];
    assert h'.bh[s] == h.bh[p] && h'.bh[p] == h.bh[s];
  }

  /** The parent's parent, whose child pointer is redirected to the sibling. */
  lemma LeftRedAbove(h: Heap, x: int)
    requires DeleteFixing(h, x) && Deficit(h, x)
    requires h.parent[x] in h.live && x == h.left[h.parent[x]]
    requires Sibling(h, x) in h.live && h.color[Sibling(h, x)] == Red
    requires WellFormed(Exchange(h, Sibling(h, x), h.parent[x], Black, Red))
    requires var p, s := h.parent[x], Sibling(h, x);
      var h1 := Exchange(h, s, p, Black, Red);
      h1.right[p] in h1.live && WellFormed(LeftRotated(h1, p))
    requires h.parent[x] != h.root
    ensures var p, s, g := h.parent[x], Sibling(h, x), h.parent[h.parent[x]];
      var h' := LeftRotated(Exchange(h, s, p, Black, Red), p);
      g in h.live && BhOk(h', g) && RedOk(h', g)
  {
    DeleteFamily(h, x);
    var p, s := h.parent[x], Sibling(h, x);
    var i := h.parent[p];
    var h1 := Exchange(h, s, p, Black, Red);
    LeftRotatedDistinct(h1, p);
    assert NodeOk(h, i);
    LeftRotatedFrame(h1, p, i);
    var o := if h.right[i] == p then h.left[i] else h.right[i];
    LeftRotatedFrame(h1, p, o);
  }

  /** Any other node keeps its links, colours and heights around it. */
  lemma LeftRedOther(h: Heap, x: int, i: int)
    requires DeleteFixing(h, x) && Deficit(h, x)
    requires h.parent[x] in h.live && x == h.left[h.parent[x]]
    requires Sibling(h, x) in h.live && h.color[Sibling(h, x)] == Red
    requires WellFormed(Exchange(h, Sibling(h, x), h.parent[x], Black, Red))
    requires var p, s := h.parent[x], Sibling(h, x);
      var h1 := Exchange(h, s, p, Black, Red);
      h1.right[p] in h1.live && WellFormed(LeftRotated(h1, p))
    requires i in h.live
    requires i != h.parent[x] && i != Sibling(h, x)
    requires h.parent[x] != h.root ==> i != h.parent[h.parent[x]]
    ensures var p, s := h.parent[x], Sibling(h, x);
      var h' := LeftRotated(Exchange(h, s, p, Black, Red), p);
      && BhOk(h', i) && (i != x ==> RedOk(h', i))
  {
    DeleteFamily(h, x);
    var p, s := h.parent[x], Sibling(h, x);
    var h1 := Exchange(h, s, p, Black, Red);
    var h' := LeftRotated(h1, p);
    LeftRotatedDistinct(h1, p);
    assert NodeOk(h, i);
    assert BhOk(h, i);
    assert i != x ==> RedOk(h, i);
    LeftRotatedFrame(h1, p, i);
    assert SameAt(h, h', i);
    SameAtRules(h, h', i);
  }

  /** The inner-nephew branch with `x` a left child: the sibling `s` is
      black with a black right child and a red left child `n`. `n` turns
      black, `s` red, and a right rotation at `s` makes `n` the new
      sibling, now with a red right child. */
  lemma FixDeleteLeftInner(h: Heap, x: int)
    requires DeleteFixing(h, x) && Deficit(h, x)
    requires h.parent[x] in h.live && x == h.left[h.parent[x]]
    requires var s := Sibling(h, x); s in h.live && NodeOk(h, s) && h.color[s] == Black
    requires var s := Sibling(h, x); h.color[h.right[s]] == Black && h.color[h.left[s]] == Red
    ensures var s := Sibling(h, x);
      && h.left[s] in h.live && WellFormed(Exchange(h, h.left[s], s, Black, Red))
    ensures var p, s := h.parent[x], Sibling(h, x);
      var h' := RightRotated(Exchange(h, h.left[s], s, Black, Red), s);
      && DeleteFixing(h', x) && Deficit(h', x) && h'.parent[x] == p && h'.left[p] == x
      && h'.right[p] == h.left[s] && Sibling(h', x) == h.left[s]
      && h'.color[h.left[s]] == Black && h'.right[h.left[s]] in h'.live
      && h'.color[h'.right[h.left[s]]] == Red
      && h'.elems[x] == h.elems[x] && h'.live == h.live && Contents(h') == Contents(h)
  {
    DeleteFamily(h, x);
    var p, s := h.parent[x], Sibling(h, x);
    var n := h.left[s];
    assert n != TNULL;
    var h1 := Exchange(h, n, s, Black, Red);
    RecolouredWellFormed(h, h1);
    RightRotatedWellFormed(h1, s);
    var h' := RightRotated(h1, s);
    RightRotatedDistinct(h1, s);
    assert h'.left[p] == x && h'.right[p] == n && h'.parent[x] == p && h'.right[n] == s;
    assert h'.color[n] == Black && h'.bh[n] == h.bh[s] && h'.color[s] == Red;
    assert h'.elems[x] == h.elems[x] by {
      RightRotatedFrame(h1, s, x);
    }
    RightRotatedFrame(h1, s, p);
    assert Short(h', p, x) && RedOkBut(h', p, x);
    forall i | i in h'.live
      ensures i != p ==> BhOk(h', i)
      ensures i != x && i != p ==> RedOk(h', i)
    {
      LeftInnerNode(h, x, i);
    }
    RightRotatedFrame(h1, s, h.root);
    assert h'.root == h.root && h.root != s && h.root != n;
  }

  lemma LeftInnerNode(h: Heap, x: int, i: int)
    requires DeleteFixing(h, x) && Deficit(h, x)
    requires h.parent[x] in h.live && x == h.left[h.parent[x]]
    requires var s := Sibling(h, x); s in h.live && NodeOk(h, s) && h.color[s] == Black
    requires var s := Sibling(h, x); h.color[h.right[s]] == Black && h.color[h.left[s]] == Red
    requires var s := Sibling(h, x); h.left[s] in h.live
    requires var s := Sibling(h, x); WellFormed(Exchange(h, h.left[s], s, Black, Red))
    requires i in h.live
    ensures var s := Sibling(h, x); var h1 := Exchange(h, h.left[s], s, Black, Red);
      h1.left[s] in h1.live && WellFormed(RightRotated(h1, s))
    ensures var p, s := h.parent[x], Sibling(h, x);
      var h' := RightRotated(Exchange(h, h.left[s], s, Black, Red), s);
      && (i != p ==> BhOk(h', i))
      && (i != x && i != p ==> RedOk(h', i))
  {
    DeleteFamily(h, x);
    var p, s := h.parent[x], Sibling(h, x);
    var n := h.left[s];
    var h1 := Exchange(h, n, s, Black, Red);
    RightRotatedWellFormed(h1, s);
    var h' := RightRotated(h1, s);
    RightRotatedDistinct(h1, s);
    assert NodeOk(h, n) && RedOk(h, n) && BhOk(h, n);
    assert NodeOk(h, i);
    if i == p {
    } else if i == n {
      assert h'.left[n] == h.left[n] && h'.right[n] == s;
      assert h'.bh[s] == h.bh[n];
    } else if i == s {
      assert h'.left[s] == h.right[n] && h'.right[s] == h.right[s];
      RightRotatedFrame(h1, s, h.right[s]);
      RightRotatedFrame(h1, s, h.right[n]);
    } else {
      LeftInnerOther(h, x, i);
    }
  }

  lemma LeftInnerOther(h: Heap, x: int, i: int)
    requires DeleteFixing(h, x) && Deficit(h, x)
    requires h.parent[x] in h.live && x == h.left[h.parent[x]]
    requires var s := Sibling(h, x); s in h.live && NodeOk(h, s) && h.color[s] == Black
    requires var s := Sibling(h, x); h.left[s] in h.live && WellFormed(Exchange(h, h.left[s], s, Black, Red))
    requires var s := Sibling(h, x); var h1 := Exchange(h, h.left[s], s, Black, Red);
      WellFormed(RightRotated(h1, s))
    requires var p, s := h.parent[x], Sibling(h, x); i in h.live && i != p && i != s && i != h.left[s]
    ensures var s := Sibling(h, x);
      var h' := RightRotated(Exchange(h, h.left[s], s, Black, Red), s);
      && BhOk(h', i) && (i != x ==> RedOk(h', i))
  {
    DeleteFamily(h, x);
    var p, s := h.parent[x], Sibling(h, x);
    var n := h.left[s];
    var h1 := Exchange(h, n, s, Black, Red);
    var h' := RightRotated(h1, s);
    RightRotatedDistinct(h1, s);
    assert NodeOk(h, i) && NodeOk(h, n);
    assert BhOk(h, i);
    assert i != x ==> RedOk(h, i);
    RightRotatedFrame(h1, s, i);
    assert SameAt(h, h', i);
    SameAtRules(h, h', i);
  }

  /** The outer-nephew branch with `x` a left child: the sibling `s` is
      black with a red right child `n`. `s` takes the parent's colour, the
      parent and `n` turn black, and a left rotation at the parent ends the
      repair: the tree is red-black. */
  lemma FixDeleteLeftOuter(h: Heap, x: int)
    requires DeleteFixing(h, x) && Deficit(h, x)
    requires h.parent[x] in h.live && x == h.left[h.parent[x]]
    requires var s := Sibling(h, x); s in h.live && NodeOk(h, s) && h.color[s] == Black
    requires var s := Sibling(h, x); h.color[h.right[s]] == Red
    ensures var p, s := h.parent[x], Sibling(h, x);
      && s == h.right[p] && h.right[s] in h.live
      && WellFormed(Blacken(Exchange(h, s, p, h.color[p], Black), h.right[s]))
    ensures var p, s := h.parent[x], Sibling(h, x);
      var h' := LeftRotated(Blacken(Exchange(h, s, p, h.color[p], Black), h.right[s]), p);
      && IsRedBlack(h') && h'.live == h.live && Contents(h') == Contents(h)
  {
    DeleteFamily(h, x);
    var p, s := h.parent[x], Sibling(h, x);
    var n := h.right[s];
    assert n != TNULL;
    var h1 := Blacken(Exchange(h, s, p, h.color[p], Black), n);
    RecolouredWellFormed(h, h1);
    LeftRotatedWellFormed(h1, p);
    var h' := LeftRotated(h1, p);
    forall i | i in h'.live
      ensures BhOk(h', i) && RedOk(h', i)
    {
      LeftOuterNode(h, x, i);
    }
    if p == h.root {
      assert h'.root == s && h'.color[s] == Black;
    } else {
      LeftRotatedFrame(h1, p, h.root);
      assert h'.root == h.root && h.root != s && h.root != n;
    }
  }

  /** The situation of the outer-nephew branch with `x` a left child,
      after the recolouring and before the rotation. */
  ghost predicate LeftOuterCase(h: Heap, x: int) {
    && DeleteFixing(h, x) && Deficit(h, x)
    && h.parent[x] in h.live && x == h.left[h.parent[x]]
    && var s := Sibling(h, x);
    && s in h.live && NodeOk(h, s) && h.color[s] == Black
    && h.right[s] in h.live && h.color[h.right[s]] == Red
    && WellFormed(Blacken(Exchange(h, s, h.parent[x], h.color[h.parent[x]], Black), h.right[s]))
  }

  lemma LeftOuterNode(h: Heap, x: int, i: int)
    requires LeftOuterCase(h, x) && i in h.live
    ensures var p, s := h.parent[x], Sibling(h, x);
      var h1 := Blacken(Exchange(h, s, p, h.color[p], Black), h.right[s]);
      h1.right[p] in h1.live && WellFormed(LeftRotated(h1, p))
    ensures var p, s := h.parent[x], Sibling(h, x);
      var h' := LeftRotated(Blacken(Exchange(h, s, p, h.color[p], Black), h.right[s]), p);
      BhOk(h', i) && RedOk(h', i)
  {
    DeleteFamily(h, x);
    var p, s := h.parent[x], Sibling(h, x);
    var n := h.right[s];
    var h1 := Blacken(Exchange(h, s, p, h.color[p], Black), n);
    LeftRotatedWellFormed(h1, p);
    if i == p {
      LeftOuterPivot(h, x);
    } else if i == s {
      LeftOuterRiser(h, x);
    } else if i == n {
      LeftOuterNephew(h, x);
    } else if p != h.root && i == h.parent[p] {
      LeftOuterAbove(h, x);
    } else {
      LeftOuterOther(h, x, i);
    }
  }

  lemma LeftOuterPivot(h: Heap, x: int)
    requires LeftOuterCase(h, x)
    requires var p, s := h.parent[x], Sibling(h, x);
      WellFormed(LeftRotated(Blacken(Exchange(h, s, p, h.color[p], Black), h.right[s]), p))
    ensures var p, s := h.parent[x], Sibling(h, x);
      var h' := LeftRotated(Blacken(Exchange(h, s, p, h.color[p], Black), h.right[s]), p);
      BhOk(h', p) && RedOk(h', p)
  {
    DeleteFamily(h, x);
    var p, s := h.parent[x], Sibling(h, x);
    var n := h.right[s];
    var h1 := Blacken(Exchange(h, s, p, h.color[p], Black), n);
    var h' := LeftRotated(h1, p);
    LeftRotatedDistinct(h1, p);
    assert h'.left[p] == x && h'.right[p] == h.left[s];
    LeftRotatedFrame(h1, p, h.left[s]);
    assert h'.color[p] == Black && h'.bh[p] == h.bh[s];
  }

  lemma LeftOuterRiser(h: Heap, x: int)
    requires LeftOuterCase(h, x)
    requires var p, s := h.parent[x], Sibling(h, x);
      WellFormed(LeftRotated(Blacken(Exchange(h, s, p, h.color[p], Black), h.right[s]), p))
    ensures var p, s := h.parent[x], Sibling(h, x);
      var h' := LeftRotated(Blacken(Exchange(h, s, p, h.color[p], Black), h.right[s]), p);
      BhOk(h', s) && RedOk(h', s)
  {
    DeleteFamily(h, x);
    var p, s := h.parent[x], Sibling(h, x);
    var n := h.right[s];
    var h1 := Blacken(Exchange(h, s, p, h.color[p], Black), n);
    var h' := LeftRotated(h1, p);
    LeftRotatedDistinct(h1, p);
    assert NodeOk(h, n) && BhOk(h, n);
    assert h'.left[s] == p && h'.right[s] == n;
    assert h'.bh[s] == h.bh[p] && h'.bh[p] == h.bh[s] && h'.bh[n] == h.bh[n] + 1;
    assert h'.color[p] == Black && h'.color[n] == Black && h'.color[s] == h.color[p];
  }

  lemma LeftOuterNephew(h: Heap, x: int)
    requires LeftOuterCase(h, x)
    requires var p, s := h.parent[x], Sibling(h, x);
      WellFormed(LeftRotated(Blacken(Exchange(h, s, p, h.color[p], Black), h.right[s]), p))
    ensures var p, s := h.parent[x], Sibling(h, x);
      var h' := LeftRotated(Blacken(Exchange(h, s, p, h.color[p], Black), h.right[s]), p);
      BhOk(h', h.right[s]) && RedOk(h', h.right[s])
  {
    DeleteFamily(h, x);
    var p, s := h.parent[x], Sibling(h, x);
    var n := h.right[s];
    var h1 := Blacken(Exchange(h, s, p, h.color[p], Black), n);
    var h' := LeftRotated(h1, p);
    LeftRotatedDistinct(h1, p);
    assert NodeOk(h, n) && BhOk(h, n) && RedOk(h, n);
    LeftRotatedFrame(h1, p, n);
    var a, b := h.left[n], h.right[n];
    assert a != p && a != s && b != p && b != s;
    LeftRotatedFrame(h1, p, a);
    LeftRotatedFrame(h1, p, b);
    assert h'.color[n] == Black && h'.bh[n] == h.bh[n] + 1;
  }

  lemma LeftOuterAbove(h: Heap, x: int)
    requires LeftOuterCase(h, x) && h.parent[x] != h.root
    requires var p, s := h.parent[x], Sibling(h, x);
      WellFormed(LeftRotated(Blacken(Exchange(h, s, p, h.color[p], Black), h.right[s]), p))
    ensures var p, s := h.parent[x], Sibling(h, x);
      var h' := LeftRotated(Blacken(Exchange(h, s, p, h.color[p], Black), h.right[s]), p);
      h.parent[p] in h.live && BhOk(h', h.parent[p]) && RedOk(h', h.parent[p])
  {
    DeleteFamily(h, x);
    var p, s := h.parent[x], Sibling(h, x);
    var n := h.right[s];
    var h1 := Blacken(Exchange(h, s, p, h.color[p], Black), n);
    var h' := LeftRotated(h1, p);
    LeftRotatedDistinct(h1, p);
    var g := h.parent[p];
    assert g != n by {
      assert NodeOk(h, n);
    }
    LeftRotatedFrame(h1, p, g);
    var o := if h.left[g] == p then h.right[g] else h.left[g];
    LeftRotatedFrame(h1, p, o);
    assert o != s && o != n;
  }

  lemma LeftOuterOther(h: Heap, x: int, i: int)
    requires LeftOuterCase(h, x) && i in h.live
    requires var p, s := h.parent[x], Sibling(h, x);
      i != p && i != s && i != h.right[s] && (p == h.root || i != h.parent[p])
    requires var p, s := h.parent[x], Sibling(h, x);
      WellFormed(LeftRotated(Blacken(Exchange(h, s, p, h.color[p], Black), h.right[s]), p))
    ensures var p, s := h.parent[x], Sibling(h, x);
      var h' := LeftRotated(Blacken(Exchange(h, s, p, h.color[p], Black), h.right[s]), p);
      BhOk(h', i) && RedOk(h', i)
  {
    DeleteFamily(h, x);
    var p, s := h.parent[x], Sibling(h, x);
    var n := h.right[s];
    var h1 := Blacken(Exchange(h, s, p, h.color[p], Black), n);
    var h' := LeftRotated(h1, p);
    LeftRotatedDistinct(h1, p);
    assert NodeOk(h, i) && NodeOk(h, n);
    assert BhOk(h, i) && RedOk(h, i);
    LeftRotatedFrame(h1, p, i);
    assert SameAt(h, h', i);
    SameAtRules(h, h', i);
  }

  /** The red-sibling branch with `x` a right child: the sibling turns
      black, the parent red, and a right rotation at the parent brings the
      sibling's right child in as `x`'s new, black, sibling. `x` keeps its
      parent and its deficit. */
  lemma FixDeleteRightRed(h: Heap, x: int)
    requires DeleteFixing(h, x) && Deficit(h, x)
    requires h.parent[x] in h.live && x == h.right[h.parent[x]]
    requires Sibling(h, x) in h.live && h.color[Sibling(h, x)] == Red
    ensures var p, s := h.parent[x], Sibling(h, x);
      && s in h.live && s == h.left[p]
      && WellFormed(Exchange(h, s, p, Black, Red))
    ensures var p, s := h.parent[x], Sibling(h, x);
      var h' := RightRotated(Exchange(h, s, p, Black, Red), p);
      && DeleteFixing(h', x) && Deficit(h', x) && h'.parent[x] == p && h'.right[p] == x
      && Sibling(h', x) in h'.live && h'.color[Sibling(h', x)] == Black
      && h'.elems[x] == h.elems[x] && h'.live == h.live && Contents(h') == Contents(h)
  {
    DeleteFamily(h, x);
    var p, s := h.parent[x], Sibling(h, x);
    var h1 := Exchange(h, s, p, Black, Red);
    RecolouredWellFormed(h, h1);
    RightRotatedWellFormed(h1, p);
    var h' := RightRotated(h1, p);
    RightRotatedDistinct(h1, p);
    RightRedPivot(h, x);
    forall i | i in h'.live
      ensures i != p ==> BhOk(h', i)
      ensures i != x && i != p ==> RedOk(h', i)
    {
      RightRedNode(h, x, i);
    }
    assert h'.root != x;
    if p == h.root {
      assert h'.root == s && h'.color[s] == Black;
    } else {
      RightRotatedFrame(h1, p, h.root);
      assert h'.root == h.root;
    }
  }

  lemma RightRedPivot(h: Heap, x: int)
    requires DeleteFixing(h, x) && Deficit(h, x)
    requires h.parent[x] in h.live && x == h.right[h.parent[x]]
    requires Sibling(h, x) in h.live && h.color[Sibling(h, x)] == Red
    requires WellFormed(Exchange(h, Sibling(h, x), h.parent[x], Black, Red))
    requires var p, s := h.parent[x], Sibling(h, x);
      var h1 := Exchange(h, s, p, Black, Red);
      h1.left[p] in h1.live && WellFormed(RightRotated(h1, p))
    ensures var p, s := h.parent[x], Sibling(h, x);
      var h' := RightRotated(Exchange(h, s, p, Black, Red), p);
      && h'.parent[x] == p && h'.right[p] == x && h'.left[p] == h.right[s]
      && h.right[s] in h.live && h'.color[h.right[s]] == Black
      && h'.elems[x] == h.elems[x] && p in h'.live
      && Short(h', p, x) && RedOkBut(h', p, x)
  {
    DeleteFamily(h, x);
    var p, s := h.parent[x], Sibling(h, x);
    var h1 := Exchange(h, s, p, Black, Red);
    var h' := RightRotated(h1, p);
    RightRotatedDistinct(h1, p);
    var b := h.right[s];
    assert NodeOk(h, s) && RedOk(h, s) && BhOk(h, s);
    assert b in h.live && h.color[b] == Black;
    assert h'.right[p] == x && h'.left[p] == b && h'.parent[x] == p;
    assert h'.color[p] == Red && h'.bh[p] == h.bh[s];
    assert h'.elems[x] == h.elems[x] by {
      RightRotatedFrame(h1, p, x);
    }
  }

  lemma RightRedNode(h: Heap, x: int, i: int)
    requires DeleteFixing(h, x) && Deficit(h, x)
    requires h.parent[x] in h.live && x == h.right[h.parent[x]]
    requires Sibling(h, x) in h.live && h.color[Sibling(h, x)] == Red
    requires WellFormed(Exchange(h, Sibling(h, x), h.parent[x], Black, Red))
    requires var p, s := h.parent[x], Sibling(h, x);
      var h1 := Exchange(h, s, p, Black, Red);
      h1.left[p] in h1.live && WellFormed(RightRotated(h1, p))
    requires i in h.live
    ensures var p, s := h.parent[x], Sibling(h, x);
      var h' := RightRotated(Exchange(h, s, p, Black, Red), p);
      && (i != p ==> BhOk(h', i))
      && (i != x && i != p ==> RedOk(h', i))
  {
    DeleteFamily(h, x);
    var p, s := h.parent[x], Sibling(h, x);
    if i == p {
    } else if i == s {
      RightRedSibling(h, x);
    } else if p != h.root && i == h.parent[p] {
      RightRedAbove(h, x);
    } else {
      RightRedOther(h, x, i);
    }
  }

  /** The sibling, which becomes the subtree's root. */
  lemma RightRedSibling(h: Heap, x: int)
    requires DeleteFixing(h, x) && Deficit(h, x)
    requires h.parent[x] in h.live && x == h.right[h.parent[x]]
    requires Sibling(h, x) in h.live && h.color[Sibling(h, x)] == Red
    requires WellFormed(Exchange(h, Sibling(h, x), h.parent[x], Black, Red))
    requires var p, s := h.parent[x], Sibling(h, x);
      var h1 := Exchange(h, s, p, Black, Red);
      h1.left[p] in h1.live && WellFormed(RightRotated(h1, p))
    ensures var p, s := h.parent[x], Sibling(h, x);
      var h' := RightRotated(Exchange(h, s, p, Black, Red), p);
      BhOk(h', s) && RedOk(h', s)
  {
    DeleteFamily(h, x);
    var p, s := h.parent[x], Sibling(h, x);
    var h1 := Exchange(h, s, p, Black, Red);
    var h' := RightRotated(h1, p);
    RightRotatedDistinct(h1, p);
    assert h'.right[s] == p && h'.left[s] == h.left[s];
    assert h'.bh[s] == h.bh[p] && h'.bh[p] == h.bh[s];
  }

  /** The parent's parent, whose child pointer is redirected to the sibling. */
  lemma RightRedAbove(h: Heap, x: int)
    requires DeleteFixing(h, x) && Deficit(h, x)
    requires h.parent[x] in h.live && x == h.right[h.parent[x]]
    requires Sibling(h, x) in h.live && h.color[Sibling(h, x)] == Red
    requires WellFormed(Exchange(h, Sibling(h, x), h.parent[x], Black, Red))
    requires var p, s := h.parent[x], Sibling(h, x);
      var h1 := Exchange(h, s, p, Black, Red);
      h1.left[p] in h1.live && WellFormed(RightRotated(h1, p))
    requires h.parent[x] != h.root
    ensures var p, s, g := h.parent[x], Sibling(h, x), h.parent[h.parent[x]];
      var h' := RightRotated(Exchange(h, s, p, Black, Red), p);
      g in h.live && BhOk(h', g) && RedOk(h', g)
  {
    DeleteFamily(h, x);
    var p, s := h.parent[x], Sibling(h, x);
    var i := h.parent[p];
    var h1 := Exchange(h, s, p, Black, Red);
    RightRotatedDistinct(h1, p);
    assert NodeOk(h, i);
    RightRotatedFrame(h1, p, i);
    var o := if h.left[i] == p then h.right[i] else h.left[i];
    RightRotatedFrame(h1, p, o);
  }

  /** Any other node keeps its links, colours and heights around it. */
  lemma RightRedOther(h: Heap, x: int, i: int)
    requires DeleteFixing(h, x) && Deficit(h, x)
    requires h.parent[x] in h.live && x == h.right[h.parent[x]]
    requires Sibling(h, x) in h.live && h.color[Sibling(h, x)] == Red
    requires WellFormed(Exchange(h, Sibling(h, x), h.parent[x], Black, Red))
    requires var p, s := h.parent[x], Sibling(h, x);
      var h1 := Exchange(h, s, p, Black, Red);
      h1.left[p] in h1.live && WellFormed(RightRotated(h1, p))
    requires i in h.live
    requires i != h.parent[x] && i != Sibling(h, x)
    requires h.parent[x] != h.root ==> i != h.parent[h.parent[x]]
    ensures var p, s := h.parent[x], Sibling(h, x);
      var h' := RightRotated(Exchange(h, s, p, Black, Red), p);
      && BhOk(h', i) && (i != x ==> RedOk(h', i))
  {
    DeleteFamily(h, x);
    var p, s := h.parent[x], Sibling(h, x);
    var h1 := Exchange(h, s, p, Black, Red);
    var h' := RightRotated(h1, p);
    RightRotatedDistinct(h1, p);
    assert NodeOk(h, i);
    assert BhOk(h, i);
    assert i != x ==> RedOk(h, i);
    RightRotatedFrame(h1, p, i);
    assert SameAt(h, h', i);
    SameAtRules(h, h', i);
  }

  /** The inner-nephew branch with `x` a right child: the sibling `s` is
      black with a black left child and a red right child `n`. `n` turns
      black, `s` red, and a left rotation at `s` makes `n` the new
      sibling, now with a red left child. */
  lemma FixDeleteRightInner(h: Heap, x: int)
    requires DeleteFixing(h, x) && Deficit(h, x)
    requires h.parent[x] in h.live && x == h.right[h.parent[x]]
    requires var s := Sibling(h, x); s in h.live && NodeOk(h, s) && h.color[s] == Black
    requires var s := Sibling(h, x); h.color[h.left[s]] == Black && h.color[h.right[s]] == Red
    ensures var s := Sibling(h, x);
      && h.right[s] in h.live && WellFormed(Exchange(h, h.right[s], s, Black, Red))
    ensures var p, s := h.parent[x], Sibling(h, x);
      var h' := LeftRotated(Exchange(h, h.right[s], s, Black, Red), s);
      && DeleteFixing(h', x) && Deficit(h', x) && h'.parent[x] == p && h'.right[p] == x
      && h'.left[p] == h.right[s] && Sibling(h', x) == h.right[s]
      && h'.color[h.right[s]] == Black && h'.left[h.right[s]] in h'.live
      && h'.color[h'.left[h.right[s]]] == Red
      && h'.elems[x] == h.elems[x] && h'.live == h.live && Contents(h') == Contents(h)
  {
    DeleteFamily(h, x);
    var p, s := h.parent[x], Sibling(h, x);
    var n := h.right[s];
    assert n != TNULL;
    var h1 := Exchange(h, n, s, Black, Red);
    RecolouredWellFormed(h, h1);
    LeftRotatedWellFormed(h1, s);
    var h' := LeftRotated(h1, s);
    LeftRotatedDistinct(h1, s);
    assert h'.right[p] == x && h'.left[p] == n && h'.parent[x] == p && h'.left[n] == s;
    assert h'.color[n] == Black && h'.bh[n] == h.bh[s] && h'.color[s] == Red;
    assert h'.elems[x] == h.elems[x] by {
      LeftRotatedFrame(h1, s, x);
    }
    LeftRotatedFrame(h1, s, p);
    assert Short(h', p, x) && RedOkBut(h', p, x);
    forall i | i in h'.live
      ensures i != p ==> BhOk(h', i)
      ensures i != x && i != p ==> RedOk(h', i)
    {
      RightInnerNode(h, x, i);
    }
    LeftRotatedFrame(h1, s, h.root);
    assert h'.root == h.root && h.root != s && h.root != n;
  }

  lemma RightInnerNode(h: Heap, x: int, i: int)
    requires DeleteFixing(h, x) && Deficit(h, x)
    requires h.parent[x] in h.live && x == h.right[h.parent[x]]
    requires var s := Sibling(h, x); s in h.live && NodeOk(h, s) && h.color[s] == Black
    requires var s := Sibling(h, x); h.color[h.left[s]] == Black && h.color[h.right[s]] == Red
    requires var s := Sibling(h, x); h.right[s] in h.live
    requires var s := Sibling(h, x); WellFormed(Exchange(h, h.right[s], s, Black, Red))
    requires i in h.live
    ensures var s := Sibling(h, x); var h1 := Exchange(h, h.right[s], s, Black, Red);
      h1.right[s] in h1.live && WellFormed(LeftRotated(h1, s))
    ensures var p, s := h.parent[x], Sibling(h, x);
      var h' := LeftRotated(Exchange(h, h.right[s], s, Black, Red), s);
      && (i != p ==> BhOk(h', i))
      && (i != x && i != p ==> RedOk(h', i))
  {
    DeleteFamily(h, x);
    var p, s := h.parent[x], Sibling(h, x);
    var n := h.right[s];
    var h1 := Exchange(h, n, s, Black, Red);
    LeftRotatedWellFormed(h1, s);
    var h' := LeftRotated(h1, s);
    LeftRotatedDistinct(h1, s);
    assert NodeOk(h, n) && RedOk(h, n) && BhOk(h, n);
    assert NodeOk(h, i);
    if i == p {
    } else if i == n {
      assert h'.right[n] == h.right[n] && h'.left[n] == s;
      assert h'.bh[s] == h.bh[n];
    } else if i == s {
      assert h'.right[s] == h.left[n] && h'.left[s] == h.left[s];
      LeftRotatedFrame(h1, s, h.left[s]);
      LeftRotatedFrame(h1, s, h.left[n]);
    } else {
      RightInnerOther(h, x, i);
    }
  }

  lemma RightInnerOther(h: Heap, x: int, i: int)
    requires DeleteFixing(h, x) && Deficit(h, x)
    requires h.parent[x] in h.live && x == h.right[h.parent[x]]
    requires var s := Sibling(h, x); s in h.live && NodeOk(h, s) && h.color[s] == Black
    requires var s := Sibling(h, x); h.right[s] in h.live && WellFormed(Exchange(h, h.right[s], s, Black, Red))
    requires var s := Sibling(h, x); var h1 := Exchange(h, h.right[s], s, Black, Red);
      WellFormed(LeftRotated(h1, s))
    requires var p, s := h.parent[x], Sibling(h, x); i in h.live && i != p && i != s && i != h.right[s]
    ensures var s := Sibling(h, x);
      var h' := LeftRotated(Exchange(h, h.right[s], s, Black, Red), s);
      && BhOk(h', i) && (i != x ==> RedOk(h', i))
  {
    DeleteFamily(h, x);
    var p, s := h.parent[x], Sibling(h, x);
    var n := h.right[s];
    var h1 := Exchange(h, n, s, Black, Red);
    var h' := LeftRotated(h1, s);
    LeftRotatedDistinct(h1, s);
    assert NodeOk(h, i) && NodeOk(h, n);
    assert BhOk(h, i);
    assert i != x ==> RedOk(h, i);
    LeftRotatedFrame(h1, s, i);
    assert SameAt(h, h', i);
    SameAtRules(h, h', i);
  }

  /** The outer-nephew branch with `x` a right child: the sibling `s` is
      black with a red left child `n`. `s` takes the parent's colour, the
      parent and `n` turn black, and a right rotation at the parent ends the
      repair: the tree is red-black. */
  lemma FixDeleteRightOuter(h: Heap, x: int)
    requires DeleteFixing(h, x) && Deficit(h, x)
    requires h.parent[x] in h.live && x == h.right[h.parent[x]]
    requires var s := Sibling(h, x); s in h.live && NodeOk(h, s) && h.color[s] == Black
    requires var s := Sibling(h, x); h.color[h.left[s]] == Red
    ensures var p, s := h.parent[x], Sibling(h, x);
      && s == h.left[p] && h.left[s] in h.live
      && WellFormed(Blacken(Exchange(h, s, p, h.color[p], Black), h.left[s]))
    ensures var p, s := h.parent[x], Sibling(h, x);
      var h' := RightRotated(Blacken(Exchange(h, s, p, h.color[p], Black), h.left[s]), p);
      && IsRedBlack(h') && h'.live == h.live && Contents(h') == Contents(h)
  {
    DeleteFamily(h, x);
    var p, s := h.parent[x], Sibling(h, x);
    var n := h.left[s];
    assert n != TNULL;
    var h1 := Blacken(Exchange(h, s, p, h.color[p], Black), n);
    RecolouredWellFormed(h, h1);
    RightRotatedWellFormed(h1, p);
    var h' := RightRotated(h1, p);
    forall i | i in h'.live
      ensures BhOk(h', i) && RedOk(h', i)
    {
      RightOuterNode(h, x, i);
    }
    if p == h.root {
      assert h'.root == s && h'.color[s] == Black;
    } else {
      RightRotatedFrame(h1, p, h.root);
      assert h'.root == h.root && h.root != s && h.root != n;
    }
  }

  /** The situation of the outer-nephew branch with `x` a right child,
      after the recolouring and before the rotation. */
  ghost predicate RightOuterCase(h: Heap, x: int) {
    && DeleteFixing(h, x) && Deficit(h, x)
    && h.parent[x] in h.live && x == h.right[h.parent[x]]
    && var s := Sibling(h, x);
    && s in h.live && NodeOk(h, s) && h.color[s] == Black
    && h.left[s] in h.live && h.color[h.left[s]] == Red
    && WellFormed(Blacken(Exchange(h, s, h.parent[x], h.color[h.parent[x]], Black), h.left[s]))
  }

  lemma RightOuterNode(h: Heap, x: int, i: int)
    requires RightOuterCase(h, x) && i in h.live
    ensures var p, s := h.parent[x], Sibling(h, x);
      var h1 := Blacken(Exchange(h, s, p, h.color[p], Black), h.left[s]);
      h1.left[p] in h1.live && WellFormed(RightRotated(h1, p))
    ensures var p, s := h.parent[x], Sibling(h, x);
      var h' := RightRotated(Blacken(Exchange(h, s, p, h.color[p], Black), h.left[s]), p);
      BhOk(h', i) && RedOk(h', i)
  {
    DeleteFamily(h, x);
    var p, s := h.parent[x], Sibling(h, x);
    var n := h.left[s];
    var h1 := Blacken(Exchange(h, s, p, h.color[p], Black), n);
    RightRotatedWellFormed(h1, p);
    if i == p {
      RightOuterPivot(h, x);
    } else if i == s {
      RightOuterRiser(h, x);
    } else if i == n {
      RightOuterNephew(h, x);
    } else if p != h.root && i == h.parent[p] {
      RightOuterAbove(h, x);
    } else {
      RightOuterOther(h, x, i);
    }
  }

  lemma RightOuterPivot(h: Heap, x: int)
    requires RightOuterCase(h, x)
    requires var p, s := h.parent[x], Sibling(h, x);
      WellFormed(RightRotated(Blacken(Exchange(h, s, p, h.color[p], Black), h.left[s]), p))
    ensures var p, s := h.parent[x], Sibling(h, x);
      var h' := RightRotated(Blacken(Exchange(h, s, p, h.color[p], Black), h.left[s]), p);
      BhOk(h', p) && RedOk(h', p)
  {
    DeleteFamily(h, x);
    var p, s := h.parent[x], Sibling(h, x);
    var n := h.left[s];
    var h1 := Blacken(Exchange(h, s, p, h.color[p], Black), n);
    var h' := RightRotated(h1, p);
    RightRotatedDistinct(h1, p);
    assert h'.right[p] == x && h'.left[p] == h.right[s];
    RightRotatedFrame(h1, p, h.right[s]);
    assert h'.color[p] == Black && h'.bh[p] == h.bh[s];
  }

  lemma RightOuterRiser(h: Heap, x: int)
    requires RightOuterCase(h, x)
    requires var p, s := h.parent[x], Sibling(h, x);
      WellFormed(RightRotated(Blacken(Exchange(h, s, p, h.color[p], Black), h.left[s]), p))
    ensures var p, s := h.parent[x], Sibling(h, x);
      var h' := RightRotated(Blacken(Exchange(h, s, p, h.color[p], Black), h.left[s]), p);
      BhOk(h', s) && RedOk(h', s)
  {
    DeleteFamily(h, x);
    var p, s := h.parent[x], Sibling(h, x);
    var n := h.left[s];
    var h1 := Blacken(Exchange(h, s, p, h.color[p], Black), n);
    var h' := RightRotated(h1, p);
    RightRotatedDistinct(h1, p);
    assert NodeOk(h, n) && BhOk(h, n);
    assert h'.right[s] == p && h'.left[s] == n;
    assert h'.bh[s] == h.bh[p] && h'.bh[p] == h.bh[s] && h'.bh[n] == h.bh[n] + 1;
    assert h'.color[p] == Black && h'.color[n] == Black && h'.color[s] == h.color[p];
  }

  lemma RightOuterNephew(h: Heap, x: int)
    requires RightOuterCase(h, x)
    requires var p, s := h.parent[x], Sibling(h, x);
      WellFormed(RightRotated(Blacken(Exchange(h, s, p, h.color[p], Black), h.left[s]), p))
    ensures var p, s := h.parent[x], Sibling(h, x);
      var h' := RightRotated(Blacken(Exchange(h, s, p, h.color[p], Black), h.left[s]), p);
      BhOk(h', h.left[s]) && RedOk(h', h.left[s])
  {
    DeleteFamily(h, x);
    var p, s := h.parent[x], Sibling(h, x);
    var n := h.left[s];
    var h1 := Blacken(Exchange(h, s, p, h.color[p], Black), n);
    var h' := RightRotated(h1, p);
    RightRotatedDistinct(h1, p);
    assert NodeOk(h, n) && BhOk(h, n) && RedOk(h, n);
    RightRotatedFrame(h1, p, n);
    var a, b := h.right[n], h.left[n];
    assert a != p && a != s && b != p && b != s;
    RightRotatedFrame(h1, p, a);
    RightRotatedFrame(h1, p, b);
    assert h'.color[n] == Black && h'.bh[n] == h.bh[n] + 1;
  }

  lemma RightOuterAbove(h: Heap, x: int)
    requires RightOuterCase(h, x) && h.parent[x] != h.root
    requires var p, s := h.parent[x], Sibling(h, x);
      WellFormed(RightRotated(Blacken(Exchange(h, s, p, h.color[p], Black), h.left[s]), p))
    ensures var p, s := h.parent[x], Sibling(h, x);
      var h' := RightRotated(Blacken(Exchange(h, s, p, h.color[p], Black), h.left[s]), p);
      h.parent[p] in h.live && BhOk(h', h.parent[p]) && RedOk(h', h.parent[p])
  {
    DeleteFamily(h, x);
    var p, s := h.parent[x], Sibling(h, x);
    var n := h.left[s];
    var h1 := Blacken(Exchange(h, s, p, h.color[p], Black), n);
    var h' := RightRotated(h1, p);
    RightRotatedDistinct(h1, p);
    var g := h.parent[p];
    assert g != n by {
      assert NodeOk(h, n);
    }
    RightRotatedFrame(h1, p, g);
    var o := if h.right[g] == p then h.left[g] else h.right[g];
    RightRotatedFrame(h1, p, o);
    assert o != s && o != n;
  }

  lemma RightOuterOther(h: Heap, x: int, i: int)
    requires RightOuterCase(h, x) && i in h.live
    requires var p, s := h.parent[x], Sibling(h, x);
      i != p && i != s && i != h.left[s] && (p == h.root || i != h.parent[p])
    requires var p, s := h.parent[x], Sibling(h, x);
      WellFormed(RightRotated(Blacken(Exchange(h, s, p, h.color[p], Black), h.left[s]), p))
    ensures var p, s := h.parent[x], Sibling(h, x);
      var h' := RightRotated(Blacken(Exchange(h, s, p, h.color[p], Black), h.left[s]), p);
      BhOk(h', i) && RedOk(h', i)
  {
    DeleteFamily(h, x);
    var p, s := h.parent[x], Sibling(h, x);
    var n := h.left[s];
    var h1 := Blacken(Exchange(h, s, p, h.color[p], Black), n);
    var h' := RightRotated(h1, p);
    RightRotatedDistinct(h1, p);
    assert NodeOk(h, i) && NodeOk(h, n);
    assert BhOk(h, i) && RedOk(h, i);
    RightRotatedFrame(h1, p, i);
    assert SameAt(h, h', i);
    SameAtRules(h, h', i);
  }

  /** The test that sends a pass to the black-nephews branch: both of the
      sibling's children are black. The left branch of the loop makes it
      in full; this is what the right branch is evidently meant to test
      too, and what the model uses on both sides. */
  ghost predicate RecolourTest(h: Heap, x: int)
    requires DeleteFixing(h, x) && Deficit(h, x)
  {
    DeleteFamily(h, x);
    var s := Sibling(h, x);
    h.color[h.left[s]] == Black && h.color[h.right[s]] == Black
  }

  /** The same test as the right branch of the loop writes it
      (RB.cpp:202): only the sibling's right child is looked at, so a
      sibling with a red left child is turned red all the same. */
  ghost predicate RecolourTestAsWritten(h: Heap, x: int)
    requires DeleteFixing(h, x) && Deficit(h, x)
  {
    DeleteFamily(h, x);
    h.color[h.right[Sibling(h, x)]] == Black
  }

  /** The arena after inserting 10, 20, 5 and 1 and removing 20, as
      `fixDelete` receives it: node 1 holds 10 (the black root), node 3
      holds 5 (black, left child of the root), node 4 holds 1 (red, left
      child of 5); node 2, which held 20, has left the tree and its place
      under the root is the sentinel, whose parent is now the root.

      How `RB.cpp` gets there. `insert(10)` makes node 1 the black root.
      `insert(20)` and `insert(5)` hang red nodes 2 and 3 to its right and
      left. `insert(1)` hangs red node 4 left of 5. The uncle 20 is then red,
      so `fixInsert` paints 5 and 20 black and 10 red, moves to 10, the
      root, and paints it black again: 10B(5B(1R), 20B). `deleteNode(20)`
      finds node 2, which has no left child, so it calls
      `rbTransplant(z, z->right)` with the sentinel. That puts the sentinel
      under 10 and sets its parent to 10. Node 2 was black, so
      `fixDelete` runs from the sentinel. */
  ghost function AfterRemoving20(): Heap {
    Heap([0, 10, 20, 5, 1], [Black, Black, Black, Black, Red],
         [NIL, 3, TNULL, 4, TNULL], [NIL, TNULL, TNULL, TNULL, TNULL],
         [1, NIL, 1, 1, 3], 1, {1, 3, 4},
         [[], [1, 5, 10], [20], [1, 5], [1]], [0, 2, 1, 1, 0])
  }

  /** On that arena the loop runs its right branch with `x` the sentinel.
      The test as written lets the sibling 5 turn red although its left
      child 1 is red, and `x` moves to the root, which ends the loop: the
      tree left behind has a red node with a red child. The full test
      sends the pass to the rotation branches instead. */
  lemma RecolourAsWrittenBreaks()
    ensures var h := AfterRemoving20();
      && DeleteFixing(h, TNULL) && Deficit(h, TNULL)
      && h.left[h.parent[TNULL]] != TNULL && Sibling(h, TNULL) == 3
      && RecolourTestAsWritten(h, TNULL) && !RecolourTest(h, TNULL)
      && h.parent[TNULL] == h.root
      && !IsRedBlack(Blacken(Lighten(h, Sibling(h, TNULL), h.parent[TNULL]), h.parent[TNULL]))
  {
    var h := AfterRemoving20();
    assert NodeOk(h, 1) && NodeOk(h, 3) && NodeOk(h, 4);
    assert WellFormed(h);
    assert BhOk(h, 3) && BhOk(h, 4) && RedOk(h, 1) && RedOk(h, 4);
    var h' := Blacken(Lighten(h, 3, 1), 1);
    RecolouredWellFormed(h, h');
    assert !RedOk(h', 3);
  }
}
