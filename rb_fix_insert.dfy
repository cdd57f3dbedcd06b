/** The repair loop `fixInsert` on the arena: its invariant and one lemma
    per branch of the loop body, each showing the branch keeps the
    invariant, leaves the key sequence alone and moves `pt` to a node with
    a longer key sequence (which bounds the number of iterations). */
module RedBlackInsertFix {
  import opened Common
  import opened RedBlackHeap

  /** `p` keeps the no-red-red rule except possibly towards its child `c`. */
  ghost predicate RedOkBut(h: Heap, p: int, c: int)
    requires WellFormed(h) && p in h.live
  {
    assert NodeOk(h, p);
    h.color[p] == Red ==>
      (h.left[p] == c || h.color[h.left[p]] == Black) &&
      (h.right[p] == c || h.color[h.right[p]] == Black)
  }

  /** The invariant of the `fixInsert` loop: the tree is red-black except
      that `pt` may be red under a red parent, or, when `pt` is the root,
      the root may be red. */
  ghost predicate InsertFixing(h: Heap, pt: int) {
    && WellFormed(h) && pt in h.live
    && (forall i {:trigger BhOk(h, i)} | i in h.live :: BhOk(h, i))
    && (forall i {:trigger RedOk(h, i)} | i in h.live && i != h.parent[pt] :: RedOk(h, i))
    && (pt != h.root ==> (assert NodeOk(h, pt); RedOkBut(h, h.parent[pt], pt)))
    && (h.color[h.root] == Black || pt == h.root)
  }

  /** The loop condition of `fixInsert`. */
  ghost predicate Violated(h: Heap, pt: int)
    requires WellFormed(h) && pt in h.live
  {
    assert NodeOk(h, pt);
    pt != h.root && h.color[pt] == Red && h.color[h.parent[pt]] == Red
  }

  /** The red-uncle branch: grandparent red, parent and uncle black. The
      black heights of the parent and the uncle grow by one. */
  ghost function RecolourUp(h: Heap, g: int, p: int, u: int): Heap
    requires Sized(h) && 0 <= g < |h.key| && 0 <= p < |h.key| && 0 <= u < |h.key|
  {
    h.(color := h.color[g := Red][p := Black][u := Black],
       bh := h.bh[p := h.bh[p] + 1][u := h.bh[u] + 1])
  }

  /** `std::swap` of two nodes' colours; their black heights trade places too. */
  ghost function SwapColours(h: Heap, a: int, b: int): Heap
    requires Sized(h) && 0 <= a < |h.key| && 0 <= b < |h.key|
  {
    h.(color := h.color[a := h.color[b]][b := h.color[a]],
       bh := h.bh[a := h.bh[b]][b := h.bh[a]])
  }

  /** What the invariant says about `pt`'s parent and grandparent while
      the loop runs. */
  lemma Family(h: Heap, pt: int)
    requires InsertFixing(h, pt) && Violated(h, pt)
    ensures NodeOk(h, pt) && h.parent[pt] in h.live
    ensures var p := h.parent[pt];
      && NodeOk(h, p) && p != h.root && h.parent[p] in h.live
      && NodeOk(h, h.parent[p]) && h.color[h.parent[p]] == Black
      && (h.left[p] == pt || h.right[p] == pt)
      && (h.left[h.parent[p]] == p || h.right[h.parent[p]] == p)
      && h.color[h.left[pt]] == Black && h.color[h.right[pt]] == Black
      && (h.left[p] == pt ==> h.color[h.right[p]] == Black)
      && (h.right[p] == pt ==> h.color[h.left[p]] == Black)
      && BhOk(h, pt) && BhOk(h, p) && BhOk(h, h.parent[p])
      && |h.elems[pt]| < |h.elems[p]| < |h.elems[h.parent[p]]|
  {
    assert NodeOk(h, pt);
    var p := h.parent[pt];
    assert NodeOk(h, p) && RedOk(h, pt) && RedOkBut(h, p, pt);
    var g := h.parent[p];
    assert NodeOk(h, g) && RedOk(h, g);
  }

  /** When the loop stops, colouring the root black (`root->color = BLACK`)
      leaves a red-black tree; if the root already is black the tree is
      red-black as it stands. */
  lemma FixInsertDone(h: Heap, pt: int)
    requires InsertFixing(h, pt) && !Violated(h, pt)
    ensures h.root in h.live && WellFormed(Blacken(h, h.root))
    ensures IsRedBlack(Blacken(h, h.root))
    ensures h.color[h.root] == Black ==> IsRedBlack(h)
    ensures Blacken(h, h.root).live == h.live && Contents(Blacken(h, h.root)) == Contents(h)
  {
    assert NodeOk(h, pt);
    var r := h.root;
    var h' := Blacken(h, r);
    RecolouredWellFormed(h, h');
    forall i | i in h.live ensures RedOk(h', i) && BhOk(h', i) {
      DoneNode(h, pt, i);
    }
    if h.color[r] == Black {
      assert h' == h;
    }
  }

  lemma DoneNode(h: Heap, pt: int, i: int)
    requires InsertFixing(h, pt) && !Violated(h, pt) && i in h.live
    requires h.root in h.live && WellFormed(Blacken(h, h.root))
    ensures RedOk(Blacken(h, h.root), i) && BhOk(Blacken(h, h.root), i)
  {
    var r := h.root;
    var h' := Blacken(h, r);
    assert NodeOk(h, pt) && NodeOk(h, r) && NodeOk(h, i) && BhOk(h, i);
    if pt != r {
      var p := h.parent[pt];
      assert NodeOk(h, p) && RedOkBut(h, p, pt);
    }
    if i != r {
      assert RedOk(h, i);
      assert SameAt(h, h', i);
      SameAtRules(h, h', i);
    }
  }

  /** The red-uncle branch keeps the invariant, with `pt` moved up to the
      grandparent. */
  lemma FixInsertRecolour(h: Heap, pt: int, p: int, g: int, u: int)
    requires InsertFixing(h, pt) && Violated(h, pt)
    requires p == h.parent[pt] && p in h.live && g == h.parent[p] && g in h.live
    requires u == (if p == h.left[g] then h.right[g] else h.left[g])
    requires u in h.live && h.color[u] == Red
    ensures InsertFixing(RecolourUp(h, g, p, u), g)
    ensures Contents(RecolourUp(h, g, p, u)) == Contents(h)
    ensures RecolourUp(h, g, p, u).live == h.live
    ensures |h.elems[pt]| < |h.elems[g]|
  {
    Family(h, pt);
    var h' := RecolourUp(h, g, p, u);
    RecolouredWellFormed(h, h');
    var gg := h.parent[g];
    forall i | i in h'.live
      ensures BhOk(h', i) && (i != gg ==> RedOk(h', i))
    {
      RecolourNode(h, pt, p, g, u, i);
    }
    if g != h.root {
      assert NodeOk(h, g) && RedOk(h, gg);
      assert RedOkBut(h', gg, g);
    }
  }

  lemma RecolourNode(h: Heap, pt: int, p: int, g: int, u: int, i: int)
    requires InsertFixing(h, pt) && Violated(h, pt)
    requires p == h.parent[pt] && p in h.live && g == h.parent[p] && g in h.live
    requires u == (if p == h.left[g] then h.right[g] else h.left[g])
    requires u in h.live && h.color[u] == Red
    requires WellFormed(RecolourUp(h, g, p, u)) && i in h.live
    ensures var h' := RecolourUp(h, g, p, u);
      BhOk(h', i) && (i != h.parent[g] ==> RedOk(h', i))
  {
    Family(h, pt);
    var h' := RecolourUp(h, g, p, u);
    assert NodeOk(h, i);
    if i == u {
      assert NodeOk(h, u) && RedOk(h, u) && BhOk(h, u);
    } else if i == g || i == p {
    } else if i == h.parent[g] {
      assert BhOk(h, i);
    } else {
      assert SameAt(h, h', i);
      SameAtRules(h, h', i);
    }
  }

  /** The straight-line rotation branch (`pt` is a left child of a left
      child): after the rotation at the grandparent and the colour swap the
      tree is red-black, and the new subtree root `p` is black and holds the
      grandparent's old keys. */
  lemma FixInsertLeftLine(h: Heap, pt: int, p: int, g: int, u: int)
    requires InsertFixing(h, pt) && Violated(h, pt)
    requires p == h.parent[pt] && p in h.live && g == h.parent[p] && g in h.live
    requires p == h.left[g] && pt == h.left[p]
    requires u == h.right[g] && Slot(h, u) && h.color[u] == Black
    ensures WellFormed(RightRotated(h, g))
    ensures var h' := SwapColours(RightRotated(h, g), p, g);
      && InsertFixing(h', p) && h'.color[p] == Black
      && Contents(h') == Contents(h) && h'.live == h.live && h'.elems[p] == h.elems[g]
  {
    Family(h, pt);
    var h1 := RightRotated(h, g);
    RightRotatedWellFormed(h, g);
    var h' := SwapColours(h1, p, g);
    RecolouredWellFormed(h1, h');
    forall i | i in h'.live
      ensures BhOk(h', i) && RedOk(h', i)
    {
      LeftLineNode(h, pt, p, g, u, i);
    }
  }

  lemma LeftLineNode(h: Heap, pt: int, p: int, g: int, u: int, i: int)
    requires InsertFixing(h, pt) && Violated(h, pt)
    requires p == h.parent[pt] && p in h.live && g == h.parent[p] && g in h.live
    requires p == h.left[g] && pt == h.left[p]
    requires u == h.right[g] && Slot(h, u) && h.color[u] == Black
    requires WellFormed(RightRotated(h, g)) && WellFormed(SwapColours(RightRotated(h, g), p, g))
    requires i in h.live
    ensures var h' := SwapColours(RightRotated(h, g), p, g);
      BhOk(h', i) && RedOk(h', i)
  {
    if i == p {
      LeftLineTop(h, pt, p, g, u);
    } else if i == g {
      LeftLineBelow(h, pt, p, g, u);
    } else if i == h.parent[g] {
      LeftLineAbove(h, pt, p, g, u);
    } else {
      LeftLineOther(h, pt, p, g, u, i);
    }
  }

  lemma LeftLineTop(h: Heap, pt: int, p: int, g: int, u: int)
    requires InsertFixing(h, pt) && Violated(h, pt)
    requires p == h.parent[pt] && p in h.live && g == h.parent[p] && g in h.live
    requires p == h.left[g] && pt == h.left[p]
    requires u == h.right[g] && Slot(h, u) && h.color[u] == Black
    requires WellFormed(RightRotated(h, g)) && WellFormed(SwapColours(RightRotated(h, g), p, g))
    ensures var h' := SwapColours(RightRotated(h, g), p, g);
      BhOk(h', p) && RedOk(h', p)
  {
    Family(h, pt);
    var h' := SwapColours(RightRotated(h, g), p, g);
    assert h'.left[p] == pt && h'.right[p] == g;
    assert h'.color[p] == Black && h'.bh[p] == h.bh[g] && h'.bh[g] == h.bh[p];
  }

  lemma LeftLineBelow(h: Heap, pt: int, p: int, g: int, u: int)
    requires InsertFixing(h, pt) && Violated(h, pt)
    requires p == h.parent[pt] && p in h.live && g == h.parent[p] && g in h.live
    requires p == h.left[g] && pt == h.left[p]
    requires u == h.right[g] && Slot(h, u) && h.color[u] == Black
    requires WellFormed(RightRotated(h, g)) && WellFormed(SwapColours(RightRotated(h, g), p, g))
    ensures var h' := SwapColours(RightRotated(h, g), p, g);
      BhOk(h', g) && RedOk(h', g)
  {
    Family(h, pt);
    var h' := SwapColours(RightRotated(h, g), p, g);
    var s := h.right[p];
    assert h'.left[g] == s && h'.right[g] == u;
    assert h'.color[g] == Red && h'.bh[g] == h.bh[p];
    RightRotatedFrame(h, g, s);
    RightRotatedFrame(h, g, u);
  }

  lemma LeftLineAbove(h: Heap, pt: int, p: int, g: int, u: int)
    requires InsertFixing(h, pt) && Violated(h, pt)
    requires p == h.parent[pt] && p in h.live && g == h.parent[p] && g in h.live
    requires p == h.left[g] && pt == h.left[p]
    requires u == h.right[g] && Slot(h, u) && h.color[u] == Black
    requires WellFormed(RightRotated(h, g)) && WellFormed(SwapColours(RightRotated(h, g), p, g))
    requires h.parent[g] in h.live
    ensures var h' := SwapColours(RightRotated(h, g), p, g);
      BhOk(h', h.parent[g]) && RedOk(h', h.parent[g])
  {
    Family(h, pt);
    var h' := SwapColours(RightRotated(h, g), p, g);
    var gg := h.parent[g];
    assert NodeOk(h, gg) && BhOk(h, gg) && RedOk(h, gg);
    assert h'.bh[p] == h.bh[g] && h'.color[p] == Black;
    RightRotatedFrame(h, g, gg);
    if h.left[gg] != g {
      RightRotatedFrame(h, g, h.left[gg]);
    } else {
      RightRotatedFrame(h, g, h.right[gg]);
    }
  }

  lemma LeftLineOther(h: Heap, pt: int, p: int, g: int, u: int, i: int)
    requires InsertFixing(h, pt) && Violated(h, pt)
    requires p == h.parent[pt] && p in h.live && g == h.parent[p] && g in h.live
    requires p == h.left[g] && pt == h.left[p]
    requires u == h.right[g] && Slot(h, u) && h.color[u] == Black
    requires WellFormed(RightRotated(h, g)) && WellFormed(SwapColours(RightRotated(h, g), p, g))
    requires i in h.live && i != p && i != g && i != h.parent[g]
    ensures var h' := SwapColours(RightRotated(h, g), p, g);
      BhOk(h', i) && RedOk(h', i)
  {
    Family(h, pt);
    var h' := SwapColours(RightRotated(h, g), p, g);
    assert NodeOk(h, i) && BhOk(h, i);
    RightRotatedFrame(h, g, i);
    assert SameAt(h, h', i);
    SameAtRules(h, h', i);
  }

  /** The bent branch's first rotation (`pt` is a right child of a left
      child): a left rotation at the parent turns it into the straight-line
      shape, with the old parent now the red child of the red `pt`. */
  lemma FixInsertLeftZig(h: Heap, pt: int, p: int, g: int)
    requires InsertFixing(h, pt) && Violated(h, pt)
    requires p == h.parent[pt] && p in h.live && g == h.parent[p] && g in h.live
    requires p == h.left[g] && pt == h.right[p]
    ensures WellFormed(LeftRotated(h, p))
    ensures var h' := LeftRotated(h, p);
      && InsertFixing(h', p) && Violated(h', p)
      && h'.parent[p] == pt && pt in h'.live && h'.parent[pt] == g && g in h'.live
      && h'.left[g] == pt && h'.left[pt] == p && h'.right[g] == h.right[g]
      && h'.color == h.color && Contents(h') == Contents(h) && h'.live == h.live
      && h'.elems[g] == h.elems[g]
  {
    Family(h, pt);
    var h' := LeftRotated(h, p);
    LeftRotatedWellFormed(h, p);
    forall i | i in h'.live
      ensures BhOk(h', i) && (i != pt ==> RedOk(h', i))
    {
      LeftZigNode(h, pt, p, g, i);
    }
    assert h'.parent[p] == pt && h'.parent[pt] == g && h'.left[pt] == p;
    assert h'.left[g] == pt && h'.right[g] == h.right[g];
    LeftRotatedFrame(h, p, g);
    assert RedOkBut(h', pt, p);
  }

  lemma LeftZigNode(h: Heap, pt: int, p: int, g: int, i: int)
    requires InsertFixing(h, pt) && Violated(h, pt)
    requires p == h.parent[pt] && p in h.live && g == h.parent[p] && g in h.live
    requires p == h.left[g] && pt == h.right[p]
    requires WellFormed(LeftRotated(h, p)) && i in h.live
    ensures var h' := LeftRotated(h, p);
      BhOk(h', i) && (i != pt ==> RedOk(h', i))
  {
    Family(h, pt);
    var h' := LeftRotated(h, p);
    assert NodeOk(h, i) && BhOk(h, i);
    if i == p {
      assert h'.left[p] == h.left[p] && h'.right[p] == h.left[pt];
    } else if i == pt {
      assert h'.left[pt] == p && h'.right[pt] == h.right[pt];
    } else if i == g {
      assert h'.left[g] == pt && h'.right[g] == h.right[g];
    } else {
      LeftRotatedFrame(h, p, i);
      assert SameAt(h, h', i);
      SameAtRules(h, h', i);
    }
  }

  /** The mirror image: `pt` is a right child of a right child. */
  lemma FixInsertRightLine(h: Heap, pt: int, p: int, g: int, u: int)
    requires InsertFixing(h, pt) && Violated(h, pt)
    requires p == h.parent[pt] && p in h.live && g == h.parent[p] && g in h.live
    requires p == h.right[g] && pt == h.right[p]
    requires u == h.left[g] && Slot(h, u) && h.color[u] == Black
    ensures WellFormed(LeftRotated(h, g))
    ensures var h' := SwapColours(LeftRotated(h, g), p, g);
      && InsertFixing(h', p) && h'.color[p] == Black
      && Contents(h') == Contents(h) && h'.live == h.live && h'.elems[p] == h.elems[g]
  {
    Family(h, pt);
    var h1 := LeftRotated(h, g);
    LeftRotatedWellFormed(h, g);
    var h' := SwapColours(h1, p, g);
    RecolouredWellFormed(h1, h');
    forall i | i in h'.live
      ensures BhOk(h', i) && RedOk(h', i)
    {
      RightLineNode(h, pt, p, g, u, i);
    }
  }

  lemma RightLineNode(h: Heap, pt: int, p: int, g: int, u: int, i: int)
    requires InsertFixing(h, pt) && Violated(h, pt)
    requires p == h.parent[pt] && p in h.live && g == h.parent[p] && g in h.live
    requires p == h.right[g] && pt == h.right[p]
    requires u == h.left[g] && Slot(h, u) && h.color[u] == Black
    requires WellFormed(LeftRotated(h, g)) && WellFormed(SwapColours(LeftRotated(h, g), p, g))
    requires i in h.live
    ensures var h' := SwapColours(LeftRotated(h, g), p, g);
      BhOk(h', i) && RedOk(h', i)
  {
    if i == p {
      RightLineTop(h, pt, p, g, u);
    } else if i == g {
      RightLineBelow(h, pt, p, g, u);
    } else if i == h.parent[g] {
      RightLineAbove(h, pt, p, g, u);
    } else {
      RightLineOther(h, pt, p, g, u, i);
    }
  }

  lemma RightLineTop(h: Heap, pt: int, p: int, g: int, u: int)
    requires InsertFixing(h, pt) && Violated(h, pt)
    requires p == h.parent[pt] && p in h.live && g == h.parent[p] && g in h.live
    requires p == h.right[g] && pt == h.right[p]
    requires u == h.left[g] && Slot(h, u) && h.color[u] == Black
    requires WellFormed(LeftRotated(h, g)) && WellFormed(SwapColours(LeftRotated(h, g), p, g))
    ensures var h' := SwapColours(LeftRotated(h, g), p, g);
      BhOk(h', p) && RedOk(h', p)
  {
    Family(h, pt);
    var h' := SwapColours(LeftRotated(h, g), p, g);
    assert h'.right[p] == pt && h'.left[p] == g;
    assert h'.color[p] == Black && h'.bh[p] == h.bh[g] && h'.bh[g] == h.bh[p];
  }

  lemma RightLineBelow(h: Heap, pt: int, p: int, g: int, u: int)
    requires InsertFixing(h, pt) && Violated(h, pt)
    requires p == h.parent[pt] && p in h.live && g == h.parent[p] && g in h.live
    requires p == h.right[g] && pt == h.right[p]
    requires u == h.left[g] && Slot(h, u) && h.color[u] == Black
    requires WellFormed(LeftRotated(h, g)) && WellFormed(SwapColours(LeftRotated(h, g), p, g))
    ensures var h' := SwapColours(LeftRotated(h, g), p, g);
      BhOk(h', g) && RedOk(h', g)
  {
    Family(h, pt);
    var h' := SwapColours(LeftRotated(h, g), p, g);
    var s := h.left[p];
    assert h'.right[g] == s && h'.left[g] == u;
    assert h'.color[g] == Red && h'.bh[g] == h.bh[p];
    LeftRotatedFrame(h, g, s);
    LeftRotatedFrame(h, g, u);
  }

  lemma RightLineAbove(h: Heap, pt: int, p: int, g: int, u: int)
    requires InsertFixing(h, pt) && Violated(h, pt)
    requires p == h.parent[pt] && p in h.live && g == h.parent[p] && g in h.live
    requires p == h.right[g] && pt == h.right[p]
    requires u == h.left[g] && Slot(h, u) && h.color[u] == Black
    requires WellFormed(LeftRotated(h, g)) && WellFormed(SwapColours(LeftRotated(h, g), p, g))
    requires h.parent[g] in h.live
    ensures var h' := SwapColours(LeftRotated(h, g), p, g);
      BhOk(h', h.parent[g]) && RedOk(h', h.parent[g])
  {
    Family(h, pt);
    var h' := SwapColours(LeftRotated(h, g), p, g);
    var gg := h.parent[g];
    assert NodeOk(h, gg) && BhOk(h, gg) && RedOk(h, gg);
    assert h'.bh[p] == h.bh[g] && h'.color[p] == Black;
    LeftRotatedFrame(h, g, gg);
    if h.right[gg] != g {
      LeftRotatedFrame(h, g, h.right[gg]);
    } else {
      LeftRotatedFrame(h, g, h.left[gg]);
    }
  }

  lemma RightLineOther(h: Heap, pt: int, p: int, g: int, u: int, i: int)
    requires InsertFixing(h, pt) && Violated(h, pt)
    requires p == h.parent[pt] && p in h.live && g == h.parent[p] && g in h.live
    requires p == h.right[g] && pt == h.right[p]
    requires u == h.left[g] && Slot(h, u) && h.color[u] == Black
    requires WellFormed(LeftRotated(h, g)) && WellFormed(SwapColours(LeftRotated(h, g), p, g))
    requires i in h.live && i != p && i != g && i != h.parent[g]
    ensures var h' := SwapColours(LeftRotated(h, g), p, g);
      BhOk(h', i) && RedOk(h', i)
  {
    Family(h, pt);
    var h' := SwapColours(LeftRotated(h, g), p, g);
    assert NodeOk(h, i) && BhOk(h, i);
    LeftRotatedFrame(h, g, i);
    assert SameAt(h, h', i);
    SameAtRules(h, h', i);
  }

  /** The mirror image: `pt` is a left child of a right child. */
  lemma FixInsertRightZig(h: Heap, pt: int, p: int, g: int)
    requires InsertFixing(h, pt) && Violated(h, pt)
    requires p == h.parent[pt] && p in h.live && g == h.parent[p] && g in h.live
    requires p == h.right[g] && pt == h.left[p]
    ensures WellFormed(RightRotated(h, p))
    ensures var h' := RightRotated(h, p);
      && InsertFixing(h', p) && Violated(h', p)
      && h'.parent[p] == pt && pt in h'.live && h'.parent[pt] == g && g in h'.live
      && h'.right[g] == pt && h'.right[pt] == p && h'.left[g] == h.left[g]
      && h'.color == h.color && Contents(h') == Contents(h) && h'.live == h.live
      && h'.elems[g] == h.elems[g]
  {
    Family(h, pt);
    var h' := RightRotated(h, p);
    RightRotatedWellFormed(h, p);
    forall i | i in h'.live
      ensures BhOk(h', i) && (i != pt ==> RedOk(h', i))
    {
      RightZigNode(h, pt, p, g, i);
    }
    assert h'.parent[p] == pt && h'.parent[pt] == g && h'.right[pt] == p;
    assert h'.right[g] == pt && h'.left[g] == h.left[g];
    RightRotatedFrame(h, p, g);
    assert RedOkBut(h', pt, p);
  }

  lemma RightZigNode(h: Heap, pt: int, p: int, g: int, i: int)
    requires InsertFixing(h, pt) && Violated(h, pt)
    requires p == h.parent[pt] && p in h.live && g == h.parent[p] && g in h.live
    requires p == h.right[g] && pt == h.left[p]
    requires WellFormed(RightRotated(h, p)) && i in h.live
    ensures var h' := RightRotated(h, p);
      BhOk(h', i) && (i != pt ==> RedOk(h', i))
  {
    Family(h, pt);
    var h' := RightRotated(h, p);
    assert NodeOk(h, i) && BhOk(h, i);
    if i == p {
      assert h'.right[p] == h.right[p] && h'.left[p] == h.right[pt];
    } else if i == pt {
      assert h'.right[pt] == p && h'.left[pt] == h.left[pt];
    } else if i == g {
      assert h'.right[g] == pt && h'.left[g] == h.left[g];
    } else {
      RightRotatedFrame(h, p, i);
      assert SameAt(h, h', i);
      SameAtRules(h, h', i);
    }
  }
}
