/** Shared vocabulary for the three tree engines: an optional result, and
    sorted sequences of keys with the two edits the trees perform on their
    in-order key sequence (insert one key, remove one occurrence). */
module Common {

  /** A node reference that may be null. */
  datatype Option<T> = None | Some(value: T)

  /** `std::max` on two ints: the second argument when it is larger. */
  function Max(a: int, b: int): (m: int)
    ensures m >= a && m >= b && (m == a || m == b)
  {
    if a < b then b else a
  }

  /** Non-decreasing order, the order of an in-order traversal. */
  ghost predicate Sorted(s: seq<int>) {
    forall i, j | 0 <= i < j < |s| :: s[i] <= s[j]
  }

  /** `s` with `x` placed before the first element larger than `x`. */
  function InsertSorted(s: seq<int>, x: int): (r: seq<int>)
    ensures multiset(r) == multiset(s) + multiset{x} && |r| == |s| + 1
  {
    if s == [] then [x]
    else if x < s[0] then [x] + s
    else
      assert s == [s[0]] + s[1..];
      [s[0]] + InsertSorted(s[1..], x)
  }

  /** `s` without its first occurrence of `x` (unchanged when there is none). */
  function RemoveFirst(s: seq<int>, x: int): (r: seq<int>)
    ensures multiset(r) == multiset(s) - multiset{x}
  {
    if s == [] then []
    else if s[0] == x then
      assert s == [s[0]] + s[1..];
      s[1..]
    else
      assert s == [s[0]] + s[1..];
      [s[0]] + RemoveFirst(s[1..], x)
  }

  lemma {:induction false} RemoveFirstAbsent(s: seq<int>, x: int)
    requires x !in multiset(s)
    ensures RemoveFirst(s, x) == s
  {
    if s != [] {
      assert s == [s[0]] + s[1..];
      RemoveFirstAbsent(s[1..], x);
    }
  }

  lemma SortedCons(a: int, t: seq<int>)
    requires Sorted(t) && forall x | x in multiset(t) :: a <= x
    ensures Sorted([a] + t)
  {
    var s := [a] + t;
    forall i, j | 0 <= i < j < |s| ensures s[i] <= s[j] {
      assert s[j] == t[j - 1] && t[j - 1] in multiset(t);
      if i > 0 { assert s[i] == t[i - 1]; }
    }
  }

  lemma SortedTail(a: int, t: seq<int>)
    requires Sorted([a] + t)
    ensures Sorted(t) && forall x | x in multiset(t) :: a <= x
  {
    var s := [a] + t;
    forall x | x in multiset(t) ensures a <= x {
      var k :| 0 <= k < |t| && t[k] == x;
      assert s[0] <= s[k + 1];
    }
    forall i, j | 0 <= i < j < |t| ensures t[i] <= t[j] {
      assert s[i + 1] <= s[j + 1];
    }
  }

  lemma {:induction false} InsertSortedOrder(s: seq<int>, x: int)
    requires Sorted(s)
    ensures Sorted(InsertSorted(s, x))
  {
    if s != [] {
      assert s == [s[0]] + s[1..];
      SortedTail(s[0], s[1..]);
      if x < s[0] {
        assert forall y | y in multiset(s) :: x <= y;
        SortedCons(x, s);
      } else {
        InsertSortedOrder(s[1..], x);
        SortedCons(s[0], InsertSorted(s[1..], x));
      }
    }
  }

  lemma {:induction false} RemoveFirstOrder(s: seq<int>, x: int)
    requires Sorted(s)
    ensures Sorted(RemoveFirst(s, x))
  {
    if s == [] {
    } else {
      assert s == [s[0]] + s[1..];
      SortedTail(s[0], s[1..]);
      if s[0] != x {
        RemoveFirstOrder(s[1..], x);
        SortedCons(s[0], RemoveFirst(s[1..], x));
      }
    }
  }

  /** A sorted sequence split around an element: everything before it is at
      most it, everything after at least it. */
  lemma SortedSplit(l: seq<int>, m: int, r: seq<int>)
    requires Sorted(l + [m] + r)
    ensures Sorted(l) && Sorted(r)
    ensures forall x | x in multiset(l) :: x <= m
    ensures forall x | x in multiset(r) :: m <= x
  {
    var s := l + [m] + r;
    forall i, j | 0 <= i < j < |l| ensures l[i] <= l[j] {
      assert s[i] == l[i] && s[j] == l[j];
    }
    forall i, j | 0 <= i < j < |r| ensures r[i] <= r[j] {
      assert s[|l| + 1 + i] == r[i] && s[|l| + 1 + j] == r[j];
    }
    forall x | x in multiset(l) ensures x <= m {
      var k :| 0 <= k < |l| && l[k] == x;
      assert s[k] == x && s[|l|] == m;
    }
    forall x | x in multiset(r) ensures m <= x {
      var k :| 0 <= k < |r| && r[k] == x;
      assert s[|l| + 1 + k] == x && s[|l|] == m;
    }
  }

  lemma SortedJoin(l: seq<int>, m: int, r: seq<int>)
    requires Sorted(l) && Sorted(r)
    requires forall x | x in multiset(l) :: x <= m
    requires forall x | x in multiset(r) :: m <= x
    ensures Sorted(l + [m] + r)
  {
    var s := l + [m] + r;
    forall i, j | 0 <= i < j < |s| ensures s[i] <= s[j] {
      if j < |l| {
        assert s[i] == l[i] && s[j] == l[j];
      } else if i < |l| {
        assert s[i] == l[i] && l[i] in multiset(l);
        if j > |l| { assert s[j] == r[j - |l| - 1] && r[j - |l| - 1] in multiset(r); }
      } else if i == |l| {
        assert s[j] == r[j - |l| - 1] && r[j - |l| - 1] in multiset(r);
      } else {
        assert s[i] == r[i - |l| - 1] && s[j] == r[j - |l| - 1];
      }
    }
  }

  /** A sorted sequence is determined by its multiset of elements. */
  lemma {:induction false} SortedUnique(a: seq<int>, b: seq<int>)
    requires Sorted(a) && Sorted(b) && multiset(a) == multiset(b)
    ensures a == b
    decreases |a|
  {
    if a != [] {
      SortedHeads(a, b);
      SortedUnique(a[1..], b[1..]);
      assert a == [a[0]] + a[1..] && b == [b[0]] + b[1..];
    } else {
      assert |b| == |multiset(b)| == 0;
    }
  }

  /** Two non-empty sorted sequences with the same elements start alike. */
  lemma SortedHeads(a: seq<int>, b: seq<int>)
    requires Sorted(a) && Sorted(b) && multiset(a) == multiset(b) && a != []
    ensures b != [] && a[0] == b[0] && Sorted(a[1..]) && Sorted(b[1..])
    ensures multiset(a[1..]) == multiset(b[1..])
  {
    assert |a| == |multiset(a)| == |b|;
    assert b[0] <= a[0] by {
      assert a[0] in multiset(a);
      var j :| 0 <= j < |b| && b[j] == a[0];
      if j > 0 { assert b[0] <= b[j]; }
    }
    assert a[0] <= b[0] by {
      assert b[0] in multiset(b);
      var j :| 0 <= j < |a| && a[j] == b[0];
      if j > 0 { assert a[0] <= a[j]; }
    }
    SortedDrop(a);
    SortedDrop(b);
    SameTails(a, b);
  }

  lemma SameTails(a: seq<int>, b: seq<int>)
    requires multiset(a) == multiset(b) && a != [] && b != [] && a[0] == b[0]
    ensures multiset(a[1..]) == multiset(b[1..])
  {
    assert a == [a[0]] + a[1..] && b == [b[0]] + b[1..];
    assert multiset(a[1..]) == multiset(a) - multiset{a[0]};
    assert multiset(b[1..]) == multiset(b) - multiset{b[0]};
  }

  lemma SortedDrop(s: seq<int>)
    requires Sorted(s) && s != []
    ensures Sorted(s[1..])
  {
    forall i, j | 0 <= i < j < |s| - 1 ensures s[1..][i] <= s[1..][j] {
      assert s[1..][i] == s[i + 1] && s[1..][j] == s[j + 1];
    }
  }

  /** Inserting into a sorted concatenation lands in the side the
      comparison with the middle element selects. */
  lemma InsertSortedSplit(l: seq<int>, m: int, r: seq<int>, x: int)
    requires Sorted(l + [m] + r)
    ensures x < m ==> InsertSorted(l + [m] + r, x) == InsertSorted(l, x) + [m] + r
    ensures m <= x ==> InsertSorted(l + [m] + r, x) == l + [m] + InsertSorted(r, x)
  {
    var s := l + [m] + r;
    assert Sorted(InsertSorted(s, x)) by {
      InsertSortedOrder(s, x);
    }
    InsertRegroup(l, m, r, x);
    if x < m {
      var t := InsertSorted(l, x);
      assert Sorted(t + [m] + r) by {
        SortedSplit(l, m, r);
        InsertSortedOrder(l, x);
        SortedJoin(t, m, r);
      }
      SortedUnique(InsertSorted(s, x), t + [m] + r);
    } else {
      var t := InsertSorted(r, x);
      assert Sorted(l + [m] + t) by {
        SortedSplit(l, m, r);
        InsertSortedOrder(r, x);
        SortedJoin(l, m, t);
      }
      SortedUnique(InsertSorted(s, x), l + [m] + t);
    }
  }

  /** Inserting into either side of `l + [m] + r` gives the same elements. */
  lemma InsertRegroup(l: seq<int>, m: int, r: seq<int>, x: int)
    ensures multiset(InsertSorted(l + [m] + r, x)) == multiset(InsertSorted(l, x) + [m] + r)
    ensures multiset(InsertSorted(l + [m] + r, x)) == multiset(l + [m] + InsertSorted(r, x))
  {
    assert multiset(l + [m] + r) == multiset(l) + multiset{m} + multiset(r);
    assert multiset(InsertSorted(l, x) + [m] + r) == multiset(InsertSorted(l, x)) + multiset{m} + multiset(r);
    assert multiset(l + [m] + InsertSorted(r, x)) == multiset(l) + multiset{m} + multiset(InsertSorted(r, x));
  }

  /** In a sorted sequence all copies of one value are adjacent, so it does
      not matter which occurrence is removed. */
  lemma RemoveFirstSplit(l: seq<int>, m: int, r: seq<int>)
    requires Sorted(l + [m] + r)
    ensures RemoveFirst(l + [m] + r, m) == l + r
  {
    var s := l + [m] + r;
    SortedSplit(l, m, r);
    RemoveFirstOrder(s, m);
    forall i, j | 0 <= i < j < |l + r| ensures (l + r)[i] <= (l + r)[j] {
      if i < |l| && j >= |l| {
        assert (l + r)[i] == s[i] && (l + r)[j] == s[j + 1];
      } else if j < |l| {
        assert (l + r)[i] == s[i] && (l + r)[j] == s[j];
      } else {
        assert (l + r)[i] == s[i + 1] && (l + r)[j] == s[j + 1];
      }
    }
    SortedUnique(RemoveFirst(s, m), l + r);
  }

  /** Removing from a sorted concatenation acts on the side that holds the key. */
  lemma RemoveFirstLeft(l: seq<int>, m: int, r: seq<int>, x: int)
    requires Sorted(l + [m] + r) && x < m
    ensures RemoveFirst(l + [m] + r, x) == RemoveFirst(l, x) + [m] + r
  {
    var mr := [m] + r;
    var t := RemoveFirst(l, x);
    assert Sorted(t + [m] + r) by {
      SortedSplit(l, m, r);
      RemoveFirstOrder(l, x);
      forall y | y in multiset(t) ensures y <= m {
        assert y in multiset(l);
      }
      SortedJoin(t, m, r);
    }
    assert Sorted(RemoveFirst(l + [m] + r, x)) by {
      RemoveFirstOrder(l + [m] + r, x);
    }
    assert x !in multiset(mr) by {
      SortedSplit(l, m, r);
      assert multiset(mr) == multiset{m} + multiset(r);
    }
    RemoveFirstAppend(l, mr, x);
    Regroup(l, m, r);
    Regroup(t, m, r);
    SortedUnique(RemoveFirst(l + [m] + r, x), t + [m] + r);
  }

  lemma Regroup(l: seq<int>, m: int, r: seq<int>)
    ensures l + ([m] + r) == l + [m] + r
  {
  }

  lemma RemoveFirstAppend(l: seq<int>, mr: seq<int>, x: int)
    requires x !in multiset(mr)
    ensures multiset(RemoveFirst(l + mr, x)) == multiset(RemoveFirst(l, x) + mr)
  {
    assert multiset(l + mr) == multiset(l) + multiset(mr);
    assert multiset(RemoveFirst(l, x) + mr) == multiset(RemoveFirst(l, x)) + multiset(mr);
  }

  lemma RemoveFirstRight(l: seq<int>, m: int, r: seq<int>, x: int)
    requires Sorted(l + [m] + r) && m < x
    ensures RemoveFirst(l + [m] + r, x) == l + [m] + RemoveFirst(r, x)
  {
    var lm := l + [m];
    var t := RemoveFirst(r, x);
    assert Sorted(l + [m] + t) by {
      SortedSplit(l, m, r);
      RemoveFirstOrder(r, x);
      forall y | y in multiset(t) ensures m <= y {
        assert y in multiset(r);
      }
      SortedJoin(l, m, t);
    }
    assert Sorted(RemoveFirst(l + [m] + r, x)) by {
      RemoveFirstOrder(l + [m] + r, x);
    }
    assert x !in multiset(lm) by {
      SortedSplit(l, m, r);
      assert multiset(lm) == multiset(l) + multiset{m};
    }
    RemoveFirstPrepend(lm, r, x);
    assert lm + r == l + [m] + r && lm + t == l + [m] + t;
    SortedUnique(RemoveFirst(l + [m] + r, x), l + [m] + t);
  }

  lemma RemoveFirstPrepend(lm: seq<int>, r: seq<int>, x: int)
    requires x !in multiset(lm)
    ensures multiset(RemoveFirst(lm + r, x)) == multiset(lm + RemoveFirst(r, x))
  {
    assert multiset(lm + r) == multiset(lm) + multiset(r);
    assert multiset(lm + RemoveFirst(r, x)) == multiset(lm) + multiset(RemoveFirst(r, x));
  }

  /** Removing `m` from `l + [m] + r` when `r` holds another `m`: by the
      order, taking the copy out of `r` gives the same sequence. */
  lemma RemoveFirstEqualRight(l: seq<int>, m: int, r: seq<int>)
    requires Sorted(l + [m] + r) && m in multiset(r)
    ensures RemoveFirst(l + [m] + r, m) == l + [m] + RemoveFirst(r, m)
  {
    RemoveFirstSplit(l, m, r);
    SortedSplit(l, m, r);
    SortedFirstOf(r, m);
    DropHead(l, m, r);
  }

  /** Putting back the first element of `r` between `l` and the rest. */
  lemma DropHead(l: seq<int>, m: int, r: seq<int>)
    requires r != [] && r[0] == m
    ensures RemoveFirst(r, m) == r[1..] && l + [m] + r[1..] == l + r
  {
    assert r == [m] + r[1..];
  }

  /** A sorted sequence holding `m` and nothing below it starts with `m`. */
  lemma SortedFirstOf(r: seq<int>, m: int)
    requires Sorted(r) && m in multiset(r) && forall x | x in multiset(r) :: m <= x
    ensures r != [] && r[0] == m
  {
    var j :| 0 <= j < |r| && r[j] == m;
    assert r[0] in multiset(r);
    if j > 0 {
      assert r[0] <= r[j];
    }
  }
}
