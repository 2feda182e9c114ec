/**
 * The grid as a value: a height x width matrix of cells indexed `[y][x]`,
 * with the notions both engines are specified against: counting, the
 * clipped Moore neighbourhood in the engines' own enumeration order, the
 * set of marked cells around a position (the reference definition of a
 * degree), the effect of a chord, and the "only HIDDEN cells become
 * REVEALED" relation that every reveal keeps.
 */
module Board {
  import opened GridTypes

  type Board = seq<seq<Cell>>

  /** `m` has `h` rows of `w` entries each. */
  predicate Shaped<T>(m: seq<seq<T>>, w: int, h: int)
  {
    |m| == h && forall j :: 0 <= j < h ==> |m[j]| == w
  }

  predicate InBounds(w: int, h: int, c: Coord)
  {
    0 <= c.x < w && 0 <= c.y < h
  }

  /** Every coordinate of `ns` lies on the `w` by `h` grid. */
  predicate AllInBounds(w: int, h: int, ns: seq<Coord>)
  {
    forall t :: 0 <= t < |ns| ==> InBounds(w, h, ns[t])
  }

  /** Every coordinate of `ns` addresses an entry of `m`. */
  predicate Inside<T>(m: seq<seq<T>>, ns: seq<Coord>)
  {
    forall k :: 0 <= k < |ns| ==> 0 <= ns[k].y < |m| && 0 <= ns[k].x < |m[ns[k].y]|
  }

  /** `m` with the entry at `c` replaced by `v`. */
  function Update<T>(m: seq<seq<T>>, c: Coord, v: T): (r: seq<seq<T>>)
    requires 0 <= c.y < |m| && 0 <= c.x < |m[c.y]|
    ensures |r| == |m| && forall j :: 0 <= j < |m| ==> |r[j]| == |m[j]|
    ensures r[c.y][c.x] == v
    ensures forall j, i :: 0 <= j < |m| && 0 <= i < |m[j]| && (i != c.x || j != c.y) ==> r[j][i] == m[j][i]
  {
    m[c.y := m[c.y][c.x := v]]
  }

  lemma UpdateSame<T>(m: seq<seq<T>>, c: Coord)
    requires 0 <= c.y < |m| && 0 <= c.x < |m[c.y]|
    ensures Update(m, c, m[c.y][c.x]) == m
  {
    assert m[c.y][c.x := m[c.y][c.x]] == m[c.y];
  }

  /** The entries of `m` at the coordinates `ns`, in the order of `ns`. */
  function At<T>(m: seq<seq<T>>, ns: seq<Coord>): (r: seq<T>)
    requires Inside(m, ns)
    ensures |r| == |ns| && forall k :: 0 <= k < |ns| ==> r[k] == m[ns[k].y][ns[k].x]
  {
    seq(|ns|, k requires 0 <= k < |ns| => m[ns[k].y][ns[k].x])
  }

  lemma AtSnoc<T>(m: seq<seq<T>>, ns: seq<Coord>, c: Coord)
    requires Inside(m, ns + [c])
    ensures Inside(m, ns) && 0 <= c.y < |m| && 0 <= c.x < |m[c.y]|
    ensures At(m, ns + [c]) == At(m, ns) + [m[c.y][c.x]]
  {
    assert (ns + [c])[|ns|] == c;
    assert forall k :: 0 <= k < |ns| ==> (ns + [c])[k] == ns[k];
  }

  // ---------------------------------------------------------------------
  // Counting

  /** The number of entries of `s` satisfying `p`. */
  function Count<T>(s: seq<T>, p: T -> bool): (n: nat)
    ensures n <= |s|
  {
    if s == [] then 0 else Count(s[..|s| - 1], p) + (if p(s[|s| - 1]) then 1 else 0)
  }

  /** Counting along a list of one or two entries. */
  lemma CountPair<T>(a: T, b: T, p: T -> bool)
    ensures Count([a], p) == (if p(a) then 1 else 0)
    ensures Count([a, b], p) == Count([a], p) + (if p(b) then 1 else 0)
  {
    assert [a][..0] == [] && [a, b][..1] == [a];
  }

  /** The number of entries of the matrix `m` satisfying `p`. */
  function CountAll<T>(m: seq<seq<T>>, p: T -> bool): nat
  {
    if m == [] then 0 else CountAll(m[..|m| - 1], p) + Count(m[|m| - 1], p)
  }

  lemma CountSnoc<T>(s: seq<T>, v: T, p: T -> bool)
    ensures Count(s + [v], p) == Count(s, p) + (if p(v) then 1 else 0)
  {
    assert (s + [v])[..|s|] == s;
  }

  /** Counting is monotone: where `q` holds of `t`, `p` holds of `s`. */
  lemma {:induction false} CountLe<T, U>(s: seq<T>, t: seq<U>, p: T -> bool, q: U -> bool)
    requires |s| == |t|
    requires forall k :: 0 <= k < |t| && q(t[k]) ==> p(s[k])
    ensures Count(t, q) <= Count(s, p)
  {
    if t != [] {
      CountLe(s[..|s| - 1], t[..|t| - 1], p, q);
    }
  }

  /** A count is zero exactly when no entry satisfies the predicate. */
  lemma {:induction false} CountZero<T>(s: seq<T>, p: T -> bool)
    ensures Count(s, p) == 0 <==> forall k :: 0 <= k < |s| ==> !p(s[k])
  {
    if s != [] {
      CountZero(s[..|s| - 1], p);
      assert forall k :: 0 <= k < |s| - 1 ==> s[..|s| - 1][k] == s[k];
    }
  }

  lemma {:induction false} CountUpdate<T>(s: seq<T>, i: int, v: T, p: T -> bool)
    requires 0 <= i < |s|
    ensures Count(s[i := v], p) == Count(s, p) - (if p(s[i]) then 1 else 0) + (if p(v) then 1 else 0)
  {
    var n := |s| - 1;
    if i == n {
      assert s[i := v][..n] == s[..n];
    } else {
      assert s[i := v][..n] == s[..n][i := v];
      CountUpdate(s[..n], i, v, p);
    }
  }

  /** Replacing one entry moves the matrix count by the difference it makes. */
  lemma {:induction false} CountAllUpdate<T>(m: seq<seq<T>>, c: Coord, v: T, p: T -> bool)
    requires 0 <= c.y < |m| && 0 <= c.x < |m[c.y]|
    ensures CountAll(Update(m, c, v), p)
         == CountAll(m, p) - (if p(m[c.y][c.x]) then 1 else 0) + (if p(v) then 1 else 0)
  {
    var n := |m| - 1;
    var r := Update(m, c, v);
    if c.y == n {
      assert r[..n] == m[..n];
      CountUpdate(m[n], c.x, v, p);
    } else {
      assert r[..n] == Update(m[..n], c, v);
      CountAllUpdate(m[..n], c, v, p);
    }
  }

  /** Matrix counting is monotone, entry by entry. */
  lemma {:induction false} CountAllLe<T, U>(m: seq<seq<T>>, n: seq<seq<U>>, p: T -> bool, q: U -> bool)
    requires |m| == |n| && forall j :: 0 <= j < |m| ==> |m[j]| == |n[j]|
    requires forall j, i :: 0 <= j < |n| && 0 <= i < |n[j]| && q(n[j][i]) ==> p(m[j][i])
    ensures CountAll(n, q) <= CountAll(m, p)
  {
    if n != [] {
      var k := |n| - 1;
      CountAllLe(m[..k], n[..k], p, q);
      CountLe(m[k], n[k], p, q);
    }
  }

  /** Matrices that agree entry by entry on the two predicates have the same count. */
  lemma CountAllSame<T, U>(m: seq<seq<T>>, n: seq<seq<U>>, p: T -> bool, q: U -> bool)
    requires |m| == |n| && forall j :: 0 <= j < |m| ==> |m[j]| == |n[j]|
    requires forall j, i :: 0 <= j < |n| && 0 <= i < |n[j]| ==> (q(n[j][i]) <==> p(m[j][i]))
    ensures CountAll(n, q) == CountAll(m, p)
  {
    CountAllLe(m, n, p, q);
    CountAllLe(n, m, q, p);
  }

  lemma {:induction false} CountAllNone<T>(m: seq<seq<T>>, p: T -> bool)
    requires forall j, i :: 0 <= j < |m| && 0 <= i < |m[j]| ==> !p(m[j][i])
    ensures CountAll(m, p) == 0
  {
    if m != [] {
      var k := |m| - 1;
      CountAllNone(m[..k], p);
      CountZero(m[k], p);
    }
  }

  /** The number of the first `k` positions of `ns` whose entry satisfies `p`. */
  function CountAt<T>(m: seq<seq<T>>, ns: seq<Coord>, k: int, p: T -> bool): nat
    requires Inside(m, ns) && 0 <= k <= |ns|
  {
    if k == 0 then 0 else CountAt(m, ns, k - 1, p) + (if p(m[ns[k - 1].y][ns[k - 1].x]) then 1 else 0)
  }

  lemma {:induction false} CountAtIsCount<T>(m: seq<seq<T>>, ns: seq<Coord>, k: int, p: T -> bool)
    requires Inside(m, ns) && 0 <= k <= |ns|
    ensures CountAt(m, ns, k, p) == Count(At(m, ns)[..k], p)
  {
    if k > 0 {
      CountAtIsCount(m, ns, k - 1, p);
      var s := At(m, ns);
      assert s[..k][..k - 1] == s[..k - 1];
    }
  }

  // ---------------------------------------------------------------------
  // The clipped Moore neighbourhood

  // Columns and rows are passed as absolute positions `i = x + x_delta` and
  // `j = y + y_delta`, so that the recursion below is on terms built from `x`
  // and `y`, never on bare literals.

  /** The cell (i, j) next to (x, y), unless it is (x, y) itself or off the grid. */
  function Step(w: int, h: int, x: int, y: int, i: int, j: int): seq<Coord>
  {
    if (i == x && j == y) || i < 0 || i >= w || j < 0 || j >= h then []
    else [Coord(i, j)]
  }

  /** What the inner loop over y_delta has collected in column i before reaching row j. */
  function ColumnUpTo(w: int, h: int, x: int, y: int, i: int, j: int): seq<Coord>
    requires y - 1 <= j <= y + 2
    decreases j - y + 1
  {
    if j == y - 1 then [] else ColumnUpTo(w, h, x, y, i, j - 1) + Step(w, h, x, y, i, j - 1)
  }

  /** What the outer loop over x_delta has collected before reaching column i. */
  function ColumnsUpTo(w: int, h: int, x: int, y: int, i: int): seq<Coord>
    requires x - 1 <= i <= x + 2
    decreases i - x + 1
  {
    if i == x - 1 then [] else ColumnsUpTo(w, h, x, y, i - 1) + ColumnUpTo(w, h, x, y, i - 1, y + 2)
  }

  /** `c` is one of the at most eight grid cells around (x, y), clipped at the edges. */
  predicate InWindow(w: int, h: int, x: int, y: int, c: Coord)
  {
    x - 1 <= c.x <= x + 1 && y - 1 <= c.y <= y + 1 && InBounds(w, h, c) && c != Coord(x, y)
  }

  /** Column-major order: the order of the x_delta-outer, y_delta-inner loops. */
  predicate Before(a: Coord, b: Coord)
  {
    a.x < b.x || (a.x == b.x && a.y < b.y)
  }

  predicate Ordered(ns: seq<Coord>)
  {
    forall i, j :: 0 <= i < j < |ns| ==> Before(ns[i], ns[j])
  }

  predicate NoDuplicates(s: seq<Coord>)
  {
    forall i, j :: 0 <= i < j < |s| ==> s[i] != s[j]
  }

  lemma OrderedConcat(s: seq<Coord>, t: seq<Coord>)
    requires Ordered(s) && Ordered(t)
    requires forall a, b :: a in s && b in t ==> Before(a, b)
    ensures Ordered(s + t)
  {
    forall i, j | 0 <= i < j < |s + t|
      ensures Before((s + t)[i], (s + t)[j])
    {
      if j < |s| {
      } else if i < |s| {
        assert (s + t)[i] in s && (s + t)[j] in t;
      } else {
        assert (s + t)[i] == t[i - |s|] && (s + t)[j] == t[j - |s|];
      }
    }
  }

  lemma {:induction false} ColumnFacts(w: int, h: int, x: int, y: int, i: int, j: int)
    requires y - 1 <= j <= y + 2
    ensures var col := ColumnUpTo(w, h, x, y, i, j);
      && Ordered(col)
      && (forall c :: c in col <==> c.x == i && y - 1 <= c.y < j && InBounds(w, h, c) && c != Coord(x, y))
      && |col| + (if i == x && j >= y + 1 then 1 else 0) <= j - y + 1
    decreases j - y + 1
  {
    if j > y - 1 {
      ColumnFacts(w, h, x, y, i, j - 1);
      var pre := ColumnUpTo(w, h, x, y, i, j - 1);
      var st := Step(w, h, x, y, i, j - 1);
      OrderedConcat(pre, st);
    }
  }

  lemma {:induction false} ColumnsFacts(w: int, h: int, x: int, y: int, i: int)
    requires x - 1 <= i <= x + 2
    ensures var ns := ColumnsUpTo(w, h, x, y, i);
      && Ordered(ns)
      && (forall c :: c in ns <==> c.x < i && InWindow(w, h, x, y, c))
      && |ns| + (if i >= x + 1 then 1 else 0) <= 3 * (i - x + 1)
    decreases i - x + 1
  {
    if i > x - 1 {
      ColumnsFacts(w, h, x, y, i - 1);
      ColumnFacts(w, h, x, y, i - 1, y + 2);
      var pre := ColumnsUpTo(w, h, x, y, i - 1);
      var col := ColumnUpTo(w, h, x, y, i - 1, y + 2);
      OrderedConcat(pre, col);
    }
  }

  /**
   * `getNeighbors` as coordinates: the cells around (x, y) inside the grid,
   * never (x, y) itself, no wrap-around, at most eight. `NeighborsSpec`
   * adds the rest: each once, in x_delta-outer / y_delta-inner order, and
   * every cell of the window present.
   */
  function Neighbors(w: int, h: int, x: int, y: int): (ns: seq<Coord>)
    ensures |ns| <= 8
    ensures forall k :: 0 <= k < |ns| ==> InWindow(w, h, x, y, ns[k])
    ensures AllInBounds(w, h, ns)
  {
    ColumnsFacts(w, h, x, y, x + 2);
    ColumnsUpTo(w, h, x, y, x + 2)
  }

  lemma NeighborsSpec(w: int, h: int, x: int, y: int)
    ensures var ns := Neighbors(w, h, x, y);
      && Ordered(ns) && NoDuplicates(ns)
      && forall c :: c in ns <==> InWindow(w, h, x, y, c)
  {
    ColumnsFacts(w, h, x, y, x + 2);
  }

  lemma NeighborsInside<T>(m: seq<seq<T>>, w: int, h: int, x: int, y: int)
    requires Shaped(m, w, h)
    ensures Inside(m, Neighbors(w, h, x, y))
  {
  }

  /**
   * The neighbour-collecting loops of `getNeighbors` and `revealCell`: x_delta
   * outer, y_delta inner, skipping (x, y) itself and positions off the grid.
   * They collect exactly `Neighbors(w, h, x, y)`.
   */
  method CollectNeighbors(w: int, h: int, x: int, y: int) returns (ns: seq<Coord>)
    ensures ns == Neighbors(w, h, x, y)
  {
    ns := [];
    for xDelta := -1 to 2
      invariant ns == ColumnsUpTo(w, h, x, y, x + xDelta)
    {
      for yDelta := -1 to 2
        invariant ns == ColumnsUpTo(w, h, x, y, x + xDelta) + ColumnUpTo(w, h, x, y, x + xDelta, y + yDelta)
      {
        if (xDelta == 0 && yDelta == 0) || x + xDelta < 0 || x + xDelta >= w || y + yDelta < 0 || y + yDelta >= h {
          continue;
        }
        ns := ns + [Coord(x + xDelta, y + yDelta)];
      }
    }
  }

  /** Neighbourhood is symmetric. */
  lemma NeighborsSymmetric(w: int, h: int, a: Coord, b: Coord)
    requires InBounds(w, h, a) && InBounds(w, h, b)
    ensures b in Neighbors(w, h, a.x, a.y) <==> a in Neighbors(w, h, b.x, b.y)
  {
    NeighborsSpec(w, h, a.x, a.y);
    NeighborsSpec(w, h, b.x, b.y);
  }

  // ---------------------------------------------------------------------
  // Degrees

  /**
   * The reference definition of a degree: the set of positions in the clipped
   * 3x3 window around (x, y), other than (x, y), whose entry satisfies `p`.
   */
  ghost function AroundSet<T>(m: seq<seq<T>>, p: T -> bool, w: int, h: int, x: int, y: int): set<Coord>
    requires Shaped(m, w, h)
  {
    set i, j | x - 1 <= i <= x + 1 && y - 1 <= j <= y + 1 && 0 <= i < w && 0 <= j < h
               && (i != x || j != y) && p(m[j][i]) :: Coord(i, j)
  }

  lemma AroundSetMember<T>(m: seq<seq<T>>, p: T -> bool, w: int, h: int, x: int, y: int, c: Coord)
    requires Shaped(m, w, h)
    ensures c in AroundSet(m, p, w, h, x, y) <==> InWindow(w, h, x, y, c) && p(m[c.y][c.x])
  {
    if InWindow(w, h, x, y, c) && p(m[c.y][c.x]) {
      assert c == Coord(c.x, c.y);
    }
  }

  /** Matrices whose entries agree on the two predicates have the same marked sets. */
  lemma AroundSetSame<T, U>(m: seq<seq<T>>, p: T -> bool, n: seq<seq<U>>, q: U -> bool,
                             w: int, h: int, x: int, y: int)
    requires Shaped(m, w, h) && Shaped(n, w, h)
    requires forall j, i :: 0 <= j < h && 0 <= i < w ==> (p(m[j][i]) <==> q(n[j][i]))
    ensures AroundSet(m, p, w, h, x, y) == AroundSet(n, q, w, h, x, y)
  {
    forall c ensures c in AroundSet(m, p, w, h, x, y) <==> c in AroundSet(n, q, w, h, x, y) {
      AroundSetMember(m, p, w, h, x, y, c);
      AroundSetMember(n, q, w, h, x, y, c);
    }
  }

  /** The elements of `ns` whose entry satisfies `p`. */
  ghost function MarkedIn<T>(m: seq<seq<T>>, ns: seq<Coord>, p: T -> bool): set<Coord>
    requires Inside(m, ns)
  {
    set c | c in ns && p(m[c.y][c.x])
  }

  lemma MarkedInSnoc<T>(m: seq<seq<T>>, ns: seq<Coord>, c: Coord, p: T -> bool)
    requires Inside(m, ns + [c])
    ensures Inside(m, ns) && 0 <= c.y < |m| && 0 <= c.x < |m[c.y]|
    ensures MarkedIn(m, ns + [c], p) == if p(m[c.y][c.x]) then MarkedIn(m, ns, p) + {c} else MarkedIn(m, ns, p)
  {
    assert (ns + [c])[|ns|] == c;
    assert forall k :: 0 <= k < |ns| ==> (ns + [c])[k] == ns[k];
    assert forall d :: d in ns + [c] <==> d in ns || d == c;
  }

  lemma NoDuplicatesSnoc(ns: seq<Coord>, c: Coord)
    requires NoDuplicates(ns + [c])
    ensures NoDuplicates(ns) && c !in ns
  {
    assert forall k :: 0 <= k < |ns| ==> (ns + [c])[k] == ns[k];
    assert (ns + [c])[|ns|] == c;
  }

  /** Counting along a duplicate-free list is the size of the set of its marked elements. */
  lemma {:induction false} CountAsSet<T>(m: seq<seq<T>>, ns: seq<Coord>, p: T -> bool)
    requires Inside(m, ns) && NoDuplicates(ns)
    ensures Count(At(m, ns), p) == |MarkedIn(m, ns, p)|
  {
    if ns == [] {
      assert MarkedIn(m, ns, p) == {};
    } else {
      var pre, last := ns[..|ns| - 1], ns[|ns| - 1];
      assert ns == pre + [last];
      AtSnoc(m, pre, last);
      CountSnoc(At(m, pre), m[last.y][last.x], p);
      MarkedInSnoc(m, pre, last, p);
      NoDuplicatesSnoc(pre, last);
      CountAsSet(m, pre, p);
      var s := MarkedIn(m, pre, p);
      assert last !in s;
      assert |MarkedIn(m, ns, p)| == |s| + (if p(m[last.y][last.x]) then 1 else 0);
    }
  }

  /**
   * The count of marked neighbours along `Neighbors` (what `getDegree` sums)
   * is the size of the reference set, so it lies in [0, 8].
   */
  lemma NeighborCountIsAroundSet<T>(m: seq<seq<T>>, p: T -> bool, w: int, h: int, x: int, y: int)
    requires Shaped(m, w, h)
    ensures Inside(m, Neighbors(w, h, x, y))
    ensures Count(At(m, Neighbors(w, h, x, y)), p) == |AroundSet(m, p, w, h, x, y)| <= 8
  {
    var ns := Neighbors(w, h, x, y);
    NeighborsSpec(w, h, x, y);
    CountAsSet(m, ns, p);
    var s := MarkedIn(m, ns, p);
    forall c ensures c in s <==> c in AroundSet(m, p, w, h, x, y) {
      AroundSetMember(m, p, w, h, x, y, c);
    }
    assert s == AroundSet(m, p, w, h, x, y);
  }

  /** The degree of cell (i, j) is the number of mines around it. */
  ghost predicate DegreeAt(b: Board, w: int, h: int, i: int, j: int)
    requires Shaped(b, w, h) && 0 <= j < h && 0 <= i < w
  {
    b[j][i].degree == |AroundSet(b, IsMine, w, h, i, j)|
  }

  /** Every cell's degree is the number of mines around it. */
  ghost predicate DegreesCorrect(b: Board, w: int, h: int)
  {
    Shaped(b, w, h) && forall j, i :: 0 <= j < h && 0 <= i < w ==> DegreeAt(b, w, h, i, j)
  }

  /** On a board whose one mine is at `m`, the degrees are right when they are 1 around `m` and 0 elsewhere. */
  lemma OneMineDegrees(b: Board, w: int, h: int, m: Coord)
    requires Shaped(b, w, h)
    requires forall j, i :: 0 <= j < h && 0 <= i < w ==> (IsMine(b[j][i]) <==> Coord(i, j) == m)
    requires forall j, i :: 0 <= j < h && 0 <= i < w ==> b[j][i].degree == if InWindow(w, h, i, j, m) then 1 else 0
    ensures DegreesCorrect(b, w, h)
  {
    forall j, i | 0 <= j < h && 0 <= i < w
      ensures DegreeAt(b, w, h, i, j)
    {
      var s := AroundSet(b, IsMine, w, h, i, j);
      forall c
        ensures c in s <==> InWindow(w, h, i, j, m) && c == m
      {
        AroundSetMember(b, IsMine, w, h, i, j, c);
      }
      if InWindow(w, h, i, j, m) {
        assert s == {m};
      } else {
        assert s == {};
      }
    }
  }

  // ---------------------------------------------------------------------
  // How reveals change a board

  /** Same shape, and every cell keeps its type and degree. */
  ghost predicate SameLayout(b0: Board, b: Board, w: int, h: int)
  {
    Shaped(b0, w, h) && Shaped(b, w, h) &&
    forall j, i :: 0 <= j < h && 0 <= i < w ==> b[j][i].kind == b0[j][i].kind && b[j][i].degree == b0[j][i].degree
  }

  /** Only HIDDEN cells have become REVEALED; nothing else has changed. */
  ghost predicate Grows(b0: Board, b: Board, w: int, h: int)
  {
    SameLayout(b0, b, w, h) &&
    forall j, i :: 0 <= j < h && 0 <= i < w ==>
      b[j][i].state == b0[j][i].state || (IsHidden(b0[j][i]) && IsRevealed(b[j][i]))
  }

  /** (i, j) was HIDDEN in `b0` and is REVEALED in `b`. */
  ghost predicate Newly(b0: Board, b: Board, w: int, h: int, i: int, j: int)
    requires Shaped(b0, w, h) && Shaped(b, w, h)
  {
    0 <= j < h && 0 <= i < w && IsHidden(b0[j][i]) && IsRevealed(b[j][i])
  }

  lemma LayoutKeepsDegrees(b0: Board, b: Board, w: int, h: int)
    requires SameLayout(b0, b, w, h) && DegreesCorrect(b0, w, h)
    ensures DegreesCorrect(b, w, h)
  {
    forall j, i | 0 <= j < h && 0 <= i < w
      ensures DegreeAt(b, w, h, i, j)
    {
      assert DegreeAt(b0, w, h, i, j);
      AroundSetSame(b0, IsMine, b, IsMine, w, h, i, j);
    }
  }

  lemma GrowsTransitive(b0: Board, b1: Board, b2: Board, w: int, h: int)
    requires Grows(b0, b1, w, h) && Grows(b1, b2, w, h)
    ensures Grows(b0, b2, w, h)
  {
  }

  /** Revealing never creates a HIDDEN cell, so the hidden count only goes down. */
  lemma GrowsHidden(b0: Board, b: Board, w: int, h: int)
    requires Grows(b0, b, w, h)
    ensures CountAll(b, IsHidden) <= CountAll(b0, IsHidden)
  {
    CountAllLe(b0, b, IsHidden, IsHidden);
  }

  /** Revealing one HIDDEN cell: a Grows step that takes one cell off the hidden count. */
  lemma RevealOne(b: Board, w: int, h: int, c: Coord)
    requires Shaped(b, w, h) && InBounds(w, h, c) && IsHidden(b[c.y][c.x])
    ensures Grows(b, Update(b, c, b[c.y][c.x].Reveal()), w, h)
    ensures CountAll(Update(b, c, b[c.y][c.x].Reveal()), IsHidden) == CountAll(b, IsHidden) - 1
    ensures CountAll(Update(b, c, b[c.y][c.x].Reveal()), IsRevealed) == CountAll(b, IsRevealed) + 1
    ensures CountAll(Update(b, c, b[c.y][c.x].Reveal()), IsFlagged) == CountAll(b, IsFlagged)
  {
    var v := b[c.y][c.x].Reveal();
    CountAllUpdate(b, c, v, IsHidden);
    CountAllUpdate(b, c, v, IsRevealed);
    CountAllUpdate(b, c, v, IsFlagged);
  }

  /** No neighbour of (x, y) is HIDDEN any more. */
  ghost predicate Settled(b: Board, w: int, h: int, x: int, y: int)
    requires Shaped(b, w, h)
  {
    var ns := Neighbors(w, h, x, y);
    forall k :: 0 <= k < |ns| ==> !IsHidden(b[ns[k].y][ns[k].x])
  }

  lemma GrowsKeepsSettled(b0: Board, b: Board, w: int, h: int, x: int, y: int)
    requires Grows(b0, b, w, h) && Settled(b0, w, h, x, y)
    ensures Settled(b, w, h, x, y)
  {
  }

  /**
   * What a cascade leaves at (i, j): if the cell was HIDDEN and is now
   * REVEALED, it is safe, and if its degree is 0 none of its neighbours is
   * HIDDEN any more.
   */
  ghost predicate OpenedAt(b0: Board, b: Board, w: int, h: int, i: int, j: int)
    requires Shaped(b0, w, h) && Shaped(b, w, h)
  {
    Newly(b0, b, w, h, i, j) ==> IsSafe(b[j][i]) && (b[j][i].degree == 0 ==> Settled(b, w, h, i, j))
  }

  /**
   * What a cascade leaves behind: only HIDDEN cells have been revealed, every
   * one of them is safe, and every one of degree 0 has no HIDDEN neighbour left.
   */
  ghost predicate Opened(b0: Board, b: Board, w: int, h: int)
  {
    && Grows(b0, b, w, h)
    && forall j, i :: 0 <= j < h && 0 <= i < w ==> OpenedAt(b0, b, w, h, i, j)
  }

  lemma OpenedNothing(b: Board, w: int, h: int)
    requires Shaped(b, w, h)
    ensures Opened(b, b, w, h)
  {
    forall j, i | 0 <= j < h && 0 <= i < w
      ensures OpenedAt(b, b, w, h, i, j)
    {
    }
  }

  lemma OpenedTransitive(b0: Board, b1: Board, b2: Board, w: int, h: int)
    requires Opened(b0, b1, w, h) && Opened(b1, b2, w, h)
    ensures Opened(b0, b2, w, h)
  {
    forall j, i | 0 <= j < h && 0 <= i < w
      ensures OpenedAt(b0, b2, w, h, i, j)
    {
      assert OpenedAt(b0, b1, w, h, i, j) && OpenedAt(b1, b2, w, h, i, j);
      if Newly(b0, b2, w, h, i, j) && !Newly(b1, b2, w, h, i, j) {
        assert Newly(b0, b1, w, h, i, j);
        if b2[j][i].degree == 0 {
          GrowsKeepsSettled(b1, b2, w, h, i, j);
        }
      }
    }
  }

  /**
   * Revealing the safe HIDDEN cell `c` and then opening from there: the
   * result is opened from the start, provided `c` itself is settled when
   * its degree is 0.
   */
  lemma OpenedFromReveal(b0: Board, b2: Board, w: int, h: int, c: Coord)
    requires Shaped(b0, w, h) && InBounds(w, h, c) && IsHidden(b0[c.y][c.x]) && IsSafe(b0[c.y][c.x])
    requires Opened(Update(b0, c, b0[c.y][c.x].Reveal()), b2, w, h)
    requires b0[c.y][c.x].degree == 0 ==> Settled(b2, w, h, c.x, c.y)
    ensures Opened(b0, b2, w, h)
  {
    var b1 := Update(b0, c, b0[c.y][c.x].Reveal());
    RevealOne(b0, w, h, c);
    forall j, i | 0 <= j < h && 0 <= i < w
      ensures OpenedAt(b0, b2, w, h, i, j)
    {
      if i != c.x || j != c.y {
        assert b1[j][i] == b0[j][i];
        assert OpenedAt(b1, b2, w, h, i, j);
      }
    }
  }

  /** (i, j) lies next to a cell of degree 0 that was HIDDEN in `b0` and is REVEALED in `b`. */
  ghost predicate NextToOpened(b0: Board, b: Board, w: int, h: int, i: int, j: int)
    requires Shaped(b0, w, h) && Shaped(b, w, h)
  {
    exists n :: n in Neighbors(w, h, i, j) && Newly(b0, b, w, h, n.x, n.y) && b[n.y][n.x].degree == 0
  }

  /**
   * How far a cascade reaches: every cell REVEALED on the way from `b0` to `b`
   * is one of `roots`, where the cascade started, or lies next to a cell of
   * degree 0 revealed on the way. Cells away from the empty region it spreads
   * through stay as they were.
   */
  ghost predicate Reached(b0: Board, b: Board, w: int, h: int, roots: seq<Coord>)
  {
    && Shaped(b0, w, h) && Shaped(b, w, h)
    && forall j, i :: Newly(b0, b, w, h, i, j) && Coord(i, j) !in roots ==> NextToOpened(b0, b, w, h, i, j)
  }

  lemma ReachedNothing(b: Board, w: int, h: int, roots: seq<Coord>)
    requires Shaped(b, w, h)
    ensures Reached(b, b, w, h, roots)
  {
  }

  /** Revealing the HIDDEN cell `c` reaches `c` alone. */
  lemma ReachedReveal(b: Board, w: int, h: int, c: Coord)
    requires Shaped(b, w, h) && InBounds(w, h, c) && IsHidden(b[c.y][c.x])
    ensures Reached(b, Update(b, c, b[c.y][c.x].Reveal()), w, h, [c])
  {
  }

  /** Two steps that reach from `roots1` and then from `roots2` reach from any `roots` holding both. */
  lemma ReachedTransitive(b0: Board, b1: Board, b2: Board, w: int, h: int,
                          roots1: seq<Coord>, roots2: seq<Coord>, roots: seq<Coord>)
    requires Grows(b0, b1, w, h) && Grows(b1, b2, w, h)
    requires Reached(b0, b1, w, h, roots1) && Reached(b1, b2, w, h, roots2)
    requires forall c :: c in roots1 ==> c in roots
    requires forall c :: c in roots2 ==> c in roots
    ensures Reached(b0, b2, w, h, roots)
  {
    forall j, i | Newly(b0, b2, w, h, i, j) && Coord(i, j) !in roots
      ensures NextToOpened(b0, b2, w, h, i, j)
    {
      if Newly(b0, b1, w, h, i, j) {
        assert NextToOpened(b0, b1, w, h, i, j);
        var n :| n in Neighbors(w, h, i, j) && Newly(b0, b1, w, h, n.x, n.y) && b1[n.y][n.x].degree == 0;
        assert Newly(b0, b2, w, h, n.x, n.y);
      } else {
        assert Newly(b1, b2, w, h, i, j);
        assert NextToOpened(b1, b2, w, h, i, j);
        var n :| n in Neighbors(w, h, i, j) && Newly(b1, b2, w, h, n.x, n.y) && b2[n.y][n.x].degree == 0;
        assert Newly(b0, b2, w, h, n.x, n.y);
      }
    }
  }

  /**
   * A cascade started from the neighbours of `c`, where `c` was revealed on
   * the way and has degree 0, reaches from `c` alone: each neighbour lies
   * next to `c`.
   */
  lemma ReachedAround(b0: Board, b: Board, w: int, h: int, c: Coord)
    requires Reached(b0, b, w, h, [c] + Neighbors(w, h, c.x, c.y))
    requires Newly(b0, b, w, h, c.x, c.y) && b[c.y][c.x].degree == 0
    ensures Reached(b0, b, w, h, [c])
  {
    forall j, i | Newly(b0, b, w, h, i, j) && Coord(i, j) !in [c]
      ensures NextToOpened(b0, b, w, h, i, j)
    {
      if Coord(i, j) in Neighbors(w, h, c.x, c.y) {
        NeighborsSymmetric(w, h, c, Coord(i, j));
      } else {
        assert Coord(i, j) !in [c] + Neighbors(w, h, c.x, c.y);
      }
    }
  }

  /**
   * Revealing the safe HIDDEN cell `c` of degree 0 and cascading over its
   * neighbours from there reaches from `c` alone.
   */
  lemma ReachedFromReveal(b0: Board, b2: Board, w: int, h: int, c: Coord)
    requires Shaped(b0, w, h) && InBounds(w, h, c) && IsHidden(b0[c.y][c.x]) && b0[c.y][c.x].degree == 0
    requires Grows(Update(b0, c, b0[c.y][c.x].Reveal()), b2, w, h)
    requires Reached(Update(b0, c, b0[c.y][c.x].Reveal()), b2, w, h, Neighbors(w, h, c.x, c.y))
    ensures Reached(b0, b2, w, h, [c])
  {
    var b1 := Update(b0, c, b0[c.y][c.x].Reveal());
    RevealOne(b0, w, h, c);
    ReachedReveal(b0, w, h, c);
    var roots := [c] + Neighbors(w, h, c.x, c.y);
    ReachedTransitive(b0, b1, b2, w, h, [c], Neighbors(w, h, c.x, c.y), roots);
    ReachedAround(b0, b2, w, h, c);
  }

  /** A cell as a chord leaves it: revealed if it was HIDDEN, otherwise as it was. */
  function Uncover(c: Cell): Cell
  {
    if IsHidden(c) then c.Reveal() else c
  }

  /**
   * A chord's effect: `b` is `b0` with exactly the HIDDEN cells in the
   * clipped window around (x, y) revealed, and every other cell as it was.
   */
  ghost predicate Chorded(b0: Board, b: Board, w: int, h: int, x: int, y: int)
  {
    Shaped(b0, w, h) && Shaped(b, w, h) &&
    forall j, i :: 0 <= j < h && 0 <= i < w ==>
      b[j][i] == if InWindow(w, h, x, y, Coord(i, j)) then Uncover(b0[j][i]) else b0[j][i]
  }

  lemma ChordedGrows(b0: Board, b: Board, w: int, h: int, x: int, y: int)
    requires Chorded(b0, b, w, h, x, y)
    ensures Grows(b0, b, w, h)
  {
  }

  /** A chord over `ns`, the neighbours of (x, y), after its first `k` steps. */
  ghost predicate UncoveredUpTo(b0: Board, b: Board, w: int, h: int, x: int, y: int, ns: seq<Coord>, k: int)
  {
    && Shaped(b0, w, h) && Shaped(b, w, h) && ns == Neighbors(w, h, x, y) && 0 <= k <= |ns|
    && (forall t :: 0 <= t < k ==> b[ns[t].y][ns[t].x] == Uncover(b0[ns[t].y][ns[t].x]))
    && (forall t :: k <= t < |ns| ==> b[ns[t].y][ns[t].x] == b0[ns[t].y][ns[t].x])
    && (forall j, i :: 0 <= j < h && 0 <= i < w && !InWindow(w, h, x, y, Coord(i, j)) ==> b[j][i] == b0[j][i])
  }

  lemma UncoveredStart(b0: Board, w: int, h: int, x: int, y: int)
    requires Shaped(b0, w, h)
    ensures UncoveredUpTo(b0, b0, w, h, x, y, Neighbors(w, h, x, y), 0)
  {
  }

  /** One step of a chord: the next neighbour, revealed if still HIDDEN. */
  lemma UncoveredStep(b0: Board, b: Board, w: int, h: int, x: int, y: int, ns: seq<Coord>, k: int)
    requires UncoveredUpTo(b0, b, w, h, x, y, ns, k) && k < |ns|
    ensures InBounds(w, h, ns[k]) && b[ns[k].y][ns[k].x] == b0[ns[k].y][ns[k].x]
    ensures UncoveredUpTo(b0, Update(b, ns[k], Uncover(b[ns[k].y][ns[k].x])), w, h, x, y, ns, k + 1)
  {
    var n := ns[k];
    var b' := Update(b, n, Uncover(b[n.y][n.x]));
    NeighborsSpec(w, h, x, y);
    forall t | 0 <= t < |ns| && t != k
      ensures b'[ns[t].y][ns[t].x] == b[ns[t].y][ns[t].x]
    {
      assert ns[t] != n;
    }
  }

  /** A finished chord. */
  lemma UncoveredDone(b0: Board, b: Board, w: int, h: int, x: int, y: int, ns: seq<Coord>)
    requires UncoveredUpTo(b0, b, w, h, x, y, ns, |ns|)
    ensures Chorded(b0, b, w, h, x, y)
  {
    NeighborsSpec(w, h, x, y);
    forall j, i | 0 <= j < h && 0 <= i < w && InWindow(w, h, x, y, Coord(i, j))
      ensures b[j][i] == Uncover(b0[j][i])
    {
      assert Coord(i, j) in ns;
      var t :| 0 <= t < |ns| && ns[t] == Coord(i, j);
    }
  }
}
