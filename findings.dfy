/**
 * The cascade of `primaryInteraction` as the code is written. The recursive
 * call for a HIDDEN neighbour passes `cell.x` and `cell.y`, but a CellClass
 * has no `x` or `y` field: both are `undefined`, `this.cells[undefined]` is
 * `undefined`, and reading `[undefined]` of it throws a TypeError. So the
 * first HIDDEN neighbour a degree-0 reveal meets ends the click with an
 * exception: the clicked cell stays REVEALED and counted, nothing else is
 * opened and the win test is skipped. `GridRules.RevealFrom` is the intended
 * behaviour, the click on each HIDDEN neighbour, that the rest of the model uses.
 */
module CascadeFinding {
  import opened GridTypes
  import opened Board
  import opened GridRules

  /** How a call ends: it returns, or it throws with the state reached so far. */
  datatype Outcome = Returned(p: Play) | Threw(p: Play)

  /** A neighbour among `ns[k..]` that is still HIDDEN. */
  ghost predicate HiddenAhead(b: Board, ns: seq<Coord>, k: int)
    requires Inside(b, ns)
  {
    exists t :: 0 <= k <= t < |ns| && IsHidden(b[ns[t].y][ns[t].x])
  }

  /**
   * The `forEach` of the degree-0 cascade as written, over `ns[k..]`: a
   * neighbour that is not HIDDEN is passed over, and the first HIDDEN one
   * throws. Nothing changes on the way, and it throws exactly when a HIDDEN
   * neighbour lies ahead.
   */
  function CascadeAsWritten(s: Play, w: int, h: int, ns: seq<Coord>, k: nat): (o: Outcome)
    requires Shaped(s.cells, w, h) && AllInBounds(w, h, ns)
    ensures Inside(s.cells, ns)
    ensures o.p == s
    ensures o.Threw? <==> HiddenAhead(s.cells, ns, k)
    decreases |ns| - k
  {
    assert Inside(s.cells, ns);
    if k >= |ns| then Returned(s)
    else if IsHidden(s.cells[ns[k].y][ns[k].x]) then Threw(s)
    else CascadeAsWritten(s, w, h, ns, k + 1)
  }

  /**
   * The reveal path of `primaryInteraction` as written: reveal and count the
   * cell; a mine ends the game; a cell of degree 0 runs the cascade as
   * written; the win test runs only when nothing has thrown.
   */
  function RevealAsWritten(s: Play, w: int, h: int, mines: int, x: int, y: int): (o: Outcome)
    requires Shaped(s.cells, w, h) && InBounds(w, h, Coord(x, y))
    requires !IsFlagged(s.cells[y][x]) && !(IsRevealed(s.cells[y][x]) && s.cells[y][x].degree == 0)
    ensures Shaped(o.p.cells, w, h) && IsRevealed(o.p.cells[y][x]) && o.p.revealed == s.revealed + 1
    ensures IsMine(s.cells[y][x]) ==> o.Returned? && o.p.over
    ensures o.Threw? ==> o.p.over == s.over
  {
    var c := Coord(x, y);
    var cell := s.cells[y][x];
    var s1 := Play(Update(s.cells, c, cell.Reveal()), s.revealed + 1, s.over);
    if IsMine(cell) then Returned(s1.(over := true))
    else
      var o := if cell.degree == 0 then CascadeAsWritten(s1, w, h, Neighbors(w, h, x, y), 0) else Returned(s1);
      if o.Threw? then o else Returned(WinCheck(o.p, w, h, mines))
  }

  /**
   * The as-written reveal throws exactly on a safe cell of degree 0 with a
   * HIDDEN neighbour; it then leaves the clicked cell REVEALED and counted,
   * every other cell as it was, and `gameOver` untouched.
   */
  lemma AsWrittenThrows(s: Play, w: int, h: int, mines: int, x: int, y: int)
    requires Shaped(s.cells, w, h) && InBounds(w, h, Coord(x, y))
    requires !IsFlagged(s.cells[y][x]) && !(IsRevealed(s.cells[y][x]) && s.cells[y][x].degree == 0)
    ensures Inside(s.cells, Neighbors(w, h, x, y))
    ensures var o := RevealAsWritten(s, w, h, mines, x, y);
      var cell := s.cells[y][x];
      && (o.Threw? <==> IsSafe(cell) && cell.degree == 0 && HiddenAhead(s.cells, Neighbors(w, h, x, y), 0))
      && (o.Threw? ==> o.p == Play(Update(s.cells, Coord(x, y), cell.Reveal()), s.revealed + 1, s.over))
  {
    var c := Coord(x, y);
    var cell := s.cells[y][x];
    var ns := Neighbors(w, h, x, y);
    NeighborsInside(s.cells, w, h, x, y);
    NeighborsSpec(w, h, x, y);
    var b1 := Update(s.cells, c, cell.Reveal());
    forall t | 0 <= t < |ns|
      ensures b1[ns[t].y][ns[t].x] == s.cells[ns[t].y][ns[t].x]
    {
      assert ns[t] in ns;
    }
    assert HiddenAhead(b1, ns, 0) <==> HiddenAhead(s.cells, ns, 0);
  }

  /** A cascade with no HIDDEN cell among `ns[k..]` changes nothing. */
  lemma {:induction false} CascadeNothingHidden(s: Play, w: int, h: int, mines: int, ns: seq<Coord>, k: nat)
    requires Shaped(s.cells, w, h) && AllInBounds(w, h, ns) && Inside(s.cells, ns)
    requires !HiddenAhead(s.cells, ns, k)
    ensures CascadeFrom(s, w, h, mines, ns, k) == s
    decreases |ns| - k
  {
    if k < |ns| {
      assert !IsHidden(s.cells[ns[k].y][ns[k].x]);
      CascadeFromStep(s, w, h, mines, ns, k);
      CascadeNothingHidden(s, w, h, mines, ns, k + 1);
    }
  }

  /** Whenever the as-written reveal returns, it returns what the intended reveal computes. */
  lemma AsWrittenAgrees(s: Play, w: int, h: int, mines: int, x: int, y: int)
    requires Shaped(s.cells, w, h) && InBounds(w, h, Coord(x, y))
    requires !IsFlagged(s.cells[y][x]) && !(IsRevealed(s.cells[y][x]) && s.cells[y][x].degree == 0)
    ensures RevealAsWritten(s, w, h, mines, x, y).Returned? ==>
              RevealAsWritten(s, w, h, mines, x, y).p == RevealFrom(s, w, h, mines, x, y)
  {
    var cell := s.cells[y][x];
    var s1 := Play(Update(s.cells, Coord(x, y), cell.Reveal()), s.revealed + 1, s.over);
    RevealFromSteps(s, w, h, mines, x, y);
    if IsSafe(cell) && cell.degree == 0 && RevealAsWritten(s, w, h, mines, x, y).Returned? {
      var ns := Neighbors(w, h, x, y);
      NeighborsInside(s1.cells, w, h, x, y);
      assert !HiddenAhead(s1.cells, ns, 0);
      CascadeNothingHidden(s1, w, h, mines, ns, 0);
    }
  }

  /** A two-cell row without mines, both cells HIDDEN. */
  function EmptyRow(): (s: Play)
    ensures Shaped(s.cells, 2, 1)
  {
    Play([[Cell(Safe, Hidden, 0), Cell(Safe, Hidden, 0)]], 0, false)
  }

  lemma EmptyRowDegrees()
    ensures DegreesCorrect(EmptyRow().cells, 2, 1)
  {
    var b := EmptyRow().cells;
    forall j, i | 0 <= j < 1 && 0 <= i < 2
      ensures DegreeAt(b, 2, 1, i, j)
    {
      forall c | c in AroundSet(b, IsMine, 2, 1, i, j)
        ensures false
      {
        AroundSetMember(b, IsMine, 2, 1, i, j, c);
      }
      assert AroundSet(b, IsMine, 2, 1, i, j) == {};
    }
  }

  /**
   * The counterexample: clicking the left cell of `EmptyRow` throws as
   * written, with the right cell still HIDDEN and the game not over, while
   * the intended click reveals both cells and wins.
   */
  lemma EmptyRowThrows()
    ensures var o := RevealAsWritten(EmptyRow(), 2, 1, 0, 0, 0);
      o.Threw? && IsHidden(o.p.cells[0][1]) && !o.p.over
    ensures var r := RevealFrom(EmptyRow(), 2, 1, 0, 0, 0);
      IsRevealed(r.cells[0][0]) && IsRevealed(r.cells[0][1]) && r.revealed == 2 && r.over
  {
    var s := EmptyRow();
    var ns := Neighbors(2, 1, 0, 0);
    NeighborsSpec(2, 1, 0, 0);
    assert InWindow(2, 1, 0, 0, Coord(1, 0));
    var t :| 0 <= t < |ns| && ns[t] == Coord(1, 0);
    AsWrittenThrows(s, 2, 1, 0, 0, 0);
    assert HiddenAhead(s.cells, ns, 0);
    EmptyRowDegrees();
    RevealSpec(s, 2, 1, 0, 0, 0);
    var r := RevealFrom(s, 2, 1, 0, 0, 0);
    assert OpenedAt(s.cells, r.cells, 2, 1, 0, 0);
    assert !IsHidden(r.cells[ns[t].y][ns[t].x]);
    RowCount(s.cells, IsRevealed);
    RowCount(r.cells, IsRevealed);
  }

  /** The count over a board of one row of two cells. */
  lemma RowCount<T>(b: seq<seq<T>>, p: T -> bool)
    requires Shaped(b, 2, 1)
    ensures CountAll(b, p) == (if p(b[0][0]) then 1 else 0) + (if p(b[0][1]) then 1 else 0)
  {
    var row := b[0];
    assert b[..0] == [] && row[..1][..0] == [];
    assert CountAll(b, p) == Count(row, p);
    assert Count(row[..1], p) == (if p(row[0]) then 1 else 0);
  }
}
