/**
 * The rules of `GridClass.primaryInteraction` as functions on values: a
 * click takes the state the click changes (the cells, `revealedCells` and
 * `gameOver`) to a new one. The methods of `GridClass` are proved to compute
 * exactly these functions; the lemmas here say what the functions do.
 */
module GridRules {
  import opened GridTypes
  import opened Board

  /** The part of a grid's state a primary click can change. */
  datatype Play = Play(cells: Board, revealed: int, over: bool)

  /**
   * The grid's invariant over a state and the `flaggedMines` counter: the
   * degrees are the mine counts around each cell, `flaggedMines` is the number
   * of FLAGGED cells and `revealedCells` is at least the number of REVEALED
   * cells (it can exceed it: see the UnsatisfiedChord branch).
   */
  ghost predicate Consistent(s: Play, flagged: int, w: int, h: int)
  {
    && DegreesCorrect(s.cells, w, h)
    && flagged == CountAll(s.cells, IsFlagged)
    && s.revealed >= CountAll(s.cells, IsRevealed)
  }

  /** How far `revealedCells` runs ahead of the number of REVEALED cells. */
  ghost function Excess(s: Play): int
  {
    s.revealed - CountAll(s.cells, IsRevealed)
  }

  /** A step that only reveals HIDDEN cells and does not lower the excess keeps the invariant. */
  lemma KeepsConsistent(s: Play, r: Play, flagged: int, w: int, h: int)
    requires Consistent(s, flagged, w, h) && Grows(s.cells, r.cells, w, h) && Excess(r) >= Excess(s)
    ensures Consistent(r, flagged, w, h)
  {
    LayoutKeepsDegrees(s.cells, r.cells, w, h);
    CountAllSame(s.cells, r.cells, IsFlagged, IsFlagged);
  }

  // ---------------------------------------------------------------------
  // GridClass's read-only helpers

  /** `getNeighbors(x, y)`: the cells at `Neighbors(w, h, x, y)`, in that order. */
  function GetNeighbors(b: Board, w: int, h: int, x: int, y: int): (r: seq<Cell>)
    requires Shaped(b, w, h)
    ensures |r| <= 8
  {
    NeighborsInside(b, w, h, x, y);
    At(b, Neighbors(w, h, x, y))
  }

  /**
   * `getDegree(x, y)`: the mines counted along `getNeighbors`; this is the
   * number of mines in the clipped 3x3 window around (x, y), other than
   * (x, y) itself, so at most 8.
   */
  function GetDegree(b: Board, w: int, h: int, x: int, y: int): (d: nat)
    requires Shaped(b, w, h)
    ensures d == |AroundSet(b, IsMine, w, h, x, y)| && d <= 8
  {
    NeighborCountIsAroundSet(b, IsMine, w, h, x, y);
    Count(GetNeighbors(b, w, h, x, y), IsMine)
  }

  /** The number of FLAGGED cells among `getNeighbors(x, y)`. */
  function FlaggedNeighbors(b: Board, w: int, h: int, x: int, y: int): (n: nat)
    requires Shaped(b, w, h)
    ensures n == |AroundSet(b, IsFlagged, w, h, x, y)| && n <= 8
  {
    NeighborCountIsAroundSet(b, IsFlagged, w, h, x, y);
    Count(GetNeighbors(b, w, h, x, y), IsFlagged)
  }

  /** The number of HIDDEN cells among `getNeighbors(x, y)`: what a chord reveals. */
  function HiddenNeighbors(b: Board, w: int, h: int, x: int, y: int): nat
    requires Shaped(b, w, h)
  {
    Count(GetNeighbors(b, w, h, x, y), IsHidden)
  }

  /** The number of HIDDEN mines among `getNeighbors(x, y)`: a chord over one of them loses. */
  function HiddenMineNeighbors(b: Board, w: int, h: int, x: int, y: int): nat
    requires Shaped(b, w, h)
  {
    Count(GetNeighbors(b, w, h, x, y), IsHiddenMine)
  }

  /** Around a cell of degree 0 there is no mine. */
  lemma ZeroDegreeNeighborsSafe(b: Board, w: int, h: int, x: int, y: int)
    requires DegreesCorrect(b, w, h) && InBounds(w, h, Coord(x, y)) && b[y][x].degree == 0
    ensures var ns := Neighbors(w, h, x, y);
      forall t :: 0 <= t < |ns| ==> IsSafe(b[ns[t].y][ns[t].x])
  {
    var ns := Neighbors(w, h, x, y);
    assert DegreeAt(b, w, h, x, y);
    forall t | 0 <= t < |ns|
      ensures IsSafe(b[ns[t].y][ns[t].x])
    {
      AroundSetMember(b, IsMine, w, h, x, y, ns[t]);
    }
  }

  // ---------------------------------------------------------------------
  // The chord

  /** One neighbour of a chord: if it is HIDDEN, reveal it and count it; revealing a mine ends the game. */
  function ChordVisit(s: Play, w: int, h: int, n: Coord): (r: Play)
    requires Shaped(s.cells, w, h) && InBounds(w, h, n)
    ensures Grows(s.cells, r.cells, w, h)
  {
    var v := s.cells[n.y][n.x];
    if IsHidden(v) then
      RevealOne(s.cells, w, h, n);
      Play(Update(s.cells, n, v.Reveal()), s.revealed + 1, s.over || IsMine(v))
    else s
  }

  /** The chord over the neighbours `ns[k..]`, visited in order. */
  function ChordFrom(s: Play, w: int, h: int, ns: seq<Coord>, k: nat): (r: Play)
    requires Shaped(s.cells, w, h) && AllInBounds(w, h, ns)
    ensures Grows(s.cells, r.cells, w, h)
    decreases |ns| - k
  {
    if k >= |ns| then s
    else
      assert InBounds(w, h, ns[k]);
      var s1 := ChordVisit(s, w, h, ns[k]);
      var r := ChordFrom(s1, w, h, ns, k + 1);
      GrowsTransitive(s.cells, s1.cells, r.cells, w, h);
      r
  }

  lemma ChordFromStep(s: Play, w: int, h: int, ns: seq<Coord>, k: nat)
    requires Shaped(s.cells, w, h) && AllInBounds(w, h, ns) && k < |ns|
    ensures InBounds(w, h, ns[k])
    ensures ChordFrom(s, w, h, ns, k) == ChordFrom(ChordVisit(s, w, h, ns[k]), w, h, ns, k + 1)
  {
    assert InBounds(w, h, ns[k]);
  }

  /**
   * The first `k` neighbours of a chord have been handled: those that were
   * HIDDEN are REVEALED and counted, `go` records whether one was a mine,
   * the FLAGGED cells are untouched and the excess is unchanged.
   */
  ghost predicate ChordSoFar(b0: Board, b: Board, w: int, h: int, x: int, y: int, ns: seq<Coord>, k: int,
                             rc0: int, rc: int, go0: bool, go: bool)
  {
    && UncoveredUpTo(b0, b, w, h, x, y, ns, k)
    && rc == rc0 + CountAt(b0, ns, k, IsHidden)
    && go == (go0 || CountAt(b0, ns, k, IsHiddenMine) > 0)
    && CountAll(b, IsFlagged) == CountAll(b0, IsFlagged)
    && rc - CountAll(b, IsRevealed) == rc0 - CountAll(b0, IsRevealed)
  }

  lemma ChordStart(b0: Board, w: int, h: int, x: int, y: int, rc0: int, go0: bool)
    requires Shaped(b0, w, h)
    ensures ChordSoFar(b0, b0, w, h, x, y, Neighbors(w, h, x, y), 0, rc0, rc0, go0, go0)
  {
    UncoveredStart(b0, w, h, x, y);
  }

  /** Handling the next neighbour of a chord. */
  lemma ChordStep(b0: Board, s: Play, w: int, h: int, x: int, y: int, ns: seq<Coord>, k: int, rc0: int, go0: bool)
    requires ChordSoFar(b0, s.cells, w, h, x, y, ns, k, rc0, s.revealed, go0, s.over) && k < |ns|
    ensures InBounds(w, h, ns[k])
    ensures var r := ChordVisit(s, w, h, ns[k]);
      ChordSoFar(b0, r.cells, w, h, x, y, ns, k + 1, rc0, r.revealed, go0, r.over)
  {
    var n := ns[k];
    UncoveredStep(b0, s.cells, w, h, x, y, ns, k);
    if IsHidden(s.cells[n.y][n.x]) {
      RevealOne(s.cells, w, h, n);
    } else {
      UpdateSame(s.cells, n);
    }
  }

  /** The rest of the chord from step `k` on completes what the first `k` steps began. */
  lemma {:induction false} ChordFromSoFar(b0: Board, s: Play, w: int, h: int, x: int, y: int, ns: seq<Coord>, k: nat,
                                          rc0: int, go0: bool)
    requires ChordSoFar(b0, s.cells, w, h, x, y, ns, k, rc0, s.revealed, go0, s.over)
    ensures var r := ChordFrom(s, w, h, ns, k);
      ChordSoFar(b0, r.cells, w, h, x, y, ns, |ns|, rc0, r.revealed, go0, r.over)
    decreases |ns| - k
  {
    if k < |ns| {
      ChordStep(b0, s, w, h, x, y, ns, k, rc0, go0);
      ChordFromStep(s, w, h, ns, k);
      ChordFromSoFar(b0, ChordVisit(s, w, h, ns[k]), w, h, x, y, ns, k + 1, rc0, go0);
    }
  }

  /**
   * A chord on (x, y) reveals exactly the HIDDEN cells of the clipped window
   * around (x, y), adds their number to `revealedCells`, ends the game exactly
   * when one of them is a mine, and leaves the FLAGGED cells and the excess alone.
   */
  lemma ChordEffect(s: Play, w: int, h: int, x: int, y: int)
    requires Shaped(s.cells, w, h)
    ensures var r := ChordFrom(s, w, h, Neighbors(w, h, x, y), 0);
      && Chorded(s.cells, r.cells, w, h, x, y)
      && r.revealed == s.revealed + HiddenNeighbors(s.cells, w, h, x, y)
      && r.over == (s.over || HiddenMineNeighbors(s.cells, w, h, x, y) > 0)
      && CountAll(r.cells, IsFlagged) == CountAll(s.cells, IsFlagged)
      && Excess(r) == Excess(s)
  {
    var ns := Neighbors(w, h, x, y);
    ChordRuns(s, w, h, x, y);
    ChordCounts(s.cells, w, h, x, y);
    UncoveredDone(s.cells, ChordFrom(s, w, h, ns, 0).cells, w, h, x, y, ns);
  }

  /** The whole chord, from its first neighbour to its last. */
  lemma ChordRuns(s: Play, w: int, h: int, x: int, y: int)
    requires Shaped(s.cells, w, h)
    ensures var ns := Neighbors(w, h, x, y);
      var r := ChordFrom(s, w, h, ns, 0);
      ChordSoFar(s.cells, r.cells, w, h, x, y, ns, |ns|, s.revealed, r.revealed, s.over, r.over)
  {
    ChordStart(s.cells, w, h, x, y, s.revealed, s.over);
    ChordFromSoFar(s.cells, s, w, h, x, y, Neighbors(w, h, x, y), 0, s.revealed, s.over);
  }

  /** Counting over all of `Neighbors` is counting over `getNeighbors`. */
  lemma ChordCounts(b: Board, w: int, h: int, x: int, y: int)
    requires Shaped(b, w, h)
    ensures var ns := Neighbors(w, h, x, y);
      && Inside(b, ns)
      && CountAt(b, ns, |ns|, IsHidden) == HiddenNeighbors(b, w, h, x, y)
      && CountAt(b, ns, |ns|, IsHiddenMine) == HiddenMineNeighbors(b, w, h, x, y)
  {
    var ns := Neighbors(w, h, x, y);
    NeighborsInside(b, w, h, x, y);
    CountAtIsCount(b, ns, |ns|, IsHidden);
    CountAtIsCount(b, ns, |ns|, IsHiddenMine);
    assert At(b, ns)[..|ns|] == At(b, ns);
  }

  /** A chord keeps the grid's invariant. */
  lemma ChordKeepsConsistent(s: Play, flagged: int, w: int, h: int, x: int, y: int)
    requires Consistent(s, flagged, w, h)
    ensures Consistent(ChordFrom(s, w, h, Neighbors(w, h, x, y), 0), flagged, w, h)
  {
    ChordEffect(s, w, h, x, y);
    KeepsConsistent(s, ChordFrom(s, w, h, Neighbors(w, h, x, y), 0), flagged, w, h);
  }

  // ---------------------------------------------------------------------
  // The primary interaction

  /** The branches of `primaryInteraction`. */
  datatype Click = RevealedEmpty | MineClicked | FlaggedSafe | Chord | UnsatisfiedChord | Open

  /** The branch a click on (x, y) takes, tested in the source's order. */
  function Branch(b: Board, w: int, h: int, x: int, y: int): (r: Click)
    requires Shaped(b, w, h) && InBounds(w, h, Coord(x, y))
    ensures r == Open <==> IsHidden(b[y][x]) && IsSafe(b[y][x])
    ensures r == FlaggedSafe <==> IsFlagged(b[y][x]) && IsSafe(b[y][x])
    ensures r == MineClicked <==> IsMine(b[y][x]) && !(IsRevealed(b[y][x]) && b[y][x].degree == 0)
    ensures r in {Chord, UnsatisfiedChord} <==> IsRevealed(b[y][x]) && IsSafe(b[y][x]) && b[y][x].degree != 0
  {
    var c := b[y][x];
    if IsRevealed(c) && c.degree == 0 then RevealedEmpty
    else if IsMine(c) then MineClicked
    else if IsFlagged(c) then FlaggedSafe
    else if IsRevealed(c) && c.degree == FlaggedNeighbors(b, w, h, x, y) then Chord
    else if IsRevealed(c) then UnsatisfiedChord
    else Open
  }

  /** Revealing a cell that is not FLAGGED: a Grows step, one HIDDEN cell fewer if it was HIDDEN, no change otherwise. */
  lemma RevealGrows(b: Board, w: int, h: int, c: Coord)
    requires Shaped(b, w, h) && InBounds(w, h, c) && !IsFlagged(b[c.y][c.x])
    ensures Grows(b, Update(b, c, b[c.y][c.x].Reveal()), w, h)
    ensures IsHidden(b[c.y][c.x]) ==>
      CountAll(Update(b, c, b[c.y][c.x].Reveal()), IsHidden) == CountAll(b, IsHidden) - 1
    ensures !IsHidden(b[c.y][c.x]) ==> Update(b, c, b[c.y][c.x].Reveal()) == b
  {
    if IsHidden(b[c.y][c.x]) {
      RevealOne(b, w, h, c);
    } else {
      UpdateSame(b, c);
    }
  }

  /**
   * `primaryInteraction(x, y)`: the guards in the source's order, then the
   * chord or the reveal. The source's recursive call passes `cell.x, cell.y`,
   * which CellClass never sets; the cascade here recurses on the
   * neighbour's own coordinates, as its comment intends.
   */
  function Primary(s: Play, w: int, h: int, mines: int, x: int, y: int): (r: Play)
    requires Shaped(s.cells, w, h) && InBounds(w, h, Coord(x, y))
    ensures Grows(s.cells, r.cells, w, h)
    decreases CountAll(s.cells, IsHidden), 2
  {
    var cell := s.cells[y][x];
    if IsRevealed(cell) && cell.degree == 0 then s
    else if IsMine(cell) then s.(over := true)
    else if IsFlagged(cell) then s
    else if IsRevealed(cell) && cell.degree == FlaggedNeighbors(s.cells, w, h, x, y) then
      ChordFrom(s, w, h, Neighbors(w, h, x, y), 0)
    else RevealFrom(s, w, h, mines, x, y)
  }

  /**
   * The tail of `primaryInteraction` for a cell that is neither FLAGGED nor a
   * REVEALED empty cell: reveal it and count it (again, if it was already
   * REVEALED); a mine ends the game; a cell of degree 0 cascades; then the
   * win test.
   */
  function RevealFrom(s: Play, w: int, h: int, mines: int, x: int, y: int): (r: Play)
    requires Shaped(s.cells, w, h) && InBounds(w, h, Coord(x, y))
    requires !IsFlagged(s.cells[y][x]) && !(IsRevealed(s.cells[y][x]) && s.cells[y][x].degree == 0)
    ensures Grows(s.cells, r.cells, w, h)
    decreases CountAll(s.cells, IsHidden), 1
  {
    var c := Coord(x, y);
    var cell := s.cells[y][x];
    RevealGrows(s.cells, w, h, c);
    var s1 := Play(Update(s.cells, c, cell.Reveal()), s.revealed + 1, s.over);
    if IsMine(cell) then s1.(over := true)
    else
      var s2 := if cell.degree == 0 then CascadeFrom(s1, w, h, mines, Neighbors(w, h, x, y), 0) else s1;
      GrowsTransitive(s.cells, s1.cells, s2.cells, w, h);
      WinCheck(s2, w, h, mines)
  }

  /** The win test: the game ends once `revealedCells` equals the number of safe cells. */
  function WinCheck(s: Play, w: int, h: int, mines: int): (r: Play)
    ensures r.cells == s.cells && r.revealed == s.revealed
    ensures r.over == (s.over || s.revealed == w * h - mines)
  {
    if s.revealed == w * h - mines then s.(over := true) else s
  }

  /** The cascade over the neighbours `ns[k..]`: each one still HIDDEN when its turn comes is clicked. */
  function CascadeFrom(s: Play, w: int, h: int, mines: int, ns: seq<Coord>, k: nat): (r: Play)
    requires Shaped(s.cells, w, h) && AllInBounds(w, h, ns)
    ensures Grows(s.cells, r.cells, w, h)
    decreases CountAll(s.cells, IsHidden) + 1, 0, |ns| - k
  {
    if k >= |ns| then s
    else
      var n := ns[k];
      assert InBounds(w, h, n);
      if IsHidden(s.cells[n.y][n.x]) then
        var s1 := Primary(s, w, h, mines, n.x, n.y);
        GrowsHidden(s.cells, s1.cells, w, h);
        var r := CascadeFrom(s1, w, h, mines, ns, k + 1);
        GrowsTransitive(s.cells, s1.cells, r.cells, w, h);
        r
      else CascadeFrom(s, w, h, mines, ns, k + 1)
  }

  lemma RevealFromSteps(s: Play, w: int, h: int, mines: int, x: int, y: int)
    requires Shaped(s.cells, w, h) && InBounds(w, h, Coord(x, y))
    requires !IsFlagged(s.cells[y][x]) && !(IsRevealed(s.cells[y][x]) && s.cells[y][x].degree == 0)
    ensures var cell := s.cells[y][x];
      var s1 := Play(Update(s.cells, Coord(x, y), cell.Reveal()), s.revealed + 1, s.over);
      var s2 := if cell.degree == 0 then CascadeFrom(s1, w, h, mines, Neighbors(w, h, x, y), 0) else s1;
      RevealFrom(s, w, h, mines, x, y) == if IsMine(cell) then s1.(over := true) else WinCheck(s2, w, h, mines)
  {
  }

  lemma CascadeFromStep(s: Play, w: int, h: int, mines: int, ns: seq<Coord>, k: nat)
    requires Shaped(s.cells, w, h) && AllInBounds(w, h, ns) && k < |ns|
    ensures InBounds(w, h, ns[k])
    ensures CascadeFrom(s, w, h, mines, ns, k)
         == if IsHidden(s.cells[ns[k].y][ns[k].x])
            then CascadeFrom(Primary(s, w, h, mines, ns[k].x, ns[k].y), w, h, mines, ns, k + 1)
            else CascadeFrom(s, w, h, mines, ns, k + 1)
  {
    assert InBounds(w, h, ns[k]);
  }

  // ---------------------------------------------------------------------
  // What a primary click does

  /**
   * A click on (x, y), branch by branch: the guards change nothing except
   * that a mine ends the game; the chord reveals exactly the HIDDEN cells
   * around (x, y); an unsatisfied chord only counts the cell once more; and
   * opening a HIDDEN safe cell reveals it and cascades, ending the game when
   * the counter reaches `w * h - mines`. In every branch `gameOver` stays set,
   * `revealedCells` does not go down, and it runs ahead of the number of
   * REVEALED cells by one more only after an unsatisfied chord.
   */
  lemma {:induction false} PrimarySpec(s: Play, w: int, h: int, mines: int, x: int, y: int)
    requires DegreesCorrect(s.cells, w, h) && InBounds(w, h, Coord(x, y))
    ensures var r := Primary(s, w, h, mines, x, y);
      var cell := s.cells[y][x];
      var target := w * h - mines;
      && (s.over ==> r.over) && s.revealed <= r.revealed
      && Excess(r) == Excess(s) + (if Branch(s.cells, w, h, x, y) == UnsatisfiedChord then 1 else 0)
      && match Branch(s.cells, w, h, x, y)
         case RevealedEmpty => r == s
         case MineClicked => r == s.(over := true)
         case FlaggedSafe => r == s
         case Chord =>
           && Chorded(s.cells, r.cells, w, h, x, y)
           && r.revealed == s.revealed + HiddenNeighbors(s.cells, w, h, x, y)
           && r.over == (s.over || HiddenMineNeighbors(s.cells, w, h, x, y) > 0)
         case UnsatisfiedChord =>
           r == Play(s.cells, s.revealed + 1, s.over || s.revealed + 1 == target)
         case Open =>
           && IsRevealed(r.cells[y][x]) && Opened(s.cells, r.cells, w, h) && Reached(s.cells, r.cells, w, h, [Coord(x, y)])
           && (cell.degree != 0 ==>
                 r == Play(Update(s.cells, Coord(x, y), cell.Reveal()), s.revealed + 1, s.over || s.revealed + 1 == target))
           && (r.over ==> s.over || s.revealed < target <= r.revealed)
           && (r.revealed == target ==> r.over)
    decreases CountAll(s.cells, IsHidden), 2
  {
    match Branch(s.cells, w, h, x, y)
    case RevealedEmpty =>
    case MineClicked =>
    case FlaggedSafe =>
    case Chord =>
      ChordEffect(s, w, h, x, y);
    case UnsatisfiedChord =>
      UpdateSame(s.cells, Coord(x, y));
      RevealSpec(s, w, h, mines, x, y);
    case Open =>
      RevealSpec(s, w, h, mines, x, y);
  }

  /**
   * What the reveal path guarantees, from `s` to `r`: the cell is REVEALED
   * and counted; a mine ends the game at once; a cell of degree other than 0
   * is the only change; a HIDDEN safe cell opens the board (with the cascade
   * when its degree is 0); and the game ends on the way exactly when the
   * counter passes `w * h - mines`.
   */
  ghost predicate RevealOutcome(s: Play, r: Play, w: int, h: int, mines: int, x: int, y: int)
    requires Shaped(s.cells, w, h) && Shaped(r.cells, w, h) && InBounds(w, h, Coord(x, y))
  {
    var cell := s.cells[y][x];
    var target := w * h - mines;
    && IsRevealed(r.cells[y][x]) && s.revealed < r.revealed && (s.over ==> r.over)
    && Excess(r) == Excess(s) + (if IsRevealed(cell) then 1 else 0)
    && (IsMine(cell) ==> r == Play(Update(s.cells, Coord(x, y), cell.Reveal()), s.revealed + 1, true))
    && (IsSafe(cell) && cell.degree != 0 ==>
          r == Play(Update(s.cells, Coord(x, y), cell.Reveal()), s.revealed + 1, s.over || s.revealed + 1 == target))
    && (IsSafe(cell) && IsHidden(cell) ==> Opened(s.cells, r.cells, w, h) && Reached(s.cells, r.cells, w, h, [Coord(x, y)]))
    && (IsSafe(cell) ==> (r.over ==> s.over || s.revealed < target <= r.revealed) && (r.revealed == target ==> r.over))
  }

  /** The reveal path on a cell that is neither FLAGGED nor a REVEALED empty cell meets `RevealOutcome`. */
  lemma {:induction false} RevealSpec(s: Play, w: int, h: int, mines: int, x: int, y: int)
    requires DegreesCorrect(s.cells, w, h) && InBounds(w, h, Coord(x, y))
    requires !IsFlagged(s.cells[y][x]) && !(IsRevealed(s.cells[y][x]) && s.cells[y][x].degree == 0)
    ensures RevealOutcome(s, RevealFrom(s, w, h, mines, x, y), w, h, mines, x, y)
    decreases CountAll(s.cells, IsHidden), 1
  {
    var cell := s.cells[y][x];
    if IsMine(cell) {
      RevealMine(s, w, h, mines, x, y);
    } else if cell.degree != 0 {
      RevealNumbered(s, w, h, mines, x, y);
    } else {
      RevealEmpty(s, w, h, mines, x, y);
    }
  }

  /** Revealing a mine: counted, and the game is over. */
  lemma RevealMine(s: Play, w: int, h: int, mines: int, x: int, y: int)
    requires DegreesCorrect(s.cells, w, h) && InBounds(w, h, Coord(x, y))
    requires !IsFlagged(s.cells[y][x]) && !(IsRevealed(s.cells[y][x]) && s.cells[y][x].degree == 0)
    requires IsMine(s.cells[y][x])
    ensures RevealOutcome(s, RevealFrom(s, w, h, mines, x, y), w, h, mines, x, y)
  {
    var c := Coord(x, y);
    var s1 := Play(Update(s.cells, c, s.cells[y][x].Reveal()), s.revealed + 1, s.over);
    RevealCounted(s, w, h, c);
    assert RevealFrom(s, w, h, mines, x, y) == s1.(over := true);
  }

  /** Revealing a safe cell of degree other than 0: only that cell changes, then the win test. */
  lemma RevealNumbered(s: Play, w: int, h: int, mines: int, x: int, y: int)
    requires DegreesCorrect(s.cells, w, h) && InBounds(w, h, Coord(x, y))
    requires !IsFlagged(s.cells[y][x]) && IsSafe(s.cells[y][x]) && s.cells[y][x].degree != 0
    ensures RevealOutcome(s, RevealFrom(s, w, h, mines, x, y), w, h, mines, x, y)
  {
    var c := Coord(x, y);
    var s1 := Play(Update(s.cells, c, s.cells[y][x].Reveal()), s.revealed + 1, s.over);
    RevealCounted(s, w, h, c);
    var r := if s1.revealed == w * h - mines then s1.(over := true) else s1;
    assert RevealFrom(s, w, h, mines, x, y) == r;
    if IsHidden(s.cells[y][x]) {
      OpenedNothing(s1.cells, w, h);
      OpenedFromReveal(s.cells, s1.cells, w, h, c);
      ReachedReveal(s.cells, w, h, c);
    }
  }

  /** Revealing a HIDDEN safe cell of degree 0: the cascade over its neighbours, then the win test. */
  lemma {:induction false} RevealEmpty(s: Play, w: int, h: int, mines: int, x: int, y: int)
    requires DegreesCorrect(s.cells, w, h) && InBounds(w, h, Coord(x, y))
    requires IsHidden(s.cells[y][x]) && IsSafe(s.cells[y][x]) && s.cells[y][x].degree == 0
    ensures RevealOutcome(s, RevealFrom(s, w, h, mines, x, y), w, h, mines, x, y)
    decreases CountAll(s.cells, IsHidden), 0
  {
    var c := Coord(x, y);
    var s1 := Play(Update(s.cells, c, s.cells[y][x].Reveal()), s.revealed + 1, s.over);
    RevealCounted(s, w, h, c);
    var s2 := CascadeFrom(s1, w, h, mines, Neighbors(w, h, x, y), 0);
    RevealFromSteps(s, w, h, mines, x, y);
    assert RevealFrom(s, w, h, mines, x, y) == WinCheck(s2, w, h, mines);
    CascadeStart(s1.cells, w, h, x, y);
    CascadeSpec(s1, w, h, mines, Neighbors(w, h, x, y), 0);
    OpenedFromReveal(s.cells, s2.cells, w, h, c);
    ReachedFromReveal(s.cells, s2.cells, w, h, c);
  }

  /**
   * Revealing (x, y) and counting it: a Grows step that keeps the degrees,
   * takes one cell off the hidden count if it was HIDDEN, and raises the
   * excess by one if the cell was already REVEALED.
   */
  lemma RevealCounted(s: Play, w: int, h: int, c: Coord)
    requires DegreesCorrect(s.cells, w, h) && InBounds(w, h, c) && !IsFlagged(s.cells[c.y][c.x])
    ensures var cell := s.cells[c.y][c.x];
      var s1 := Play(Update(s.cells, c, cell.Reveal()), s.revealed + 1, s.over);
      && Grows(s.cells, s1.cells, w, h) && DegreesCorrect(s1.cells, w, h) && IsRevealed(s1.cells[c.y][c.x])
      && s1.cells[c.y][c.x].degree == cell.degree && s1.cells[c.y][c.x].kind == cell.kind
      && (IsHidden(cell) ==> CountAll(s1.cells, IsHidden) < CountAll(s.cells, IsHidden))
      && Excess(s1) == Excess(s) + (if IsRevealed(cell) then 1 else 0)
  {
    var cell := s.cells[c.y][c.x];
    RevealGrows(s.cells, w, h, c);
    LayoutKeepsDegrees(s.cells, Update(s.cells, c, cell.Reveal()), w, h);
    if IsHidden(cell) {
      RevealOne(s.cells, w, h, c);
    }
  }

  /**
   * What one click of a cascade, or a run of them, guarantees: the board is
   * opened, the excess is unchanged, `over` stays set, the counter does not
   * go down, and the game has ended only if the counter passed `w * h - mines`.
   */
  ghost predicate Progress(s: Play, r: Play, w: int, h: int, mines: int)
  {
    && Opened(s.cells, r.cells, w, h)
    && Excess(r) == Excess(s) && (s.over ==> r.over) && s.revealed <= r.revealed
    && (r.over ==> s.over || s.revealed < w * h - mines <= r.revealed)
  }

  lemma ProgressTransitive(s0: Play, s1: Play, s2: Play, w: int, h: int, mines: int)
    requires Progress(s0, s1, w, h, mines) && Progress(s1, s2, w, h, mines)
    ensures Progress(s0, s2, w, h, mines)
  {
    OpenedTransitive(s0.cells, s1.cells, s2.cells, w, h);
  }

  /** A finished cascade over `ns`: progress, and no cell of `ns` is HIDDEN any more. */
  ghost predicate Cascaded(s: Play, r: Play, w: int, h: int, mines: int, ns: seq<Coord>)
  {
    && Progress(s, r, w, h, mines) && Reached(s.cells, r.cells, w, h, ns)
    && forall t :: 0 <= t < |ns| && InBounds(w, h, ns[t]) ==> !IsHidden(r.cells[ns[t].y][ns[t].x])
  }

  /**
   * The board a cascade over `ns` meets at step `k`: degrees correct, every
   * cell of `ns` on the board and safe, and those before `k` not HIDDEN.
   */
  ghost predicate CascadeReady(b: Board, w: int, h: int, ns: seq<Coord>, k: int)
  {
    && DegreesCorrect(b, w, h) && 0 <= k <= |ns|
    && AllInBounds(w, h, ns) && Inside(b, ns)
    && (forall t :: 0 <= t < |ns| ==> IsSafe(b[ns[t].y][ns[t].x]))
    && (forall t :: 0 <= t < k ==> !IsHidden(b[ns[t].y][ns[t].x]))
  }

  /** The cascade from a cell of degree 0 starts ready: its neighbours are all safe. */
  lemma CascadeStart(b: Board, w: int, h: int, x: int, y: int)
    requires DegreesCorrect(b, w, h) && InBounds(w, h, Coord(x, y)) && b[y][x].degree == 0
    ensures CascadeReady(b, w, h, Neighbors(w, h, x, y), 0)
  {
    ZeroDegreeNeighborsSafe(b, w, h, x, y);
    NeighborsInside(b, w, h, x, y);
  }

  /**
   * The cascade over `ns[k..]`, where every cell of `ns` is safe (as the
   * neighbours of a cell of degree 0 are) and those before `k` are no longer
   * HIDDEN: each one still HIDDEN is opened, with the guarantees of `Progress`,
   * and afterwards no cell of `ns` is HIDDEN.
   */
  lemma {:induction false} CascadeSpec(s: Play, w: int, h: int, mines: int, ns: seq<Coord>, k: nat)
    requires CascadeReady(s.cells, w, h, ns, k)
    ensures Cascaded(s, CascadeFrom(s, w, h, mines, ns, k), w, h, mines, ns)
    decreases CountAll(s.cells, IsHidden) + 1, 0, |ns| - k, 1
  {
    if k == |ns| {
      OpenedNothing(s.cells, w, h);
      ReachedNothing(s.cells, w, h, ns);
    } else {
      var n := ns[k];
      assert InBounds(w, h, n);
      if IsHidden(s.cells[n.y][n.x]) {
        CascadeClick(s, w, h, mines, ns, k);
      } else {
        assert CascadeFrom(s, w, h, mines, ns, k) == CascadeFrom(s, w, h, mines, ns, k + 1);
        CascadeSpec(s, w, h, mines, ns, k + 1);
      }
    }
  }

  /** The cascade from a `k`-th cell that is still HIDDEN: it is clicked, and the cascade goes on. */
  lemma {:induction false} CascadeClick(s: Play, w: int, h: int, mines: int, ns: seq<Coord>, k: nat)
    requires CascadeReady(s.cells, w, h, ns, k) && k < |ns| && IsHidden(s.cells[ns[k].y][ns[k].x])
    ensures Cascaded(s, CascadeFrom(s, w, h, mines, ns, k), w, h, mines, ns)
    decreases CountAll(s.cells, IsHidden) + 1, 0, |ns| - k, 0
  {
    var n := ns[k];
    assert InBounds(w, h, n);
    var s1 := Primary(s, w, h, mines, n.x, n.y);
    assert CascadeFrom(s, w, h, mines, ns, k) == CascadeFrom(s1, w, h, mines, ns, k + 1);
    CascadeOpensOne(s, w, h, mines, ns, k);
    CascadeSpec(s1, w, h, mines, ns, k + 1);
    ProgressTransitive(s, s1, CascadeFrom(s1, w, h, mines, ns, k + 1), w, h, mines);
    assert n in ns;
    ReachedTransitive(s.cells, s1.cells, CascadeFrom(s1, w, h, mines, ns, k + 1).cells, w, h, [n], ns, ns);
  }

  /** One step of the cascade: the `k`-th cell, safe and still HIDDEN, is opened by its click. */
  lemma CascadeOpensOne(s: Play, w: int, h: int, mines: int, ns: seq<Coord>, k: nat)
    requires CascadeReady(s.cells, w, h, ns, k) && k < |ns| && IsHidden(s.cells[ns[k].y][ns[k].x])
    ensures var r := Primary(s, w, h, mines, ns[k].x, ns[k].y);
      && CascadeReady(r.cells, w, h, ns, k + 1)
      && CountAll(r.cells, IsHidden) <= CountAll(s.cells, IsHidden)
      && Progress(s, r, w, h, mines) && Reached(s.cells, r.cells, w, h, [ns[k]])
    decreases CountAll(s.cells, IsHidden), 3
  {
    var n := ns[k];
    assert InBounds(w, h, n) && IsSafe(s.cells[n.y][n.x]);
    assert Branch(s.cells, w, h, n.x, n.y) == Open;
    var r := Primary(s, w, h, mines, n.x, n.y);
    PrimarySpec(s, w, h, mines, n.x, n.y);
    LayoutKeepsDegrees(s.cells, r.cells, w, h);
    GrowsHidden(s.cells, r.cells, w, h);
  }

  /** A click keeps the grid's invariant, with the `flaggedMines` counter untouched. */
  lemma PrimaryKeepsConsistent(s: Play, flagged: int, w: int, h: int, mines: int, x: int, y: int)
    requires Consistent(s, flagged, w, h) && InBounds(w, h, Coord(x, y))
    ensures Consistent(Primary(s, w, h, mines, x, y), flagged, w, h)
  {
    PrimarySpec(s, w, h, mines, x, y);
    KeepsConsistent(s, Primary(s, w, h, mines, x, y), flagged, w, h);
  }

  /**
   * The unsatisfied chord counts a cell twice, and that can end the game as
   * a win while a safe cell is still HIDDEN: on a row of three cells, a
   * REVEALED cell of degree 1, a HIDDEN mine and a HIDDEN safe cell, with one
   * cell revealed so far, a click on the first cell brings `revealedCells` to
   * `3 * 1 - 1` and sets `gameOver`.
   */
  lemma UnsatisfiedChordEndsGame()
    ensures var b := [[Cell(Safe, Revealed, 1), Cell(Mine, Hidden, 0), Cell(Safe, Hidden, 1)]];
      var r := Primary(Play(b, 1, false), 3, 1, 1, 0, 0);
      r == Play(b, 2, true) && IsHidden(r.cells[0][2]) && IsSafe(r.cells[0][2])
  {
    var b := [[Cell(Safe, Revealed, 1), Cell(Mine, Hidden, 0), Cell(Safe, Hidden, 1)]];
    var ns := Neighbors(3, 1, 0, 0);
    NeighborsInside(b, 3, 1, 0, 0);
    var cs := At(b, ns);
    forall k | 0 <= k < |cs|
      ensures !IsFlagged(cs[k])
    {
      assert cs[k] == b[ns[k].y][ns[k].x];
    }
    CountZero(cs, IsFlagged);
    assert Branch(b, 3, 1, 0, 0) == UnsatisfiedChord;
    UpdateSame(b, Coord(0, 0));
  }

  /**
   * The chord has no win test: on a row of three cells, a FLAGGED mine, a
   * REVEALED cell of degree 1 and a HIDDEN safe cell, with one cell revealed
   * so far, a click on the middle cell reveals the last safe cell and brings
   * `revealedCells` to `3 * 1 - 1`, yet `gameOver` stays false.
   */
  lemma ChordMissesWin(b: Board)
    requires b == [[Cell(Mine, Flagged, 0), Cell(Safe, Revealed, 1), Cell(Safe, Hidden, 0)]]
    ensures var r := Primary(Play(b, 1, false), 3, 1, 1, 1, 0);
      && DegreesCorrect(b, 3, 1)
      && r.cells == [[Cell(Mine, Flagged, 0), Cell(Safe, Revealed, 1), Cell(Safe, Revealed, 0)]]
      && r.revealed == 3 * 1 - 1 && !r.over
  {
    var b2 := [[Cell(Mine, Flagged, 0), Cell(Safe, Revealed, 1), Cell(Safe, Revealed, 0)]];
    OneMineDegrees(b, 3, 1, Coord(0, 0));
    var ns := Neighbors(3, 1, 1, 0);
    var s := Play(b, 1, false);
    assert Branch(b, 3, 1, 1, 0) == Chord && ns == [Coord(0, 0), Coord(2, 0)] by {
      assert ns == [Coord(0, 0), Coord(2, 0)];
      assert GetNeighbors(b, 3, 1, 1, 0) == [b[0][0], b[0][2]];
      CountPair(b[0][0], b[0][2], IsFlagged);
    }
    assert ChordFrom(s, 3, 1, ns, 0) == Play(b2, 2, false) by {
      assert ChordVisit(s, 3, 1, ns[0]) == s;
      assert ChordVisit(s, 3, 1, ns[1]) == Play(b2, 2, false) by {
        var u := Update(b, Coord(2, 0), b[0][2].Reveal());
        assert u[0][0] == b2[0][0] && u[0][1] == b2[0][1] && u[0][2] == b2[0][2];
        assert u[0] == b2[0];
      }
      ChordFromStep(s, 3, 1, ns, 0);
      ChordFromStep(s, 3, 1, ns, 1);
      assert ChordFrom(Play(b2, 2, false), 3, 1, ns, 2) == Play(b2, 2, false);
    }
  }

  /**
   * The win test runs only after the cascade, against the exact target: on a
   * row of four cells, a HIDDEN mine, a REVEALED cell of degree 1 counted
   * twice and two HIDDEN safe cells of degree 0, a click on the last cell
   * takes `revealedCells` from 2 past the target `4 * 1 - 1` to 4, and the
   * game does not end.
   */
  lemma OverCountMissesWin(b: Board)
    requires b == [[Cell(Mine, Hidden, 0), Cell(Safe, Revealed, 1), Cell(Safe, Hidden, 0), Cell(Safe, Hidden, 0)]]
    ensures var r := Primary(Play(b, 2, false), 4, 1, 1, 3, 0);
      && DegreesCorrect(b, 4, 1)
      && r.cells == [[Cell(Mine, Hidden, 0), Cell(Safe, Revealed, 1), Cell(Safe, Revealed, 0), Cell(Safe, Revealed, 0)]]
      && r.revealed == 4 && 2 < 4 * 1 - 1 < r.revealed && !r.over
  {
    var b1 := [[Cell(Mine, Hidden, 0), Cell(Safe, Revealed, 1), Cell(Safe, Hidden, 0), Cell(Safe, Revealed, 0)]];
    var b2 := [[Cell(Mine, Hidden, 0), Cell(Safe, Revealed, 1), Cell(Safe, Revealed, 0), Cell(Safe, Revealed, 0)]];
    OneMineDegrees(b, 4, 1, Coord(0, 0));
    OverCountInnerClick(b1, b2);
    OverCountOuterClick(b, b1, b2);
  }

  /** The click of `OverCountMissesWin` on (3, 0): reveal it, then the cascade's one click on (2, 0). */
  lemma OverCountOuterClick(b: Board, b1: Board, b2: Board)
    requires b == [[Cell(Mine, Hidden, 0), Cell(Safe, Revealed, 1), Cell(Safe, Hidden, 0), Cell(Safe, Hidden, 0)]]
    requires b1 == [[Cell(Mine, Hidden, 0), Cell(Safe, Revealed, 1), Cell(Safe, Hidden, 0), Cell(Safe, Revealed, 0)]]
    requires Primary(Play(b1, 3, false), 4, 1, 1, 2, 0) == Play(b2, 4, false)
    ensures Primary(Play(b, 2, false), 4, 1, 1, 3, 0) == Play(b2, 4, false)
  {
    var s1 := Play(b1, 3, false);
    var s2 := Play(b2, 4, false);
    assert Neighbors(4, 1, 3, 0) == [Coord(2, 0)];
    assert Update(b, Coord(3, 0), b[0][3].Reveal()) == b1 by {
      var u := Update(b, Coord(3, 0), b[0][3].Reveal());
      assert u[0][0] == b1[0][0] && u[0][1] == b1[0][1] && u[0][2] == b1[0][2] && u[0][3] == b1[0][3];
      assert u[0] == b1[0];
    }
    CascadeFromStep(s1, 4, 1, 1, [Coord(2, 0)], 0);
    assert CascadeFrom(s2, 4, 1, 1, [Coord(2, 0)], 1) == s2;
    RevealFromSteps(Play(b, 2, false), 4, 1, 1, 3, 0);
  }

  /** The click the cascade of `OverCountMissesWin` makes on (2, 0): its own cascade finds nothing HIDDEN. */
  lemma OverCountInnerClick(b1: Board, b2: Board)
    requires b1 == [[Cell(Mine, Hidden, 0), Cell(Safe, Revealed, 1), Cell(Safe, Hidden, 0), Cell(Safe, Revealed, 0)]]
    requires b2 == [[Cell(Mine, Hidden, 0), Cell(Safe, Revealed, 1), Cell(Safe, Revealed, 0), Cell(Safe, Revealed, 0)]]
    ensures Primary(Play(b1, 3, false), 4, 1, 1, 2, 0) == Play(b2, 4, false)
  {
    var s1 := Play(b1, 3, false);
    var s2 := Play(b2, 4, false);
    var inner := [Coord(1, 0), Coord(3, 0)];
    assert Neighbors(4, 1, 2, 0) == inner;
    assert Update(b1, Coord(2, 0), b1[0][2].Reveal()) == b2 by {
      var u := Update(b1, Coord(2, 0), b1[0][2].Reveal());
      assert u[0][0] == b2[0][0] && u[0][1] == b2[0][1] && u[0][2] == b2[0][2] && u[0][3] == b2[0][3];
      assert u[0] == b2[0];
    }
    CascadeFromStep(s2, 4, 1, 1, inner, 0);
    CascadeFromStep(s2, 4, 1, 1, inner, 1);
    assert CascadeFrom(s2, 4, 1, 1, inner, 2) == s2;
    RevealFromSteps(s1, 4, 1, 1, 2, 0);
  }
}
