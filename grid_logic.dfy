/**
 * The standalone engine: `CellClass` (a cell's own transitions) and
 * `GridClass` (grid generation, the primary reveal with its chord rule and
 * zero-degree cascade, and the secondary flag toggle).
 *
 * A `CellClass` object is never shared between two grid slots, so a cell
 * mutated through a reference is modelled as the slot `cells[y][x]` being
 * given the updated cell value.
 */
module GridLogic {
  import opened GridTypes
  import opened Board
  import opened GridRules

  // ---------------------------------------------------------------------
  // CellClass

  /** `new CellClass(type)`: a HIDDEN cell of the given type, degree 0. */
  function NewCell(kind: CellType): (r: Cell)
    ensures IsHidden(r) && r.kind == kind && r.degree == 0
  {
    Cell(kind, Hidden, 0)
  }

  /** `CellClass.toggleFlag`: HIDDEN becomes FLAGGED, FLAGGED becomes HIDDEN, REVEALED stays. */
  function ToggleFlag(c: Cell): (r: Cell)
    ensures r.kind == c.kind && r.degree == c.degree
    ensures IsRevealed(c) ==> r == c
    ensures IsHidden(c) ==> IsFlagged(r)
    ensures IsFlagged(c) ==> IsHidden(r)
  {
    match c.state
    case Hidden => c.(state := Flagged)
    case Flagged => c.(state := Hidden)
    case Revealed => c
  }

  /** Toggling a flag twice gives the cell back, whatever its state. */
  lemma ToggleFlagTwice(c: Cell)
    ensures ToggleFlag(ToggleFlag(c)) == c
  {
  }

  /** `CellClass.setDegree`: the degree is replaced; type and state are untouched. */
  function SetDegree(c: Cell, degree: nat): (r: Cell)
    ensures r.degree == degree && r.kind == c.kind && r.state == c.state
  {
    c.(degree := degree)
  }

  /** `b` is `b0` with at most the degrees changed. */
  ghost predicate OnlyDegrees(b0: Board, b: Board, w: int, h: int)
  {
    && Shaped(b0, w, h) && Shaped(b, w, h)
    && forall j, i :: 0 <= j < h && 0 <= i < w ==> b[j][i] == b0[j][i].(degree := b[j][i].degree)
  }

  /** The degree loops of `generateGrid` have set every cell before column `x`, and the first `y` cells of column `x`. */
  ghost predicate DegreesUpTo(b0: Board, b: Board, w: int, h: int, x: int, y: int)
    requires Shaped(b0, w, h) && Shaped(b, w, h)
  {
    forall j, i {:trigger b[j][i].degree} :: 0 <= j < h && 0 <= i < w && (i < x || (i == x && j < y)) ==>
      b[j][i].degree == |AroundSet(b0, IsMine, w, h, i, j)|
  }

  lemma SetDegreeStep(b0: Board, b: Board, w: int, h: int, x: int, y: int)
    requires OnlyDegrees(b0, b, w, h) && DegreesUpTo(b0, b, w, h, x, y) && InBounds(w, h, Coord(x, y))
    ensures var b' := Update(b, Coord(x, y), SetDegree(b[y][x], GetDegree(b, w, h, x, y)));
      OnlyDegrees(b0, b', w, h) && DegreesUpTo(b0, b', w, h, x, y + 1)
  {
    AroundSetSame(b, IsMine, b0, IsMine, w, h, x, y);
  }

  lemma DegreesNextColumn(b0: Board, b: Board, w: int, h: int, x: int)
    requires Shaped(b0, w, h) && Shaped(b, w, h) && DegreesUpTo(b0, b, w, h, x, h)
    ensures DegreesUpTo(b0, b, w, h, x + 1, 0)
  {
  }

  lemma DegreesDone(b0: Board, b: Board, w: int, h: int)
    requires OnlyDegrees(b0, b, w, h) && DegreesUpTo(b0, b, w, h, w, 0)
    ensures DegreesCorrect(b, w, h)
  {
    forall j, i | 0 <= j < h && 0 <= i < w
      ensures DegreeAt(b, w, h, i, j)
    {
      AroundSetSame(b, IsMine, b0, IsMine, w, h, i, j);
    }
  }

  /**
   * `b` is `b0` with the distinct positions among the first `k` draws turned
   * into mines, and nothing else changed.
   */
  ghost predicate MinesFrom(b0: Board, b: Board, draws: seq<Coord>, k: int, w: int, h: int)
  {
    && Shaped(b0, w, h) && Shaped(b, w, h) && 0 <= k <= |draws|
    && (forall j, i :: 0 <= j < h && 0 <= i < w ==> b[j][i] == b0[j][i].(kind := b[j][i].kind))
    && (forall j, i {:trigger b[j][i]} :: 0 <= j < h && 0 <= i < w ==> (IsMine(b[j][i]) <==> Coord(i, j) in Drawn(draws, k)))
    && CountAll(b, IsMine) == |Drawn(draws, k)|
  }

  lemma MinesFromStart(b0: Board, draws: seq<Coord>, w: int, h: int)
    requires Shaped(b0, w, h)
    requires forall j, i :: 0 <= j < h && 0 <= i < w ==> IsSafe(b0[j][i])
    ensures MinesFrom(b0, b0, draws, 0, w, h)
  {
    CountAllNone(b0, IsMine);
    assert Drawn(draws, 0) == {};
  }

  /** One iteration of the placing loop: draw `k` becomes a mine unless it already is one. */
  lemma MinesFromStep(b0: Board, b: Board, draws: seq<Coord>, k: int, w: int, h: int)
    requires MinesFrom(b0, b, draws, k, w, h) && k < |draws| && InBounds(w, h, draws[k])
    ensures var c := draws[k];
      if b[c.y][c.x].kind == Safe then
        MinesFrom(b0, Update(b, c, b[c.y][c.x].(kind := Mine)), draws, k + 1, w, h)
        && |Drawn(draws, k + 1)| == |Drawn(draws, k)| + 1
      else
        MinesFrom(b0, b, draws, k + 1, w, h) && |Drawn(draws, k + 1)| == |Drawn(draws, k)|
    ensures Drawn(draws, k + 1) == Drawn(draws, k) + {draws[k]}
  {
    var c := draws[k];
    assert Drawn(draws, k + 1) == Drawn(draws, k) + {c};
    if b[c.y][c.x].kind == Safe {
      assert c !in Drawn(draws, k);
      CountAllUpdate(b, c, b[c.y][c.x].(kind := Mine), IsMine);
    } else {
      assert Drawn(draws, k + 1) == Drawn(draws, k);
    }
  }

  /** What `secondaryInteraction(x, y)` does to the cells and to the `flaggedMines` counter. */
  function Secondary(b: Board, flagged: int, w: int, h: int, c: Coord): (r: (Board, int))
    requires Shaped(b, w, h) && InBounds(w, h, c)
    ensures SameLayout(b, r.0, w, h)
    ensures IsRevealed(b[c.y][c.x]) ==> r == (b, flagged)
    ensures forall j, i :: 0 <= j < h && 0 <= i < w && (i != c.x || j != c.y) ==> r.0[j][i] == b[j][i]
    ensures IsHidden(b[c.y][c.x]) ==> IsFlagged(r.0[c.y][c.x]) && r.1 == flagged + 1
    ensures IsFlagged(b[c.y][c.x]) ==> IsHidden(r.0[c.y][c.x]) && r.1 == flagged - 1
    ensures r.1 - CountAll(r.0, IsFlagged) == flagged - CountAll(b, IsFlagged)
    ensures CountAll(r.0, IsRevealed) == CountAll(b, IsRevealed)
  {
    var cell := b[c.y][c.x];
    if IsRevealed(cell) then (b, flagged)
    else
      var b' := Update(b, c, ToggleFlag(cell));
      CountAllUpdate(b, c, ToggleFlag(cell), IsFlagged);
      CountAllUpdate(b, c, ToggleFlag(cell), IsRevealed);
      (b', if IsFlagged(b'[c.y][c.x]) then flagged + 1 else flagged - 1)
  }

  /** Flagging and then unflagging (or the reverse) restores both the cells and the counter. */
  lemma SecondaryTwice(b: Board, flagged: int, w: int, h: int, c: Coord)
    requires Shaped(b, w, h) && InBounds(w, h, c)
    ensures var (b1, f1) := Secondary(b, flagged, w, h, c);
            Secondary(b1, f1, w, h, c) == (b, flagged)
  {
    var (b1, f1) := Secondary(b, flagged, w, h, c);
    if !IsRevealed(b[c.y][c.x]) {
      var (b2, f2) := Secondary(b1, f1, w, h, c);
      assert b2[c.y] == b[c.y];
      assert b2 == b;
    }
  }

  /** The distinct values among the first `n` draws. */
  ghost function Drawn<T>(draws: seq<T>, n: int): set<T>
    requires 0 <= n <= |draws|
  {
    set k | 0 <= k < n :: draws[k]
  }

  /**
   * What a placement loop that keeps drawing until it holds `mines` distinct
   * values builds from the draws `draws[k..]`, starting from `acc`. Both
   * engines place their mines this way: `generateGrid` draws coordinates and
   * `initializeGrid` draws linear indices.
   */
  ghost function PlacedFrom<T>(draws: seq<T>, mines: int, k: nat, acc: set<T>): (r: set<T>)
    ensures acc <= r
    ensures forall c :: c in r ==> c in acc || exists t :: k <= t < |draws| && draws[t] == c
    decreases |draws| - k
  {
    if |acc| >= mines || k >= |draws| then acc
    else PlacedFrom(draws, mines, k + 1, acc + {draws[k]})
  }

  /** The mines a placement loop places, with the draws standing in for `Math.random`. */
  ghost function Placed<T>(draws: seq<T>, mines: int): (r: set<T>)
    ensures forall c :: c in r ==> c in draws
  {
    PlacedFrom(draws, mines, 0, {})
  }

  // ---------------------------------------------------------------------
  // GridClass

  class GridClass {
    const width: nat
    const height: nat
    const mines: nat
    var cells: Board
    var revealedCells: int
    var flaggedMines: int
    var gameOver: bool

    /** The part of the state a primary click can change. */
    function State(): Play
      reads this
    {
      Play(cells, revealedCells, gameOver)
    }

    /**
     * The grid's invariant: a height x width grid whose degrees are the mine
     * counts around each cell, `flaggedMines` equal to the number of FLAGGED
     * cells and `revealedCells` at least the number of REVEALED cells.
     */
    ghost predicate Valid()
      reads this
    {
      Consistent(State(), flaggedMines, width, height)
    }

    /** `new GridClass(width, height, mines)`, with `draws` standing for the random coordinates. */
    constructor (width: nat, height: nat, mines: nat, draws: seq<Coord>)
      requires forall k :: 0 <= k < |draws| ==> InBounds(width, height, draws[k])
      requires mines <= |Drawn(draws, |draws|)|
      ensures this.width == width && this.height == height && this.mines == mines
      ensures Valid() && revealedCells == 0 && flaggedMines == 0 && !gameOver
      ensures forall j, i :: 0 <= j < height && 0 <= i < width ==> IsHidden(cells[j][i])
      ensures CountAll(cells, IsMine) == mines
      ensures forall j, i {:trigger cells[j][i]} :: 0 <= j < height && 0 <= i < width ==> (IsMine(cells[j][i]) <==> Coord(i, j) in Placed(draws, mines))
      ensures forall j, i {:trigger cells[j][i]} :: 0 <= j < height && 0 <= i < width && IsMine(cells[j][i]) ==> Coord(i, j) in draws
    {
      this.width, this.height, this.mines := width, height, mines;
      cells := [];
      revealedCells, flaggedMines, gameOver := 0, 0, false;
      new;
      GenerateGrid(draws);
    }

    /**
     * `generateGrid`: lay out height x width SAFE cells, turn the first
     * `mines` distinct draws into mines (a draw on a mine is rejected), then
     * give every cell its degree. Its three phases are the methods below.
     */
    method GenerateGrid(draws: seq<Coord>)
      requires cells == [] && flaggedMines == 0 && revealedCells == 0
      requires forall k :: 0 <= k < |draws| ==> InBounds(width, height, draws[k])
      requires mines <= |Drawn(draws, |draws|)|
      modifies this`cells
      ensures Valid()
      ensures forall j, i :: 0 <= j < height && 0 <= i < width ==> IsHidden(cells[j][i])
      ensures CountAll(cells, IsMine) == mines
      ensures forall j, i {:trigger cells[j][i]} :: 0 <= j < height && 0 <= i < width ==> (IsMine(cells[j][i]) <==> Coord(i, j) in Placed(draws, mines))
      ensures forall j, i {:trigger cells[j][i]} :: 0 <= j < height && 0 <= i < width && IsMine(cells[j][i]) ==> Coord(i, j) in draws
    {
      LaySafeCells();
      PlaceMines(draws);
      ghost var placed := cells;
      SetDegrees();
      CountAllSame(placed, cells, IsMine, IsMine);
      CountAllNone(cells, IsFlagged);
      CountAllNone(cells, IsRevealed);
    }

    /** The first phase of `generateGrid`: `height` rows of `width` fresh SAFE cells. */
    method LaySafeCells()
      requires cells == []
      modifies this`cells
      ensures Shaped(cells, width, height)
      ensures forall j, i :: 0 <= j < height && 0 <= i < width ==> cells[j][i] == NewCell(Safe)
    {
      for i := 0 to height
        invariant |cells| == i
        invariant forall j :: 0 <= j < i ==> |cells[j]| == width
        invariant forall j, k :: 0 <= j < i && 0 <= k < width ==> cells[j][k] == NewCell(Safe)
      {
        cells := cells + [[]];
        ghost var rows := cells;
        for j := 0 to width
          invariant |cells| == i + 1 && |cells[i]| == j
          invariant forall r :: 0 <= r < i ==> cells[r] == rows[r]
          invariant forall k :: 0 <= k < j ==> cells[i][k] == NewCell(Safe)
        {
          cells := cells[i := cells[i] + [NewCell(Safe)]];
        }
      }
    }

    /**
     * The second phase of `generateGrid`: each draw that lands on a SAFE
     * cell makes it a MINE, until `mines` have been placed. The mines are
     * exactly `Placed(draws, mines)`, the distinct positions among the
     * shortest prefix of the draws that has `mines` of them; states and
     * degrees are untouched.
     */
    method PlaceMines(draws: seq<Coord>)
      requires Shaped(cells, width, height)
      requires forall j, i :: 0 <= j < height && 0 <= i < width ==> IsSafe(cells[j][i])
      requires forall k :: 0 <= k < |draws| ==> InBounds(width, height, draws[k])
      requires mines <= |Drawn(draws, |draws|)|
      modifies this`cells
      ensures Shaped(cells, width, height) && CountAll(cells, IsMine) == mines
      ensures forall j, i :: 0 <= j < height && 0 <= i < width ==>
        cells[j][i] == old(cells[j][i]).(kind := cells[j][i].kind)
      ensures forall j, i {:trigger cells[j][i]} :: 0 <= j < height && 0 <= i < width ==> (IsMine(cells[j][i]) <==> Coord(i, j) in Placed(draws, mines))
      ensures forall j, i {:trigger cells[j][i]} :: 0 <= j < height && 0 <= i < width && IsMine(cells[j][i]) ==> Coord(i, j) in draws
    {
      // The cells are updated on a local copy that is stored back at the end.
      ghost var b0: Board := cells;
      var b := cells;
      MinesFromStart(b0, draws, width, height);
      assert Drawn(draws, 0) == {};
      var minesPlaced := 0;
      var k := 0;
      while minesPlaced < mines
        invariant 0 <= k <= |draws|
        invariant MinesFrom(b0, b, draws, k, width, height)
        invariant minesPlaced == |Drawn(draws, k)| <= mines
        invariant PlacedFrom(draws, mines, k, Drawn(draws, k)) == Placed(draws, mines)
        decreases |draws| - k
      {
        var c := draws[k];
        MinesFromStep(b0, b, draws, k, width, height);
        if b[c.y][c.x].kind == Safe {
          b := Update(b, c, b[c.y][c.x].(kind := Mine));
          minesPlaced := minesPlaced + 1;
        }
        k := k + 1;
      }
      cells := b;
    }

    /** The third phase of `generateGrid`: every cell gets `getDegree` of its position; types and states are untouched. */
    method SetDegrees()
      requires Shaped(cells, width, height)
      modifies this`cells
      ensures DegreesCorrect(cells, width, height)
      ensures forall j, i :: 0 <= j < height && 0 <= i < width ==>
        cells[j][i] == old(cells[j][i]).(degree := cells[j][i].degree)
    {
      ghost var placed: Board := cells;
      for x := 0 to width
        invariant OnlyDegrees(placed, cells, width, height)
        invariant DegreesUpTo(placed, cells, width, height, x, 0)
      {
        for y := 0 to height
          invariant OnlyDegrees(placed, cells, width, height)
          invariant DegreesUpTo(placed, cells, width, height, x, y)
        {
          SetDegreeStep(placed, cells, width, height, x, y);
          cells := Update(cells, Coord(x, y), SetDegree(cells[y][x], GetDegree(cells, width, height, x, y)));
        }
        DegreesNextColumn(placed, cells, width, height, x);
      }
      DegreesDone(placed, cells, width, height);
    }

    /**
     * `primaryInteraction(x, y)`: the guards in the source's order, then the
     * chord or the reveal. The recursion of the cascade is on the
     * neighbour's own coordinates (see `GridRules.Primary`).
     */
    method PrimaryInteraction(x: int, y: int)
      requires Valid() && InBounds(width, height, Coord(x, y))
      modifies this
      decreases CountAll(cells, IsHidden), 2
      ensures State() == Primary(old(State()), width, height, mines, x, y)
      ensures Valid() && flaggedMines == old(flaggedMines)
    {
      var cell := cells[y][x];
      if IsRevealed(cell) && cell.degree == 0 {
        return;
      }
      if IsMine(cell) {
        gameOver := true;
        return;
      }
      if IsFlagged(cell) {
        return;
      }
      var flaggedNeighbors := FlaggedNeighbors(cells, width, height, x, y);
      if IsRevealed(cell) && cell.degree == flaggedNeighbors {
        RevealHiddenNeighbors(x, y);
        return;
      }
      RevealAndCascade(x, y);
    }

    /**
     * The chord step of `primaryInteraction`: each HIDDEN neighbour of (x, y)
     * is revealed and counted; revealing a mine ends the game.
     */
    method RevealHiddenNeighbors(x: int, y: int)
      requires Valid() && InBounds(width, height, Coord(x, y))
      modifies this
      ensures State() == ChordFrom(old(State()), width, height, Neighbors(width, height, x, y), 0)
      ensures Valid() && flaggedMines == old(flaggedMines)
    {
      var ns := Neighbors(width, height, x, y);
      var k := 0;
      while k < |ns|
        invariant 0 <= k <= |ns| && Shaped(cells, width, height) && flaggedMines == old(flaggedMines)
        invariant ChordFrom(State(), width, height, ns, k) == ChordFrom(old(State()), width, height, ns, 0)
      {
        var n := ns[k];
        ChordFromStep(State(), width, height, ns, k);
        RevealIfHidden(n);
        k := k + 1;
      }
      ChordKeepsConsistent(old(State()), flaggedMines, width, height, x, y);
    }

    /** The chord's callback on one neighbour: reveal it and count it if it is HIDDEN; a mine ends the game. */
    method RevealIfHidden(n: Coord)
      requires Shaped(cells, width, height) && InBounds(width, height, n)
      modifies this
      ensures State() == ChordVisit(old(State()), width, height, n)
      ensures flaggedMines == old(flaggedMines)
    {
      if IsHidden(cells[n.y][n.x]) {
        cells := Update(cells, n, cells[n.y][n.x].Reveal());
        revealedCells := revealedCells + 1;
        if IsMine(cells[n.y][n.x]) {
          gameOver := true;
        }
      }
    }

    /**
     * The tail of `primaryInteraction` for a cell that is neither FLAGGED nor
     * a REVEALED empty cell: reveal it and count it, end the game on a mine,
     * click every HIDDEN neighbour of a cell of degree 0, then test for the win.
     */
    method RevealAndCascade(x: int, y: int)
      requires Valid() && InBounds(width, height, Coord(x, y))
      requires !IsFlagged(cells[y][x]) && !(IsRevealed(cells[y][x]) && cells[y][x].degree == 0)
      modifies this
      decreases CountAll(cells, IsHidden), 1
      ensures State() == RevealFrom(old(State()), width, height, mines, x, y)
      ensures Valid() && flaggedMines == old(flaggedMines)
    {
      RevealFromSteps(State(), width, height, mines, x, y);
      RevealCell(x, y);
      if IsMine(cells[y][x]) {
        gameOver := true;
        return;
      }
      if cells[y][x].degree == 0 {
        Cascade(x, y);
      }
      CheckForWin();
    }

    /** The win test at the end of a reveal. */
    method CheckForWin()
      modifies this`gameOver
      ensures State() == WinCheck(old(State()), width, height, mines)
    {
      if revealedCells == width * height - mines {
        gameOver := true;
      }
    }

    /** The first step of `RevealAndCascade`: the cell is revealed and counted. */
    method RevealCell(x: int, y: int)
      requires Valid() && InBounds(width, height, Coord(x, y)) && !IsFlagged(cells[y][x])
      modifies this
      ensures State() == Play(Update(old(cells), Coord(x, y), old(cells[y][x]).Reveal()), old(revealedCells) + 1, old(gameOver))
      ensures Valid() && flaggedMines == old(flaggedMines)
      ensures IsHidden(old(cells[y][x])) ==> CountAll(cells, IsHidden) < CountAll(old(cells), IsHidden)
    {
      RevealCounted(State(), width, height, Coord(x, y));
      ghost var s0 := State();
      cells := Update(cells, Coord(x, y), cells[y][x].Reveal());
      revealedCells := revealedCells + 1;
      KeepsConsistent(s0, State(), flaggedMines, width, height);
    }

    /**
     * The cascade of `primaryInteraction` from a cell of degree 0: each
     * neighbour of (x, y), in `getNeighbors` order, that is still HIDDEN when
     * its turn comes is clicked.
     */
    method Cascade(x: int, y: int)
      requires Valid() && InBounds(width, height, Coord(x, y))
      modifies this
      decreases CountAll(cells, IsHidden) + 1, 0, 1
      ensures State() == CascadeFrom(old(State()), width, height, mines, Neighbors(width, height, x, y), 0)
      ensures Valid() && flaggedMines == old(flaggedMines)
    {
      var ns := Neighbors(width, height, x, y);
      ghost var goal := CascadeFrom(State(), width, height, mines, ns, 0);
      var k := 0;
      while k < |ns|
        invariant 0 <= k <= |ns| && Valid() && flaggedMines == old(flaggedMines)
        invariant CountAll(cells, IsHidden) <= CountAll(old(cells), IsHidden)
        invariant CascadeFrom(State(), width, height, mines, ns, k) == goal
      {
        CascadeFromStep(State(), width, height, mines, ns, k);
        CascadeVisit(ns[k]);
        k := k + 1;
      }
    }

    /** One neighbour of a cascade: clicked if it is still HIDDEN. */
    method CascadeVisit(n: Coord)
      requires Valid() && InBounds(width, height, n)
      modifies this
      decreases CountAll(cells, IsHidden) + 1, 0, 0
      ensures State() == if IsHidden(old(cells[n.y][n.x])) then Primary(old(State()), width, height, mines, n.x, n.y) else old(State())
      ensures Valid() && flaggedMines == old(flaggedMines)
      ensures CountAll(cells, IsHidden) <= CountAll(old(cells), IsHidden)
    {
      if IsHidden(cells[n.y][n.x]) {
        ghost var before := cells;
        PrimaryInteraction(n.x, n.y);
        GrowsHidden(before, cells, width, height);
      }
    }

    /** `secondaryInteraction(x, y)`: toggle the flag on a cell that is not REVEALED. */
    method SecondaryInteraction(x: int, y: int)
      requires Valid() && InBounds(width, height, Coord(x, y))
      modifies this
      ensures Valid()
      ensures (cells, flaggedMines) == Secondary(old(cells), old(flaggedMines), width, height, Coord(x, y))
      ensures revealedCells == old(revealedCells) && gameOver == old(gameOver)
    {
      if IsRevealed(cells[y][x]) {
        return;
      }
      ghost var b0 := cells;
      ghost var r := Secondary(cells, flaggedMines, width, height, Coord(x, y));
      cells := Update(cells, Coord(x, y), ToggleFlag(cells[y][x]));
      if IsFlagged(cells[y][x]) {
        flaggedMines := flaggedMines + 1;
      } else {
        flaggedMines := flaggedMines - 1;
      }
      LayoutKeepsDegrees(b0, cells, width, height);
    }
  }
}
