/**
 * The engine inside the `useGrid` hook: `createCell`, `initializeGrid`
 * (mine indices drawn into a set, decoded row-major, and degrees counted by
 * clamped loops), `revealCell` (the guards, the chord and a single reveal,
 * with no cascade and no win test) and `toggleFlag`.
 *
 * The hook's state variables become the fields of `GridHook`; each
 * `setX(prev => prev + 1)` is a plain increment. The cells that
 * `createCell` returns are never shared between two slots, so mutating one
 * through a reference is modelled as giving its slot the updated value.
 */
module UseGrid {
  import opened GridTypes
  import opened Board
  import opened GridRules
  import opened GridLogic

  // ---------------------------------------------------------------------
  // createCell

  /** `createCell(mine, degree)`: a HIDDEN cell, a MINE exactly when `mine` is set, carrying `degree`. */
  function CreateCell(mine: bool, degree: nat): (c: Cell)
    ensures IsHidden(c) && (IsMine(c) <==> mine) && (IsSafe(c) <==> !mine) && c.degree == degree
  {
    Cell(if mine then Mine else Safe, Hidden, degree)
  }

  /**
   * The `toggleFlag` closure of a created cell: FLAGGED becomes HIDDEN and
   * every other state, REVEALED included, becomes FLAGGED.
   */
  function FlipFlag(c: Cell): (r: Cell)
    ensures r.kind == c.kind && r.degree == c.degree
    ensures IsFlagged(c) <==> !IsFlagged(r)
  {
    c.(state := if IsFlagged(c) then Hidden else Flagged)
  }

  /** On a cell that is not REVEALED the closure agrees with `CellClass.toggleFlag`, so two flips restore it. */
  lemma FlipFlagUnrevealed(c: Cell)
    requires !IsRevealed(c)
    ensures FlipFlag(c) == ToggleFlag(c)
    ensures FlipFlag(FlipFlag(c)) == c
  {
  }

  /** A REVEALED cell would be FLAGGED by the closure, and HIDDEN after a second flip: the guard of `toggleFlag` matters. */
  lemma FlipFlagRevealed(c: Cell)
    requires IsRevealed(c)
    ensures IsFlagged(FlipFlag(c)) && IsHidden(FlipFlag(FlipFlag(c)))
    ensures FlipFlag(FlipFlag(c)) != c
  {
  }

  // ---------------------------------------------------------------------
  // Mine indices

  /** The row-major index of `c` on a grid `w` wide. */
  function Encode(c: Coord, w: int): int
  {
    c.y * w + c.x
  }

  /** How `initializeGrid` decodes an index: column `p % width`, row `Math.floor(p / width)`. */
  function Decode(p: int, w: int): (c: Coord)
    requires w > 0
    ensures 0 <= c.x < w && Encode(c, w) == p
  {
    Coord(p % w, p / w)
  }

  /** Every index in [0, w * h) decodes to a position on the grid, and back to itself. */
  lemma DecodeInBounds(p: int, w: int, h: int)
    requires w >= 0 && h >= 0 && 0 <= p < w * h
    ensures w > 0 && InBounds(w, h, Decode(p, w)) && Encode(Decode(p, w), w) == p
  {
    var q, r := p / w, p % w;
    assert p == q * w + r && 0 <= r < w;
    if q < 0 {
      MulAtMost(q, -1, w);
    }
    if q >= h {
      MulAtLeast(q, h, w);
    }
  }

  /** `a <= b` scales by a positive `w`. */
  lemma MulAtMost(a: int, b: int, w: int)
    requires a <= b && w > 0
    ensures a * w <= b * w
  {
    assert b * w - a * w == (b - a) * w;
  }

  lemma MulAtLeast(a: int, b: int, w: int)
    requires a >= b && w > 0
    ensures a * w >= b * w
  {
    MulAtMost(b, a, w);
  }

  /** Division by a positive `w` is unique: `q * w + r` with `0 <= r < w` divides to `q`, remainder `r`. */
  lemma DivUnique(p: int, w: int, q: int, r: int)
    requires w > 0 && 0 <= r < w && p == q * w + r
    ensures p / w == q && p % w == r
  {
    var q', r' := p / w, p % w;
    assert p == q' * w + r' && 0 <= r' < w;
    assert (q - q') * w == r' - r;
    if q - q' >= 1 {
      MulAtLeast(q - q', 1, w);
    } else if q - q' <= -1 {
      MulAtMost(q - q', -1, w);
    }
  }

  /** A grid position encodes to an index in [0, w * h) that decodes back to it. */
  lemma EncodeInRange(c: Coord, w: int, h: int)
    requires InBounds(w, h, c)
    ensures 0 <= Encode(c, w) < w * h && Decode(Encode(c, w), w) == c
  {
    MulAtLeast(c.y, 0, w);
    MulAtMost(c.y + 1, h, w);
    assert (c.y + 1) * w == c.y * w + w;
    assert h * w == w * h;
    DivUnique(Encode(c, w), w, c.y, c.x);
  }

  /** Distinct indices give distinct cells. */
  lemma DecodeInjective(p: int, q: int, w: int, h: int)
    requires w >= 0 && h >= 0 && 0 <= p < w * h && 0 <= q < w * h && p != q
    ensures w > 0 && Decode(p, w) != Decode(q, w)
  {
    DecodeInBounds(p, w, h);
    DecodeInBounds(q, w, h);
  }

  /**
   * When the draws are indices of the grid and hold at least `mines`
   * distinct values, the placement ends with exactly `mines` indices (none
   * for a negative `mines`), each of them an index of the grid.
   */
  lemma PlacedSize(draws: seq<int>, mines: int, w: int, h: int)
    requires forall k :: 0 <= k < |draws| ==> 0 <= draws[k] < w * h
    requires |Drawn(draws, |draws|)| >= mines
    ensures |Placed(draws, mines)| == (if mines > 0 then mines else 0)
    ensures forall p :: p in Placed(draws, mines) ==> 0 <= p < w * h
  {
    assert Drawn(draws, 0) == {};
    PlacedFromSize(draws, mines, w, h, 0);
  }

  lemma {:induction false} PlacedFromSize(draws: seq<int>, mines: int, w: int, h: int, k: nat)
    requires forall t :: 0 <= t < |draws| ==> 0 <= draws[t] < w * h
    requires k <= |draws| && |Drawn(draws, |draws|)| >= mines
    requires |Drawn(draws, k)| <= (if mines > 0 then mines else 0)
    ensures |PlacedFrom(draws, mines, k, Drawn(draws, k))| == (if mines > 0 then mines else 0)
    ensures forall p :: p in PlacedFrom(draws, mines, k, Drawn(draws, k)) ==> 0 <= p < w * h
    decreases |draws| - k
  {
    var acc := Drawn(draws, k);
    if |acc| < mines && k < |draws| {
      assert Drawn(draws, k + 1) == acc + {draws[k]};
      PlacedFromSize(draws, mines, w, h, k + 1);
    }
  }

  // ---------------------------------------------------------------------
  // The mine matrix and the clamped degree loops

  /** An entry of the mine matrix: `true` marks a mine. */
  predicate Planted(b: bool) { b }

  /**
   * The positions of the clipped window around (x, y) holding a mine that
   * the clamped loops have passed before reaching column `i`, row `j`.
   */
  ghost function MarkedBefore(m: seq<seq<bool>>, w: int, h: int, x: int, y: int, i: int, j: int): set<Coord>
    requires Shaped(m, w, h)
  {
    set c | c in AroundSet(m, Planted, w, h, x, y) && Before(c, Coord(i, j))
  }

  lemma MarkedStart(m: seq<seq<bool>>, w: int, h: int, x: int, y: int)
    requires Shaped(m, w, h)
    ensures MarkedBefore(m, w, h, x, y, Max(0, x - 1), Max(0, y - 1)) == {}
  {
    forall c | c in AroundSet(m, Planted, w, h, x, y)
      ensures !Before(c, Coord(Max(0, x - 1), Max(0, y - 1)))
    {
      AroundSetMember(m, Planted, w, h, x, y, c);
    }
  }

  lemma MarkedStep(m: seq<seq<bool>>, w: int, h: int, x: int, y: int, i: int, j: int)
    requires Shaped(m, w, h) && x - 1 <= i <= x + 1 && y - 1 <= j <= y + 1 && InBounds(w, h, Coord(i, j))
    ensures |MarkedBefore(m, w, h, x, y, i, j + 1)|
         == |MarkedBefore(m, w, h, x, y, i, j)| + (if (i != x || j != y) && m[j][i] then 1 else 0)
  {
    var pre := MarkedBefore(m, w, h, x, y, i, j);
    var add: set<Coord> := if (i != x || j != y) && m[j][i] then {Coord(i, j)} else {};
    MarkedSnoc(m, w, h, x, y, i, j);
    assert Coord(i, j) !in pre;
    assert |pre + add| == |pre| + |add|;
  }

  lemma MarkedSnoc(m: seq<seq<bool>>, w: int, h: int, x: int, y: int, i: int, j: int)
    requires Shaped(m, w, h) && x - 1 <= i <= x + 1 && y - 1 <= j <= y + 1 && InBounds(w, h, Coord(i, j))
    ensures Coord(i, j) !in MarkedBefore(m, w, h, x, y, i, j)
    ensures MarkedBefore(m, w, h, x, y, i, j + 1)
         == MarkedBefore(m, w, h, x, y, i, j) + (if (i != x || j != y) && m[j][i] then {Coord(i, j)} else {})
  {
    AroundSetMember(m, Planted, w, h, x, y, Coord(i, j));
    forall c | c in AroundSet(m, Planted, w, h, x, y)
      ensures Before(c, Coord(i, j + 1)) <==> Before(c, Coord(i, j)) || c == Coord(i, j)
    {
    }
  }

  lemma MarkedNextColumn(m: seq<seq<bool>>, w: int, h: int, x: int, y: int, i: int)
    requires Shaped(m, w, h)
    ensures MarkedBefore(m, w, h, x, y, i, Min(y + 1, h - 1) + 1) == MarkedBefore(m, w, h, x, y, i + 1, Max(0, y - 1))
  {
    forall c | c in AroundSet(m, Planted, w, h, x, y)
      ensures Before(c, Coord(i, Min(y + 1, h - 1) + 1)) <==> Before(c, Coord(i + 1, Max(0, y - 1)))
    {
      AroundSetMember(m, Planted, w, h, x, y, c);
    }
  }

  lemma MarkedDone(m: seq<seq<bool>>, w: int, h: int, x: int, y: int)
    requires Shaped(m, w, h)
    ensures MarkedBefore(m, w, h, x, y, Min(x + 1, w - 1) + 1, Max(0, y - 1)) == AroundSet(m, Planted, w, h, x, y)
  {
    forall c | c in AroundSet(m, Planted, w, h, x, y)
      ensures Before(c, Coord(Min(x + 1, w - 1) + 1, Max(0, y - 1)))
    {
      AroundSetMember(m, Planted, w, h, x, y, c);
    }
  }

  function Max(a: int, b: int): int { if a < b then b else a }
  function Min(a: int, b: int): int { if a < b then a else b }

  /**
   * The degree loops of `initializeGrid`: i over the clamped columns, j over
   * the clamped rows, skipping (x, y), counting the mines of the matrix. The
   * result is the number of mines in the clipped window, at most 8.
   */
  method ClampedDegree(m: seq<seq<bool>>, w: int, h: int, x: int, y: int) returns (degree: nat)
    requires Shaped(m, w, h) && InBounds(w, h, Coord(x, y))
    ensures degree == |AroundSet(m, Planted, w, h, x, y)| && degree <= 8
  {
    degree := 0;
    MarkedStart(m, w, h, x, y);
    for i := Max(0, x - 1) to Min(x + 1, w - 1) + 1
      invariant degree == |MarkedBefore(m, w, h, x, y, i, Max(0, y - 1))|
    {
      for j := Max(0, y - 1) to Min(y + 1, h - 1) + 1
        invariant degree == |MarkedBefore(m, w, h, x, y, i, j)|
      {
        MarkedStep(m, w, h, x, y, i, j);
        if i == x && j == y {
          continue;
        }
        if m[j][i] {
          degree := degree + 1;
        }
      }
      MarkedNextColumn(m, w, h, x, y, i);
    }
    MarkedDone(m, w, h, x, y);
    NeighborCountIsAroundSet(m, Planted, w, h, x, y);
  }

  /** A mine matrix: `m[y][x]` holds exactly when the index of (x, y) is one of `positions`. */
  ghost predicate MatrixOf(m: seq<seq<bool>>, w: int, h: int, positions: set<int>)
  {
    && Shaped(m, w, h)
    && forall j, i {:trigger m[j][i]} :: 0 <= j < h && 0 <= i < w ==> (m[j][i] <==> Encode(Coord(i, j), w) in positions)
  }

  /**
   * The `forEach` over the mine set: each index is decoded and its entry of
   * the `height` x `width` matrix of `false` is set. The matrix then marks
   * exactly the positions of the set, one entry per index.
   */
  method MineMatrix(positions: set<int>, w: int, h: int) returns (m: seq<seq<bool>>)
    requires w >= 0 && h >= 0 && forall p :: p in positions ==> 0 <= p < w * h
    ensures MatrixOf(m, w, h, positions)
    ensures CountAll(m, Planted) == |positions|
  {
    m := seq(h, _ => seq(w, _ => false));
    CountAllNone(m, Planted);
    var rest := positions;
    while rest != {}
      invariant rest <= positions
      invariant MatrixOf(m, w, h, positions - rest)
      invariant CountAll(m, Planted) == |positions - rest|
      decreases |rest|
    {
      assert (forall q :: q !in rest) ==> rest == {};
      var p :| p in rest;
      MarkStep(m, w, h, positions - rest, p);
      var x := p % w;
      var y := p / w;
      m := Update(m, Coord(x, y), true);
      assert positions - (rest - {p}) == (positions - rest) + {p};
      rest := rest - {p};
    }
  }

  /** Marking the entry of a new index `p`: the matrix marks one index more. */
  lemma MarkStep(m: seq<seq<bool>>, w: int, h: int, done: set<int>, p: int)
    requires w >= 0 && h >= 0 && MatrixOf(m, w, h, done) && p !in done && 0 <= p < w * h
    ensures w > 0 && InBounds(w, h, Decode(p, w))
    ensures MatrixOf(Update(m, Decode(p, w), true), w, h, done + {p})
    ensures CountAll(Update(m, Decode(p, w), true), Planted) == CountAll(m, Planted) + 1
  {
    DecodeInBounds(p, w, h);
    var c := Decode(p, w);
    assert !m[c.y][c.x];
    CountAllUpdate(m, c, true, Planted);
    var m' := Update(m, c, true);
    forall j, i | 0 <= j < h && 0 <= i < w
      ensures m'[j][i] <==> Encode(Coord(i, j), w) in done + {p}
    {
      if i != c.x || j != c.y {
        EncodeInRange(Coord(i, j), w, h);
      }
    }
  }

  /** The board `newCells` built from a mine matrix: each cell from `createCell` with its clamped degree. */
  ghost predicate CellsOf(b: Board, m: seq<seq<bool>>, w: int, h: int)
    requires Shaped(m, w, h)
  {
    && Shaped(b, w, h)
    && forall j, i {:trigger b[j][i]} :: 0 <= j < h && 0 <= i < w ==>
         b[j][i] == CreateCell(m[j][i], |AroundSet(m, Planted, w, h, i, j)|)
  }

  /** The nested `map` that builds `newCells`, row by row. */
  method BuildCells(m: seq<seq<bool>>, w: int, h: int) returns (b: Board)
    requires w >= 0 && Shaped(m, w, h)
    ensures CellsOf(b, m, w, h)
  {
    b := [];
    for y := 0 to h
      invariant |b| == y && forall j :: 0 <= j < y ==> |b[j]| == w
      invariant forall j, i {:trigger b[j][i]} :: 0 <= j < y && 0 <= i < w ==>
        b[j][i] == CreateCell(m[j][i], |AroundSet(m, Planted, w, h, i, j)|)
    {
      var row: seq<Cell> := [];
      for x := 0 to w
        invariant |row| == x
        invariant forall i :: 0 <= i < x ==> row[i] == CreateCell(m[y][i], |AroundSet(m, Planted, w, h, i, y)|)
      {
        var degree := ClampedDegree(m, w, h, x, y);
        row := row + [CreateCell(m[y][x], degree)];
      }
      b := b + [row];
    }
  }

  /** A board built by `initializeGrid` has every degree right, and as many MINE cells as the matrix marks. */
  lemma CellsOfFacts(b: Board, m: seq<seq<bool>>, w: int, h: int)
    requires Shaped(m, w, h) && CellsOf(b, m, w, h)
    ensures DegreesCorrect(b, w, h)
    ensures CountAll(b, IsMine) == CountAll(m, Planted)
    ensures forall j, i :: 0 <= j < h && 0 <= i < w ==> IsHidden(b[j][i])
    ensures CountAll(b, IsRevealed) == 0 && CountAll(b, IsFlagged) == 0
  {
    forall j, i | 0 <= j < h && 0 <= i < w
      ensures DegreeAt(b, w, h, i, j)
    {
      AroundSetSame(b, IsMine, m, Planted, w, h, i, j);
    }
    CountAllSame(m, b, Planted, IsMine);
    CountAllNone(b, IsRevealed);
    CountAllNone(b, IsFlagged);
  }

  // ---------------------------------------------------------------------
  // revealCell and toggleFlag as functions of the state

  /**
   * `revealCell(x, y)`: nothing on a REVEALED empty cell or a FLAGGED cell;
   * the chord on a REVEALED cell whose degree equals its FLAGGED neighbours;
   * otherwise a HIDDEN cell is revealed alone and counted, a mine ending the
   * game; a REVEALED cell with too few or too many flags around it is left alone.
   */
  function HookReveal(s: Play, w: int, h: int, x: int, y: int): (r: Play)
    requires Shaped(s.cells, w, h) && InBounds(w, h, Coord(x, y))
    ensures Grows(s.cells, r.cells, w, h)
  {
    var cell := s.cells[y][x];
    if IsRevealed(cell) && cell.degree == 0 then s
    else if IsFlagged(cell) then s
    else if IsRevealed(cell) && cell.degree == FlaggedNeighbors(s.cells, w, h, x, y) then
      ChordFrom(s, w, h, Neighbors(w, h, x, y), 0)
    else if !IsRevealed(cell) then
      RevealOne(s.cells, w, h, Coord(x, y));
      Play(Update(s.cells, Coord(x, y), cell.Reveal()), s.revealed + 1, s.over || IsMine(cell))
    else s
  }

  /**
   * What `revealCell` does, branch by branch: the guards and an unsatisfied
   * chord change nothing; the chord reveals exactly the HIDDEN neighbours,
   * counts them and ends the game exactly when one is a mine; a HIDDEN cell
   * is revealed alone, counted once, and ends the game exactly when it is a
   * mine. `gameOver` stays set and `revealedCells` does not go down.
   */
  lemma HookRevealSpec(s: Play, w: int, h: int, x: int, y: int)
    requires Shaped(s.cells, w, h) && InBounds(w, h, Coord(x, y))
    ensures var r := HookReveal(s, w, h, x, y);
      var cell := s.cells[y][x];
      var chord := IsRevealed(cell) && cell.degree != 0 && cell.degree == FlaggedNeighbors(s.cells, w, h, x, y);
      && (s.over ==> r.over) && s.revealed <= r.revealed
      && (IsFlagged(cell) || (IsRevealed(cell) && !chord) ==> r == s)
      && (chord ==>
            && Chorded(s.cells, r.cells, w, h, x, y)
            && r.revealed == s.revealed + HiddenNeighbors(s.cells, w, h, x, y)
            && r.over == (s.over || HiddenMineNeighbors(s.cells, w, h, x, y) > 0))
      && (IsHidden(cell) ==>
            r == Play(Update(s.cells, Coord(x, y), cell.Reveal()), s.revealed + 1, s.over || IsMine(cell)))
  {
    var cell := s.cells[y][x];
    if IsRevealed(cell) && cell.degree != 0 && cell.degree == FlaggedNeighbors(s.cells, w, h, x, y) {
      ChordEffect(s, w, h, x, y);
    }
  }

  /**
   * The hook's invariant: degrees right, `flaggedCells` the number of
   * FLAGGED cells and `revealedCells` exactly the number of REVEALED cells.
   */
  ghost predicate Exact(s: Play, flagged: int, w: int, h: int)
  {
    Consistent(s, flagged, w, h) && Excess(s) == 0
  }

  /** `revealCell` keeps the invariant: every increment pairs with a HIDDEN cell becoming REVEALED. */
  lemma HookRevealKeepsExact(s: Play, flagged: int, w: int, h: int, x: int, y: int)
    requires Exact(s, flagged, w, h) && InBounds(w, h, Coord(x, y))
    ensures Exact(HookReveal(s, w, h, x, y), flagged, w, h)
  {
    var cell := s.cells[y][x];
    var r := HookReveal(s, w, h, x, y);
    if IsRevealed(cell) && cell.degree != 0 && cell.degree == FlaggedNeighbors(s.cells, w, h, x, y) {
      ChordEffect(s, w, h, x, y);
    } else if IsHidden(cell) {
      RevealCounted(s, w, h, Coord(x, y));
    }
    KeepsConsistent(s, r, flagged, w, h);
  }

  /**
   * `toggleFlag(x, y)` on the cells and `flaggedCells`: nothing on a
   * REVEALED cell; otherwise the cell's closure flips it, and the counter
   * moves by one in the direction of the new state.
   */
  function HookFlag(b: Board, flagged: int, w: int, h: int, c: Coord): (r: (Board, int))
    requires Shaped(b, w, h) && InBounds(w, h, c)
    ensures SameLayout(b, r.0, w, h)
  {
    var cell := b[c.y][c.x];
    if IsRevealed(cell) then (b, flagged)
    else
      var b' := Update(b, c, FlipFlag(cell));
      (b', if IsFlagged(b'[c.y][c.x]) then flagged + 1 else flagged - 1)
  }

  /**
   * The hook's `toggleFlag` is the standalone engine's `secondaryInteraction`:
   * it keeps REVEALED cells out of the closure's FLAGGED branch, so it flips
   * HIDDEN and FLAGGED with a matching move of the counter, and two toggles
   * restore the cells and the counter.
   */
  lemma HookFlagIsSecondary(b: Board, flagged: int, w: int, h: int, c: Coord)
    requires Shaped(b, w, h) && InBounds(w, h, c)
    ensures HookFlag(b, flagged, w, h, c) == Secondary(b, flagged, w, h, c)
    ensures var (b1, f1) := HookFlag(b, flagged, w, h, c);
            HookFlag(b1, f1, w, h, c) == (b, flagged)
  {
    if !IsRevealed(b[c.y][c.x]) {
      FlipFlagUnrevealed(b[c.y][c.x]);
    }
    var (b1, f1) := Secondary(b, flagged, w, h, c);
    SecondaryTwice(b, flagged, w, h, c);
    if !IsRevealed(b[c.y][c.x]) {
      assert !IsRevealed(b1[c.y][c.x]);
      FlipFlagUnrevealed(b1[c.y][c.x]);
    }
  }

  /** `toggleFlag` keeps the invariant. */
  lemma HookFlagKeepsExact(s: Play, flagged: int, w: int, h: int, c: Coord)
    requires Exact(s, flagged, w, h) && InBounds(w, h, c)
    ensures var (b, f) := HookFlag(s.cells, flagged, w, h, c);
            Exact(Play(b, s.revealed, s.over), f, w, h)
  {
    HookFlagIsSecondary(s.cells, flagged, w, h, c);
    var (b, f) := Secondary(s.cells, flagged, w, h, c);
    LayoutKeepsDegrees(s.cells, b, w, h);
  }

  // ---------------------------------------------------------------------
  // The hook

  class GridHook {
    const width: int
    const height: int
    const mines: int
    var cells: Board
    var revealedCells: int
    var flaggedCells: int
    var gameOver: bool

    function State(): Play
      reads this
    {
      Play(cells, revealedCells, gameOver)
    }

    ghost predicate Valid()
      reads this
    {
      Exact(State(), flaggedCells, width, height)
    }

    /**
     * The hook's first render: empty cells, both counters 0, `gameOver`
     * false, then the effect that runs `initializeGrid` once.
     */
    constructor(width: int, height: int, mines: int, draws: seq<int>)
      requires width >= 0 && height >= 0
      requires forall k :: 0 <= k < |draws| ==> 0 <= draws[k] < width * height
      requires |Drawn(draws, |draws|)| >= mines
      ensures this.width == width && this.height == height && this.mines == mines
      ensures Valid() && revealedCells == 0 && flaggedCells == 0 && !gameOver
      ensures CountAll(cells, IsMine) == (if mines > 0 then mines else 0)
      ensures forall j, i :: 0 <= j < height && 0 <= i < width ==>
        IsHidden(cells[j][i]) && (IsMine(cells[j][i]) <==> Encode(Coord(i, j), width) in Placed(draws, mines))
    {
      this.width := width;
      this.height := height;
      this.mines := mines;
      cells := [];
      revealedCells := 0;
      flaggedCells := 0;
      gameOver := false;
      new;
      InitializeGrid(draws);
    }

    /**
     * `initializeGrid`: draw indices into a set until it holds `mines`,
     * mark them in a matrix, and build HIDDEN cells with their clamped
     * degrees. The counters and `gameOver` are not touched.
     */
    method InitializeGrid(draws: seq<int>)
      requires width >= 0 && height >= 0
      requires forall k :: 0 <= k < |draws| ==> 0 <= draws[k] < width * height
      requires |Drawn(draws, |draws|)| >= mines
      modifies this`cells
      ensures Shaped(cells, width, height) && DegreesCorrect(cells, width, height)
      ensures CountAll(cells, IsMine) == (if mines > 0 then mines else 0)
      ensures CountAll(cells, IsRevealed) == 0 && CountAll(cells, IsFlagged) == 0
      ensures forall j, i :: 0 <= j < height && 0 <= i < width ==>
        IsHidden(cells[j][i]) && (IsMine(cells[j][i]) <==> Encode(Coord(i, j), width) in Placed(draws, mines))
    {
      var positions: set<int> := {};
      var k := 0;
      assert Drawn(draws, 0) == {};
      while |positions| < mines
        invariant 0 <= k <= |draws| && positions == Drawn(draws, k)
        invariant PlacedFrom(draws, mines, k, positions) == Placed(draws, mines)
        decreases |draws| - k
      {
        assert Drawn(draws, k + 1) == positions + {draws[k]};
        positions := positions + {draws[k]};
        k := k + 1;
      }
      PlacedSize(draws, mines, width, height);
      var matrix := MineMatrix(positions, width, height);
      cells := BuildCells(matrix, width, height);
      CellsOfFacts(cells, matrix, width, height);
    }

    /** `revealCell(x, y)`. */
    method RevealCell(x: int, y: int)
      requires Valid() && InBounds(width, height, Coord(x, y))
      modifies this
      ensures State() == HookReveal(old(State()), width, height, x, y)
      ensures Valid() && flaggedCells == old(flaggedCells)
    {
      HookRevealKeepsExact(State(), flaggedCells, width, height, x, y);
      if IsRevealed(cells[y][x]) && cells[y][x].degree == 0 {
        return;
      }
      if IsFlagged(cells[y][x]) {
        return;
      }
      var neighbors := CollectNeighbors(width, height, x, y);
      NeighborsInside(cells, width, height, x, y);
      var flaggedNeighbors := Count(At(cells, neighbors), IsFlagged);
      if IsRevealed(cells[y][x]) && cells[y][x].degree == flaggedNeighbors {
        RevealHiddenNeighbors(neighbors);
        return;
      } else if !IsRevealed(cells[y][x]) {
        cells := Update(cells, Coord(x, y), cells[y][x].Reveal());
        if IsMine(cells[y][x]) {
          gameOver := true;
        }
        revealedCells := revealedCells + 1;
      }
    }

    /** The chord's `forEach` over the collected neighbours. */
    method RevealHiddenNeighbors(ns: seq<Coord>)
      requires Shaped(cells, width, height) && AllInBounds(width, height, ns)
      modifies this
      ensures State() == ChordFrom(old(State()), width, height, ns, 0)
      ensures flaggedCells == old(flaggedCells)
    {
      for k := 0 to |ns|
        invariant Shaped(cells, width, height) && flaggedCells == old(flaggedCells)
        invariant ChordFrom(State(), width, height, ns, k) == ChordFrom(old(State()), width, height, ns, 0)
      {
        ChordFromStep(State(), width, height, ns, k);
        RevealNeighbor(ns[k]);
      }
    }

    /** One neighbour of the chord: if it is HIDDEN, reveal it and count it; a mine ends the game. */
    method RevealNeighbor(n: Coord)
      requires Shaped(cells, width, height) && InBounds(width, height, n)
      modifies this
      ensures State() == ChordVisit(old(State()), width, height, n)
      ensures flaggedCells == old(flaggedCells)
    {
      if IsHidden(cells[n.y][n.x]) {
        cells := Update(cells, n, cells[n.y][n.x].Reveal());
        revealedCells := revealedCells + 1;
        if IsMine(cells[n.y][n.x]) {
          gameOver := true;
        }
      }
    }

    /** `toggleFlag(x, y)`. */
    method ToggleFlag(x: int, y: int)
      requires Valid() && InBounds(width, height, Coord(x, y))
      modifies this
      ensures (cells, flaggedCells) == HookFlag(old(cells), old(flaggedCells), width, height, Coord(x, y))
      ensures revealedCells == old(revealedCells) && gameOver == old(gameOver)
      ensures Valid()
    {
      HookFlagKeepsExact(State(), flaggedCells, width, height, Coord(x, y));
      if IsRevealed(cells[y][x]) {
        return;
      }
      cells := Update(cells, Coord(x, y), FlipFlag(cells[y][x]));
      if IsFlagged(cells[y][x]) {
        flaggedCells := flaggedCells + 1;
      } else {
        flaggedCells := flaggedCells - 1;
      }
    }
  }
}
