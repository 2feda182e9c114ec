# Minesweeper engines in Dafny

This project models the two Minesweeper engines of the `minesweeper` web app. Both work on the same cell vocabulary. A cell's type is SAFE or MINE, its state is HIDDEN, REVEALED or FLAGGED, and it carries a degree: the number of mines among its clipped 3x3 neighbourhood.

- **`GridClass`/`CellClass`** (`minesweeper/src/logic/grid.js`) is the standalone engine.
  - `generateGrid` lays out SAFE cells, places mines by rejection and computes every degree.
  - `primaryInteraction` runs, in order: the no-op guards, the mine loss, the chord rule, the reveal with its zero-degree cascade, and the win test.
  - `secondaryInteraction` toggles a flag and keeps `flaggedMines` in step.
- **The `useGrid` hook** (`minesweeper/src/hooks/useGrid.ts`) is the second engine.
  - `initializeGrid` draws linear mine indices into a set, decodes them row-major into a boolean matrix, and builds the cells with `createCell` and a clamped degree loop.
  - `revealCell` has the guards, the chord and a single-cell reveal, with no cascade and no win test.
  - `toggleFlag` flips a cell's flag.

## How the model is laid out

| File | Module | Contents |
|---|---|---|
| `grid_types.dfy` | `GridTypes` | The enumerations, the `Cell` value and its queries. |
| `board.dfy` | `Board` | The grid as `seq<seq<Cell>>` indexed `[y][x]`, and counting. |
| `grid_rules.dfy` | `GridRules` | `primaryInteraction` as functions on a `Play` value, with what each branch guarantees. |
| `grid_logic.dfy` | `GridLogic` | `CellClass` as functions, and `GridClass` as a class whose fields the methods update. |
| `use_grid.dfy` | `UseGrid` | The hook as the class `GridHook`, proved against the state functions `HookReveal` and `HookFlag`. |
| `findings.dfy` | `CascadeFinding` | The cascade as `grid.js` writes it, next to the intended one. |

`board.dfy` also holds:
- `Neighbors`, the coordinates `getNeighbors` visits in its loop order.
- `AroundSet`, the reference definition of a degree: the set of marked cells of the clipped window.
- The predicates that say how one board grows into another.

In `UseGrid`, every loop of the hook is a method with its invariants. The mine-index loop, the `forEach` over the set, the nested `map` and the clamped degree loops are each proved against a specification.

### Modelling choices

- **Mutation:** a cell object is never shared between two grid slots. Mutating it through a reference (`cell.reveal()`) is modelled as giving its slot the updated value.
- **Randomness:** `Math.random` is replaced by an input sequence of draws. `GridClass` takes coordinates; the hook takes linear indices.
- **The cascade's recursion** is on the neighbour's own coordinates, as the comment at `grid.js:159` states. See "Findings" for what the code as written does.
- **`GridClass`'s invariant** (`GridLogic.GridClass.Valid`):
  - The degrees are right.
  - `flaggedMines` equals the number of FLAGGED cells.
  - `revealedCells` is at least the number of REVEALED cells.

  It is not "equal": on a REVEALED cell with degree > 0 whose FLAGGED-neighbour count differs from its degree, the code falls through to the reveal and counts the cell again. The model keeps this, and `GridRules.UnsatisfiedChordEndsGame` shows it can end the game as a win while a safe cell is still HIDDEN.
- **The win test** is the exact comparison of `revealedCells` with `width*height - mines` at the end of the reveal path. The chord returns before it, so a chord that reveals the last safe cell does not end the game (`GridRules.ChordMissesWin`). Because a cell can be counted twice, a cascade can also carry the counter past the target, and the game then does not end either (`GridRules.OverCountMissesWin`).
- **The hook's invariant** (`UseGrid.GridHook.Valid`) is exact: `revealedCells` equals the number of REVEALED cells.
- **Bounds and game over:** neither engine checks bounds or guards on `gameOver`. "In bounds" is a precondition, and no error is invented.

## Model

| member | source | states |
|---|---|---|
| GridLogic.ToggleFlag | minesweeper/src/logic/grid.js:45-51 | HIDDEN becomes FLAGGED, FLAGGED becomes HIDDEN, a REVEALED cell is unchanged; type and degree are kept |
| GridLogic.ToggleFlagTwice | minesweeper/src/logic/grid.js:45-51 | toggling twice gives the cell back, whatever its state |
| GridLogic.GridClass.constructor | minesweeper/src/logic/grid.js:63-72 | the dimensions and mine count are stored, the counters are 0, the game is not over, the invariant holds, every cell is HIDDEN, and a cell is MINE exactly when its position is in `Placed(draws, mines)`, which makes `mines` mines, all at drawn positions |
| GridLogic.GridClass.GenerateGrid | minesweeper/src/logic/grid.js:74-100 | a height x width grid of HIDDEN cells that are MINE exactly at the positions in `Placed(draws, mines)`, `mines` of them, and every degree equal to the mine count of its clipped window |
| GridLogic.GridClass.LaySafeCells | minesweeper/src/logic/grid.js:75-81 | `height` rows of `width` fresh SAFE, HIDDEN, degree-0 cells |
| GridLogic.GridClass.PlaceMines | minesweeper/src/logic/grid.js:83-92 | a cell becomes MINE exactly when its position is in `Placed(draws, mines)`, the distinct positions of the shortest prefix of the draws that has `mines` of them; that makes `mines` mines; states and degrees untouched |
| GridLogic.PlacedFrom | minesweeper/src/hooks/useGrid.ts:15-18 | the rejection loop from draw `k` on, as a function: it keeps what it has and adds only values drawn from `k` on |
| GridLogic.Placed | minesweeper/src/logic/grid.js:85-92 | every placed mine is one of the draws |
| GridLogic.MinesFromStep | minesweeper/src/logic/grid.js:85-92 | a draw on a SAFE cell places a new mine and raises the count by one; a draw on a MINE is rejected and changes nothing |
| GridLogic.GridClass.SetDegrees | minesweeper/src/logic/grid.js:94-99 | afterwards every degree is the mine count of its clipped window; types and states untouched |
| GridLogic.NewCell | minesweeper/src/logic/grid.js:15-19 | a new cell is HIDDEN, of the given type, with degree 0 |
| GridTypes.Cell.Reveal | minesweeper/src/logic/grid.js:41-43 | the state becomes REVEALED whatever it was; type and degree are kept |
| GridLogic.SetDegree | minesweeper/src/logic/grid.js:57-59 | the degree is replaced; type and state are kept |
| GridLogic.SetDegreeStep | minesweeper/src/logic/grid.js:97 | setting the degree of (x, y) to `getDegree` extends the set of correct degrees by that cell and changes nothing else |
| Board.Neighbors | minesweeper/src/logic/grid.js:102-121 | at most eight positions, each on the grid, inside the 3x3 window and different from (x, y) |
| Board.NeighborsSpec | minesweeper/src/logic/grid.js:106-119 | the positions come in x_delta-outer, y_delta-inner order, without repetition, and every on-grid cell of the window other than (x, y) is among them |
| Board.NeighborsSymmetric | minesweeper/src/logic/grid.js:106-115 | b is a neighbour of a exactly when a is a neighbour of b |
| Board.CollectNeighbors | minesweeper/src/hooks/useGrid.ts:63-78 | the neighbour-collecting double loop (also `grid.js:104-120`) yields exactly `Neighbors` |
| GridRules.GetNeighbors | minesweeper/src/logic/grid.js:102-121 | at most eight cells |
| GridRules.GetDegree | minesweeper/src/logic/grid.js:123-126 | the mines counted along `getNeighbors` are the mines of the clipped window, at most 8 |
| Board.NeighborCountIsAroundSet | minesweeper/src/logic/grid.js:123-126 | counting a predicate along the neighbour list gives the size of the set of window cells satisfying it |
| GridRules.ZeroDegreeNeighborsSafe | minesweeper/src/logic/grid.js:166-172 | every neighbour of a cell of degree 0 is safe, so a cascade never opens a mine |
| GridRules.FlaggedNeighbors | minesweeper/src/logic/grid.js:144 | the FLAGGED cells counted along `getNeighbors` are the FLAGGED cells of the clipped window, at most 8 |
| GridRules.ChordVisit | minesweeper/src/logic/grid.js:147-154 | one neighbour of the chord: only a HIDDEN cell can become REVEALED; types and degrees are kept |
| GridRules.ChordFrom | minesweeper/src/logic/grid.js:146-155 | the chord's `forEach` only turns HIDDEN cells REVEALED and keeps types and degrees |
| GridRules.ChordEffect | minesweeper/src/logic/grid.js:144-156 | a chord reveals exactly the HIDDEN cells of the window, adds their number to `revealedCells`, ends the game exactly when one is a mine, and leaves FLAGGED cells and all other cells alone |
| GridRules.ChordFromSoFar | minesweeper/src/logic/grid.js:146-155 | the `forEach` of the chord, from any step on, completes the reveal-and-count of every HIDDEN neighbour |
| GridRules.ChordKeepsConsistent | minesweeper/src/logic/grid.js:144-156 | a chord keeps the grid's invariant |
| GridRules.Branch | minesweeper/src/logic/grid.js:128-157 | the guards in the source's order: the reveal path is taken exactly on a HIDDEN safe cell, the FLAGGED guard exactly on a FLAGGED safe cell, the mine guard on any mine but a REVEALED empty one, and a chord branch exactly on a REVEALED safe cell of degree other than 0 |
| GridRules.Primary | minesweeper/src/logic/grid.js:128-181 | a click only turns HIDDEN cells REVEALED and keeps types and degrees |
| GridRules.RevealFrom | minesweeper/src/logic/grid.js:159-180 | the reveal path only turns HIDDEN cells REVEALED and keeps types and degrees |
| GridRules.CascadeFrom | minesweeper/src/logic/grid.js:166-172 | the cascade only turns HIDDEN cells REVEALED and keeps types and degrees |
| GridRules.PrimarySpec | minesweeper/src/logic/grid.js:128-181 | branch by branch: a REVEALED empty cell or a FLAGGED safe cell changes nothing; a mine only sets `gameOver`; the chord as in ChordEffect, with no win test; an unsatisfied chord only raises `revealedCells` by one, with the win test; opening a HIDDEN safe cell reveals it, opens the board, reveals only cells next to a newly revealed empty cell besides itself, ends the game only if the counter passes `width*height - mines` on the way, and ends it when the counter finishes exactly there; `gameOver` stays set and `revealedCells` never goes down |
| GridRules.RevealSpec | minesweeper/src/logic/grid.js:159-180 | the reveal path: the cell is REVEALED and counted; a mine ends the game at once; a degree other than 0 changes that cell only; a HIDDEN safe cell opens the board, and every other cell it reveals lies next to a newly revealed cell of degree 0; the game ends on the way only if the counter passes `width*height - mines`, and it ends when the counter finishes exactly at that target |
| GridRules.WinCheck | minesweeper/src/logic/grid.js:176-179 | `gameOver` becomes set exactly when `revealedCells` equals `width*height - mines`; nothing else changes |
| GridRules.RevealCounted | minesweeper/src/logic/grid.js:160-161 | revealing a non-FLAGGED cell keeps the degrees, removes one HIDDEN cell if it was HIDDEN, and counts the cell a second time if it was already REVEALED |
| GridRules.CascadeSpec | minesweeper/src/logic/grid.js:166-172 | the cascade over safe neighbours opens each still-HIDDEN one; afterwards none of them is HIDDEN, only safe cells were revealed, every newly revealed cell of degree 0 has no HIDDEN neighbour, and the counter runs in step |
| GridRules.CascadeOpensOne | minesweeper/src/logic/grid.js:169-170 | clicking one HIDDEN safe neighbour opens the board further and never adds HIDDEN cells, which is why the recursion terminates |
| Board.ReachedTransitive | minesweeper/src/logic/grid.js:166-172 | two steps of a cascade, each reaching only its roots and cells next to newly revealed empty cells, together reach only the union of their roots and such cells |
| Board.ReachedAround | minesweeper/src/logic/grid.js:166-172 | a cascade rooted at the neighbours of a newly revealed empty cell reaches only that cell and cells next to newly revealed empty cells |
| Board.ReachedFromReveal | minesweeper/src/logic/grid.js:159-172 | revealing an empty HIDDEN cell and cascading over its neighbours reveals, besides the cell, only cells next to a newly revealed empty cell |
| Board.OneMineDegrees | minesweeper/src/logic/grid.js:94-99 | on a board with a single mine, degrees of 1 around it and 0 elsewhere are the degrees `generateGrid` computes |
| GridRules.PrimaryKeepsConsistent | minesweeper/src/logic/grid.js:128-181 | a primary click keeps the grid's invariant |
| GridRules.UnsatisfiedChordEndsGame | minesweeper/src/logic/grid.js:145-179 | on a row of a REVEALED cell of degree 1, a HIDDEN mine and a HIDDEN safe cell, clicking the first cell counts it again and sets `gameOver` with the safe cell still HIDDEN |
| GridRules.ChordMissesWin | minesweeper/src/logic/grid.js:143-156 | on a row of a FLAGGED mine, a REVEALED cell of degree 1 and a HIDDEN safe cell, with the counter at 1, the chord on the middle cell reveals the last safe cell and brings the counter to `3*1 - 1`, yet `gameOver` stays false |
| GridRules.OverCountMissesWin | minesweeper/src/logic/grid.js:159-180 | on a row of a HIDDEN mine, a REVEALED cell of degree 1 counted twice and two HIDDEN empty cells, a click on the last cell cascades, takes the counter from 2 past the target `4*1 - 1` to 4, and the game does not end |
| GridLogic.Secondary | minesweeper/src/logic/grid.js:183-196 | a REVEALED cell changes nothing; otherwise only that cell is toggled, `flaggedMines` moves by +1 or -1 to match the new state, and the difference between `flaggedMines` and the FLAGGED count is kept |
| GridLogic.SecondaryTwice | minesweeper/src/logic/grid.js:183-196 | flag then unflag (or the reverse) restores both the cells and `flaggedMines` |
| GridLogic.GridClass.PrimaryInteraction | minesweeper/src/logic/grid.js:128-181 | the new state is `Primary` of the old; the invariant is kept and `flaggedMines` is untouched |
| GridLogic.GridClass.RevealHiddenNeighbors | minesweeper/src/logic/grid.js:146-155 | the chord loop computes `ChordFrom` over the neighbours |
| GridLogic.GridClass.RevealIfHidden | minesweeper/src/logic/grid.js:147-154 | the chord callback reveals and counts a HIDDEN neighbour and ends the game on a mine |
| GridLogic.GridClass.RevealAndCascade | minesweeper/src/logic/grid.js:159-180 | the new state is `RevealFrom` of the old, with the invariant kept |
| GridLogic.GridClass.RevealCell | minesweeper/src/logic/grid.js:160-161 | the cell is REVEALED, `revealedCells` rises by one, and the HIDDEN count falls if the cell was HIDDEN |
| GridLogic.GridClass.Cascade | minesweeper/src/logic/grid.js:166-173 | the cascade loop computes `CascadeFrom` over the neighbours, with the invariant kept |
| GridLogic.GridClass.CascadeVisit | minesweeper/src/logic/grid.js:168-172 | a HIDDEN neighbour gets a primary click; any other is left alone |
| GridLogic.GridClass.CheckForWin | minesweeper/src/logic/grid.js:176-179 | the win test as `WinCheck` |
| GridLogic.GridClass.SecondaryInteraction | minesweeper/src/logic/grid.js:183-196 | the cells and `flaggedMines` become `Secondary` of the old ones; `revealedCells` and `gameOver` are untouched; the invariant is kept |
| UseGrid.CreateCell | minesweeper/src/hooks/useGrid.ts:132-137 | a HIDDEN cell that is a MINE exactly when `mine` holds, carrying the given degree |
| UseGrid.FlipFlag | minesweeper/src/hooks/useGrid.ts:145 | the closure keeps type and degree and changes whether the cell is FLAGGED |
| UseGrid.FlipFlagUnrevealed | minesweeper/src/hooks/useGrid.ts:145 | on a cell that is not REVEALED the closure is `CellClass.toggleFlag`, and two flips restore the cell |
| UseGrid.FlipFlagRevealed | minesweeper/src/hooks/useGrid.ts:145 | on a REVEALED cell the closure would flag it and a second flip would hide it, so the guard of `toggleFlag` is needed |
| UseGrid.Decode | minesweeper/src/hooks/useGrid.ts:22-23 | the column lies in [0, width) and the position encodes back to the index |
| UseGrid.DecodeInBounds | minesweeper/src/hooks/useGrid.ts:21-24 | every index in [0, width*height) decodes to an on-grid (p % width, p / width) that encodes back to it |
| UseGrid.EncodeInRange | minesweeper/src/hooks/useGrid.ts:21-24 | every grid position encodes to an index in [0, width*height) that decodes back to it |
| UseGrid.DecodeInjective | minesweeper/src/hooks/useGrid.ts:21-24 | distinct indices decode to distinct cells |
| UseGrid.PlacedSize | minesweeper/src/hooks/useGrid.ts:15-18 | with enough distinct draws the set ends with exactly `mines` indices (none for a negative count), all on the grid |
| UseGrid.MineMatrix | minesweeper/src/hooks/useGrid.ts:19-25 | the matrix marks exactly the decoded positions of the set, and has as many `true` entries as the set has indices |
| UseGrid.MarkStep | minesweeper/src/hooks/useGrid.ts:21-25 | marking a new index sets one more entry, on the grid |
| UseGrid.ClampedDegree | minesweeper/src/hooks/useGrid.ts:28-40 | the clamped double loop counts the mines of the clipped 3x3 window other than (x, y): at most 8 |
| UseGrid.MarkedStep | minesweeper/src/hooks/useGrid.ts:33-38 | one inner step counts the cell if it is marked and is not (x, y) |
| UseGrid.BuildCells | minesweeper/src/hooks/useGrid.ts:27-43 | every cell comes from `createCell` with its matrix entry and clamped degree |
| UseGrid.CellsOfFacts | minesweeper/src/hooks/useGrid.ts:27-43 | the built board has every degree right, as many MINE cells as the matrix marks, and every cell HIDDEN |
| UseGrid.HookReveal | minesweeper/src/hooks/useGrid.ts:47-107 | `revealCell` only turns HIDDEN cells REVEALED and keeps types and degrees |
| UseGrid.HookRevealSpec | minesweeper/src/hooks/useGrid.ts:47-107 | a REVEALED empty cell, a FLAGGED cell, or a REVEALED cell whose flag count differs from its degree changes nothing; the chord reveals exactly the HIDDEN neighbours, counts them and ends the game exactly when one is a mine; a HIDDEN cell is revealed alone, counted once, and ends the game exactly when it is a mine; `gameOver` stays set and `revealedCells` never goes down |
| UseGrid.HookRevealKeepsExact | minesweeper/src/hooks/useGrid.ts:47-107 | `revealCell` keeps `revealedCells` equal to the REVEALED count, `flaggedCells` equal to the FLAGGED count, and the degrees right |
| UseGrid.HookFlag | minesweeper/src/hooks/useGrid.ts:109-122 | `toggleFlag` keeps every type and degree |
| UseGrid.HookFlagIsSecondary | minesweeper/src/hooks/useGrid.ts:109-122 | the hook's `toggleFlag` is `secondaryInteraction`: a REVEALED cell is untouched, HIDDEN and FLAGGED flip with a matching +1 or -1, and two toggles restore the state |
| UseGrid.HookFlagKeepsExact | minesweeper/src/hooks/useGrid.ts:109-122 | `toggleFlag` keeps the hook's invariant |
| UseGrid.GridHook.constructor | minesweeper/src/hooks/useGrid.ts:7-10 | the first render with its `initializeGrid` effect: counters 0, not over, the invariant holds, every cell HIDDEN, and the mines exactly at the placed indices |
| UseGrid.GridHook.InitializeGrid | minesweeper/src/hooks/useGrid.ts:12-45 | a height x width board of HIDDEN cells, MINE exactly at the indices the placement loop chose, `max(mines, 0)` mines, and every degree right |
| UseGrid.GridHook.RevealCell | minesweeper/src/hooks/useGrid.ts:47-107 | the new state is `HookReveal` of the old; the invariant is kept and `flaggedCells` is untouched |
| UseGrid.GridHook.RevealHiddenNeighbors | minesweeper/src/hooks/useGrid.ts:87-96 | the chord's `forEach` computes `ChordFrom` |
| UseGrid.GridHook.RevealNeighbor | minesweeper/src/hooks/useGrid.ts:88-95 | one chord step reveals and counts a HIDDEN neighbour and ends the game on a mine |
| UseGrid.GridHook.ToggleFlag | minesweeper/src/hooks/useGrid.ts:109-122 | the cells and `flaggedCells` become `HookFlag` of the old ones; the rest is untouched; the invariant is kept |
| CascadeFinding.RevealAsWritten | minesweeper/src/logic/grid.js:159-180 | the reveal as written: the cell is REVEALED and counted whatever happens, a mine returns with `gameOver` set, and a throw leaves `gameOver` as it was |
| CascadeFinding.CascadeAsWritten | minesweeper/src/logic/grid.js:166-172 | the cascade as written changes nothing and throws exactly when a HIDDEN neighbour lies ahead |
| CascadeFinding.AsWrittenThrows | minesweeper/src/logic/grid.js:159-172 | the reveal as written throws exactly on a safe degree-0 cell with a HIDDEN neighbour, leaving only that cell REVEALED and counted, and `gameOver` untouched |
| CascadeFinding.CascadeNothingHidden | minesweeper/src/logic/grid.js:166-172 | a cascade over neighbours none of which is HIDDEN changes nothing |
| CascadeFinding.AsWrittenAgrees | minesweeper/src/logic/grid.js:159-180 | whenever the reveal as written returns, it returns what the intended reveal computes |
| CascadeFinding.EmptyRowThrows | minesweeper/src/logic/grid.js:170 | on a two-cell row without mines, clicking the left cell throws as written, with the right cell still HIDDEN and the game not over; the intended reveal opens both cells and wins |

## Left out

- React's `useState`, `useCallback` and `useEffect`, re-rendering, stale closures and batched state updates are not modelled. Each `setX(prev => prev + 1)` is an immediate increment of a field, and the in-place mutation of `cells` without `setCells` is taken at face value.
- The `console.log` calls of `useGrid.ts` are not modelled: they are output only.
- `Math.random` is replaced by a sequence of draws given to the constructors.
- Termination of the placement loops depends on the draws. With fewer than `mines` distinct draws, or `mines > width*height`, the source loops forever. The constructors and `GenerateGrid`/`InitializeGrid` therefore require enough distinct draws.
- Object identity, for example in `getNeighbors`, is not modelled. `getNeighbors` returns cell objects; the model returns their coordinates (`Board.Neighbors`) and reads the cells through them (`GridRules.GetNeighbors`), which is the same since no cell is shared between slots.
- `getNeighbors` and `getDegree` of `GridClass` are functions. Their loop is proved once, as `Board.CollectNeighbors`, which `revealCell`'s copy of the loop calls.
- `GridLogic.GridClass.PrimaryInteraction` is split into helper methods: the chord loop, the reveal, the cascade loop with its per-neighbour step, and the win test. Each helper keeps the statements of the source in their order.
- The rendering files and the interfaces in `grid.types.ts` are not part of this model; the enumerations are mirrored in `GridTypes`.
- GridRules.CascadeSpec: the bound on what a cascade reveals (`Board.Reached`) is local: each newly revealed cell is a root or lies next to a newly revealed empty cell. That these empty cells form a path back to the clicked cell is not stated, because the model has no notion of paths on the grid.
- GridRules.RevealSpec: bounds the cascade with the same local `Board.Reached` as `GridRules.CascadeSpec`; that the empty cells it passes through connect back to the clicked cell is not stated, for the same reason.
- GridRules.PrimarySpec: its opening branch carries the bound of `GridRules.RevealSpec` and leaves out the same connectivity, for the same reason.
- GridLogic.GridClass.constructor: `width`, `height` and `mines` are `nat`, while the source takes any number. A negative count places no mine in the source; a negative dimension with a positive count makes it index outside the grid. Neither is modelled.
- UseGrid.CellsOf: a specification predicate with no contract of its own; what it means is stated by `UseGrid.BuildCells` and `UseGrid.CellsOfFacts`.
- Each draw of `generateGrid` is one coordinate, standing for the pair of `Math.floor(Math.random() * n)` values; the precondition keeps every draw on the grid, as those expressions do.

## Findings

| source | as written | input that shows it | evidently intended | confidence | as-written member | corrected member |
|---|---|---|---|---|---|---|
| minesweeper/src/logic/grid.js:170 | the cascade calls `this.primaryInteraction(cell.x, cell.y)`, but a `CellClass` has no `x` or `y` field, so `this.cells[undefined][undefined]` throws a TypeError at the first HIDDEN neighbour; the click stops after revealing only the clicked cell and skips the win test | a 2x1 grid without mines, primary click on (0, 0) | click every HIDDEN neighbour at its own coordinates, as the comment at line 159 says | high, not executed | CascadeFinding.RevealAsWritten, CascadeFinding.EmptyRowThrows | GridRules.RevealFrom, GridRules.RevealSpec |
