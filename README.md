# pipes — a verified model of the pipe-puzzle engine

This project models the game engine of `pipes`, a puzzle on a rectangular
grid. Every cell holds a pipe tile. A tile is a bit mask with bit 0 for Up,
bit 1 for Left, bit 2 for Down and bit 3 for Right. After a delay a flow
starts at the start cell and advances tile by tile. It always takes the first
open side among straight on, a left turn and a right turn. The player rotates
tiles with the mouse. The game is lost when the flow leaves the board or runs
into a tile that is closed on the side it enters by.

The model follows `src/Pipes.js` and the test page `test/testPath.js`:

- `pipe_mask.dfy` (modules `Wrappers`, `PipeMask`) covers the following:
  - the tile tables `PlaceablePipes`, `StartPipes` and `Direction`;
  - `rotatePipe` exactly as written, on 32-bit integers (`RotatePipe`);
  - the masked rotation the rest of the model uses (`RotateMasked`);
  - the first exit of the start tile, `Math.log2(tile & -tile)` (`LowestSide`).
- `grid.dfy` (module `Grid`) covers the board geometry:
  - `inBounds` and `indexAt`;
  - the `offset` table (`OffsetCol`, `OffsetRow`, `Move`);
  - the start placement `floor(dim * (0.25 + 0.5 * r))`.
- `flow.dfy` (module `Flow`) covers the flow walk of `Board.update`, as a pure function:
  - `StepFrom` takes one step, `Advance` takes `n` steps, and `Walk` starts from the start cell;
  - `StepCount` gives the number of loop iterations for a flow length;
  - the walk ends in one of three outcomes: `Flowing`, `Defeated`, or `NoExit`.
  `NoExit` is the case where the program throws inside `addPath` because `offset[end]` is `undefined`.
- `maze.dfy` (module `Maze`) covers `generateMaze` as functions of its random draws:
  - the carve loop: `CarveFrom` and `Carve`;
  - the cleanup: `Finish`, `Cleaned` and `MazeTiles`.
- `board.dfy` (module `Pipes`) is the `Board` class. It has the fields `map`
  (`tiles`), `start`, `end`, `timeUntilFlow`, `flowSpeedMultiplier`,
  `flowLength`, `#flowPath` and `defeat`, and the imperative methods
  `Reset`, `GenerateMaze`, `Update` and `PlayerInput`. Each method is proved
  against the functions above.
- `path_test.dfy` (module `PathTest`) covers `test/testPath.js`:
  - the hand-built 10 by 7 map and its flow, with a trace of the whole walk;
  - the `canvas.draw` loop as a method (`Scene.DrawFlow`) proved equal to `Flow.Walk`;
  - the keydown placement (`Scene.KeyDown`).

`Math.random()` is never called. Each draw the program makes is a parameter
instead:
- `ResetDraw` holds the draws of `reset`;
- `MazeDraw` holds the draws of `generateMaze`;
- the keydown handler takes the mouse cell as a parameter.

Three behaviours of the code shape the model:

- **`end` when the carve loop hits its cap.** `end` is assigned only when
  the carve loop breaks (src/Pipes.js:137). After 100 iterations without a
  break, `end` keeps its old value, or stays `undefined`, and the cleanup's
  read of `this.end[0]` (line 160) then throws. `Board.GenerateMaze`
  therefore requires that the carve breaks or that `end` is already set.
  `Maze.SmallBoardCarveBreaks` proves that the carve always breaks on boards
  of at most 100 cells.
- **A dead end in the walk.** A tile that is open only on its entry side
  makes `find` return `undefined` (src/Pipes.js:211-215). The next `addPath`
  then throws, and `defeat` is never set. The model gives this its own
  outcome, `NoExit`. `Board.Update` reports it through `faulted`.
- **The cleanup scrambles the carved path.** The cleanup rotates every cell
  except `start` and `end` (src/Pipes.js:157-165), and that includes the
  inner cells of the carved path. So the model proves only what the code
  keeps: the carved path is self-avoiding, `start` and `end` keep their
  single carved side, and no cell is empty or a three-way piece.
- **Rotation.** The code's `rotatePipe` does not mask its result. See "## Findings".

## Model

| member | source | states |
|---|---|---|
| `PipeMask.BitIsShift` | src/Pipes.js:20-25 | The `Direction` bit of each side is `1 << side`, the test the walk uses. |
| `PipeMask.HasSideIsBitTest` | src/Pipes.js:206 | The side test is exactly `tile & (1 << side) != 0`. |
| `PipeMask.PlaceablePipesAreTwoSidedOrCross` | src/Pipes.js:3-11 | A tile is placeable iff it is a four-bit mask with two open sides, or the cross. |
| `PipeMask.StartPipesAreOneSided` | src/Pipes.js:13-18 | A tile is a start piece iff it is a four-bit mask with exactly one open side. |
| `PipeMask.RotatePipeOnNibble` | src/Pipes.js:315-317 | On a four-bit tile, the as-written rotation moves each side `s` to side `s + turns` (mod 4). It stays below 128, is nonzero iff the input is, and keeps a stale copy above bit 3: `0b0011` turned 3 times is `0b11001`. |
| `PipeMask.RotatePipeNonZero` | src/Pipes.js:315-317 | The as-written rotation never turns a nonzero tile into 0. |
| `PipeMask.ClickThenUnclickRestoresSides` | src/Pipes.js:292-300 | With the as-written rotation, a left click then a right click (and the reverse) restores the low nibble of a four-bit tile. |
| `PipeMask.RotatePipeConsistentNibble` | src/Pipes.js:315-317 | When every high bit of a tile copies a side bit, the as-written rotation's low nibble is the masked rotation of the tile's low nibble. |
| `PipeMask.RotatePipeKeepsConsistent` | src/Pipes.js:315-317 | While bit 31 is clear, the as-written rotation keeps every high bit a copy of a side bit. |
| `PipeMask.RotatePipeKeepsBitCount` | src/Pipes.js:315-317 | Under that invariant, the as-written rotation keeps the number of open sides. |
| `PipeMask.FourBitTileIsConsistent` | src/Pipes.js:3-18 | Every four-bit tile satisfies the invariant and has bit 31 clear. |
| `PipeMask.TwentyClicksMakeACross` | src/Pipes.js:315-317 | As written, 10 left clicks then 10 right clicks on `0b0011` give `0xFFFFFFFF`, which shows four open sides. |
| `PipeMask.RotateMaskedIsCyclic` | src/Pipes.js:315-317 | The masked rotation of a four-bit tile is four-bit, and side `s` becomes side `s + turns` (mod 4). |
| `PipeMask.RotateMaskedCompose` | src/Pipes.js:315-317 | Masked rotations compose by adding their turns modulo 4. |
| `PipeMask.RotateMaskedIdentities` | src/Pipes.js:292-296 | Zero turns, and a left click followed by a right click (either order), give the tile back. |
| `PipeMask.RotateMaskedKeepsBitCount` | src/Pipes.js:315-317 | The masked rotation keeps the number of open sides. |
| `PipeMask.ClicksMaskedRotateByTotal` | src/Pipes.js:292-300 | `n` masked clicks of `turns` each rotate a four-bit tile by `turns * n` mod 4. |
| `PipeMask.TwentyMaskedClicksRestore` | src/Pipes.js:292-300 | With the mask, the same twenty clicks on `0b0011` give `0b0011` back. |
| `PipeMask.LowestSide` | src/Pipes.js:188 | There is a first exit iff the low nibble is nonzero. The exit is an open side, and no lower side is open. |
| `PipeMask.LowestSideIsLowestBit` | src/Pipes.js:188 | The first exit is the bit that `tile & -tile` isolates. |
| `Grid.IndexInRange` | src/Pipes.js:304-312 | A cell that passes `inBounds` has `indexAt` in `[0, cols * rows)`. |
| `Grid.IndexAtInjective` | src/Pipes.js:304-308 | Two cells on the board share an index iff they are the same cell. |
| `Grid.CellAtIndexAt` | src/Pipes.js:304-308 | Division and remainder by `cols` recover the cell from its index. |
| `Grid.IndexAtCellAt` | src/Pipes.js:304-308 | Every index in `[0, cols * rows)` is the index of exactly one cell on the board. |
| `Grid.PutAt` | src/Pipes.js:300 | Writing one cell's entry of `map` leaves every other cell's entry unchanged. |
| `Grid.MoveOpposite` | src/Pipes.js:338-343 | An `offset` move and the move across the opposite side `(s + 2) % 4` cancel, and no move stays in place. |
| `Grid.SideToward` | src/Pipes.js:98-103 | The side of `a` toward `b` is the unique side whose `offset` move reaches `b`. |
| `Grid.CentralFromDraw` | src/Pipes.js:54-57 | Every draw in `[0, 1)` places the start at a coordinate `v` with `dim/4 - 1 < v < 3*dim/4`. |
| `Grid.CentralHasDraw` | src/Pipes.js:54-57 | Every such coordinate is reached by some draw in `[0, 1)`. |
| `Grid.CentralInBounds` | src/Pipes.js:54-57 | Such a coordinate lies on the board. |
| `Flow.NextExit` | src/Pipes.js:211-215 | The chosen exit is open and is not the entry. When the straight side is open, it is chosen, and the right turn is chosen only when the left turn is closed. |
| `Flow.NoExitWhenOnlyEntryOpen` | src/Pipes.js:211-215 | `find` finds no exit iff every side other than the entry is closed. |
| `Flow.TwoSidedTileExitsThroughOtherSide` | src/Pipes.js:211-215 | A two-sided tile entered through one open side is left through the other. |
| `Flow.CrossGoesStraight` | src/Pipes.js:211-215 | The cross is passed straight through from every side. |
| `Flow.StepFrom` | src/Pipes.js:193-215 | A step moves to the `offset` neighbor of the cell. It is a defeat iff that neighbor is off the board or closed on the entry side. Otherwise it continues through an open side other than the entry, or ends with no exit. |
| `Flow.Look` | src/Pipes.js:193-215 | One loop iteration over the tile array (bounds test before `indexAt`, entry test, exit choice) gives exactly `StepFrom`. The loop of `canvas.draw` in test/testPath.js has the same body. |
| `Flow.Advance` | src/Pipes.js:192-218 | `n` steps enter at most `n` cells, all on the board. They keep flowing iff they enter exactly `n` cells. |
| `Flow.Walk` | src/Pipes.js:185-218 | The walk from `start` enters at most `n` cells, all on the board. It is still flowing iff it took all `n` steps and the start tile has an open side. |
| `Flow.StepCountCountsIterations` | src/Pipes.js:192 | For `i >= 1`, the loop test `i < flowLength` holds iff `i <= StepCount(flowLength)`. |
| `Flow.NoStepUpToOne` | src/Pipes.js:192 | While `flowLength <= 1`, the loop takes no step, so no defeat can happen. |
| `Flow.WalkFollowsPipes` | src/Pipes.js:197-209 | Each step of the walk passes between neighboring cells whose facing sides are both open. |
| `Flow.AdvanceFollowsPipes` | src/Pipes.js:197-209 | The same property, for `n` steps from any cell left through an open side. |
| `Flow.AdvanceExtends` | src/Pipes.js:192-218 | The cells of a shorter walk are a prefix of the cells of a longer one. |
| `Flow.AdvanceSettles` | src/Pipes.js:192-218 | Once the walk has stopped (defeat or fault), more steps change nothing. |
| `Flow.WalkExtends` | src/Pipes.js:177-218 | When the flow grows, the drawn path only grows, and a finished walk stays finished. |
| `Maze.DirectionBitMove` | src/Pipes.js:110-132 | The four `if`s mark side `s` on the cell left and the opposite side on the cell entered, agreeing with `offset`. |
| `Maze.OpenNeighbors` | src/Pipes.js:98-103 | The filtered neighbors are exactly the up, left, down and right neighbors that are on the board and not yet visited. |
| `Maze.PaintAt` | src/Pipes.js:110-132 | A carve step changes the tiles of the two linked cells and no other tile. |
| `Maze.CarveFrom` | src/Pipes.js:91-147 | The carve only extends the path, never beyond the cap of 100 iterations, and keeps the length of `map`. |
| `Maze.CarveFromMoves` | src/Pipes.js:105-134 | An iteration that finds an open neighbor moves to the drawn neighbor, which is on the board, and links the two cells. |
| `Maze.CurrentPipeIsEmptyOrOneSided` | src/Pipes.js:105 | At the test on line 105 the current tile is always empty (on the first iteration only) or a one-sided start piece. |
| `Maze.StepTarget` | src/Pipes.js:98-106 | The neighbor a carve step moves to is on the board and not yet on the path. |
| `Maze.StepKeepsShape` | src/Pipes.js:105-134 | A carve step to a fresh neighbor keeps the path self-avoiding and connected. Each path cell carries exactly the bits toward its path neighbors, and every other cell is empty. |
| `Maze.StepKeepsVisited` | src/Pipes.js:92-93 | After the current cell is marked, the visited cells are exactly the cells of the path. |
| `Maze.CarveStepKeepsInv` | src/Pipes.js:91-135 | One carve iteration that moves keeps the carve's loop invariant. |
| `Maze.StuckWhenNoNeighbor` | src/Pipes.js:98-105 | When no neighbor passes the filter, every neighbor of the current cell is off the board or on the path. |
| `Maze.CarveFromResult` | src/Pipes.js:91-147 | From any state that satisfies the invariant, the carve ends with a carved shape. It breaks iff it stops before the cap, and then every neighbor of its last cell is off the board or on the path. |
| `Maze.CarveStartInv` | src/Pipes.js:86-89 | The all-zero map with nothing visited and the path `[start]` satisfies the invariant. |
| `Maze.CarveShape` | src/Pipes.js:86-147 | The whole carve: a self-avoiding path from `start` of neighboring cells with matching bit pairs. It breaks (setting `end`) iff it stops before the cap, and only where it is stuck. |
| `Maze.DistinctCellsFit` | src/Pipes.js:86-103 | A self-avoiding path on the board has at most `cols * rows` cells. |
| `Maze.SmallBoardCarveBreaks` | src/Pipes.js:91-147 | On a board of at most 100 cells, the carve always breaks, so `end` is always set. |
| `Maze.CarvedTileSides` | src/Pipes.js:110-132 | A carved path gives its ends one open side each (a start piece) and its inner cells two open sides. |
| `Maze.CleanedAt` | src/Pipes.js:150-166 | The cleanup sets each cell from its own carved tile and draws: filled if empty, then rotated unless it is `start` or `end`. |
| `Maze.CarvedCellSides` | src/Pipes.js:86-147 | After the carve, every tile is four-bit and has zero, one or two open sides. |
| `Maze.FinishKeepsSides` | src/Pipes.js:155-165 | The cleanup of one cell gives a four-bit tile with one, two or four open sides. |
| `Maze.MazeHasNoEmptyTile` | src/Pipes.js:149-167 | After `generateMaze`, no cell of `map` is 0. |
| `Maze.MazeHasNoThreeWayTile` | src/Pipes.js:149-167 | After `generateMaze`, every tile is four-bit with one, two or four open sides, never three. |
| `Maze.BrokenCarveMoved` | src/Pipes.js:98-144 | On a board of two or more cells, a carve that breaks has taken at least one step. |
| `Maze.CleanedKeepsEnds` | src/Pipes.js:155-162 | The cleanup leaves a nonempty `start` or `end` cell exactly as the carve left it: neither filled nor rotated. |
| `Maze.CleanedCarveEnds` | src/Pipes.js:150-166 | After the cleanup of a carved shape stuck at its last cell, its first and last cells still hold only the side toward their neighbor on the path. |
| `Maze.BrokenCarveEnds` | src/Pipes.js:105-144 | A carved shape stuck at its last cell, on a board of two or more cells, has at least two cells, and its first and last cells each hold only the side toward their neighbor on the path. |
| `Maze.MazeStartAndEnd` | src/Pipes.js:71-168 | On a board of two or more cells, when the carve breaks (always, on boards of at most 100 cells), the final `start` and `end` tiles each hold the single side toward the path. |
| `Pipes.ResetTilesPieces` | src/Pipes.js:52-59 | After `reset`, the start cell holds a start piece with one open side, and every other cell holds a placeable piece. |
| `Pipes.ResetTilesArePieces` | src/Pipes.js:49-69 | Every tile `reset` deals is four-bit with one, two or four open sides. |
| `Pipes.MazeTilesArePieces` | src/Pipes.js:71-168 | Every tile `generateMaze` leaves is four-bit with one, two or four open sides. |
| `Pipes.ClickKeepsSides` | src/Pipes.js:292-300 | A click keeps a four-bit tile four-bit, with as many sides. A left click turns side `s` into `s + 3`, a right click into `s + 1`. A left click then a right click give the tile back. |
| `Pipes.AtLeastZero` | src/Pipes.js:175 | `Math.max(0, x)` is non-negative, at least `x`, and is either 0 or `x`. |
| `Pipes.Board.constructor` | src/Pipes.js:38-47 | A board without `map` is dealt by `reset`, and `end` stays undefined. |
| `Pipes.Board.Reset` | src/Pipes.js:49-69 | `map` is a fresh array equal to `ResetTiles`, and `start` is the drawn central cell. The delay is 10000, the multiplier 1, the flow length 0, `#flowPath` null, no defeat, `end` unchanged, and every tile a piece. |
| `Pipes.Board.GenerateMaze` | src/Pipes.js:71-168 | `map` is the carved and cleaned maze and `start` the drawn cell. `end` is the last carved cell when the carve breaks, and unchanged otherwise. Other fields are unchanged, and every tile is a piece. |
| `Pipes.Board.Carve` | src/Pipes.js:86-147 | The carve loop leaves `map` equal to `MazeCarve(...).tiles`, and sets `end` exactly when the loop breaks. |
| `Pipes.Board.CarveStep` | src/Pipes.js:92-146 | One loop iteration either advances `CarveFrom` by one cell or breaks with `map` unchanged. |
| `Pipes.Board.Link` | src/Pipes.js:110-132 | The four `if`s OR the matching bit pair onto the two cells, and onto no other cell. |
| `Pipes.Board.CleanUp` | src/Pipes.js:149-167 | The nested loops leave `map` equal to the cleanup of the carved map. |
| `Pipes.Board.CleanRow` | src/Pipes.js:151-166 | One row of the cleanup finishes exactly that row's cells. |
| `Pipes.Board.CleanCell` | src/Pipes.js:152-165 | One cell is filled if empty, then rotated unless it is `start` or `end`. |
| `Pipes.Board.PlayerInput` | src/Pipes.js:281-302 | After a defeat the board is reset. Otherwise only a board cell other than `start` and `end` changes, by `rotateFunc[buttons]`, and no other field changes. Every tile stays a piece. |
| `Pipes.Board.RotateAt` | src/Pipes.js:292-300 | The clicked entry of `map` becomes its rotation, and every tile stays a piece. |
| `Pipes.Board.Update` | src/Pipes.js:170-220 | A defeated board does not change. Otherwise the delay becomes `max(0, delay - dt)`. Once it is 0, the flow grows by `FlowSpeed * multiplier * dt`, and `#flowPath`, `defeat` and the fault are those of `Walk` with `StepCount(flowLength)` steps. `map`, `start` and `end` never change. |
| `Pipes.Board.RunFlow` | src/Pipes.js:185-218 | The imperative walk sets `#flowPath`, `defeat` and the fault exactly as `Walk(map, cols, rows, start, n)` does. |
| `PathTest.FixtureTilesAt` | test/testPath.js:13-25 | The twelve array writes give every cell the tile of the fixture table. |
| `PathTest.FixtureShape` | test/testPath.js:13-25 | Exactly twelve cells are nonempty. The start `(1,1)` holds `0b1000`, and every other nonempty cell is a placeable piece. |
| `PathTest.RouteStep` | test/testPath.js:74-97 | On the fixture, each of the first twelve steps enters the next cell of the route, and the thirteenth meets a closed side. |
| `PathTest.AdvanceAlong` | test/testPath.js:74-100 | On any map whose steps follow a route, `n` steps enter the route's next `n` cells and then stop in defeat. |
| `PathTest.FixtureWalk` | test/testPath.js:67-100 | The walk of the fixture is the first `n` route cells while `n <= 12`, and the whole route ending in defeat after that. |
| `PathTest.FirstLengthWalk` | test/testPath.js:5-100 | With `flow.length = 7.5` the loop runs for `i = 1..7` and draws (2,1), (2,2), (2,3), (3,3), (3,2), (4,2), (5,2) without a `break`. |
| `PathTest.CrossPassedTwice` | test/testPath.js:20-97 | The cross at (4,2) is entered twice: from the left at step 6, leaving right, and from the top at step 10, leaving down. |
| `PathTest.SliderLengths` | test/testPath.js:79-196 | For every slider length up to 18, the flow is still running iff the length is at most 13. Above 13, step 13 enters (5,2) from below. That cell is on the board but closed at the bottom, so the "Game over!" break is taken, never "Out of bounds!". |
| `PathTest.KeyToPipePlaceable` | test/testPath.js:212-222 | Every key's pipe is a placeable piece: two open sides or the cross. |
| `PathTest.PlacingKeepsShaped` | test/testPath.js:224-231 | Placing a keyed pipe keeps every non-start cell empty or placeable. |
| `PathTest.Scene.constructor` | test/testPath.js:5-25 | The page starts with the fixture map and length 7.5. |
| `PathTest.Scene.DrawFlow` | test/testPath.js:67-100 | The `canvas.draw` loop's cells and outcome equal `Flow.Walk` with `StepCount(flow.length)` steps, the walk `Board.RunFlow` also matches. |
| `PathTest.Scene.KeyDown` | test/testPath.js:224-234 | A keyed pipe is written into the cell under the mouse only when the mouse is on the board. Otherwise, and for any other key, `map` is unchanged. |

## Left out

- Rendering is not modelled: `draw`, `addPath`, `addCurve`, `drawPipe`, the
  `Path2D` objects and src/common/Grid.js. `#flowPath` is kept as the list of
  cells whose segments it holds.
- The fractional progress `Math.min(1, flowLength - i)` is left out. It only feeds `addPath`.
- Floating point is not modelled: `flowLength`, `timeUntilFlow` and
  `FlowSpeed * flowSpeedMultiplier * dt` are exact reals.
- `Math.random` and `randomFrom` are not modelled. They are caller-supplied
  draws, constrained by `ValidResetDraw` and `ValidMazeDraw`.
- `console.log` and the `stack` array of `generateMaze` are left out. The
  stack is pushed but never popped, and it has no observable effect.
- The constructor's `Object.assign(this, json)` merge is left out: restoring
  a saved board is not modelled. `Pipes.Board.constructor` models the fresh
  board, with its `cols` and `rows` given and `reset` called.
- The `#grid` field is left out. It only serves rendering.
- src/main.js (pointer plumbing and saved game state) is not part of this
  model. The test pages other than test/testPath.js are not part of it
  either. From test/testPath.js, the canvas, the slider and `pointerMove`
  are left out; the mouse cell is a parameter of `KeyDown`.
- Pipes.Board.PlayerInput: requires that `end` is set whenever there is no
  defeat and the click is not on `start`. The test `col == this.end[0]`
  (src/Pipes.js:288) throws while `end` is undefined. A board made by
  `new Board()` never sets `end`, since only `generateMaze` does, so on
  such a board every click off `start` throws there. That throw is not
  modelled.
- Pipes.Board.PlayerInput: requires `buttons < 4` where a click reaches
  `rotateFunc[buttons]`. With any other value the program calls `undefined`
  and throws, and that throw is not modelled.
- Pipes.Board.Update: the program also throws when the start tile has no
  open side, at the first `addPath`. Both throws are reported as `faulted`,
  with the fields as they stand at that point. The exception itself is not
  modelled.
- The board and the cleanup rotate with `RotateMasked`, the corrected
  rotation of the finding below. The code stores `rotatePipe`'s unmasked
  value (src/Pipes.js:164 and 300): one left click on `0b0011` stores
  `0b11001`. On a four-bit tile the two agree in the low nibble
  (`PipeMask.RotatePipeOnNibble`), and they keep agreeing there while bit 31
  stays clear (`PipeMask.RotatePipeConsistentNibble`). The members below
  state a bound `< 16`, or `Pieces()`, that holds for the corrected rotation
  only:
- Maze.FinishKeepsSides: the bound `< 16` holds for the masked cleanup only.
  The number of open sides is the same as written.
- Maze.CleanedAt: the per-cell rule rotates with the masked rotation.
- Maze.MazeHasNoEmptyTile: stated for the masked cleanup. No tile is 0 as
  written either.
- Maze.MazeHasNoThreeWayTile: the bound `< 16` holds for the masked cleanup
  only. The number of open sides is the same as written.
- Pipes.MazeTilesArePieces: every tile is a piece after the masked cleanup
  only.
- Pipes.Board.CleanUp: the map it ensures is that of the masked cleanup.
- Pipes.Board.CleanCell: the tile it ensures is that of the masked cleanup.
- Pipes.Board.GenerateMaze: its map and `Pieces()` are those of the masked
  cleanup.
- Pipes.ClickKeepsSides: "four-bit with as many sides" holds for the masked
  click only.
- Pipes.Board.RotateAt: the new entry and `Pieces()` are those of the masked
  click.
- Pipes.Board.PlayerInput: the new map and `Pieces()` are those of the
  masked click.

## Findings

| source | as written | input that shows it | evidently intended | confidence | as-written member | corrected member |
|---|---|---|---|---|---|---|
| src/Pipes.js:315-317 | `rotatePipe` ORs `pipe << turns` with `pipe >> (4 - turns)` and never masks the result to four bits. The result is written back into `map` (lines 164, 300), so stale copies of the sides climb up the 32-bit word. Once one reaches bit 31, the sign-propagating `>>` fills the low nibble with ones. | A `0b0011` tile clicked left 10 times and then right 10 times becomes `0xFFFFFFFF`, whose low nibble is the cross. Forty quarter turns should give back the corner. | A four-bit cyclic rotation, `(...) & 0b1111`. Then every click keeps the tile's number of sides, and any four clicks of one kind give the tile back. | not executed | `PipeMask.TwentyClicksMakeACross` | `PipeMask.TwentyMaskedClicksRestore` |

`PipeMask.RotatePipe` is the rotation as written. The lemmas about it show
that, on four-bit tiles and while bit 31 stays clear, its low nibble agrees
with the masked rotation `PipeMask.RotateMasked`
(`PipeMask.RotatePipeOnNibble`, `PipeMask.RotatePipeConsistentNibble`).
The board and the maze cleanup rotate with `RotateMasked`. With it,
`Pipes.Board.Pieces` holds after every operation: every tile is four-bit,
with one, two or four open sides.
