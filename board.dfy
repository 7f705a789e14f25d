/**
  The `Board` class of src/Pipes.js: the flat tile array (`map` in the
  program, `tiles` here, since `map` is a Dafny keyword), the start and end
  cells, the flow timers and the defeat flag, with the four operations that
  change them: `reset`, `generateMaze`, `update` and `playerInput`.

  Every `Math.random()` the program calls is a caller-supplied draw: a
  `ResetDraw` for `reset`, a `MazeDraw` for `generateMaze`. The rendering
  object `#flowPath` is kept as the cells whose flow segments it holds.
  Tiles are rotated with `RotateMasked`, the masked form of `rotatePipe`, so
  that every tile stays a piece (`Board.Pieces`).
*/
module Pipes {
  import opened Wrappers
  import opened PipeMask
  import opened Grid
  import opened Flow
  import opened Maze

  /** `FlowSpeed`: flow length gained per millisecond at multiplier 1. */
  const FlowSpeed: real := 0.0005

  /** `FlowDelay`: milliseconds before the flow starts. */
  const FlowDelay: real := 10000.0

  /**
    The draws of one `reset`: the index into `PlaceablePipes` of every cell,
    the start coordinates, and the index into `StartPipes` of the start tile.
  */
  datatype ResetDraw = ResetDraw(fills: seq<nat>, startCol: int, startRow: int, startPipe: nat)

  /**
    Draws `randomFrom` and the start placement can make: every index inside
    its table, and start coordinates `floor(dim * (0.25 + 0.5 * r))` for some
    `r` in `[0, 1)` (see `Grid.CentralFromDraw` and `Grid.CentralHasDraw`).
  */
  predicate ValidResetDraw(cols: int, rows: int, d: ResetDraw) {
    Central(cols, d.startCol) && Central(rows, d.startRow) &&
    |d.fills| == cols * rows && d.startPipe < |StartPipes| &&
    forall k :: 0 <= k < |d.fills| ==> d.fills[k] < |PlaceablePipes|
  }

  /** The map `reset` deals: a placeable pipe on every cell, then a start piece on `start`. */
  function ResetTiles(cols: int, rows: int, d: ResetDraw): (r: seq<Tile>)
    requires cols >= 1 && rows >= 1 && ValidResetDraw(cols, rows, d)
    ensures |r| == cols * rows
  {
    CentralInBounds(cols, d.startCol);
    CentralInBounds(rows, d.startRow);
    var dealt := seq(cols * rows, k requires 0 <= k < cols * rows => PlaceablePipes[d.fills[k]]);
    Put(dealt, cols, rows, Cell(d.startCol, d.startRow), StartPipes[d.startPipe])
  }

  /**
    After `reset` the start cell holds a start piece, a single open side, and
    every other cell a placeable piece, two open sides or the cross.
  */
  lemma ResetTilesPieces(cols: int, rows: int, d: ResetDraw, c: Cell)
    requires cols >= 1 && rows >= 1 && ValidResetDraw(cols, rows, d) && InBounds(cols, rows, c)
    ensures var t := At(ResetTiles(cols, rows, d), cols, rows, c);
      if c == Cell(d.startCol, d.startRow) then t in StartPipes && BitCount(t) == 1
      else t in PlaceablePipes && (BitCount(t) == 2 || t == 0xF)
  {
    CentralInBounds(cols, d.startCol);
    CentralInBounds(rows, d.startRow);
    var s := Cell(d.startCol, d.startRow);
    var dealt := seq(cols * rows, k requires 0 <= k < cols * rows => PlaceablePipes[d.fills[k]]);
    PutAt(dealt, cols, rows, s, StartPipes[d.startPipe], c);
    var t := At(ResetTiles(cols, rows, d), cols, rows, c);
    if c == s {
      StartPipesAreOneSided(t);
    } else {
      IndexInRange(cols, rows, c);
      assert t == PlaceablePipes[d.fills[IndexAt(cols, c)]];
      PlaceablePipesAreTwoSidedOrCross(t);
    }
  }

  /**
    A tile the game means to hold: four bits and one, two or four open sides
    (a start piece, a two-sided pipe or the cross), never empty and never a
    three-way piece.
  */
  predicate IsPiece(t: Tile) {
    t < 16 && (BitCount(t) == 1 || BitCount(t) == 2 || BitCount(t) == 4)
  }

  /** Every tile `reset` deals is a piece. */
  lemma ResetTilesArePieces(cols: int, rows: int, d: ResetDraw)
    requires cols >= 1 && rows >= 1 && ValidResetDraw(cols, rows, d)
    ensures forall k :: 0 <= k < cols * rows ==> IsPiece(ResetTiles(cols, rows, d)[k])
  {
    forall k | 0 <= k < cols * rows
      ensures IsPiece(ResetTiles(cols, rows, d)[k])
    {
      IndexAtCellAt(cols, rows, k);
      var c := CellAt(cols, k);
      ResetTilesPieces(cols, rows, d, c);
      PlaceablePipesAreTwoSidedOrCross(At(ResetTiles(cols, rows, d), cols, rows, c));
      StartPipesAreOneSided(At(ResetTiles(cols, rows, d), cols, rows, c));
    }
  }

  /** Every tile of a generated maze is a piece. */
  lemma MazeTilesArePieces(cols: int, rows: int, d: MazeDraw, end: Cell)
    requires cols >= 1 && rows >= 1 && ValidMazeDraw(cols, rows, d)
    ensures forall k :: 0 <= k < cols * rows ==> IsPiece(MazeTiles(cols, rows, d, end)[k])
  {
    forall k | 0 <= k < cols * rows
      ensures IsPiece(MazeTiles(cols, rows, d, end)[k])
    {
      IndexAtCellAt(cols, rows, k);
      MazeHasNoThreeWayTile(cols, rows, d, end, CellAt(cols, k));
    }
  }

  /**
    `rotateFunc[buttons](pipe)`: no button and both buttons keep the tile, a
    left click rotates it 3 turns, a right click 1 turn, with the rotation
    masked to the four sides (`RotateMasked`).
  */
  function Click(pipe: Tile, buttons: nat): Tile
    requires buttons < 4
  {
    if buttons == 1 then RotateMasked(pipe, 3)
    else if buttons == 2 then RotateMasked(pipe, 1)
    else pipe
  }

  /**
    A click keeps a four-bit tile a four-bit tile with as many sides, a left
    click turns each open side `s` into side `s + 3` and a right click into
    `s + 1`, and a left click followed by a right click gives the tile back.
  */
  lemma ClickKeepsSides(pipe: Tile, buttons: nat, s: Side)
    requires pipe < 16 && buttons < 4
    ensures Click(pipe, buttons) < 16 && BitCount(Click(pipe, buttons)) == BitCount(pipe)
    ensures buttons == 1 ==> HasSide(Click(pipe, buttons), Turn(s, 3)) == HasSide(pipe, s)
    ensures buttons == 2 ==> HasSide(Click(pipe, buttons), Turn(s, 1)) == HasSide(pipe, s)
    ensures Click(Click(pipe, 1), 2) == pipe && Click(Click(pipe, 2), 1) == pipe
  {
    if buttons == 1 {
      RotateMaskedKeepsBitCount(pipe, 3);
      RotateMaskedIsCyclic(pipe, 3, s);
    } else if buttons == 2 {
      RotateMaskedKeepsBitCount(pipe, 1);
      RotateMaskedIsCyclic(pipe, 1, s);
    }
    RotateMaskedIdentities(pipe);
  }

  /** `Math.max(0, x)`. */
  function AtLeastZero(x: real): (r: real)
    ensures r >= 0.0 && r >= x && (r == 0.0 || r == x)
  {
    if x > 0.0 then x else 0.0
  }

  /** Partway through the cleanup: the first `done` tiles are final, the rest still as carved. */
  ghost predicate CleanedUpTo(tiles: seq<Tile>, target: seq<Tile>, carved: seq<Tile>, done: int) {
    |tiles| == |target| == |carved| && 0 <= done <= |tiles| &&
    (forall k :: 0 <= k < done ==> tiles[k] == target[k]) &&
    (forall k :: done <= k < |tiles| ==> tiles[k] == carved[k])
  }

  /** A cleanup that has passed every tile has reached its target. */
  lemma CleanedUpToAll(tiles: seq<Tile>, target: seq<Tile>, carved: seq<Tile>)
    requires CleanedUpTo(tiles, target, carved, |tiles|)
    ensures tiles == target
  {
  }

  class Board {
    const cols: int
    const rows: int
    /** The `map` array, row-major. */
    var tiles: array<Tile>
    var start: Cell
    /** `undefined` until a carve breaks. */
    var end: Option<Cell>
    var timeUntilFlow: real
    var flowSpeedMultiplier: real
    var flowLength: real
    /** `#flowPath`: `null`, or the cells whose flow segments it holds after the start cell. */
    var flowPath: Option<seq<Cell>>
    var defeat: bool

    /** The board has a cell, `map` covers it, and `start` and `end` lie on it. */
    predicate Valid()
      reads this
    {
      cols >= 1 && rows >= 1 && tiles.Length == cols * rows &&
      InBounds(cols, rows, start) &&
      (end.Some? ==> InBounds(cols, rows, end.value))
    }

    /** Every tile of `map` is a piece. */
    predicate Pieces()
      reads this, tiles
    {
      forall k :: 0 <= k < tiles.Length ==> IsPiece(tiles[k])
    }

    /** `new Board({cols, rows})`: a board without `map` is dealt by `reset`; `end` stays undefined. */
    constructor(cols: int, rows: int, d: ResetDraw)
      requires cols >= 1 && rows >= 1 && ValidResetDraw(cols, rows, d)
      ensures Valid() && this.cols == cols && this.rows == rows
      ensures tiles[..] == ResetTiles(cols, rows, d) && start == Cell(d.startCol, d.startRow)
      ensures timeUntilFlow == FlowDelay && flowSpeedMultiplier == 1.0 && flowLength == 0.0
      ensures flowPath == None && !defeat && end == None
      ensures Pieces()
    {
      this.cols := cols;
      this.rows := rows;
      tiles := new Tile[0];
      end := None;
      new;
      Reset(d);
    }

    /**
      `reset`: a fresh map of placeable pipes with a start piece on a central
      start cell, the timers and the flow back to their initial values, no
      defeat. `end` is not assigned.
    */
    method Reset(d: ResetDraw)
      requires cols >= 1 && rows >= 1 && ValidResetDraw(cols, rows, d)
      requires end.Some? ==> InBounds(cols, rows, end.value)
      modifies this
      ensures Valid() && fresh(tiles)
      ensures tiles[..] == ResetTiles(cols, rows, d) && start == Cell(d.startCol, d.startRow)
      ensures timeUntilFlow == FlowDelay && flowSpeedMultiplier == 1.0 && flowLength == 0.0
      ensures flowPath == None && !defeat && end == old(end)
      ensures Pieces()
    {
      var n := cols * rows;
      var m := new Tile[n];
      for k := 0 to n
        modifies m
        invariant forall j :: 0 <= j < k ==> m[j] == PlaceablePipes[d.fills[j]]
      {
        m[k] := PlaceablePipes[d.fills[k]];
      }
      ghost var dealt := seq(n, k requires 0 <= k < n => PlaceablePipes[d.fills[k]]);
      assert m[..] == dealt;
      tiles := m;
      CentralInBounds(cols, d.startCol);
      CentralInBounds(rows, d.startRow);
      start := Cell(d.startCol, d.startRow);
      IndexInRange(cols, rows, start);
      tiles[IndexAt(cols, start)] := StartPipes[d.startPipe];
      timeUntilFlow := FlowDelay;
      flowSpeedMultiplier := 1.0;
      flowLength := 0.0;
      flowPath := None;
      defeat := false;
      ResetTilesArePieces(cols, rows, d);
    }

    /**
      `generateMaze`: a zeroed map, a central start cell, the carve from it
      (ending, when the loop breaks, by setting `end`), then the cleanup that
      fills every empty tile with a placeable pipe and rotates every tile but
      those of `start` and `end`. The cleanup reads `end`, which throws while
      it is undefined, so the carve must break or `end` be already set.
    */
    method GenerateMaze(d: MazeDraw)
      requires Valid() && ValidMazeDraw(cols, rows, d)
      requires MazeCarve(cols, rows, d).broke || end.Some?
      modifies this
      ensures Valid() && fresh(tiles) && start == MazeStart(d)
      ensures var carving := MazeCarve(cols, rows, d);
        end == if carving.broke then Some(Last(carving.path)) else old(end)
      ensures tiles[..] == MazeTiles(cols, rows, d, end.value)
      ensures timeUntilFlow == old(timeUntilFlow) && flowSpeedMultiplier == old(flowSpeedMultiplier)
      ensures flowLength == old(flowLength) && flowPath == old(flowPath) && defeat == old(defeat)
      ensures Pieces()
    {
      tiles := new Tile[cols * rows](_ => 0);
      CentralInBounds(cols, d.startCol);
      CentralInBounds(rows, d.startRow);
      start := Cell(d.startCol, d.startRow);
      assert tiles[..] == Filled(cols * rows, 0);
      Carve(d);
      CleanUp(d);
      MazeTilesArePieces(cols, rows, d, end.value);
    }

    /**
      The carve loop of `generateMaze`: at most `Cap` iterations, each marking
      the current cell visited, filtering its up, left, down and right
      neighbors to the unvisited ones on the board, and, while the current
      tile is empty or a start piece and a neighbor is left, ORing the
      matching bits onto the current cell and a chosen neighbor and moving
      there; otherwise `end` becomes the current cell and the loop breaks.
    */
    method Carve(d: MazeDraw)
      requires cols >= 1 && rows >= 1 && ValidMazeDraw(cols, rows, d) && start == MazeStart(d)
      requires InBounds(cols, rows, start) && tiles.Length == cols * rows
      requires tiles[..] == Filled(cols * rows, 0)
      modifies this`end, tiles
      ensures var carving := MazeCarve(cols, rows, d);
        tiles[..] == carving.tiles &&
        end == if carving.broke then Some(Last(carving.path)) else old(end)
      ensures end == old(end) || (end.Some? && InBounds(cols, rows, end.value))
    {
      var n := cols * rows;
      var visited := new bool[n](_ => false);
      var current := start;
      ghost var carving := MazeCarve(cols, rows, d);
      ghost var path := [start];
      assert visited[..] == Filled(n, false);
      assert carving == CarveFrom(cols, rows, d.picks, path, tiles[..], visited[..]);
      for i := 0 to Cap
        invariant |path| == i + 1 && current == Last(path) && OnBoard(cols, rows, path)
        invariant tiles.Length == n && visited.Length == n
        invariant carving == CarveFrom(cols, rows, d.picks, path, tiles[..], visited[..])
        invariant end == old(end)
      {
        var next := CarveStep(d, visited, current, i, path);
        if next.None? {
          end := Some(current);
          break;
        }
        current := next.value;
        path := path + [current];
      }
    }

    /**
      One iteration of the carve loop: mark `current` visited and, when its
      tile is empty or a start piece and it has an open neighbor, link it to
      the drawn neighbor and return that neighbor; otherwise return `None`
      (the loop then sets `end` and breaks).
    */
    method CarveStep(d: MazeDraw, visited: array<bool>, current: Cell, i: int, ghost path: seq<Cell>) returns (next: Option<Cell>)
      requires ValidMazeDraw(cols, rows, d) && 0 <= i < Cap
      requires |path| == i + 1 && current == Last(path) && OnBoard(cols, rows, path)
      requires tiles.Length == cols * rows && visited.Length == cols * rows && visited as object != tiles
      modifies tiles, visited
      ensures next.Some? ==>
        OnBoard(cols, rows, path + [next.value]) &&
        (CarveFrom(cols, rows, d.picks, path, old(tiles[..]), old(visited[..])) ==
         CarveFrom(cols, rows, d.picks, path + [next.value], tiles[..], visited[..]))
      ensures next.None? ==>
        (CarveFrom(cols, rows, d.picks, path, old(tiles[..]), old(visited[..])) == Carving(path, old(tiles[..]), true)) &&
        tiles[..] == old(tiles[..])
    {
      ghost var seenBefore, carvedBefore := visited[..], tiles[..];
      IndexInRange(cols, rows, current);
      var currentIndex := IndexAt(cols, current);
      visited[currentIndex] := true;
      assert visited[..] == Put(seenBefore, cols, rows, current, true) && tiles[..] == carvedBefore;
      var currentPipe := tiles[currentIndex];
      var neighbors := OpenNeighbors(cols, rows, visited[..], Around(current));
      if (currentPipe == 0 || currentPipe in StartPipes) && |neighbors| > 0 {
        var cell := neighbors[d.picks[i] % |neighbors|];
        CarveFromMoves(cols, rows, d.picks, path, carvedBefore, seenBefore, cell);
        Link(current, cell);
        next := Some(cell);
      } else {
        CarveFromBreaks(cols, rows, d.picks, path, carvedBefore, seenBefore);
        next := None;
      }
    }

    /**
      The cleanup of `generateMaze`, row by row and column by column: an
      empty tile gets a placeable pipe, and every tile except those of
      `start` and `end` is rotated by its drawn number of turns.
    */
    method CleanUp(d: MazeDraw)
      requires cols >= 1 && rows >= 1 && ValidMazeDraw(cols, rows, d) && tiles.Length == cols * rows
      requires end.Some?
      modifies tiles
      ensures tiles[..] == Cleaned(cols, rows, old(tiles[..]), start, end.value, d.fills, d.turns)
    {
      ghost var carved := tiles[..];
      var last := end.value;
      ghost var target := Cleaned(cols, rows, carved, start, last, d.fills, d.turns);
      ghost var done := 0;
      for row := 0 to rows
        invariant done == row * cols
        invariant CleanedUpTo(tiles[..], target, carved, done)
      {
        NextRow(cols, rows, row);
        CleanRow(row, last, d, carved, target, done);
        done := done + cols;
      }
      assert done == tiles.Length by { assert rows * cols == cols * rows; }
      CleanedUpToAll(tiles[..], target, carved);
    }

    /** One row of the cleanup: the cells `from` to `from + cols - 1` of the flat array. */
    method CleanRow(row: int, last: Cell, d: MazeDraw, ghost carved: seq<Tile>, ghost target: seq<Tile>, ghost from: int)
      requires cols >= 1 && 0 <= row < rows && ValidMazeDraw(cols, rows, d) && tiles.Length == cols * rows
      requires |carved| == cols * rows && target == Cleaned(cols, rows, carved, start, last, d.fills, d.turns)
      requires from == row * cols && 0 <= from && from + cols <= tiles.Length
      requires CleanedUpTo(tiles[..], target, carved, from)
      modifies tiles
      ensures CleanedUpTo(tiles[..], target, carved, from + cols)
    {
      ghost var done := from;
      for col := 0 to cols
        invariant done == from + col
        invariant forall k :: 0 <= k < done ==> tiles[k] == target[k]
        invariant forall k :: done <= k < tiles.Length ==> tiles[k] == carved[k]
      {
        var here := Cell(col, row);
        IndexInRange(cols, rows, here);
        CleanedAt(cols, rows, carved, start, last, d.fills, d.turns, here);
        var index := IndexAt(cols, here);
        assert index == done && tiles[index] == carved[index];
        CleanCell(here, last, index, d.fills[index], d.turns[index]);
        done := done + 1;
      }
    }

    /**
      The four `if`s of a carve step: the `Direction` bits of the move from
      `current` to `next` (`DirectionBit`) are ORed onto the tile of
      `current`, and the opposite bits onto the tile of `next`.
    */
    method Link(current: Cell, next: Cell)
      requires tiles.Length == cols * rows && InBounds(cols, rows, current) && InBounds(cols, rows, next)
      requires current != next
      modifies tiles
      ensures tiles[..] == Paint(cols, rows, old(tiles[..]), current, next)
    {
      IndexInRange(cols, rows, current);
      IndexInRange(cols, rows, next);
      IndexAtInjective(cols, rows, current, next);
      var ci, ni := IndexAt(cols, current), IndexAt(cols, next);
      tiles[ci] := tiles[ci] | DirectionBit(current, next);
      tiles[ni] := tiles[ni] | DirectionBit(next, current);
    }

    /**
      The cleanup of the cell at `index`: `map[index] ||= PlaceablePipes[fill]`,
      then a rotation by `turns` unless the cell is `start` or `end`.
    */
    method CleanCell(here: Cell, last: Cell, index: int, fill: nat, turns: nat)
      requires 0 <= index < tiles.Length && fill < |PlaceablePipes| && turns < 4
      modifies tiles
      ensures tiles[..] == old(tiles[..])[index := Finish(old(tiles[index]), fill, turns, here == start || here == last)]
    {
      if tiles[index] == 0 {
        tiles[index] := PlaceablePipes[fill];
      }
      if here.col == start.col && here.row == start.row {
        // the start tile is not rotated
      } else if here.col == last.col && here.row == last.row {
        // nor is the end tile
      } else {
        tiles[index] := RotateMasked(tiles[index], turns);
      }
    }

    /**
      `playerInput(col, row, buttons)`: after a defeat, any input resets the
      board; otherwise a cell on the board other than `start` and `end` gets
      the click's rotation, and nothing else changes.
    */
    method PlayerInput(c: Cell, buttons: nat, d: ResetDraw)
      requires Valid() && ValidResetDraw(cols, rows, d)
      requires !defeat && c != start ==> end.Some?
      requires !defeat && c != start && end.Some? && c != end.value && InBounds(cols, rows, c) ==> buttons < 4
      modifies this, tiles
      ensures Valid()
      ensures old(defeat) ==>
        fresh(tiles) && tiles[..] == ResetTiles(cols, rows, d) && start == Cell(d.startCol, d.startRow) &&
        timeUntilFlow == FlowDelay && flowSpeedMultiplier == 1.0 && flowLength == 0.0 &&
        flowPath == None && !defeat && end == old(end)
      ensures !old(defeat) ==>
        tiles == old(tiles) && start == old(start) && end == old(end) && defeat == old(defeat) &&
        timeUntilFlow == old(timeUntilFlow) && flowSpeedMultiplier == old(flowSpeedMultiplier) &&
        flowLength == old(flowLength) && flowPath == old(flowPath)
      ensures !old(defeat) && c != start && c != end.value && InBounds(cols, rows, c) ==>
        tiles[..] == Put(old(tiles[..]), cols, rows, c, Click(At(old(tiles[..]), cols, rows, c), buttons))
      ensures !old(defeat) && (c == start || c == end.value || !InBounds(cols, rows, c)) ==>
        tiles[..] == old(tiles[..])
      ensures old(defeat) || old(Pieces()) ==> Pieces()
    {
      if defeat {
        Reset(d);
      } else if c == start {
      } else if c == end.value {
      } else if InBounds(cols, rows, c) {
        IndexInRange(cols, rows, c);
        RotateAt(IndexAt(cols, c), buttons);
      }
    }

    /** `this.map[index] = rotateFunc[buttons](this.map[index])`: a click on one tile keeps every tile a piece. */
    method RotateAt(index: int, buttons: nat)
      requires 0 <= index < tiles.Length && buttons < 4
      modifies tiles
      ensures tiles[..] == old(tiles[..])[index := Click(old(tiles[index]), buttons)]
      ensures old(Pieces()) ==> Pieces()
    {
      if Pieces() {
        ClickKeepsSides(tiles[index], buttons, 0);
      }
      tiles[index] := Click(tiles[index], buttons);
    }

    /**
      `update(dt)`. A defeated board stays as it is. Otherwise the delay runs
      down, never below 0; once it is 0 the flow grows by `FlowSpeed *
      flowSpeedMultiplier * dt` and is walked again from `start`, one step
      per integer `i >= 1` below `flowLength`. The walk sets `defeat` when it
      leaves the board or meets a closed side; when it finds no exit the
      program throws, which `faulted` reports, with the fields as they are at
      that point.
    */
    method Update(dt: real) returns (faulted: bool)
      requires Valid()
      modifies this
      ensures Valid()
      ensures tiles == old(tiles) && start == old(start) && end == old(end)
      ensures flowSpeedMultiplier == old(flowSpeedMultiplier)
      ensures old(defeat) ==>
        defeat && !faulted && timeUntilFlow == old(timeUntilFlow) &&
        flowLength == old(flowLength) && flowPath == old(flowPath)
      ensures !old(defeat) ==> timeUntilFlow == AtLeastZero(old(timeUntilFlow) - dt)
      ensures !old(defeat) && timeUntilFlow != 0.0 ==>
        !defeat && !faulted && flowLength == old(flowLength) && flowPath == old(flowPath)
      ensures !old(defeat) && timeUntilFlow == 0.0 ==>
        flowLength == old(flowLength) + FlowSpeed * flowSpeedMultiplier * dt &&
        var trace := Walk(tiles[..], cols, rows, start, StepCount(flowLength));
        flowPath == Some(trace.cells) &&
        defeat == (trace.outcome == Defeated) && faulted == (trace.outcome == NoExit)
      ensures !old(defeat) && flowLength <= 1.0 ==> !defeat
      ensures old(Pieces()) ==> Pieces()
    {
      faulted := false;
      if defeat {
        return;
      }
      timeUntilFlow := AtLeastZero(timeUntilFlow - dt);
      if timeUntilFlow == 0.0 {
        flowLength := flowLength + FlowSpeed * flowSpeedMultiplier * dt;
        ghost var n := StepCount(flowLength);
        if n >= 1 {
          StepCountCountsIterations(flowLength, n);
        }
        StepCountCountsIterations(flowLength, n + 1);
        faulted := RunFlow(n);
      }
    }

    /**
      The walk of `update` once the flow runs: `#flowPath` is rebuilt from
      `start`, whose first exit is the lowest open side of its tile; each
      iteration moves across the exit, checks the bounds and the entry side,
      and takes the first open side among straight on, left and right.
    */
    method RunFlow(ghost n: nat) returns (faulted: bool)
      requires Valid() && !defeat
      requires n >= 1 ==> Iterates(flowLength, n)
      requires !Iterates(flowLength, n + 1)
      modifies this`flowPath, this`defeat
      ensures var trace := Walk(tiles[..], cols, rows, start, n);
        flowPath == Some(trace.cells) &&
        defeat == (trace.outcome == Defeated) && faulted == (trace.outcome == NoExit)
    {
      ghost var board := tiles[..];
      IndexInRange(cols, rows, start);
      var first := LowestSide(tiles[IndexAt(cols, start)]);
      flowPath := Some([]);
      if first.None? {
        assert Walk(board, cols, rows, start, n) == Trace([], NoExit);
        return true;
      }
      var at := start;
      var exit := first.value;
      ghost var whole := Walk(board, cols, rows, start, n);
      assert whole == Advance(board, cols, rows, at, exit, n);
      var cells: seq<Cell> := [];
      ghost var rest := whole;
      assert whole == Trace(cells + rest.cells, rest.outcome);
      var i := 1;
      ghost var left: nat := n;
      ghost var outcome := Flowing;
      faulted := false;
      var defeated := false;
      while Iterates(flowLength, i)
        invariant 1 <= i <= n + 1 && left == n + 1 - i && InBounds(cols, rows, at) && !faulted && !defeated
        invariant |board| == cols * rows
        invariant rest == Advance(board, cols, rows, at, exit, left)
        invariant whole == Trace(cells + rest.cells, rest.outcome)
        modifies {}
        decreases left
      {
        var step := Look(tiles, cols, rows, at, exit);
        if step.Stopped? {
          outcome := step.outcome;
          faulted, defeated := step.outcome == NoExit, step.outcome == Defeated;
          break;
        }
        ghost var after := Advance(board, cols, rows, step.next, step.out, left - 1);
        assert rest == Trace([step.next] + after.cells, after.outcome);
        assert cells + rest.cells == (cells + [step.next]) + after.cells;
        cells, rest := cells + [step.next], after;
        at, exit := step.next, step.out;
        i, left := i + 1, left - 1;
      }
      if outcome == Flowing {
        assert !Iterates(flowLength, i);
        assert rest == Trace([], Flowing);
      }
      assert whole == Trace(cells, outcome);
      defeat := defeated;
      flowPath := Some(cells);
    }
  }
}
