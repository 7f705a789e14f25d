/**
  test/testPath.js: a hand-built 10 by 7 map, the copy of the flow walk that
  its `canvas.draw` runs, and the keydown handler that places a pipe under
  the mouse. The walk differs from the one of `Board.update` only in what it
  does on a defeat: it logs and breaks out of the loop instead of setting a
  flag, so its cells and outcome are those of `Flow.Walk` as well.
*/
module PathTest {
  import opened Wrappers
  import opened PipeMask
  import opened Grid
  import opened Flow

  /** `COLS` and `ROWS`. */
  const Cols: int := 10
  const Rows: int := 7

  /** `flow.start`. */
  const FlowStart: Cell := Cell(1, 1)

  /** The initial `flow.length`. */
  const FirstLength: real := 7.5

  /** The largest `flow.length` the slider offers. */
  const SliderMax: real := 18.0

  /** The map after `Array(COLS * ROWS).fill(0)` and the twelve writes that follow it. */
  function FixtureTiles(): (r: seq<Tile>)
    ensures |r| == Cols * Rows
  {
    seq(Cols * Rows, _ => 0)
      [1 + 1 * Cols := 0x8]
      [2 + 1 * Cols := 0x6]
      [2 + 2 * Cols := 0x5]
      [2 + 3 * Cols := 0x9]
      [3 + 3 * Cols := 0x3]
      [3 + 2 * Cols := 0xC]
      [4 + 2 * Cols := 0xF]
      [5 + 2 * Cols := 0x3]
      [5 + 1 * Cols := 0x6]
      [4 + 1 * Cols := 0xC]
      [4 + 3 * Cols := 0x9]
      [5 + 3 * Cols := 0x3]
  }

  /** The same map read as a table from cells to tiles. */
  function FixtureTile(c: Cell): Tile {
    match (c.col, c.row)
    case (1, 1) => 0x8
    case (2, 1) => 0x6
    case (2, 2) => 0x5
    case (2, 3) => 0x9
    case (3, 3) => 0x3
    case (3, 2) => 0xC
    case (4, 2) => 0xF
    case (5, 2) => 0x3
    case (5, 1) => 0x6
    case (4, 1) => 0xC
    case (4, 3) => 0x9
    case (5, 3) => 0x3
    case _ => 0
  }

  /** The cells the twelve writes touch. */
  const FixtureCells: set<Cell> := {
    Cell(1, 1), Cell(2, 1), Cell(2, 2), Cell(2, 3), Cell(3, 3), Cell(3, 2),
    Cell(4, 2), Cell(5, 2), Cell(5, 1), Cell(4, 1), Cell(4, 3), Cell(5, 3)
  }

  /** The array writes build the table: every cell of the board holds the tile the table gives it. */
  lemma FixtureTilesAt(c: Cell)
    requires InBounds(Cols, Rows, c)
    ensures At(FixtureTiles(), Cols, Rows, c) == FixtureTile(c)
  {
    IndexInRange(Cols, Rows, c);
    var k := IndexAt(Cols, c);
    assert k == c.col + 10 * c.row;
    assert c.row == 0 || c.row == 1 || c.row == 2 || c.row == 3 || c.row == 4 || c.row == 5 || c.row == 6;
  }

  /**
    Exactly twelve cells are not empty; the start cell holds the single Right
    side, and every other nonempty cell holds two sides or the cross.
  */
  lemma FixtureShape(c: Cell)
    requires InBounds(Cols, Rows, c)
    ensures |FixtureCells| == 12
    ensures At(FixtureTiles(), Cols, Rows, c) != 0 <==> c in FixtureCells
    ensures At(FixtureTiles(), Cols, Rows, FlowStart) == Right
    ensures c in FixtureCells && c != FlowStart ==> At(FixtureTiles(), Cols, Rows, c) in PlaceablePipes
  {
    FixtureTilesAt(c);
    FixtureTilesAt(FlowStart);
  }

  /** A map that holds the fixture's tile on every cell. */
  ghost predicate IsFixture(tiles: seq<Tile>) {
    |tiles| == Cols * Rows &&
    forall c {:trigger At(tiles, Cols, Rows, c)} :: InBounds(Cols, Rows, c) ==> At(tiles, Cols, Rows, c) == FixtureTile(c)
  }

  lemma FixtureTilesIsFixture()
    ensures IsFixture(FixtureTiles())
  {
    forall c | InBounds(Cols, Rows, c)
      ensures At(FixtureTiles(), Cols, Rows, c) == FixtureTile(c)
    {
      FixtureTilesAt(c);
    }
  }

  /** The cells the flow enters in turn until it is stopped, and the side it leaves each by. */
  const Route: seq<Cell> := [
    Cell(2, 1), Cell(2, 2), Cell(2, 3), Cell(3, 3), Cell(3, 2), Cell(4, 2),
    Cell(5, 2), Cell(5, 1), Cell(4, 1), Cell(4, 2), Cell(4, 3), Cell(5, 3)
  ]

  /** `Exits[0]` is the first exit of the start cell, `Exits[k]` the side the flow leaves `Route[k - 1]` by. */
  const Exits: seq<Side> := [3, 2, 2, 3, 0, 3, 3, 0, 1, 2, 2, 3, 0]

  /** The cell the flow leaves across `exits[k]`: the start, then the cells of the route in turn. */
  function Position(start: Cell, route: seq<Cell>, k: nat): Cell
    requires k <= |route|
  {
    if k == 0 then start else route[k - 1]
  }

  /** Each of the first twelve steps enters the next cell of the route; the thirteenth meets a closed side. */
  lemma RouteStep(tiles: seq<Tile>, k: nat)
    requires IsFixture(tiles) && k <= |Route|
    ensures k < |Route| ==> StepFrom(tiles, Cols, Rows, Position(FlowStart, Route, k), Exits[k]) == Moved(Route[k], Exits[k + 1])
    ensures k == |Route| ==> StepFrom(tiles, Cols, Rows, Position(FlowStart, Route, k), Exits[k]) == Stopped(Defeated)
  {
    var next := Move(Position(FlowStart, Route, k), Exits[k]);
    assert InBounds(Cols, Rows, next) && At(tiles, Cols, Rows, next) == FixtureTile(next) by {
      assert k == 0 || k == 1 || k == 2 || k == 3 || k == 4 || k == 5 || k == 6 ||
        k == 7 || k == 8 || k == 9 || k == 10 || k == 11 || k == 12;
    }
  }

  /**
    A map on which the flow, leaving `start` across `exits[0]`, enters the
    cells of `route` in turn, leaving `route[k]` across `exits[k + 1]`, and
    is stopped by a closed side after the last of them.
  */
  ghost predicate Follows(tiles: seq<Tile>, start: Cell, route: seq<Cell>, exits: seq<Side>)
    requires |tiles| == Cols * Rows && |exits| == |route| + 1
  {
    forall k {:trigger StepFrom(tiles, Cols, Rows, Position(start, route, k), exits[k])} :: 0 <= k <= |route| ==>
      StepFrom(tiles, Cols, Rows, Position(start, route, k), exits[k]) == if k < |route| then Moved(route[k], exits[k + 1]) else Stopped(Defeated)
  }

  lemma FixtureFollowsRoute(tiles: seq<Tile>)
    requires IsFixture(tiles)
    ensures Follows(tiles, FlowStart, Route, Exits)
  {
    forall k | 0 <= k <= |Route|
      ensures StepFrom(tiles, Cols, Rows, Position(FlowStart, Route, k), Exits[k]) ==
        if k < |Route| then Moved(Route[k], Exits[k + 1]) else Stopped(Defeated)
    {
      RouteStep(tiles, k);
    }
  }

  /** After the last cell of a route the map follows, the next step is the defeat. */
  lemma AdvancePastRoute(tiles: seq<Tile>, start: Cell, route: seq<Cell>, exits: seq<Side>, n: nat)
    requires |tiles| == Cols * Rows && |exits| == |route| + 1 && n > 0
    requires Follows(tiles, start, route, exits)
    ensures Advance(tiles, Cols, Rows, Position(start, route, |route|), exits[|route|], n) == Trace([], Defeated)
  {
    assert StepFrom(tiles, Cols, Rows, Position(start, route, |route|), exits[|route|]) == Stopped(Defeated);
  }

  /**
    The trace of `n` steps from position `k` along a route: the next `n`
    cells of the route while it lasts, else the rest of it and a defeat.
  */
  function RouteTrace(route: seq<Cell>, k: nat, n: nat): Trace
    requires k <= |route|
  {
    if k + n <= |route| then Trace(route[k..k + n], Flowing) else Trace(route[k..], Defeated)
  }

  /** A trace along a route begins with the route's next cell. */
  lemma RouteTraceCons(route: seq<Cell>, k: nat, n: nat)
    requires k < |route| && n > 0
    ensures RouteTrace(route, k, n) ==
      Trace([route[k]] + RouteTrace(route, k + 1, n - 1).cells, RouteTrace(route, k + 1, n - 1).outcome)
  {
    if k + n <= |route| {
      assert [route[k]] + route[k + 1..k + n] == route[k..k + n];
    } else {
      assert [route[k]] + route[k + 1..] == route[k..];
    }
  }

  /**
    `n` steps from position `k` of a route the map follows: they enter the
    cells of the route while it lasts, and the step after its last cell is
    the defeat.
  */
  lemma {:induction false} AdvanceAlong(tiles: seq<Tile>, start: Cell, route: seq<Cell>, exits: seq<Side>, k: nat, n: nat)
    requires |tiles| == Cols * Rows && |exits| == |route| + 1 && k <= |route|
    requires Follows(tiles, start, route, exits)
    ensures Advance(tiles, Cols, Rows, Position(start, route, k), exits[k], n) == RouteTrace(route, k, n)
    decreases n
  {
    if n == 0 {
    } else if k == |route| {
      AdvancePastRoute(tiles, start, route, exits, n);
    } else {
      assert StepFrom(tiles, Cols, Rows, Position(start, route, k), exits[k]) == Moved(route[k], exits[k + 1]);
      AdvanceMoved(tiles, Cols, Rows, Position(start, route, k), exits[k], n, route[k], exits[k + 1]);
      AdvanceAlong(tiles, start, route, exits, k + 1, n - 1);
      assert Position(start, route, k + 1) == route[k];
      RouteTraceCons(route, k, n);
    }
  }

  /**
    The walk of the fixture after `n` steps: the first `n` cells of the route
    while `n` is at most twelve, and the whole route ending in defeat from the
    thirteenth step on.
  */
  lemma FixtureWalk(n: nat)
    ensures Walk(FixtureTiles(), Cols, Rows, FlowStart, n) ==
      if n <= |Route| then Trace(Route[..n], Flowing) else Trace(Route, Defeated)
  {
    FixtureTilesIsFixture();
    FixtureFollowsRoute(FixtureTiles());
    assert LowestSide(At(FixtureTiles(), Cols, Rows, FlowStart)) == Some(Exits[0]);
    AdvanceAlong(FixtureTiles(), FlowStart, Route, Exits, 0, n);
    assert Route[0..] == Route;
  }

  /**
    With the initial length 7.5 the loop runs for `i = 1..7` and draws seven
    cells, and neither `break` is taken.
  */
  lemma FirstLengthWalk()
    ensures StepCount(FirstLength) == 7
    ensures Walk(FixtureTiles(), Cols, Rows, FlowStart, StepCount(FirstLength)) ==
      Trace([Cell(2, 1), Cell(2, 2), Cell(2, 3), Cell(3, 3), Cell(3, 2), Cell(4, 2), Cell(5, 2)], Flowing)
  {
    assert (-FirstLength).Floor == -8;
    FixtureWalk(7);
  }

  /**
    The cross at (4, 2) is passed straight through twice, because the
    straight exit is tried first: entered from the left at the sixth step it
    is left on the right, entered from the top at the tenth it is left at the
    bottom.
  */
  lemma CrossPassedTwice(tiles: seq<Tile>)
    requires IsFixture(tiles)
    ensures Route[5] == Route[9] == Cell(4, 2) && At(tiles, Cols, Rows, Cell(4, 2)) == 0xF
    ensures Exits[5] == Exits[6] == 3 && NextExit(At(tiles, Cols, Rows, Cell(4, 2)), Opposite(Exits[5])) == Some(Exits[6])
    ensures Exits[9] == Exits[10] == 2 && NextExit(At(tiles, Cols, Rows, Cell(4, 2)), Opposite(Exits[9])) == Some(Exits[10])
  {
    assert At(tiles, Cols, Rows, Cell(4, 2)) == FixtureTile(Cell(4, 2));
  }

  /**
    Any length the slider offers: up to 13 the flow keeps going; above 13
    step 13 moves up from (5, 3) into (5, 2), which is on the board but closed
    at the bottom, so it is the "Game over!" `break` and never the "Out of
    bounds!" one.
  */
  lemma SliderLengths(length: real)
    requires 0.0 <= length <= SliderMax
    ensures var trace := Walk(FixtureTiles(), Cols, Rows, FlowStart, StepCount(length));
      trace.outcome == (if length <= 13.0 then Flowing else Defeated)
    ensures length > 13.0 ==>
      Move(Route[|Route| - 1], Exits[|Route|]) == Cell(5, 2) && InBounds(Cols, Rows, Cell(5, 2)) &&
      !HasSide(At(FixtureTiles(), Cols, Rows, Cell(5, 2)), Opposite(Exits[|Route|]))
  {
    var n := StepCount(length);
    if length <= 13.0 {
      if n > 0 {
        StepCountCountsIterations(length, n);
      }
    } else {
      StepCountCountsIterations(length, 13);
      FixtureTilesAt(Cell(5, 2));
    }
    FixtureWalk(n);
  }

  /**
    `KeyToPipe[e.key]`: the pipe each of the nine keys places, `undefined`
    (here `None`) for every other key.
  */
  function KeyToPipe(key: string): Option<Tile> {
    match key
    case "q" => Some(0xC)
    case "w" => Some(0xA)
    case "e" => Some(0x6)
    case "a" => Some(0x5)
    case "s" => Some(0xF)
    case "d" => Some(0x5)
    case "z" => Some(0x9)
    case "x" => Some(0xA)
    case "c" => Some(0x3)
    case _ => None
  }

  /** Every key places a pipe with two open sides or the cross, never a start piece or an empty tile. */
  lemma KeyToPipePlaceable(key: string)
    ensures KeyToPipe(key).Some? ==> KeyToPipe(key).value in PlaceablePipes
    ensures KeyToPipe(key).Some? ==> BitCount(KeyToPipe(key).value) == 2 || KeyToPipe(key).value == 0xF
  {
  }

  /** A map whose cells other than the start are empty, two-sided or the cross. */
  ghost predicate Shaped(tiles: seq<Tile>)
    requires |tiles| == Cols * Rows
  {
    forall c :: InBounds(Cols, Rows, c) && c != FlowStart ==>
      At(tiles, Cols, Rows, c) == 0 || At(tiles, Cols, Rows, c) in PlaceablePipes
  }

  lemma FixtureIsShaped()
    ensures Shaped(FixtureTiles())
  {
    forall c | InBounds(Cols, Rows, c) && c != FlowStart
      ensures At(FixtureTiles(), Cols, Rows, c) == 0 || At(FixtureTiles(), Cols, Rows, c) in PlaceablePipes
    {
      FixtureShape(c);
    }
  }

  /** Placing a keyed pipe anywhere but on the start keeps the map shaped. */
  lemma PlacingKeepsShaped(tiles: seq<Tile>, key: string, at: Cell)
    requires |tiles| == Cols * Rows && Shaped(tiles)
    requires KeyToPipe(key).Some? && InBounds(Cols, Rows, at)
    ensures Shaped(Put(tiles, Cols, Rows, at, KeyToPipe(key).value))
  {
    var placed := Put(tiles, Cols, Rows, at, KeyToPipe(key).value);
    forall c | InBounds(Cols, Rows, c) && c != FlowStart
      ensures At(placed, Cols, Rows, c) == 0 || At(placed, Cols, Rows, c) in PlaceablePipes
    {
      PutAt(tiles, Cols, Rows, at, KeyToPipe(key).value, c);
      KeyToPipePlaceable(key);
    }
  }

  /** The page's state: the module-level `map` and `flow.length`. */
  class Scene {
    var tiles: array<Tile>
    var flowLength: real

    /** The module's top level: the fixture map and the initial length. */
    constructor()
      ensures fresh(tiles) && tiles[..] == FixtureTiles() && flowLength == FirstLength
    {
      var m := new Tile[Cols * Rows](_ => 0);
      ghost var written := seq(Cols * Rows, _ => 0);
      m[1 + 1 * Cols] := 0x8;
      written := written[1 + 1 * Cols := 0x8];
      assert m[..] == written;
      m[2 + 1 * Cols] := 0x6;
      written := written[2 + 1 * Cols := 0x6];
      assert m[..] == written;
      m[2 + 2 * Cols] := 0x5;
      written := written[2 + 2 * Cols := 0x5];
      assert m[..] == written;
      m[2 + 3 * Cols] := 0x9;
      written := written[2 + 3 * Cols := 0x9];
      assert m[..] == written;
      m[3 + 3 * Cols] := 0x3;
      written := written[3 + 3 * Cols := 0x3];
      assert m[..] == written;
      m[3 + 2 * Cols] := 0xC;
      written := written[3 + 2 * Cols := 0xC];
      assert m[..] == written;
      m[4 + 2 * Cols] := 0xF;
      written := written[4 + 2 * Cols := 0xF];
      assert m[..] == written;
      m[5 + 2 * Cols] := 0x3;
      written := written[5 + 2 * Cols := 0x3];
      assert m[..] == written;
      m[5 + 1 * Cols] := 0x6;
      written := written[5 + 1 * Cols := 0x6];
      assert m[..] == written;
      m[4 + 1 * Cols] := 0xC;
      written := written[4 + 1 * Cols := 0xC];
      assert m[..] == written;
      m[4 + 3 * Cols] := 0x9;
      written := written[4 + 3 * Cols := 0x9];
      assert m[..] == written;
      m[5 + 3 * Cols] := 0x3;
      written := written[5 + 3 * Cols := 0x3];
      assert m[..] == written;
      tiles := m;
      flowLength := FirstLength;
    }

    /**
      The walk of `canvas.draw`: from `flow.start` out through the lowest open
      side, one step per integer `i >= 1` below `flow.length`; it breaks on
      leaving the board ("Out of bounds!") or meeting a closed side ("Game
      over!"), both `Defeated` here, and throws when a tile has no next exit.
      `cells` are the cells whose segments are drawn after the start's.
    */
    method DrawFlow() returns (cells: seq<Cell>, outcome: Outcome)
      requires tiles.Length == Cols * Rows
      ensures Trace(cells, outcome) == Walk(tiles[..], Cols, Rows, FlowStart, StepCount(flowLength))
    {
      ghost var board := tiles[..];
      ghost var n := StepCount(flowLength);
      ghost var whole := Walk(board, Cols, Rows, FlowStart, n);
      IndexInRange(Cols, Rows, FlowStart);
      var currPipe := tiles[IndexAt(Cols, FlowStart)];
      var first := LowestSide(currPipe);
      if first.None? {
        return [], NoExit;
      }
      var at, end := FlowStart, first.value;
      cells, outcome := [], Flowing;
      ghost var rest := whole;
      ghost var left: nat := n;
      var i := 1;
      while (i as real) < flowLength
        invariant 1 <= i <= n + 1 && left == n + 1 - i && outcome == Flowing
        invariant rest == Advance(board, Cols, Rows, at, end, left)
        invariant whole == Trace(cells + rest.cells, rest.outcome)
        decreases left
      {
        StepCountCountsIterations(flowLength, i);
        var step := Look(tiles, Cols, Rows, at, end);
        if step.Stopped? {
          outcome := step.outcome;
          break;
        }
        ghost var after := Advance(board, Cols, Rows, step.next, step.out, left - 1);
        assert rest == Trace([step.next] + after.cells, after.outcome);
        assert cells + rest.cells == (cells + [step.next]) + after.cells;
        cells, rest := cells + [step.next], after;
        at, end := step.next, step.out;
        i, left := i + 1, left - 1;
      }
      if outcome == Flowing {
        StepCountCountsIterations(flowLength, i);
        assert rest == Trace([], Flowing);
      }
      assert cells + [] == cells;
    }

    /**
      The keydown handler: a key with a pipe, with the mouse on the board,
      writes that pipe into the cell under the mouse. The mouse is `None`
      before the first pointer move, when `mouseCol` and `mouseRow` are
      still `undefined` and every comparison with them fails.
    */
    method KeyDown(key: string, mouse: Option<Cell>)
      requires tiles.Length == Cols * Rows
      modifies tiles
      ensures KeyToPipe(key).Some? && mouse.Some? && InBounds(Cols, Rows, mouse.value) ==>
        tiles[..] == Put(old(tiles[..]), Cols, Rows, mouse.value, KeyToPipe(key).value)
      ensures !(KeyToPipe(key).Some? && mouse.Some? && InBounds(Cols, Rows, mouse.value)) ==>
        tiles[..] == old(tiles[..])
    {
      var pipe := KeyToPipe(key);
      if pipe.Some? && mouse.Some? &&
         0 <= mouse.value.col < Cols && 0 <= mouse.value.row < Rows {
        IndexInRange(Cols, Rows, mouse.value);
        tiles[mouse.value.col + mouse.value.row * Cols] := pipe.value;
      }
    }
  }
}
