/**
  The flow walk inside `Board.update` (src/Pipes.js), and the identical walk
  of test/testPath.js, as a pure function of the tiles, the board size, the
  start cell and the number of steps.

  The walk leaves the start cell through the lowest open side of its tile.
  Each step moves one cell across the current exit. The walk is defeated when
  that cell is off the board or its tile lacks the side facing back (the
  entry). Otherwise the new exit is the first open side among straight on,
  left turn and right turn; when none is open, `find` yields `undefined`, and
  the next use of `offset[end]` throws. That fault is the outcome `NoExit`,
  distinct from defeat: the program does not set `defeat`, it stops with an
  exception.
*/
module Flow {
  import opened Wrappers
  import opened PipeMask
  import opened Grid

  datatype Outcome =
    | Flowing   // every step was taken
    | Defeated  // a step left the board or met a closed side
    | NoExit    // the exit side is not one of the four: `offset[end]` throws

  /**
    The cells the flow entered and left again, in order (their path segments
    are drawn; the start cell is not listed), and how the walk ended.
  */
  datatype Trace = Trace(cells: seq<Cell>, outcome: Outcome)

  /** The side straight across from `entry`, and the left and right turns. */
  function Straight(entry: Side): Side { (entry + 2) % 4 }
  function LeftTurn(entry: Side): Side { (entry + 3) % 4 }
  function RightTurn(entry: Side): Side { (entry + 1) % 4 }

  /**
    `[straight, left, right].find(dir => tile & (1 << dir))`: the first of the
    three other sides that is open. The straight side is tried first, so the
    cross is passed straight through, and the right turn is taken only when
    the left turn is closed too.
  */
  function NextExit(t: Tile, entry: Side): (r: Option<Side>)
    ensures r.Some? ==> r.value != entry && HasSide(t, r.value)
    ensures HasSide(t, Straight(entry)) ==> r == Some(Straight(entry))
    ensures r == Some(RightTurn(entry)) ==> !HasSide(t, LeftTurn(entry))
  {
    if HasSide(t, Straight(entry)) then Some(Straight(entry))
    else if HasSide(t, LeftTurn(entry)) then Some(LeftTurn(entry))
    else if HasSide(t, RightTurn(entry)) then Some(RightTurn(entry))
    else None
  }

  /** There is no next exit exactly when the entry is the tile's only open side. */
  lemma NoExitWhenOnlyEntryOpen(t: Tile, entry: Side)
    ensures NextExit(t, entry).None? <==> forall s: Side :: s != entry ==> !HasSide(t, s)
  {
    if NextExit(t, entry).None? {
      forall s: Side | s != entry
        ensures !HasSide(t, s)
      {
        assert s == Straight(entry) || s == LeftTurn(entry) || s == RightTurn(entry);
      }
    }
  }

  /**
    A tile with exactly two open sides, one of them the entry, is left through
    the other one.
  */
  lemma TwoSidedTileExitsThroughOtherSide(t: Tile, entry: Side, other: Side)
    requires BitCount(t) == 2 && HasSide(t, entry) && HasSide(t, other) && other != entry
    ensures NextExit(t, entry) == Some(other)
  {
  }

  /** The cross is passed straight through from any side. */
  lemma CrossGoesStraight(t: Tile, entry: Side)
    requires Low(t) == 0xF
    ensures NextExit(t, entry) == Some(Opposite(entry))
  {
  }

  /** One step of the walk: the flow moves on to `next` and leaves it across `out`, or stops. */
  datatype Step = Moved(next: Cell, out: Side) | Stopped(outcome: Outcome)

  /**
    The step out of cell `at` across side `exit`: the neighbor must be on the
    board (the bounds test comes before `indexAt`) and open on the side facing
    back; then its next exit decides the side the flow leaves it by.
  */
  function StepFrom(tiles: seq<Tile>, cols: int, rows: int, at: Cell, exit: Side): (r: Step)
    requires |tiles| == cols * rows
    ensures r.Moved? ==> r.next == Move(at, exit) && InBounds(cols, rows, r.next)
    ensures r.Moved? ==>
      HasSide(At(tiles, cols, rows, r.next), Opposite(exit)) &&
      r.out != Opposite(exit) && HasSide(At(tiles, cols, rows, r.next), r.out)
    ensures r == Stopped(Defeated) <==>
      !InBounds(cols, rows, Move(at, exit)) || !HasSide(At(tiles, cols, rows, Move(at, exit)), Opposite(exit))
    ensures r.Stopped? ==> r.outcome != Flowing
  {
    var next := Move(at, exit);
    if !InBounds(cols, rows, next) then Stopped(Defeated)
    else
      var tile := At(tiles, cols, rows, next);
      var entry := Opposite(exit);
      if !HasSide(tile, entry) then Stopped(Defeated)
      else match NextExit(tile, entry)
        case None => Stopped(NoExit)
        case Some(out) => Moved(next, out)
  }

  /**
    `n` more steps of the walk, from cell `at`, which the flow leaves across
    side `exit`.
  */
  function Advance(tiles: seq<Tile>, cols: int, rows: int, at: Cell, exit: Side, n: nat): (r: Trace)
    requires |tiles| == cols * rows
    ensures |r.cells| <= n
    ensures r.outcome == Flowing <==> |r.cells| == n
    ensures forall j :: 0 <= j < |r.cells| ==> InBounds(cols, rows, r.cells[j])
    decreases n
  {
    if n == 0 then Trace([], Flowing)
    else match StepFrom(tiles, cols, rows, at, exit)
      case Stopped(outcome) => Trace([], outcome)
      case Moved(next, out) =>
        var rest := Advance(tiles, cols, rows, next, out, n - 1);
        Trace([next] + rest.cells, rest.outcome)
  }

  /** A walk whose first step moves on enters that cell and goes on from there. */
  lemma AdvanceMoved(tiles: seq<Tile>, cols: int, rows: int, at: Cell, exit: Side, n: nat, next: Cell, out: Side)
    requires |tiles| == cols * rows && n > 0
    requires StepFrom(tiles, cols, rows, at, exit) == Moved(next, out)
    ensures Advance(tiles, cols, rows, at, exit, n) ==
      Trace([next] + Advance(tiles, cols, rows, next, out, n - 1).cells, Advance(tiles, cols, rows, next, out, n - 1).outcome)
  {
  }

  /**
    One iteration of the walk loop, over the board's tile array: the cell
    across `exit` from `at` is checked against the bounds before `indexAt`
    reads its tile, then for the side facing back, then for a next exit.
    The walk of `update` and the walk of the test page's `canvas.draw` share
    this loop body.
  */
  method Look(tiles: array<Tile>, cols: int, rows: int, at: Cell, exit: Side) returns (step: Step)
    requires tiles.Length == cols * rows
    ensures step == StepFrom(tiles[..], cols, rows, at, exit)
  {
    var next := Move(at, exit);
    if !InBounds(cols, rows, next) {
      return Stopped(Defeated);
    }
    IndexInRange(cols, rows, next);
    var tile := tiles[IndexAt(cols, next)];
    assert tile == At(tiles[..], cols, rows, next);
    var entry := Opposite(exit);
    if !HasSide(tile, entry) {
      return Stopped(Defeated);
    }
    var out := NextExit(tile, entry);
    if out.None? {
      return Stopped(NoExit);
    }
    return Moved(next, out.value);
  }

  /**
    The walk of `update` with `n` steps: out of the start cell through the
    lowest open side of its tile (`Math.log2(tile & -tile)`), then `n` steps.
    A start tile with no open side among the four has no first exit, and the
    first `addPath` throws.
  */
  function Walk(tiles: seq<Tile>, cols: int, rows: int, start: Cell, n: nat): (r: Trace)
    requires |tiles| == cols * rows && InBounds(cols, rows, start)
    ensures |r.cells| <= n
    ensures r.outcome == Flowing <==> |r.cells| == n && Low(At(tiles, cols, rows, start)) != 0
    ensures forall j :: 0 <= j < |r.cells| ==> InBounds(cols, rows, r.cells[j])
  {
    match LowestSide(At(tiles, cols, rows, start))
    case None => Trace([], NoExit)
    case Some(exit) => Advance(tiles, cols, rows, start, exit, n)
  }

  /**
    The number of loop iterations of `for (let i = 1; i < flowLength; i++)`:
    the integers `i >= 1` below `flowLength`.
  */
  function StepCount(flowLength: real): nat {
    if flowLength <= 1.0 then 0 else -((-flowLength).Floor) - 1
  }

  /** The test `i < flowLength` of that loop. */
  predicate Iterates(flowLength: real, i: int) {
    (i as real) < flowLength
  }

  lemma StepCountCountsIterations(flowLength: real, i: int)
    requires i >= 1
    ensures Iterates(flowLength, i) <==> i <= StepCount(flowLength)
  {
  }

  /** No step is taken while the flow length is at most 1. */
  lemma NoStepUpToOne(flowLength: real)
    requires flowLength <= 1.0
    ensures StepCount(flowLength) == 0
  {
  }

  /** Two cells side by side whose facing sides are both open. */
  predicate Joined(tiles: seq<Tile>, cols: int, rows: int, a: Cell, s: Side)
    requires |tiles| == cols * rows
  {
    InBounds(cols, rows, a) && InBounds(cols, rows, Move(a, s)) &&
    HasSide(At(tiles, cols, rows, a), s) &&
    HasSide(At(tiles, cols, rows, Move(a, s)), Opposite(s))
  }

  /** `b` is next to `a` and the two facing sides are open. */
  predicate Linked(tiles: seq<Tile>, cols: int, rows: int, a: Cell, b: Cell)
    requires |tiles| == cols * rows
  {
    SideToward(a, b).Some? && Joined(tiles, cols, rows, a, SideToward(a, b).value)
  }

  /** `path` goes from `from` one cell at a time, each step between linked cells. */
  predicate FollowsPipes(tiles: seq<Tile>, cols: int, rows: int, from: Cell, path: seq<Cell>)
    requires |tiles| == cols * rows
    decreases |path|
  {
    path == [] ||
    (Linked(tiles, cols, rows, from, path[0]) && FollowsPipes(tiles, cols, rows, path[0], path[1..]))
  }

  /**
    The flow only ever passes between two cells through a pair of facing open
    sides.
  */
  lemma {:induction false} AdvanceFollowsPipes(tiles: seq<Tile>, cols: int, rows: int, at: Cell, exit: Side, n: nat)
    requires |tiles| == cols * rows && InBounds(cols, rows, at)
    requires HasSide(At(tiles, cols, rows, at), exit)
    ensures FollowsPipes(tiles, cols, rows, at, Advance(tiles, cols, rows, at, exit, n).cells)
    decreases n
  {
    if n > 0 {
      match StepFrom(tiles, cols, rows, at, exit)
      case Stopped(_) =>
      case Moved(next, out) =>
        var rest := Advance(tiles, cols, rows, next, out, n - 1);
        assert Advance(tiles, cols, rows, at, exit, n).cells[1..] == rest.cells;
        AdvanceFollowsPipes(tiles, cols, rows, next, out, n - 1);
        assert Linked(tiles, cols, rows, at, next);
    }
  }

  lemma WalkFollowsPipes(tiles: seq<Tile>, cols: int, rows: int, start: Cell, n: nat)
    requires |tiles| == cols * rows && InBounds(cols, rows, start)
    ensures FollowsPipes(tiles, cols, rows, start, Walk(tiles, cols, rows, start, n).cells)
  {
    var t := At(tiles, cols, rows, start);
    if LowestSide(t).Some? {
      AdvanceFollowsPipes(tiles, cols, rows, start, LowestSide(t).value, n);
    }
  }

  /**
    More steps extend the walk: the cells of a shorter walk are a prefix of
    those of a longer one, and a walk that has ended (defeat or fault) stays
    as it is.
  */
  lemma {:induction false} AdvanceExtends(tiles: seq<Tile>, cols: int, rows: int, at: Cell, exit: Side, m: nat, n: nat)
    requires |tiles| == cols * rows && m <= n
    ensures Advance(tiles, cols, rows, at, exit, m).cells <= Advance(tiles, cols, rows, at, exit, n).cells
    decreases m
  {
    if m > 0 {
      match StepFrom(tiles, cols, rows, at, exit)
      case Stopped(_) =>
      case Moved(next, out) =>
        var short := Advance(tiles, cols, rows, next, out, m - 1);
        var long := Advance(tiles, cols, rows, next, out, n - 1);
        AdvanceExtends(tiles, cols, rows, next, out, m - 1, n - 1);
        assert [next] + short.cells <= [next] + long.cells;
    }
  }

  lemma {:induction false} AdvanceSettles(tiles: seq<Tile>, cols: int, rows: int, at: Cell, exit: Side, m: nat, n: nat)
    requires |tiles| == cols * rows && m <= n
    requires Advance(tiles, cols, rows, at, exit, m).outcome != Flowing
    ensures Advance(tiles, cols, rows, at, exit, n) == Advance(tiles, cols, rows, at, exit, m)
    decreases m
  {
    match StepFrom(tiles, cols, rows, at, exit)
    case Stopped(_) =>
    case Moved(next, out) =>
      AdvanceSettles(tiles, cols, rows, next, out, m - 1, n - 1);
  }

  lemma WalkExtends(tiles: seq<Tile>, cols: int, rows: int, start: Cell, m: nat, n: nat)
    requires |tiles| == cols * rows && InBounds(cols, rows, start) && m <= n
    ensures Walk(tiles, cols, rows, start, m).cells <= Walk(tiles, cols, rows, start, n).cells
    ensures Walk(tiles, cols, rows, start, m).outcome != Flowing ==>
      Walk(tiles, cols, rows, start, n) == Walk(tiles, cols, rows, start, m)
  {
    var t := At(tiles, cols, rows, start);
    if LowestSide(t).Some? {
      AdvanceExtends(tiles, cols, rows, start, LowestSide(t).value, m, n);
      if Walk(tiles, cols, rows, start, m).outcome != Flowing {
        AdvanceSettles(tiles, cols, rows, start, LowestSide(t).value, m, n);
      }
    }
  }
}
