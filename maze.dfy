/**
  The maze of `Board.generateMaze` (src/Pipes.js), as functions of the random
  choices the program makes:

  - the carve: a self-avoiding walk from `start` that, at each of at most 100
    iterations, marks the current cell visited, filters its four neighbors
    (up, left, down, right) down to the unvisited ones on the board, and, while
    the current tile is empty or a single-side start piece and a neighbor is
    left, moves to one of them, ORing the matching pair of `Direction` bits
    onto the two cells; when it cannot move it breaks and `end` is the current
    cell;
  - the cleanup: every empty tile is filled with a placeable pipe, and every
    tile other than those of `start` and `end` is rotated 0 to 3 turns.

  `randomFrom(neighbors)` is `neighbors[picks[i] % |neighbors|]` for a
  caller-supplied `picks`, one entry per iteration; the fill and the turns of
  the cleanup are supplied per cell.
*/
module Maze {
  import opened Wrappers
  import opened PipeMask
  import opened Grid

  /**
    The bits the four `if`s of a carve step OR onto cell `a` for the step
    between `a` and `b`: Up when `b` is above, Left when it is to the left,
    Down when below, Right when to the right.
  */
  function DirectionBit(a: Cell, b: Cell): Tile {
    (if b.row < a.row then Up else 0) | (if b.col < a.col then Left else 0) |
    (if a.row < b.row then Down else 0) | (if a.col < b.col then Right else 0)
  }

  /**
    The `offset` table and the `Direction` bits agree: a step across side `s`
    marks side `s` on the cell left and the opposite side on the cell entered.
  */
  lemma DirectionBitMove(c: Cell, s: Side)
    ensures DirectionBit(c, Move(c, s)) == Bit(s)
    ensures DirectionBit(Move(c, s), c) == Bit(Opposite(s))
  {
  }

  /** Every cell of `path` is on the board. */
  predicate OnBoard(cols: int, rows: int, path: seq<Cell>) {
    forall j :: 0 <= j < |path| ==> InBounds(cols, rows, path[j])
  }

  /** The four neighbors of `c`, in the order up, left, down, right. */
  function Around(c: Cell): seq<Cell> {
    [Move(c, 0), Move(c, 1), Move(c, 2), Move(c, 3)]
  }

  /** A cell on the board that is not yet visited. */
  predicate Open(cols: int, rows: int, visited: seq<bool>, c: Cell)
    requires |visited| == cols * rows
  {
    InBounds(cols, rows, c) && !At(visited, cols, rows, c)
  }

  /** `cs.filter(e => inBounds(e) && !visited[indexAt(e)])`. */
  function OpenNeighbors(cols: int, rows: int, visited: seq<bool>, cs: seq<Cell>): (r: seq<Cell>)
    requires |visited| == cols * rows
    ensures |r| <= |cs|
    ensures forall x :: x in r <==> x in cs && Open(cols, rows, visited, x)
    decreases |cs|
  {
    if cs == [] then []
    else (if Open(cols, rows, visited, cs[0]) then [cs[0]] else []) + OpenNeighbors(cols, rows, visited, cs[1..])
  }

  /**
    The carve step's ORs onto the tiles of `a` and of its neighbor `b` (read
    before either write: the two cells differ).
  */
  function Paint(cols: int, rows: int, tiles: seq<Tile>, a: Cell, b: Cell): (r: seq<Tile>)
    requires |tiles| == cols * rows && InBounds(cols, rows, a) && InBounds(cols, rows, b)
    ensures |r| == |tiles|
  {
    IndexInRange(cols, rows, a);
    IndexInRange(cols, rows, b);
    var i, k := IndexAt(cols, a), IndexAt(cols, b);
    tiles[i := tiles[i] | DirectionBit(a, b)][k := tiles[k] | DirectionBit(b, a)]
  }

  /** A carve step between two different cells changes their two tiles and no other. */
  lemma PaintAt(cols: int, rows: int, tiles: seq<Tile>, a: Cell, b: Cell, c: Cell)
    requires |tiles| == cols * rows && InBounds(cols, rows, a) && InBounds(cols, rows, b) && InBounds(cols, rows, c)
    requires a != b
    ensures At(Paint(cols, rows, tiles, a, b), cols, rows, c) ==
      if c == a then At(tiles, cols, rows, a) | DirectionBit(a, b)
      else if c == b then At(tiles, cols, rows, b) | DirectionBit(b, a)
      else At(tiles, cols, rows, c)
  {
    IndexInRange(cols, rows, a);
    IndexInRange(cols, rows, b);
    IndexInRange(cols, rows, c);
    IndexAtInjective(cols, rows, a, c);
    IndexAtInjective(cols, rows, b, c);
  }

  /** The iteration cap of the carve loop. */
  const Cap: nat := 100

  /**
    What the carve leaves: the cells `current` took (the start first), the
    tiles, and whether the loop broke (and so set `end`) rather than ran into
    the cap.
  */
  datatype Carving = Carving(path: seq<Cell>, tiles: seq<Tile>, broke: bool)

  /** The last cell of a nonempty path. */
  function Last(path: seq<Cell>): Cell
    requires path != []
  {
    path[|path| - 1]
  }

  /**
    The remaining iterations of the carve loop. Iteration `i` is the one whose
    current cell is `path[i]`, so `i == |path| - 1`.
  */
  function CarveFrom(cols: int, rows: int, picks: seq<nat>, path: seq<Cell>, tiles: seq<Tile>, visited: seq<bool>): (r: Carving)
    requires 1 <= |path| <= Cap + 1 && |picks| == Cap
    requires |tiles| == cols * rows && |visited| == cols * rows
    requires OnBoard(cols, rows, path)
    ensures path <= r.path && |r.path| <= Cap + 1 && |r.tiles| == |tiles|
    decreases Cap + 1 - |path|
  {
    if |path| == Cap + 1 then Carving(path, tiles, false)
    else
      var current := Last(path);
      var seen := Put(visited, cols, rows, current, true);
      var neighbors := OpenNeighbors(cols, rows, seen, Around(current));
      var pipe := At(tiles, cols, rows, current);
      if (pipe == 0 || pipe in StartPipes) && |neighbors| > 0 then
        var next := neighbors[picks[|path| - 1] % |neighbors|];
        assert next in neighbors;
        assert Open(cols, rows, seen, next);
        assert InBounds(cols, rows, next);
        assert OnBoard(cols, rows, path + [next]);
        CarveFrom(cols, rows, picks, path + [next], Paint(cols, rows, tiles, current, next), seen)
      else
        Carving(path, tiles, true)
  }

  /** One carve iteration that finds an open neighbor moves there and paints the link. */
  lemma CarveFromMoves(cols: int, rows: int, picks: seq<nat>, path: seq<Cell>, tiles: seq<Tile>, visited: seq<bool>, next: Cell)
    requires 1 <= |path| <= Cap && |picks| == Cap
    requires |tiles| == cols * rows && |visited| == cols * rows
    requires OnBoard(cols, rows, path)
    requires var neighbors := OpenNeighbors(cols, rows, Put(visited, cols, rows, Last(path), true), Around(Last(path)));
      var pipe := At(tiles, cols, rows, Last(path));
      (pipe == 0 || pipe in StartPipes) && |neighbors| > 0 && next == neighbors[picks[|path| - 1] % |neighbors|]
    ensures next != Last(path) && InBounds(cols, rows, next)
    ensures OnBoard(cols, rows, path + [next])
    ensures CarveFrom(cols, rows, picks, path, tiles, visited) ==
      CarveFrom(cols, rows, picks, path + [next], Paint(cols, rows, tiles, Last(path), next), Put(visited, cols, rows, Last(path), true))
  {
    var seen := Put(visited, cols, rows, Last(path), true);
    assert next in OpenNeighbors(cols, rows, seen, Around(Last(path)));
    assert Open(cols, rows, seen, next);
    PutAt(visited, cols, rows, Last(path), true, next);
  }

  /** One carve iteration that finds no open neighbor, or a tile already carved twice, breaks. */
  lemma CarveFromBreaks(cols: int, rows: int, picks: seq<nat>, path: seq<Cell>, tiles: seq<Tile>, visited: seq<bool>)
    requires 1 <= |path| <= Cap && |picks| == Cap
    requires |tiles| == cols * rows && |visited| == cols * rows
    requires OnBoard(cols, rows, path)
    requires var neighbors := OpenNeighbors(cols, rows, Put(visited, cols, rows, Last(path), true), Around(Last(path)));
      var pipe := At(tiles, cols, rows, Last(path));
      !((pipe == 0 || pipe in StartPipes) && |neighbors| > 0)
    ensures CarveFrom(cols, rows, picks, path, tiles, visited) == Carving(path, tiles, true)
  {
  }

  /** The whole carve, from an all-zero map with nothing visited. */
  function Carve(cols: int, rows: int, start: Cell, picks: seq<nat>): Carving
    requires cols >= 1 && rows >= 1 && InBounds(cols, rows, start) && |picks| == Cap
  {
    CarveFrom(cols, rows, picks, [start], Filled(cols * rows, 0), Filled(cols * rows, false))
  }

  /** The side bits a carved path gives its `j`-th cell: toward the cells before and after it. */
  function CarvedTile(path: seq<Cell>, j: int): Tile
    requires 0 <= j < |path|
  {
    (if j > 0 then DirectionBit(path[j], path[j - 1]) else 0) |
    (if j + 1 < |path| then DirectionBit(path[j], path[j + 1]) else 0)
  }

  /** No cell occurs twice. */
  predicate Distinct(path: seq<Cell>) {
    forall i, j :: 0 <= i < j < |path| ==> path[i] != path[j]
  }

  /** Each cell is next to the one before it. */
  predicate Adjacent(path: seq<Cell>) {
    forall j :: 0 < j < |path| ==> SideToward(path[j - 1], path[j]).Some?
  }

  /**
    A self-avoiding path of neighboring cells on the board, whose tiles carry
    exactly the bits toward the previous and the next cell, and whose other
    tiles are empty.
  */
  ghost predicate CarvedShape(cols: int, rows: int, path: seq<Cell>, tiles: seq<Tile>)
    requires |tiles| == cols * rows
  {
    |path| >= 1 &&
    (OnBoard(cols, rows, path)) &&
    Distinct(path) && Adjacent(path) &&
    (forall j :: 0 <= j < |path| ==> At(tiles, cols, rows, path[j]) == CarvedTile(path, j)) &&
    (forall c :: InBounds(cols, rows, c) && c !in path ==> At(tiles, cols, rows, c) == 0)
  }

  /** The state at the top of each carve iteration: every cell but the current one is marked visited. */
  ghost predicate CarveInv(cols: int, rows: int, path: seq<Cell>, tiles: seq<Tile>, visited: seq<bool>)
    requires |tiles| == cols * rows && |visited| == cols * rows
  {
    CarvedShape(cols, rows, path, tiles) &&
    forall c :: InBounds(cols, rows, c) ==> (At(visited, cols, rows, c) <==> c in path[..|path| - 1])
  }

  /** The tile `path[j]` is given is `DirectionBit` toward a neighbor: the side facing it. */
  lemma DirectionBitTowardNeighbor(a: Cell, b: Cell)
    requires SideToward(a, b).Some?
    ensures DirectionBit(a, b) == Bit(SideToward(a, b).value)
    ensures SideToward(b, a) == Some(Opposite(SideToward(a, b).value))
    ensures DirectionBit(b, a) == Bit(Opposite(SideToward(a, b).value))
  {
    var s := SideToward(a, b).value;
    DirectionBitMove(a, s);
    MoveOpposite(a, s);
  }

  /**
    The test on the current tile never stops the carve: a carved path reaches
    each new cell through one side only, so the current tile is empty (the
    start, on the first iteration) or a start piece.
  */
  lemma CurrentPipeIsEmptyOrOneSided(cols: int, rows: int, path: seq<Cell>, tiles: seq<Tile>)
    requires |tiles| == cols * rows && CarvedShape(cols, rows, path, tiles)
    ensures var pipe := At(tiles, cols, rows, Last(path));
      pipe == 0 || pipe in StartPipes
    ensures |path| == 1 <==> At(tiles, cols, rows, Last(path)) == 0
  {
    var k := |path| - 1;
    assert At(tiles, cols, rows, path[k]) == CarvedTile(path, k);
    if k > 0 {
      var s := SideToward(path[k - 1], path[k]).value;
      DirectionBitTowardNeighbor(path[k - 1], path[k]);
      assert CarvedTile(path, k) == Bit(Opposite(s));
    }
  }

  /** The cell a carve step moves to is a neighbor on the board that is not yet on the path. */
  lemma StepTarget(cols: int, rows: int, path: seq<Cell>, tiles: seq<Tile>, visited: seq<bool>, next: Cell)
    requires |tiles| == cols * rows && |visited| == cols * rows
    requires CarveInv(cols, rows, path, tiles, visited)
    requires next in OpenNeighbors(cols, rows, Put(visited, cols, rows, Last(path), true), Around(Last(path)))
    ensures InBounds(cols, rows, next) && next !in path
    ensures SideToward(Last(path), next).Some?
  {
    var current := Last(path);
    var n := |path|;
    var seen := Put(visited, cols, rows, current, true);
    assert Open(cols, rows, seen, next);
    PutAt(visited, cols, rows, current, true, next);
    assert path == path[..n - 1] + [current];
    var s :| 0 <= s < 4 && next == Move(current, s);
  }

  /** After a step to `next`, each path cell's tile is its carved tile. */
  lemma {:induction false} StepTiles(cols: int, rows: int, path: seq<Cell>, tiles: seq<Tile>, next: Cell)
    requires |tiles| == cols * rows && CarvedShape(cols, rows, path, tiles)
    requires InBounds(cols, rows, next) && next !in path
    ensures var path', tiles' := path + [next], Paint(cols, rows, tiles, Last(path), next);
      (forall j :: 0 <= j < |path'| ==> At(tiles', cols, rows, path'[j]) == CarvedTile(path', j)) &&
      (forall c :: InBounds(cols, rows, c) && c !in path' ==> At(tiles', cols, rows, c) == 0)
  {
    var current := Last(path);
    var n := |path|;
    var path' := path + [next];
    var tiles' := Paint(cols, rows, tiles, current, next);
    forall j | 0 <= j < |path'|
      ensures At(tiles', cols, rows, path'[j]) == CarvedTile(path', j)
    {
      PaintAt(cols, rows, tiles, current, next, path'[j]);
      if j < n - 1 {
        assert path'[j] == path[j] && path[j] != current;
        assert At(tiles, cols, rows, path[j]) == CarvedTile(path, j);
        StepKeepsCarvedTile(path, next, j);
      } else if j == n - 1 {
        assert At(tiles, cols, rows, path[j]) == CarvedTile(path, j);
        StepKeepsCarvedTile(path, next, j);
      } else {
        assert At(tiles, cols, rows, next) == 0;
        StepKeepsCarvedTile(path, next, j);
      }
    }
    forall c | InBounds(cols, rows, c) && c !in path'
      ensures At(tiles', cols, rows, c) == 0
    {
      PaintAt(cols, rows, tiles, current, next, c);
    }
  }

  /**
    The carved tiles of a path extended by `next`: the earlier cells keep
    theirs, the last cell gains the bit toward `next`, and `next` holds the
    bit toward the last cell.
  */
  lemma StepKeepsCarvedTile(path: seq<Cell>, next: Cell, j: int)
    requires |path| >= 1 && 0 <= j <= |path|
    ensures j < |path| - 1 ==> CarvedTile(path + [next], j) == CarvedTile(path, j)
    ensures j == |path| - 1 ==> CarvedTile(path + [next], j) == CarvedTile(path, j) | DirectionBit(Last(path), next)
    ensures j == |path| ==> CarvedTile(path + [next], j) == DirectionBit(next, Last(path))
  {
    var path' := path + [next];
    if j < |path| {
      assert path'[j] == path[j];
    }
    if 0 < j {
      assert path'[j - 1] == path[j - 1];
    }
    if j + 1 < |path| {
      assert path'[j + 1] == path[j + 1];
    }
  }

  /** Extending a carved shape by a step to a fresh neighbor gives a carved shape. */
  lemma StepKeepsShape(cols: int, rows: int, path: seq<Cell>, tiles: seq<Tile>, next: Cell)
    requires |tiles| == cols * rows && CarvedShape(cols, rows, path, tiles)
    requires InBounds(cols, rows, next) && next !in path && SideToward(Last(path), next).Some?
    ensures CarvedShape(cols, rows, path + [next], Paint(cols, rows, tiles, Last(path), next))
  {
    StepTiles(cols, rows, path, tiles, next);
    StepKeepsPath(path, next);
    assert OnBoard(cols, rows, path + [next]);
  }

  /** Appending a fresh neighbor keeps a path self-avoiding and connected. */
  lemma StepKeepsPath(path: seq<Cell>, next: Cell)
    requires |path| >= 1 && Distinct(path) && Adjacent(path)
    requires next !in path && SideToward(Last(path), next).Some?
    ensures Distinct(path + [next]) && Adjacent(path + [next])
  {
    var n := |path|;
    var path' := path + [next];
    forall i, j | 0 <= i < j < |path'| ensures path'[i] != path'[j] {
      if j < n { assert path'[i] == path[i] && path'[j] == path[j]; }
    }
    forall j | 0 < j < |path'| ensures SideToward(path'[j - 1], path'[j]).Some? {
      if j < n { assert path'[j - 1] == path[j - 1] && path'[j] == path[j]; }
    }
  }

  /** Marking the current cell visited leaves exactly the cells of the path visited. */
  lemma StepKeepsVisited(cols: int, rows: int, path: seq<Cell>, visited: seq<bool>, next: Cell)
    requires |visited| == cols * rows && |path| >= 1 && InBounds(cols, rows, Last(path))
    requires forall c :: InBounds(cols, rows, c) ==> (At(visited, cols, rows, c) <==> c in path[..|path| - 1])
    ensures forall c :: InBounds(cols, rows, c) ==>
      (At(Put(visited, cols, rows, Last(path), true), cols, rows, c) <==> c in (path + [next])[..|path|])
  {
    var n := |path|;
    assert (path + [next])[..n] == path;
    assert path == path[..n - 1] + [Last(path)];
    forall c | InBounds(cols, rows, c)
      ensures At(Put(visited, cols, rows, Last(path), true), cols, rows, c) <==> c in path
    {
      PutAt(visited, cols, rows, Last(path), true, c);
    }
  }

  /** One carve step from a cell to an open neighbor keeps the carve's invariant. */
  lemma CarveStepKeepsInv(cols: int, rows: int, path: seq<Cell>, tiles: seq<Tile>, visited: seq<bool>, next: Cell)
    requires |tiles| == cols * rows && |visited| == cols * rows
    requires CarveInv(cols, rows, path, tiles, visited)
    requires next in OpenNeighbors(cols, rows, Put(visited, cols, rows, Last(path), true), Around(Last(path)))
    ensures InBounds(cols, rows, next) && next !in path
    ensures CarveInv(cols, rows, path + [next], Paint(cols, rows, tiles, Last(path), next),
                     Put(visited, cols, rows, Last(path), true))
  {
    StepTarget(cols, rows, path, tiles, visited, next);
    StepKeepsShape(cols, rows, path, tiles, next);
    StepKeepsVisited(cols, rows, path, visited, next);
  }

  /**
    When no neighbor is open after marking the current cell, every neighbor is
    off the board or on the path.
  */
  lemma StuckWhenNoNeighbor(cols: int, rows: int, path: seq<Cell>, visited: seq<bool>)
    requires |visited| == cols * rows && |path| >= 1 && InBounds(cols, rows, Last(path))
    requires forall c :: InBounds(cols, rows, c) ==> (At(visited, cols, rows, c) <==> c in path[..|path| - 1])
    requires OpenNeighbors(cols, rows, Put(visited, cols, rows, Last(path), true), Around(Last(path))) == []
    ensures forall s: Side :: !InBounds(cols, rows, Move(Last(path), s)) || Move(Last(path), s) in path
  {
    var current := Last(path);
    var seen := Put(visited, cols, rows, current, true);
    forall s: Side
      ensures !InBounds(cols, rows, Move(current, s)) || Move(current, s) in path
    {
      assert Move(current, s) in Around(current);
      if InBounds(cols, rows, Move(current, s)) {
        assert !Open(cols, rows, seen, Move(current, s));
        PutAt(visited, cols, rows, current, true, Move(current, s));
        if Move(current, s) != current {
          assert Move(current, s) in path[..|path| - 1];
        }
      }
    }
  }

  /**
    What the remaining carve iterations leave, from any state satisfying the
    invariant: a carved shape extending the path; the loop breaks exactly
    when it stops before the cap, and it breaks only where every neighbor of
    the last cell is off the board or already on the path.
  */
  lemma {:induction false} CarveFromResult(cols: int, rows: int, picks: seq<nat>, path: seq<Cell>, tiles: seq<Tile>, visited: seq<bool>)
    requires 1 <= |path| <= Cap + 1 && |picks| == Cap
    requires |tiles| == cols * rows && |visited| == cols * rows
    requires CarveInv(cols, rows, path, tiles, visited)
    ensures var r := CarveFrom(cols, rows, picks, path, tiles, visited);
      CarvedShape(cols, rows, r.path, r.tiles) &&
      (r.broke <==> |r.path| <= Cap) &&
      (r.broke ==> forall s: Side :: !InBounds(cols, rows, Move(Last(r.path), s)) || Move(Last(r.path), s) in r.path)
    decreases Cap + 1 - |path|
  {
    if |path| <= Cap {
      var current := Last(path);
      var seen := Put(visited, cols, rows, current, true);
      var neighbors := OpenNeighbors(cols, rows, seen, Around(current));
      CurrentPipeIsEmptyOrOneSided(cols, rows, path, tiles);
      if |neighbors| > 0 {
        var next := neighbors[picks[|path| - 1] % |neighbors|];
        CarveStepKeepsInv(cols, rows, path, tiles, visited, next);
        var tiles' := Paint(cols, rows, tiles, current, next);
        assert CarveFrom(cols, rows, picks, path, tiles, visited) ==
          CarveFrom(cols, rows, picks, path + [next], tiles', seen);
        CarveFromResult(cols, rows, picks, path + [next], tiles', seen);
      } else {
        assert CarveFrom(cols, rows, picks, path, tiles, visited) == Carving(path, tiles, true);
        StuckWhenNoNeighbor(cols, rows, path, visited);
      }
    }
  }

  /** The starting state of the carve satisfies its invariant. */
  lemma CarveStartInv(cols: int, rows: int, start: Cell)
    requires cols >= 1 && rows >= 1 && InBounds(cols, rows, start)
    ensures CarveInv(cols, rows, [start], Filled(cols * rows, 0), Filled(cols * rows, false))
  {
    var tiles: seq<Tile> := Filled(cols * rows, 0);
    var visited: seq<bool> := Filled(cols * rows, false);
    forall c | InBounds(cols, rows, c)
      ensures At(tiles, cols, rows, c) == 0 && !At(visited, cols, rows, c)
    {
      IndexInRange(cols, rows, c);
    }
    assert CarvedTile([start], 0) == 0;
  }

  /**
    The carve is a self-avoiding path of neighboring cells with the matching
    pairs of bits; it breaks (and sets `end`) exactly when it stops before the
    cap, and then every neighbor of its last cell is off the board or on the
    path.
  */
  lemma CarveShape(cols: int, rows: int, start: Cell, picks: seq<nat>)
    requires cols >= 1 && rows >= 1 && InBounds(cols, rows, start) && |picks| == Cap
    ensures var r := Carve(cols, rows, start, picks);
      CarvedShape(cols, rows, r.path, r.tiles) && r.path[0] == start &&
      (r.broke <==> |r.path| <= Cap) &&
      (r.broke ==> forall s: Side :: !InBounds(cols, rows, Move(Last(r.path), s)) || Move(Last(r.path), s) in r.path)
  {
    CarveStartInv(cols, rows, start);
    CarveFromResult(cols, rows, picks, [start], Filled(cols * rows, 0), Filled(cols * rows, false));
  }

  /** Distinct integers in `[0, n)` number at most `n`. */
  lemma {:induction false} DistinctBelow(s: seq<int>, n: int)
    requires n >= 0
    requires forall i :: 0 <= i < |s| ==> 0 <= s[i] < n
    requires forall i, j :: 0 <= i < j < |s| ==> s[i] != s[j]
    ensures |s| <= n
    decreases |s|
  {
    if |s| > 0 {
      var x := s[|s| - 1];
      var p := seq(|s| - 1, k requires 0 <= k < |s| - 1 => if s[k] > x then s[k] - 1 else s[k]);
      forall i, j | 0 <= i < j < |p| ensures p[i] != p[j] {
        assert s[i] != s[j] && s[i] != x && s[j] != x;
      }
      forall i | 0 <= i < |p| ensures 0 <= p[i] < n - 1 {
        assert s[i] != x;
      }
      DistinctBelow(p, n - 1);
      assert |p| == |s| - 1;
    }
  }

  /** A self-avoiding path on the board has at most `cols * rows` cells. */
  lemma DistinctCellsFit(cols: int, rows: int, path: seq<Cell>)
    requires cols >= 1 && rows >= 1
    requires OnBoard(cols, rows, path)
    requires Distinct(path)
    ensures |path| <= cols * rows
  {
    var idx := seq(|path|, j requires 0 <= j < |path| => IndexAt(cols, path[j]));
    forall i | 0 <= i < |idx| ensures 0 <= idx[i] < cols * rows {
      IndexInRange(cols, rows, path[i]);
    }
    forall i, j | 0 <= i < j < |idx| ensures idx[i] != idx[j] {
      IndexAtInjective(cols, rows, path[i], path[j]);
    }
    DistinctBelow(idx, cols * rows);
  }

  /** On a board of at most 100 cells the carve always breaks, so `end` is always set. */
  lemma SmallBoardCarveBreaks(cols: int, rows: int, start: Cell, picks: seq<nat>)
    requires cols >= 1 && rows >= 1 && cols * rows <= Cap
    requires InBounds(cols, rows, start) && |picks| == Cap
    ensures Carve(cols, rows, start, picks).broke
  {
    CarveShape(cols, rows, start, picks);
    var r := Carve(cols, rows, start, picks);
    assert CarvedShape(cols, rows, r.path, r.tiles);
    DistinctCellsFit(cols, rows, r.path);
  }

  /** A carved tile is empty only on a one-cell path, has one open side at either end, and two inside. */
  lemma {:induction false} CarvedTileSides(path: seq<Cell>, j: int)
    requires Distinct(path) && Adjacent(path) && 0 <= j < |path|
    ensures CarvedTile(path, j) < 16
    ensures |path| == 1 ==> CarvedTile(path, j) == 0
    ensures |path| > 1 && (j == 0 || j == |path| - 1) ==> CarvedTile(path, j) in StartPipes
    ensures 0 < j < |path| - 1 ==> BitCount(CarvedTile(path, j)) == 2
  {
    if j > 0 {
      DirectionBitTowardNeighbor(path[j - 1], path[j]);
    }
    if j + 1 < |path| {
      DirectionBitTowardNeighbor(path[j], path[j + 1]);
    }
    if 0 < j < |path| - 1 {
      var a := Opposite(SideToward(path[j - 1], path[j]).value);
      var b := SideToward(path[j], path[j + 1]).value;
      assert a != b by {
        assert Move(path[j], a) == path[j - 1] by {
          MoveOpposite(path[j - 1], SideToward(path[j - 1], path[j]).value);
        }
        assert path[j - 1] != path[j + 1];
      }
      TwoBitsTwoSides(a, b);
    }
  }

  lemma TwoBitsTwoSides(a: Side, b: Side)
    requires a != b
    ensures Bit(a) | Bit(b) < 16 && BitCount(Bit(a) | Bit(b)) == 2
  {
    if a == 0 {
      assert Bit(a) | Bit(b) in {0x3, 0x5, 0x9};
    } else if a == 1 {
      assert Bit(a) | Bit(b) in {0x3, 0x6, 0xA};
    } else if a == 2 {
      assert Bit(a) | Bit(b) in {0x5, 0x6, 0xC};
    } else {
      assert Bit(a) | Bit(b) in {0x9, 0xA, 0xC};
    }
  }

  /** The random draws of `generateMaze`, one per call of `Math.random` that matters. */
  datatype MazeDraw = MazeDraw(
    startCol: int,      // the start column
    startRow: int,      // the start row
    picks: seq<nat>,    // per carve iteration: the neighbor chosen, modulo their number
    fills: seq<nat>,    // per cell: the index into `PlaceablePipes` for an empty tile
    turns: seq<nat>)    // per cell: the turns of its cleanup rotation

  predicate ValidMazeDraw(cols: int, rows: int, d: MazeDraw) {
    Central(cols, d.startCol) && Central(rows, d.startRow) && |d.picks| == Cap &&
    |d.fills| == cols * rows && |d.turns| == cols * rows &&
    (forall k :: 0 <= k < |d.fills| ==> d.fills[k] < |PlaceablePipes|) &&
    (forall k :: 0 <= k < |d.turns| ==> d.turns[k] < 4)
  }

  function MazeStart(d: MazeDraw): Cell {
    Cell(d.startCol, d.startRow)
  }

  /** The carve of `generateMaze` for the draws `d`. */
  function MazeCarve(cols: int, rows: int, d: MazeDraw): Carving
    requires cols >= 1 && rows >= 1 && ValidMazeDraw(cols, rows, d)
  {
    CentralInBounds(cols, d.startCol);
    CentralInBounds(rows, d.startRow);
    Carve(cols, rows, MazeStart(d), d.picks)
  }

  /**
    The cleanup of one cell: `map[index] ||= PlaceablePipes[fill]`, then
    `rotatePipe(map[index], turns)` unless the cell is `start` or `end`, with
    the rotation masked to the four sides (`RotateMasked`).
  */
  function Finish(carved: Tile, fill: nat, turns: nat, fixed: bool): Tile
    requires fill < |PlaceablePipes| && turns < 4
  {
    var filled := if carved == 0 then PlaceablePipes[fill] else carved;
    if fixed then filled else RotateMasked(filled, turns)
  }

  /** The cleanup pass over the whole map. */
  function Cleaned(cols: int, rows: int, tiles: seq<Tile>, start: Cell, end: Cell, fills: seq<nat>, turns: seq<nat>): (r: seq<Tile>)
    requires cols >= 1 && |tiles| == cols * rows && |fills| == cols * rows && |turns| == cols * rows
    requires forall k :: 0 <= k < |fills| ==> fills[k] < |PlaceablePipes|
    requires forall k :: 0 <= k < |turns| ==> turns[k] < 4
    ensures |r| == |tiles|
  {
    seq(|tiles|, k requires 0 <= k < |tiles| =>
      Finish(tiles[k], fills[k], turns[k], CellAt(cols, k) == start || CellAt(cols, k) == end))
  }

  /** The cleaned tile of a cell depends on its own carved tile and draws only. */
  lemma CleanedAt(cols: int, rows: int, tiles: seq<Tile>, start: Cell, end: Cell, fills: seq<nat>, turns: seq<nat>, c: Cell)
    requires cols >= 1 && |tiles| == cols * rows && |fills| == cols * rows && |turns| == cols * rows
    requires forall k :: 0 <= k < |fills| ==> fills[k] < |PlaceablePipes|
    requires forall k :: 0 <= k < |turns| ==> turns[k] < 4
    requires InBounds(cols, rows, c)
    ensures At(fills, cols, rows, c) < |PlaceablePipes| && At(turns, cols, rows, c) < 4
    ensures At(Cleaned(cols, rows, tiles, start, end, fills, turns), cols, rows, c) ==
      Finish(At(tiles, cols, rows, c), At(fills, cols, rows, c), At(turns, cols, rows, c), c == start || c == end)
  {
    IndexInRange(cols, rows, c);
    CellAtIndexAt(cols, rows, c);
  }

  /** The cleanup leaves a carved `start` or `end` as the carve left it: it is neither filled nor rotated. */
  lemma CleanedKeepsEnds(cols: int, rows: int, tiles: seq<Tile>, start: Cell, end: Cell, fills: seq<nat>, turns: seq<nat>, c: Cell)
    requires cols >= 1 && |tiles| == cols * rows && |fills| == cols * rows && |turns| == cols * rows
    requires forall k :: 0 <= k < |fills| ==> fills[k] < |PlaceablePipes|
    requires forall k :: 0 <= k < |turns| ==> turns[k] < 4
    requires InBounds(cols, rows, c) && (c == start || c == end) && At(tiles, cols, rows, c) != 0
    ensures At(Cleaned(cols, rows, tiles, start, end, fills, turns), cols, rows, c) == At(tiles, cols, rows, c)
  {
    CleanedAt(cols, rows, tiles, start, end, fills, turns, c);
  }

  /** The map `generateMaze` leaves for the draws `d`, `end` being the cell it skips. */
  function MazeTiles(cols: int, rows: int, d: MazeDraw, end: Cell): (r: seq<Tile>)
    requires cols >= 1 && rows >= 1 && ValidMazeDraw(cols, rows, d)
    ensures |r| == cols * rows
  {
    Cleaned(cols, rows, MazeCarve(cols, rows, d).tiles, MazeStart(d), end, d.fills, d.turns)
  }

  /** Filling and rotating never leave an empty tile: every cell of the maze holds a pipe. */
  lemma MazeHasNoEmptyTile(cols: int, rows: int, d: MazeDraw, end: Cell, c: Cell)
    requires cols >= 1 && rows >= 1 && ValidMazeDraw(cols, rows, d) && InBounds(cols, rows, c)
    ensures At(MazeTiles(cols, rows, d, end), cols, rows, c) != 0
  {
    MazeHasNoThreeWayTile(cols, rows, d, end, c);
  }

  /** A carved map holds only tiles with at most two open sides, and no bits above the four sides. */
  lemma CarvedCellSides(cols: int, rows: int, path: seq<Cell>, tiles: seq<Tile>, c: Cell)
    requires |tiles| == cols * rows && CarvedShape(cols, rows, path, tiles) && InBounds(cols, rows, c)
    ensures var t := At(tiles, cols, rows, c);
      t < 16 && (t == 0 || BitCount(t) == 1 || BitCount(t) == 2)
  {
    if c in path {
      var j :| 0 <= j < |path| && path[j] == c;
      CarvedTileSides(path, j);
      if !(0 < j < |path| - 1) && |path| > 1 {
        StartPipesAreOneSided(CarvedTile(path, j));
      }
    }
  }

  /** The sides of a cell after the cleanup, from the sides it had after the carve. */
  lemma FinishKeepsSides(carved: Tile, fill: nat, turns: nat, fixed: bool)
    requires fill < |PlaceablePipes| && turns < 4
    requires carved < 16 && (carved == 0 || BitCount(carved) == 1 || BitCount(carved) == 2)
    ensures Finish(carved, fill, turns, fixed) < 16
    ensures var n := BitCount(Finish(carved, fill, turns, fixed));
      n == 1 || n == 2 || n == 4
  {
    var filled := if carved == 0 then PlaceablePipes[fill] else carved;
    if carved == 0 {
      PlaceablePipesAreTwoSidedOrCross(filled);
    }
    if !fixed {
      RotateMaskedIsCyclic(filled, turns, 0);
      RotateMaskedKeepsBitCount(filled, turns);
    }
  }

  /**
    No cell of the maze holds a three-way piece: carved cells have one or two
    open sides, filled ones two or four, and rotation keeps the count. No
    tile carries a bit above the four sides.
  */
  lemma MazeHasNoThreeWayTile(cols: int, rows: int, d: MazeDraw, end: Cell, c: Cell)
    requires cols >= 1 && rows >= 1 && ValidMazeDraw(cols, rows, d) && InBounds(cols, rows, c)
    ensures At(MazeTiles(cols, rows, d, end), cols, rows, c) < 16
    ensures var n := BitCount(At(MazeTiles(cols, rows, d, end), cols, rows, c));
      n == 1 || n == 2 || n == 4
  {
    var r := MazeCarve(cols, rows, d);
    CentralInBounds(cols, d.startCol);
    CentralInBounds(rows, d.startRow);
    var t := At(r.tiles, cols, rows, c);
    assert t < 16 && (t == 0 || BitCount(t) == 1 || BitCount(t) == 2) by {
      CarveShape(cols, rows, MazeStart(d), d.picks);
      CarvedCellSides(cols, rows, r.path, r.tiles, c);
    }
    CleanedAt(cols, rows, r.tiles, MazeStart(d), end, d.fills, d.turns, c);
    FinishKeepsSides(t, At(d.fills, cols, rows, c), At(d.turns, cols, rows, c), c == MazeStart(d) || c == end);
  }

  /** A cell with no neighbor on the board is the whole board. */
  lemma LoneCell(cols: int, rows: int, c: Cell)
    requires InBounds(cols, rows, c)
    requires forall s: Side :: !InBounds(cols, rows, Move(c, s))
    ensures cols * rows == 1
  {
    assert !InBounds(cols, rows, Move(c, 1)) && !InBounds(cols, rows, Move(c, 3));
    assert !InBounds(cols, rows, Move(c, 0)) && !InBounds(cols, rows, Move(c, 2));
  }

  /** A carve that breaks on a board of two or more cells has taken at least one step. */
  lemma BrokenCarveMoved(cols: int, rows: int, path: seq<Cell>)
    requires |path| >= 1 && InBounds(cols, rows, path[0]) && cols * rows >= 2
    requires forall s: Side :: !InBounds(cols, rows, Move(Last(path), s)) || Move(Last(path), s) in path
    ensures |path| >= 2
  {
    if |path| == 1 {
      var c := path[0];
      assert Last(path) == c;
      forall s: Side ensures !InBounds(cols, rows, Move(c, s)) {
        MoveOpposite(c, s);
        assert Move(c, s) !in path by {
          assert path == [c];
        }
      }
      LoneCell(cols, rows, c);
    }
  }

  /** The carved tiles of the two ends of a path of two or more cells. */
  lemma CarvedEnds(path: seq<Cell>)
    requires Adjacent(path) && |path| >= 2
    ensures CarvedTile(path, 0) == Bit(SideToward(path[0], path[1]).value)
    ensures CarvedTile(path, |path| - 1) == Bit(SideToward(Last(path), path[|path| - 2]).value)
  {
    var n := |path|;
    DirectionBitTowardNeighbor(path[0], path[1]);
    DirectionBitTowardNeighbor(path[n - 2], path[n - 1]);
  }

  /** `t` holds exactly one side: the side of `a` across which its neighbor `b` lies. */
  predicate OnlySideToward(t: Tile, a: Cell, b: Cell) {
    SideToward(a, b).Some? && t == Bit(SideToward(a, b).value)
  }

  /**
    A carved shape that is stuck at its last cell, on a board of two or more
    cells, has taken a step, and its first and last cells each hold the
    single side toward their one neighbor on the path.
  */
  lemma BrokenCarveEnds(cols: int, rows: int, path: seq<Cell>, tiles: seq<Tile>)
    requires cols >= 1 && rows >= 1 && cols * rows >= 2 && |tiles| == cols * rows
    requires CarvedShape(cols, rows, path, tiles)
    requires forall s: Side :: !InBounds(cols, rows, Move(Last(path), s)) || Move(Last(path), s) in path
    ensures |path| >= 2 && InBounds(cols, rows, path[0]) && InBounds(cols, rows, Last(path))
    ensures OnlySideToward(At(tiles, cols, rows, path[0]), path[0], path[1])
    ensures OnlySideToward(At(tiles, cols, rows, Last(path)), Last(path), path[|path| - 2])
  {
    BrokenCarveMoved(cols, rows, path);
    assert At(tiles, cols, rows, path[0]) == CarvedTile(path, 0);
    assert At(tiles, cols, rows, Last(path)) == CarvedTile(path, |path| - 1);
    CarvedEnds(path);
    DirectionBitTowardNeighbor(path[|path| - 2], Last(path));
  }

  /**
    The cleanup of a carved shape stuck at its last cell, with `start` its
    first cell and `end` its last: both ends keep the single side toward
    their one neighbor on the path.
  */
  lemma CleanedCarveEnds(cols: int, rows: int, path: seq<Cell>, tiles: seq<Tile>, fills: seq<nat>, turns: seq<nat>)
    requires cols >= 1 && rows >= 1 && cols * rows >= 2 && |tiles| == cols * rows
    requires |fills| == cols * rows && |turns| == cols * rows
    requires forall k :: 0 <= k < |fills| ==> fills[k] < |PlaceablePipes|
    requires forall k :: 0 <= k < |turns| ==> turns[k] < 4
    requires CarvedShape(cols, rows, path, tiles)
    requires forall s: Side :: !InBounds(cols, rows, Move(Last(path), s)) || Move(Last(path), s) in path
    ensures |path| >= 2 && InBounds(cols, rows, path[0]) && InBounds(cols, rows, Last(path))
    ensures var cleaned := Cleaned(cols, rows, tiles, path[0], Last(path), fills, turns);
      OnlySideToward(At(cleaned, cols, rows, path[0]), path[0], path[1]) &&
      OnlySideToward(At(cleaned, cols, rows, Last(path)), Last(path), path[|path| - 2])
  {
    BrokenCarveEnds(cols, rows, path, tiles);
    CleanedKeepsEnds(cols, rows, tiles, path[0], Last(path), fills, turns, path[0]);
    CleanedKeepsEnds(cols, rows, tiles, path[0], Last(path), fills, turns, Last(path));
  }

  /**
    On a board of two or more cells, when the carve breaks the maze's `start`
    and `end` keep the single side the carve opened on them: toward the
    second cell of the path, and toward the cell before the last.
  */
  lemma MazeStartAndEnd(cols: int, rows: int, d: MazeDraw, r: Carving)
    requires cols >= 1 && rows >= 1 && cols * rows >= 2 && ValidMazeDraw(cols, rows, d)
    requires r == MazeCarve(cols, rows, d) && r.broke
    ensures var path := r.path;
      InBounds(cols, rows, MazeStart(d)) && |path| >= 2 && path[0] == MazeStart(d) && InBounds(cols, rows, Last(path)) &&
      var tiles := MazeTiles(cols, rows, d, Last(path));
      OnlySideToward(At(tiles, cols, rows, MazeStart(d)), path[0], path[1]) &&
      OnlySideToward(At(tiles, cols, rows, Last(path)), Last(path), path[|path| - 2])
  {
    CentralInBounds(cols, d.startCol);
    CentralInBounds(rows, d.startRow);
    assert CarvedShape(cols, rows, r.path, r.tiles) && r.path[0] == MazeStart(d) &&
      forall s: Side :: !InBounds(cols, rows, Move(Last(r.path), s)) || Move(Last(r.path), s) in r.path
    by {
      CarveShape(cols, rows, MazeStart(d), d.picks);
    }
    CleanedCarveEnds(cols, rows, r.path, r.tiles, d.fills, d.turns);
  }
}
