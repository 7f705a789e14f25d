/**
  Board geometry (src/Pipes.js): cells `[col, row]`, the bounds test, the
  row-major index into the flat tile array, and the `offset` table of unit
  moves indexed by side.
*/
module Grid {
  import opened Wrappers
  import opened PipeMask

  /** A `[col, row]` pair. Coordinates are any integers: pointers and walks leave the board. */
  datatype Cell = Cell(col: int, row: int)

  /** `inBounds(col, row)`: inside `[0, cols) x [0, rows)`. */
  predicate InBounds(cols: int, rows: int, c: Cell) {
    0 <= c.col < cols && 0 <= c.row < rows
  }

  /** `indexAt(col, row)`: the row-major position `col + row * cols`. */
  function IndexAt(cols: int, c: Cell): int {
    c.col + c.row * cols
  }

  /** The cell whose row-major position is `k`; the inverse of `IndexAt`. */
  function CellAt(cols: int, k: int): Cell
    requires cols > 0
  {
    Cell(k % cols, k / cols)
  }

  /** A cell in bounds has an index in `[0, cols * rows)`: the flat array is never read outside. */
  lemma IndexInRange(cols: int, rows: int, c: Cell)
    requires InBounds(cols, rows, c)
    ensures 0 <= IndexAt(cols, c) < cols * rows
  {
    assert 0 <= c.row * cols <= (rows - 1) * cols by {
      assert (rows - 1 - c.row) * cols >= 0;
    }
  }

  /** The entry of the flat array `s` (tiles, visited flags) for cell `c`: `s[indexAt(c)]`. */
  function At<T>(s: seq<T>, cols: int, rows: int, c: Cell): T
    requires |s| == cols * rows && InBounds(cols, rows, c)
  {
    IndexInRange(cols, rows, c);
    s[IndexAt(cols, c)]
  }

  /** `s[indexAt(c)] = v`: the flat array with the entry for cell `c` replaced. */
  function Put<T>(s: seq<T>, cols: int, rows: int, c: Cell, v: T): (r: seq<T>)
    requires |s| == cols * rows && InBounds(cols, rows, c)
    ensures |r| == |s|
  {
    IndexInRange(cols, rows, c);
    s[IndexAt(cols, c) := v]
  }

  /** A flat array of `n` entries, all `v`: a fresh `new Array(n)` filled with one value. */
  function Filled<T>(n: nat, v: T): (r: seq<T>)
    ensures |r| == n && forall k :: 0 <= k < n ==> r[k] == v
  {
    if n == 0 then [] else Filled(n - 1, v) + [v]
  }

  /** Writing the entry of one cell leaves the entries of all other cells as they were. */
  lemma PutAt<T>(s: seq<T>, cols: int, rows: int, c: Cell, v: T, d: Cell)
    requires |s| == cols * rows && InBounds(cols, rows, c) && InBounds(cols, rows, d)
    ensures At(Put(s, cols, rows, c, v), cols, rows, d) == if d == c then v else At(s, cols, rows, d)
  {
    IndexInRange(cols, rows, c);
    IndexInRange(cols, rows, d);
    IndexAtInjective(cols, rows, c, d);
    var i, k := IndexAt(cols, c), IndexAt(cols, d);
    assert Put(s, cols, rows, c, v) == s[i := v];
    assert At(Put(s, cols, rows, c, v), cols, rows, d) == s[i := v][k];
  }

  /** Row `row` of the flat array spans `[row * cols, (row + 1) * cols)`, inside `[0, cols * rows)`. */
  lemma NextRow(cols: int, rows: int, row: int)
    requires cols >= 1 && 0 <= row < rows
    ensures 0 <= row * cols && row * cols + cols == (row + 1) * cols <= cols * rows
  {
    assert (row + 1) * cols == row * cols + cols;
    assert cols * rows - (row + 1) * cols == (rows - row - 1) * cols;
    MulNonNegative(rows - row - 1, cols);
    MulNonNegative(row, cols);
  }

  lemma MulNonNegative(a: int, b: int)
    requires a >= 0 && b >= 0
    ensures a * b >= 0
  {
  }

  /** `CellAt` undoes `IndexAt` on the board. */
  lemma CellAtIndexAt(cols: int, rows: int, c: Cell)
    requires InBounds(cols, rows, c)
    ensures CellAt(cols, IndexAt(cols, c)) == c
  {
    DivModUnique(IndexAt(cols, c), cols, c.row, c.col);
  }

  /** Euclidean division has one quotient and remainder. */
  lemma DivModUnique(k: int, d: int, q: int, r: int)
    requires d > 0 && 0 <= r < d && k == q * d + r
    ensures k / d == q && k % d == r
  {
    var q', r' := k / d, k % d;
    assert (q - q') * d == r' - r;
    if q > q' {
      MulAtLeast(q - q', d);
    } else if q < q' {
      MulAtLeast(q' - q, d);
    }
  }

  lemma MulAtLeast(a: int, d: int)
    requires a >= 1 && d > 0
    ensures a * d >= d
  {
    assert a * d == d + (a - 1) * d;
  }

  /** `IndexAt` undoes `CellAt` on `[0, cols * rows)`, and the cell is on the board. */
  lemma {:induction false} IndexAtCellAt(cols: int, rows: int, k: int)
    requires cols > 0 && 0 <= k < cols * rows
    ensures InBounds(cols, rows, CellAt(cols, k))
    ensures IndexAt(cols, CellAt(cols, k)) == k
  {
    var q := k / cols;
    if q >= rows {
      assert q * cols >= rows * cols;
    }
  }

  /** Two cells on the board share an index only if they are the same cell. */
  lemma IndexAtInjective(cols: int, rows: int, a: Cell, b: Cell)
    requires InBounds(cols, rows, a) && InBounds(cols, rows, b)
    ensures IndexAt(cols, a) == IndexAt(cols, b) <==> a == b
  {
    if IndexAt(cols, a) == IndexAt(cols, b) {
      CellAtIndexAt(cols, rows, a);
      CellAtIndexAt(cols, rows, b);
    }
  }

  /** The `offset` table, column by column: `offset[s][0]` and `offset[s][1]` (Up is row - 1). */
  function OffsetCol(s: Side): int {
    if s == 1 then -1 else if s == 3 then 1 else 0
  }

  function OffsetRow(s: Side): int {
    if s == 0 then -1 else if s == 2 then 1 else 0
  }

  /** The cell next to `c` across side `s`. */
  function Move(c: Cell, s: Side): Cell {
    Cell(c.col + OffsetCol(s), c.row + OffsetRow(s))
  }

  /** The side facing `s`: `(s + 2) % 4`, the side a walk enters through. */
  function Opposite(s: Side): Side {
    (s + 2) % 4
  }

  /** Moving across a side and back across the opposite side returns to the cell. */
  lemma MoveOpposite(c: Cell, s: Side)
    ensures Opposite(Opposite(s)) == s
    ensures Move(Move(c, s), Opposite(s)) == c
    ensures Move(c, s) != c
  {
  }

  /** The side of `a` across which `b` lies, if `b` is next to `a`. */
  function SideToward(a: Cell, b: Cell): (r: Option<Side>)
    ensures r.Some? ==> Move(a, r.value) == b
    ensures forall s: Side :: Move(a, s) == b ==> r == Some(s)
  {
    if b == Move(a, 0) then Some(0)
    else if b == Move(a, 1) then Some(1)
    else if b == Move(a, 2) then Some(2)
    else if b == Move(a, 3) then Some(3)
    else None
  }

  /**
    `Math.floor(dim * (0.25 + 0.5 * r))`: the start coordinate on an axis of
    `dim` cells for a draw `r` of `Math.random()`.
  */
  function StartFloor(dim: int, r: real): int {
    (dim as real * (0.25 + 0.5 * r)).Floor
  }

  /** The start coordinates that a draw in `[0, 1)` can yield on an axis of `dim` cells. */
  predicate Central(dim: int, v: int) {
    4 * v + 4 > dim && 4 * v < 3 * dim
  }

  /** Every draw in `[0, 1)` gives a central coordinate. */
  lemma CentralFromDraw(dim: int, r: real)
    requires dim >= 1 && 0.0 <= r < 1.0
    ensures Central(dim, StartFloor(dim, r))
  {
    var d := dim as real;
    var dr := d * r;
    MulBelow(d, r);
    var x := 0.25 * d + 0.5 * dr;
    assert d * (0.25 + 0.5 * r) == x;
    FloorCentral(dim, x);
  }

  lemma FloorCentral(dim: int, x: real)
    requires 0.25 * (dim as real) <= x < 0.75 * (dim as real)
    ensures Central(dim, x.Floor)
  {
    var v := x.Floor;
    FloorBounds(x);
    assert ((4 * v + 4) as real) > dim as real && ((4 * v) as real) < ((3 * dim) as real);
  }

  /** Every central coordinate is the start coordinate for some draw in `[0, 1)`. */
  lemma CentralHasDraw(dim: int, v: int)
    requires dim >= 1 && Central(dim, v)
    ensures exists r: real :: 0.0 <= r < 1.0 && StartFloor(dim, r) == v
  {
    var d := dim as real;
    var lo := if 4 * v >= dim then v as real else d / 4.0;
    var q := lo / d;
    var r := 2.0 * q - 0.5;
    assert d * q == lo;
    assert 0.25 + 0.5 * r == q;
    assert 4.0 * lo < 3.0 * d && 4.0 * lo >= d;
    DivBelow(lo, d, 0.75);
    DivAtLeast(lo, d, 0.25);
    FloorBounds(lo);
    assert StartFloor(dim, r) == v;
  }

  lemma FloorBounds(x: real)
    ensures (x.Floor as real) <= x < (x.Floor as real) + 1.0
  {
  }

  lemma DivBelow(a: real, d: real, c: real)
    requires d > 0.0 && a < c * d
    ensures a / d < c
  {
  }

  lemma DivAtLeast(a: real, d: real, c: real)
    requires d > 0.0 && a >= c * d
    ensures a / d >= c
  {
  }

  lemma MulBelow(d: real, r: real)
    requires d > 0.0 && 0.0 <= r < 1.0
    ensures 0.0 <= d * r < d
  {
  }

  /** A central coordinate lies on the board. */
  lemma CentralInBounds(dim: int, v: int)
    requires dim >= 1 && Central(dim, v)
    ensures 0 <= v < dim
  {
  }
}
