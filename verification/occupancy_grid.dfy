/**
 * The occupancy grid that game-world.ts builds when a game ends
 * (`calcularPosicionBola` and the fill loop of `setMatrix`).
 *
 * The table, 1423 by 762 units, is cut into 20 rows and 37 columns. A
 * position falls in row `floor(y / (762/20))` and column
 * `floor(x / (1423/37))`; only a negative index makes it fall outside. There
 * is no upper-bound check, so the fill behaves as JavaScript arrays do: a row
 * index of 20 or more reads an undefined row and the assignment throws a
 * `TypeError`, and a column index of 37 or more lengthens that row, leaving
 * holes between its old end and the new cell. Holes are `None` here.
 */
module OccupancyGrid {
  import opened Wrappers
  import opened Geometry
  import opened GameState

  const Rows: nat := 20
  const Columns: nat := 37
  const TableWidth: real := 1423.0
  const TableHeight: real := 762.0
  const CellWidth: real := TableWidth / 37.0
  const CellHeight: real := TableHeight / 20.0
  /** The value written into the cell of a ball. */
  const Occupied: int := 255

  datatype Cell = Cell(row: int, column: int)

  /** A grid of rows; `None` is a hole left by writing past the end of a row. */
  type Grid = seq<seq<Option<int>>>

  /** Writing into row 20 or beyond: the row is `undefined` and the assignment throws. */
  datatype GridError = RowOverrun(row: int)

  /** `calcularPosicionBola`: the cell of a position, or `None` when an index is negative. */
  function CellOf(p: Vec): (r: Option<Cell>)
    ensures r.None? <==> p.x < 0.0 || p.y < 0.0
    ensures r.Some? ==> 0 <= r.value.row && 0 <= r.value.column
  {
    var row := (p.y / CellHeight).Floor;
    var column := (p.x / CellWidth).Floor;
    if row >= 0 && column >= 0 then Some(Cell(row, column)) else None
  }

  /** A cell is the band of the table a position falls in: `row * h <= y < (row + 1) * h`, and likewise for columns. */
  lemma CellContainsPosition(p: Vec)
    requires CellOf(p).Some?
    ensures var c := CellOf(p).value;
      && c.row as real * CellHeight <= p.y < (c.row + 1) as real * CellHeight
      && c.column as real * CellWidth <= p.x < (c.column + 1) as real * CellWidth
  {
    var c := CellOf(p).value;
    FloorBand(p.y, CellHeight);
    FloorBand(p.x, CellWidth);
  }

  lemma FloorBand(v: real, h: real)
    requires h > 0.0
    ensures (v / h).Floor as real * h <= v < ((v / h).Floor + 1) as real * h
  {
    var q := v / h;
    assert q * h == v;
    Band(q, q.Floor, h, v);
  }

  /** Scaling `f <= q < f + 1` by a positive `h`. */
  lemma Band(q: real, f: int, h: real, v: real)
    requires f as real <= q < f as real + 1.0 && h > 0.0 && q * h == v
    ensures f as real * h <= v < (f + 1) as real * h
  {
    ScaleMonotone(f as real, q, h);
    assert f as real * h <= v;
    ScaleStrict(q, f as real + 1.0, h);
    assert v < (f as real + 1.0) * h;
    assert (f + 1) as real == f as real + 1.0;
  }

  lemma ScaleMonotone(a: real, b: real, h: real)
    requires a <= b && h > 0.0
    ensures a * h <= b * h
  {
    assert b * h - a * h == (b - a) * h;
  }

  lemma ScaleStrict(a: real, b: real, h: real)
    requires a < b && h > 0.0
    ensures a * h < b * h
  {
    assert b * h - a * h == (b - a) * h;
  }

  /** No upper bound: the right edge of the table maps to column 37 and the bottom edge to row 20, past the grid. */
  lemma EdgesFallOutsideGrid()
    ensures CellOf(Vec(TableWidth, 0.0)) == Some(Cell(0, Columns))
    ensures CellOf(Vec(0.0, TableHeight)) == Some(Cell(Rows, 0))
  {
  }

  /** The grid before any ball is drawn: 20 rows of 37 zeros. */
  function EmptyGrid(): (g: Grid)
    ensures |g| == Rows
    ensures forall i :: 0 <= i < Rows ==> |g[i]| == Columns
    ensures forall i, j :: 0 <= i < Rows && 0 <= j < |g[i]| ==> g[i][j] == Some(0)
  {
    seq(Rows, _ => seq(Columns, _ => Some(0)))
  }

  /** `row[j] = 255` on a JavaScript array: overwrite inside the row, or lengthen it with holes. */
  function SetCell(row: seq<Option<int>>, j: nat): (r: seq<Option<int>>)
    ensures |r| == if j < |row| then |row| else j + 1
    ensures r[j] == Some(Occupied)
    ensures forall k :: 0 <= k < |r| && k != j ==> r[k] == if k < |row| then row[k] else None
  {
    if j < |row| then row[j := Some(Occupied)]
    else row + seq(j - |row|, _ => None) + [Some(Occupied)]
  }

  /** `data[fila][columna] = 255`. */
  function Mark(g: Grid, c: Cell): (r: Result<Grid, GridError>)
    requires 0 <= c.row && 0 <= c.column
    ensures r.Failure? <==> c.row >= |g|
    ensures r.Success? ==> r.value == g[c.row := SetCell(g[c.row], c.column)]
  {
    if c.row < |g| then Success(g[c.row := SetCell(g[c.row], c.column)]) else Failure(RowOverrun(c.row))
  }

  /** Ball `b` is drawn into cell (i, j). */
  predicate Occupies(b: Ball, i: int, j: int) {
    b.visible && CellOf(b.pos) == Some(Cell(i, j))
  }

  /** Ball `b` is drawn below the last row. */
  predicate Overruns(b: Ball) {
    b.visible && CellOf(b.pos).Some? && CellOf(b.pos).value.row >= Rows
  }

  /** One of the first `n` listed balls is drawn into cell (i, j). */
  predicate MarkedBefore(objects: seq<Ball>, roster: seq<nat>, n: nat, i: int, j: int)
    requires n <= |roster|
    requires forall k :: 0 <= k < |roster| ==> roster[k] < |objects|
  {
    exists k :: 0 <= k < n && Occupies(objects[roster[k]], i, j)
  }

  /** The value of cell (i, j) once the first `n` balls are drawn. */
  function Expected(objects: seq<Ball>, roster: seq<nat>, n: nat, i: int, j: int): Option<int>
    requires n <= |roster|
    requires forall k :: 0 <= k < |roster| ==> roster[k] < |objects|
  {
    if MarkedBefore(objects, roster, n, i, j) then Some(Occupied)
    else if j < Columns then Some(0)
    else None
  }

  /** The grid after drawing the first `n` balls, none of which overran. */
  ghost predicate GridAfter(objects: seq<Ball>, roster: seq<nat>, n: nat, g: Grid)
    requires n <= |roster|
    requires forall k :: 0 <= k < |roster| ==> roster[k] < |objects|
  {
    && |g| == Rows
    && (forall i :: 0 <= i < Rows ==> Columns <= |g[i]|)
    && (forall i, j :: 0 <= i < Rows && 0 <= j < |g[i]| ==> g[i][j] == Expected(objects, roster, n, i, j))
    && (forall i, j :: 0 <= i < Rows && MarkedBefore(objects, roster, n, i, j) ==> j < |g[i]|)
    && (forall k :: 0 <= k < n ==> !Overruns(objects[roster[k]]))
  }

  /** Drawing a ball that is hidden or off the top or left edge changes nothing. */
  lemma SkipStep(objects: seq<Ball>, roster: seq<nat>, n: nat, g: Grid)
    requires n < |roster|
    requires forall k :: 0 <= k < |roster| ==> roster[k] < |objects|
    requires GridAfter(objects, roster, n, g)
    requires !objects[roster[n]].visible || CellOf(objects[roster[n]].pos).None?
    ensures GridAfter(objects, roster, n + 1, g)
  {
    var m := n + 1;
    forall i, j ensures MarkedBefore(objects, roster, m, i, j) == MarkedBefore(objects, roster, n, i, j) {
      if MarkedBefore(objects, roster, m, i, j) {
        var k :| 0 <= k < n + 1 && Occupies(objects[roster[k]], i, j);
        assert k < n;
      }
    }
    assert forall k :: 0 <= k < n + 1 ==> !Overruns(objects[roster[k]]) by {
      assert !Overruns(objects[roster[n]]);
    }
    assert forall i, j :: 0 <= i < Rows && 0 <= j < |g[i]| ==> g[i][j] == Expected(objects, roster, m, i, j);
    assert forall i, j :: 0 <= i < Rows && MarkedBefore(objects, roster, m, i, j) ==> j < |g[i]|;
  }

  /** Drawing a ball into a cell of the first 20 rows marks exactly that cell. */
  lemma MarkStep(objects: seq<Ball>, roster: seq<nat>, n: nat, g: Grid, c: Cell)
    requires n < |roster|
    requires forall k :: 0 <= k < |roster| ==> roster[k] < |objects|
    requires GridAfter(objects, roster, n, g)
    requires objects[roster[n]].visible && CellOf(objects[roster[n]].pos) == Some(c)
    requires c.row < Rows
    ensures 0 <= c.column
    ensures GridAfter(objects, roster, n + 1, g[c.row := SetCell(g[c.row], c.column)])
  {
    var b := objects[roster[n]];
    var g' := g[c.row := SetCell(g[c.row], c.column)];
    var m := n + 1;
    assert Occupies(b, c.row, c.column);
    forall i, j
      ensures MarkedBefore(objects, roster, m, i, j) == (MarkedBefore(objects, roster, n, i, j) || (i == c.row && j == c.column))
    {
      if MarkedBefore(objects, roster, m, i, j) && !(i == c.row && j == c.column) {
        var k :| 0 <= k < m && Occupies(objects[roster[k]], i, j);
        assert k < n;
      }
    }
    assert forall k :: 0 <= k < m ==> !Overruns(objects[roster[k]]) by {
      assert !Overruns(b);
    }
    assert forall i :: 0 <= i < Rows ==> Columns <= |g'[i]|;
    forall i, j | 0 <= i < Rows && 0 <= j < |g'[i]|
      ensures g'[i][j] == Expected(objects, roster, m, i, j)
    {
      if i == c.row && j != c.column && j >= |g[i]| {
        assert !MarkedBefore(objects, roster, n, i, j);
      }
    }
    forall i, j | 0 <= i < Rows && MarkedBefore(objects, roster, m, i, j)
      ensures j < |g'[i]|
    {
    }
  }

  /**
   * The fill loop of `setMatrix` over the active balls, in list order. It
   * fails exactly when a visible ball lies in row 20 or beyond. Otherwise the
   * grid has 20 rows of at least 37 cells; a cell holds 255 exactly when a
   * visible ball of the list falls in it, 0 when none does and it is one of
   * the 37 original cells, and is a hole past them; and every visible ball's
   * cell lies inside its row.
   */
  method SetMatrix(objects: seq<Ball>, roster: seq<nat>) returns (r: Result<Grid, GridError>)
    requires forall k :: 0 <= k < |roster| ==> roster[k] < |objects|
    ensures r.Failure? <==> exists k :: 0 <= k < |roster| && Overruns(objects[roster[k]])
    ensures r.Success? ==> |r.value| == Rows && forall i :: 0 <= i < Rows ==> Columns <= |r.value[i]|
    ensures r.Success? ==> forall i, j :: 0 <= i < Rows && 0 <= j < |r.value[i]| ==>
      r.value[i][j] == (if exists k :: 0 <= k < |roster| && Occupies(objects[roster[k]], i, j) then Some(Occupied)
                        else if j < Columns then Some(0) else None)
    ensures r.Success? ==> forall k :: 0 <= k < |roster| && objects[roster[k]].visible && CellOf(objects[roster[k]].pos).Some? ==>
      var c := CellOf(objects[roster[k]].pos).value;
      0 <= c.row < Rows && c.column < |r.value[c.row]|
  {
    var g := EmptyGrid();
    var n := 0;
    while n < |roster|
      invariant n <= |roster|
      invariant GridAfter(objects, roster, n, g)
    {
      var b := objects[roster[n]];
      var cell := CellOf(b.pos);
      if !b.visible || cell.None? {
        SkipStep(objects, roster, n, g);
      } else {
        var c := cell.value;
        var m := Mark(g, c);
        if m.Failure? {
          assert Overruns(objects[roster[n]]);
          return Failure(m.error);
        }
        MarkStep(objects, roster, n, g, c);
        g := m.value;
      }
      n := n + 1;
    }
    r := Success(g);
    forall k | 0 <= k < |roster| && objects[roster[k]].visible && CellOf(objects[roster[k]].pos).Some?
      ensures var c := CellOf(objects[roster[k]].pos).value;
        0 <= c.row < Rows && c.column < |g[c.row]|
    {
      var c := CellOf(objects[roster[k]].pos).value;
      assert !Overruns(objects[roster[k]]);
      assert MarkedBefore(objects, roster, n, c.row, c.column) by {
        assert Occupies(objects[roster[k]], c.row, c.column);
      }
    }
  }
}
