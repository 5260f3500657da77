/** The maze grid: cell kinds, (row, column) coordinates, bounds, adjacency
    and reachability through non-wall cells. */
module Grid {
  import opened Base

  /** The four cell kinds a maze holds. */
  datatype Cell = Wall | Start | End | Other

  /** A coordinate `(row, column)`; the source writes it `[y, x]`. */
  type Coord = (int, int)

  /** A maze is a sequence of rows; nothing forces the rows to agree in length. */
  type Maze = seq<seq<Cell>>

  /** The JavaScript read `row[i]`: `undefined` (here `None`) outside the row. */
  function Lookup(row: seq<Cell>, i: int): (r: Option<Cell>)
    ensures r.Some? <==> 0 <= i < |row|
    ensures r.Some? ==> r.value == row[i]
  {
    if 0 <= i < |row| then Some(row[i]) else None
  }

  predicate InBounds(g: Maze, c: Coord) {
    0 <= c.0 < |g| && 0 <= c.1 < |g[c.0]|
  }

  /** An in-bounds cell that is not a wall. */
  predicate Open(g: Maze, c: Coord) {
    InBounds(g, c) && g[c.0][c.1] != Wall
  }

  predicate IsEnd(g: Maze, c: Coord) {
    InBounds(g, c) && g[c.0][c.1] == End
  }

  /** Every row is as long as there are rows: an n-by-n grid. */
  predicate Square(g: Maze) {
    forall r :: 0 <= r < |g| ==> |g[r]| == |g|
  }

  /** All in-bounds coordinates of the grid. */
  function Cells(g: Maze): set<Coord> {
    set r, c | 0 <= r < |g| && 0 <= c < |g[r]| :: (r, c)
  }

  /** The coordinates of row `r` with columns below `cols`. */
  function RowCells(r: int, cols: nat): set<Coord> {
    set c | 0 <= c < cols :: (r, c)
  }

  lemma {:induction false} RowCellsSize(r: int, cols: nat)
    ensures |RowCells(r, cols)| == cols
  {
    if cols > 0 {
      RowCellsSize(r, cols - 1);
      assert RowCells(r, cols) == RowCells(r, cols - 1) + {(r, cols - 1)};
    } else {
      assert RowCells(r, cols) == {};
    }
  }

  /** The coordinates of a `rows`-by-`cols` rectangle. */
  function Box(rows: nat, cols: nat): set<Coord> {
    set r, c | 0 <= r < rows && 0 <= c < cols :: (r, c)
  }

  lemma {:induction false} BoxSize(rows: nat, cols: nat)
    ensures |Box(rows, cols)| == rows * cols
  {
    if rows > 0 {
      BoxSize(rows - 1, cols);
      RowCellsSize(rows - 1, cols);
      assert Box(rows, cols) == Box(rows - 1, cols) + RowCells(rows - 1, cols);
      assert Box(rows - 1, cols) * RowCells(rows - 1, cols) == {};
      assert |Box(rows, cols)| == |Box(rows - 1, cols)| + |RowCells(rows - 1, cols)|;
      MulSucc(rows, cols);
    } else {
      assert Box(rows, cols) == {};
    }
  }

  lemma MulSucc(a: nat, b: nat)
    requires a > 0
    ensures (a - 1) * b + b == a * b
  {
  }

  /** An n-by-n grid has n * n cells. */
  lemma SquareCellCount(g: Maze)
    requires Square(g)
    ensures |Cells(g)| == |g| * |g|
  {
    assert Cells(g) == Box(|g|, |g|);
    BoxSize(|g|, |g|);
  }

  /** 4-adjacency: the coordinates differ by one in exactly one axis. */
  predicate Adjacent(a: Coord, b: Coord) {
    (a.0 == b.0 && (a.1 - b.1 == 1 || b.1 - a.1 == 1)) ||
    (a.1 == b.1 && (a.0 - b.0 == 1 || b.0 - a.0 == 1))
  }

  /** A walk: a non-empty sequence of open cells, each adjacent to the next. */
  predicate Walk(g: Maze, w: seq<Coord>) {
    && |w| > 0
    && (forall i :: 0 <= i < |w| ==> Open(g, w[i]))
    && (forall i :: 0 < i < |w| ==> Adjacent(w[i - 1], w[i]))
  }

  /** Some end cell can be reached from `from` through non-wall cells. */
  ghost predicate EndReachable(g: Maze, from: Coord) {
    exists w :: Walk(g, w) && w[0] == from && IsEnd(g, w[|w| - 1])
  }

  /** A set of cells is closed when every open neighbour of a member is a member. */
  ghost predicate Closed(g: Maze, s: set<Coord>) {
    forall a, b :: a in s && Adjacent(a, b) && Open(g, b) ==> b in s
  }

  /** A closed set that holds the first cell of a walk holds every cell of it. */
  lemma {:induction false} ClosedHoldsWalk(g: Maze, s: set<Coord>, w: seq<Coord>)
    requires Closed(g, s) && Walk(g, w) && w[0] in s
    ensures forall i :: 0 <= i < |w| ==> w[i] in s
  {
    if |w| > 1 {
      var front := w[..|w| - 1];
      assert Walk(g, front) by {
        forall i | 0 < i < |front| ensures Adjacent(front[i - 1], front[i]) {
          assert front[i - 1] == w[i - 1] && front[i] == w[i];
        }
      }
      ClosedHoldsWalk(g, s, front);
      assert w[|w| - 2] == front[|front| - 1];
      assert Adjacent(w[|w| - 2], w[|w| - 1]);
      forall i | 0 <= i < |w| ensures w[i] in s {
        if i < |w| - 1 { assert w[i] == front[i]; }
      }
    }
  }

  /** A closed set holding `from` and no end cell shows that no end is reachable. */
  lemma ClosedWithoutEndBlocksEnd(g: Maze, s: set<Coord>, from: Coord)
    requires Closed(g, s) && from in s
    requires forall c :: c in s ==> !IsEnd(g, c)
    ensures !EndReachable(g, from)
  {
    forall w | Walk(g, w) && w[0] == from
      ensures !IsEnd(g, w[|w| - 1])
    {
      ClosedHoldsWalk(g, s, w);
    }
  }
}
