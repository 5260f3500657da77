/** The bounds test of the step compares the column with the number of rows
    and the row with the length of row 0. This module shows what that does on
    grids that are not square, and states the test the code evidently intends. */
module Bounds {
  import opened Base
  import opened Grid
  import opened Traversal

  /** The intended test: the row inside the grid, the column inside that row,
      then not a wall and not visited. */
  function IntendedProbe(g: Maze, visited: set<Coord>, c: Coord): (p: Probe)
    ensures p != Threw
    ensures p == Admitted <==> Qualifies(g, visited, c)
  {
    var (newY, newX) := c;
    if !(0 <= newY < |g| && 0 <= newX < |g[newY]|) then Rejected
    else if g[newY][newX] == Wall then Rejected
    else if c in visited then Rejected
    else Admitted
  }

  /** On square grids the test as written and the intended test agree, so every
      property proved about the traversal on square grids holds of both. */
  lemma ProbeAgreesOnSquare(g: Maze, visited: set<Coord>, c: Coord)
    requires Square(g)
    ensures ProbeCell(g, visited, c) == IntendedProbe(g, visited, c)
  {
    ProbeOnSquare(g, visited, c);
  }

  /** Two non-square grids on which the test as written goes wrong. On the
      one-row grid the first step throws (it reads row 1, which does not exist)
      although the cell to the right is open; on the one-column grid the first
      step pushes (0, 1), which is outside the grid, although the cell below is
      open. */
  lemma NonSquareCounterexamples()
    ensures var wide := [[Start, Other]];
      && IntendedProbe(wide, {(0, 0)}, (0, 1)) == Admitted
      && Advance(wide, FreshRun((0, 0))).Fault?
    ensures var tall := [[Start], [Other]];
      && IntendedProbe(tall, {(0, 0)}, (1, 0)) == Admitted
      && Advance(tall, FreshRun((0, 0))).Stepped?
      && Advance(tall, FreshRun((0, 0))).next.stack == [(0, 0), (0, 1)]
      && !InBounds(tall, (0, 1))
  {
    var wide := [[Start, Other]];
    assert ProbeCell(wide, {(0, 0)}, Neighbour((0, 0), 0)) == Rejected;
    assert ProbeCell(wide, {(0, 0)}, Neighbour((0, 0), 1)) == Threw;
    var tall := [[Start], [Other]];
    assert ProbeCell(tall, {(0, 0)}, Neighbour((0, 0), 0)) == Rejected;
    assert ProbeCell(tall, {(0, 0)}, Neighbour((0, 0), 1)) == Rejected;
    assert ProbeCell(tall, {(0, 0)}, Neighbour((0, 0), 2)) == Admitted;
  }
}
