/** One step of the depth-first traversal (`moveGhost` in MazeScene.tsx): the
    closure state of a run, the literal neighbour test, the ordered scan and
    the step itself, with the grid's JavaScript reads made explicit. */
module Traversal {
  import opened Base
  import opened Grid

  /** The `[dy, dx]` table in the order the step scans it: left, down, right, up. */
  const Directions: seq<Coord> := [(0, -1), (1, 0), (0, 1), (-1, 0)]

  function Neighbour(c: Coord, d: nat): (n: Coord)
    requires d < 4
    ensures Adjacent(c, n)
    ensures d == 0 ==> n == (c.0, c.1 - 1)
    ensures d == 1 ==> n == (c.0 + 1, c.1)
    ensures d == 2 ==> n == (c.0, c.1 + 1)
    ensures d == 3 ==> n == (c.0 - 1, c.1)
  {
    (c.0 + Directions[d].0, c.1 + Directions[d].1)
  }

  /** The state a run's closure owns: the `isTraversing` value it captured when
      it was launched, the cells whose `visited` entry is true, and the stack. */
  datatype Run = Run(armed: bool, visited: set<Coord>, stack: seq<Coord>)

  /** A fresh run: nothing visited, the start cell alone on the stack. */
  function FreshRun(start: Coord): (r: Run)
    ensures r.armed && r.visited == {} && r.stack == [start]
  {
    Run(true, {}, [start])
  }

  /** Outcome of testing one candidate neighbour: it passes, it fails, or the
      test itself throws because `data[newY]` is `undefined`. */
  datatype Probe = Admitted | Rejected | Threw

  /** The bounds test as written: the column `newX` is compared with the number
      of rows and the row `newY` with the length of row 0. */
  predicate PassesBoundsTest(g: Maze, c: Coord) {
    var (newY, newX) := c;
    newX >= 0 && newY >= 0 && newX < |g| && newY < |g[0]|
  }

  /** On a square grid the bounds test as written is the true bounds test, so
      the reads `data[newY][newX]` and `visited[newY][newX]` stay in bounds. */
  lemma BoundsTestOnSquare(g: Maze, c: Coord)
    requires Square(g)
    ensures PassesBoundsTest(g, c) <==> InBounds(g, c)
  {
  }

  /** The neighbour test as written: the bounds test, then `data[newY][newX]`
      must not be a wall, then `visited[newY][newX]` must be false. */
  function ProbeCell(g: Maze, visited: set<Coord>, c: Coord): (p: Probe)
    ensures p == Admitted ==> 0 <= c.0 < |g| && c !in visited && Lookup(g[c.0], c.1) != Some(Wall)
    ensures p == Threw ==> c.0 >= |g|
  {
    var (newY, newX) := c;
    if !PassesBoundsTest(g, c) then Rejected
    else if newY >= |g| then Threw
    else if Lookup(g[newY], newX) == Some(Wall) then Rejected
    else if c in visited then Rejected
    else Admitted
  }

  /** Outcome of scanning the directions: the first one admitted, none, or the
      first probe that throws. */
  datatype Scan = Found(dir: nat) | NoneFound | Aborted(dir: nat)

  predicate RejectedBefore(g: Maze, visited: set<Coord>, cur: Coord, from: nat, to: nat)
    requires from <= to <= 4
  {
    forall j :: from <= j < to ==> ProbeCell(g, visited, Neighbour(cur, j)) == Rejected
  }

  /** The `for ... of directions` loop with its `break`, from direction `d` on. */
  function ScanFrom(g: Maze, visited: set<Coord>, cur: Coord, d: nat): (r: Scan)
    requires d <= 4
    decreases 4 - d
    ensures r.Found? ==>
      && d <= r.dir < 4
      && ProbeCell(g, visited, Neighbour(cur, r.dir)) == Admitted
      && RejectedBefore(g, visited, cur, d, r.dir)
    ensures r.Aborted? ==>
      && d <= r.dir < 4
      && ProbeCell(g, visited, Neighbour(cur, r.dir)) == Threw
      && RejectedBefore(g, visited, cur, d, r.dir)
    ensures r.NoneFound? <==> RejectedBefore(g, visited, cur, d, 4)
  {
    if d == 4 then NoneFound
    else match ProbeCell(g, visited, Neighbour(cur, d))
      case Admitted => Found(d)
      case Threw => Aborted(d)
      case Rejected => ScanFrom(g, visited, cur, d + 1)
  }

  /** What one call of the step does. `Skip`: it returned at once and published
      nothing. `Stepped`: it published `pos` and `path`, left the closure in
      `next`, and rescheduled itself or not. `Fault`: it published `pos` and
      `path` and then threw, so nothing was rescheduled. */
  datatype Step =
    | Skip
    | Stepped(pos: Coord, path: seq<Coord>, next: Run, rescheduled: bool)
    | Fault(pos: Coord, path: seq<Coord>)

  /** The step applied to the closure state `run` on grid `g`. */
  function Advance(g: Maze, run: Run): (r: Step)
    ensures r.Skip? <==> !run.armed || |run.stack| == 0
    ensures !r.Skip? ==> r.pos == Last(run.stack) && r.path == run.stack
    ensures r.Fault? ==> !(Square(g) && 0 <= Last(run.stack).0 < |g|)
    ensures r.Stepped? ==> r.next.armed == run.armed && r.next.visited == run.visited + {r.pos}
    ensures r.Stepped? ==> (r.rescheduled <==> !IsEnd(g, r.pos))
    ensures r.Stepped? && !r.rescheduled ==> r.next.stack == run.stack
    ensures r.Stepped? && r.rescheduled ==>
      || (&& |r.next.stack| == |run.stack| + 1
          && r.next.stack[..|run.stack|] == run.stack
          && IsFirstAdmitted(g, r.next.visited, r.pos, Last(r.next.stack)))
      || (&& r.next.stack == run.stack[..|run.stack| - 1]
          && RejectedBefore(g, r.next.visited, r.pos, 0, 4))
  {
    if !run.armed || |run.stack| == 0 then Skip
    else
      var cur := Last(run.stack);
      var (y, x) := cur;
      if !(0 <= y < |g|) then
        Fault(cur, run.stack)
      else
        var visited := run.visited + {cur};
        if Lookup(g[y], x) == Some(End) then
          Stepped(cur, run.stack, Run(run.armed, visited, run.stack), false)
        else
          match ScanFrom(g, visited, cur, 0)
          case Found(d) =>
            Stepped(cur, run.stack, Run(run.armed, visited, run.stack + [Neighbour(cur, d)]), true)
          case NoneFound =>
            Stepped(cur, run.stack, Run(run.armed, visited, run.stack[..|run.stack| - 1]), true)
          case Aborted(d) =>
            Fault(cur, run.stack)
  }

  /** `c` is the neighbour of `cur` in the first direction the scan admits. */
  predicate IsFirstAdmitted(g: Maze, visited: set<Coord>, cur: Coord, c: Coord) {
    exists d :: 0 <= d < 4 && c == Neighbour(cur, d)
      && ProbeCell(g, visited, Neighbour(cur, d)) == Admitted
      && RejectedBefore(g, visited, cur, 0, d)
  }

  /** When the step throws: the current row is outside the grid, or the cell
      is not an end cell and the scan reaches a probe that reads a missing row. */
  lemma FaultExactly(g: Maze, run: Run)
    requires run.armed && |run.stack| > 0
    ensures var cur := Last(run.stack);
      Advance(g, run).Fault? <==>
        || !(0 <= cur.0 < |g|)
        || (!IsEnd(g, cur) && ScanFrom(g, run.visited + {cur}, cur, 0).Aborted?)
  {
  }

  /** A neighbour the traversal may enter: inside the grid, not a wall, not visited. */
  predicate Qualifies(g: Maze, visited: set<Coord>, c: Coord) {
    Open(g, c) && c !in visited
  }

  /** No direction leads to a qualifying neighbour of `cur`. */
  predicate NoneQualifies(g: Maze, visited: set<Coord>, cur: Coord) {
    forall d :: 0 <= d < 4 ==> !Qualifies(g, visited, Neighbour(cur, d))
  }

  /** `c` is the first qualifying neighbour of `cur` in the order left, down, right, up. */
  predicate IsFirstQualifying(g: Maze, visited: set<Coord>, cur: Coord, c: Coord) {
    exists d :: 0 <= d < 4 && c == Neighbour(cur, d) && Qualifies(g, visited, c)
      && forall j :: 0 <= j < d ==> !Qualifies(g, visited, Neighbour(cur, j))
  }

  /** On a square grid the literal test admits exactly the qualifying cells. */
  lemma ProbeOnSquare(g: Maze, visited: set<Coord>, c: Coord)
    requires Square(g)
    ensures ProbeCell(g, visited, c) != Threw
    ensures ProbeCell(g, visited, c) == Admitted <==> Qualifies(g, visited, c)
  {
  }

  /** On a square grid a step that keeps going pushes the first qualifying
      neighbour of the current cell, or pops the current cell when none qualifies. */
  lemma StepOnSquare(g: Maze, run: Run)
    requires Square(g)
    requires Advance(g, run).Stepped? && Advance(g, run).rescheduled
    ensures var r := Advance(g, run);
      || (&& |r.next.stack| == |run.stack| + 1
          && r.next.stack == run.stack + [Last(r.next.stack)]
          && IsFirstQualifying(g, r.next.visited, r.pos, Last(r.next.stack)))
      || (&& r.next.stack == run.stack[..|run.stack| - 1]
          && NoneQualifies(g, r.next.visited, r.pos))
  {
    var r := Advance(g, run);
    forall c {:trigger ProbeCell(g, r.next.visited, c)} ensures ProbeCell(g, r.next.visited, c) != Threw
      && (ProbeCell(g, r.next.visited, c) == Admitted <==> Qualifies(g, r.next.visited, c))
    {
      ProbeOnSquare(g, r.next.visited, c);
    }
    if |r.next.stack| == |run.stack| + 1 {
      var top := Last(r.next.stack);
      assert r.next.stack == run.stack + [top];
      var d :| 0 <= d < 4 && top == Neighbour(r.pos, d)
        && ProbeCell(g, r.next.visited, Neighbour(r.pos, d)) == Admitted
        && RejectedBefore(g, r.next.visited, r.pos, 0, d);
      assert Qualifies(g, r.next.visited, top);
    }
  }
}
