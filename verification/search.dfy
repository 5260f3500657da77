/** The invariant a live run keeps on a square grid, and what follows from it:
    the step preserves it, each step lowers a bounded measure, no cell is ever
    pushed twice, and a run that empties its stack has shown that no end cell
    is reachable from the start. */
module Search {
  import opened Base
  import opened Grid
  import opened Traversal

  function StackSet(stack: seq<Coord>): set<Coord> {
    set c | c in stack
  }

  /** Every cell below the top of the stack has been visited. */
  predicate BelowTopVisited(run: Run) {
    forall i :: 0 <= i < |run.stack| - 1 ==> run.stack[i] in run.visited
  }

  /** Consecutive stack entries are 4-adjacent. */
  predicate Chained(stack: seq<Coord>) {
    forall i :: 0 < i < |stack| ==> Adjacent(stack[i - 1], stack[i])
  }

  predicate Distinct(stack: seq<Coord>) {
    forall i, j :: 0 <= i < j < |stack| ==> stack[i] != stack[j]
  }

  predicate WithinGrid(g: Maze, run: Run) {
    && (forall c :: c in run.visited ==> InBounds(g, c))
    && (forall i :: 0 <= i < |run.stack| ==> InBounds(g, run.stack[i]))
  }

  /** A visited cell that has left the stack has no qualifying neighbour left. */
  predicate SettledOffStack(g: Maze, run: Run) {
    forall c :: c in run.visited && c !in run.stack ==> NoneQualifies(g, run.visited, c)
  }

  predicate NoEndVisited(g: Maze, run: Run) {
    forall c :: c in run.visited ==> !IsEnd(g, c)
  }

  /** The invariant of a run that is still going, started at `start`. */
  predicate RunInv(g: Maze, start: Coord, run: Run) {
    && (|run.stack| > 0 ==> run.stack[0] == start)
    && BelowTopVisited(run)
    && Chained(run.stack)
    && Distinct(run.stack)
    && WithinGrid(g, run)
    && SettledOffStack(g, run)
    && NoEndVisited(g, run)
  }

  /** A fresh run from an in-bounds start satisfies the invariant. */
  lemma FreshRunInv(g: Maze, start: Coord)
    requires InBounds(g, start)
    ensures RunInv(g, start, FreshRun(start))
  {
  }

  lemma QualifiesMonotone(g: Maze, v: set<Coord>, w: set<Coord>, c: Coord)
    requires v <= w && NoneQualifies(g, v, c)
    ensures NoneQualifies(g, w, c)
  {
  }

  lemma StepPreservesInvPush(g: Maze, start: Coord, run: Run)
    requires Square(g) && RunInv(g, start, run)
    requires Advance(g, run).Stepped? && Advance(g, run).rescheduled
    requires |Advance(g, run).next.stack| == |run.stack| + 1
    ensures RunInv(g, start, Advance(g, run).next)
  {
    var r := Advance(g, run);
    StepOnSquare(g, run);
    var next := r.next;
    var c := Last(next.stack);
    var n := |run.stack|;
    assert next.stack == run.stack + [c];
    assert Qualifies(g, next.visited, c);
    assert r.pos == run.stack[n - 1];
    assert Adjacent(r.pos, c) by {
      var d :| 0 <= d < 4 && c == Neighbour(r.pos, d) && Qualifies(g, next.visited, c)
        && forall j :: 0 <= j < d ==> !Qualifies(g, next.visited, Neighbour(r.pos, j));
    }
    assert BelowTopVisited(next) by {
      forall i | 0 <= i < |next.stack| - 1 ensures next.stack[i] in next.visited {
        assert next.stack[i] == run.stack[i];
      }
    }
    assert Chained(next.stack) by {
      forall i | 0 < i < |next.stack| ensures Adjacent(next.stack[i - 1], next.stack[i]) {
        if i < n { assert next.stack[i - 1] == run.stack[i - 1] && next.stack[i] == run.stack[i]; }
      }
    }
    assert Distinct(next.stack) by {
      forall i, j | 0 <= i < j < |next.stack| ensures next.stack[i] != next.stack[j] {
        if j < n {
          assert next.stack[i] == run.stack[i] && next.stack[j] == run.stack[j];
        } else {
          assert next.stack[i] == run.stack[i];
          assert run.stack[i] in next.visited;
        }
      }
    }
    assert SettledOffStack(g, next) by {
      forall x | x in next.visited && x !in next.stack
        ensures NoneQualifies(g, next.visited, x)
      {
        assert x != r.pos;
        assert x in run.visited;
        assert x !in run.stack;
        QualifiesMonotone(g, run.visited, next.visited, x);
      }
    }
  }

  lemma StepPreservesInvPop(g: Maze, start: Coord, run: Run)
    requires Square(g) && RunInv(g, start, run)
    requires Advance(g, run).Stepped? && Advance(g, run).rescheduled
    requires |Advance(g, run).next.stack| != |run.stack| + 1
    ensures Advance(g, run).next.stack == run.stack[..|run.stack| - 1]
    ensures RunInv(g, start, Advance(g, run).next)
  {
    var r := Advance(g, run);
    StepOnSquare(g, run);
    var next := r.next;
    var n := |run.stack|;
    assert NoneQualifies(g, next.visited, r.pos);
    assert BelowTopVisited(next) by {
      forall i | 0 <= i < |next.stack| - 1 ensures next.stack[i] in next.visited {
        assert next.stack[i] == run.stack[i];
      }
    }
    assert r.pos !in next.stack;
    assert SettledOffStack(g, next) by {
      forall x | x in next.visited && x !in next.stack
        ensures NoneQualifies(g, next.visited, x)
      {
        if x != r.pos {
          assert x in run.visited;
          assert x !in run.stack;
          QualifiesMonotone(g, run.visited, next.visited, x);
        }
      }
    }
  }

  /** A step that keeps going preserves the invariant. */
  lemma StepPreservesInv(g: Maze, start: Coord, run: Run)
    requires Square(g) && RunInv(g, start, run)
    requires Advance(g, run).Stepped? && Advance(g, run).rescheduled
    ensures RunInv(g, start, Advance(g, run).next)
  {
    if |Advance(g, run).next.stack| == |run.stack| + 1 {
      StepPreservesInvPush(g, start, run);
    } else {
      StepPreservesInvPop(g, start, run);
    }
  }

  /** On a square grid a live run only reads inside the grid: the current
      cell is in bounds, and so is every neighbour that passes the bounds test. */
  lemma StepReadsInBounds(g: Maze, start: Coord, run: Run)
    requires Square(g) && RunInv(g, start, run) && |run.stack| > 0
    ensures InBounds(g, Last(run.stack))
    ensures forall d :: 0 <= d < 4 && PassesBoundsTest(g, Neighbour(Last(run.stack), d)) ==>
      InBounds(g, Neighbour(Last(run.stack), d))
  {
    assert InBounds(g, run.stack[|run.stack| - 1]);
    forall d | 0 <= d < 4 && PassesBoundsTest(g, Neighbour(Last(run.stack), d))
      ensures InBounds(g, Neighbour(Last(run.stack), d))
    {
      BoundsTestOnSquare(g, Neighbour(Last(run.stack), d));
    }
  }

  /** Twice the number of cells neither visited nor on the stack, plus the
      stack height: a push spends a fresh cell and adds one entry, a pop
      removes one entry, so every step that keeps going lowers it by one. */
  function Measure(g: Maze, run: Run): nat {
    2 * |Cells(g) - (run.visited + StackSet(run.stack))| + |run.stack|
  }

  lemma InBoundsInCells(g: Maze, c: Coord)
    requires InBounds(g, c)
    ensures c in Cells(g)
  {
    assert (c.0, c.1) in Cells(g);
  }

  lemma CardinalityOneLess(cells: set<Coord>, used: set<Coord>, c: Coord)
    requires c in cells && c !in used
    ensures |cells - (used + {c})| == |cells - used| - 1
  {
    assert cells - (used + {c}) == (cells - used) - {c};
  }

  lemma MeasureDecreasesPush(g: Maze, run: Run, next: Run, c: Coord)
    requires |run.stack| > 0 && InBounds(g, c) && c !in next.visited
    requires next.visited == run.visited + {Last(run.stack)}
    requires next.stack == run.stack + [c]
    requires BelowTopVisited(run)
    ensures Measure(g, next) == Measure(g, run) - 1
  {
    var n := |run.stack|;
    var used := run.visited + StackSet(run.stack);
    assert StackSet(next.stack) == StackSet(run.stack) + {c};
    assert Last(run.stack) in StackSet(run.stack);
    assert next.visited + StackSet(next.stack) == used + {c};
    assert c !in used by {
      forall i | 0 <= i < n ensures run.stack[i] != c {
        assert run.stack[i] in next.visited;
      }
    }
    InBoundsInCells(g, c);
    CardinalityOneLess(Cells(g), used, c);
  }

  lemma MeasureDecreasesPop(g: Maze, run: Run, next: Run)
    requires |run.stack| > 0
    requires next.visited == run.visited + {Last(run.stack)}
    requires next.stack == run.stack[..|run.stack| - 1]
    ensures Measure(g, next) == Measure(g, run) - 1
  {
    assert run.stack == next.stack + [Last(run.stack)];
    assert StackSet(run.stack) == StackSet(next.stack) + {Last(run.stack)};
    assert next.visited + StackSet(next.stack) == run.visited + StackSet(run.stack);
  }

  /** Each step that keeps going lowers the measure by exactly one. */
  lemma MeasureDecreases(g: Maze, start: Coord, run: Run)
    requires Square(g) && RunInv(g, start, run)
    requires Advance(g, run).Stepped? && Advance(g, run).rescheduled
    ensures Measure(g, Advance(g, run).next) == Measure(g, run) - 1
  {
    var r := Advance(g, run);
    StepOnSquare(g, run);
    if |r.next.stack| == |run.stack| + 1 {
      StepPreservesInv(g, start, run);
      var c := Last(r.next.stack);
      assert InBounds(g, c) by {
        assert r.next.stack[|r.next.stack| - 1] == c;
      }
      MeasureDecreasesPush(g, run, r.next, c);
    } else {
      MeasureDecreasesPop(g, run, r.next);
    }
  }

  /** A fresh run on an in-bounds start has measure `2 * cells - 1`. */
  lemma FreshMeasure(g: Maze, start: Coord)
    requires InBounds(g, start)
    ensures Measure(g, FreshRun(start)) == 2 * |Cells(g)| - 1
  {
    assert StackSet([start]) == {start};
    InBoundsInCells(g, start);
    assert Cells(g) - ({} + {start}) == Cells(g) - {start};
  }

  /** The cells pushed by the next `n` steps of a run (the chain stops at the
      first step that does not reschedule itself). */
  function Pushes(g: Maze, run: Run, n: nat): seq<Coord>
    decreases n
  {
    if n == 0 then []
    else match Advance(g, run)
      case Stepped(_, _, next, true) =>
        (if |next.stack| == |run.stack| + 1 then [Last(next.stack)] else [])
          + Pushes(g, next, n - 1)
      case _ => []
  }

  /** What one step that keeps going does to the cells it has seen: the old
      stack is covered by the new visited set and stack, and a pushed cell was
      neither visited nor on the stack. */
  lemma StepCovers(g: Maze, start: Coord, run: Run)
    requires Square(g) && RunInv(g, start, run)
    requires Advance(g, run).Stepped? && Advance(g, run).rescheduled
    ensures var next := Advance(g, run).next;
      && run.visited <= next.visited
      && (forall x :: x in run.stack ==> x in next.visited || x in next.stack)
      && (|next.stack| == |run.stack| + 1 ==>
            var c := Last(next.stack); c in next.stack && c !in run.visited && c !in run.stack)
  {
    var r := Advance(g, run);
    var next := r.next;
    StepOnSquare(g, run);
    if |next.stack| == |run.stack| + 1 {
      var c := Last(next.stack);
      assert c !in next.visited;
      forall i | 0 <= i < |run.stack| ensures run.stack[i] != c {
        assert run.stack[i] in next.visited;
      }
      forall x | x in run.stack ensures x in next.stack {
        var i :| 0 <= i < |run.stack| && run.stack[i] == x;
        assert next.stack[i] == x;
      }
    } else {
      forall x | x in run.stack ensures x in next.visited || x in next.stack {
        var i :| 0 <= i < |run.stack| && run.stack[i] == x;
        if i < |run.stack| - 1 { assert next.stack[i] == x; }
      }
    }
  }

  lemma FreshPrefix(head: seq<Coord>, rest: seq<Coord>, v: set<Coord>, s: seq<Coord>,
                    v': set<Coord>, s': seq<Coord>)
    requires |head| <= 1
    requires Distinct(rest)
    requires forall i :: 0 <= i < |rest| ==> rest[i] !in v' && rest[i] !in s'
    requires forall i :: 0 <= i < |head| ==> head[i] in s' && head[i] !in v && head[i] !in s
    requires v <= v' && forall x :: x in s ==> x in v' || x in s'
    ensures Distinct(head + rest)
    ensures forall i :: 0 <= i < |head + rest| ==> (head + rest)[i] !in v && (head + rest)[i] !in s
  {
    var all := head + rest;
    forall i | 0 <= i < |all| ensures all[i] !in v && all[i] !in s {
      if i >= |head| {
        assert all[i] == rest[i - |head|];
      }
    }
  }

  /** No coordinate is pushed twice: the cells a run pushes are all different,
      and none was visited or on the stack when the run stood where it stands. */
  lemma {:induction false} NoCellPushedTwice(g: Maze, start: Coord, run: Run, n: nat)
    requires Square(g) && RunInv(g, start, run)
    decreases n
    ensures Distinct(Pushes(g, run, n))
    ensures forall i :: 0 <= i < |Pushes(g, run, n)| ==>
      Pushes(g, run, n)[i] !in run.visited && Pushes(g, run, n)[i] !in run.stack
  {
    if n > 0 {
      var r := Advance(g, run);
      if r.Stepped? && r.rescheduled {
        var next := r.next;
        StepPreservesInv(g, start, run);
        NoCellPushedTwice(g, start, next, n - 1);
        StepCovers(g, start, run);
        var head := if |next.stack| == |run.stack| + 1 then [Last(next.stack)] else [];
        assert Pushes(g, run, n) == head + Pushes(g, next, n - 1);
        FreshPrefix(head, Pushes(g, next, n - 1), run.visited, run.stack, next.visited, next.stack);
      }
    }
  }

  /** A step that empties the stack popped the start cell, and the cells the
      run has visited then form a closed set without an end cell: no end cell
      is reachable from the start. */
  lemma Exhausted(g: Maze, start: Coord, run: Run)
    requires Square(g) && RunInv(g, start, run)
    requires Advance(g, run).Stepped? && Advance(g, run).rescheduled
    requires |Advance(g, run).next.stack| == 0
    ensures run.stack == [start] && Advance(g, run).pos == start
    ensures !EndReachable(g, start)
  {
    var next := Advance(g, run).next;
    StepPreservesInv(g, start, run);
    assert start in next.visited;
    forall a, b | a in next.visited && Adjacent(a, b) && Open(g, b)
      ensures b in next.visited
    {
      AdjacentIsNeighbour(a, b);
      assert NoneQualifies(g, next.visited, a);
    }
    ClosedWithoutEndBlocksEnd(g, next.visited, start);
  }

  lemma AdjacentIsNeighbour(a: Coord, b: Coord)
    requires Adjacent(a, b)
    ensures exists d :: 0 <= d < 4 && b == Neighbour(a, d)
  {
    if b == Neighbour(a, 0) {
    } else if b == Neighbour(a, 1) {
    } else if b == Neighbour(a, 2) {
    } else {
      assert b == Neighbour(a, 3);
    }
  }
}
