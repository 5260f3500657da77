/** The MazeScene component as a state machine: `isTraversing`, the published
    `path` and `ghostPosition`, and the one pending timer step. The start/reset
    button is `Toggle`; a firing timer is `Tick`. */
module MazeScene {
  import opened Base
  import opened Grid
  import opened Traversal
  import opened Search

  /** The component's inputs: the maze, the start cell and the end cell (the
      end cell only places an icon; the traversal reads the grid instead). */
  datatype Props = Props(grid: Maze, ghostIndex: Option<Coord>, keyIndex: Option<Coord>)

  /** The component's state. `pending` is the closure of the scheduled step,
      when one is scheduled and not cancelled. */
  datatype SceneState = SceneState(
    traversing: bool,
    path: seq<Coord>,
    ghostPosition: Option<Coord>,
    pending: Option<Run>)

  /** `[ghostIndex]` when there is a start cell, else the empty path. */
  function InitialPath(start: Option<Coord>): (path: seq<Coord>)
    ensures start.None? <==> path == []
    ensures start.Some? ==> |path| == 1 && path[0] == start.value
  {
    if start.Some? then [start.value] else []
  }

  /** The state at mount: not traversing, the path holding just the start cell,
      the ghost on the start cell, nothing scheduled. */
  function Initial(p: Props): (s: SceneState)
    ensures !s.traversing && s.pending.None?
    ensures s.ghostPosition == p.ghostIndex && s.path == InitialPath(p.ghostIndex)
  {
    SceneState(false, InitialPath(p.ghostIndex), p.ghostIndex, None)
  }

  /** The state after one run of the step: what it published, and the step it
      scheduled if it rescheduled itself. */
  function Publish(s: SceneState, step: Step): (r: SceneState)
    ensures r.traversing == s.traversing
    ensures step.Skip? ==> r == s.(pending := None)
    ensures !step.Skip? ==> r.ghostPosition == Some(step.pos) && r.path == step.path
    ensures r.pending.Some? <==> step.Stepped? && step.rescheduled
    ensures r.pending.Some? ==> r.pending.value == step.next
  {
    match step
    case Skip => s.(pending := None)
    case Stepped(pos, path, next, rescheduled) =>
      s.(path := path, ghostPosition := Some(pos), pending := if rescheduled then Some(next) else None)
    case Fault(pos, path) =>
      s.(path := path, ghostPosition := Some(pos), pending := None)
  }

  /** The reset branch of the button together with the effect cleanup it
      triggers: traversal off, path and ghost back to their initial values,
      the pending step cancelled. */
  function Reset(p: Props, s: SceneState): (r: SceneState)
    ensures !r.traversing && r.pending.None?
    ensures r.path == InitialPath(p.ghostIndex) && r.ghostPosition == p.ghostIndex
  {
    SceneState(false, InitialPath(p.ghostIndex), p.ghostIndex, None)
  }

  /** The effect once `isTraversing` is true: with no start cell nothing
      happens; otherwise a fresh run is built and its first step runs at once. */
  function Launch(p: Props, s: SceneState): (r: SceneState)
    ensures r.traversing == s.traversing
    ensures p.ghostIndex.None? ==> r == s
    ensures p.ghostIndex.Some? ==> r.ghostPosition == p.ghostIndex && r.path == [p.ghostIndex.value]
    ensures WellFormed(p) && p.ghostIndex.Some? ==> (r.pending.Some? <==> !IsEnd(p.grid, p.ghostIndex.value))
    ensures p.ghostIndex.Some? && r.pending.Some? ==>
      && r.pending.value.armed
      && r.pending.value.visited == {p.ghostIndex.value}
      && |r.pending.value.stack| <= 2
    ensures WellFormed(p) && p.ghostIndex.Some? && r.pending.Some? ==>
      var start := p.ghostIndex.value;
      var st := r.pending.value.stack;
      || (|st| == 2 && st[0] == start && IsFirstQualifying(p.grid, {start}, start, st[1]))
      || (st == [] && NoneQualifies(p.grid, {start}, start))
  {
    if p.ghostIndex.None? then s
    else
      var run0 := FreshRun(p.ghostIndex.value);
      var step := Advance(p.grid, run0);
      if Square(p.grid) && step.Stepped? && step.rescheduled then
        StepOnSquare(p.grid, run0);
        Publish(s, step)
      else
        Publish(s, step)
  }

  /** The start/reset button. */
  function Toggle(p: Props, s: SceneState): (r: SceneState)
    ensures r.traversing == !s.traversing
    ensures s.traversing ==>
      && r.pending.None?
      && r.path == InitialPath(p.ghostIndex)
      && r.ghostPosition == p.ghostIndex
    ensures !s.traversing && p.ghostIndex.None? ==> r == s.(traversing := true, pending := None)
    ensures !s.traversing && p.ghostIndex.Some? ==>
      r.path == [p.ghostIndex.value] && r.ghostPosition == p.ghostIndex
    ensures !s.traversing && WellFormed(p) && p.ghostIndex.Some? ==>
      (r.pending.Some? <==> !IsEnd(p.grid, p.ghostIndex.value))
    ensures !s.traversing && p.ghostIndex.Some? && r.pending.Some? ==>
      && r.pending.value.armed
      && r.pending.value.visited == {p.ghostIndex.value}
      && |r.pending.value.stack| <= 2
    ensures !s.traversing && WellFormed(p) && p.ghostIndex.Some? && r.pending.Some? ==>
      var start := p.ghostIndex.value;
      var st := r.pending.value.stack;
      || (|st| == 2 && st[0] == start && IsFirstQualifying(p.grid, {start}, start, st[1]))
      || (st == [] && NoneQualifies(p.grid, {start}, start))
  {
    if s.traversing then Reset(p, s)
    else Launch(p, s.(traversing := true, pending := None))
  }

  /** The pending timer fires: the scheduled step runs once. With nothing
      scheduled nothing happens. */
  function Tick(p: Props, s: SceneState): (r: SceneState)
    ensures s.pending.None? ==> r == s
    ensures r.traversing == s.traversing
    ensures s.pending.Some? && s.pending.value.armed && |s.pending.value.stack| > 0 ==>
      && r.path == s.pending.value.stack
      && r.ghostPosition == Some(Last(r.path))
    ensures s.pending.Some? && |s.pending.value.stack| == 0 ==> r == s.(pending := None)
    ensures (&& s.pending.Some? && s.pending.value.armed && |s.pending.value.stack| > 0
             && Square(p.grid) && 0 <= Last(s.pending.value.stack).0 < |p.grid|) ==>
      (r.pending.Some? <==> !IsEnd(p.grid, Last(s.pending.value.stack)))
    ensures r.pending.Some? ==>
      && s.pending.Some? && r.ghostPosition.Some?
      && r.pending.value.visited == s.pending.value.visited + {r.ghostPosition.value}
  {
    match s.pending
    case None => s
    case Some(run) => Publish(s, Advance(p.grid, run))
  }

  /** `k` timer firings in a row. */
  function Ticks(p: Props, s: SceneState, k: nat): SceneState
    decreases k
  {
    if k == 0 then s else Ticks(p, Tick(p, s), k - 1)
  }

  /** Props the traversal can run on safely: a square grid and a start cell
      inside it. */
  predicate WellFormed(p: Props) {
    Square(p.grid) && (p.ghostIndex.Some? ==> InBounds(p.grid, p.ghostIndex.value))
  }

  /** The invariant of every reachable state: a step is only pending while
      traversing, its closure captured `isTraversing == true`, and its run
      keeps the search invariant. */
  predicate SceneInv(p: Props, s: SceneState) {
    && (!s.traversing ==> s.pending.None?)
    && (s.pending.Some? ==>
          && s.pending.value.armed
          && p.ghostIndex.Some?
          && RunInv(p.grid, p.ghostIndex.value, s.pending.value))
  }

  lemma InitialInv(p: Props)
    ensures SceneInv(p, Initial(p))
  {
  }

  /** Resetting twice is resetting once, and a reset leaves nothing for the
      timer to do. */
  lemma ResetIdempotent(p: Props, s: SceneState)
    ensures Reset(p, Reset(p, s)) == Reset(p, s)
    ensures Tick(p, Reset(p, s)) == Reset(p, s)
  {
  }

  /** With no start cell, starting only sets `isTraversing`, and no timer
      firing ever changes anything. */
  lemma StartWithoutStart(p: Props, s: SceneState, k: nat)
    requires p.ghostIndex.None? && !s.traversing && s.pending.None?
    ensures Toggle(p, s) == s.(traversing := true)
    ensures Ticks(p, Toggle(p, s), k) == Toggle(p, s)
  {
    var s1 := Toggle(p, s);
    var i := 0;
    while i < k
      invariant 0 <= i <= k
      invariant Ticks(p, s1, i) == s1
    {
      TicksSplit(p, s1, i);
      i := i + 1;
    }
  }

  lemma TicksUnfold(p: Props, s: SceneState, k: nat)
    requires k > 0
    ensures Ticks(p, s, k) == Ticks(p, Tick(p, s), k - 1)
  {
  }

  lemma {:induction false} TicksSplit(p: Props, s: SceneState, k: nat)
    decreases k
    ensures Ticks(p, s, k + 1) == Tick(p, Ticks(p, s, k))
  {
    if k > 0 {
      TicksSplit(p, Tick(p, s), k - 1);
    }
  }

  /** The button and the timer keep the state invariant. */
  lemma ToggleKeepsInv(p: Props, s: SceneState)
    requires WellFormed(p) && SceneInv(p, s)
    ensures SceneInv(p, Toggle(p, s))
  {
    if !s.traversing && p.ghostIndex.Some? {
      var start := p.ghostIndex.value;
      FreshRunInv(p.grid, start);
      var r := Advance(p.grid, FreshRun(start));
      if r.Stepped? && r.rescheduled {
        StepPreservesInv(p.grid, start, FreshRun(start));
      }
    }
  }

  lemma TickKeepsInv(p: Props, s: SceneState)
    requires WellFormed(p) && SceneInv(p, s)
    ensures SceneInv(p, Tick(p, s))
  {
    if s.pending.Some? {
      var run := s.pending.value;
      var r := Advance(p.grid, run);
      if r.Stepped? && r.rescheduled {
        StepPreservesInv(p.grid, p.ghostIndex.value, run);
      }
    }
  }

  /** The number of timer firings a pending run still takes until it stops
      rescheduling itself: at most one more than its measure. */
  function StepsLeft(g: Maze, start: Coord, run: Run): (k: nat)
    requires Square(g) && RunInv(g, start, run)
    decreases Measure(g, run)
    ensures 1 <= k <= Measure(g, run) + 1
  {
    match Advance(g, run)
    case Stepped(_, _, next, true) =>
      MeasureDecreases(g, start, run);
      StepPreservesInv(g, start, run);
      1 + StepsLeft(g, start, next)
    case _ => 1
  }

  /** How a chain of steps ends: with the ghost on an end cell at the top of
      the published path, or with the path back to the start cell alone and
      no end cell reachable from it. */
  ghost predicate Outcome(g: Maze, start: Coord, s: SceneState) {
    || (s.ghostPosition.Some? && IsEnd(g, s.ghostPosition.value) && |s.path| > 0 && Last(s.path) == s.ghostPosition.value)
    || (s.path == [start] && s.ghostPosition == Some(start) && !EndReachable(g, start))
  }

  /** A pending run on a well-formed maze with a non-empty stack always makes
      a real step: it neither skips nor throws. */
  lemma PendingSteps(p: Props, s: SceneState)
    requires WellFormed(p) && SceneInv(p, s)
    requires s.pending.Some? && |s.pending.value.stack| > 0
    ensures Advance(p.grid, s.pending.value).Stepped?
  {
    var run := s.pending.value;
    assert InBounds(p.grid, run.stack[|run.stack| - 1]);
  }

  /** A step on an end cell publishes it as the top of the path and stops. */
  lemma GoalSettles(p: Props, s: SceneState)
    requires WellFormed(p) && SceneInv(p, s)
    requires s.pending.Some? && |s.pending.value.stack| > 0
    requires IsEnd(p.grid, Last(s.pending.value.stack))
    ensures var f := Ticks(p, s, StepsLeft(p.grid, p.ghostIndex.value, s.pending.value));
      f.pending.None? && f.traversing && Outcome(p.grid, p.ghostIndex.value, f)
    ensures StepsLeft(p.grid, p.ghostIndex.value, s.pending.value) == 1
    ensures var f := Ticks(p, s, 1);
      f.path == s.pending.value.stack && f.ghostPosition == Some(Last(s.pending.value.stack))
  {
    PendingSteps(p, s);
    assert StepsLeft(p.grid, p.ghostIndex.value, s.pending.value) == 1;
    TicksUnfold(p, s, 1);
    var f := Tick(p, s);
    var r := Advance(p.grid, s.pending.value);
    assert f.ghostPosition == Some(r.pos) && IsEnd(p.grid, r.pos);
    assert f.path == s.pending.value.stack;
  }

  /** A step that reschedules itself leaves the next run pending, keeps the
      invariant, spends one firing and lowers the measure. */
  lemma ContinueSteps(p: Props, s: SceneState)
    requires WellFormed(p) && SceneInv(p, s)
    requires s.pending.Some? && |s.pending.value.stack| > 0
    requires !IsEnd(p.grid, Last(s.pending.value.stack))
    ensures var s' := Tick(p, s);
      && SceneInv(p, s')
      && s'.traversing
      && s'.pending == Some(Advance(p.grid, s.pending.value).next)
      && Measure(p.grid, s'.pending.value) < Measure(p.grid, s.pending.value)
      && StepsLeft(p.grid, p.ghostIndex.value, s.pending.value)
           == 1 + StepsLeft(p.grid, p.ghostIndex.value, s'.pending.value)
  {
    PendingSteps(p, s);
    TickKeepsInv(p, s);
    MeasureDecreases(p.grid, p.ghostIndex.value, s.pending.value);
  }

  /** The step that popped the last stack entry published the start cell
      alone, and the firing after it only cancels the chain. */
  lemma ExhaustedSettles(p: Props, s: SceneState)
    requires WellFormed(p) && SceneInv(p, s)
    requires s.pending.Some? && |s.pending.value.stack| > 0
    requires !IsEnd(p.grid, Last(s.pending.value.stack))
    requires |Tick(p, s).pending.value.stack| == 0
    ensures var f := Ticks(p, s, StepsLeft(p.grid, p.ghostIndex.value, s.pending.value));
      f.pending.None? && f.traversing && Outcome(p.grid, p.ghostIndex.value, f)
    ensures var f := Ticks(p, s, StepsLeft(p.grid, p.ghostIndex.value, s.pending.value));
      f.path == [p.ghostIndex.value] && f.ghostPosition == p.ghostIndex
      && !EndReachable(p.grid, p.ghostIndex.value)
  {
    PendingSteps(p, s);
    ContinueSteps(p, s);
    Exhausted(p.grid, p.ghostIndex.value, s.pending.value);
    assert StepsLeft(p.grid, p.ghostIndex.value, s.pending.value) == 2;
    TicksUnfold(p, s, 2);
    TicksUnfold(p, Tick(p, s), 1);
  }

  /** One more firing in front of a chain that settles gives a chain that
      settles, one firing longer. */
  lemma SettlesOneEarlier(p: Props, s: SceneState, k: nat, s': SceneState, k': nat)
    requires p.ghostIndex.Some? && k == k' + 1 && s' == Tick(p, s)
    requires var f := Ticks(p, s', k');
      f.pending.None? && f.traversing && Outcome(p.grid, p.ghostIndex.value, f)
    ensures var f := Ticks(p, s, k);
      f.pending.None? && f.traversing && Outcome(p.grid, p.ghostIndex.value, f)
  {
    TicksUnfold(p, s, k);
  }

  /** A pending chain stops after `StepsLeft` firings, leaves `isTraversing`
      true (so the next press is a reset) and ends in one of the two outcomes. */
  lemma {:induction false} ChainSettles(p: Props, s: SceneState)
    requires WellFormed(p) && SceneInv(p, s)
    requires s.pending.Some? && |s.pending.value.stack| > 0
    decreases Measure(p.grid, s.pending.value)
    ensures var f := Ticks(p, s, StepsLeft(p.grid, p.ghostIndex.value, s.pending.value));
      f.pending.None? && f.traversing && Outcome(p.grid, p.ghostIndex.value, f)
  {
    if IsEnd(p.grid, Last(s.pending.value.stack)) {
      GoalSettles(p, s);
    } else {
      ContinueSteps(p, s);
      if |Tick(p, s).pending.value.stack| > 0 {
        ChainSettles(p, Tick(p, s));
        SettlesOneEarlier(p, s, StepsLeft(p.grid, p.ghostIndex.value, s.pending.value),
          Tick(p, s), StepsLeft(p.grid, p.ghostIndex.value, Tick(p, s).pending.value));
      } else {
        ExhaustedSettles(p, s);
      }
    }
  }

  /** Pressing start on a well-formed maze: the first step runs at once, and
      at most `2 * n * n - 1` timer firings later (n rows, n columns) the chain has stopped in one
      of the two outcomes. */
  lemma TraversalSettles(p: Props, s: SceneState)
    requires WellFormed(p) && SceneInv(p, s) && !s.traversing && p.ghostIndex.Some?
    ensures SceneInv(p, Toggle(p, s))
    ensures var s1 := Toggle(p, s);
      var k := if s1.pending.Some? then StepsLeft(p.grid, p.ghostIndex.value, s1.pending.value) else 0;
      && k <= 2 * |Cells(p.grid)| - 1
      && k <= 2 * |p.grid| * |p.grid| - 1
      && Ticks(p, s1, k).pending.None?
      && Ticks(p, s1, k).traversing
      && Outcome(p.grid, p.ghostIndex.value, Ticks(p, s1, k))
  {
    var g, start := p.grid, p.ghostIndex.value;
    var s1 := Toggle(p, s);
    ToggleKeepsInv(p, s);
    FreshRunInv(g, start);
    FreshMeasure(g, start);
    assert 2 * |Cells(g)| - 1 == 2 * |g| * |g| - 1 by {
      SquareCellCount(g);
    }
    var run0 := FreshRun(start);
    var r := Advance(g, run0);
    assert r.Stepped?;
    if r.rescheduled {
      MeasureDecreases(g, start, run0);
      StepPreservesInv(g, start, run0);
      assert s1.pending == Some(r.next);
      if |r.next.stack| > 0 {
        ChainSettles(p, s1);
      } else {
        Exhausted(g, start, run0);
        assert Ticks(p, s1, 1) == Tick(p, s1);
      }
    }
  }
}
