# Ghost maze traversal — a Dafny model

This project models the core of a small Next.js page that animates a ghost
exploring a maze by depth-first search with backtracking:

- `MazeScene` (src/app/components/MazeScene.tsx): the component state
  (`isTraversing`, the published `path` and `ghostPosition`, the pending
  timer in `traversalRef`), the start/reset button, the effect that launches
  and cancels a run, and the step `moveGhost` that the timer re-runs every
  300 ms. The step takes the top of the stack, publishes it with a copy of
  the stack, marks it visited, stops on an `'end'` cell, and otherwise pushes
  the first admissible neighbour in the order left, down, right, up, or pops
  when there is none.
- `Home` (src/app/page.tsx): for each of the first three mazes, the row-by-row
  `indexOf` search for the `'start'` and `'end'` cells, in which a later row
  overwrites an earlier one.

Files and modules:

| file | module | contents |
|---|---|---|
| base.dfy | `Base` | `Option`, `Last` |
| grid.dfy | `Grid` | cells, coordinates, bounds, adjacency, walks, closed sets, cell count |
| traversal.dfy | `Traversal` | the run's closure state, the neighbour test as written, the scan, the step `Advance` |
| bounds.dfy | `Bounds` | the swapped bounds test on non-square grids and the intended test |
| search.dfy | `Search` | the run invariant, its preservation, the termination measure, no re-push, exhaustion |
| scene.dfy | `MazeScene` | component state, `Toggle`, `Tick`, the state invariant, how a chain of steps ends |
| page.dfy | `Page` | `indexOf`, the start/end locator, the first-three-mazes slice |

How the JavaScript is represented:

- A maze is `seq<seq<Cell>>` with `Cell = Wall | Start | End | Other`; any
  cell string other than `'wall'`, `'start'`, `'end'` is `Other`. Rows need not
  agree in length.
- A read `row[i]` outside the row is JavaScript `undefined`, modelled by
  `Grid.Lookup` returning `None`; it is not `'wall'` and not `'end'`.
- The `visited` matrix is the set of coordinates whose entry has been set to
  true. This is exact: `visited[y][x]` is read only for rows inside the grid,
  and an entry never set (or outside a row) reads as `false`/`undefined`.
- A read `data[newY][newX]` with `newY` past the last row throws a
  `TypeError` (`data[newY]` is `undefined`), and so does `visited[y][x] = true`
  when `y` is outside the grid. Such a step is `Traversal.Fault`: it has
  already published its snapshot, and it does not reschedule.
- The closure of a run (`visited`, `stack`, and the `isTraversing` value it
  captured) is `Traversal.Run`. The pending `setTimeout` is
  `SceneState.pending: Option<Run>`; a timer firing is `MazeScene.Tick`;
  `clearTimeout` in the effect cleanup sets it to `None`.
- The captured `isTraversing` (`Run.armed`) is always true, because the
  effect launches a run only when `isTraversing` is true
  (`MazeScene.SceneInv`); the guard on line 68 therefore only fires on an
  empty stack.

Behaviour of the code worth stating explicitly:

- The neighbour order is left, down, right, up: the `[dy, dx]` table of
  src/app/components/MazeScene.tsx:60-65, tried in that order.
- The only control state is `isTraversing` together with the pending timer.
  After the goal is reached or the stack is exhausted, `isTraversing` stays
  true, so the next press of the button is a reset
  (`MazeScene.ChainSettles` ensures `traversing`). Starting always builds a
  fresh run.
- The bounds test compares the column with the row count and the row with
  the column count (see Findings). The traversal uses this test as written.
  Every traversal theorem is stated for square grids, where
  `Bounds.ProbeAgreesOnSquare` shows it equals the intended test.
- A step on an end cell returns without rescheduling and leaves the stack as
  it is. A step that pops the last entry still reschedules, and the next
  firing returns at once on the empty stack.

## Model

| member | source | states |
|---|---|---|
| Grid.Lookup | src/app/components/MazeScene.tsx:89 | a row read yields a cell exactly for indices inside the row and `undefined` otherwise |
| Traversal.Neighbour | src/app/components/MazeScene.tsx:60-65 | the `[dy, dx]` table in source order: entry 0 moves left, 1 down, 2 right, 3 up, each to a 4-adjacent cell |
| Traversal.FreshRun | src/app/components/MazeScene.tsx:58-59 | a fresh run has nothing visited and the stack holding only the start cell |
| Traversal.BoundsTestOnSquare | src/app/components/MazeScene.tsx:84-88 | on a square grid the swapped bounds test accepts exactly the in-bounds cells |
| Traversal.ProbeCell | src/app/components/MazeScene.tsx:84-90 | an admitted neighbour is unvisited, lies in a grid row and is not a wall; a throwing probe read a row past the last one |
| Traversal.ProbeOnSquare | src/app/components/MazeScene.tsx:84-90 | on a square grid the test never throws and admits exactly the in-bounds, non-wall, unvisited cells |
| Traversal.ScanFrom | src/app/components/MazeScene.tsx:82-96 | the scan stops at the first direction admitted or throwing, every earlier direction having been rejected; it finds nothing exactly when all four are rejected |
| Traversal.Advance | src/app/components/MazeScene.tsx:67-103 | one step: it skips exactly on an empty stack; otherwise it publishes the top and the stack before the change and marks the top visited; on an end cell it keeps the stack and does not reschedule; otherwise it pushes one first-admitted neighbour or pops one entry when all are rejected, and reschedules |
| Traversal.FaultExactly | src/app/components/MazeScene.tsx:76-90 | the step throws exactly when the current row is outside the grid, or the cell is not an end cell and the scan reaches a probe of a missing row |
| Traversal.StepOnSquare | src/app/components/MazeScene.tsx:80-100 | on a square grid a step that goes on pushes the first in-bounds, non-wall, unvisited neighbour in the order left, down, right, up, or pops when no neighbour qualifies |
| Bounds.IntendedProbe | src/app/components/MazeScene.tsx:84-90 | the intended test never throws and admits exactly the in-bounds, non-wall, unvisited cells on every grid |
| Bounds.ProbeAgreesOnSquare | src/app/components/MazeScene.tsx:84-88 | on square grids the test as written and the intended test give the same answer |
| Bounds.NonSquareCounterexamples | src/app/components/MazeScene.tsx:84-90 | on a 1-by-2 grid the first step throws although the right cell is open; on a 2-by-1 grid it pushes (0, 1), outside the grid, although the cell below is open |
| Search.FreshRunInv | src/app/components/MazeScene.tsx:58-59 | a fresh run from an in-bounds start satisfies the run invariant |
| Search.StepPreservesInv | src/app/components/MazeScene.tsx:76-100 | a step that goes on keeps the invariant: bottom of the stack is the start, entries below the top are visited, consecutive entries are adjacent and distinct, all cells are in the grid, popped cells have no qualifying neighbour, no end cell was visited |
| Search.StepReadsInBounds | src/app/components/MazeScene.tsx:76-92 | on a square grid a live run reads only inside the grid: the current cell and every neighbour passing the bounds test are in bounds |
| Search.MeasureDecreases | src/app/components/MazeScene.tsx:80-102 | each step that reschedules lowers twice the count of untouched cells plus the stack height by exactly one |
| Search.NoCellPushedTwice | src/app/components/MazeScene.tsx:82-99 | over any number of steps the pushed cells are pairwise distinct and none was visited or stacked before |
| Search.Exhausted | src/app/components/MazeScene.tsx:98-100 | the step that empties the stack pops the start cell alone, and then no end cell is reachable from the start through non-wall cells |
| MazeScene.InitialPath | src/app/components/MazeScene.tsx:20-22 | the initial path is empty exactly when there is no start cell, and otherwise holds just the start cell |
| MazeScene.Initial | src/app/components/MazeScene.tsx:20-29 | at mount nothing is traversing or scheduled, and the ghost sits on the start cell |
| MazeScene.InitialInv | src/app/components/MazeScene.tsx:20-29 | the state at mount satisfies the state invariant |
| MazeScene.Publish | src/app/components/MazeScene.tsx:70-74 | a step's snapshot becomes `path` and `ghostPosition`, and a step is pending exactly when the step rescheduled itself |
| MazeScene.Reset | src/app/components/MazeScene.tsx:36-49 | reset turns traversal off, restores path and ghost to their initial values and cancels the pending step |
| MazeScene.ResetIdempotent | src/app/components/MazeScene.tsx:36-49 | resetting twice equals resetting once, and no timer firing changes a reset state |
| MazeScene.Launch | src/app/components/MazeScene.tsx:31-106 | with no start cell the effect does nothing; otherwise the first step runs at once and publishes the start cell alone; on a well-formed maze the next step is pending exactly when the start cell is not an end cell, its run armed with just the start cell visited, and its stack is the first step's push of the first qualifying neighbour of the start cell or, when none qualifies, the empty stack of its pop |
| MazeScene.Toggle | src/app/components/MazeScene.tsx:44-54 | the button flips `isTraversing`; pressed while traversing it restores path and ghost and cancels the pending step; pressed otherwise it starts a run: the start cell is published, and on a well-formed maze a step is pending exactly when the start cell is not an end cell, that run having visited just the start cell and holding the start cell with its first qualifying neighbour, or nothing when none qualifies |
| MazeScene.StartWithoutStart | src/app/components/MazeScene.tsx:56-57 | with no start cell, starting only sets `isTraversing`, and no number of timer firings changes the state |
| MazeScene.Tick | src/app/components/MazeScene.tsx:67-103 | a firing with nothing pending changes nothing; otherwise it publishes the pending stack with the ghost on its top; on an empty stack it only consumes the timer; when the current row lies in a square grid the step reschedules itself exactly when the current cell is not an end cell; a rescheduled run has visited one more cell, the published one |
| MazeScene.ToggleKeepsInv | src/app/components/MazeScene.tsx:31-54 | the button keeps the state invariant on a square grid with an in-bounds start |
| MazeScene.TickKeepsInv | src/app/components/MazeScene.tsx:67-103 | a timer firing keeps the state invariant |
| MazeScene.PendingSteps | src/app/components/MazeScene.tsx:68-78 | a pending run with a non-empty stack on a well-formed maze makes a real step: it neither skips nor throws |
| MazeScene.StepsLeft | src/app/components/MazeScene.tsx:98-102 | the firings a pending chain still takes number at least one and at most its measure plus one |
| MazeScene.GoalSettles | src/app/components/MazeScene.tsx:67-78 | a pending step on an end cell is the last firing: exactly one firing publishes the pending stack with the ghost on that end cell at its top, and nothing is scheduled afterwards |
| MazeScene.ExhaustedSettles | src/app/components/MazeScene.tsx:98-102 | after the pop that empties the stack, the next firing only cancels the chain, leaving path `[start]`, the ghost on the start cell, and no end cell reachable from the start |
| MazeScene.ChainSettles | src/app/components/MazeScene.tsx:67-103 | a pending chain stops after `StepsLeft` firings with `isTraversing` still true, either with the ghost on an end cell at the top of the path or with path `[start]` and no end reachable |
| MazeScene.TraversalSettles | src/app/components/MazeScene.tsx:44-106 | pressing start on a square maze with a start cell runs the first step at once and stops within `2 * n * n - 1` further firings in one of the two outcomes |
| Page.IndexFrom | src/app/page.tsx:17-18 | `indexOf` from an index returns -1 exactly when the kind does not occur from there on, and otherwise its first position |
| Page.IndexOf | src/app/page.tsx:17-18 | `indexOf` returns -1 exactly when the kind is absent from the row, and otherwise the first position holding it |
| Page.LastOccurrence | src/app/page.tsx:16-25 | the search yields nothing exactly when no row holds the kind; otherwise the last row holding it, at the kind's first column there |
| Page.LocateMarkers | src/app/page.tsx:13-25 | the single pass computes the start and the end searches independently, each equal to its own search, each inside the grid |
| Page.Home | src/app/page.tsx:12 | only the first three mazes are rendered, each with its own located start and end |
| Page.HomePropsWellFormed | src/app/page.tsx:12-33 | a square maze yields props with its start cell inside the grid and holding `start` |

## Findings

| source | as written | input that shows it | evidently intended | confidence | as-written member | corrected member |
|---|---|---|---|---|---|---|
| src/app/components/MazeScene.tsx:84-90 | the column `newX` is compared with `data.length` (the row count) and the row `newY` with `data[0].length` (the column count) | maze `[[start, open]]` from (0, 0): the down probe passes the test and reads `data[1]`, which is undefined, so it throws a TypeError; maze `[[start], [open]]` from (0, 0): the right probe passes and (0, 1), outside the grid, is pushed | the row compared with the row count and the column with the length of that row | medium, not executed | Traversal.ProbeCell, Bounds.NonSquareCounterexamples | Bounds.IntendedProbe |

The traversal keeps the test as written, because that is what the component
does. All traversal theorems assume a square grid, where
`Bounds.ProbeAgreesOnSquare` shows the two tests agree. So everything proved
about the traversal also holds with the corrected test.

## Left out

- The network fetch and JSON decoding of the maze list (src/app/page.tsx:6-7): this is I/O. `Page.Home` takes the list as input.
- Rendering (src/app/components/MazeScene.tsx:13-17, 108-145; src/app/page.tsx:27-34): the colour classes, the `Ghost`/`Key` icons and the JSX are presentation. `keyIndex` is carried in `Props` only because it places the key icon.
- The `Maze` type from `@/types` is not part of this model. Cells are `Wall | Start | End | Other`.
- Timing: the 300 ms delay and React's scheduling of effects and state updates (batching, re-renders, StrictMode double effects). A firing timer is the explicit `Tick`, and an effect runs right after the state change that triggers it.
- An uncaught `TypeError` from a step (`Traversal.Fault`, possible only on grids that are not square) is not followed into React. The model keeps the snapshot published before the throw and drops the pending step; error boundaries and unmounting are not modelled.
- Search.StepPreservesInv: requires a square grid, because on other grids the step can throw or push a cell outside the grid (`Bounds.NonSquareCounterexamples`), so no in-grid invariant holds there.
- Search.NoCellPushedTwice: requires a square grid, for the same reason.
- MazeScene.ChainSettles: requires a square grid with an in-bounds start, for the same reason.
- MazeScene.TraversalSettles: requires a square grid with an in-bounds start, for the same reason.
