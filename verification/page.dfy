/** The home page's preparation of the mazes: each maze's start and end cells
    are located with `indexOf` row by row (a later row overwrites an earlier
    one), and only the first three mazes of the fetched list are shown. */
module Page {
  import opened Base
  import opened Grid
  import opened MazeScene

  /** `row.indexOf(k)` searching from index `from`: the first index at or after
      `from` holding `k`, or -1. */
  function IndexFrom(row: seq<Cell>, k: Cell, from: nat): (r: int)
    requires from <= |row|
    decreases |row| - from
    ensures r == -1 <==> forall j :: from <= j < |row| ==> row[j] != k
    ensures r != -1 ==>
      && from <= r < |row|
      && row[r] == k
      && forall j :: from <= j < r ==> row[j] != k
  {
    if from == |row| then -1
    else if row[from] == k then from
    else IndexFrom(row, k, from + 1)
  }

  /** `row.indexOf(k)`. */
  function IndexOf(row: seq<Cell>, k: Cell): (r: int)
    ensures r == -1 <==> k !in row
    ensures r != -1 ==> 0 <= r < |row| && row[r] == k && k !in row[..r]
  {
    IndexFrom(row, k, 0)
  }

  /** Where the row-by-row search over the first `n` rows leaves its answer:
      the last of those rows that holds `k`, at the first index of `k` in it. */
  function LastOccurrence(maze: Maze, k: Cell, n: nat): (r: Option<Coord>)
    requires n <= |maze|
    decreases n
    ensures r.None? <==> forall i :: 0 <= i < n ==> k !in maze[i]
    ensures r.Some? ==>
      && 0 <= r.value.0 < n
      && 0 <= r.value.1 < |maze[r.value.0]|
      && maze[r.value.0][r.value.1] == k
      && k !in maze[r.value.0][..r.value.1]
      && forall i :: r.value.0 < i < n ==> k !in maze[i]
  {
    if n == 0 then None
    else
      var c := IndexOf(maze[n - 1], k);
      if c != -1 then Some((n - 1, c)) else LastOccurrence(maze, k, n - 1)
  }

  /** The position of kind `k` in a maze as the page computes it. */
  function Find(maze: Maze, k: Cell): Option<Coord> {
    LastOccurrence(maze, k, |maze|)
  }

  /** The `forEach` over the rows: both searches in one pass, each row's hit
      overwriting the previous one. */
  method LocateMarkers(maze: Maze) returns (ghostPosition: Option<Coord>, keyPosition: Option<Coord>)
    ensures ghostPosition == Find(maze, Start)
    ensures keyPosition == Find(maze, End)
    ensures ghostPosition.Some? ==> InBounds(maze, ghostPosition.value)
    ensures keyPosition.Some? ==> InBounds(maze, keyPosition.value)
  {
    ghostPosition, keyPosition := None, None;
    var rowIndex := 0;
    while rowIndex < |maze|
      invariant 0 <= rowIndex <= |maze|
      invariant ghostPosition == LastOccurrence(maze, Start, rowIndex)
      invariant keyPosition == LastOccurrence(maze, End, rowIndex)
    {
      var row := maze[rowIndex];
      var startColumnIndex := IndexOf(row, Start);
      var keyColumnIndex := IndexOf(row, End);
      if startColumnIndex != -1 {
        ghostPosition := Some((rowIndex, startColumnIndex));
      }
      if keyColumnIndex != -1 {
        keyPosition := Some((rowIndex, keyColumnIndex));
      }
      rowIndex := rowIndex + 1;
    }
  }

  /** The props of the scenes the page renders: the first three mazes only,
      each with its located start and end cells. */
  function Home(mazes: seq<Maze>): (scenes: seq<Props>)
    ensures |scenes| == if |mazes| < 3 then |mazes| else 3
    ensures forall i :: 0 <= i < |scenes| ==>
      && scenes[i].grid == mazes[i]
      && scenes[i].ghostIndex == Find(mazes[i], Start)
      && scenes[i].keyIndex == Find(mazes[i], End)
  {
    var shown := if |mazes| < 3 then mazes else mazes[..3];
    seq(|shown|, i requires 0 <= i < |shown| => Props(shown[i], Find(shown[i], Start), Find(shown[i], End)))
  }

  /** A square maze with a start cell yields props the traversal runs on
      safely: the start cell lies inside the grid. */
  lemma HomePropsWellFormed(mazes: seq<Maze>, i: nat)
    requires i < |Home(mazes)| && Square(mazes[i])
    ensures WellFormed(Home(mazes)[i])
    ensures Home(mazes)[i].ghostIndex.Some? ==>
      mazes[i][Home(mazes)[i].ghostIndex.value.0][Home(mazes)[i].ghostIndex.value.1] == Start
  {
  }
}
