/** Depth-first search for the end cell (Maze.java:145-167).  The maze is
    indexed maze[y, x]; a path is the flat list x0, y0, x1, y1, ... that the
    search appends to.  The search marks every cell it enters with 'v' and
    never clears a mark, and on success appends the end cell first and the
    start cell last, one point per returning call. */
module Search {
  import opened Geometry

  const VISITED: char := 'v'
  const END: char := 'E'

  /** The contents of a maze, row by row. */
  type Grid = seq<seq<char>>

  ghost function Snapshot(maze: array2<char>): (g: Grid)
    reads maze
    ensures |g| == maze.Length0
    ensures forall y :: 0 <= y < |g| ==> |g[y]| == maze.Length1
    ensures forall y, x :: 0 <= y < maze.Length0 && 0 <= x < maze.Length1 ==> g[y][x] == maze[y, x]
  {
    seq(maze.Length0, y requires 0 <= y < maze.Length0 reads maze =>
      seq(maze.Length1, x requires 0 <= x < maze.Length1 reads maze => maze[y, x]))
  }

  predicate InBounds(g: Grid, x: int, y: int)
  {
    0 <= y < |g| && 0 <= x < |g[y]|
  }

  /** A cell the search may enter (Maze.java:146): inside the maze, neither a
      wall nor already visited. */
  predicate Open(g: Grid, x: int, y: int)
  {
    InBounds(g, x, y) && g[y][x] != WALL && g[y][x] != VISITED
  }

  /** The cells the search may still enter; every call that gets past the
      first test removes one, so this set measures the recursion. */
  function OpenCells(g: Grid): set<(int, int)>
  {
    set y, x | 0 <= y < |g| && 0 <= x < |g[y]| && g[y][x] != WALL && g[y][x] != VISITED :: (x, y)
  }

  /** `g1` is `g0` with some cells marked visited; walls and the end cell never change. */
  predicate OnlyVisits(g0: Grid, g1: Grid)
  {
    |g1| == |g0| &&
    (forall y :: 0 <= y < |g0| ==> |g1[y]| == |g0[y]|) &&
    forall y, x :: 0 <= y < |g0| && 0 <= x < |g0[y]| ==>
      g1[y][x] == g0[y][x] || (g1[y][x] == VISITED && g0[y][x] != WALL && g0[y][x] != END)
  }

  /** Every point of `ext` is a cell the search may enter in `g`. */
  ghost predicate PointsOpen(g: Grid, ext: seq<int>)
  {
    forall k: nat :: 2 * k + 1 < |ext| ==> Open(g, ext[2 * k], ext[2 * k + 1])
  }

  /** Every point of `ext` after the first is marked visited in `g`. */
  ghost predicate MarkedAfterFirst(g: Grid, ext: seq<int>)
  {
    forall k: nat :: 0 < k && 2 * k + 1 < |ext| ==>
      InBounds(g, ext[2 * k], ext[2 * k + 1]) && g[ext[2 * k + 1]][ext[2 * k]] == VISITED
  }

  /** What a successful search from (x, y) appends: a walk of distinct open
      cells that starts at an end cell and ends at (x, y), every point after
      the first left marked visited.  `g` is the maze before the search, `g'`
      after it. */
  ghost predicate SearchPath(g: Grid, g': Grid, ext: seq<int>, x: int, y: int)
  {
    |ext| >= 2 && |ext| % 2 == 0 &&
    ext[|ext| - 2] == x && ext[|ext| - 1] == y &&
    InBounds(g, ext[0], ext[1]) && g[ext[1]][ext[0]] == END &&
    PointsOpen(g, ext) && MarkedAfterFirst(g', ext) &&
    IsWalk(ext) && DistinctPoints(ext)
  }

  /** Marking keeps only narrowing the maze. */
  lemma OnlyVisitsTransitive(g0: Grid, g1: Grid, g2: Grid)
    requires OnlyVisits(g0, g1) && OnlyVisits(g1, g2)
    ensures OnlyVisits(g0, g2)
  {
  }

  /** Once an open cell is marked visited, fewer cells are open. */
  lemma VisitShrinksOpenCells(g0: Grid, g1: Grid, x: int, y: int)
    requires OnlyVisits(g0, g1) && Open(g0, x, y) && g1[y][x] == VISITED
    ensures OpenCells(g1) < OpenCells(g0)
  {
    forall p | p in OpenCells(g1)
      ensures p in OpenCells(g0)
    {
      var (px, py) := p;
      assert g1[py][px] == g0[py][px];
    }
    assert (x, y) in OpenCells(g0) - OpenCells(g1);
  }

  /** Cells open once (x, y) has been marked were open before, and none of them is (x, y). */
  lemma {:induction false} OpenBeforeVisit(g0: Grid, g1: Grid, ext: seq<int>, x: int, y: int)
    requires OnlyVisits(g0, g1) && InBounds(g0, x, y) && g1[y][x] == VISITED
    requires PointsOpen(g1, ext)
    ensures PointsOpen(g0, ext)
    ensures forall k: nat :: 2 * k + 1 < |ext| ==> (ext[2 * k], ext[2 * k + 1]) != (x, y)
  {
    forall k: nat | 2 * k + 1 < |ext|
      ensures Open(g0, ext[2 * k], ext[2 * k + 1]) && (ext[2 * k], ext[2 * k + 1]) != (x, y)
    {
      assert Open(g1, ext[2 * k], ext[2 * k + 1]);
    }
  }

  /** Appending an open cell keeps every point open. */
  lemma {:induction false} OpenExtend(g: Grid, ext: seq<int>, x: int, y: int)
    requires PointsOpen(g, ext) && |ext| % 2 == 0 && Open(g, x, y)
    ensures PointsOpen(g, ext + [x, y])
  {
    var e := ext + [x, y];
    forall k: nat | 2 * k + 1 < |e|
      ensures Open(g, e[2 * k], e[2 * k + 1])
    {
      if 2 * k + 1 < |ext| {
        assert e[2 * k] == ext[2 * k] && e[2 * k + 1] == ext[2 * k + 1];
      } else {
        assert e[2 * k] == x && e[2 * k + 1] == y;
      }
    }
  }

  /** Appending a visited cell keeps every point after the first visited. */
  lemma {:induction false} MarkedExtend(g: Grid, ext: seq<int>, x: int, y: int)
    requires MarkedAfterFirst(g, ext) && |ext| % 2 == 0 && |ext| >= 2
    requires InBounds(g, x, y) && g[y][x] == VISITED
    ensures MarkedAfterFirst(g, ext + [x, y])
  {
    var e := ext + [x, y];
    forall k: nat | 0 < k && 2 * k + 1 < |e|
      ensures InBounds(g, e[2 * k], e[2 * k + 1]) && g[e[2 * k + 1]][e[2 * k]] == VISITED
    {
      if 2 * k + 1 < |ext| {
        assert e[2 * k] == ext[2 * k] && e[2 * k + 1] == ext[2 * k + 1];
      } else {
        assert e[2 * k] == x && e[2 * k + 1] == y;
      }
    }
  }

  /** The return step of Maze.java:159-162: a search from (x, y) that marked
      (x, y) and then succeeded from the neighbour in direction i has found a
      search path from (x, y) once (x, y) is appended. */
  lemma ExtendSearchPath(g0: Grid, g1: Grid, g2: Grid, ext: seq<int>, x: int, y: int, i: int)
    requires Open(g0, x, y) && g0[y][x] != END
    requires OnlyVisits(g0, g1) && g1[y][x] == VISITED
    requires 0 <= i < 4 && SearchPath(g1, g2, ext, x + DX[i], y + DY[i]) && OnlyVisits(g1, g2)
    ensures SearchPath(g0, g2, ext + [x, y], x, y)
  {
    var e := ext + [x, y];
    OffsetsAreUnitSteps(i, x, y);
    WalkExtend(ext, x, y);
    assert IsWalk(e);
    OpenBeforeVisit(g0, g1, ext, x, y);
    DistinctExtend(ext, x, y);
    assert DistinctPoints(e);
    OpenExtend(g0, ext, x, y);
    assert PointsOpen(g0, e);
    assert InBounds(g2, x, y) && g2[y][x] == VISITED;
    MarkedExtend(g2, ext, x, y);
    assert MarkedAfterFirst(g2, e);
    assert Open(g1, ext[0], ext[1]);
    assert g0[ext[1]][ext[0]] == END;
    assert e[0] == ext[0] && e[1] == ext[1] && e[|e| - 2] == x && e[|e| - 1] == y;
  }

  /** Maze.java:145-167.  Either the search fails, leaving the path as it was,
      or it appends a search path from (x, y); either way it only marks cells
      visited. */
  method DfsPath(maze: array2<char>, x: int, y: int, path: seq<int>) returns (found: bool, result: seq<int>)
    requires maze.Length0 > 0 || x < 0 || y < 0
    modifies maze
    ensures OnlyVisits(old(Snapshot(maze)), Snapshot(maze))
    ensures !found ==> result == path
    ensures found ==> |result| >= |path| && result[..|path|] == path &&
                      SearchPath(old(Snapshot(maze)), Snapshot(maze), result[|path|..], x, y)
    ensures !Open(old(Snapshot(maze)), x, y) ==> !found && Snapshot(maze) == old(Snapshot(maze))
    ensures Open(old(Snapshot(maze)), x, y) && old(maze[y, x]) == END ==>
              found && result == path + [x, y] && Snapshot(maze) == old(Snapshot(maze))
    ensures Open(old(Snapshot(maze)), x, y) && old(maze[y, x]) != END ==> maze[y, x] == VISITED
    decreases OpenCells(Snapshot(maze))
  {
    ghost var g0 := Snapshot(maze);
    if x < 0 || y < 0 || x >= maze.Length1 || y >= maze.Length0 || maze[y, x] == WALL || maze[y, x] == VISITED {
      return false, path;
    }
    if maze[y, x] == END {
      return true, path + [x, y];
    }
    maze[y, x] := VISITED;
    for i := 0 to |DX|
      invariant OnlyVisits(g0, Snapshot(maze))
      invariant maze[y, x] == VISITED
    {
      ghost var g1 := Snapshot(maze);
      VisitShrinksOpenCells(g0, g1, x, y);
      var f, r := DfsPath(maze, x + DX[i], y + DY[i], path);
      OnlyVisitsTransitive(g0, g1, Snapshot(maze));
      if f {
        ghost var g2 := Snapshot(maze);
        ExtendSearchPath(g0, g1, g2, r[|path|..], x, y, i);
        DropAppend(r, |path|, [x, y]);
        return true, r + [x, y];
      }
    }
    return false, path;
  }
}
