/** The direction string of a path (Maze.java:169-185).  The path lists the
    end cell first and the start cell last, so the string is built walking the
    list backwards, one letter per consecutive pair of points, telling the way
    from the start towards the end: E is x + 1, W is x - 1, S is y + 1 and
    N is y - 1. */
module Directions {
  import opened Geometry
  import Search

  /** The letter appended for a step whose reversed offset is (dx, dy)
      (Maze.java:175-182); none when the offset matches no case. */
  function Letter(dx: int, dy: int): (s: string)
    ensures |s| <= 1 && forall c :: c in s ==> c in "NSEW"
  {
    if dx == -1 then "E"
    else if dx == 1 then "W"
    else if dy == -1 then "S"
    else if dy == 1 then "N"
    else ""
  }

  /** The letters of loop iterations i, i - 2, ... down to 0 (Maze.java:171-183). */
  function DirectionsFrom(path: seq<int>, i: int): (s: string)
    requires i + 3 < |path|
    ensures |s| <= if i < 0 then 0 else i / 2 + 1
    ensures forall c :: c in s ==> c in "NSEW"
    decreases i + 2
  {
    if i < 0 then ""
    else Letter(path[i + 2] - path[i], path[i + 3] - path[i + 1]) + DirectionsFrom(path, i - 2)
  }

  /** The whole string: the loop starts at the second-to-last point. */
  function Directions(path: seq<int>): string
  {
    DirectionsFrom(path, |path| - 4)
  }

  /** Maze.java:169-185. */
  method PathToDirections(path: seq<int>) returns (directions: string)
    ensures directions == Directions(path)
  {
    directions := "";
    var i := |path| - 4;
    while i >= 0
      invariant -4 <= i <= |path| - 4
      invariant directions + DirectionsFrom(path, i) == Directions(path)
      decreases i + 4
    {
      var dx := path[i + 2] - path[i];
      var dy := path[i + 3] - path[i + 1];
      var letter: string;
      if dx == -1 {
        letter := "E";
      } else if dx == 1 {
        letter := "W";
      } else if dy == -1 {
        letter := "S";
      } else if dy == 1 {
        letter := "N";
      } else {
        letter := "";
      }
      assert DirectionsFrom(path, i) == letter + DirectionsFrom(path, i - 2);
      AppendAssoc(directions, letter, DirectionsFrom(path, i - 2));
      directions := directions + letter;
      i := i - 2;
    }
  }

  /** The string has at most one letter per step between consecutive points;
      a path of fewer than two points gives the empty string. */
  lemma DirectionsLength(path: seq<int>)
    ensures |Directions(path)| <= if |path| < 4 then 0 else |path| / 2 - 1
    ensures |path| < 4 ==> Directions(path) == ""
    ensures forall c :: c in Directions(path) ==> c in "NSEW"
  {
  }

  /** One unit move in the direction a letter names. */
  function Move(p: (int, int), c: char): (int, int)
  {
    match c
    case 'E' => (p.0 + 1, p.1)
    case 'W' => (p.0 - 1, p.1)
    case 'S' => (p.0, p.1 + 1)
    case 'N' => (p.0, p.1 - 1)
    case _ => p
  }

  /** Where following the letters of `d` from `p` leads. */
  function Replay(p: (int, int), d: string): (int, int)
    decreases |d|
  {
    if d == [] then p else Replay(Move(p, d[0]), d[1..])
  }

  /** The letter of a unit step moves the later point back onto the earlier one. */
  lemma LetterOfStep(x0: int, y0: int, x1: int, y1: int)
    requires UnitStep(x0, y0, x1, y1)
    ensures |Letter(x1 - x0, y1 - y0)| == 1
    ensures Move((x1, y1), Letter(x1 - x0, y1 - y0)[0]) == (x0, y0)
  {
  }

  /** Along a walk, iterations i, i - 2, ..., 0 each give exactly one letter,
      and following them from point (i + 2) / 2 leads to point 0. */
  lemma {:induction false} WalkDirectionsFrom(path: seq<int>, i: int)
    requires IsWalk(path) && 0 <= i && i % 2 == 0 && i + 3 < |path|
    ensures |DirectionsFrom(path, i)| == i / 2 + 1
    ensures Replay((path[i + 2], path[i + 3]), DirectionsFrom(path, i)) == (path[0], path[1])
    decreases i
  {
    assert StepAt(path, i / 2);
    LetterOfStep(path[i], path[i + 1], path[i + 2], path[i + 3]);
    var letter := Letter(path[i + 2] - path[i], path[i + 3] - path[i + 1]);
    var rest := DirectionsFrom(path, i - 2);
    var d := letter + rest;
    assert d[0] == letter[0] && d[1..] == rest;
    if i >= 2 {
      WalkDirectionsFrom(path, i - 2);
    }
  }

  /** For the walk a successful search returns: one letter per step, and
      following the letters from the start (the last point) reaches the end
      (the first point). */
  lemma WalkDirections(path: seq<int>)
    requires IsWalk(path) && |path| >= 2
    ensures |Directions(path)| == |path| / 2 - 1
    ensures Replay((path[|path| - 2], path[|path| - 1]), Directions(path)) == (path[0], path[1])
  {
    if |path| >= 4 {
      WalkDirectionsFrom(path, |path| - 4);
    }
  }

  /** The directions of what a successful search from (x, y) appends lead,
      one unit move per step, from (x, y) to the end cell it found. */
  lemma SearchPathDirections(g: Search.Grid, g': Search.Grid, ext: seq<int>, x: int, y: int)
    requires Search.SearchPath(g, g', ext, x, y)
    ensures |Directions(ext)| == |ext| / 2 - 1
    ensures var (ex, ey) := Replay((x, y), Directions(ext));
            Search.InBounds(g, ex, ey) && g[ey][ex] == Search.END
  {
    WalkDirections(ext);
  }
}
