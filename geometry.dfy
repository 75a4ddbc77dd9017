/** Grid geometry shared by maze generation and path search (Maze.java:93-94),
    and the flat coordinate lists that dfsPath builds: a path is a sequence
    x0, y0, x1, y1, ... read two entries per point. */
module Geometry {

  /** The two offset tables.  Generation reads them as row and column offsets,
      the search as column (x) and row (y) offsets. */
  const DX: seq<int> := [-1, 0, 1, 0]
  const DY: seq<int> := [0, 1, 0, -1]

  /** The wall character, written by generation and avoided by the search. */
  const WALL: char := '#'

  function Abs(n: int): nat
  {
    if n < 0 then -n else n
  }

  lemma AppendAssoc<T>(a: seq<T>, b: seq<T>, c: seq<T>)
    ensures a + (b + c) == (a + b) + c
  {
  }

  lemma DropAppend<T>(a: seq<T>, n: nat, b: seq<T>)
    requires n <= |a|
    ensures (a + b)[n..] == a[n..] + b && (a + b)[..n] == a[..n]
  {
  }

  /** Two points one grid step apart along exactly one axis. */
  predicate UnitStep(x0: int, y0: int, x1: int, y1: int)
  {
    Abs(x0 - x1) + Abs(y0 - y1) == 1
  }

  /** Every direction in the offset tables is a unit step, there and back. */
  lemma OffsetsAreUnitSteps(k: int, x: int, y: int)
    requires 0 <= k < 4
    ensures UnitStep(x, y, x + DX[k], y + DY[k]) && UnitStep(x + DX[k], y + DY[k], x, y)
  {
  }

  /** Points `k` and `k + 1` of a flat path are a unit step apart. */
  predicate StepAt(path: seq<int>, k: nat)
    requires 2 * k + 3 < |path|
  {
    UnitStep(path[2 * k], path[2 * k + 1], path[2 * k + 2], path[2 * k + 3])
  }

  /** A flat path of whole points in which every consecutive pair is a unit step. */
  ghost predicate IsWalk(path: seq<int>)
  {
    |path| % 2 == 0 &&
    forall k: nat :: 2 * k + 3 < |path| ==> StepAt(path, k)
  }

  /** Appending a point one step away from the last point keeps a walk a walk. */
  lemma {:induction false} WalkExtend(path: seq<int>, x: int, y: int)
    requires IsWalk(path) && |path| >= 2
    requires UnitStep(path[|path| - 2], path[|path| - 1], x, y)
    ensures IsWalk(path + [x, y])
  {
    var q := path + [x, y];
    forall k: nat | 2 * k + 3 < |q|
      ensures StepAt(q, k)
    {
      if 2 * k + 3 < |path| {
        assert StepAt(path, k);
      } else {
        assert 2 * k + 2 == |path|;
      }
    }
  }

  /** No point occurs twice in a flat path. */
  ghost predicate DistinctPoints(path: seq<int>)
  {
    forall k: nat, l: nat :: 2 * k + 1 < |path| && 2 * l + 1 < |path| && k != l ==>
      (path[2 * k], path[2 * k + 1]) != (path[2 * l], path[2 * l + 1])
  }

  /** Appending a point the path does not contain keeps its points distinct. */
  lemma {:induction false} DistinctExtend(path: seq<int>, x: int, y: int)
    requires DistinctPoints(path) && |path| % 2 == 0
    requires forall k: nat :: 2 * k + 1 < |path| ==> (path[2 * k], path[2 * k + 1]) != (x, y)
    ensures DistinctPoints(path + [x, y])
  {
    var q := path + [x, y];
    forall k: nat, l: nat | 2 * k + 1 < |q| && 2 * l + 1 < |q| && k != l
      ensures (q[2 * k], q[2 * k + 1]) != (q[2 * l], q[2 * l + 1])
    {
      if 2 * k + 1 < |path| && 2 * l + 1 < |path| {
        assert (path[2 * k], path[2 * k + 1]) != (path[2 * l], path[2 * l + 1]);
      } else if 2 * k + 1 < |path| {
        assert 2 * l == |path|;
        assert (path[2 * k], path[2 * k + 1]) != (x, y);
      } else {
        assert 2 * k == |path|;
        assert (path[2 * l], path[2 * l + 1]) != (x, y);
      }
    }
  }
}
