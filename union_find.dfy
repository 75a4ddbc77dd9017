/** The disjoint-set forest of Maze.java (class UnionFind): a parent array,
    recursive find with path compression, and union that hangs the root of
    the first argument under the root of the second.

    The source keeps no rank.  The model adds a ghost rank that strictly
    increases from every non-root to its parent; it exists only to prove that
    the recursive find terminates and never influences a result. */
module DisjointSet {

  /** `p` is a forest over 0..|p|-1 ordered by `rank`. */
  ghost predicate Ranked(p: seq<int>, rank: seq<nat>)
  {
    |rank| == |p| &&
    forall i :: 0 <= i < |p| ==> 0 <= p[i] < |p| && (p[i] != i ==> rank[i] < rank[p[i]])
  }

  /** An upper bound of every rank, the measure for walking up a tree. */
  ghost function MaxRank(rank: seq<nat>): (m: nat)
    ensures forall i :: 0 <= i < |rank| ==> rank[i] <= m
  {
    if rank == [] then 0
    else
      var m := MaxRank(rank[1..]);
      if rank[0] > m then rank[0] else m
  }

  /** The representative of `i`: the root reached by following parents. */
  ghost function Root(p: seq<int>, rank: seq<nat>, i: int): (r: int)
    requires Ranked(p, rank) && 0 <= i < |p|
    ensures 0 <= r < |p| && p[r] == r
    ensures rank[i] <= rank[r] && (r != i ==> rank[i] < rank[r])
    decreases MaxRank(rank) - rank[i]
  {
    if p[i] == i then i else Root(p, rank, p[i])
  }

  /** `i` is `x` or one of its ancestors: a node that find(x) passes on its way to the root. */
  ghost predicate OnPath(p: seq<int>, rank: seq<nat>, x: int, i: int)
    requires Ranked(p, rank) && 0 <= x < |p|
    decreases MaxRank(rank) - rank[x]
  {
    i == x || (p[x] != x && OnPath(p, rank, p[x], i))
  }

  /** Ranks only grow along a path, so `x` is on no path that starts above it. */
  lemma {:induction false} OnPathRank(p: seq<int>, rank: seq<nat>, x: int, i: int)
    requires Ranked(p, rank) && 0 <= x < |p| && OnPath(p, rank, x, i)
    ensures 0 <= i < |p| && rank[x] <= rank[i]
    decreases MaxRank(rank) - rank[x]
  {
    if i != x {
      OnPathRank(p, rank, p[x], i);
    }
  }

  /** The roots of the forest; each stands for one set of the partition. */
  function RootSet(p: seq<int>): set<int>
  {
    set i | 0 <= i < |p| && p[i] == i
  }

  /** In the forest of singletons every element is a root. */
  lemma {:induction false} SingletonsRootSet(p: seq<int>)
    requires forall i :: 0 <= i < |p| ==> p[i] == i
    ensures |RootSet(p)| == |p|
  {
    if p != [] {
      var q := p[..|p| - 1];
      SingletonsRootSet(q);
      assert RootSet(p) == RootSet(q) + {|p| - 1};
    }
  }

  /** The representative does not depend on which ranking witnesses the forest. */
  lemma {:induction false} RootRankIndependent(p: seq<int>, r1: seq<nat>, r2: seq<nat>, i: int)
    requires Ranked(p, r1) && Ranked(p, r2) && 0 <= i < |p|
    ensures Root(p, r1, i) == Root(p, r2, i)
    decreases MaxRank(r1) - r1[i]
  {
    if p[i] != i {
      RootRankIndependent(p, r1, r2, p[i]);
    }
  }

  /** Path compression (Maze.java:31): pointing `x` straight at its root keeps
      the forest ranked and leaves the representative of every element as it was. */
  lemma {:induction false} CompressPreservesRoots(p: seq<int>, rank: seq<nat>, x: int, i: int)
    requires Ranked(p, rank) && 0 <= x < |p| && 0 <= i < |p|
    ensures Ranked(p[x := Root(p, rank, x)], rank)
    ensures Root(p[x := Root(p, rank, x)], rank, i) == Root(p, rank, i)
    decreases MaxRank(rank) - rank[i]
  {
    var r := Root(p, rank, x);
    var q := p[x := r];
    assert Ranked(q, rank);
    if p[i] != i && i != x {
      CompressPreservesRoots(p, rank, x, p[i]);
    }
  }

  /** Compression keeps the set of roots. */
  lemma CompressPreservesRootSet(p: seq<int>, rank: seq<nat>, x: int)
    requires Ranked(p, rank) && 0 <= x < |p|
    ensures RootSet(p[x := Root(p, rank, x)]) == RootSet(p)
  {
  }

  /** The ranking after hanging root `a` under root `b`. */
  ghost function Lift(rank: seq<nat>, a: int, b: int): (rank': seq<nat>)
    requires 0 <= a < |rank| && 0 <= b < |rank|
    ensures |rank'| == |rank| && rank[a] < rank'[b]
  {
    rank[b := if rank[b] > rank[a] then rank[b] else rank[a] + 1]
  }

  /** Linking (Maze.java:40): after `p[a] := b` for distinct roots `a` and `b`,
      exactly the elements of a's tree move to b's tree, and the forest stays ranked. */
  lemma {:induction false} LinkMovesTree(p: seq<int>, rank: seq<nat>, a: int, b: int, i: int)
    requires Ranked(p, rank) && 0 <= a < |p| && 0 <= b < |p| && a != b
    requires p[a] == a && p[b] == b && 0 <= i < |p|
    ensures Ranked(p, Lift(rank, a, b)) && Ranked(p[a := b], Lift(rank, a, b))
    ensures Root(p[a := b], Lift(rank, a, b), i) ==
            if Root(p, rank, i) == a then b else Root(p, rank, i)
  {
    var rank' := Lift(rank, a, b);
    assert Ranked(p, rank');
    assert Ranked(p[a := b], rank');
    RootRankIndependent(p, rank, rank', i);
    LinkWithRank(p, rank', a, b, i);
  }

  /** LinkMovesTree under one ranking that orders the forest both before and after the link. */
  lemma {:induction false} LinkWithRank(p: seq<int>, rank: seq<nat>, a: int, b: int, i: int)
    requires 0 <= a < |p| && 0 <= b < |p| && a != b && p[a] == a && p[b] == b && 0 <= i < |p|
    requires Ranked(p, rank) && Ranked(p[a := b], rank)
    ensures Root(p[a := b], rank, i) == if Root(p, rank, i) == a then b else Root(p, rank, i)
    decreases MaxRank(rank) - rank[i]
  {
    if p[i] != i {
      LinkWithRank(p, rank, a, b, p[i]);
    }
  }

  /** Linking removes exactly one root, so the number of sets drops by one. */
  lemma LinkRootSet(p: seq<int>, a: int, b: int)
    requires 0 <= a < |p| && 0 <= b < |p| && a != b && p[a] == a
    ensures RootSet(p[a := b]) == RootSet(p) - {a}
    ensures |RootSet(p[a := b])| == |RootSet(p)| - 1
  {
    assert RootSet(p[a := b]) == RootSet(p) - {a};
  }

  /** LinkMovesTree and LinkRootSet for every element at once. */
  lemma LinkAll(p: seq<int>, rank: seq<nat>, a: int, b: int)
    requires Ranked(p, rank) && 0 <= a < |p| && 0 <= b < |p| && a != b && p[a] == a && p[b] == b
    ensures Ranked(p[a := b], Lift(rank, a, b))
    ensures forall i :: 0 <= i < |p| ==>
              Root(p[a := b], Lift(rank, a, b), i) == if Root(p, rank, i) == a then b else Root(p, rank, i)
    ensures |RootSet(p[a := b])| == |RootSet(p)| - 1
  {
    forall i | 0 <= i < |p|
      ensures Root(p[a := b], Lift(rank, a, b), i) == if Root(p, rank, i) == a then b else Root(p, rank, i)
    {
      LinkMovesTree(p, rank, a, b, i);
    }
    LinkMovesTree(p, rank, a, b, a);
    LinkRootSet(p, a, b);
  }

  /** When every element has the representative of element 0, the forest is one tree. */
  lemma OneTree(p: seq<int>, rank: seq<nat>)
    requires Ranked(p, rank) && |p| > 0
    requires forall i :: 0 <= i < |p| ==> Root(p, rank, i) == Root(p, rank, 0)
    ensures RootSet(p) == {Root(p, rank, 0)} && |RootSet(p)| == 1
  {
    forall i | i in RootSet(p)
      ensures i == Root(p, rank, 0)
    {
      assert Root(p, rank, i) == i;
    }
  }

  class UnionFind {
    var parent: array<int>
    ghost var rank: seq<nat>

    ghost predicate Valid()
      reads this, parent
    {
      Ranked(parent[..], rank)
    }

    /** Maze.java:20-25: `size` singleton sets. */
    constructor (size: nat)
      ensures Valid() && fresh(parent) && parent.Length == size
      ensures forall i :: 0 <= i < size ==> parent[i] == i
      ensures |RootSet(parent[..])| == size
    {
      var a := new int[size];
      for i := 0 to size
        invariant forall j :: 0 <= j < i ==> a[j] == j
      {
        a[i] := i;
      }
      parent := a;
      rank := seq(size, _ => 0);
      SingletonsRootSet(a[..]);
    }

    /** Maze.java:27-32: the root of `x`, compressing the path behind it. */
    method Find(x: int) returns (r: int)
      requires Valid() && 0 <= x < parent.Length
      modifies parent
      ensures Valid()
      ensures r == Root(old(parent[..]), rank, x) && parent[r] == r && parent[x] == r
      ensures forall i :: 0 <= i < parent.Length ==> Root(parent[..], rank, i) == Root(old(parent[..]), rank, i)
      ensures forall i :: 0 <= i < parent.Length && OnPath(old(parent[..]), rank, x, i) ==> parent[i] == r
      ensures forall i :: 0 <= i < parent.Length && !OnPath(old(parent[..]), rank, x, i) ==> parent[i] == old(parent[i])
      ensures RootSet(parent[..]) == old(RootSet(parent[..]))
      decreases MaxRank(rank) - rank[x]
    {
      if parent[x] == x {
        return x;
      }
      ghost var p0 := parent[..];
      r := Find(parent[x]);
      ghost var p := parent[..];
      if OnPath(p0, rank, p0[x], x) {
        OnPathRank(p0, rank, p0[x], x);
      }
      assert p[x] == p0[x];
      assert Root(p, rank, x) == r;
      forall i | 0 <= i < parent.Length
        ensures Root(p[x := r], rank, i) == Root(p, rank, i)
      {
        CompressPreservesRoots(p, rank, x, i);
      }
      CompressPreservesRoots(p, rank, x, x);
      CompressPreservesRootSet(p, rank, x);
      parent[x] := r;
      assert parent[..] == p[x := r];
      forall i | 0 <= i < parent.Length
        ensures OnPath(p0, rank, x, i) <==> i == x || OnPath(p0, rank, p0[x], i)
      {
      }
    }

    /** Maze.java:34-42: merge the sets of `x` and `y`; false when they are already one. */
    method Union(x: int, y: int) returns (merged: bool)
      requires Valid() && 0 <= x < parent.Length && 0 <= y < parent.Length
      modifies this`rank, parent
      ensures Valid()
      ensures merged <==> Root(old(parent[..]), old(rank), x) != Root(old(parent[..]), old(rank), y)
      ensures Root(parent[..], rank, x) == Root(parent[..], rank, y)
      ensures forall i :: 0 <= i < parent.Length ==>
        Root(parent[..], rank, i) ==
          if merged && Root(old(parent[..]), old(rank), i) == Root(old(parent[..]), old(rank), x)
          then Root(old(parent[..]), old(rank), y)
          else Root(old(parent[..]), old(rank), i)
      ensures |RootSet(parent[..])| == old(|RootSet(parent[..])|) - (if merged then 1 else 0)
    {
      var rootX := Find(x);
      var rootY := Find(y);
      if rootX == rootY {
        return false;
      }
      ghost var p := parent[..];
      LinkAll(p, rank, rootX, rootY);
      parent[rootX] := rootY;
      rank := Lift(rank, rootX, rootY);
      assert parent[..] == p[rootX := rootY];
      merged := true;
    }
  }
}
