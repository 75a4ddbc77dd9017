/** Randomised Kruskal maze generation (Maze.java:107-143).  A width x height
    grid of logical cells becomes a (2*height+1) x (2*width+1) grid of
    characters: rooms at odd/odd positions, walls at even/even positions, and
    between two side-sharing rooms a joint that is knocked through exactly when
    the union of its two cells succeeds.

    Collections.shuffle is replaced by an arbitrary permutation `perm` of the
    edge indices: every property below holds for every order. */
module Generate {
  import opened Geometry
  import opened Edges
  import opened DisjointSet

  const OPEN: char := ' '

  /** Collections.shuffle (Maze.java:129) yields some permutation of 0..n-1. */
  predicate IsPermutation(perm: seq<int>, n: int)
  {
    |perm| == n &&
    (forall t :: 0 <= t < |perm| ==> 0 <= perm[t] < n) &&
    (forall i :: 0 <= i < n ==> i in perm)
  }

  /** A grid position strictly inside the border with exactly one even coordinate. */
  predicate IsJoint(width: int, height: int, r: int, c: int)
  {
    0 < r < 2 * height && 0 < c < 2 * width && (r + c) % 2 == 1
  }

  /** The grid position written at Maze.java:134-139 for an edge: halfway
      between the two room centres (2*col+1, 2*row+1). */
  function Joint(width: int, e: Edge): (int, int)
    requires width > 0
  {
    var x := e.src % width * 2 + 1;
    var y := e.src / width * 2 + 1;
    var nx := e.dest % width * 2 + 1;
    var ny := e.dest / width * 2 + 1;
    ((y + ny) / 2, (x + nx) / 2)
  }

  /** The two logical cells a joint separates. */
  function JointCells(width: int, r: int, c: int): (int, int)
  {
    if r % 2 == 1 then (r / 2 * width + c / 2 - 1, r / 2 * width + c / 2)
    else ((r / 2 - 1) * width + c / 2, r / 2 * width + c / 2)
  }

  /** Joint halves the sum of the two room centres: row ia+ib+1, column ja+jb+1. */
  lemma JointCoords(width: int, e: Edge)
    requires width > 0 && e.src >= 0 && e.dest >= 0
    ensures Joint(width, e) == (e.src / width + e.dest / width + 1, e.src % width + e.dest % width + 1)
  {
    var ia, ja := e.src / width, e.src % width;
    var ib, jb := e.dest / width, e.dest % width;
    assert (ia * 2 + 1 + ib * 2 + 1) / 2 == ia + ib + 1;
    assert (ja * 2 + 1 + jb * 2 + 1) / 2 == ja + jb + 1;
  }

  /** In row/column terms: the joint between (ia, ja) and (ib, jb) separates those two cells. */
  lemma JointCellsOfRooms(width: int, ia: int, ja: int, ib: int, jb: int)
    requires Abs(ia - ib) + Abs(ja - jb) == 1
    ensures JointCells(width, ia + ib + 1, ja + jb + 1) in
              {(ia * width + ja, ib * width + jb), (ib * width + jb, ia * width + ja)}
  {
    var r, c := ia + ib + 1, ja + jb + 1;
    if ia == ib {
      var m := if ja < jb then ja else jb;
      assert r / 2 == ia && c / 2 == m + 1;
      assert JointCells(width, r, c) == (ia * width + m, ia * width + m + 1);
    } else {
      var m := if ia < ib then ia else ib;
      assert r / 2 == m + 1 && c / 2 == ja;
      assert (m + 1) * width == m * width + width;
      assert JointCells(width, r, c) == (m * width + ja, (m + 1) * width + ja);
    }
  }

  /** The joint between rooms (ia, ja) and (ib, jb) of the grid is an interior joint. */
  lemma JointInterior(width: int, height: int, ia: int, ja: int, ib: int, jb: int)
    requires 0 <= ia < height && 0 <= ib < height && 0 <= ja < width && 0 <= jb < width
    requires Abs(ia - ib) + Abs(ja - jb) == 1
    ensures IsJoint(width, height, ia + ib + 1, ja + jb + 1)
  {
    var r, c := ia + ib + 1, ja + jb + 1;
    if ia == ib {
      assert r + c == 2 * (ia + 1) + 2 * (if ja < jb then ja else jb) + 1;
    } else {
      assert r + c == 2 * (if ia < ib then ia else ib) + 2 * (ja + 1) + 1;
    }
  }

  /** The joint of a recorded edge is an interior joint, and it separates
      exactly the edge's two cells (in one order or the other). */
  lemma JointOfEdge(width: nat, height: nat, e: Edge)
    requires ValidEdge(width, height, e)
    ensures IsJoint(width, height, Joint(width, e).0, Joint(width, e).1)
    ensures JointCells(width, Joint(width, e).0, Joint(width, e).1) in {(e.src, e.dest), (e.dest, e.src)}
  {
    var ia, ja := e.src / width, e.src % width;
    var ib, jb := e.dest / width, e.dest % width;
    RowInRange(width, height, e.src);
    RowInRange(width, height, e.dest);
    JointCoords(width, e);
    JointInterior(width, height, ia, ja, ib, jb);
    JointCellsOfRooms(width, ia, ja, ib, jb);
  }

  /** The character at (r, c) once exactly the joints in `joints` are knocked through. */
  function CellAfter(joints: set<(int, int)>, r: int, c: int): char
  {
    if r % 2 == 1 && c % 2 == 1 then OPEN
    else if (r, c) in joints then OPEN
    else WALL
  }

  ghost predicate Shows(maze: array2<char>, joints: set<(int, int)>)
    reads maze
  {
    forall r, c :: 0 <= r < maze.Length0 && 0 <= c < maze.Length1 ==> maze[r, c] == CellAfter(joints, r, c)
  }

  /** The joints of the grid that are open. */
  ghost function OpenJoints(maze: array2<char>): set<(int, int)>
    reads maze
  {
    set r, c | 0 <= r < maze.Length0 && 0 <= c < maze.Length1 && (r + c) % 2 == 1 && maze[r, c] == OPEN :: (r, c)
  }

  /** A grid that shows a set of interior joints is walled, has every room
      open, and has exactly those joints open. */
  lemma ShownGrid(maze: array2<char>, joints: set<(int, int)>, width: nat, height: nat)
    requires maze.Length0 == 2 * height + 1 && maze.Length1 == 2 * width + 1
    requires Shows(maze, joints)
    requires forall jt :: jt in joints ==> IsJoint(width, height, jt.0, jt.1)
    ensures forall r, c :: 0 <= r < maze.Length0 && 0 <= c < maze.Length1 ==>
              maze[r, c] == WALL || maze[r, c] == OPEN
    ensures forall r, c :: 0 <= r < maze.Length0 && 0 <= c < maze.Length1 && r % 2 == 0 && c % 2 == 0 ==>
              maze[r, c] == WALL
    ensures forall r, c ::
              0 <= r < maze.Length0 && 0 <= c < maze.Length1 && (r == 0 || c == 0 || r == 2 * height || c == 2 * width)
              ==> maze[r, c] == WALL
    ensures forall r, c :: 0 <= r < maze.Length0 && 0 <= c < maze.Length1 && r % 2 == 1 && c % 2 == 1 ==>
              maze[r, c] == OPEN
    ensures OpenJoints(maze) == joints
  {
    forall jt | jt in joints
      ensures jt in OpenJoints(maze)
    {
      assert maze[jt.0, jt.1] == OPEN;
    }
  }

  /** Kruskal's end state: once every edge of the grid has been offered to
      union, in any order, the forest is a single tree. */
  lemma AllEdgesOneTree(width: nat, height: nat, p: seq<int>, rank: seq<nat>, edges: seq<Edge>)
    requires width * height > 0 && Ranked(p, rank) && |p| == width * height
    requires forall e :: e in EdgeList(width, height) ==> e in edges
    requires EdgesLinked(p, rank, edges, |edges|)
    ensures |RootSet(p)| == 1
  {
    var n := width * height;
    var tag := seq(n, i requires 0 <= i < n => Root(p, rank, i));
    forall e | e in EdgeList(width, height) && 0 <= e.src < |tag| && 0 <= e.dest < |tag|
      ensures tag[e.src] == tag[e.dest]
    {
      assert e in edges;
      var s :| 0 <= s < |edges| && edges[s] == e;
    }
    ConstantOnConnectedGrid(width, height, tag);
    assert forall i :: 0 <= i < n ==> tag[i] == Root(p, rank, i);
    OneTree(p, rank);
  }

  /** Maze.java:108-113: walls wherever either index is even, rooms elsewhere. */
  method FillGrid(width: nat, height: nat) returns (maze: array2<char>)
    ensures fresh(maze)
    ensures maze.Length0 == 2 * height + 1 && maze.Length1 == 2 * width + 1
    ensures Shows(maze, {})
  {
    maze := new char[height * 2 + 1, width * 2 + 1];
    for i := 0 to height * 2 + 1
      invariant forall r, c :: 0 <= r < i && 0 <= c < maze.Length1 ==> maze[r, c] == CellAfter({}, r, c)
    {
      for j := 0 to width * 2 + 1
        invariant forall r, c :: 0 <= r < i && 0 <= c < maze.Length1 ==> maze[r, c] == CellAfter({}, r, c)
        invariant forall c :: 0 <= c < j ==> maze[i, c] == CellAfter({}, i, c)
      {
        maze[i, j] := if i % 2 == 0 || j % 2 == 0 then WALL else OPEN;
      }
    }
  }

  /** Maze.java:115-128: the edge list, in the order of the triple loop. */
  method ListEdges(width: nat, height: nat) returns (edges: seq<Edge>)
    ensures edges == EdgeList(width, height)
  {
    edges := [];
    for i := 0 to height
      invariant edges == GridEdges(width, height, i)
    {
      ghost var rows := edges;
      for j := 0 to width
        invariant edges == rows + RowEdges(width, height, i, j)
      {
        ghost var cells := edges;
        var cell := i * width + j;
        for k := 0 to 4
          invariant edges == cells + CellEdges(width, height, i, j, k)
        {
          var ni := i + DX[k];
          var nj := j + DY[k];
          ghost var added := if InGrid(width, height, ni, nj) then [Edge(cell, ni * width + nj)] else [];
          assert CellEdges(width, height, i, j, k + 1) == CellEdges(width, height, i, j, k) + added by {
            assert ni == i + DX[k] && nj == j + DY[k];
          }
          AppendAssoc(cells, CellEdges(width, height, i, j, k), added);
          if ni >= 0 && ni < height && nj >= 0 && nj < width {
            var dest := ni * width + nj;
            edges := edges + [Edge(cell, dest)];
          }
        }
        AppendAssoc(rows, RowEdges(width, height, i, j), CellEdges(width, height, i, j, 4));
        assert edges == rows + RowEdges(width, height, i, j + 1);
      }
    }
  }

  /** Collections.shuffle (Maze.java:129): the list reordered by `perm`. */
  function Shuffle(edges: seq<Edge>, perm: seq<int>): seq<Edge>
    requires forall t :: 0 <= t < |perm| ==> 0 <= perm[t] < |edges|
  {
    seq(|perm|, t requires 0 <= t < |perm| => edges[perm[t]])
  }

  /** Shuffling by a permutation keeps exactly the same edges. */
  lemma ShuffleKeepsEdges(edges: seq<Edge>, perm: seq<int>)
    requires IsPermutation(perm, |edges|)
    ensures |Shuffle(edges, perm)| == |edges|
    ensures forall e :: e in edges <==> e in Shuffle(edges, perm)
  {
    var r := Shuffle(edges, perm);
    forall e | e in edges
      ensures e in r
    {
      var idx :| 0 <= idx < |edges| && edges[idx] == e;
      assert idx in perm;
      var t :| 0 <= t < |perm| && perm[t] == idx;
      assert r[t] == e;
    }
  }

  /** Every joint in `joints` is an interior joint whose two cells share a root. */
  ghost predicate JointsLinked(p: seq<int>, rank: seq<nat>, width: nat, height: nat, joints: set<(int, int)>)
    requires Ranked(p, rank)
  {
    forall jt :: jt in joints ==>
      width > 0 && IsJoint(width, height, jt.0, jt.1) &&
      var (a, b) := JointCells(width, jt.0, jt.1);
      0 <= a < |p| && 0 <= b < |p| && Root(p, rank, a) == Root(p, rank, b)
  }

  /** Maze.java:139: open one joint of a grid that shows `joints`. */
  method Knock(maze: array2<char>, r: int, c: int, ghost joints: set<(int, int)>) returns (ghost joints': set<(int, int)>)
    requires 0 <= r < maze.Length0 && 0 <= c < maze.Length1
    requires Shows(maze, joints)
    modifies maze
    ensures joints' == joints + {(r, c)}
    ensures Shows(maze, joints')
  {
    maze[r, c] := OPEN;
    joints' := joints + {(r, c)};
    forall r', c' | 0 <= r' < maze.Length0 && 0 <= c' < maze.Length1
      ensures maze[r', c'] == CellAfter(joints', r', c')
    {
      if (r', c') != (r, c) {
        assert maze[r', c'] == old(maze[r', c']);
      }
    }
  }

  /** The first `t` edges of the list connect cells that share a root. */
  ghost predicate EdgesLinked(p: seq<int>, rank: seq<nat>, edges: seq<Edge>, t: int)
    requires Ranked(p, rank)
  {
    forall s :: 0 <= s < t && s < |edges| ==>
      0 <= edges[s].src < |p| && 0 <= edges[s].dest < |p| &&
      Root(p, rank, edges[s].src) == Root(p, rank, edges[s].dest)
  }

  /** What UnionFind.Union promises about the representatives: when it merges,
      the tree of x joins the tree of y, and nothing else moves. */
  ghost predicate UnionEffect(p0: seq<int>, r0: seq<nat>, p1: seq<int>, r1: seq<nat>, x: int, y: int, merged: bool)
    requires Ranked(p0, r0) && Ranked(p1, r1) && |p1| == |p0| && 0 <= x < |p0| && 0 <= y < |p0|
  {
    forall i :: 0 <= i < |p0| ==>
      Root(p1, r1, i) == if merged && Root(p0, r0, i) == Root(p0, r0, x) then Root(p0, r0, y) else Root(p0, r0, i)
  }

  /** Two cells with one root before a union share a root after it. */
  lemma UnionKeepsPair(p0: seq<int>, r0: seq<nat>, p1: seq<int>, r1: seq<nat>, x: int, y: int, merged: bool, a: int, b: int)
    requires Ranked(p0, r0) && Ranked(p1, r1) && |p1| == |p0| && 0 <= x < |p0| && 0 <= y < |p0|
    requires UnionEffect(p0, r0, p1, r1, x, y, merged)
    requires 0 <= a < |p0| && 0 <= b < |p0| && Root(p0, r0, a) == Root(p0, r0, b)
    ensures Root(p1, r1, a) == Root(p1, r1, b)
  {
  }

  /** A union never separates cells that were together: the knocked-through
      joints and the edges already offered stay linked, and so do x and y. */
  lemma UnionKeepsLinks(p0: seq<int>, r0: seq<nat>, p1: seq<int>, r1: seq<nat>, x: int, y: int, merged: bool,
                        width: nat, height: nat, joints: set<(int, int)>, edges: seq<Edge>, t: int)
    requires Ranked(p0, r0) && Ranked(p1, r1) && |p1| == |p0| && 0 <= x < |p0| && 0 <= y < |p0|
    requires UnionEffect(p0, r0, p1, r1, x, y, merged)
    requires Root(p1, r1, x) == Root(p1, r1, y)
    requires 0 <= t < |edges| && edges[t] == Edge(x, y)
    requires JointsLinked(p0, r0, width, height, joints) && EdgesLinked(p0, r0, edges, t)
    ensures JointsLinked(p1, r1, width, height, joints) && EdgesLinked(p1, r1, edges, t + 1)
  {
    forall jt | jt in joints
      ensures 0 <= JointCells(width, jt.0, jt.1).0 < |p1| && 0 <= JointCells(width, jt.0, jt.1).1 < |p1| &&
              Root(p1, r1, JointCells(width, jt.0, jt.1).0) == Root(p1, r1, JointCells(width, jt.0, jt.1).1)
    {
      var (a, b) := JointCells(width, jt.0, jt.1);
      UnionKeepsPair(p0, r0, p1, r1, x, y, merged, a, b);
    }
    forall s | 0 <= s < t + 1 && s < |edges|
      ensures Root(p1, r1, edges[s].src) == Root(p1, r1, edges[s].dest)
    {
      if s < t {
        UnionKeepsPair(p0, r0, p1, r1, x, y, merged, edges[s].src, edges[s].dest);
      }
    }
  }

  /** The room centres computed at Maze.java:134-137 put the joint where Joint says. */
  lemma JointFormula(width: int, e: Edge, x: int, y: int, nx: int, ny: int)
    requires width > 0
    requires x == e.src % width * 2 + 1 && y == e.src / width * 2 + 1
    requires nx == e.dest % width * 2 + 1 && ny == e.dest / width * 2 + 1
    ensures ((y + ny) / 2, (x + nx) / 2) == Joint(width, e)
  {
  }

  /** Knocking through the joint of an edge whose cells are now together keeps
      every open joint linked, and adds one joint. */
  lemma JointKeepsLinks(p: seq<int>, rank: seq<nat>, width: nat, height: nat, joints: set<(int, int)>, e: Edge, jt: (int, int))
    requires Ranked(p, rank) && ValidEdge(width, height, e) && |p| == width * height
    requires jt == Joint(width, e) && jt !in joints
    requires JointsLinked(p, rank, width, height, joints)
    requires Root(p, rank, e.src) == Root(p, rank, e.dest)
    ensures JointsLinked(p, rank, width, height, joints + {jt})
    ensures |joints + {jt}| == |joints| + 1
  {
    JointOfEdge(width, height, e);
    var (a, b) := JointCells(width, jt.0, jt.1);
    assert 0 <= a < |p| && 0 <= b < |p| && Root(p, rank, a) == Root(p, rank, b);
    forall jt' | jt' in joints + {jt}
      ensures width > 0 && IsJoint(width, height, jt'.0, jt'.1) &&
              var (a', b') := JointCells(width, jt'.0, jt'.1);
              0 <= a' < |p| && 0 <= b' < |p| && Root(p, rank, a') == Root(p, rank, b')
    {
      if jt' != jt {
        assert jt' in joints;
      }
    }
  }

  /** Maze.java:133-140: offer edge `t` to union and knock through its joint
      when the union succeeds.  Kruskal's loop invariant is kept, and the joints
      gained match the sets lost. */
  method Offer(uf: UnionFind, maze: array2<char>, width: nat, height: nat, edges: seq<Edge>, t: int,
               ghost joints: set<(int, int)>) returns (ghost joints': set<(int, int)>)
    requires uf.Valid() && uf.parent.Length == width * height
    requires maze.Length0 == 2 * height + 1 && maze.Length1 == 2 * width + 1
    requires AllValid(width, height, edges) && 0 <= t < |edges|
    requires Shows(maze, joints)
    requires JointsLinked(uf.parent[..], uf.rank, width, height, joints)
    requires EdgesLinked(uf.parent[..], uf.rank, edges, t)
    modifies uf`rank, uf.parent, maze
    ensures uf.Valid()
    ensures Shows(maze, joints')
    ensures JointsLinked(uf.parent[..], uf.rank, width, height, joints')
    ensures EdgesLinked(uf.parent[..], uf.rank, edges, t + 1)
    ensures |joints'| + |RootSet(uf.parent[..])| == |joints| + old(|RootSet(uf.parent[..])|)
    ensures width > 0 &&
            (joints' == joints || (Joint(width, edges[t]) !in joints && joints' == joints + {Joint(width, edges[t])}))
    ensures 0 <= edges[t].src < uf.parent.Length && 0 <= edges[t].dest < uf.parent.Length
    ensures (joints' != joints) <==>
            old(Root(uf.parent[..], uf.rank, edges[t].src) != Root(uf.parent[..], uf.rank, edges[t].dest))
    ensures UnionEffect(old(uf.parent[..]), old(uf.rank), uf.parent[..], uf.rank, edges[t].src, edges[t].dest, joints' != joints)
  {
    var edge := edges[t];
    assert ValidEdge(width, height, edge);
    ghost var p0, r0 := uf.parent[..], uf.rank;
    ghost var jt := Joint(width, edge);
    JointOfEdge(width, height, edge);
    assert jt in joints ==> Root(p0, r0, edge.src) == Root(p0, r0, edge.dest);
    var merged := uf.Union(edge.src, edge.dest);
    assert merged ==> jt !in joints;
    UnionKeepsLinks(p0, r0, uf.parent[..], uf.rank, edge.src, edge.dest, merged, width, height, joints, edges, t);
    joints' := joints;
    if merged {
      var x := edge.src % width * 2 + 1;
      var y := edge.src / width * 2 + 1;
      var nx := edge.dest % width * 2 + 1;
      var ny := edge.dest / width * 2 + 1;
      JointFormula(width, edge, x, y, nx, ny);
      JointKeepsLinks(uf.parent[..], uf.rank, width, height, joints, edge, jt);
      joints' := Knock(maze, (y + ny) / 2, (x + nx) / 2, joints);
    }
  }

  /** Maze.java:130-141: offer every edge, in list order, to union.  Returned
      (as ghost values) are the joints knocked through and the final forest. */
  method Kruskal(maze: array2<char>, width: nat, height: nat, edges: seq<Edge>)
      returns (ghost joints: set<(int, int)>, ghost p: seq<int>, ghost rank: seq<nat>)
    requires maze.Length0 == 2 * height + 1 && maze.Length1 == 2 * width + 1
    requires Shows(maze, {}) && AllValid(width, height, edges)
    modifies maze
    ensures Shows(maze, joints)
    ensures forall jt :: jt in joints ==> IsJoint(width, height, jt.0, jt.1)
    ensures Ranked(p, rank) && |p| == width * height
    ensures |joints| + |RootSet(p)| == width * height
    ensures EdgesLinked(p, rank, edges, |edges|)
    ensures width * height > 0 && (forall e :: e in EdgeList(width, height) ==> e in edges) ==> |RootSet(p)| == 1
  {
    var uf := new UnionFind(width * height);
    joints := {};
    for t := 0 to |edges|
      invariant fresh(uf) && fresh(uf.parent)
      invariant uf.Valid() && uf.parent.Length == width * height
      invariant Shows(maze, joints)
      invariant JointsLinked(uf.parent[..], uf.rank, width, height, joints)
      invariant |joints| + |RootSet(uf.parent[..])| == width * height
      invariant EdgesLinked(uf.parent[..], uf.rank, edges, t)
    {
      joints := Offer(uf, maze, width, height, edges, t, joints);
    }
    p, rank := uf.parent[..], uf.rank;
    if width * height > 0 && (forall e :: e in EdgeList(width, height) ==> e in edges) {
      AllEdgesOneTree(width, height, p, rank, edges);
    }
  }

  /** Maze.java:107-143 with the shuffle replaced by `perm`.  The result is a
      walled grid of rooms in which exactly width*height-1 joints are open,
      one per successful union: Kruskal ends with a single set. */
  method GenerateMaze(width: nat, height: nat, perm: seq<int>) returns (maze: array2<char>)
    requires IsPermutation(perm, EdgeCount(width, height))
    ensures fresh(maze)
    ensures maze.Length0 == 2 * height + 1 && maze.Length1 == 2 * width + 1
    ensures forall r, c :: 0 <= r < maze.Length0 && 0 <= c < maze.Length1 ==>
              maze[r, c] == WALL || maze[r, c] == OPEN
    ensures forall r, c :: 0 <= r < maze.Length0 && 0 <= c < maze.Length1 && r % 2 == 0 && c % 2 == 0 ==>
              maze[r, c] == WALL
    ensures forall r, c ::
              0 <= r < maze.Length0 && 0 <= c < maze.Length1 && (r == 0 || c == 0 || r == 2 * height || c == 2 * width)
              ==> maze[r, c] == WALL
    ensures forall r, c :: 0 <= r < maze.Length0 && 0 <= c < maze.Length1 && r % 2 == 1 && c % 2 == 1 ==>
              maze[r, c] == OPEN
    ensures |OpenJoints(maze)| == if width * height == 0 then 0 else width * height - 1
  {
    maze := FillGrid(width, height);
    var edges := ListEdges(width, height);
    EdgeListCount(width, height);
    ShuffleKeepsEdges(edges, perm);
    edges := Shuffle(edges, perm);
    EdgeListSound(width, height);
    ghost var joints, p, rank := Kruskal(maze, width, height, edges);
    ShownGrid(maze, joints, width, height);
  }
}
