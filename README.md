# Maze generation and path search, modelled in Dafny

`Maze.java` builds a perfect maze with randomised Kruskal and finds a path
through it with a recursive depth-first search. This project models the four
parts of that file that compute something, and proves what they promise:

- **Disjoint sets** (`union_find.dfy`, module `DisjointSet`). The class
  `UnionFind` has a `parent` array. `Find` recurses and compresses the path.
  `Union` hangs the root of `x` under the root of `y`. The source keeps no
  rank. The model adds a ghost `rank`, which rises strictly from every non-root
  to its parent. It only proves that the recursion terminates. The pure
  function `Root` over `parent[..]` says which set an element is in.
- **Edge list** (`edges.dfy`, module `Edges`). The triple loop of
  `generateMaze` is described by the pure function `EdgeList`. Lemmas prove
  four things about it: every edge joins two in-range, side-sharing cells;
  every such pair is listed in both orientations; the list has
  `2*(h*(w-1) + w*(h-1))` edges; and the grid graph is connected.
- **Generation** (`generate.dfy`, module `Generate`). `FillGrid` fills the
  character grid. `ListEdges` runs the triple loop. `Kruskal` runs the union
  loop, one `Offer` per edge. `GenerateMaze` composes them. The shuffle is
  replaced by an arbitrary permutation `perm` of the edge indices, so every
  result holds for every order. The ghost set `joints` records which joint
  cells were knocked through. It proves four things: the grid shows exactly
  those joints; each successful union adds one new joint; joints plus sets
  always equal `width*height`; and once every edge has been offered, only one
  set is left. So exactly `width*height - 1` joints are open.
- **Search** (`search.dfy`, module `Search`). `DfsPath` works on an
  `array2<char>` read as `maze[y, x]`. The path list is a `seq<int>` passed in
  and returned. Its termination measure is the set of cells that are neither
  `'#'` nor `'v'`. Its contract works on `Snapshot`, the maze read as rows.
  It says three things. Only marks to `'v'` change the maze. A failure leaves
  the path as it was. A success appends a `SearchPath`: a walk of distinct
  cells that were open at the start, from an `'E'` cell to `(x, y)`, each
  point after the first marked `'v'`.
- **Directions** (`directions.dfy`, module `Directions`). `PathToDirections`
  is the backwards loop of the source, proved equal to the pure function
  `Directions`. Lemmas bound its length and alphabet. For a walk they give one
  letter per step, and replaying the letters from the last point reaches the
  first point. So from the start of a successful search, the letters lead to
  the `'E'` cell it found.

`geometry.dfy` (module `Geometry`) holds the offset tables `dx`/`dy` and the
predicates on flat paths `x0, y0, x1, y1, ...` that the search and the
directions share.

Three behaviours of the source are worth stating, because the model follows
them as written:

- The search appends every cell it steps through, joint cells included, so
  consecutive points of a path differ by 1 in one coordinate.
- `generateMaze` accepts a width or height of 0 and then opens no joint.
- The search tries `(x-1, y)`, `(x, y+1)`, `(x+1, y)` and `(x, y-1)`, in that
  order, as the offset tables give them.

## Model

| member | source | states |
|---|---|---|
| DisjointSet.Root | Maze.java:27-32 | following parents from `i` ends at an element that is its own parent, of rank at least that of `i` |
| DisjointSet.SingletonsRootSet | Maze.java:20-25 | in a forest where every element is its own parent there are `size` roots |
| DisjointSet.CompressPreservesRoots | Maze.java:31 | pointing `x` straight at its root keeps the forest well-founded and leaves every element's root unchanged |
| DisjointSet.LinkMovesTree | Maze.java:40 | after `parent[a] := b` for two distinct roots, exactly the elements whose root was `a` now have root `b`, and the lifted rank orders the new forest |
| DisjointSet.LinkRootSet | Maze.java:40 | linking two distinct roots removes exactly root `a`, so the number of sets drops by one |
| DisjointSet.OneTree | Maze.java:27-32 | when every element has the root of element 0, that root is the only one |
| DisjointSet.UnionFind.constructor | Maze.java:20-25 | `parent` has length `size`, `parent[i] == i` for all `i`, and there are `size` sets |
| DisjointSet.OnPathRank | Maze.java:27-32 | every node on the way from `x` to its root is in range and ranked at least as high as `x` |
| DisjointSet.UnionFind.Find | Maze.java:27-32 | returns the root of `x` in the old forest; afterwards `parent[r] == r`; every node on the old path from `x` to the root (`x` included) now points at `r`, and every other entry is unchanged; every element keeps its root; the set of roots is unchanged |
| DisjointSet.UnionFind.Union | Maze.java:34-42 | returns true exactly when `x` and `y` had different roots. Afterwards they share a root. Elements of the tree of `x` move to the root of `y`; every other element keeps its root. The number of sets drops by one exactly when it returns true |
| Geometry.OffsetsAreUnitSteps | Maze.java:93-94 | each of the four offsets moves one cell along one axis, in both directions |
| Geometry.WalkExtend | Maze.java:158-161 | appending a point one unit step from the last point keeps a path a walk |
| Geometry.DistinctExtend | Maze.java:158-161 | appending a point not yet in the path keeps its points distinct |
| Edges.CellCoords | Maze.java:118 | cell number `i*width+j` gives back row `i` and column `j` |
| Edges.DirectionRecorded | Maze.java:116-128 | the edge from an in-grid cell to its in-grid neighbour in any direction is in the list |
| Edges.EdgeListSound | Maze.java:116-128 | every listed edge has both ends in `0..width*height-1`, and the ends are side-sharing cells |
| Edges.EdgeListComplete | Maze.java:116-128 | every pair of side-sharing cells of the grid is listed as `Edge(a, b)` |
| Edges.EdgeListSymmetric | Maze.java:116-128 | the list holds the reversal of each of its edges |
| Edges.EdgeListCount | Maze.java:116-128 | the list has `2*(h*(w-1) + w*(h-1))` edges for a non-empty grid, none otherwise |
| Edges.ConstantOnConnectedGrid | Maze.java:116-128 | a labelling of cells that agrees across every listed edge is constant, so the grid graph is connected |
| Generate.ShuffleKeepsEdges | Maze.java:129 | reordering by a permutation keeps the length and the edges of the list |
| Generate.JointOfEdge | Maze.java:134-139 | the cell written for an edge is an interior cell with exactly one even coordinate, and it separates the edge's two cells |
| Generate.ShownGrid | Maze.java:108-113 | a grid showing a set of interior joints has only `'#'` and `' '`, walls at every even/even and border cell, open rooms, and exactly those joints open |
| Generate.UnionKeepsLinks | Maze.java:133 | a union never separates cells that were together, so every open joint and every edge already offered still joins cells of one set |
| Generate.JointKeepsLinks | Maze.java:133-139 | opening the joint of an edge whose cells now share a set keeps every open joint linked, and adds one new joint |
| Generate.AllEdgesOneTree | Maze.java:132-141 | once every edge of the grid has joined cells of one set, in any order, there is a single set |
| Generate.FillGrid | Maze.java:108-113 | a `(2h+1) x (2w+1)` grid with walls wherever an index is even and rooms elsewhere |
| Generate.ListEdges | Maze.java:115-128 | the triple loop produces exactly `EdgeList(width, height)` |
| Generate.Knock | Maze.java:139 | writing `' '` at one cell adds `(r, c)` to the joints the grid shows |
| Generate.Offer | Maze.java:133-140 | one loop iteration keeps the Kruskal invariant. A joint is opened exactly when the edge's two cells had different roots, and it is then this edge's joint, not open before. The forest changes as `union` says: when it merges, the tree of `src` moves under the root of `dest`, and nothing else moves. Joints gained equal sets lost |
| Generate.Kruskal | Maze.java:130-141 | the grid shows the opened joints, all interior; joints plus sets equal `width*height`; every offered edge joins cells of one set; when every edge of the grid was offered, one set is left |
| Generate.GenerateMaze | Maze.java:107-143 | for every edge order: the grid shape, walls, rooms and border, and exactly `width*height - 1` open joints (none for an empty grid) |
| Search.OnlyVisitsTransitive | Maze.java:156-159 | marks made by successive calls compose: the maze still differs only by new `'v'` marks |
| Search.VisitShrinksOpenCells | Maze.java:156 | marking an open cell strictly shrinks the set of cells the search may enter |
| Search.ExtendSearchPath | Maze.java:159-162 | a successful call from a neighbour, followed by appending `(x, y)`, yields a search path from `(x, y)` |
| Search.DfsPath | Maze.java:145-167 | only cells that were neither `'#'` nor `'E'` change, and only to `'v'`. On failure the path is unchanged. On success the appended part is a walk of distinct, in-bounds, non-wall cells from an `'E'` cell to `(x, y)`, each point after the first marked `'v'`. A closed cell fails and changes nothing. An `'E'` cell appends just `(x, y)`. Any other open cell ends up `'v'` |
| Directions.Letter | Maze.java:175-182 | at most one letter, always one of `N`, `S`, `E`, `W` |
| Directions.DirectionsFrom | Maze.java:171-183 | the letters of iterations `i, i-2, ..., 0`: at most one per iteration, all from `NSEW` |
| Directions.PathToDirections | Maze.java:169-185 | the loop computes `Directions(path)` |
| Directions.DirectionsLength | Maze.java:169-185 | at most `size/2 - 1` letters, none for fewer than two points, all from `NSEW` |
| Directions.LetterOfStep | Maze.java:172-182 | a unit step gives one letter, and moving by it from the later point returns to the earlier point |
| Directions.WalkDirectionsFrom | Maze.java:171-183 | along a walk each iteration gives one letter, and replaying them from point `(i+2)/2` reaches point 0 |
| Directions.WalkDirections | Maze.java:169-185 | for a walk of `n >= 1` points: exactly `n - 1` letters, and replaying them from the last point reaches the first |
| Directions.SearchPathDirections | Maze.java:145-185 | the directions of a successful search from `(x, y)` have one letter per step and lead from `(x, y)` to the `'E'` cell found |

## Left out

- `MazePanel` (Maze.java:45-90): Swing painting only.
- `displayMaze` (Maze.java:187-253): window, sliders, buttons and listeners, which are user interface only. This includes reusing a grid that is already full of `'v'` marks.
- `main` (Maze.java:97-105): wiring only. Placing `'E'` at the bottom-right room is left to the caller of `Search.DfsPath`.
- `Collections.shuffle` (Maze.java:129): the random generator is not modelled. `GenerateMaze` takes any permutation of the edge indices instead.
- Java `int` overflow: sizes and cell numbers are unbounded integers. Negative sizes, for which Java throws, are ruled out by `nat` parameters.
- Ragged `char[][]` arrays: the maze is a rectangular `array2<char>`, as `generateMaze` produces.
- `Search.DfsPath`: the requirement `maze.Length0 > 0 || x < 0 || y < 0` stands for the exception Java raises when it reads `maze[0].length` of an empty maze.
- The shared static `path` list is modelled as the `path` argument and the returned sequence. Clearing it between searches belongs to the user interface.
- `Search.DfsPath`: does not state that a false result means no `'E'` cell is reachable through open cells. Completeness of the search with never-cleared marks is not proved.
- `Generate.GenerateMaze`: states only that exactly `width*height - 1` joints are open. That the open joints form a spanning tree of the rooms (every room reachable from every other through open cells, and no cycle) is not proved. `Generate.Kruskal` states that a single disjoint set is left, which is a fact about the forest, not about the character grid.
- `DisjointSet.UnionFind`: the ghost `rank` is not in the source. It serves only to measure `Find`'s recursion and is never read by real code.
