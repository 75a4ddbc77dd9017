/** The candidate edges of maze generation (Maze.java:8-15, 115-128): for every
    logical cell, row by row and column by column, one Edge towards each
    in-bounds neighbour in the order of the offset tables. Cell (i, j) is
    numbered i * width + j. */
module Edges {
  import opened Geometry

  /** Maze.java:8-15: a directed pair of logical cells. */
  datatype Edge = Edge(src: int, dest: int)

  predicate InGrid(width: int, height: int, i: int, j: int)
  {
    0 <= i < height && 0 <= j < width
  }

  /** Two logical cells that share a side: their rows plus their columns differ by one. */
  predicate Adjacent(width: int, a: int, b: int)
    requires width > 0
  {
    Abs(a / width - b / width) + Abs(a % width - b % width) == 1
  }

  /** The edges recorded for cell (i, j) by directions 0..k-1 (Maze.java:119-126). */
  function CellEdges(width: int, height: int, i: int, j: int, k: nat): seq<Edge>
    requires k <= 4
  {
    if k == 0 then []
    else
      var ni, nj := i + DX[k - 1], j + DY[k - 1];
      CellEdges(width, height, i, j, k - 1) +
      (if InGrid(width, height, ni, nj) then [Edge(i * width + j, ni * width + nj)] else [])
  }

  /** The edges recorded for cells (i, 0..j-1). */
  function RowEdges(width: int, height: int, i: int, j: nat): seq<Edge>
  {
    if j == 0 then [] else RowEdges(width, height, i, j - 1) + CellEdges(width, height, i, j - 1, 4)
  }

  /** The edges recorded for rows 0..i-1. */
  function GridEdges(width: nat, height: int, i: nat): seq<Edge>
  {
    if i == 0 then [] else GridEdges(width, height, i - 1) + RowEdges(width, height, i - 1, width)
  }

  /** The whole edge list, in the order the triple loop builds it. */
  function EdgeList(width: nat, height: nat): seq<Edge>
  {
    GridEdges(width, height, height)
  }

  /** The length of the edge list: every one of the h*(w-1) + w*(h-1) shared
      sides is listed twice. */
  function EdgeCount(width: nat, height: nat): int
  {
    if width == 0 || height == 0 then 0 else 2 * (height * (width - 1) + width * (height - 1))
  }

  lemma MulSucc(a: int, b: int)
    ensures a * b + b == (a + 1) * b
  {
  }

  lemma MulAdd(w: int, a: int, b: int)
    ensures w * a + w * b == w * (a + b)
  {
  }

  lemma MulMonotone(w: int, a: int, b: int)
    requires w > 0 && a <= b
    ensures w * a <= w * b
  {
  }

  lemma MulDistributes(w: int, a: int, b: int)
    ensures w * a - b * w == w * (a - b)
  {
  }

  /** Cell numbering is a bijection onto row and column. */
  lemma CellCoords(width: int, i: int, j: int)
    requires 0 <= j < width
    ensures (i * width + j) / width == i && (i * width + j) % width == j
  {
    var c := i * width + j;
    var q, r := c / width, c % width;
    assert c == width * q + r;
    MulDistributes(width, q, i);
    if q > i {
      MulMonotone(width, 1, q - i);
    } else if q < i {
      MulDistributes(width, i, q);
      MulMonotone(width, 1, i - q);
    }
  }

  /** The cells of in-bounds grids lie in 0..width*height-1. */
  lemma CellInRange(width: int, height: int, i: int, j: int)
    requires InGrid(width, height, i, j)
    ensures 0 <= i * width + j < width * height
  {
    assert i * width + j < (i + 1) * width <= height * width;
  }

  /** Every edge recorded for an in-bounds cell joins it to an in-bounds neighbour. */
  ghost predicate ValidEdge(width: int, height: int, e: Edge)
  {
    width > 0 && 0 <= e.src < width * height && 0 <= e.dest < width * height && Adjacent(width, e.src, e.dest)
  }

  /** Every edge of the list joins two side-sharing cells of the grid. */
  ghost predicate AllValid(width: int, height: int, edges: seq<Edge>)
  {
    forall t :: 0 <= t < |edges| ==> ValidEdge(width, height, edges[t])
  }

  lemma AllValidConcat(width: int, height: int, a: seq<Edge>, b: seq<Edge>)
    requires AllValid(width, height, a) && AllValid(width, height, b)
    ensures AllValid(width, height, a + b)
  {
    var c := a + b;
    forall t | 0 <= t < |c|
      ensures ValidEdge(width, height, c[t])
    {
      if t < |a| {
        assert c[t] == a[t];
      } else {
        assert c[t] == b[t - |a|];
      }
    }
    assert AllValid(width, height, c);
  }

  lemma {:induction false} CellEdgesSound(width: int, height: int, i: int, j: int, k: nat)
    requires k <= 4 && InGrid(width, height, i, j)
    ensures AllValid(width, height, CellEdges(width, height, i, j, k))
  {
    if k > 0 {
      CellEdgesSound(width, height, i, j, k - 1);
      var ni, nj := i + DX[k - 1], j + DY[k - 1];
      if InGrid(width, height, ni, nj) {
        CellCoords(width, i, j);
        CellCoords(width, ni, nj);
        CellInRange(width, height, i, j);
        CellInRange(width, height, ni, nj);
        assert ValidEdge(width, height, Edge(i * width + j, ni * width + nj));
        AllValidConcat(width, height, CellEdges(width, height, i, j, k - 1), [Edge(i * width + j, ni * width + nj)]);
      }
    }
  }

  lemma {:induction false} RowEdgesSound(width: int, height: int, i: int, j: nat)
    requires 0 <= i < height && j <= width
    ensures AllValid(width, height, RowEdges(width, height, i, j))
  {
    if j > 0 {
      RowEdgesSound(width, height, i, j - 1);
      CellEdgesSound(width, height, i, j - 1, 4);
      AllValidConcat(width, height, RowEdges(width, height, i, j - 1), CellEdges(width, height, i, j - 1, 4));
    }
  }

  lemma {:induction false} GridEdgesSound(width: nat, height: int, i: nat)
    requires i <= height
    ensures AllValid(width, height, GridEdges(width, height, i))
  {
    if i > 0 {
      GridEdgesSound(width, height, i - 1);
      RowEdgesSound(width, height, i - 1, width);
      AllValidConcat(width, height, GridEdges(width, height, i - 1), RowEdges(width, height, i - 1, width));
    }
  }

  /** Every recorded edge joins two in-range, side-sharing cells (Maze.java:120-124). */
  lemma EdgeListSound(width: nat, height: nat)
    ensures AllValid(width, height, EdgeList(width, height))
    ensures forall e :: e in EdgeList(width, height) ==> ValidEdge(width, height, e)
  {
    GridEdgesSound(width, height, height);
  }

  lemma {:induction false} CellEdgesGrow(width: int, height: int, i: int, j: int, k: nat, k': nat)
    requires k <= k' <= 4
    ensures forall e :: e in CellEdges(width, height, i, j, k) ==> e in CellEdges(width, height, i, j, k')
    decreases k'
  {
    if k < k' {
      CellEdgesGrow(width, height, i, j, k, k' - 1);
    }
  }

  lemma {:induction false} RowEdgesGrow(width: int, height: int, i: int, j: nat, j': nat)
    requires j <= j'
    ensures forall e :: e in RowEdges(width, height, i, j) ==> e in RowEdges(width, height, i, j')
    decreases j'
  {
    if j < j' {
      RowEdgesGrow(width, height, i, j, j' - 1);
    }
  }

  lemma {:induction false} GridEdgesGrow(width: nat, height: int, i: nat, i': nat)
    requires i <= i'
    ensures forall e :: e in GridEdges(width, height, i) ==> e in GridEdges(width, height, i')
    decreases i'
  {
    if i < i' {
      GridEdgesGrow(width, height, i, i' - 1);
    }
  }

  /** An edge of cell (i, j) is listed among the edges of row i. */
  lemma CellInRowEdges(width: nat, height: nat, i: int, j: int, e: Edge)
    requires 0 <= j < width && e in CellEdges(width, height, i, j, 4)
    ensures e in RowEdges(width, height, i, width)
  {
    assert e in RowEdges(width, height, i, j + 1);
    RowEdgesGrow(width, height, i, j + 1, width);
  }

  /** An edge of row i is listed in the whole edge list. */
  lemma RowInEdgeList(width: nat, height: nat, i: int, e: Edge)
    requires 0 <= i < height && e in RowEdges(width, height, i, width)
    ensures e in EdgeList(width, height)
  {
    assert e in GridEdges(width, height, i + 1);
    GridEdgesGrow(width, height, i + 1, height);
  }

  /** The edge from cell (i, j) in direction k is recorded when its end is in bounds. */
  lemma DirectionRecorded(width: nat, height: nat, i: int, j: int, k: int)
    requires InGrid(width, height, i, j) && 0 <= k < 4
    requires InGrid(width, height, i + DX[k], j + DY[k])
    ensures Edge(i * width + j, (i + DX[k]) * width + j + DY[k]) in EdgeList(width, height)
  {
    var e := Edge(i * width + j, (i + DX[k]) * width + j + DY[k]);
    assert e in CellEdges(width, height, i, j, k + 1);
    CellEdgesGrow(width, height, i, j, k + 1, 4);
    CellInRowEdges(width, height, i, j, e);
    RowInEdgeList(width, height, i, e);
  }

  /** The row of a cell of the grid is one of its rows. */
  lemma RowInRange(width: int, height: int, a: int)
    requires width > 0 && 0 <= a < width * height
    ensures 0 <= a / width < height && a / width * width + a % width == a
  {
    var i := a / width;
    assert a == width * i + a % width;
    if i < 0 { MulMonotone(width, i, -1); }
    if i >= height { MulMonotone(width, height, i); }
  }

  /** Every pair of side-sharing cells is recorded, in both orientations. */
  lemma EdgeListComplete(width: nat, height: nat, a: int, b: int)
    requires width > 0 && 0 <= a < width * height && 0 <= b < width * height
    requires Adjacent(width, a, b)
    ensures Edge(a, b) in EdgeList(width, height)
  {
    var i, j := a / width, a % width;
    var ni, nj := b / width, b % width;
    RowInRange(width, height, a);
    RowInRange(width, height, b);
    assert i * width + j == a && ni * width + nj == b;
    var k: int;
    if ni == i - 1 {
      k := 0;
    } else if nj == j + 1 {
      k := 1;
    } else if ni == i + 1 {
      k := 2;
    } else {
      k := 3;
    }
    assert ni == i + DX[k] && nj == j + DY[k];
    DirectionRecorded(width, height, i, j, k);
  }

  /** The edge list is closed under reversal (the duplication of Maze.java:116-128). */
  lemma EdgeListSymmetric(width: nat, height: nat, e: Edge)
    requires width > 0 && e in EdgeList(width, height)
    ensures Edge(e.dest, e.src) in EdgeList(width, height)
  {
    EdgeListSound(width, height);
    EdgeListComplete(width, height, e.dest, e.src);
  }

  function Indicator(b: bool): nat
  {
    if b then 1 else 0
  }

  /** Number of vertical neighbours of a cell in row i. */
  function VerticalDegree(height: int, i: int): nat
  {
    Indicator(i > 0) + Indicator(i + 1 < height)
  }

  function Min(a: int, b: int): int
  {
    if a < b then a else b
  }

  lemma {:induction false} CellEdgesCount(width: int, height: int, i: int, j: int)
    requires InGrid(width, height, i, j)
    ensures |CellEdges(width, height, i, j, 4)| ==
            VerticalDegree(height, i) + Indicator(j + 1 < width) + Indicator(j > 0)
  {
    assert |CellEdges(width, height, i, j, 1)| == Indicator(i > 0);
    assert |CellEdges(width, height, i, j, 2)| == Indicator(i > 0) + Indicator(j + 1 < width);
    assert |CellEdges(width, height, i, j, 3)| == VerticalDegree(height, i) + Indicator(j + 1 < width);
  }

  lemma {:induction false} RowEdgesCount(width: int, height: int, i: int, j: nat)
    requires 0 <= i < height && j <= width && width > 0
    ensures |RowEdges(width, height, i, j)| ==
            j * VerticalDegree(height, i) + Min(j, width - 1) + (if j > 0 then j - 1 else 0)
  {
    if j > 0 {
      RowEdgesCount(width, height, i, j - 1);
      CellEdgesCount(width, height, i, j - 1);
      MulSucc(j - 1, VerticalDegree(height, i));
    }
  }

  lemma {:induction false} GridEdgesCount(width: nat, height: int, i: nat)
    requires i <= height && width > 0 && height > 0
    ensures |GridEdges(width, height, i)| ==
            width * ((if i > 0 then i - 1 else 0) + Min(i, height - 1)) + 2 * (i * (width - 1))
  {
    if i > 0 {
      GridEdgesCount(width, height, i - 1);
      RowEdgesCount(width, height, i - 1, width);
      var v := VerticalDegree(height, i - 1);
      var s := (if i - 1 > 0 then i - 2 else 0) + Min(i - 1, height - 1);
      assert s + v == (if i > 0 then i - 1 else 0) + Min(i, height - 1);
      MulAdd(width, s, v);
      MulSucc(i - 1, width - 1);
    }
  }

  /** The edge list has EdgeCount entries: each shared side once from each end. */
  lemma EdgeListCount(width: nat, height: nat)
    ensures |EdgeList(width, height)| == EdgeCount(width, height)
  {
    if width > 0 && height > 0 {
      GridEdgesCount(width, height, height);
      MulAdd(width, height - 1, height - 1);
    } else if width == 0 {
      ZeroWidthEmpty(height, height);
    }
  }

  lemma {:induction false} ZeroWidthEmpty(height: int, i: nat)
    ensures GridEdges(0, height, i) == []
  {
    if i > 0 {
      ZeroWidthEmpty(height, i - 1);
    }
  }

  /** The grid graph is connected: a tagging of the cells that agrees across
      every recorded edge gives every cell the tag of cell 0. */
  lemma ConstantOnConnectedGrid(width: nat, height: nat, tag: seq<int>)
    requires width > 0 && |tag| == width * height
    requires forall e :: e in EdgeList(width, height) && 0 <= e.src < |tag| && 0 <= e.dest < |tag| ==>
               tag[e.src] == tag[e.dest]
    ensures forall c :: 0 <= c < |tag| ==> tag[c] == tag[0]
  {
    forall c | 0 <= c < |tag|
      ensures tag[c] == tag[0]
    {
      TagOfCell(width, height, tag, c);
    }
  }

  /** A tag that agrees across every recorded edge agrees between a cell and
      its left neighbour (direction 3) and its upper neighbour (direction 0). */
  lemma TagStep(width: nat, height: nat, tag: seq<int>, c: int)
    requires width > 0 && |tag| == width * height && 0 <= c < |tag|
    requires forall e :: e in EdgeList(width, height) && 0 <= e.src < |tag| && 0 <= e.dest < |tag| ==>
               tag[e.src] == tag[e.dest]
    ensures c % width > 0 ==> tag[c] == tag[c - 1]
    ensures c / width > 0 ==> c - width >= 0 && tag[c] == tag[c - width]
  {
    var i, j := c / width, c % width;
    RowInRange(width, height, c);
    if j > 0 {
      DirectionRecorded(width, height, i, j, 3);
    }
    if i > 0 {
      DirectionRecorded(width, height, i, j, 0);
      MulSucc(i - 1, width);
    }
  }

  lemma {:induction false} TagOfCell(width: nat, height: nat, tag: seq<int>, c: int)
    requires width > 0 && |tag| == width * height && 0 <= c < |tag|
    requires forall e :: e in EdgeList(width, height) && 0 <= e.src < |tag| && 0 <= e.dest < |tag| ==>
               tag[e.src] == tag[e.dest]
    ensures tag[c] == tag[0]
    decreases c
  {
    TagStep(width, height, tag, c);
    if c % width > 0 {
      TagOfCell(width, height, tag, c - 1);
    } else if c / width > 0 {
      TagOfCell(width, height, tag, c - width);
    } else {
      assert c == c / width * width + c % width;
    }
  }
}
