/**
 `WordSearchGraph.add_edge` and `build_graph`: the adjacency lists of the grid,
 each cell joined to the cells one king move away.

 The source keys the dictionary by `(row, col)` and creates a key only when the
 first edge from that cell is added, so a cell without neighbours (the single
 cell of a 1 x 1 grid) has no entry. Python dictionaries keep insertion order;
 the map here does not record it, but each cell's list keeps its order.
 */
module Graph {
  import opened Wrappers
  import opened Grid

  type Adjacency = map<Cell, seq<Cell>>

  /**
   The eight neighbour offsets in the order `build_graph` tries them: first down,
   up, right, left, then the four diagonals.
   */
  const Steps: seq<(int, int)> := [(1, 0), (-1, 0), (0, 1), (0, -1), (1, 1), (-1, -1), (-1, 1), (1, -1)]

  function Shift(x: Cell, s: (int, int)): Cell {
    Cell(x.row + s.0, x.col + s.1)
  }

  /** The in-bounds cells among the first `k` offsets from `x`, in order. */
  function Near(g: Grid, x: Cell, k: nat): seq<Cell>
    requires IsGrid(g) && k <= |Steps|
  {
    if k == 0 then []
    else
      var y := Shift(x, Steps[k - 1]);
      Near(g, x, k - 1) + (if InBounds(g, y) then [y] else [])
  }

  /** The list `build_graph` leaves for cell `x`. */
  function Neighbours(g: Grid, x: Cell): seq<Cell>
    requires IsGrid(g)
  {
    Near(g, x, |Steps|)
  }

  /** `add_edge(node1, node2)`: append `b` to the list of `a`, creating it if `a` has none. */
  function AddEdge(adj: Adjacency, a: Cell, b: Cell): (r: Adjacency)
    ensures r.Keys == adj.Keys + {a}
    ensures r[a] == (if a in adj then adj[a] else []) + [b]
    ensures forall x :: x in adj && x != a ==> r[x] == adj[x]
  {
    adj[a := (if a in adj then adj[a] else []) + [b]]
  }

  /** The two inner loops of `build_graph` for one cell that has no entry yet. */
  method AddNeighbours(g: Grid, adj: Adjacency, x: Cell) returns (r: Adjacency)
    requires IsGrid(g) && x !in adj
    ensures r == if |Neighbours(g, x)| > 0 then adj[x := Neighbours(g, x)] else adj
  {
    r := adj;
    var k := 0;
    while k < |Steps|
      invariant 0 <= k <= |Steps|
      invariant r == if |Near(g, x, k)| > 0 then adj[x := Near(g, x, k)] else adj
    {
      var y := Shift(x, Steps[k]);
      assert Near(g, x, k + 1) == Near(g, x, k) + (if InBounds(g, y) then [y] else []);
      if 0 <= y.row < |g| && 0 <= y.col < |g[0]| {
        if |Near(g, x, k)| == 0 {
          assert Near(g, x, k + 1) == [y];
        }
        r := AddEdge(r, x, y);
        assert r == adj[x := Near(g, x, k + 1)];
      } else {
        assert Near(g, x, k + 1) == Near(g, x, k);
      }
      k := k + 1;
    }
  }

  /** Row-major order: cell `x` comes before position (i, j). */
  predicate Before(x: Cell, i: int, j: int) {
    x.row < i || (x.row == i && x.col < j)
  }

  /**
   `build_graph()` on an empty dictionary: every cell that has a neighbour is a key,
   no other key exists, and each key's list is its neighbours in the order tried.
   */
  method BuildGraph(g: Grid) returns (adj: Adjacency)
    requires IsGrid(g)
    ensures forall x :: x in adj <==> InBounds(g, x) && |Neighbours(g, x)| > 0
    ensures forall x :: x in adj ==> adj[x] == Neighbours(g, x)
  {
    adj := map[];
    var i := 0;
    while i < |g|
      invariant 0 <= i <= |g|
      invariant forall x :: x in adj <==> InBounds(g, x) && Before(x, i, 0) && |Neighbours(g, x)| > 0
      invariant forall x :: x in adj ==> adj[x] == Neighbours(g, x)
    {
      var j := 0;
      while j < |g[0]|
        invariant 0 <= j <= |g[0]|
        invariant forall x :: x in adj <==> InBounds(g, x) && Before(x, i, j) && |Neighbours(g, x)| > 0
        invariant forall x :: x in adj ==> adj[x] == Neighbours(g, x)
      {
        adj := AddNeighbours(g, adj, Cell(i, j));
        j := j + 1;
      }
      i := i + 1;
    }
  }

  // ---------------------------------------------------------------------------
  // What the adjacency lists mean

  lemma {:induction false} NearMembers(g: Grid, x: Cell, k: nat, y: Cell)
    requires IsGrid(g) && k <= |Steps|
    ensures y in Near(g, x, k) <==> InBounds(g, y) && exists m :: 0 <= m < k && y == Shift(x, Steps[m])
  {
    if k > 0 {
      NearMembers(g, x, k - 1, y);
    }
  }

  /** The neighbours of a cell are exactly the grid cells one king move away. */
  lemma NeighbourIffAdjacent(g: Grid, x: Cell, y: Cell)
    requires IsGrid(g)
    ensures y in Neighbours(g, x) <==> InBounds(g, y) && Dist(x, y) == 1
  {
    NearMembers(g, x, |Steps|, y);
    if InBounds(g, y) && Dist(x, y) == 1 {
      var s := (y.row - x.row, y.col - x.col);
      assert s in Steps;
      var m :| 0 <= m < |Steps| && Steps[m] == s;
      assert y == Shift(x, Steps[m]);
    }
  }

  /** Adjacency is symmetric: `y` is listed for `x` exactly when `x` is listed for `y`. */
  lemma NeighboursSymmetric(g: Grid, x: Cell, y: Cell)
    requires IsGrid(g) && InBounds(g, x) && InBounds(g, y)
    ensures y in Neighbours(g, x) <==> x in Neighbours(g, y)
  {
    NeighbourIffAdjacent(g, x, y);
    NeighbourIffAdjacent(g, y, x);
  }

  /** No cell is its own neighbour. */
  lemma NoSelfLoop(g: Grid, x: Cell)
    requires IsGrid(g)
    ensures x !in Neighbours(g, x)
  {
    NeighbourIffAdjacent(g, x, x);
  }

  /** No neighbour is listed twice: `add_edge` is called once per offset and the offsets differ. */
  lemma {:induction false} NearDistinct(g: Grid, x: Cell, k: nat)
    requires IsGrid(g) && k <= |Steps|
    ensures Distinct(Near(g, x, k))
  {
    if k > 0 {
      NearDistinct(g, x, k - 1);
      var y := Shift(x, Steps[k - 1]);
      if y in Near(g, x, k - 1) {
        NearMembers(g, x, k - 1, y);
        var m :| 0 <= m < k - 1 && y == Shift(x, Steps[m]);
        assert false;
      }
    }
  }

  lemma {:induction false} NearAllInside(g: Grid, x: Cell, k: nat)
    requires IsGrid(g) && k <= |Steps|
    requires forall m :: 0 <= m < k ==> InBounds(g, Shift(x, Steps[m]))
    ensures |Near(g, x, k)| == k
  {
    if k > 0 {
      NearAllInside(g, x, k - 1);
    }
  }

  /** A cell away from the border has all eight neighbours. */
  lemma InteriorHasEight(g: Grid, x: Cell)
    requires IsGrid(g) && 1 <= x.row < |g| - 1 && 1 <= x.col < Cols(g) - 1
    ensures |Neighbours(g, x)| == 8
  {
    NearAllInside(g, x, |Steps|);
  }

  /** The top-left corner of a grid of at least 2 x 2 has three: below, right and diagonally below-right. */
  lemma CornerHasThree(g: Grid)
    requires IsGrid(g) && |g| >= 2 && Cols(g) >= 2
    ensures Neighbours(g, Cell(0, 0)) == [Cell(1, 0), Cell(0, 1), Cell(1, 1)]
  {
    var x := Cell(0, 0);
    assert Near(g, x, 1) == [Cell(1, 0)];
    assert Near(g, x, 2) == [Cell(1, 0)];
    assert Near(g, x, 3) == [Cell(1, 0), Cell(0, 1)];
    assert Near(g, x, 4) == [Cell(1, 0), Cell(0, 1)];
    assert Near(g, x, 5) == [Cell(1, 0), Cell(0, 1), Cell(1, 1)];
    assert Near(g, x, 6) == [Cell(1, 0), Cell(0, 1), Cell(1, 1)];
    assert Near(g, x, 7) == [Cell(1, 0), Cell(0, 1), Cell(1, 1)];
  }

  /** A cell on the top edge, away from the corners, has five. */
  lemma TopEdgeHasFive(g: Grid, c: int)
    requires IsGrid(g) && |g| >= 2 && 1 <= c < Cols(g) - 1
    ensures Neighbours(g, Cell(0, c)) == [Cell(1, c), Cell(0, c + 1), Cell(0, c - 1), Cell(1, c + 1), Cell(1, c - 1)]
  {
    var x := Cell(0, c);
    assert Near(g, x, 1) == [Cell(1, c)];
    assert Near(g, x, 2) == [Cell(1, c)];
    assert Near(g, x, 3) == [Cell(1, c), Cell(0, c + 1)];
    assert Near(g, x, 4) == [Cell(1, c), Cell(0, c + 1), Cell(0, c - 1)];
    assert Near(g, x, 5) == [Cell(1, c), Cell(0, c + 1), Cell(0, c - 1), Cell(1, c + 1)];
    assert Near(g, x, 6) == [Cell(1, c), Cell(0, c + 1), Cell(0, c - 1), Cell(1, c + 1)];
    assert Near(g, x, 7) == [Cell(1, c), Cell(0, c + 1), Cell(0, c - 1), Cell(1, c + 1)];
  }

  /** 1 when `v` is a valid index below `n`, else 0. */
  function In(v: int, n: int): nat {
    if 0 <= v < n then 1 else 0
  }

  /** How many of `v - 1`, `v`, `v + 1` are valid indices below `n`. */
  function Span(v: int, n: int): nat {
    In(v - 1, n) + In(v, n) + In(v + 1, n)
  }

  /** 1 when (v, w) is a cell of an `n` by `m` grid, else 0. */
  function InCell(v: int, w: int, n: int, m: int): nat {
    if 0 <= v < n && 0 <= w < m then 1 else 0
  }

  lemma NearStep(g: Grid, x: Cell, k: nat)
    requires IsGrid(g) && 0 < k <= |Steps|
    ensures |Near(g, x, k)| == |Near(g, x, k - 1)| + InCell(x.row + Steps[k - 1].0, x.col + Steps[k - 1].1, |g|, Cols(g))
  {
  }

  /** The eight neighbour positions of an in-range (r, c), counted through the row and column spans. */
  lemma SpanProduct(r: int, c: int, n: int, m: int)
    requires 0 <= r < n && 0 <= c < m
    ensures Span(r, n) * Span(c, m) - 1 ==
      InCell(r + 1, c, n, m) + InCell(r - 1, c, n, m) + InCell(r, c + 1, n, m) + InCell(r, c - 1, n, m) +
      InCell(r + 1, c + 1, n, m) + InCell(r - 1, c - 1, n, m) + InCell(r - 1, c + 1, n, m) + InCell(r + 1, c - 1, n, m)
  {
    var u, d, l, rt := In(r - 1, n), In(r + 1, n), In(c - 1, m), In(c + 1, m);
    assert Span(r, n) == u + 1 + d && Span(c, m) == l + 1 + rt;
    assert (u + 1 + d) * (l + 1 + rt) == u * l + u + u * rt + l + 1 + rt + d * l + d + d * rt;
  }

  /**
   The neighbour count of any grid cell: the in-range rows around it times the
   in-range columns around it, less the cell itself. So a corner of a grid of at
   least 2 x 2 has 3, a border cell away from the corners 5, and an interior cell 8.
   */
  lemma NeighbourCount(g: Grid, x: Cell)
    requires IsGrid(g) && InBounds(g, x)
    ensures |Neighbours(g, x)| == Span(x.row, |g|) * Span(x.col, Cols(g)) - 1
  {
    NearStep(g, x, 1);
    NearStep(g, x, 2);
    NearStep(g, x, 3);
    NearStep(g, x, 4);
    NearStep(g, x, 5);
    NearStep(g, x, 6);
    NearStep(g, x, 7);
    NearStep(g, x, 8);
    SpanProduct(x.row, x.col, |g|, Cols(g));
  }

  /** Each of the four corners of a grid of at least 2 x 2 has three neighbours. */
  lemma CornersHaveThree(g: Grid, x: Cell)
    requires IsGrid(g) && |g| >= 2 && Cols(g) >= 2
    requires x.row in {0, |g| - 1} && x.col in {0, Cols(g) - 1}
    ensures |Neighbours(g, x)| == 3
  {
    NeighbourCount(g, x);
  }

  /** A border cell that is not a corner, in a grid of at least 3 x 3, has five. */
  lemma BorderHasFive(g: Grid, x: Cell)
    requires IsGrid(g) && |g| >= 3 && Cols(g) >= 3 && InBounds(g, x)
    requires x.row in {0, |g| - 1} <==> !(x.col in {0, Cols(g) - 1})
    ensures |Neighbours(g, x)| == 5
  {
    NeighbourCount(g, x);
  }

  /** Every cell of a grid with more than one cell gets an entry; the single cell of a 1 x 1 grid does not. */
  lemma WhichCellsAreKeys(g: Grid, x: Cell)
    requires IsGrid(g) && InBounds(g, x)
    ensures |Neighbours(g, x)| > 0 <==> |g| > 1 || Cols(g) > 1
  {
    if |g| > 1 {
      var y := if x.row == 0 then Cell(1, x.col) else Cell(x.row - 1, x.col);
      NeighbourIffAdjacent(g, x, y);
    } else if Cols(g) > 1 {
      var y := if x.col == 0 then Cell(x.row, 1) else Cell(x.row, x.col - 1);
      NeighbourIffAdjacent(g, x, y);
    } else if |Neighbours(g, x)| > 0 {
      var y := Neighbours(g, x)[0];
      NeighbourIffAdjacent(g, x, y);
    }
  }
}
