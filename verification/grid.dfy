/**
 The letter grid shared by both game scripts: a list of rows of characters, with
 `' '` marking a cell no word occupies yet. Cells are (row, column) pairs; the
 grid's width is the length of its first row, as in `WordSearchGraph.__init__`.
 */
module Grid {
  import opened Wrappers

  type Grid = seq<seq<char>>

  datatype Cell = Cell(row: int, col: int)

  /** The placeholder for a cell that no word occupies. */
  const Blank: char := ' '

  /** Every row as long as the first one (the source reads `len(grid[0])`, so a grid has a row). */
  predicate IsGrid(g: Grid) {
    |g| > 0 && forall r :: 0 <= r < |g| ==> |g[r]| == |g[0]|
  }

  function Cols(g: Grid): nat
    requires |g| > 0
  {
    |g[0]|
  }

  predicate InBounds(g: Grid, x: Cell)
    requires IsGrid(g)
  {
    0 <= x.row < |g| && 0 <= x.col < Cols(g)
  }

  function At(g: Grid, x: Cell): char
    requires IsGrid(g) && InBounds(g, x)
  {
    g[x.row][x.col]
  }

  /** Two grids of the same dimensions. */
  predicate SameShape(g: Grid, h: Grid) {
    IsGrid(g) && IsGrid(h) && |g| == |h| && Cols(g) == Cols(h)
  }

  /** `h` keeps every letter `g` holds: only blank cells of `g` may differ. */
  ghost predicate Extends(g: Grid, h: Grid) {
    && SameShape(g, h)
    && forall x :: InBounds(g, x) && At(g, x) != Blank ==> At(h, x) == At(g, x)
  }

  /** The square grid of blanks that `WordSearchCSP.__init__` allocates. */
  function BlankGrid(n: nat): (g: Grid)
    requires n > 0
    ensures IsGrid(g) && |g| == n && Cols(g) == n
    ensures forall x :: InBounds(g, x) ==> At(g, x) == Blank
  {
    seq(n, _ => seq(n, _ => Blank))
  }

  /** The assignment `grid[row][col] = ch`. */
  function Set(g: Grid, x: Cell, ch: char): (h: Grid)
    requires IsGrid(g) && InBounds(g, x)
    ensures SameShape(g, h)
    ensures At(h, x) == ch
    ensures forall y :: InBounds(g, y) && y != x ==> At(h, y) == At(g, y)
  {
    g[x.row := g[x.row][x.col := ch]]
  }

  /** `d` steps of `i`: forward, backward or not at all. */
  function Scale(d: int, i: int): int {
    if d > 0 then i else if d < 0 then -i else 0
  }

  /** The cell `i` steps from `a` in direction (dr, dc), each of them -1, 0 or 1. */
  function Along(a: Cell, dr: int, dc: int, i: int): Cell {
    Cell(a.row + Scale(dr, i), a.col + Scale(dc, i))
  }

  /** The loop `for i ...: grid[cells[i]] = letters[i]`, one write after another. */
  function WriteAll(g: Grid, cells: seq<Cell>, letters: seq<char>): (h: Grid)
    requires IsGrid(g) && |cells| == |letters| && Distinct(cells)
    requires forall k :: 0 <= k < |cells| ==> InBounds(g, cells[k])
    ensures SameShape(g, h)
    ensures forall k :: 0 <= k < |cells| ==> InBounds(h, cells[k]) && At(h, cells[k]) == letters[k]
    ensures forall y :: InBounds(g, y) && y !in cells ==> At(h, y) == At(g, y)
    decreases |cells|
  {
    if |cells| == 0 then g
    else
      var g' := Set(g, cells[0], letters[0]);
      assert forall k :: 0 < k < |cells| ==> cells[k] != cells[0];
      WriteAll(g', cells[1..], letters[1..])
  }

  /** The loop `for cell in cells: if in bounds: grid[cell] = ' '`. */
  function ClearAll(g: Grid, cells: seq<Cell>): (h: Grid)
    requires IsGrid(g)
    ensures SameShape(g, h)
    ensures forall y :: InBounds(g, y) ==> At(h, y) == if y in cells then Blank else At(g, y)
    decreases |cells|
  {
    if |cells| == 0 then g
    else
      var g' := if InBounds(g, cells[0]) then Set(g, cells[0], Blank) else g;
      ClearAll(g', cells[1..])
  }

  /** Chebyshev distance: the number of king moves between two cells. */
  function Dist(a: Cell, b: Cell): nat {
    var dr := if a.row >= b.row then a.row - b.row else b.row - a.row;
    var dc := if a.col >= b.col then a.col - b.col else b.col - a.col;
    if dr >= dc then dr else dc
  }

  /** Grids of the same shape that agree on every cell are equal. */
  lemma GridEq(g: Grid, h: Grid)
    requires SameShape(g, h)
    requires forall y :: InBounds(g, y) ==> At(g, y) == At(h, y)
    ensures g == h
  {
    forall r | 0 <= r < |g| ensures g[r] == h[r] {
      forall c | 0 <= c < |g[r]| ensures g[r][c] == h[r][c] {
        assert At(g, Cell(r, c)) == At(h, Cell(r, c));
      }
    }
  }

  lemma ExtendsTransitive(g: Grid, h: Grid, k: Grid)
    requires Extends(g, h) && Extends(h, k)
    ensures Extends(g, k)
  {
  }
}
