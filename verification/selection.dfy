/**
 Reading a drag selection in `final.py`: `find_selected_word` returns the letters
 from the start cell to the end cell along a row, a column or a diagonal, and
 `get_cells_between` returns the set of cells that selection covers. A missing
 endpoint or a pair of cells on no common line gives `""` and the empty set.

 The reference meaning is the straight line of king moves from the start toward
 the end, `Dist(a, b) + 1` cells long.
 */
module Selection {
  import opened Wrappers
  import opened Grid
  import Placement

  function Abs(x: int): nat {
    if x < 0 then -x else x
  }

  /** Same row, same column, or the same distance along both axes. */
  predicate Aligned(a: Cell, b: Cell) {
    a.row == b.row || a.col == b.col || Abs(a.row - b.row) == Abs(a.col - b.col)
  }

  /** `x` moved `i` steps toward `y` (not at all when they are equal). */
  function Toward(x: int, y: int, i: int): int {
    if x < y then x + i else if y < x then x - i else x
  }

  /** The `i`-th cell of the line from `a` toward `b`. */
  function LineCell(a: Cell, b: Cell, i: int): Cell {
    Cell(Toward(a.row, b.row, i), Toward(a.col, b.col, i))
  }

  /** Every cell of the segment between two grid cells lies in the grid. */
  lemma LineInBounds(g: Grid, a: Cell, b: Cell)
    requires IsGrid(g) && InBounds(g, a) && InBounds(g, b) && Aligned(a, b)
    ensures forall i :: 0 <= i <= Dist(a, b) ==> InBounds(g, LineCell(a, b, i))
  {
  }

  /** The letters along the segment, read from `a` to `b`. */
  function Line(g: Grid, a: Cell, b: Cell): (s: string)
    requires IsGrid(g) && InBounds(g, a) && InBounds(g, b) && Aligned(a, b)
    ensures |s| == Dist(a, b) + 1
    ensures forall i :: 0 <= i < |s| ==> InBounds(g, LineCell(a, b, i)) && s[i] == At(g, LineCell(a, b, i))
  {
    LineInBounds(g, a, b);
    seq(Dist(a, b) + 1, i requires 0 <= i <= Dist(a, b) => At(g, LineCell(a, b, i)))
  }

  /** The cell `x` lies on the segment from `a` to `b`: it is the line cell at its own distance from `a`. */
  predicate OnSegment(a: Cell, b: Cell, x: Cell) {
    Dist(a, x) <= Dist(a, b) && x == LineCell(a, b, Dist(a, x))
  }

  /** The branches of `find_selected_word` once both endpoints are known. */
  function SelectedLetters(g: Grid, a: Cell, b: Cell): string
    requires IsGrid(g) && InBounds(g, a) && InBounds(g, b)
  {
    var sr, sc, er, ec := a.row, a.col, b.row, b.col;
    if sr == er then
      if sc < ec then g[sr][sc..ec + 1] else Placement.Reverse(g[sr][ec..sc + 1])
    else if sc == ec then
      if sr < er then seq(er - sr + 1, i requires 0 <= i <= er - sr => g[sr + i][sc])
      else seq(sr - er + 1, i requires 0 <= i <= sr - er => g[sr - i][sc])
    else if Abs(sr - er) == Abs(sc - ec) then
      if sr < er then
        if sc < ec then seq(er - sr + 1, i requires 0 <= i <= er - sr => g[sr + i][sc + i])
        else seq(er - sr + 1, i requires 0 <= i <= er - sr => g[sr + i][sc - i])
      else
        if sc < ec then seq(sr - er + 1, i requires 0 <= i <= sr - er => g[sr - i][sc + i])
        else seq(sr - er + 1, i requires 0 <= i <= sr - er => g[sr - i][sc - i])
    else []
  }

  lemma SelectedRow(g: Grid, a: Cell, b: Cell)
    requires IsGrid(g) && InBounds(g, a) && InBounds(g, b) && a.row == b.row
    ensures SelectedLetters(g, a, b) == Line(g, a, b)
  {
    var s := SelectedLetters(g, a, b);
    var line := Line(g, a, b);
    if a.col < b.col {
      assert forall i :: 0 <= i < |s| ==> s[i] == line[i];
    } else {
      var t := g[a.row][b.col..a.col + 1];
      assert forall i :: 0 <= i < |s| ==> s[i] == t[|t| - 1 - i] == line[i];
    }
  }

  lemma SelectedColumn(g: Grid, a: Cell, b: Cell)
    requires IsGrid(g) && InBounds(g, a) && InBounds(g, b) && a.row != b.row && a.col == b.col
    ensures SelectedLetters(g, a, b) == Line(g, a, b)
  {
    var s := SelectedLetters(g, a, b);
    var line := Line(g, a, b);
    assert forall i :: 0 <= i < |s| ==> s[i] == line[i];
  }

  lemma SelectedDiagonal(g: Grid, a: Cell, b: Cell)
    requires IsGrid(g) && InBounds(g, a) && InBounds(g, b) && a.row != b.row && a.col != b.col
    requires Abs(a.row - b.row) == Abs(a.col - b.col)
    ensures SelectedLetters(g, a, b) == Line(g, a, b)
  {
    var s := SelectedLetters(g, a, b);
    var line := Line(g, a, b);
    assert forall i :: 0 <= i < |s| ==> s[i] == line[i];
  }

  /** The branches read the segment from the start toward the end, and nothing when the cells are on no common line. */
  lemma SelectedIsLine(g: Grid, a: Cell, b: Cell)
    requires IsGrid(g) && InBounds(g, a) && InBounds(g, b)
    ensures Aligned(a, b) ==> SelectedLetters(g, a, b) == Line(g, a, b)
    ensures !Aligned(a, b) ==> SelectedLetters(g, a, b) == []
  {
    if a.row == b.row {
      SelectedRow(g, a, b);
    } else if a.col == b.col {
      SelectedColumn(g, a, b);
    } else if Abs(a.row - b.row) == Abs(a.col - b.col) {
      SelectedDiagonal(g, a, b);
    }
  }

  /**
   `find_selected_word(grid, start_pos, end_pos)`: the letters of the segment from
   the start to the end, or `""` when an endpoint is missing or the two cells are on
   no common line. The endpoints, when present, are grid cells.
   */
  function FindSelectedWord(g: Grid, start: Option<Cell>, end: Option<Cell>): (s: string)
    requires IsGrid(g)
    requires start.Some? ==> InBounds(g, start.value)
    requires end.Some? ==> InBounds(g, end.value)
    ensures s == [] <==> start.None? || end.None? || !Aligned(start.value, end.value)
    ensures start.Some? && end.Some? && Aligned(start.value, end.value) ==>
              s == Line(g, start.value, end.value)
  {
    if start.None? || end.None? then []
    else
      SelectedIsLine(g, start.value, end.value);
      SelectedLetters(g, start.value, end.value)
  }

  /** The `i`-th cell from `b` toward `a` is the `Dist(a, b) - i`-th from `a` toward `b`. */
  lemma LineCellReversed(a: Cell, b: Cell, i: int)
    requires Aligned(a, b) && 0 <= i <= Dist(a, b)
    ensures LineCell(b, a, i) == LineCell(a, b, Dist(a, b) - i)
  {
  }

  lemma LineReversedAt(g: Grid, a: Cell, b: Cell, i: int)
    requires IsGrid(g) && InBounds(g, a) && InBounds(g, b) && Aligned(a, b) && 0 <= i <= Dist(a, b)
    ensures |Line(g, b, a)| == |Line(g, a, b)|
    ensures Line(g, b, a)[i] == Line(g, a, b)[Dist(a, b) - i]
  {
    LineCellReversed(a, b, i);
  }

  /** The segment read from the other end is the same letters in reverse. */
  lemma LineReversed(g: Grid, a: Cell, b: Cell)
    requires IsGrid(g) && InBounds(g, a) && InBounds(g, b) && Aligned(a, b)
    ensures Line(g, b, a) == Placement.Reverse(Line(g, a, b))
  {
    var rev := Placement.Reverse(Line(g, a, b));
    LineReversedAt(g, a, b, 0);
    forall i | 0 <= i <= Dist(a, b) ensures Line(g, b, a)[i] == rev[i] {
      LineReversedAt(g, a, b, i);
    }
  }

  /** Selecting from the end back to the start reads the same letters in reverse. */
  lemma SelectionReversed(g: Grid, a: Cell, b: Cell)
    requires IsGrid(g) && InBounds(g, a) && InBounds(g, b)
    ensures FindSelectedWord(g, Some(b), Some(a)) == Placement.Reverse(FindSelectedWord(g, Some(a), Some(b)))
  {
    if Aligned(a, b) {
      LineReversed(g, a, b);
    }
  }

  /** The branches of `get_cells_between` once both endpoints are known. */
  function SegmentSet(a: Cell, b: Cell): set<Cell> {
    var sr, sc, er, ec := a.row, a.col, b.row, b.col;
    if sr == er then
      if sc < ec then set col | sc <= col <= ec :: Cell(sr, col)
      else set col | ec <= col <= sc :: Cell(sr, col)
    else if sc == ec then
      if sr < er then set row | sr <= row <= er :: Cell(row, sc)
      else set row | er <= row <= sr :: Cell(row, sc)
    else if Abs(sr - er) == Abs(sc - ec) then
      if sr < er then
        if sc < ec then set i | 0 <= i <= er - sr :: Along(a, 1, 1, i)
        else set i | 0 <= i <= er - sr :: Along(a, 1, -1, i)
      else
        if sc < ec then set i | 0 <= i <= sr - er :: Along(a, -1, 1, i)
        else set i | 0 <= i <= sr - er :: Along(a, -1, -1, i)
    else {}
  }

  lemma SegmentRow(a: Cell, b: Cell, x: Cell)
    requires a.row == b.row
    ensures x in SegmentSet(a, b) <==> OnSegment(a, b, x)
  {
    if OnSegment(a, b, x) {
      assert x == Cell(a.row, x.col);
    }
  }

  lemma SegmentColumn(a: Cell, b: Cell, x: Cell)
    requires a.row != b.row && a.col == b.col
    ensures x in SegmentSet(a, b) <==> OnSegment(a, b, x)
  {
    if OnSegment(a, b, x) {
      assert x == Cell(x.row, a.col);
    }
  }

  lemma SegmentDiagonal(a: Cell, b: Cell, x: Cell)
    requires a.row != b.row && a.col != b.col && Abs(a.row - b.row) == Abs(a.col - b.col)
    ensures x in SegmentSet(a, b) <==> OnSegment(a, b, x)
  {
    var dr := if a.row < b.row then 1 else -1;
    var dc := if a.col < b.col then 1 else -1;
    if OnSegment(a, b, x) {
      assert x == Along(a, dr, dc, Dist(a, x));
    }
    if x in SegmentSet(a, b) {
      var i :| 0 <= i <= Dist(a, b) && x == Along(a, dr, dc, i);
      assert Dist(a, x) == i;
    }
  }

  /** The branches cover exactly the segment, and nothing when the cells are on no common line. */
  lemma SegmentSetIsSegment(a: Cell, b: Cell, x: Cell)
    ensures x in SegmentSet(a, b) <==> Aligned(a, b) && OnSegment(a, b, x)
  {
    if a.row == b.row {
      SegmentRow(a, b, x);
    } else if a.col == b.col {
      SegmentColumn(a, b, x);
    } else if Abs(a.row - b.row) == Abs(a.col - b.col) {
      SegmentDiagonal(a, b, x);
    }
  }

  /**
   `get_cells_between(start_pos, end_pos)`: the cells of the segment, or the empty
   set. Nothing requires the endpoints to be grid cells.
   */
  function CellsBetween(start: Option<Cell>, end: Option<Cell>): (cells: set<Cell>)
    ensures forall x :: x in cells <==>
      start.Some? && end.Some? && Aligned(start.value, end.value) && OnSegment(start.value, end.value, x)
  {
    if start.None? || end.None? then {}
    else
      forall x ensures x in SegmentSet(start.value, end.value) <==>
          Aligned(start.value, end.value) && OnSegment(start.value, end.value, x) {
        SegmentSetIsSegment(start.value, end.value, x);
      }
      SegmentSet(start.value, end.value)
  }

  /** The word `find_selected_word` returns is spelled by the cells `get_cells_between` returns, letter `i` at distance `i` from the start. */
  lemma WordMatchesCells(g: Grid, a: Cell, b: Cell, x: Cell)
    requires IsGrid(g) && InBounds(g, a) && InBounds(g, b)
    requires x in CellsBetween(Some(a), Some(b))
    ensures InBounds(g, x)
    ensures Dist(a, x) < |FindSelectedWord(g, Some(a), Some(b))|
    ensures FindSelectedWord(g, Some(a), Some(b))[Dist(a, x)] == At(g, x)
  {
    LineInBounds(g, a, b);
  }

  /** Conversely, every letter of the selected word sits on a cell `get_cells_between` returns. */
  lemma CellsOfWord(g: Grid, a: Cell, b: Cell, i: int)
    requires IsGrid(g) && InBounds(g, a) && InBounds(g, b) && Aligned(a, b)
    requires 0 <= i <= Dist(a, b)
    ensures LineCell(a, b, i) in CellsBetween(Some(a), Some(b))
    ensures i < |FindSelectedWord(g, Some(a), Some(b))|
    ensures FindSelectedWord(g, Some(a), Some(b))[i] == At(g, LineCell(a, b, i))
  {
    LineInBounds(g, a, b);
  }

  /** A cell on the segment from `a` to `b` is on the segment from `b` to `a`. */
  lemma OnSegmentSwap(a: Cell, b: Cell, x: Cell)
    requires Aligned(a, b) && OnSegment(a, b, x)
    ensures OnSegment(b, a, x)
  {
    assert LineCell(b, a, Dist(a, b) - Dist(a, x)) == x;
  }

  /** The cell set does not depend on which end the drag started from. */
  lemma CellsBetweenSymmetric(a: Cell, b: Cell)
    ensures CellsBetween(Some(a), Some(b)) == CellsBetween(Some(b), Some(a))
  {
    forall x ensures x in CellsBetween(Some(a), Some(b)) <==> x in CellsBetween(Some(b), Some(a)) {
      if Aligned(a, b) {
        if OnSegment(a, b, x) {
          OnSegmentSwap(a, b, x);
        }
        if OnSegment(b, a, x) {
          OnSegmentSwap(b, a, x);
        }
      }
    }
  }
}
