/**
 Placing one word on the grid: the feasibility check `is_valid_assignment`, the
 write `assign_word` and the undo `unassign_word` of `WordSearchGraph`, which both
 game scripts define identically.

 The source encodes a direction as one of the strings 'horizontal', 'vertical',
 'diagonal' and an orientation as 1 or -1. `AntiDiagonal` is not one of the
 source's directions: the three functions treat it as they treat any other
 string (`False`, no write, no undo). It exists for the corrected placement at
 the end of this module, which also covers the other diagonal.
 */
module Placement {
  import opened Wrappers
  import opened Grid

  datatype Direction = Horizontal | Vertical | Diagonal | AntiDiagonal

  /** The source's `orientation`: 1 or -1. */
  datatype Orientation = Forward | Backward

  /** A candidate placement: anchor `node`, `direction` and `orientation`. */
  datatype Placement = Placement(anchor: Cell, dir: Direction, orient: Orientation)

  /** `i * orientation`. */
  function Offset(o: Orientation, i: int): int {
    if o == Forward then i else -i
  }

  /**
   The cell the `i`-th letter goes to. Along 'diagonal' the row and the column both
   move by `i * orientation`, so only the top-left to bottom-right diagonal is used.
   */
  function PathCell(p: Placement, i: int): Cell {
    var a := p.anchor;
    var d := Offset(p.orient, i);
    match p.dir
    case Horizontal => Cell(a.row, a.col + d)
    case Vertical => Cell(a.row + d, a.col)
    case Diagonal => Cell(a.row + d, a.col + d)
    case AntiDiagonal => Cell(a.row + d, a.col - d)
  }

  /** The (row, column) step of one letter, with orientation 1 or -1. */
  function Step(p: Placement): (int, int) {
    var o := if p.orient == Forward then 1 else -1;
    match p.dir
    case Horizontal => (0, o)
    case Vertical => (o, 0)
    case Diagonal => (o, o)
    case AntiDiagonal => (o, -o)
  }

  /** A placement's cells are the straight line of king moves `Along` describes. */
  lemma PathIsAlong(p: Placement, i: int)
    ensures PathCell(p, i) == Along(p.anchor, Step(p).0, Step(p).1, i)
  {
  }

  /** The `n` cells a word of length `n` occupies, in letter order. */
  function Path(p: Placement, n: nat): (cells: seq<Cell>)
    ensures |cells| == n && Distinct(cells)
    ensures forall i :: 0 <= i < n ==> cells[i] == PathCell(p, i)
  {
    seq(n, i => PathCell(p, i))
  }

  predicate PathInBounds(g: Grid, p: Placement, n: nat)
    requires IsGrid(g)
  {
    forall i :: 0 <= i < n ==> InBounds(g, PathCell(p, i))
  }

  /** The letters found along a path, read from the anchor outward. */
  function ReadPath(g: Grid, p: Placement, n: nat): (s: string)
    requires IsGrid(g) && PathInBounds(g, p, n)
    ensures |s| == n
  {
    seq(n, i requires 0 <= i < n => At(g, PathCell(p, i)))
  }

  function Reverse(s: string): (r: string)
    ensures |r| == |s|
    ensures forall i :: 0 <= i < |s| ==> r[i] == s[|s| - 1 - i]
  {
    if |s| == 0 then [] else Reverse(s[1..]) + [s[0]]
  }

  /** The letters `assign_word` writes along the path: `word[i]` when `a == 1`, `word[-i - 1]` when `a == 0`. */
  function Oriented(w: string, straight: bool): (s: string)
    ensures |s| == |w|
  {
    if straight then w else Reverse(w)
  }

  /**
   `is_valid_assignment(word, node, direction, orientation)`: every letter's cell is
   inside the grid and holds either `' '` or the letter `word[i]` itself.
   (The source checks only the moving coordinate for 'horizontal' and 'vertical';
   the other one is the anchor's, which is a grid cell wherever the source calls it.)
   */
  predicate IsValid(g: Grid, w: string, p: Placement)
    requires IsGrid(g)
  {
    && p.dir != AntiDiagonal
    && forall i :: 0 <= i < |w| ==>
         && InBounds(g, PathCell(p, i))
         && (At(g, PathCell(p, i)) == Blank || At(g, PathCell(p, i)) == w[i])
  }

  /** The generator expressions of `is_valid_assignment`, evaluated letter by letter as `all` does. */
  method CheckValid(g: Grid, w: string, p: Placement) returns (ok: bool)
    requires IsGrid(g) && InBounds(g, p.anchor)
    ensures ok == IsValid(g, w, p)
  {
    if p.dir == AntiDiagonal {
      return false;
    }
    var rows := |g|;
    var cols := |g[0]|;
    var row := p.anchor.row;
    var col := p.anchor.col;
    var step := if p.orient == Forward then 1 else -1;
    var i := 0;
    while i < |w|
      invariant 0 <= i <= |w|
      invariant forall k :: 0 <= k < i ==>
        InBounds(g, PathCell(p, k)) && (At(g, PathCell(p, k)) == Blank || At(g, PathCell(p, k)) == w[k])
    {
      var r := row;
      var c := col;
      var inside: bool;
      if p.dir == Horizontal {
        c := col + i * step;
        inside := 0 <= c < cols;
      } else if p.dir == Vertical {
        r := row + i * step;
        inside := 0 <= r < rows;
      } else {
        r := row + i * step;
        c := col + i * step;
        inside := 0 <= r < rows && 0 <= c < cols;
      }
      assert Cell(r, c) == PathCell(p, i);
      if !inside || (g[r][c] != Blank && g[r][c] != w[i]) {
        return false;
      }
      i := i + 1;
    }
    return true;
  }

  /** The letters of `w`, in the order the path is read, written onto the path; nothing else changes. */
  function Place(g: Grid, w: string, p: Placement, straight: bool): (h: Grid)
    requires IsGrid(g) && PathInBounds(g, p, |w|)
    ensures SameShape(g, h) && PathInBounds(h, p, |w|)
    ensures ReadPath(h, p, |w|) == Oriented(w, straight)
    ensures forall y :: InBounds(g, y) && y !in Path(p, |w|) ==> At(h, y) == At(g, y)
  {
    var h := WriteAll(g, Path(p, |w|), Oriented(w, straight));
    assert forall i :: 0 <= i < |w| ==> Path(p, |w|)[i] == PathCell(p, i);
    h
  }

  /**
   `assign_word(word, node, direction, orientation)` with the outcome `straight`
   (`a == 1`) of its `random.choice([0, 1])`; an unknown direction writes nothing.
   */
  function Assign(g: Grid, w: string, p: Placement, straight: bool): (h: Grid)
    requires IsGrid(g) && (p.dir != AntiDiagonal ==> PathInBounds(g, p, |w|))
    ensures SameShape(g, h)
  {
    if p.dir == AntiDiagonal then g else Place(g, w, p, straight)
  }

  /** The cell `unassign_word` blanks for letter `i`: for 'horizontal' and 'vertical' alike it is `(node[0], node[1] + i * orientation)`. */
  function UndoCell(p: Placement, i: int): Cell {
    var a := p.anchor;
    match p.dir
    case Horizontal => Cell(a.row, a.col + Offset(p.orient, i))
    case Vertical => Cell(a.row, a.col + Offset(p.orient, i))
    case Diagonal => PathCell(p, i)
    case AntiDiagonal => a
  }

  function UndoCells(p: Placement, n: nat): seq<Cell> {
    if p.dir == AntiDiagonal then [] else seq(n, i => UndoCell(p, i))
  }

  /**
   `unassign_word(word, node, direction, orientation)`: blank, unconditionally,
   every in-bounds cell of the undo run; everything else is unchanged.
   */
  function Unassign(g: Grid, w: string, p: Placement): (h: Grid)
    requires IsGrid(g)
    ensures SameShape(g, h)
    ensures forall y :: InBounds(g, y) ==> At(h, y) == if y in UndoCells(p, |w|) then Blank else At(g, y)
  {
    ClearAll(g, UndoCells(p, |w|))
  }

  // ---------------------------------------------------------------------------
  // Properties of the placement functions as written

  /** A valid placement fits: its word is no longer than the grid along the chosen axis. */
  lemma ValidFits(g: Grid, w: string, p: Placement)
    requires IsGrid(g) && IsValid(g, w, p)
    ensures p.dir == Horizontal ==> |w| <= Cols(g)
    ensures p.dir == Vertical ==> |w| <= |g|
    ensures p.dir == Diagonal ==> |w| <= |g| && |w| <= Cols(g)
  {
    if |w| > 0 {
      var first := PathCell(p, 0);
      var last := PathCell(p, |w| - 1);
      assert InBounds(g, first) && InBounds(g, last);
    }
  }

  /** A word longer than both dimensions has no valid placement at all. */
  lemma TooLongIsInvalid(g: Grid, w: string, p: Placement)
    requires IsGrid(g) && |w| > |g| && |w| > Cols(g)
    ensures !IsValid(g, w, p)
  {
    if IsValid(g, w, p) {
      ValidFits(g, w, p);
    }
  }

  /** Reading a written placement back from the anchor gives the word, or the word reversed. */
  lemma AssignReadsBack(g: Grid, w: string, p: Placement, straight: bool)
    requires IsGrid(g) && IsValid(g, w, p)
    ensures PathInBounds(Assign(g, w, p, straight), p, |w|)
    ensures ReadPath(Assign(g, w, p, straight), p, |w|) == if straight then w else Reverse(w)
    ensures forall y :: InBounds(g, y) && y !in Path(p, |w|) ==> At(Assign(g, w, p, straight), y) == At(g, y)
  {
  }

  /** With `a == 1` a valid write only fills blanks: no letter already on the grid changes. */
  lemma StraightAssignKeepsLetters(g: Grid, w: string, p: Placement)
    requires IsGrid(g) && IsValid(g, w, p)
    ensures Extends(g, Assign(g, w, p, true))
  {
    var h := Assign(g, w, p, true);
    forall y | InBounds(g, y) && At(g, y) != Blank ensures At(h, y) == At(g, y) {
      if y in Path(p, |w|) {
        var i :| 0 <= i < |w| && Path(p, |w|)[i] == y;
        assert ReadPath(h, p, |w|)[i] == w[i];
      }
    }
  }

  /** For 'horizontal' and 'diagonal' the undo run is exactly the path the write used. */
  lemma UndoCellsFollowPath(p: Placement, n: nat)
    requires p.dir == Horizontal || p.dir == Diagonal
    ensures UndoCells(p, n) == Path(p, n)
  {
  }

  /** For 'vertical' the undo run is the horizontal run from the anchor, not the column the write used. */
  lemma VerticalUndoIsRowRun(p: Placement, n: nat)
    requires p.dir == Vertical
    ensures UndoCells(p, n) == Path(p.(dir := Horizontal), n)
  {
  }

  /**
   For 'horizontal' and 'diagonal' a write followed by its undo leaves every path
   cell blank and every other cell as it was.
   */
  lemma AssignThenUnassign(g: Grid, w: string, p: Placement, straight: bool)
    requires IsGrid(g) && IsValid(g, w, p)
    requires p.dir == Horizontal || p.dir == Diagonal
    ensures SameShape(g, Unassign(Assign(g, w, p, straight), w, p))
    ensures forall y :: InBounds(g, y) ==>
      At(Unassign(Assign(g, w, p, straight), w, p), y) == if y in Path(p, |w|) then Blank else At(g, y)
  {
    UndoCellsFollowPath(p, |w|);
  }

  // ---------------------------------------------------------------------------
  // Where the code as written does not do what it evidently means to

  /**
   With `a == 0` the check and the write disagree: the check compares `word[i]`,
   the write puts `word[-i - 1]` there. On the one-row grid "A " the word "AB"
   passes the check at (0, 0) going right, and the mirrored write replaces the
   earlier 'A' by 'B'.
   */
  lemma MirroredAssignOverwrites()
    ensures var g := [['A', Blank]];
            var w := "AB";
            var p := Placement(Cell(0, 0), Horizontal, Forward);
            && IsGrid(g) && IsValid(g, w, p)
            && At(Assign(g, w, p, false), Cell(0, 0)) == 'B'
            && !Extends(g, Assign(g, w, p, false))
  {
    var g := [['A', Blank]];
    var w := "AB";
    var p := Placement(Cell(0, 0), Horizontal, Forward);
    assert PathCell(p, 0) == Cell(0, 0) && PathCell(p, 1) == Cell(0, 1);
    var h := Assign(g, w, p, false);
    assert ReadPath(h, p, 2)[0] == Reverse(w)[0] == 'B';
  }

  /**
   The vertical undo leaves the column it wrote: "AB" written down from (0, 0) of a
   blank 2x2 grid and then undone still shows 'B' at (1, 0).
   */
  lemma VerticalUndoLeavesLetter()
    ensures var g := BlankGrid(2);
            var w := "AB";
            var p := Placement(Cell(0, 0), Vertical, Forward);
            && IsValid(g, w, p)
            && At(Unassign(Assign(g, w, p, true), w, p), Cell(1, 0)) == 'B'
  {
    var g := BlankGrid(2);
    var w := "AB";
    var p := Placement(Cell(0, 0), Vertical, Forward);
    assert PathCell(p, 0) == Cell(0, 0) && PathCell(p, 1) == Cell(1, 0);
    var h := Assign(g, w, p, true);
    assert ReadPath(h, p, 2)[1] == 'B';
    assert Cell(1, 0) !in UndoCells(p, 2);
  }

  /**
   The undo blanks cells an earlier word already held: whatever letter the anchor
   cell showed before a valid write (the first letter of a crossing word, say), the
   write followed by its undo leaves it blank.
   */
  lemma UndoErasesEarlierLetter(g: Grid, w: string, p: Placement, straight: bool)
    requires IsGrid(g) && IsValid(g, w, p) && |w| > 0
    requires InBounds(g, p.anchor) && At(g, p.anchor) != Blank
    ensures At(Unassign(Assign(g, w, p, straight), w, p), p.anchor) == Blank
  {
    assert PathCell(p, 0) == p.anchor;
    assert UndoCells(p, |w|)[0] == p.anchor;
  }

  /** None of the source's three directions steps from a cell to its lower-left or upper-right neighbour. */
  lemma NoAntiDiagonalStep(p: Placement)
    requires p.dir != AntiDiagonal
    ensures PathCell(p, 1) != Cell(p.anchor.row + 1, p.anchor.col - 1)
    ensures PathCell(p, 1) != Cell(p.anchor.row - 1, p.anchor.col + 1)
  {
  }

  // ---------------------------------------------------------------------------
  // The corrected placement

  /** Every one of the eight straight-line steps is the first step of some placement once the other diagonal is included. */
  lemma EveryStepReachable(a: Cell, dr: int, dc: int)
    requires -1 <= dr <= 1 && -1 <= dc <= 1 && (dr, dc) != (0, 0)
    ensures exists d: Direction, o: Orientation :: PathCell(Placement(a, d, o), 1) == Cell(a.row + dr, a.col + dc)
  {
    var o := if dr == 1 || (dr == 0 && dc == 1) then Forward else Backward;
    var d := if dr == 0 then Horizontal
             else if dc == 0 then Vertical
             else if dr == dc then Diagonal
             else AntiDiagonal;
    assert PathCell(Placement(a, d, o), 1) == Cell(a.row + dr, a.col + dc);
  }

  /** The check made against the letters that will actually be written. */
  predicate IsValidFor(g: Grid, w: string, p: Placement, straight: bool)
    requires IsGrid(g)
  {
    && PathInBounds(g, p, |w|)
    && forall i :: 0 <= i < |w| ==>
         At(g, PathCell(p, i)) == Blank || At(g, PathCell(p, i)) == Oriented(w, straight)[i]
  }

  /** On the source's directions with `a == 1` the corrected check is the source's own. */
  lemma IsValidForStraight(g: Grid, w: string, p: Placement)
    requires IsGrid(g) && p.dir != AntiDiagonal
    ensures IsValidFor(g, w, p, true) <==> IsValid(g, w, p)
  {
  }

  /** A write that passed the corrected check only fills blanks, whichever way round it writes. */
  lemma PlaceKeepsLetters(g: Grid, w: string, p: Placement, straight: bool)
    requires IsGrid(g) && IsValidFor(g, w, p, straight)
    ensures Extends(g, Place(g, w, p, straight))
  {
    var h := Place(g, w, p, straight);
    forall y | InBounds(g, y) && At(g, y) != Blank ensures At(h, y) == At(g, y) {
      if y in Path(p, |w|) {
        var i :| 0 <= i < |w| && Path(p, |w|)[i] == y;
        assert ReadPath(h, p, |w|)[i] == Oriented(w, straight)[i];
      }
    }
  }

  /** Which path cells were blank before a write: what an exact undo has to remember. */
  function BlankMask(g: Grid, p: Placement, n: nat): (mask: seq<bool>)
    requires IsGrid(g) && PathInBounds(g, p, n)
    ensures |mask| == n
    ensures forall i :: 0 <= i < n ==> (mask[i] <==> At(g, PathCell(p, i)) == Blank)
  {
    seq(n, i requires 0 <= i < n => At(g, PathCell(p, i)) == Blank)
  }

  /** The exact undo: blank only the path cells the write found blank, keep the others. */
  function UnassignExact(g: Grid, p: Placement, mask: seq<bool>): (h: Grid)
    requires IsGrid(g) && PathInBounds(g, p, |mask|)
    ensures SameShape(g, h)
    ensures forall i :: 0 <= i < |mask| ==> mask[i] ==> At(h, PathCell(p, i)) == Blank
    ensures forall i :: 0 <= i < |mask| ==> !mask[i] ==> At(h, PathCell(p, i)) == At(g, PathCell(p, i))
    ensures forall y :: InBounds(g, y) && y !in Path(p, |mask|) ==> At(h, y) == At(g, y)
  {
    var cells := Path(p, |mask|);
    var letters := seq(|mask|, i requires 0 <= i < |mask| => if mask[i] then Blank else At(g, PathCell(p, i)));
    WriteAll(g, cells, letters)
  }

  /** The exact undo of a write that passed the corrected check gives back the grid as it was. */
  lemma UnassignExactUndoesPlace(g: Grid, w: string, p: Placement, straight: bool)
    requires IsGrid(g) && IsValidFor(g, w, p, straight)
    ensures UnassignExact(Place(g, w, p, straight), p, BlankMask(g, p, |w|)) == g
  {
    var h := Place(g, w, p, straight);
    var mask := BlankMask(g, p, |w|);
    var u := UnassignExact(h, p, mask);
    forall y | InBounds(g, y) ensures At(u, y) == At(g, y) {
      if y in Path(p, |w|) {
        var i :| 0 <= i < |w| && Path(p, |w|)[i] == y;
        assert ReadPath(h, p, |w|)[i] == Oriented(w, straight)[i];
      }
    }
    GridEq(u, g);
  }
}
