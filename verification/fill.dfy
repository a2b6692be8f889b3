/**
 `WordSearchGraph.fill_empty_spaces`: once the words are placed, every cell still
 holding `' '` gets a random capital letter, row by row, left to right.

 `random.choice(string.ascii_uppercase)` is the oracle `pick`: the `k`-th blank
 met gets the letter at position `pick(k) mod 26` of the alphabet.
 */
module Fill {
  import opened Grid

  const Uppercase: string := "ABCDEFGHIJKLMNOPQRSTUVWXYZ"

  /** The letter the `k`-th draw yields. */
  function Letter(pick: nat -> nat, k: nat): (ch: char)
    ensures 'A' <= ch <= 'Z'
  {
    Uppercase[pick(k) % 26]
  }

  /** How many of the first `c` cells of a row are blank. */
  function RowBlanks(row: seq<char>, c: nat): nat
    requires c <= |row|
  {
    if c == 0 then 0 else RowBlanks(row, c - 1) + (if row[c - 1] == Blank then 1 else 0)
  }

  /** How many blanks the rows above row `r` hold. */
  function GridBlanks(g: Grid, r: nat): nat
    requires r <= |g|
  {
    if r == 0 then 0 else GridBlanks(g, r - 1) + RowBlanks(g[r - 1], |g[r - 1]|)
  }

  /** How many blanks are met before cell (r, c) in row-major order: the draw that cell uses. */
  function BlanksBefore(g: Grid, r: nat, c: nat): nat
    requires r < |g| && c <= |g[r]|
  {
    GridBlanks(g, r) + RowBlanks(g[r], c)
  }

  /** What cell (r, c) holds after the fill. */
  function Filled(g: Grid, pick: nat -> nat, r: nat, c: nat): char
    requires r < |g| && c < |g[r]|
  {
    if g[r][c] == Blank then Letter(pick, BlanksBefore(g, r, c)) else g[r][c]
  }

  /** The inner loop over one row, starting at draw `base`. */
  method FillRow(row: seq<char>, pick: nat -> nat, base: nat) returns (out: seq<char>, drawn: nat)
    ensures |out| == |row|
    ensures forall c :: 0 <= c < |row| ==>
      out[c] == if row[c] == Blank then Letter(pick, base + RowBlanks(row, c)) else row[c]
    ensures drawn == RowBlanks(row, |row|)
  {
    out := row;
    drawn := 0;
    var j := 0;
    while j < |row|
      invariant 0 <= j <= |row| && |out| == |row|
      invariant drawn == RowBlanks(row, j)
      invariant forall c :: 0 <= c < j ==>
        out[c] == if row[c] == Blank then Letter(pick, base + RowBlanks(row, c)) else row[c]
      invariant forall c :: j <= c < |row| ==> out[c] == row[c]
    {
      if out[j] == Blank {
        out := out[j := Letter(pick, base + drawn)];
        drawn := drawn + 1;
      }
      j := j + 1;
    }
  }

  /**
   `fill_empty_spaces()`: letters already on the grid stay, every blank becomes the
   capital letter of its draw, and one draw is made per blank.
   */
  method FillEmpty(g: Grid, pick: nat -> nat) returns (h: Grid, used: nat)
    requires IsGrid(g)
    ensures SameShape(g, h)
    ensures forall r, c :: 0 <= r < |g| && 0 <= c < Cols(g) ==> h[r][c] == Filled(g, pick, r, c)
    ensures used == GridBlanks(g, |g|)
  {
    h := g;
    used := 0;
    var i := 0;
    while i < |g|
      invariant 0 <= i <= |g| && |h| == |g|
      invariant forall r :: 0 <= r < |h| ==> |h[r]| == |g[r]|
      invariant used == GridBlanks(g, i)
      invariant forall r, c :: 0 <= r < i && 0 <= c < |g[r]| ==> h[r][c] == Filled(g, pick, r, c)
      invariant forall r :: i <= r < |g| ==> h[r] == g[r]
    {
      var row, drawn := FillRow(g[i], pick, used);
      h := h[i := row];
      used := used + drawn;
      i := i + 1;
    }
  }

  /** The filled grid keeps every letter and has no blank left. */
  lemma FillComplete(g: Grid, pick: nat -> nat, h: Grid)
    requires IsGrid(g) && SameShape(g, h)
    requires forall r, c :: 0 <= r < |g| && 0 <= c < Cols(g) ==> h[r][c] == Filled(g, pick, r, c)
    ensures Extends(g, h)
    ensures forall x :: InBounds(h, x) ==> At(h, x) != Blank
  {
    forall x | InBounds(h, x) ensures At(h, x) != Blank {
      assert h[x.row][x.col] == Filled(g, pick, x.row, x.col);
    }
  }

  /** The draws are one per blank: a grid without blanks makes none and is left as it is. */
  lemma {:induction false} NoBlanksNoDraws(g: Grid, r: nat)
    requires r <= |g|
    requires forall i, c :: 0 <= i < r && 0 <= c < |g[i]| ==> g[i][c] != Blank
    ensures GridBlanks(g, r) == 0
  {
    if r > 0 {
      NoBlanksNoDraws(g, r - 1);
      RowNoBlanks(g[r - 1], |g[r - 1]|);
    }
  }

  lemma {:induction false} RowNoBlanks(row: seq<char>, c: nat)
    requires c <= |row|
    requires forall k :: 0 <= k < c ==> row[k] != Blank
    ensures RowBlanks(row, c) == 0
  {
    if c > 0 {
      RowNoBlanks(row, c - 1);
    }
  }

  /** Distinct blanks use distinct draws: within a row, a later blank is met after an earlier one. */
  lemma {:induction false} RowDrawsIncrease(row: seq<char>, a: nat, b: nat)
    requires a < b <= |row| && row[a] == Blank
    ensures RowBlanks(row, a) < RowBlanks(row, b)
    decreases b
  {
    if b > a + 1 {
      RowDrawsIncrease(row, a, b - 1);
    }
  }

  lemma {:induction false} GridBlanksMonotone(g: Grid, r1: nat, r2: nat)
    requires r1 <= r2 <= |g|
    ensures GridBlanks(g, r1) <= GridBlanks(g, r2)
    decreases r2
  {
    if r1 < r2 {
      GridBlanksMonotone(g, r1, r2 - 1);
    }
  }

  /**
   Blanks met earlier in row-major order use earlier draws, and every draw a blank
   uses is below the total count: each blank gets a draw of its own.
   */
  lemma DrawsOrdered(g: Grid, r1: nat, c1: nat, r2: nat, c2: nat)
    requires IsGrid(g) && r1 < |g| && c1 < Cols(g) && r2 < |g| && c2 < Cols(g)
    requires g[r1][c1] == Blank
    requires r1 < r2 || (r1 == r2 && c1 < c2)
    ensures BlanksBefore(g, r1, c1) < BlanksBefore(g, r2, c2)
    ensures BlanksBefore(g, r1, c1) < GridBlanks(g, |g|)
  {
    RowDrawsIncrease(g[r1], c1, |g[r1]|);
    GridBlanksMonotone(g, r1 + 1, |g|);
    if r1 < r2 {
      GridBlanksMonotone(g, r1 + 1, r2);
    } else {
      RowDrawsIncrease(g[r1], c1, c2);
    }
  }
}
