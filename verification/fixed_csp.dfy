/**
 The backtracking search with the placement defects repaired: the validity check
 is made against the letters the coin says will be written, the undo restores
 exactly the cells the write changed, and both diagonals are tried.

 Each candidate draws its coin before the check (the source draws it inside
 `assign_word`, after the check, which is where the mismatch comes from). The
 search records where and which way round it wrote each word, so that its
 result can be read back from the grid.
 */
module FixedCsp {
  import opened Grid
  import opened Placement
  import Csp

  /** The four line directions through a cell. */
  const AllDirections: seq<Direction> := [Horizontal, Vertical, Diagonal, AntiDiagonal]

  /** Where one word went and whether it was written as read from the anchor. */
  datatype Placed = Placed(at: Placement, straight: bool)

  datatype Outcome = Outcome(ok: bool, grid: Grid, placed: seq<Placed>, shuffles: nat, coins: nat)

  /** A word with no blank letter: one that later writes cannot cross out. */
  predicate Solid(w: string) {
    forall i :: 0 <= i < |w| ==> w[i] != Blank
  }

  /** The grid shows `w` along `pl`, in the orientation it was written in. */
  predicate Shows(g: Grid, pl: Placed, w: string)
    requires IsGrid(g)
  {
    PathInBounds(g, pl.at, |w|) && ReadPath(g, pl.at, |w|) == Oriented(w, pl.straight)
  }

  /** A placed word stays readable on any grid that keeps the letters of this one. */
  lemma ShowsAfterExtends(g: Grid, h: Grid, pl: Placed, w: string)
    requires IsGrid(g) && Extends(g, h) && Solid(w) && Shows(g, pl, w)
    ensures Shows(h, pl, w)
  {
    forall i | 0 <= i < |w| ensures At(h, PathCell(pl.at, i)) == Oriented(w, pl.straight)[i] {
      assert ReadPath(g, pl.at, |w|)[i] == Oriented(w, pl.straight)[i];
      if !pl.straight {
        assert Oriented(w, false)[i] == w[|w| - 1 - i];
      }
    }
  }

  /**
   Place `words[index..]`. On success every solid word is readable where the result says
   it went and no letter of `g` was changed; on failure the grid is given back unchanged.
   */
  function Search(g: Grid, words: seq<string>, index: nat, sh: nat, co: nat,
                  shuffle: nat -> seq<Cell>, coin: nat -> bool): (r: Outcome)
    requires IsGrid(g) && index <= |words|
    ensures SameShape(g, r.grid)
    ensures r.ok ==> Extends(g, r.grid) && |r.placed| == |words| - index
    ensures r.ok ==> forall j :: index <= j < |words| && Solid(words[j]) ==>
                       Shows(r.grid, r.placed[j - index], words[j])
    ensures !r.ok ==> r.grid == g
    decreases |words| - index, 1
  {
    if index == |words| then Outcome(true, g, [], sh, co)
    else Try(g, words, index, Csp.Candidates(shuffle(sh), AllDirections), 0, sh + 1, co, shuffle, coin)
  }

  /** The candidate loop of one call, from candidate `k` on. */
  function Try(g: Grid, words: seq<string>, index: nat, cands: seq<Placement>, k: nat,
               sh: nat, co: nat, shuffle: nat -> seq<Cell>, coin: nat -> bool): (r: Outcome)
    requires IsGrid(g) && index < |words| && k <= |cands|
    ensures SameShape(g, r.grid)
    ensures r.ok ==> Extends(g, r.grid) && |r.placed| == |words| - index
    ensures r.ok ==> forall j :: index <= j < |words| && Solid(words[j]) ==>
                       Shows(r.grid, r.placed[j - index], words[j])
    ensures !r.ok ==> r.grid == g
    decreases |words| - index, 0, |cands| - k
  {
    if k == |cands| then Outcome(false, g, [], sh, co)
    else
      var w := words[index];
      var p := cands[k];
      var straight := coin(co);
      if IsValidFor(g, w, p, straight) then
        var h := Place(g, w, p, straight);
        var r := Search(h, words, index + 1, sh, co + 1, shuffle, coin);
        if r.ok then
          Placed1(g, h, r.grid, words, index, p, straight, r.placed);
          Outcome(true, r.grid, [Placed(p, straight)] + r.placed, r.shuffles, r.coins)
        else
          UnassignExactUndoesPlace(g, w, p, straight);
          Try(UnassignExact(r.grid, p, BlankMask(g, p, |w|)), words, index, cands, k + 1, r.shuffles, r.coins, shuffle, coin)
      else Try(g, words, index, cands, k + 1, sh, co + 1, shuffle, coin)
  }

  /** The success step of `Try`: the word just written joins the ones the rest of the search placed. */
  lemma Placed1(g: Grid, h: Grid, result: Grid, words: seq<string>, index: nat, p: Placement, straight: bool, rest: seq<Placed>)
    requires IsGrid(g) && index < |words| && IsValidFor(g, words[index], p, straight)
    requires h == Place(g, words[index], p, straight)
    requires Extends(h, result) && |rest| == |words| - index - 1
    requires forall j :: index + 1 <= j < |words| && Solid(words[j]) ==> Shows(result, rest[j - index - 1], words[j])
    ensures Extends(g, result)
    ensures forall j :: index <= j < |words| && Solid(words[j]) ==>
              Shows(result, ([Placed(p, straight)] + rest)[j - index], words[j])
  {
    PlaceKeepsLetters(g, words[index], p, straight);
    ExtendsTransitive(g, h, result);
    if Solid(words[index]) {
      ShowsAfterExtends(h, result, Placed(p, straight), words[index]);
    }
    forall j | index <= j < |words| && Solid(words[j])
      ensures Shows(result, ([Placed(p, straight)] + rest)[j - index], words[j])
    {
      if j > index {
        assert ([Placed(p, straight)] + rest)[j - index] == rest[j - index - 1];
      }
    }
  }

  /**
   The repaired `WordSearchCSP(n, trie).solve()` over a word list: on success the
   result records, for each word, a placement that reads it back from the grid.
   */
  function Solve(n: nat, words: seq<string>, shuffle: nat -> seq<Cell>, coin: nat -> bool): (r: Outcome)
    requires n > 0
    ensures IsGrid(r.grid) && |r.grid| == n && Cols(r.grid) == n
    ensures r.ok ==> |r.placed| == |words|
    ensures r.ok ==> forall j :: 0 <= j < |words| && Solid(words[j]) ==> Shows(r.grid, r.placed[j], words[j])
    ensures !r.ok ==> r.grid == BlankGrid(n)
  {
    Search(BlankGrid(n), words, 0, 0, 0, shuffle, coin)
  }

  /** Filling the blanks afterwards (any fill that keeps the letters) leaves every placed word readable. */
  lemma SolvedWordsSurviveFill(n: nat, words: seq<string>, shuffle: nat -> seq<Cell>, coin: nat -> bool, filled: Grid)
    requires n > 0
    requires Solve(n, words, shuffle, coin).ok
    requires Extends(Solve(n, words, shuffle, coin).grid, filled)
    ensures forall j :: 0 <= j < |words| && Solid(words[j]) ==>
              Shows(filled, Solve(n, words, shuffle, coin).placed[j], words[j])
  {
    var r := Solve(n, words, shuffle, coin);
    forall j | 0 <= j < |words| && Solid(words[j]) ensures Shows(filled, r.placed[j], words[j]) {
      ShowsAfterExtends(r.grid, filled, r.placed[j], words[j]);
    }
  }
}
