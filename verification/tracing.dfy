/**
 The click-and-trace helpers of `wordsearch.py`: `is_adjacent` decides whether a
 click continues the current trace, `highlight_word` lower-cases the first place
 a found word appears on the grid, and `find_selected_word` walks outward from a
 cell looking for a prefix that is both in the dictionary and in the chosen list.

 Both scans try the same eight directions, as (row step, column step) pairs:
 down, right, down-right, down-left, up, left, up-left, up-right.
 */
module Tracing {
  import opened Wrappers
  import opened Grid
  import Selection
  import Graph
  import Trie
  import PlainTrie

  /** `is_adjacent(cell1, cell2)`: at most one row and one column apart, and not the same cell. */
  function IsAdjacent(a: Cell, b: Cell): (r: bool)
    ensures r <==> Dist(a, b) == 1
  {
    Selection.Abs(a.row - b.row) <= 1 && Selection.Abs(a.col - b.col) <= 1 && (a.row != b.row || a.col != b.col)
  }

  /** A click may continue a trace exactly along an edge of the grid graph that `build_graph` makes. */
  lemma AdjacentIsGraphEdge(g: Grid, x: Cell, y: Cell)
    requires IsGrid(g)
    ensures y in Graph.Neighbours(g, x) <==> InBounds(g, y) && IsAdjacent(x, y)
  {
    Graph.NeighbourIffAdjacent(g, x, y);
  }

  const Directions: seq<(int, int)> := [(1, 0), (0, 1), (1, 1), (1, -1), (-1, 0), (0, -1), (-1, -1), (-1, 1)]

  /** Every scan direction is one king move. */
  lemma DirectionIsStep(k: nat)
    requires k < |Directions|
    ensures -1 <= Directions[k].0 <= 1 && -1 <= Directions[k].1 <= 1 && Directions[k] != (0, 0)
  {
  }

  /** The cell `l` steps from `x` along `d`. */
  function Ray(x: Cell, d: (int, int), l: int): Cell {
    Along(x, d.0, d.1, l)
  }

  predicate RayInBounds(g: Grid, x: Cell, d: (int, int), n: nat)
    requires IsGrid(g)
  {
    forall l :: 0 <= l < n ==> InBounds(g, Ray(x, d, l))
  }

  /** The `n` letters read from `x` along `d`. */
  function ReadRay(g: Grid, x: Cell, d: (int, int), n: nat): (s: string)
    requires IsGrid(g) && RayInBounds(g, x, d, n)
    ensures |s| == n
  {
    seq(n, l requires 0 <= l < n => At(g, Ray(x, d, l)))
  }

  function RayCells(x: Cell, d: (int, int), n: nat): set<Cell> {
    set l | 0 <= l < n :: Ray(x, d, l)
  }

  /** Along a scan direction no cell is met twice. */
  lemma RayDistinct(x: Cell, k: nat, l1: int, l2: int)
    requires k < |Directions| && l1 != l2
    ensures Ray(x, Directions[k], l1) != Ray(x, Directions[k], l2)
  {
    DirectionIsStep(k);
  }

  /** `w` is spelled from `x` along direction `k`. The source never matches the empty word. */
  predicate Occurs(g: Grid, w: string, x: Cell, k: nat)
    requires IsGrid(g) && k < |Directions|
  {
    |w| > 0 && RayInBounds(g, x, Directions[k], |w|) && ReadRay(g, x, Directions[k], |w|) == w
  }

  /** The first occurrence at or after cell (i, j), direction `k`, in the order `highlight_word` scans. */
  function FirstFrom(g: Grid, w: string, i: nat, j: nat, k: nat): (r: Option<(Cell, nat)>)
    requires IsGrid(g) && i <= |g| && j <= Cols(g) && k <= |Directions|
    ensures r.Some? ==> InBounds(g, r.value.0) && r.value.1 < |Directions| && Occurs(g, w, r.value.0, r.value.1)
    decreases |g| - i, Cols(g) - j, |Directions| - k
  {
    if i == |g| then None
    else if j == Cols(g) then FirstFrom(g, w, i + 1, 0, 0)
    else if k == |Directions| then FirstFrom(g, w, i, j + 1, 0)
    else if Occurs(g, w, Cell(i, j), k) then Some((Cell(i, j), k))
    else FirstFrom(g, w, i, j, k + 1)
  }

  /** Position (x, k) of the scan comes at or after (i, j, k0). */
  predicate AtOrAfter(x: Cell, k: nat, i: int, j: int, k0: nat) {
    x.row > i || (x.row == i && (x.col > j || (x.col == j && k >= k0)))
  }

  /** What `FirstFrom` finds lies at or after its start, and no earlier position of the scan holds an occurrence. */
  lemma {:induction false} FirstFromFirst(g: Grid, w: string, i: nat, j: nat, k: nat)
    requires IsGrid(g) && i <= |g| && j <= Cols(g) && k <= |Directions|
    requires FirstFrom(g, w, i, j, k).Some?
    ensures var (x, m) := FirstFrom(g, w, i, j, k).value;
      && AtOrAfter(x, m, i, j, k)
      && forall y: Cell, n: nat ::
           (InBounds(g, y) && n < |Directions| && AtOrAfter(y, n, i, j, k) && !AtOrAfter(y, n, x.row, x.col, m))
           ==> !Occurs(g, w, y, n)
    decreases |g| - i, Cols(g) - j, |Directions| - k
  {
    if j == Cols(g) {
      FirstFromFirst(g, w, i + 1, 0, 0);
      assert forall y: Cell, n: nat :: InBounds(g, y) && AtOrAfter(y, n, i, j, k) ==> AtOrAfter(y, n, i + 1, 0, 0);
    } else if k == |Directions| {
      FirstFromFirst(g, w, i, j + 1, 0);
      assert forall y: Cell, n: nat :: n < |Directions| && AtOrAfter(y, n, i, j, k) ==> AtOrAfter(y, n, i, j + 1, 0);
    } else if !Occurs(g, w, Cell(i, j), k) {
      FirstFromFirst(g, w, i, j, k + 1);
    }
  }

  /** When `FirstFrom` finds nothing, no position at or after its start holds an occurrence. */
  lemma {:induction false} FirstFromNone(g: Grid, w: string, i: nat, j: nat, k: nat)
    requires IsGrid(g) && i <= |g| && j <= Cols(g) && k <= |Directions|
    requires FirstFrom(g, w, i, j, k).None?
    ensures forall y: Cell, n: nat :: InBounds(g, y) && n < |Directions| && AtOrAfter(y, n, i, j, k) ==> !Occurs(g, w, y, n)
    decreases |g| - i, Cols(g) - j, |Directions| - k
  {
    if i == |g| {
    } else if j == Cols(g) {
      FirstFromNone(g, w, i + 1, 0, 0);
    } else if k == |Directions| {
      FirstFromNone(g, w, i, j + 1, 0);
    } else {
      FirstFromNone(g, w, i, j, k + 1);
    }
  }

  /** The scan finds the word exactly when it occurs somewhere, and then at its first position in scan order. */
  lemma FirstFromSpec(g: Grid, w: string)
    requires IsGrid(g)
    ensures FirstFrom(g, w, 0, 0, 0).None? <==>
      forall y: Cell, n: nat :: InBounds(g, y) && n < |Directions| ==> !Occurs(g, w, y, n)
    ensures FirstFrom(g, w, 0, 0, 0).Some? ==>
      var (x, m) := FirstFrom(g, w, 0, 0, 0).value;
      forall y: Cell, n: nat :: (InBounds(g, y) && n < |Directions| && !AtOrAfter(y, n, x.row, x.col, m)) ==> !Occurs(g, w, y, n)
  {
    if FirstFrom(g, w, 0, 0, 0).None? {
      FirstFromNone(g, w, 0, 0, 0);
    } else {
      FirstFromFirst(g, w, 0, 0, 0);
    }
  }

  /** `str.lower()` on one character, for the capital letters A to Z. */
  function Lower(c: char): char {
    if 'A' <= c <= 'Z' then (c as int + 32) as char else c
  }

  function LowerString(s: string): (r: string)
    ensures |r| == |s| && forall i :: 0 <= i < |s| ==> r[i] == Lower(s[i])
  {
    seq(|s|, i requires 0 <= i < |s| => Lower(s[i]))
  }

  /** The cells of the word, from its last letter back to its first, lower-cased in place. */
  method LowerRay(g: Grid, x: Cell, k: nat, n: nat) returns (h: Grid)
    requires IsGrid(g) && k < |Directions| && n > 0 && RayInBounds(g, x, Directions[k], n)
    ensures SameShape(g, h)
    ensures forall y :: InBounds(g, y) ==>
      At(h, y) == if y in RayCells(x, Directions[k], n) then Lower(At(g, y)) else At(g, y)
  {
    var d := Directions[k];
    h := g;
    var m := 0;
    while m < n
      invariant 0 <= m <= n && SameShape(g, h)
      invariant forall y :: InBounds(g, y) ==>
        At(h, y) == if y in RayCells(x, d, n) - RayCells(x, d, n - m) then Lower(At(g, y)) else At(g, y)
    {
      var c := Ray(x, d, n - 1 - m);
      assert c in RayCells(x, d, n - m) && c !in RayCells(x, d, n - m - 1) by {
        forall l | 0 <= l < n - m - 1 ensures Ray(x, d, l) != c {
          RayDistinct(x, k, l, n - 1 - m);
        }
      }
      assert RayCells(x, d, n - m) == RayCells(x, d, n - m - 1) + {c};
      h := Set(h, c, Lower(At(h, c)));
      m := m + 1;
    }
    assert RayCells(x, d, 0) == {};
  }

  /** The innermost loop of `highlight_word`: does the word read from `x` along direction `k`? */
  method ScanAt(g: Grid, w: string, x: Cell, k: nat) returns (found: bool)
    requires IsGrid(g) && k < |Directions|
    ensures found == Occurs(g, w, x, k)
  {
    var d := Directions[k];
    var word := "";
    var length := 0;
    while length < |w|
      invariant 0 <= length <= |w|
      invariant RayInBounds(g, x, d, length) && word == ReadRay(g, x, d, length)
      invariant |w| > 0 ==> word != w
    {
      var end := Ray(x, d, length);
      if 0 <= end.row < |g| && 0 <= end.col < |g[0]| {
        word := word + [g[end.row][end.col]];
        assert word == ReadRay(g, x, d, length + 1);
        if word == w {
          return true;
        }
      } else {
        return false;
      }
      length := length + 1;
    }
    return false;
  }

  /**
   `highlight_word(word, grid)`: scan cells row by row and directions in order; at
   the first place the whole word reads, lower-case its letters and stop. When the
   word appears nowhere (or is empty) the grid is unchanged.
   */
  method HighlightWord(w: string, g: Grid) returns (h: Grid)
    requires IsGrid(g)
    ensures SameShape(g, h)
    ensures FirstFrom(g, w, 0, 0, 0).None? ==> h == g
    ensures FirstFrom(g, w, 0, 0, 0).Some? ==>
      var (x, k) := FirstFrom(g, w, 0, 0, 0).value;
      forall y :: InBounds(g, y) ==>
        At(h, y) == if y in RayCells(x, Directions[k], |w|) then Lower(At(g, y)) else At(g, y)
  {
    var rows := |g|;
    var cols := |g[0]|;
    var i := 0;
    while i < rows
      invariant 0 <= i <= rows
      invariant FirstFrom(g, w, 0, 0, 0) == FirstFrom(g, w, i, 0, 0)
    {
      var j := 0;
      while j < cols
        invariant 0 <= j <= cols
        invariant FirstFrom(g, w, 0, 0, 0) == FirstFrom(g, w, i, j, 0)
      {
        var k := 0;
        while k < |Directions|
          invariant 0 <= k <= |Directions|
          invariant FirstFrom(g, w, 0, 0, 0) == FirstFrom(g, w, i, j, k)
        {
          var found := ScanAt(g, w, Cell(i, j), k);
          if found {
            h := LowerRay(g, Cell(i, j), k, |w|);
            return;
          }
          k := k + 1;
        }
        j := j + 1;
      }
      i := i + 1;
    }
    h := g;
  }

  /** After highlighting, the first occurrence reads as the word in lower case. */
  lemma HighlightedReadsLower(g: Grid, w: string, h: Grid)
    requires IsGrid(g) && SameShape(g, h) && FirstFrom(g, w, 0, 0, 0).Some?
    requires var (x, k) := FirstFrom(g, w, 0, 0, 0).value;
      forall y :: InBounds(g, y) ==>
        At(h, y) == if y in RayCells(x, Directions[k], |w|) then Lower(At(g, y)) else At(g, y)
    ensures var (x, k) := FirstFrom(g, w, 0, 0, 0).value;
      k < |Directions| && RayInBounds(h, x, Directions[k], |w|) && ReadRay(h, x, Directions[k], |w|) == LowerString(w)
  {
    var (x, k) := FirstFrom(g, w, 0, 0, 0).value;
    forall l | 0 <= l < |w| ensures InBounds(h, Ray(x, Directions[k], l)) && At(h, Ray(x, Directions[k], l)) == Lower(w[l]) {
      assert Ray(x, Directions[k], l) in RayCells(x, Directions[k], |w|);
      assert ReadRay(g, x, Directions[k], |w|)[l] == w[l];
    }
  }

  // ---------------------------------------------------------------------------
  // find_selected_word(trie, grid, start, chosen_word_list)

  /** The definition of the first entry of the chosen list whose word is `w`. */
  function EntryFor(chosen: seq<(string, string)>, w: string): (r: Option<string>)
    ensures r.Some? ==> (w, r.value) in chosen
    ensures r.None? <==> forall e :: e in chosen ==> e.0 != w
  {
    if |chosen| == 0 then None
    else if chosen[0].0 == w then Some(chosen[0].1)
    else EntryFor(chosen[1..], w)
  }

  /** Along one direction, the first prefix (of length `n` or more) the trie holds and the list names. */
  function MatchAlong(t: Trie.Node, g: Grid, x: Cell, k: nat, chosen: seq<(string, string)>, n: nat): (r: Option<(string, string)>)
    requires IsGrid(g) && k < |Directions| && n > 0 && RayInBounds(g, x, Directions[k], n - 1)
    ensures r.Some? ==> PlainTrie.Search(t, r.value.0) && r.value in chosen
    ensures r.Some? ==> n <= |r.value.0| && RayInBounds(g, x, Directions[k], |r.value.0|) &&
                        r.value.0 == ReadRay(g, x, Directions[k], |r.value.0|)
    decreases |g| + Cols(g) + 1 - n
  {
    var d := Directions[k];
    if !InBounds(g, Ray(x, d, n - 1)) then None
    else
      RayBound(g, x, k, n - 1);
      var p := ReadRay(g, x, d, n);
      if PlainTrie.Search(t, p) && EntryFor(chosen, p).Some? then Some((p, EntryFor(chosen, p).value))
      else MatchAlong(t, g, x, k, chosen, n + 1)
  }

  /** `w` is a word the walk stops at: the trie holds it and the chosen list names it. */
  predicate Names(t: Trie.Node, chosen: seq<(string, string)>, w: string) {
    PlainTrie.Search(t, w) && EntryFor(chosen, w).Some?
  }

  /**
   `MatchAlong` finds the shortest qualifying prefix, of length `n` or more, with the
   first definition the list gives it; when it finds none, no prefix of length `n`
   or more that stays inside the grid qualifies.
   */
  lemma {:induction false} MatchAlongFirst(t: Trie.Node, g: Grid, x: Cell, k: nat, chosen: seq<(string, string)>, n: nat)
    requires IsGrid(g) && k < |Directions| && n > 0 && RayInBounds(g, x, Directions[k], n - 1)
    ensures var r := MatchAlong(t, g, x, k, chosen, n);
      r.Some? ==> Names(t, chosen, r.value.0) && r.value.1 == EntryFor(chosen, r.value.0).value &&
                  forall m :: n <= m < |r.value.0| ==> !Names(t, chosen, r.value.0[..m])
    ensures MatchAlong(t, g, x, k, chosen, n).None? ==>
      forall m :: n <= m && RayInBounds(g, x, Directions[k], m) ==> !Names(t, chosen, ReadRay(g, x, Directions[k], m))
    decreases |g| + Cols(g) + 1 - n
  {
    var d := Directions[k];
    if InBounds(g, Ray(x, d, n - 1)) {
      RayBound(g, x, k, n - 1);
      var p := ReadRay(g, x, d, n);
      if !Names(t, chosen, p) {
        MatchAlongFirst(t, g, x, k, chosen, n + 1);
        var r := MatchAlong(t, g, x, k, chosen, n + 1);
        if r.Some? {
          var w := r.value.0;
          assert w[..n] == p;
        }
      }
    }
  }

  /** A ray from a grid cell leaves the grid within `rows + cols` steps. */
  lemma RayBound(g: Grid, x: Cell, k: nat, n: nat)
    requires IsGrid(g) && k < |Directions| && RayInBounds(g, x, Directions[k], n + 1)
    ensures n < |g| + Cols(g)
  {
    DirectionIsStep(k);
    assert InBounds(g, Ray(x, Directions[k], 0)) && InBounds(g, Ray(x, Directions[k], n));
  }

  /** The first direction, from `k` on, along which a match exists, and that match. */
  function SelectFrom(t: Trie.Node, g: Grid, x: Cell, chosen: seq<(string, string)>, k: nat): (r: Option<(string, string)>)
    requires IsGrid(g) && k <= |Directions|
    ensures r.Some? ==> PlainTrie.Search(t, r.value.0) && r.value in chosen && |r.value.0| > 0
    ensures r.Some? ==> exists m :: k <= m < |Directions| && RayInBounds(g, x, Directions[m], |r.value.0|) &&
                           r.value.0 == ReadRay(g, x, Directions[m], |r.value.0|)
    decreases |Directions| - k
  {
    if k == |Directions| then None
    else
      var r := MatchAlong(t, g, x, k, chosen, 1);
      if r.Some? then r else SelectFrom(t, g, x, chosen, k + 1)
  }

  /** The match along each direction, in scan order. */
  function Matches(t: Trie.Node, g: Grid, x: Cell, chosen: seq<(string, string)>): (rs: seq<Option<(string, string)>>)
    requires IsGrid(g)
    ensures |rs| == |Directions|
    ensures forall m :: 0 <= m < |Directions| ==> rs[m] == MatchAlong(t, g, x, m, chosen, 1)
  {
    seq(|Directions|, m requires 0 <= m < |Directions| => MatchAlong(t, g, x, m, chosen, 1))
  }

  /** The first present entry of `rs` from `k` on, with its position. */
  function FirstSome<T>(rs: seq<Option<T>>, k: nat): (r: (nat, Option<T>))
    requires k <= |rs|
    ensures k <= r.0 <= |rs|
    ensures forall m :: k <= m < r.0 ==> rs[m].None?
    ensures r.0 < |rs| ==> rs[r.0].Some? && r.1 == rs[r.0]
    ensures r.0 == |rs| ==> r.1.None?
    decreases |rs| - k
  {
    if k == |rs| then (k, None)
    else if rs[k].Some? then (k, rs[k])
    else FirstSome(rs, k + 1)
  }

  /** `SelectFrom` is the first present entry of `Matches`. */
  lemma {:induction false} SelectFromIsFirst(t: Trie.Node, g: Grid, x: Cell, chosen: seq<(string, string)>, k: nat)
    requires IsGrid(g) && k <= |Directions|
    ensures SelectFrom(t, g, x, chosen, k) == FirstSome(Matches(t, g, x, chosen), k).1
    decreases |Directions| - k
  {
    if k < |Directions| && MatchAlong(t, g, x, k, chosen, 1).None? {
      SelectFromIsFirst(t, g, x, chosen, k + 1);
    }
  }

  /**
   `SelectFrom` returns the match of the first direction, from `k` on, that has one:
   `m` is that direction, every direction before it matches nothing, and `m` is
   `|Directions|` exactly when no direction matches.
   */
  lemma SelectFromFirst(t: Trie.Node, g: Grid, x: Cell, chosen: seq<(string, string)>, k: nat)
    returns (m: nat)
    requires IsGrid(g) && k <= |Directions|
    ensures k <= m <= |Directions|
    ensures forall m' :: k <= m' < m ==> MatchAlong(t, g, x, m', chosen, 1).None?
    ensures m < |Directions| ==>
      MatchAlong(t, g, x, m, chosen, 1).Some? && SelectFrom(t, g, x, chosen, k) == MatchAlong(t, g, x, m, chosen, 1)
    ensures m == |Directions| ==> SelectFrom(t, g, x, chosen, k).None?
  {
    SelectFromIsFirst(t, g, x, chosen, k);
    var rs := Matches(t, g, x, chosen);
    m := FirstSome(rs, k).0;
    forall m' | k <= m' < m ensures MatchAlong(t, g, x, m', chosen, 1).None? {
      assert rs[m'].None?;
    }
  }

  /** A start outside the grid selects nothing. */
  lemma OutsideSelectsNothing(t: Trie.Node, g: Grid, x: Cell, chosen: seq<(string, string)>, k: nat)
    requires IsGrid(g) && k <= |Directions| && !InBounds(g, x)
    ensures SelectFrom(t, g, x, chosen, k).None?
    decreases |Directions| - k
  {
    if k < |Directions| {
      assert Ray(x, Directions[k], 0) == x;
      OutsideSelectsNothing(t, g, x, chosen, k + 1);
    }
  }

  /** The loop `for w, definition in chosen_word_list: if w == word: return ...`. */
  method LookupEntry(chosen: seq<(string, string)>, w: string) returns (r: Option<string>)
    ensures r == EntryFor(chosen, w)
  {
    var m := 0;
    while m < |chosen|
      invariant 0 <= m <= |chosen|
      invariant forall e :: e in chosen[..m] ==> e.0 != w
    {
      if chosen[m].0 == w {
        EntryForSkip(chosen, m, w);
        return Some(chosen[m].1);
      }
      assert chosen[..m + 1] == chosen[..m] + [chosen[m]];
      m := m + 1;
    }
    assert chosen[..m] == chosen;
    return None;
  }

  /** The `while` walk from `start` along direction `k`, growing the word one cell at a time. */
  method Walk(t: Trie.Node, g: Grid, start: Cell, k: nat, chosen: seq<(string, string)>)
    returns (r: Option<(string, string)>)
    requires IsGrid(g) && k < |Directions|
    ensures r == MatchAlong(t, g, start, k, chosen, 1)
  {
    var d := Directions[k];
    DirectionIsStep(k);
    var rows := |g|;
    var cols := |g[0]|;
    var word := "";
    var x, y := start.row, start.col;
    while 0 <= x < rows && 0 <= y < cols
      invariant Cell(x, y) == Ray(start, d, |word|)
      invariant RayInBounds(g, start, d, |word|) && word == ReadRay(g, start, d, |word|)
      invariant MatchAlong(t, g, start, k, chosen, 1) == MatchAlong(t, g, start, k, chosen, |word| + 1)
      decreases |g| + Cols(g) - |word|
    {
      RayBound(g, start, k, |word|);
      word := word + [g[x][y]];
      assert word == ReadRay(g, start, d, |word|);
      if PlainTrie.Search(t, word) {
        var def := LookupEntry(chosen, word);
        if def.Some? {
          return Some((word, def.value));
        }
      }
      x, y := x + d.0, y + d.1;
    }
    return None;
  }

  /**
   One pass of the `for i` / `for j` loops for direction `k`. Neither index is used,
   so every iteration repeats the same walk from `start`; the first match returns.
   */
  method ScanDirection(t: Trie.Node, g: Grid, start: Cell, k: nat, chosen: seq<(string, string)>)
    returns (r: Option<(string, string)>)
    requires IsGrid(g) && k < |Directions|
    ensures r == MatchAlong(t, g, start, k, chosen, 1)
  {
    var rows := |g|;
    var cols := |g[0]|;
    var i := -rows;
    while i < rows
      invariant -rows <= i <= rows
      invariant i > -rows ==> MatchAlong(t, g, start, k, chosen, 1).None?
    {
      var j := -cols;
      while j < cols
        invariant -cols <= j <= cols
        invariant j > -cols ==> MatchAlong(t, g, start, k, chosen, 1).None?
      {
        r := Walk(t, g, start, k, chosen);
        if r.Some? {
          return;
        }
        j := j + 1;
      }
      i := i + 1;
    }
    return None;
  }

  /**
   `find_selected_word(trie, grid, start, chosen_word_list)`, loops and all: for each
   direction, `2 * rows * 2 * cols` identical walks from `start`, each returning the
   first prefix the trie holds that the chosen list also names, with that entry's
   definition. `None` is `(None, None)`.
   */
  method FindSelectedWord(t: Trie.Node, g: Grid, start: Cell, chosen: seq<(string, string)>)
    returns (r: Option<(string, string)>)
    requires IsGrid(g)
    ensures r == SelectFrom(t, g, start, chosen, 0)
    ensures r.Some? ==> PlainTrie.Search(t, r.value.0) && r.value in chosen && InBounds(g, start)
  {
    if !InBounds(g, start) {
      OutsideSelectsNothing(t, g, start, chosen, 0);
    }
    var k := 0;
    while k < |Directions|
      invariant 0 <= k <= |Directions|
      invariant SelectFrom(t, g, start, chosen, 0) == SelectFrom(t, g, start, chosen, k)
    {
      r := ScanDirection(t, g, start, k, chosen);
      if r.Some? {
        return;
      }
      k := k + 1;
    }
    return None;
  }

  /** Entries before the first one naming `w` do not change what `EntryFor` finds. */
  lemma {:induction false} EntryForSkip(chosen: seq<(string, string)>, m: nat, w: string)
    requires m <= |chosen| && forall e :: e in chosen[..m] ==> e.0 != w
    ensures EntryFor(chosen, w) == EntryFor(chosen[m..], w)
  {
    if m > 0 {
      assert chosen[0] in chosen[..m];
      assert chosen[1..][..m - 1] == chosen[1..m];
      assert forall e :: e in chosen[1..][..m - 1] ==> e in chosen[..m];
      EntryForSkip(chosen[1..], m - 1, w);
      assert chosen[1..][m - 1..] == chosen[m..];
    }
  }
}
