/**
 The backtracking search `WordSearchGraph.word_search_csp` and its entry point
 `WordSearchCSP.solve`, as both game scripts write them.

 The search draws on two sources of randomness, passed in here as oracles:
 `shuffle(k)` is the anchor list produced by the `k`-th `random.shuffle(nodes)`
 (one per call that still has a word to place), and `coin(k)` is the `k`-th
 `random.choice([0, 1])` of `assign_word`, `true` meaning `a == 1` (the word is
 written as read from the anchor). The search returns how many of each it used,
 so that the order in which the source consumes them is part of the model.
 None of the properties below depends on `shuffle(k)` being a permutation of
 the grid's cells, which is what the source's shuffle produces.
 */
module Csp {
  import opened Wrappers
  import opened Grid
  import opened Placement
  import Trie
  import PlainTrie

  /** What a call of `word_search_csp` leaves behind: its result, the grid, and the oracle positions reached. */
  datatype Run = Run(ok: bool, grid: Grid, shuffles: nat, coins: nat)

  /** The source's `['horizontal', 'vertical', 'diagonal']`. */
  const SourceDirections: seq<Direction> := [Horizontal, Vertical, Diagonal]

  /** The candidates one anchor yields: for each direction in turn, orientation 1 then -1. */
  function AnchorCandidates(a: Cell, dirs: seq<Direction>): (cs: seq<Placement>)
    ensures |cs| == 2 * |dirs|
    ensures forall d :: 0 <= d < |dirs| ==>
      cs[2 * d] == Placement(a, dirs[d], Forward) && cs[2 * d + 1] == Placement(a, dirs[d], Backward)
  {
    if |dirs| == 0 then []
    else [Placement(a, dirs[0], Forward), Placement(a, dirs[0], Backward)] + AnchorCandidates(a, dirs[1..])
  }

  /** The candidates of one anchor are exactly the placements at it along a listed direction. */
  lemma AnchorCandidatesMembers(a: Cell, dirs: seq<Direction>)
    ensures forall c :: c in AnchorCandidates(a, dirs) <==> c.anchor == a && c.dir in dirs
  {
    var head := AnchorCandidates(a, dirs);
    forall c | c in head ensures c.anchor == a && c.dir in dirs {
      var i :| 0 <= i < |head| && head[i] == c;
      assert head[2 * (i / 2)] == Placement(a, dirs[i / 2], Forward);
    }
    forall c: Placement | c.anchor == a && c.dir in dirs ensures c in head {
      var d :| 0 <= d < |dirs| && dirs[d] == c.dir;
      if c.orient == Forward { assert head[2 * d] == c; } else { assert head[2 * d + 1] == c; }
    }
  }

  /**
   The three nested loops `for node in nodes: for direction in ...: for orientation in [1, -1]`
   as one list: the candidates of each anchor, anchor after anchor. Its length bounds the
   work of one call: 6 candidates per anchor with the source's directions.
   */
  function Candidates(anchors: seq<Cell>, dirs: seq<Direction>): (cs: seq<Placement>)
    ensures |cs| == |anchors| * (2 * |dirs|)
    ensures forall c :: c in cs <==> c.anchor in anchors && c.dir in dirs
  {
    if |anchors| == 0 then []
    else
      var head := AnchorCandidates(anchors[0], dirs);
      var rest := Candidates(anchors[1..], dirs);
      var cs := head + rest;
      var m := 2 * |dirs|;
      AnchorCandidatesMembers(anchors[0], dirs);
      assert |anchors| * m == m + (|anchors| - 1) * m;
      cs
  }

  /**
   `word_search_csp(words, index)`: place `words[index..]` by depth-first search; on
   success the grid is left as the last successful branch wrote it, on failure as the
   undos left it.
   */
  function Search(g: Grid, words: seq<string>, index: nat, sh: nat, co: nat,
                  shuffle: nat -> seq<Cell>, coin: nat -> bool): (r: Run)
    requires IsGrid(g) && index <= |words|
    ensures SameShape(g, r.grid)
    ensures r.shuffles >= sh && r.coins >= co
    ensures index == |words| ==> r.ok && r.grid == g
    ensures index < |words| ==> r.shuffles > sh
    decreases |words| - index, 1
  {
    if index == |words| then Run(true, g, sh, co)
    else Try(g, words, index, Candidates(shuffle(sh), SourceDirections), 0, sh + 1, co, shuffle, coin)
  }

  /** The candidate loop of one call, from candidate `k` on. */
  function Try(g: Grid, words: seq<string>, index: nat, cands: seq<Placement>, k: nat,
               sh: nat, co: nat, shuffle: nat -> seq<Cell>, coin: nat -> bool): (r: Run)
    requires IsGrid(g) && index < |words| && k <= |cands|
    ensures SameShape(g, r.grid)
    ensures r.shuffles >= sh && r.coins >= co
    decreases |words| - index, 0, |cands| - k
  {
    if k == |cands| then Run(false, g, sh, co)
    else
      var w := words[index];
      var p := cands[k];
      if IsValid(g, w, p) then
        var r := Search(Assign(g, w, p, coin(co)), words, index + 1, sh, co + 1, shuffle, coin);
        if r.ok then r
        else Try(Unassign(r.grid, w, p), words, index, cands, k + 1, r.shuffles, r.coins, shuffle, coin)
      else Try(g, words, index, cands, k + 1, sh, co, shuffle, coin)
  }

  /** When no candidate from `k` on is valid for the current word, the loop fails and leaves the grid alone. */
  lemma {:induction false} TryAllInvalid(g: Grid, words: seq<string>, index: nat, cands: seq<Placement>, k: nat,
                                         sh: nat, co: nat, shuffle: nat -> seq<Cell>, coin: nat -> bool)
    requires IsGrid(g) && index < |words| && k <= |cands|
    requires forall m :: k <= m < |cands| ==> !IsValid(g, words[index], cands[m])
    ensures Try(g, words, index, cands, k, sh, co, shuffle, coin) == Run(false, g, sh, co)
    decreases |cands| - k
  {
    if k < |cands| {
      TryAllInvalid(g, words, index, cands, k + 1, sh, co, shuffle, coin);
    }
  }

  /**
   If any word still to place is longer than both grid dimensions, the search
   returns False: that word has no valid candidate, so every branch above it fails.
   */
  lemma {:induction false} LongWordFails(g: Grid, words: seq<string>, index: nat, sh: nat, co: nat,
                                         shuffle: nat -> seq<Cell>, coin: nat -> bool, j: nat)
    requires IsGrid(g) && index <= j < |words|
    requires |words[j]| > |g| && |words[j]| > Cols(g)
    ensures !Search(g, words, index, sh, co, shuffle, coin).ok
    decreases |words| - index, 1
  {
    TryLongWordFails(g, words, index, Candidates(shuffle(sh), SourceDirections), 0, sh + 1, co, shuffle, coin, j);
  }

  lemma {:induction false} TryLongWordFails(g: Grid, words: seq<string>, index: nat, cands: seq<Placement>, k: nat,
                                            sh: nat, co: nat, shuffle: nat -> seq<Cell>, coin: nat -> bool, j: nat)
    requires IsGrid(g) && index <= j < |words| && k <= |cands|
    requires |words[j]| > |g| && |words[j]| > Cols(g)
    ensures !Try(g, words, index, cands, k, sh, co, shuffle, coin).ok
    decreases |words| - index, 0, |cands| - k
  {
    if j == index {
      forall m | k <= m < |cands| ensures !IsValid(g, words[index], cands[m]) {
        TooLongIsInvalid(g, words[index], cands[m]);
      }
      TryAllInvalid(g, words, index, cands, k, sh, co, shuffle, coin);
    } else if k < |cands| {
      var w := words[index];
      var p := cands[k];
      if IsValid(g, w, p) {
        var g1 := Assign(g, w, p, coin(co));
        LongWordFails(g1, words, index + 1, sh, co + 1, shuffle, coin, j);
        var r := Search(g1, words, index + 1, sh, co + 1, shuffle, coin);
        TryLongWordFails(Unassign(r.grid, w, p), words, index, cands, k + 1, r.shuffles, r.coins, shuffle, coin, j);
      } else {
        TryLongWordFails(g, words, index, cands, k + 1, sh, co, shuffle, coin, j);
      }
    }
  }

  /** The words of `final.py`'s dictionary, in `get_all_words` order, without their definitions. */
  function DictionaryWords(t: Trie.Node): (ws: seq<string>)
    requires Trie.Valid(t)
    ensures forall w :: w in ws <==> Trie.Search(t, w).found
  {
    var es := Trie.GetAllWords(t);
    var ws := seq(|es|, i requires 0 <= i < |es| => es[i].0);
    forall w | w in ws ensures Trie.Search(t, w).found {
      var i :| 0 <= i < |ws| && ws[i] == w;
      assert es[i] in es;
    }
    forall w | Trie.Search(t, w).found ensures w in ws {
      var e := (w, Trie.Search(t, w).definition);
      assert e in es;
      var i :| 0 <= i < |es| && es[i] == e;
      assert ws[i] == w;
    }
    ws
  }

  /**
   A search from a blank n x n grid over an empty list succeeds and writes nothing;
   over a list holding a word longer than n it fails.
   */
  lemma ListOutcome(n: nat, words: seq<string>, shuffle: nat -> seq<Cell>, coin: nat -> bool)
    requires n > 0
    ensures (forall w :: w !in words) ==> Search(BlankGrid(n), words, 0, 0, 0, shuffle, coin).ok
    ensures (forall w :: w !in words) ==> Search(BlankGrid(n), words, 0, 0, 0, shuffle, coin).grid == BlankGrid(n)
    ensures (exists w :: w in words && |w| > n) ==> !Search(BlankGrid(n), words, 0, 0, 0, shuffle, coin).ok
  {
    if exists w :: w in words && |w| > n {
      var w :| w in words && |w| > n;
      var j :| 0 <= j < |words| && words[j] == w;
      LongWordFails(BlankGrid(n), words, 0, 0, 0, shuffle, coin, j);
    }
    if |words| > 0 {
      assert words[0] in words;
    }
  }

  /**
   `WordSearchCSP(grid_size, trie).solve()` of `final.py`: search an n x n grid of
   blanks for all dictionary words. An empty dictionary solves at once and leaves
   the grid blank; a dictionary holding a word longer than n never solves.
   */
  function Solve(n: nat, t: Trie.Node, shuffle: nat -> seq<Cell>, coin: nat -> bool): (r: Run)
    requires n > 0 && Trie.Valid(t)
    ensures IsGrid(r.grid) && |r.grid| == n && Cols(r.grid) == n
    ensures (forall w :: !Trie.Search(t, w).found) ==> r.ok && r.grid == BlankGrid(n)
    ensures (exists w :: Trie.Search(t, w).found && |w| > n) ==> !r.ok
  {
    var words := DictionaryWords(t);
    ListOutcome(n, words, shuffle, coin);
    Search(BlankGrid(n), words, 0, 0, 0, shuffle, coin)
  }

  /** `WordSearchCSP(grid_size, trie).solve()` of `wordsearch.py`, over the definition-free dictionary. */
  function SolvePlain(n: nat, t: Trie.Node, shuffle: nat -> seq<Cell>, coin: nat -> bool): (r: Run)
    requires n > 0 && Trie.Valid(t)
    ensures IsGrid(r.grid) && |r.grid| == n && Cols(r.grid) == n
    ensures (forall w :: !PlainTrie.Search(t, w)) ==> r.ok && r.grid == BlankGrid(n)
    ensures (exists w :: PlainTrie.Search(t, w) && |w| > n) ==> !r.ok
  {
    var words := PlainTrie.GetAllWords(t);
    ListOutcome(n, words, shuffle, coin);
    Search(BlankGrid(n), words, 0, 0, 0, shuffle, coin)
  }
}
