# Word search puzzle core, in Dafny

This project models the puzzle logic shared by the two word search games `final.py` and
`wordsearch.py`, and proves properties about it. The model covers:

- the prefix-tree dictionary (`Trie`), with and without definitions, and its path lookup
  `search_word_in_trie`;
- the grid placement solver of `WordSearchGraph`:
  - the feasibility check, the write and the undo of a single word;
  - the backtracking search `word_search_csp` and `WordSearchCSP.solve`;
  - the noise fill `fill_empty_spaces`;
  - the 8-neighbour graph `build_graph` / `add_edge`;
- the selection helpers:
  - `find_selected_word` and `get_cells_between` of `final.py`;
  - `is_adjacent`, `highlight_word` and the trie-driven `find_selected_word` of `wordsearch.py`.

The grid is a `seq<seq<char>>` with `' '` for an empty cell. Every operation that mutates
the grid in Python returns a new grid here.

Randomness is passed in as oracles, and each search returns how far it got in each:

- `shuffle(k)` is the anchor list of the `k`-th `random.shuffle`;
- `coin(k)` is the `k`-th `random.choice([0, 1])`, where `true` means `a == 1`;
- `pick(k)` chooses the `k`-th noise letter.

Modules, one per file:

| file | module | models |
|---|---|---|
| `wrappers.dfy` | `Wrappers` | `Option`, and `Distinct` (no element listed twice) |
| `grid.dfy` | `Grid` | cells, bounds, single and sequential writes, straight lines of king moves |
| `trie.dfy` | `Trie` | the `final.py` trie and `search_word_in_trie` |
| `plain_trie.dfy` | `PlainTrie` | the definition-free trie of `wordsearch.py` |
| `placement.dfy` | `Placement` | `is_valid_assignment`, `assign_word`, `unassign_word`, as written and corrected |
| `csp.dfy` | `Csp` | `word_search_csp` and `WordSearchCSP.solve`, as written |
| `fixed_csp.dfy` | `FixedCsp` | the search rebuilt on the corrected placement functions |
| `fill.dfy` | `Fill` | `fill_empty_spaces` |
| `graph.dfy` | `Graph` | `add_edge`, `build_graph` |
| `selection.dfy` | `Selection` | `find_selected_word`, `get_cells_between` of `final.py` |
| `tracing.dfy` | `Tracing` | `is_adjacent`, `highlight_word`, `find_selected_word` of `wordsearch.py` |

Notes on the code's behaviour:

- `get_all_words` walks the tree in pre-order. A node's own word comes first. Each child
  subtree follows, in the order its letter was first inserted below that node (Python
  dict order). Inserting "CAT", "COW", "CAR" lists CAT, CAR, COW: this is neither
  insertion order nor letter order.
- Inserting the empty word marks the root as the end of a word. It is not a no-op.
- `final.py` fills the grid after `solve()` whether or not the search succeeded. Only
  `wordsearch.py` checks the result first.

## Model

| member | source | states |
|---|---|---|
| `Trie.SearchInsert` | wordsearchgame/final.py:30-45 | after `insert(w, d)`, `search(w)` is `(True, d)` and every other string looks up exactly as before, so a later insert of the same word replaces its definition |
| `Trie.InsertValid` | wordsearchgame/final.py:30-37 | insert keeps dict keys distinct and leaves definitions only on end-of-word nodes |
| `Trie.BuildValid` | wordsearchgame/final.py:417-419 | the trie built by the game's insert loop is well formed |
| `Trie.SearchBuild` | wordsearchgame/final.py:39-45 | on the built trie, `search(v)` finds `v` with its last inserted definition, and returns `(False, None)` for every string never inserted, proper prefixes and strings that leave the tree early included |
| `Trie.LastDefinitionPresent` | wordsearchgame/final.py:417-419 | a string has a last definition exactly when some inserted entry names it |
| `Trie.SearchRoot` | wordsearchgame/final.py:39-45 | an empty trie finds nothing |
| `Trie.CollectPrefix` | wordsearchgame/final.py:53-58 | every word the recursive walk lists starts with the prefix it was given |
| `Trie.CollectSound` | wordsearchgame/final.py:53-58 | every `(word, definition)` the walk lists is found by `search` with that definition |
| `Trie.CollectComplete` | wordsearchgame/final.py:53-58 | every word `search` finds below a node is listed by the walk from that node |
| `Trie.CollectNoDup` | wordsearchgame/final.py:53-58 | the walk lists no word twice |
| `Trie.GetAllWords` | wordsearchgame/final.py:48-58 | `get_all_words` lists each stored word once with its definition, and a pair is listed iff `search` returns it |
| `Trie.WalkSpec` | wordsearchgame/final.py:567-580 | the path walk succeeds iff the word is stored; it records each letter with the definition of the node it leaves, and ends with the whole word and its definition |
| `Trie.SearchPath` | wordsearchgame/final.py:563-580 | `search_word_in_trie` returns a path exactly when `search` finds the word; the path has `len(word) + 1` entries, each letter paired with the definition of the node before it, the last entry being the word and its definition |
| `PlainTrie.GetAllWords` | wordsearchgame/wordsearch.py:38-48 | the definition-free `get_all_words` lists each stored word once, and exactly the words `search` finds |
| `PlainTrie.BuildValid` | wordsearchgame/wordsearch.py:219-221 | the trie built from the chosen list is well formed |
| `PlainTrie.SearchBuild` | wordsearchgame/wordsearch.py:22-36 | `search(v)` on the built trie is true iff `v` was inserted |
| `PlainTrie.AllWordsOfBuild` | wordsearchgame/wordsearch.py:38-48 | `get_all_words` on the built trie lists every inserted word exactly once and nothing else |
| `Grid.BlankGrid` | wordsearchgame/final.py:173 | the solver's starting grid is `n` by `n` and every cell is blank |
| `Placement.CheckValid` | wordsearchgame/final.py:117-131 | the letter-by-letter check is true iff every offset stays inside the grid along the chosen axis (the diagonal moving row and column by the same signed step) and its cell holds `' '` or `word[i]`; any other direction is false |
| `Placement.ValidFits` | wordsearchgame/final.py:117-131 | a valid placement is no longer than the grid along its axis, and no longer than either dimension on the diagonal |
| `Placement.TooLongIsInvalid` | wordsearchgame/final.py:117-131 | a word longer than both grid dimensions has no valid placement |
| `Placement.Place` | wordsearchgame/final.py:133-154 | the write changes only the `len(word)` path cells, which read `word` (bit 1) or the word reversed (bit 0) from the anchor |
| `Placement.AssignReadsBack` | wordsearchgame/final.py:133-154 | after a valid check, `assign_word` writes `word` or its reverse along the path and leaves every other cell alone |
| `Placement.StraightAssignKeepsLetters` | wordsearchgame/final.py:139-140 | with bit 1 a validly placed word changes no cell that already held a letter |
| `Placement.Unassign` | wordsearchgame/final.py:156-168 | `unassign_word` sets its in-bounds undo cells to `' '` and changes nothing else |
| `Placement.UndoCellsFollowPath` | wordsearchgame/final.py:163-168 | for horizontal and diagonal, the undo cells are exactly the path the write used |
| `Placement.VerticalUndoIsRowRun` | wordsearchgame/final.py:157-162 | for vertical, the undo cells are the horizontal run from the anchor |
| `Placement.AssignThenUnassign` | wordsearchgame/wordsearch.py:119-154 | a horizontal or diagonal write followed by its undo leaves every path cell blank and every other cell as it was |
| `Placement.MirroredAssignOverwrites` | wordsearchgame/final.py:133-140 | on the row `"A "`, `"AB"` passes the check at (0, 0), and the mirrored write puts `'B'` over the `'A'` |
| `Placement.VerticalUndoLeavesLetter` | wordsearchgame/final.py:141-162 | writing `"AB"` down from (0, 0) and undoing it leaves `'B'` at (1, 0) |
| `Placement.UndoErasesEarlierLetter` | wordsearchgame/final.py:156-168 | a letter that was on the anchor before a valid write is blank after the write and its undo |
| `Placement.NoAntiDiagonalStep` | wordsearchgame/final.py:126-130 | no direction the source knows steps to the lower-left or upper-right neighbour |
| `Placement.EveryStepReachable` | wordsearchgame/final.py:126-130 | with the second diagonal added, each of the eight king moves is the first step of some placement |
| `Placement.IsValidForStraight` | wordsearchgame/final.py:117-131 | with bit 1, the corrected check agrees with the source's check on the source's three directions |
| `Placement.PlaceKeepsLetters` | wordsearchgame/final.py:133-154 | a write that passed the corrected check changes no letter already on the grid, whichever way round it writes |
| `Placement.BlankMask` | wordsearchgame/final.py:156-168 | the mask records exactly which path cells were blank before the write |
| `Placement.UnassignExact` | wordsearchgame/final.py:156-168 | the exact undo blanks the masked path cells, keeps the unmasked ones, and changes nothing off the path |
| `Placement.UnassignExactUndoesPlace` | wordsearchgame/final.py:156-168 | the exact undo of a correctly checked write gives back the grid as it was |
| `Csp.AnchorCandidates` | wordsearchgame/final.py:106-107 | one anchor gives two candidates per direction, orientation 1 before -1 |
| `Csp.Candidates` | wordsearchgame/final.py:103-107 | the loop tries `2 * |dirs|` candidates per anchor (6 with the source's directions), exactly the placements whose anchor is in the shuffled list and whose direction is in the list |
| `Csp.Search` | wordsearchgame/final.py:98-115 | the search keeps the grid's shape, only moves the oracles forward, returns True with the grid unchanged when `index == len(words)`, and draws one shuffle for every call that still has a word |
| `Csp.Try` | wordsearchgame/final.py:105-115 | the candidate loop keeps the grid's shape and only moves the oracles forward |
| `Csp.TryAllInvalid` | wordsearchgame/final.py:105-115 | when no remaining candidate passes the check, the loop returns False and leaves the grid as it was |
| `Csp.LongWordFails` | wordsearchgame/final.py:98-115 | if any word from `index` on is longer than both grid dimensions, `word_search_csp` returns False |
| `Csp.TryLongWordFails` | wordsearchgame/final.py:105-115 | the same for the candidate loop of one call |
| `Csp.DictionaryWords` | wordsearchgame/final.py:175 | the solver's word list holds exactly the words the dictionary stores |
| `Csp.ListOutcome` | wordsearchgame/final.py:170-178 | from a blank grid, an empty list succeeds and writes nothing, and a list with a word longer than `n` fails |
| `Csp.Solve` | wordsearchgame/final.py:170-178 | `solve()` works on an `n` by `n` grid; an empty dictionary succeeds with a blank grid, and a dictionary holding a word longer than `n` fails |
| `Csp.SolvePlain` | wordsearchgame/wordsearch.py:156-165 | the same for the definition-free dictionary |
| `FixedCsp.ShowsAfterExtends` | wordsearchgame/final.py:92-96 | a placed word with no blank letter can still be read on any grid that keeps the letters of this one |
| `FixedCsp.Search` | wordsearchgame/final.py:98-115 | corrected search, on success: it keeps every earlier letter, records one placement per word, and each word without blanks reads back where recorded. On failure it returns the grid unchanged |
| `FixedCsp.Try` | wordsearchgame/final.py:105-115 | the same for the candidate loop of the corrected search |
| `FixedCsp.Placed1` | wordsearchgame/final.py:108-111 | a successful branch adds the word just written to the placements the deeper search recorded, and keeps all earlier letters |
| `FixedCsp.Solve` | wordsearchgame/final.py:170-178 | the corrected `solve()` either records a readable placement for every word or leaves the grid blank |
| `FixedCsp.SolvedWordsSurviveFill` | wordsearchgame/final.py:437-438 | filling the blanks after a successful corrected solve leaves every placed word readable |
| `Fill.Letter` | wordsearchgame/final.py:96 | every noise letter is a capital A to Z |
| `Fill.FillRow` | wordsearchgame/final.py:94-96 | within a row, non-blank cells stay, each blank gets the draw numbered by the blanks before it, and one draw is made per blank |
| `Fill.FillEmpty` | wordsearchgame/final.py:92-96 | `fill_empty_spaces` keeps the shape and every letter; each blank cell gets the letter of its row-major draw; it draws once per blank |
| `Fill.FillComplete` | wordsearchgame/final.py:92-96 | after the fill, no letter has changed and no cell is blank |
| `Fill.NoBlanksNoDraws` | wordsearchgame/final.py:92-96 | a grid with no blanks uses no draws |
| `Fill.RowNoBlanks` | wordsearchgame/final.py:94-95 | a row with no blanks uses no draws |
| `Fill.RowDrawsIncrease` | wordsearchgame/final.py:94-96 | a blank earlier in a row uses an earlier draw |
| `Fill.GridBlanksMonotone` | wordsearchgame/final.py:93-96 | the draw count only grows from row to row |
| `Fill.DrawsOrdered` | wordsearchgame/final.py:92-96 | blanks use draws in row-major order, each below the total, so no two blanks share a draw |
| `Graph.AddEdge` | wordsearchgame/wordsearch.py:57-61 | `add_edge(a, b)` appends `b` to `a`'s list, creating the list if needed, and changes no other key |
| `Graph.AddNeighbours` | wordsearchgame/wordsearch.py:68-78 | the inner loops give a cell its in-bounds neighbours in the order tried, and no entry if it has none |
| `Graph.BuildGraph` | wordsearchgame/wordsearch.py:63-78 | the keys are exactly the cells with a neighbour, and each list holds its neighbours in the order tried |
| `Graph.NearMembers` | wordsearchgame/wordsearch.py:69-78 | a cell is listed iff it is in bounds and one of the tried offsets away |
| `Graph.NeighbourIffAdjacent` | wordsearchgame/wordsearch.py:63-78 | a cell's list is exactly the in-bounds cells at Chebyshev distance 1 |
| `Graph.NeighboursSymmetric` | wordsearchgame/wordsearch.py:63-78 | `y` is listed for `x` iff `x` is listed for `y` |
| `Graph.NoSelfLoop` | wordsearchgame/wordsearch.py:63-78 | no cell is its own neighbour |
| `Graph.NearDistinct` | wordsearchgame/wordsearch.py:69-78 | no neighbour is listed twice |
| `Graph.NearAllInside` | wordsearchgame/wordsearch.py:69-78 | when every tried offset is inside the grid, each one is listed |
| `Graph.InteriorHasEight` | wordsearchgame/wordsearch.py:63-78 | an interior cell has 8 neighbours |
| `Graph.CornerHasThree` | wordsearchgame/wordsearch.py:63-78 | the top-left corner of a grid of at least 2 x 2 has 3, in the order tried |
| `Graph.TopEdgeHasFive` | wordsearchgame/wordsearch.py:63-78 | a top-edge cell away from the corners has 5, in the order tried |
| `Graph.NearStep` | wordsearchgame/wordsearch.py:69-78 | each tried offset adds one entry exactly when it lands inside the grid |
| `Graph.NeighbourCount` | wordsearchgame/wordsearch.py:63-78 | any grid cell has (in-range rows around it) x (in-range columns around it) - 1 neighbours |
| `Graph.CornersHaveThree` | wordsearchgame/wordsearch.py:63-78 | each of the four corners of a grid of at least 2 x 2 has 3 neighbours |
| `Graph.BorderHasFive` | wordsearchgame/wordsearch.py:63-78 | every border cell that is not a corner, in a grid of at least 3 x 3, has 5 neighbours |
| `Graph.WhichCellsAreKeys` | wordsearchgame/wordsearch.py:63-78 | every cell gets an entry unless the grid is 1 x 1 |
| `Selection.Line` | wordsearchgame/final.py:241-252 | the segment between two aligned grid cells stays in the grid and has `max(|Δrow|, |Δcol|) + 1` letters |
| `Selection.SelectedRow` | wordsearchgame/final.py:229-234 | the row branch reads the segment from the start toward the end, reversing the slice when the end is to the left |
| `Selection.SelectedColumn` | wordsearchgame/final.py:235-240 | the column branch reads the segment from the start toward the end |
| `Selection.SelectedDiagonal` | wordsearchgame/final.py:241-252 | each of the four diagonal branches reads the segment from the start toward the end |
| `Selection.SelectedIsLine` | wordsearchgame/final.py:229-254 | the branches read the segment for aligned cells and nothing otherwise |
| `Selection.FindSelectedWord` | wordsearchgame/final.py:223-254 | `find_selected_word` is `""` iff an endpoint is missing or the endpoints share no row, column or diagonal; otherwise it is the `max(|Δrow|, |Δcol|) + 1` letters from start to end |
| `Selection.LineReversedAt` | wordsearchgame/final.py:223-254 | letter `i` read from the end is letter `Dist - i` read from the start |
| `Selection.LineReversed` | wordsearchgame/final.py:223-254 | the segment read from the other end is the same letters reversed |
| `Selection.SelectionReversed` | wordsearchgame/final.py:223-254 | swapping the endpoints reverses the selected word |
| `Selection.SegmentRow` | wordsearchgame/final.py:589-596 | the row branch collects exactly the segment's cells |
| `Selection.SegmentColumn` | wordsearchgame/final.py:597-604 | the column branch collects exactly the segment's cells |
| `Selection.SegmentDiagonal` | wordsearchgame/final.py:605-620 | the diagonal branches collect exactly the segment's cells |
| `Selection.SegmentSetIsSegment` | wordsearchgame/final.py:589-620 | the branches collect the segment's cells for aligned endpoints and nothing otherwise |
| `Selection.CellsBetween` | wordsearchgame/final.py:583-621 | `get_cells_between` is empty iff an endpoint is missing or the endpoints are not aligned; otherwise it is exactly the segment's cells |
| `Selection.WordMatchesCells` | wordsearchgame/final.py:583-621 | each cell `get_cells_between` returns is in the grid and holds the letter of `find_selected_word` at that cell's distance from the start |
| `Selection.CellsOfWord` | wordsearchgame/final.py:583-621 | conversely, for aligned endpoints the cell under each letter of `find_selected_word` is one `get_cells_between` returns, so the two describe the same cells |
| `Selection.CellsBetweenSymmetric` | wordsearchgame/final.py:583-621 | `get_cells_between` gives the same set whichever endpoint comes first |
| `Tracing.IsAdjacent` | wordsearchgame/wordsearch.py:274-277 | `is_adjacent` is true iff the cells are at Chebyshev distance 1, so it is symmetric and irreflexive |
| `Tracing.AdjacentIsGraphEdge` | wordsearchgame/wordsearch.py:274-277 | the cells a click may continue to are exactly the neighbours `build_graph` lists |
| `Tracing.DirectionIsStep` | wordsearchgame/wordsearch.py:397 | every scan direction is a single non-zero king move |
| `Tracing.RayDistinct` | wordsearchgame/wordsearch.py:403-410 | along a scan direction no cell is met twice |
| `Tracing.FirstFrom` | wordsearchgame/wordsearch.py:399-411 | the position the row-major, direction-order scan stops at is a grid cell and a direction from which the whole word reads |
| `Tracing.FirstFromFirst` | wordsearchgame/wordsearch.py:399-411 | no earlier position in scan order holds an occurrence |
| `Tracing.FirstFromNone` | wordsearchgame/wordsearch.py:399-414 | when the scan finds nothing, no position at or after its start holds an occurrence |
| `Tracing.FirstFromSpec` | wordsearchgame/wordsearch.py:399-414 | the scan finds nothing iff the word reads nowhere; otherwise it finds the first occurrence |
| `Tracing.LowerRay` | wordsearchgame/wordsearch.py:409-410 | the lower-casing loop lower-cases exactly the word's cells and nothing else |
| `Tracing.ScanAt` | wordsearchgame/wordsearch.py:402-413 | the length loop matches iff the whole word reads from the cell along the direction |
| `Tracing.HighlightWord` | wordsearchgame/wordsearch.py:394-414 | `highlight_word` lower-cases exactly the cells of the first occurrence in scan order, and leaves the grid unchanged when there is none |
| `Tracing.HighlightedReadsLower` | wordsearchgame/wordsearch.py:408-411 | after highlighting, the first occurrence reads as the word in lower case |
| `Tracing.EntryFor` | wordsearchgame/wordsearch.py:433-435 | the chosen-list loop returns a definition paired with the word in the list, and none iff no entry names the word |
| `Tracing.LookupEntry` | wordsearchgame/wordsearch.py:433-435 | the loop over the chosen list returns the first entry's definition for the word |
| `Tracing.EntryForSkip` | wordsearchgame/wordsearch.py:433-435 | entries before the first match do not change the result |
| `Tracing.MatchAlong` | wordsearchgame/wordsearch.py:428-437 | a match along a direction is a straight read from the start that the trie holds and the chosen list contains |
| `Tracing.RayBound` | wordsearchgame/wordsearch.py:430 | a walk from a grid cell leaves the grid within `rows + cols` steps |
| `Tracing.MatchAlongFirst` | wordsearchgame/wordsearch.py:428-437 | a match along a direction is the shortest qualifying prefix, with the first definition the chosen list gives it; no match means no prefix that stays in the grid is both in the trie and named by the list |
| `Tracing.Walk` | wordsearchgame/wordsearch.py:428-437 | the `while` walk from `start` equals `MatchAlong` from length 1, so by `Tracing.MatchAlongFirst` it returns the first prefix that the trie holds and the chosen list names, or nothing |
| `Tracing.SelectFrom` | wordsearchgame/wordsearch.py:425-438 | a result `(w, d)` has `search(w)` true and `(w, d)` in the chosen list, and `w` is a non-empty straight read from the start along one of the eight directions |
| `Tracing.OutsideSelectsNothing` | wordsearchgame/wordsearch.py:430 | a start outside the grid gives `(None, None)` |
| `Tracing.FirstSome` | wordsearchgame/wordsearch.py:425-438 | the position returned holds the first present entry from `k` on, and every entry before it is absent |
| `Tracing.SelectFromIsFirst` | wordsearchgame/wordsearch.py:425-438 | the direction loop returns the first present entry of the per-direction matches |
| `Tracing.SelectFromFirst` | wordsearchgame/wordsearch.py:425-438 | the result is the match of the first direction that has one; every earlier direction has none, and the result is nothing exactly when no direction matches |
| `Tracing.FindSelectedWord` | wordsearchgame/wordsearch.py:420-438 | the whole loop nest, the unused `i`/`j` loops included, returns the first direction's first match (by `Tracing.SelectFromFirst` and `Tracing.MatchAlongFirst`); a result is in the trie and the chosen list, and the start is a grid cell |

## Left out

- Rendering, input polling and timing are not modelled. This covers all pygame code:
  drawing, `blink_cell`, `handle_user_input`, `wrap_text`, and the event and timer loops
  of both `main` functions. These are outside the puzzle logic.
- The Flask and HTTP side is not modelled: `send_word_to_flask` and all of `app.py`.
  Both are network glue.
- The console-only functions `print_trie`, `print_trie_path` and `display_grid` are not
  modelled.
- The random number generator is not modelled. Its outcomes are the oracles `shuffle`,
  `coin` and `pick`, and no seed or determinism is assumed.
- Csp.Search: `shuffle(k)` is not required to be a permutation of the grid's cells. None
  of the stated properties needs it. The per-anchor bound of 6 candidates gives
  `6 * rows * cols` only when the shuffle is such a permutation.
- Fill.Letter: `random.choice(string.ascii_uppercase)` is modelled as the letter at
  position `pick(k) mod 26`.
- Selection.FindSelectedWord: both endpoints, when present, must be grid cells. For
  endpoints off the grid, Python's slice clamping, negative indexing and `IndexError` are
  not modelled. `get_cells_between` (`Selection.CellsBetween`) has no such requirement.
- Tracing.Lower: `str.lower()` is modelled only for `A` to `Z`. Other characters stay as
  they are, so Unicode case mapping is left out. The grid holds only `A` to `Z`, their
  lower-case forms after highlighting, and blanks. On those characters `Lower` agrees
  with `str.lower()`.
- Graph.BuildGraph: the map does not record the order in which keys are inserted. Each
  neighbour list keeps its order.
- Trie.GetAllWords: it requires the well-formedness the insert-only construction keeps.
  `Trie.BuildValid` and `PlainTrie.BuildValid` show that every trie the games build has it.
- FixedCsp.Search: its read-back guarantee covers only words with no blank letter. A
  blank letter in an earlier word can legitimately be overwritten by a later one.

## Findings

| source | as written | input that shows it | evidently intended | confidence | as-written member | corrected member |
|---|---|---|---|---|---|---|
| wordsearchgame/final.py:135-154 | the check compares cell `i` with `word[i]`, but with `a == 0` the write puts `word[-i - 1]` there | grid row `"A "`; `"AB"` at (0, 0), horizontal, orientation 1, `a == 0`: the check passes and the write puts `'B'` over `'A'` | check the letters that will actually be written, so that a write never changes an existing letter | not executed | `Placement.MirroredAssignOverwrites` | `Placement.PlaceKeepsLetters` |
| wordsearchgame/final.py:157-162 | for 'vertical', the undo blanks the horizontal run `(node[0], node[1] + i * orientation)` | blank 2 x 2 grid; `"AB"` written down from (0, 0), then undone: `'B'` stays at (1, 0) | undo the cells the write used | not executed | `Placement.VerticalUndoLeavesLetter` | `Placement.UnassignExactUndoesPlace` |
| wordsearchgame/final.py:156-168 | the undo sets every path cell to `' '`, even cells that held letters before the write | grid row `"A "`; `"AB"` placed at (0, 0) horizontally over the existing `'A'`, then undone: (0, 0) is blank | restore each path cell to what it held before, so a failed branch gives back the grid it started from | not executed | `Placement.UndoErasesEarlierLetter` | `FixedCsp.Search` |
| wordsearchgame/final.py:126-130 | 'diagonal' moves row and column by the same signed step, so no word is placed from lower-left to upper-right | any anchor: the first step of every placement differs from (row + 1, col - 1) and (row - 1, col + 1) | place words along both diagonals, as the selection helpers read them | not executed | `Placement.NoAntiDiagonalStep` | `Placement.EveryStepReachable` |
