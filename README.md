# Sudoku solver with naked twins and diagonals — a Dafny model

This project models `solution.py`, a constraint-propagation Sudoku solver for
the classic 9x9 puzzle with the "diagonal Sudoku" rule switched on. Its parts:

- **Board geometry.** There are 81 boxes named `A1` .. `I9`. There are 29
  units: 9 rows, 9 columns, 9 3x3 squares and the two main diagonals. Each
  box has a set of peers: the other boxes it shares a unit with.
- **The candidate map.** The `values` dictionary maps every box to the
  string of digits still possible there.
- **`grid_values`.** Turns an 81-character puzzle string into that map.
  A `.` becomes `"123456789"`.
- **`assign_value`.** The guarded single-box update that records a
  snapshot in the global `assignments` trail.
- **Three propagation rules.** Each one rewrites the map in place:
  - `eliminate`: a solved box's digit is removed from its peers.
  - `only_choice`: a digit held by only one box of a unit is placed there.
  - `naked_twins`: two boxes of a unit holding the same two digits remove
    those digits from the rest of the unit.
- **`reduce_puzzle`.** Repeats the three rules until a pass leaves the
  number of solved boxes unchanged.
- **`search` and `solve`.** A depth-first search. It guesses on the first
  box, in `boxes` order, with the fewest candidates among the unsolved ones.
  Guesses go in candidate-string order, each on a copy of the map. The first
  success is returned.

Modelling choices:

- A box is its position 0..80 in `boxes`, which is row-major. `Topology.Name`
  gives the source's two-character key.
- The units are built twice:
  - from names, exactly as the source builds them with `cross` and `zip`;
  - as lists of positions.
  - `Topology.UnitNamesAgree` proves that the two agree.
- The `values` dictionary always has the 81 names as keys, in `boxes` order.
  - The imperative methods (`Eliminate`, `OnlyChoice`, `NakedTwins`,
    `ReducePuzzle`, `Search`) hold it as an `array<string>` of length 81 and
    update it in place, as the source does.
  - Each method is proved equal to a specification function on
    `seq<string>`. That function folds the source's loops step by step, and
    the properties are proved about it.
- `False` results are `None` of an `Option`.
- The module `Solutions` defines a completed board independently of the
  solver: one digit 1-9 per box and no two peers alike. The solver is proved
  against it in both directions:
  - `Search.SolveSound`: what `solve` returns is such a board and keeps the clues;
  - `Search.SolveComplete`: `solve` does not return `False` when such a board exists.

  Completeness rests on each rule keeping any completed board that lies
  within the candidates within them (the `...KeepsSolution` lemmas).

The sanity check in `reduce_puzzle` (`solution.py:123`) iterates over the
dictionary's keys. The keys are box names and never empty, so the check never
fires. The model keeps the check exactly as written and proves that it cannot
fire. A box emptied by propagation is caught later instead:
- `search` gives it the `min` key 0, so it is chosen;
- its empty candidate string gives no guesses, so that branch returns `False`.

`Search.EmptyBoxChosen` and `Search.EmptyBoxFails` state this.

Modules, one file each:

| file | module | source |
|---|---|---|
| topology.dfy | `Topology` | names, units, `units`, `peers` |
| grid.dfy | `Grid` | candidate strings, `grid_values`, `assign_value`, dictionary copy |
| eliminate.dfy | `Elimination` | `eliminate` |
| only_choice.dfy | `OnlyChoiceRule` | `only_choice` |
| naked_twins.dfy | `NakedTwinsRule` | `non_duplicate_pairs`, `naked_twins` |
| reduce.dfy | `Reduction` | `reduce_puzzle` |
| solutions.dfy | `Solutions` | what a solved board is: the reference the solver is judged by |
| search.dfy | `Search` | `search`, `solve` |

## Model

| member | source | states |
|---|---|---|
| Topology.Cross | solution.py:11-12 | `cross(a, b)` has `len(a) * len(b)` names |
| Topology.CrossAt | solution.py:11-12 | the name at position `i * len(b) + j` of `cross(a, b)` is `a[i]` followed by `b[j]`: the loop over `a` is the outer one |
| Topology.BoxesRowMajor | solution.py:14 | `boxes` holds 81 names; the name at position `9r + c` is row letter `r` followed by column digit `c` (A1, A2, ..., I9); no name occurs twice |
| Topology.NameInjective | solution.py:14 | two different boxes have different names |
| Topology.UnitNamesAgree | solution.py:16-23 | `unitlist` built from names has 29 units of 9 names each; each name is the name of the box at the same place in the position-based unit list |
| Topology.RowUnitName | solution.py:16 | the k-th name of row unit r is row letter r followed by column digit k |
| Topology.ColumnUnitName | solution.py:17 | the k-th name of column unit c is row letter k followed by column digit c |
| Topology.SquareUnitName | solution.py:18 | the k-th name of square unit s lies in band `s / 3` and stack `s % 3`, row-major within the square |
| Topology.DiagonalUnitName | solution.py:19-20 | the k-th names of the two diagonal units are `(rows[k], cols[k])` and `(rows[k], cols[8 - k])` |
| Topology.UnitListShape | solution.py:22-23 | with the diagonal switch on there are 29 units, each of 9 distinct boxes |
| Topology.InRowUnit | solution.py:16 | a box is in row unit r exactly when its row is r |
| Topology.InColumnUnit | solution.py:17 | a box is in column unit c exactly when its column is c |
| Topology.InSquareUnit | solution.py:18 | a box is in square unit s exactly when its band and stack make s |
| Topology.InDiagonals | solution.py:19-20 | a box is in the first diagonal exactly when row = column, and in the second exactly when row + column = 8 |
| Topology.UnitsContaining | solution.py:25 | `units[s]` holds exactly the units of `unitlist` that contain `s` |
| Topology.Flatten | solution.py:26 | `sum(units[s], [])` holds exactly the boxes of those units |
| Topology.Peers | solution.py:25-26 | `peers[s]` is exactly the boxes other than `s` that share a unit with `s` |
| Topology.PeersIrreflexiveSymmetric | solution.py:26 | no box is its own peer, and `a` is a peer of `b` exactly when `b` is a peer of `a` |
| Topology.UnitMembersArePeers | solution.py:22-26 | any two different boxes of one unit are peers |
| Topology.SharesUnitByCoordinates | solution.py:16-26 | two boxes share a unit exactly when they share a row, a column or a square, or both lie on the same diagonal |
| Topology.PeerListDistinct | solution.py:26 | the listed peers of a box (8 in its row, 8 in its column, 4 more in its square) are 20 different boxes |
| Topology.PeerListComplete | solution.py:26 | for a box on neither diagonal, the listed boxes are exactly its peers |
| Topology.PeerCountOffDiagonals | solution.py:26 | a box on neither diagonal has exactly 20 peers |
| Grid.Replace | solution.py:97 | a character is in `s.replace(d, '')` exactly when it is in `s` and is not `d`; the string gets shorter exactly when `d` was in it (order: `Grid.ReplaceKeepsOrder`) |
| Grid.ReplaceKeepsOrder | solution.py:97 | `replace` keeps the remaining characters in their order, so an ascending candidate string stays ascending |
| Grid.RemoveDigits | solution.py:67-68 | after removing each digit of `ds` in turn, a character is in the result exactly when it is in `s` and not in `ds` |
| Grid.RemoveDigitsKeepsOrder | solution.py:67-68 | removing the digits one after another keeps an ascending string ascending |
| Grid.GridValues | solution.py:81 | `grid_values`: box i maps to `grid[i]` when that is not `.` and to `"123456789"` when it is; the map has `min(len(grid), 81)` boxes, since `zip` stops at the shorter side and no check is made |
| Grid.GridValuesRoundTrip | solution.py:71-81 | `grid_values` and rendering a map back to a puzzle string are inverse between well-formed puzzle strings and fresh maps |
| Grid.FreshIsBounded | solution.py:81 | a map made by `grid_values` holds 1 to 9 candidates per box |
| Grid.FreshIsAscending | solution.py:81 | a map made by `grid_values` holds every box's candidates in ascending order |
| Grid.SolvedFromFresh | solution.py:81 | a fully solved map reached from a `grid_values` map by removals holds a digit in every box and keeps every clue |
| Grid.ShrinkingTotals | solution.py:108-125 | removing candidates never raises the total candidate count; when the total stays the same, so does the number of solved boxes |
| Grid.SingletonChangeLowersTotal | solution.py:112-121 | a pass that changed the solved-box count lowered the total candidate count (the termination measure of the `while not stalled` loop) |
| Grid.SingletonCount | solution.py:112 | the solved-box count is at most 81, and is 81 exactly when every box is solved |
| Grid.TotalUpdate | solution.py:144 | setting one box changes the total by the difference in that box's size |
| Grid.Trail.constructor | solution.py:6 | `assignments` starts empty |
| Grid.AssignValue | solution.py:28-41 | if the box already holds `value`, the map and the trail are unchanged; otherwise only that box changes, and a snapshot of the new map is appended exactly when `value` has one character; the same map is returned |
| Grid.Copy | solution.py:143 | `values.copy()` is a new map with the same contents |
| Elimination.Eliminate | solution.py:93-98 | the in-place loop over `boxes` and `peers[box]` ends in the state of the pass function `Eliminated`, whatever order the peer set is walked in |
| Elimination.ClearPeersShrinks | solution.py:96-97 | clearing one solved box's digit from its peers only removes candidates, and leaves that box alone |
| Elimination.EliminatedUpToSound | solution.py:94-97 | after each box of the loop, every box's candidates are within its old ones, and every removed digit is held alone by some peer |
| Elimination.EliminationSound | solution.py:93-98 | `eliminate` only removes candidates; a digit is removed from a box only if some peer of that box ends the pass holding that digit alone, or nothing |
| Elimination.EliminatedUpToShrinksFrom | solution.py:94-97 | later steps of the loop only remove candidates |
| Elimination.EliminationClearsReachedBox | solution.py:95-97 | a box that holds one digit when the loop reaches it has that digit removed from every peer, and the peers never get it back in the pass |
| Elimination.EliminationClearsSolvedBox | solution.py:93-98 | `eliminate` does its job: a box that holds one digit before and after the pass has had that digit removed from every peer |
| Elimination.EliminationKeepsOrder | solution.py:93-98 | `eliminate` keeps every box's candidates in ascending order |
| Elimination.EliminationKeepsUnpressedBox | solution.py:93-98 | a box whose peers all end the pass with two or more candidates is left exactly as it was |
| Elimination.ClearPeersKeepsSolution | solution.py:95-97 | clearing a solved box's digit from its peers keeps any solution that lies within the candidates within them, because the solution puts that digit in that box |
| Elimination.EliminationKeepsSolution | solution.py:93-98 | `eliminate` loses no solution: a solution within the candidates before the pass is within them after it |
| Elimination.EmptyBoxStays | solution.py:94-97 | a box emptied during the pass stays empty |
| Elimination.EliminatedUpToSolved | solution.py:94-97 | on a fully solved map, the first k loop steps change nothing when none of the first k boxes agrees with a peer, and otherwise empty some box |
| Elimination.EliminationOnSolvedBoard | solution.py:93-98 | on a fully solved map, `eliminate` changes nothing when no two peers agree, and otherwise empties some box |
| OnlyChoiceRule.HoldersMembers | solution.py:103 | `boxes_with_digit` holds exactly the boxes of the unit whose candidates include the digit |
| OnlyChoiceRule.OnlyChoice | solution.py:100-106 | the in-place loop over units and digits ends in the state of the pass function `OnlyChosen` |
| OnlyChoiceRule.OnlyChoiceInUnit | solution.py:102-105 | the in-place digit loop for one unit ends in the state of `UnitChosenUpTo` after all nine digits |
| OnlyChoiceRule.OnlyChoiceKeepsOrder | solution.py:100-106 | `only_choice` keeps every box's candidates in ascending order, since it only sets a box to one digit |
| OnlyChoiceRule.OnlyChoiceStepKeepsSolution | solution.py:102-105 | the only box of a unit that can still hold a digit is where a board within the candidates puts that digit, so one step keeps that board within the candidates |
| OnlyChoiceRule.OnlyChoiceKeepsSolution | solution.py:100-106 | `only_choice` loses no completed board that lies within the candidates |
| OnlyChoiceRule.OnlyChoiceStepSound | solution.py:103-105 | one (unit, digit) step keeps the pass sound: boxes only lose candidates, and a changed box holds one digit that it held before and is the only holder of that digit in some unit |
| OnlyChoiceRule.OnlyChoiceSound | solution.py:100-106 | `only_choice` only removes candidates, and sets a box to `d` only if the box held `d` and is the sole holder of `d` in some unit |
| OnlyChoiceRule.OnlyChoiceOnSolvedBoard | solution.py:100-106 | on a fully solved map `only_choice` changes nothing |
| NakedTwinsRule.NonDuplicatePairsCount | solution.py:43-46 | a list of n elements yields n(n-1)/2 pairs |
| NakedTwinsRule.NonDuplicatePairsMembers | solution.py:43-46 | the pairs yielded are exactly `(lst[i], lst[j])` with `i < j` |
| NakedTwinsRule.NonDuplicatePairsDistinct | solution.py:43-46 | on a list without repeats, no pair is yielded twice |
| NakedTwinsRule.TwinFilterMembers | solution.py:58-61 | the comprehension keeps exactly the pairs that satisfy the twin condition |
| NakedTwinsRule.TwinsMembers | solution.py:57-61 | `(f, s)` is a twin pair of a unit exactly when f comes before s in the unit, both hold the same string, and that string has two characters |
| NakedTwinsRule.NakedTwins | solution.py:48-69 | the in-place loop over units (`boxes` is the current unit), twin pairs, boxes and digits ends in the state of the pass function `TwinsCleared` |
| NakedTwinsRule.StripDigits | solution.py:67-68 | the digit loop changes only the one box, to its candidates with the pair's digits removed |
| NakedTwinsRule.PairClearedUpToSpec | solution.py:64-68 | part way through the box loop for a pair, the pair's boxes and every box outside the unit are unchanged, and the other unit boxes lose exactly the pair's digits |
| NakedTwinsRule.PairClearedSpec | solution.py:62-68 | the elimination for a twin pair never changes either of the pair's boxes, changes nothing outside the unit, and removes exactly the pair's digits from the other boxes of the unit |
| NakedTwinsRule.TwinsClearedUpToSpec | solution.py:63-68 | the twin-pair loop of a unit only removes candidates, and only inside the unit |
| NakedTwinsRule.UnitTwinsClearedSpec | solution.py:56-68 | handling one unit only removes candidates, and only inside that unit |
| NakedTwinsRule.NakedTwinsShrinks | solution.py:48-69 | `naked_twins` only removes candidates |
| NakedTwinsRule.NakedTwinsKeepsOrder | solution.py:48-69 | `naked_twins` keeps every box's candidates in ascending order |
| NakedTwinsRule.TwinDigitsTaken | solution.py:57-61 | a solution within the candidates puts a twin pair's two digits in the pair's two boxes, so no other box of the unit holds either |
| NakedTwinsRule.PairClearedUpToKeepsSolution | solution.py:63-68 | clearing a twin pair's digits from the rest of the unit keeps a solution within the candidates, even after earlier pairs have shrunk the board |
| NakedTwinsRule.NakedTwinsKeepsSolution | solution.py:48-69 | `naked_twins` loses no solution that lies within the candidates |
| NakedTwinsRule.NoTwinsOnSolvedBoard | solution.py:58-61 | on a fully solved map no pair is a twin pair |
| NakedTwinsRule.NakedTwinsOnSolvedBoard | solution.py:48-69 | on a fully solved map `naked_twins` changes nothing |
| Reduction.PassShrinks | solution.py:114-116 | one pass of `eliminate`, `only_choice` and `naked_twins` only removes candidates |
| Reduction.PassKeepsOrder | solution.py:114-116 | one pass keeps every box's candidates in ascending order |
| Reduction.PassKeepsSolution | solution.py:114-116 | one pass of the three rules loses no completed board within the candidates |
| Reduction.ReducedKeepsSolution | solution.py:108-125 | `reduce_puzzle` does not return `False` and loses no completed board within the candidates |
| Reduction.ReducedKeepsOrder | solution.py:108-125 | `reduce_puzzle` keeps every box's candidates in ascending order |
| Reduction.FalsyKeys | solution.py:123 | the generator of the sanity check yields only empty strings |
| Reduction.KeysAreBoxes | solution.py:123 | the keys the check walks are `boxes` |
| Reduction.ContradictionCheckNeverFires | solution.py:123 | the sanity check is false for every list of keys, so `reduce_puzzle` never returns `False` from it |
| Reduction.ReducePuzzle | solution.py:108-125 | the in-place `while not stalled` loop returns the same map it was given, in the state of the function `Reduced` (which terminates on the total candidate count) |
| Reduction.NoEmptyBoxBefore | solution.py:123 | a map that removals turn into a fully solved one has no empty box |
| Reduction.StalledPassSound | solution.py:110-121 | when the last pass leaves every box solved without changing the solved count, the map was already solved, no two peers agree, and the pass changed nothing |
| Reduction.ReducedSound | solution.py:108-125 | `reduce_puzzle` never returns `False` and only removes candidates; when it leaves every box solved, no two peers hold the same digit |
| Reduction.ReducedFixedPoint | solution.py:108-125 | a map that one pass leaves unchanged is returned as it is |
| Reduction.ReducedSolvedBoard | solution.py:108-125 | a solved map whose peers all differ is returned as it is |
| Search.MinKeyBox | solution.py:137-140 | `min` over the boxes with the given key returns the first box of least key |
| Search.GuessBoxIsFewestUnsolved | solution.py:136-140 | on an unsolved map, the box chosen to guess is unsolved; no unsolved box has fewer candidates; every unsolved box before it has more |
| Search.EmptyBoxChosen | solution.py:137-140 | a box with no candidates left has key 0 and is the one chosen |
| Search.SearchResultUnfold | solution.py:130-140 | after `reduce_puzzle`, a fully solved map is returned, and otherwise the guess loop runs on an unsolved box |
| Search.TryGuessesStep | solution.py:142-147 | each child map has a smaller total candidate count (so the recursion terminates); the loop returns the child's result when it is not `False` and goes on otherwise |
| Search.Search | solution.py:127-148 | the recursive search on arrays, with its in-place reduction, guess loop and early return, returns what the function `SearchResult` describes and leaves the caller's map reduced in place |
| Search.SearchWithGuess | solution.py:143-145 | one guess copies the map, sets the guessed box to the guessed digit, and searches the copy; the result is `SearchResult` of that child map |
| Search.Solve | solution.py:150-159 | `solve(grid)` is `search(grid_values(grid))` |
| Search.SearchSound | solution.py:127-148 | whatever `search` returns is fully solved, has no two peers holding the same digit, and keeps within the candidates it was given |
| Search.TryGuessesSound | solution.py:142-148 | whatever the guess loop returns is such a solution within the candidates of the guessed-on map |
| Search.TryGuessesAllFail | solution.py:142-148 | the guess loop returns `False` exactly when every guess's search returns `False` |
| Search.TryGuessesFirstSuccess | solution.py:142-147 | guesses are tried in candidate-string order, and the loop returns the result of the first guess whose search does not return `False` |
| Search.GuessesAscending | solution.py:137-147 | starting from ascending candidates, the reduced map keeps every box ascending, so the guesses run in ascending digit order, and every child map keeps every box ascending |
| Search.LeastSuccessfulGuess | solution.py:142-147 | with ascending candidates, the guess loop returns the result for the smallest candidate digit whose search does not return `False`; every smaller candidate's search returned `False` |
| Search.EmptyBoxFails | solution.py:131-148 | when `reduce_puzzle` leaves an empty box, `search` returns `False`: that box is chosen and has no guesses |
| Search.SolvedBoardReturned | solution.py:127-134 | a solved map whose peers all differ is returned unchanged |
| Search.SolveSound | solution.py:150-159 | whatever `solve` returns is a solution, with a digit 1-9 in every box, that keeps every clue of the puzzle |
| Solutions.UnitDigitsDistinct | solution.py:22-26 | in a solution, the nine boxes of any unit hold nine different digits |
| Solutions.SolutionFillsUnit | solution.py:16-26 | in a completed board (a solution with digits 1-9), every unit holds each digit exactly once |
| Search.SolveFillsUnits | solution.py:150-159 | whatever `solve` returns holds each digit 1-9 exactly once in every one of the 29 units, the two diagonals included |
| Search.SearchComplete | solution.py:127-148 | `search` is complete: when a completed board lies within the candidates, `search` does not return `False` |
| Search.TryGuessesComplete | solution.py:142-148 | the guess loop does not return `False` while the digit a completed board within the candidates puts in the guessed box is still to be tried |
| Search.SolveComplete | solution.py:150-159 | `solve` returns a board for every well-formed puzzle that has a solution keeping its clues |
| Search.SolveDecides | solution.py:150-159 | "False if no solution exists": `solve` returns a board exactly when the puzzle has a solution, and the board it returns is one |
| Search.ClashingCluesFail | solution.py:150-159 | a puzzle with the same clue in two peers makes `solve` return `False` |

## Left out

- `display` (`solution.py:83-91`) is not modelled. It only prints, and as written it slices a dictionary, which fails.
- The `__main__` block and the `visualize` module (`solution.py:161-170`) are not modelled. They do console I/O and call code that is not part of this model.
- `ENABLE_DIAGONAL` is a constant fixed to `true`, as in the source. Switching it at run time is not modelled.
- Input validation is not modelled, because `solve` does none.
  - `grid_values` is modelled for every string, short or long.
  - `Solve` requires an 81-character string of digits and `.`, which is what its callers pass.
- Python dictionary identity is modelled only where the source relies on it:
  - the propagation rules update the caller's map in place;
  - `reduce_puzzle` returns the map it was given;
  - `search` guesses on copies.

  Other aliasing is not modelled.
- The iteration order of the Python set `peers[box]` is left open: the loop takes any remaining peer. The result of `eliminate` does not depend on that order.
- Search.Search: requires every candidate string to be shorter than `0xFFFFFF` characters. This is the `min` key of a solved box. The source's maps never come near that size, and without the bound a solved box could be chosen, which would recurse forever.
- `solve` never calls `assign_value`, so the search does not touch the `assignments` trail. `Grid.AssignValue` models the trail write on its own.
- Reduction.ReducedFixedPoint: idempotence of `reduce_puzzle` is proved only for maps that one pass leaves unchanged. In general, a second call can still change a map, because the loop stops when the solved count stalls, not when the map stops changing.
