/** `search` and `solve`: depth-first search over guesses.  After reducing, a
    board that is not solved branches on the first box (in `boxes` order) with
    the fewest candidates among the unsolved ones, trying its candidates in
    the order of its candidate string on copies of the board, and returns the
    first success. */
module Search {
  import opened Topology
  import opened Grid
  import opened Solutions
  import opened Elimination
  import opened Reduction

  // ---------------------------------------------------------------------------
  // Choosing the box to guess

  /** The `min` key: a box's candidate count, or `0xFFFFFF` when it is
      solved. */
  function Key(s: string): (k: nat)
  {
    if |s| != 1 then |s| else SolvedKey
  }

  /** `min` over the first n boxes: the first of least key. */
  function MinKeyBox(v: Values, n: nat): (b: Box)
    requires |v| == 81 && 1 <= n <= 81
    ensures b < n
    ensures forall i :: 0 <= i < n ==> Key(v[b]) <= Key(v[i])
    ensures forall i :: 0 <= i < b ==> Key(v[b]) < Key(v[i])
  {
    if n == 1 then 0
    else
      var b := MinKeyBox(v, n - 1);
      if Key(v[n - 1]) < Key(v[b]) then n - 1 else b
  }

  /** On a board that is not solved, with every box shorter than the solved
      key, the chosen box is unsolved, no unsolved box has fewer candidates,
      and every unsolved box before it has more. */
  lemma GuessBoxIsFewestUnsolved(v: Values)
    requires |v| == 81 && Bounded(v) && !AllSingletons(v)
    ensures var b := MinKeyBox(v, 81);
      && |v[b]| != 1
      && (forall i :: 0 <= i < 81 && |v[i]| != 1 ==> |v[b]| <= |v[i]|)
      && (forall i :: 0 <= i < b && |v[i]| != 1 ==> |v[b]| < |v[i]|)
  {
    var b := MinKeyBox(v, 81);
    var u :| 0 <= u < 81 && |v[u]| != 1;
    assert Key(v[b]) <= Key(v[u]) < SolvedKey;
  }

  /** A box with no candidates left has key 0 and is chosen first. */
  lemma EmptyBoxChosen(v: Values)
    requires |v| == 81 && HasEmptyBox(v)
    ensures v[MinKeyBox(v, 81)] == []
  {
    var e: Box :| v[e] == [];
    assert Key(v[e]) == 0;
  }

  // ---------------------------------------------------------------------------
  // The search

  /** `search(values)`: `None` stands for `False`.  Every box must stay shorter
      than the solved key, so that the chosen box is never a solved one. */
  function SearchResult(v: Values): (r: Option<Values>)
    requires |v| == 81 && Bounded(v)
    ensures r.Some? ==> |r.value| == 81
    decreases Total(v), 1, 0
  {
    match Reduced(v)
    case None => None
    case Some(w) =>
      if AllSingletons(w) then Some(w)
      else
        ReducedSound(v);
        ShrinkingTotals(v, w);
        GuessBoxIsFewestUnsolved(w);
        var b := MinKeyBox(w, 81);
        TryGuesses(w, b, w[b])
  }

  /** The `for guess in ...` loop from the guess `gs[0]` on. */
  function TryGuesses(w: Values, b: Box, gs: string): (r: Option<Values>)
    requires |w| == 81 && Bounded(w) && (|w[b]| >= 2 || gs == [])
    ensures r.Some? ==> |r.value| == 81
    decreases Total(w), 0, |gs|
  {
    if gs == [] then None
    else
      var child := w[b := [gs[0]]];
      TotalUpdate(w, b, [gs[0]]);
      match SearchResult(child)
      case Some(r) => Some(r)
      case None => TryGuesses(w, b, gs[1..])
  }

  /** What `search` does after `reduce_puzzle`: return a solved board, or
      else guess on the chosen box, which is unsolved and, like every box,
      shorter than the solved key. */
  lemma SearchResultUnfold(v: Values)
    requires |v| == 81 && Bounded(v)
    ensures Reduced(v).Some?
    ensures var w := Reduced(v).value;
      && Bounded(w) && Total(w) <= Total(v)
      && (AllSingletons(w) ==> SearchResult(v) == Some(w))
      && (!AllSingletons(w) ==>
            && |w[MinKeyBox(w, 81)]| != 1
            && SearchResult(v) == TryGuesses(w, MinKeyBox(w, 81), w[MinKeyBox(w, 81)]))
  {
    ReducedSound(v);
    var w := Reduced(v).value;
    ShrinkingTotals(v, w);
    if !AllSingletons(w) {
      GuessBoxIsFewestUnsolved(w);
    }
  }

  /** One turn of the guess loop: the child board is smaller, and the loop
      returns the child's result when it is not `False` and goes on
      otherwise. */
  lemma TryGuessesStep(w: Values, b: Box, gs: string, i: nat)
    requires |w| == 81 && Bounded(w) && |w[b]| >= 2 && i < |gs|
    ensures Bounded(w[b := [gs[i]]]) && Total(w[b := [gs[i]]]) < Total(w)
    ensures TryGuesses(w, b, gs[i..]) ==
      if SearchResult(w[b := [gs[i]]]).Some? then SearchResult(w[b := [gs[i]]])
      else TryGuesses(w, b, gs[i + 1..])
  {
    TotalUpdate(w, b, [gs[i]]);
    assert gs[i..][0] == gs[i] && gs[i..][1..] == gs[i + 1..];
  }

  method Search(values: array<string>) returns (r: Option<array<string>>)
    requires values.Length == 81 && Bounded(values[..])
    modifies values
    ensures SearchResult(old(values[..])) == if r.Some? then Some(r.value[..]) else None
    ensures Reduced(old(values[..])).Some? && values[..] == Reduced(old(values[..])).value
    decreases Total(values[..]), 1
  {
    ghost var v := values[..];
    SearchResultUnfold(v);
    var reduced := ReducePuzzle(values);
    if reduced.None? {
      return None;
    }
    ghost var w := values[..];
    if AllSingletons(values[..]) {
      return Some(values);
    }
    var squareToGuess := MinKeyBox(values[..], 81);
    var guesses := values[squareToGuess];
    for i := 0 to |guesses|
      invariant values[..] == w
      invariant SearchResult(v) == TryGuesses(w, squareToGuess, guesses[i..])
    {
      TryGuessesStep(w, squareToGuess, guesses, i);
      var result := SearchWithGuess(values, squareToGuess, guesses[i]);
      if result.Some? {
        return result;
      }
    }
    return None;
  }

  /** One guess: search a copy of the map with the guessed box set to the
      guessed digit.  The map itself is left as it is. */
  method SearchWithGuess(values: array<string>, square: Box, guess: char)
    returns (r: Option<array<string>>)
    requires values.Length == 81 && Bounded(values[..]) && |values[square]| >= 2
    ensures Bounded(values[..][square := [guess]])
    ensures SearchResult(values[..][square := [guess]]) == if r.Some? then Some(r.value[..]) else None
    decreases Total(values[..]), 0
  {
    TotalUpdate(values[..], square, [guess]);
    var valuesWithGuess := Copy(values);
    valuesWithGuess[square] := [guess];
    assert valuesWithGuess[..] == values[..][square := [guess]];
    r := Search(valuesWithGuess);
  }

  /** `solve(grid)`. */
  method Solve(grid: string) returns (r: Option<array<string>>)
    requires WellFormed(grid)
    ensures SearchResult(GridValues(grid)) == if r.Some? then Some(r.value[..]) else None
  {
    GridValuesRoundTrip(grid, []);
    FreshIsBounded(GridValues(grid));
    var gridValues := GridValues(grid);
    var values := new string[81](i requires 0 <= i < 81 => gridValues[i]);
    assert values[..] == gridValues;
    r := Search(values);
  }

  // ---------------------------------------------------------------------------
  // What `search` guarantees

  /** Whatever `search` returns is a solution that keeps within the candidates
      it was given. */
  lemma {:induction false} SearchSound(v: Values)
    requires |v| == 81 && Bounded(v)
    ensures SearchResult(v).Some? ==>
      Solution(SearchResult(v).value) && Shrinks(v, SearchResult(v).value)
    decreases Total(v), 1, 0
  {
    ReducedSound(v);
    var w := Reduced(v).value;
    if !AllSingletons(w) {
      ShrinkingTotals(v, w);
      GuessBoxIsFewestUnsolved(w);
      var b := MinKeyBox(w, 81);
      TryGuessesSound(w, b, w[b]);
      if TryGuesses(w, b, w[b]).Some? {
        ShrinksTransitive(v, w, TryGuesses(w, b, w[b]).value);
      }
    }
  }

  lemma {:induction false} TryGuessesSound(w: Values, b: Box, gs: string)
    requires |w| == 81 && Bounded(w) && (|w[b]| >= 2 || gs == [])
    requires forall c :: c in gs ==> c in w[b]
    ensures TryGuesses(w, b, gs).Some? ==>
      Solution(TryGuesses(w, b, gs).value) && Shrinks(w, TryGuesses(w, b, gs).value)
    decreases Total(w), 0, |gs|
  {
    if gs != [] {
      var child := w[b := [gs[0]]];
      TotalUpdate(w, b, [gs[0]]);
      assert gs[0] in gs;
      assert Shrinks(w, child);
      SearchSound(child);
      if SearchResult(child).Some? {
        ShrinksTransitive(w, child, SearchResult(child).value);
      } else {
        assert forall c :: c in gs[1..] ==> c in gs;
        TryGuessesSound(w, b, gs[1..]);
      }
    }
  }

  /** The loop returns `False` exactly when every guess fails. */
  lemma {:induction false} TryGuessesAllFail(w: Values, b: Box, gs: string)
    requires |w| == 81 && Bounded(w) && |w[b]| >= 2
    ensures forall k :: 0 <= k < |gs| ==> Bounded(w[b := [gs[k]]])
    ensures TryGuesses(w, b, gs).None? <==>
      forall k :: 0 <= k < |gs| ==> SearchResult(w[b := [gs[k]]]).None?
  {
    if gs != [] {
      TryGuessesAllFail(w, b, gs[1..]);
      TryGuessesStep(w, b, gs, 0);
      assert gs[0..] == gs;
      forall k | 0 < k < |gs| ensures gs[k] == gs[1..][k - 1] {
      }
    }
  }

  /** The guesses are tried in order: what the loop returns from guess `i` on
      is the result of the first guess from `i` on that does not fail. */
  lemma {:induction false} TryGuessesFirstSuccess(w: Values, b: Box, gs: string, i: nat)
    requires |w| == 81 && Bounded(w) && |w[b]| >= 2 && i <= |gs|
    requires TryGuesses(w, b, gs[i..]).Some?
    ensures forall k :: 0 <= k < |gs| ==> Bounded(w[b := [gs[k]]])
    ensures exists k ::
      && i <= k < |gs|
      && SearchResult(w[b := [gs[k]]]) == TryGuesses(w, b, gs[i..])
      && forall j :: i <= j < k ==> SearchResult(w[b := [gs[j]]]).None?
    decreases |gs| - i
  {
    TryGuessesStep(w, b, gs, i);
    var r := TryGuesses(w, b, gs[i..]);
    if SearchResult(w[b := [gs[i]]]).Some? {
      assert SearchResult(w[b := [gs[i]]]) == r;
    } else {
      TryGuessesFirstSuccess(w, b, gs, i + 1);
      var k :| i + 1 <= k < |gs| && SearchResult(w[b := [gs[k]]]) == r
        && forall j :: i + 1 <= j < k ==> SearchResult(w[b := [gs[j]]]).None?;
      assert forall j :: i <= j < k ==> SearchResult(w[b := [gs[j]]]).None?;
    }
  }

  /** `search` is complete: when some completed board lies within the
      candidates, `search` does not return `False`.  The search keeps that
      board within the candidates through every reduction and, at each
      guess, tries the digit the board puts in the guessed box. */
  lemma {:induction false} SearchComplete(v: Values, s: Values)
    requires |v| == |s| == 81 && Bounded(v) && Completed(s) && Shrinks(v, s)
    ensures SearchResult(v).Some?
    decreases Total(v), 1, 0
  {
    SearchResultUnfold(v);
    ReducedKeepsSolution(v, s);
    var w := Reduced(v).value;
    if !AllSingletons(w) {
      var b := MinKeyBox(w, 81);
      assert Within(s[b], w[b]) && s[b] == [s[b][0]];
      TryGuessesComplete(w, b, w[b], s);
    }
  }

  /** The guess loop does not return `False` while the digit that a
      completed board within the candidates puts in the box is still to be
      tried. */
  lemma {:induction false} TryGuessesComplete(w: Values, b: Box, gs: string, s: Values)
    requires |w| == |s| == 81 && Bounded(w) && |w[b]| >= 2 && Completed(s) && Shrinks(w, s)
    requires s[b][0] in gs
    ensures TryGuesses(w, b, gs).Some?
    decreases Total(w), 0, |gs|
  {
    var child := w[b := [gs[0]]];
    TotalUpdate(w, b, [gs[0]]);
    if gs[0] == s[b][0] {
      assert s[b] == [gs[0]];
      ShrinksUpdate(w, s, b, [gs[0]]);
      SearchComplete(child, s);
    } else if SearchResult(child).None? {
      assert s[b][0] in gs[1..];
      TryGuessesComplete(w, b, gs[1..], s);
    }
  }

  /** Starting from ascending candidates, as `grid_values` gives, the box
      guessed on holds its candidates in ascending order, and every child map
      keeps every box ascending, so this holds at every level of the
      search. */
  lemma GuessesAscending(v: Values)
    requires |v| == 81 && Bounded(v) && AllAscending(v)
    ensures Reduced(v).Some?
    ensures var w := Reduced(v).value; var b := MinKeyBox(w, 81);
      && AllAscending(w)
      && Ascending(w[b])
      && forall g :: g in w[b] ==> AllAscending(w[b := [g]])
  {
    ReducedSound(v);
    ReducedKeepsOrder(v);
  }

  /** With ascending candidates, the guess loop returns the result for the
      smallest candidate digit whose search does not fail. */
  lemma LeastSuccessfulGuess(w: Values, b: Box)
    requires |w| == 81 && Bounded(w) && |w[b]| >= 2 && Ascending(w[b])
    requires TryGuesses(w, b, w[b]).Some?
    ensures exists g ::
      && g in w[b]
      && SearchResult(w[b := [g]]) == TryGuesses(w, b, w[b])
      && forall h :: h in w[b] && h < g ==> SearchResult(w[b := [h]]).None?
  {
    var gs := w[b];
    assert gs[0..] == gs;
    TryGuessesFirstSuccess(w, b, gs, 0);
    var k :| 0 <= k < |gs| && SearchResult(w[b := [gs[k]]]) == TryGuesses(w, b, gs)
      && forall j :: 0 <= j < k ==> SearchResult(w[b := [gs[j]]]).None?;
    var g := gs[k];
    forall h | h in gs && h < g ensures SearchResult(w[b := [h]]).None? {
      var j :| 0 <= j < |gs| && gs[j] == h;
      AscendingIndexOrder(gs, j, k);
    }
    assert g in gs && SearchResult(w[b := [g]]) == TryGuesses(w, b, gs);
  }

  /** In an ascending string, a smaller character comes earlier. */
  lemma AscendingIndexOrder(s: string, j: nat, k: nat)
    requires Ascending(s) && j < |s| && k < |s| && s[j] < s[k]
    ensures j < k
  {
  }

  /** A board that reduces to one with an emptied box makes `search` return
      `False`: the emptied box is chosen and has no guesses. */
  lemma EmptyBoxFails(v: Values)
    requires |v| == 81 && Bounded(v)
    requires Reduced(v).Some? && HasEmptyBox(Reduced(v).value)
    ensures SearchResult(v) == None
  {
    var w := Reduced(v).value;
    var e: Box :| w[e] == [];
    assert !AllSingletons(w);
    EmptyBoxChosen(w);
  }

  /** A filled, consistent board is returned unchanged. */
  lemma SolvedBoardReturned(v: Values)
    requires |v| == 81 && Solution(v)
    ensures Bounded(v) && SearchResult(v) == Some(v)
  {
    ReducedSolvedBoard(v);
  }

  /** Whatever `solve` returns is a solution that keeps every clue of the
      puzzle. */
  lemma SolveSound(grid: string)
    requires WellFormed(grid)
    ensures Bounded(GridValues(grid))
    ensures var r := SearchResult(GridValues(grid));
      r.Some? ==>
        && Solution(r.value)
        && (forall i :: 0 <= i < 81 ==> '1' <= r.value[i][0] <= '9')
        && (forall i :: 0 <= i < 81 && grid[i] != '.' ==> r.value[i] == [grid[i]])
  {
    var v := GridValues(grid);
    GridValuesRoundTrip(grid, []);
    FreshIsBounded(v);
    SearchSound(v);
    var r := SearchResult(v);
    if r.Some? {
      SolvedFromFresh(v, r.value);
    }
  }

  /** `s` solves the puzzle `grid`: a completed board that keeps every
      clue. */
  predicate SolvesPuzzle(grid: string, s: Values)
    requires WellFormed(grid)
  {
    |s| == 81 && Completed(s) && forall i :: 0 <= i < 81 && grid[i] != '.' ==> s[i] == [grid[i]]
  }

  /** `solve` is complete: for a puzzle that has a solution it does not
      return `False`. */
  lemma SolveComplete(grid: string, s: Values)
    requires WellFormed(grid) && SolvesPuzzle(grid, s)
    ensures Bounded(GridValues(grid))
    ensures SearchResult(GridValues(grid)).Some?
  {
    var v := GridValues(grid);
    GridValuesRoundTrip(grid, []);
    FreshIsBounded(v);
    forall i | 0 <= i < 81 ensures Within(s[i], v[i]) {
      assert s[i] == [s[i][0]];
      if grid[i] == '.' {
        DigitIn(s[i][0]);
      }
    }
    SearchComplete(v, s);
  }

  /** `solve` returns a board exactly when the puzzle has a solution, and
      what it returns is one: "False if no solution exists". */
  lemma SolveDecides(grid: string)
    requires WellFormed(grid)
    ensures Bounded(GridValues(grid))
    ensures SearchResult(GridValues(grid)).Some? ==> SolvesPuzzle(grid, SearchResult(GridValues(grid)).value)
    ensures SearchResult(GridValues(grid)).Some? <==> exists s :: SolvesPuzzle(grid, s)
  {
    SolveSound(grid);
    var r := SearchResult(GridValues(grid));
    if r.Some? {
      assert SolvesPuzzle(grid, r.value);
    }
    if s :| SolvesPuzzle(grid, s) {
      SolveComplete(grid, s);
    }
  }

  /** A puzzle with the same clue in two peers has no solution, so `solve`
      returns `False`. */
  lemma ClashingCluesFail(grid: string, i: Box, j: Box)
    requires WellFormed(grid) && j in Peers(i) && grid[i] != '.' && grid[i] == grid[j]
    ensures Bounded(GridValues(grid))
    ensures SearchResult(GridValues(grid)).None?
  {
    SolveSound(grid);
    var r := SearchResult(GridValues(grid));
    if r.Some? {
      assert false;
    }
  }

  /** Whatever `solve` returns holds each digit 1-9 exactly once in every
      unit, the two diagonals included. */
  lemma SolveFillsUnits(grid: string, u: nat, c: char)
    requires WellFormed(grid) && u < |UnitList()| && '1' <= c <= '9'
    ensures Bounded(GridValues(grid))
    ensures var r := SearchResult(GridValues(grid));
      r.Some? ==>
        && |UnitList()[u]| == 9
        && (exists k :: 0 <= k < 9 && r.value[UnitList()[u][k]] == [c])
        && forall k, k' ::
             (0 <= k < 9 && 0 <= k' < 9 && r.value[UnitList()[u][k]] == [c] && r.value[UnitList()[u][k']] == [c])
             ==> k == k'
  {
    SolveSound(grid);
    var r := SearchResult(GridValues(grid));
    if r.Some? {
      SolutionFillsUnit(r.value, u, c);
    }
  }
}
