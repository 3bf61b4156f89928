/** `naked_twins`: in every unit, two boxes holding the same two candidates
    (a naked twin pair) pin those two digits to themselves, so every other box
    of the unit loses both digits.  The twin pairs of a unit are found once,
    before the unit is cleared; the clearing then reads the current
    candidates. */
module NakedTwinsRule {
  import opened Topology
  import opened Grid
  import opened Solutions

  // ---------------------------------------------------------------------------
  // `non_duplicate_pairs`

  /** The pairs `(lst[i], lst[j])` for `i < j`, ordered by `i` and then `j`. */
  function NonDuplicatePairs<T>(lst: seq<T>): (pairs: seq<(T, T)>)
  {
    if lst == [] then []
    else
      seq(|lst| - 1, j requires 0 <= j < |lst| - 1 => (lst[0], lst[j + 1]))
      + NonDuplicatePairs(lst[1..])
  }

  /** A list of n elements gives n(n-1)/2 pairs. */
  lemma {:induction false} NonDuplicatePairsCount<T>(lst: seq<T>)
    ensures |NonDuplicatePairs(lst)| * 2 == |lst| * (|lst| - 1)
  {
    if lst != [] {
      NonDuplicatePairsCount(lst[1..]);
    }
  }

  /** The pairs are exactly the `(lst[i], lst[j])` with `i < j`. */
  lemma {:induction false} NonDuplicatePairsMembers<T>(lst: seq<T>, a: T, b: T)
    ensures (a, b) in NonDuplicatePairs(lst) <==>
      exists i, j :: 0 <= i < j < |lst| && a == lst[i] && b == lst[j]
  {
    if lst != [] {
      var head := seq(|lst| - 1, j requires 0 <= j < |lst| - 1 => (lst[0], lst[j + 1]));
      NonDuplicatePairsMembers(lst[1..], a, b);
      assert NonDuplicatePairs(lst) == head + NonDuplicatePairs(lst[1..]);
      if (a, b) in head {
        var j :| 0 <= j < |lst| - 1 && head[j] == (a, b);
        assert 0 < j + 1 < |lst| && a == lst[0] && b == lst[j + 1];
      } else if (a, b) in NonDuplicatePairs(lst[1..]) {
        var i, j :| 0 <= i < j < |lst| - 1 && a == lst[1..][i] && b == lst[1..][j];
        assert 0 <= i + 1 < j + 1 < |lst| && a == lst[i + 1] && b == lst[j + 1];
      }
      if exists i, j :: 0 <= i < j < |lst| && a == lst[i] && b == lst[j] {
        var i, j :| 0 <= i < j < |lst| && a == lst[i] && b == lst[j];
        if i == 0 {
          assert head[j - 1] == (a, b);
        } else {
          assert a == lst[1..][i - 1] && b == lst[1..][j - 1];
        }
      }
    }
  }

  /** On a list without repeats every pair is produced exactly once. */
  lemma {:induction false} NonDuplicatePairsDistinct<T>(lst: seq<T>)
    requires Distinct(lst)
    ensures Distinct(NonDuplicatePairs(lst))
  {
    if lst != [] {
      var head := seq(|lst| - 1, j requires 0 <= j < |lst| - 1 => (lst[0], lst[j + 1]));
      var tail := NonDuplicatePairs(lst[1..]);
      assert Distinct(lst[1..]);
      NonDuplicatePairsDistinct(lst[1..]);
      forall p, q | 0 <= p < q < |head + tail|
        ensures (head + tail)[p] != (head + tail)[q]
      {
        if q < |head| {
          assert lst[p + 1] != lst[q + 1];
        } else if p < |head| {
          var t := tail[q - |head|];
          assert t in tail;
          NonDuplicatePairsMembers(lst[1..], t.0, t.1);
          var i, j :| 0 <= i < j < |lst| - 1 && t.0 == lst[1..][i] && t.1 == lst[1..][j];
          assert t.0 == lst[i + 1] && lst[i + 1] != lst[0];
        } else {
          assert tail[p - |head|] != tail[q - |head|];
        }
      }
    }
  }

  // ---------------------------------------------------------------------------
  // Finding the twins of a unit

  /** The twin condition of the comprehension: one of the two has two
      candidates and both hold the same candidates. */
  predicate IsTwinPair(v: Values, pair: (Box, Box))
    requires |v| == 81
  {
    (|v[pair.0]| == 2 || |v[pair.1]| == 2) && v[pair.0] == v[pair.1]
  }

  /** The pairs of `ps` that are twins, in order. */
  function TwinFilter(v: Values, ps: seq<(Box, Box)>): (twins: seq<(Box, Box)>)
    requires |v| == 81
  {
    if ps == [] then []
    else (if IsTwinPair(v, ps[0]) then [ps[0]] else []) + TwinFilter(v, ps[1..])
  }

  /** `twins` for one unit. */
  function Twins(v: Values, unit: seq<Box>): (twins: seq<(Box, Box)>)
    requires |v| == 81
  {
    TwinFilter(v, NonDuplicatePairs(unit))
  }

  lemma {:induction false} TwinFilterMembers(v: Values, ps: seq<(Box, Box)>, p: (Box, Box))
    requires |v| == 81
    ensures p in TwinFilter(v, ps) <==> p in ps && IsTwinPair(v, p)
  {
    if ps != [] {
      TwinFilterMembers(v, ps[1..], p);
      assert ps == [ps[0]] + ps[1..];
    }
  }

  /** A pair of boxes is a twin pair of a unit exactly when the first comes
      before the second in the unit and both hold the same two candidates. */
  lemma TwinsMembers(v: Values, unit: seq<Box>, f: Box, s: Box)
    requires |v| == 81
    ensures (f, s) in Twins(v, unit) <==>
      (exists i, j :: 0 <= i < j < |unit| && f == unit[i] && s == unit[j])
      && |v[f]| == 2 && v[f] == v[s]
  {
    TwinFilterMembers(v, NonDuplicatePairs(unit), (f, s));
    NonDuplicatePairsMembers(unit, f, s);
  }

  // ---------------------------------------------------------------------------
  // Clearing a unit

  /** The box loop for the twin pair (f, s), after the first m boxes of the
      unit: every box other than f and s loses the digits f currently holds. */
  function PairClearedUpTo(v: Values, unit: seq<Box>, f: Box, s: Box, m: nat): (w: Values)
    requires |v| == 81 && m <= |unit|
    ensures |w| == 81
  {
    if m == 0 then v
    else
      var w := PairClearedUpTo(v, unit, f, s, m - 1);
      var box := unit[m - 1];
      if box in [f, s] then w else w[box := RemoveDigits(w[box], w[f])]
  }

  /** The elimination for one twin pair. */
  function PairCleared(v: Values, unit: seq<Box>, pair: (Box, Box)): (w: Values)
    requires |v| == 81
    ensures |w| == 81
  {
    PairClearedUpTo(v, unit, pair.0, pair.1, |unit|)
  }

  /** The pair loop after the first n twin pairs. */
  function TwinsClearedUpTo(v: Values, unit: seq<Box>, twins: seq<(Box, Box)>, n: nat): (w: Values)
    requires |v| == 81 && n <= |twins|
    ensures |w| == 81
  {
    if n == 0 then v
    else PairCleared(TwinsClearedUpTo(v, unit, twins, n - 1), unit, twins[n - 1])
  }

  /** One iteration of the unit loop: find the twins, then clear them. */
  function UnitTwinsCleared(v: Values, unit: seq<Box>): (w: Values)
    requires |v| == 81
    ensures |w| == 81
  {
    var twins := Twins(v, unit);
    TwinsClearedUpTo(v, unit, twins, |twins|)
  }

  /** The unit loop after the first n units of `units`. */
  function NakedTwinsUpTo(v: Values, units: seq<seq<Box>>, n: nat): (w: Values)
    requires |v| == 81 && n <= |units|
    ensures |w| == 81
  {
    if n == 0 then v
    else UnitTwinsCleared(NakedTwinsUpTo(v, units, n - 1), units[n - 1])
  }

  /** The dictionary after `naked_twins(values)`. */
  function TwinsCleared(v: Values): (w: Values)
    requires |v| == 81
    ensures |w| == 81
  {
    NakedTwinsUpTo(v, UnitList(), |UnitList()|)
  }

  method NakedTwins(values: array<string>)
    requires values.Length == 81
    modifies values
    ensures values[..] == TwinsCleared(old(values[..]))
  {
    ghost var v := values[..];
    var unitlist := UnitList();
    for u := 0 to |unitlist|
      invariant values[..] == NakedTwinsUpTo(v, unitlist, u)
    {
      // As in the source, `boxes` here is the current unit.
      var boxes := unitlist[u];
      var twins := Twins(values[..], boxes);
      ghost var w := values[..];
      for t := 0 to |twins|
        invariant values[..] == TwinsClearedUpTo(w, boxes, twins, t)
      {
        var (first, second) := twins[t];
        ghost var x := values[..];
        for m := 0 to |boxes|
          invariant values[..] == PairClearedUpTo(x, boxes, first, second, m)
        {
          var box := boxes[m];
          if box in [first, second] {
            continue;
          }
          StripDigits(values, box, values[first]);
        }
      }
    }
  }

  /** The innermost loop: `for digit in digits: values[box] =
      values[box].replace(digit, '')`. */
  method StripDigits(values: array<string>, box: Box, digits: string)
    requires values.Length == 81
    modifies values
    ensures values[..] == old(values[..])[box := RemoveDigits(old(values[box]), digits)]
  {
    ghost var y := values[..];
    for i := 0 to |digits|
      invariant values[..] == y[box := RemoveDigits(y[box], digits[..i])]
    {
      assert digits[..i + 1][..i] == digits[..i];
      values[box] := Replace(values[box], digits[i]);
    }
    assert digits[..|digits|] == digits;
  }

  // ---------------------------------------------------------------------------
  // What `naked_twins` guarantees

  /** Clearing for the pair (f, s) leaves f and s alone, leaves every box
      outside the unit alone, and takes exactly f's digits out of every other
      box of the unit. */
  lemma {:induction false} PairClearedUpToSpec(v: Values, unit: seq<Box>, f: Box, s: Box, m: nat)
    requires |v| == 81 && m <= |unit|
    ensures var w := PairClearedUpTo(v, unit, f, s, m);
      && w[f] == v[f] && w[s] == v[s]
      && (forall x: Box :: x !in unit[..m] ==> w[x] == v[x])
      && (forall x: Box, c :: x in unit[..m] && x != f && x != s ==>
            (c in w[x] <==> c in v[x] && c !in v[f]))
      && Shrinks(v, w)
  {
    if m > 0 {
      PairClearedUpToSpec(v, unit, f, s, m - 1);
      assert unit[..m] == unit[..m - 1] + [unit[m - 1]];
    }
  }

  /** The elimination for a twin pair never touches the pair's own boxes or
      any box outside the unit, and removes from each other box of the unit
      exactly the digits of the pair. */
  lemma PairClearedSpec(v: Values, unit: seq<Box>, pair: (Box, Box))
    requires |v| == 81
    ensures var w := PairCleared(v, unit, pair);
      && w[pair.0] == v[pair.0] && w[pair.1] == v[pair.1]
      && (forall x: Box :: x !in unit ==> w[x] == v[x])
      && (forall x: Box, c :: x in unit && x != pair.0 && x != pair.1 ==>
            (c in w[x] <==> c in v[x] && c !in v[pair.0]))
      && Shrinks(v, w)
  {
    PairClearedUpToSpec(v, unit, pair.0, pair.1, |unit|);
    assert unit[..|unit|] == unit;
  }

  lemma {:induction false} TwinsClearedUpToSpec(v: Values, unit: seq<Box>, twins: seq<(Box, Box)>, n: nat)
    requires |v| == 81 && n <= |twins|
    ensures var w := TwinsClearedUpTo(v, unit, twins, n);
      Shrinks(v, w) && forall x: Box :: x !in unit ==> w[x] == v[x]
  {
    if n > 0 {
      var w := TwinsClearedUpTo(v, unit, twins, n - 1);
      TwinsClearedUpToSpec(v, unit, twins, n - 1);
      PairClearedSpec(w, unit, twins[n - 1]);
      ShrinksTransitive(v, w, PairCleared(w, unit, twins[n - 1]));
    }
  }

  /** Handling one unit only removes candidates, and only inside the unit. */
  lemma UnitTwinsClearedSpec(v: Values, unit: seq<Box>)
    requires |v| == 81
    ensures var w := UnitTwinsCleared(v, unit);
      Shrinks(v, w) && forall x: Box :: x !in unit ==> w[x] == v[x]
  {
    TwinsClearedUpToSpec(v, unit, Twins(v, unit), |Twins(v, unit)|);
  }

  lemma {:induction false} NakedTwinsUpToShrinks(v: Values, units: seq<seq<Box>>, n: nat)
    requires |v| == 81 && n <= |units|
    ensures Shrinks(v, NakedTwinsUpTo(v, units, n))
  {
    if n > 0 {
      var w := NakedTwinsUpTo(v, units, n - 1);
      NakedTwinsUpToShrinks(v, units, n - 1);
      UnitTwinsClearedSpec(w, units[n - 1]);
      ShrinksTransitive(v, w, UnitTwinsCleared(w, units[n - 1]));
    }
  }

  /** `naked_twins` only removes candidates. */
  lemma NakedTwinsShrinks(v: Values)
    requires |v| == 81
    ensures Shrinks(v, TwinsCleared(v))
  {
    NakedTwinsUpToShrinks(v, UnitList(), |UnitList()|);
  }

  lemma {:induction false} PairClearedUpToKeepsOrder(v: Values, unit: seq<Box>, f: Box, s: Box, m: nat)
    requires |v| == 81 && m <= |unit| && AllAscending(v)
    ensures AllAscending(PairClearedUpTo(v, unit, f, s, m))
  {
    if m > 0 {
      PairClearedUpToKeepsOrder(v, unit, f, s, m - 1);
      var w := PairClearedUpTo(v, unit, f, s, m - 1);
      var box := unit[m - 1];
      RemoveDigitsKeepsOrder(w[box], w[f]);
    }
  }

  lemma {:induction false} TwinsClearedUpToKeepsOrder(v: Values, unit: seq<Box>, twins: seq<(Box, Box)>, n: nat)
    requires |v| == 81 && n <= |twins| && AllAscending(v)
    ensures AllAscending(TwinsClearedUpTo(v, unit, twins, n))
  {
    if n > 0 {
      TwinsClearedUpToKeepsOrder(v, unit, twins, n - 1);
      var w := TwinsClearedUpTo(v, unit, twins, n - 1);
      PairClearedUpToKeepsOrder(w, unit, twins[n - 1].0, twins[n - 1].1, |unit|);
    }
  }

  lemma {:induction false} NakedTwinsUpToKeepsOrder(v: Values, units: seq<seq<Box>>, n: nat)
    requires |v| == 81 && n <= |units| && AllAscending(v)
    ensures AllAscending(NakedTwinsUpTo(v, units, n))
  {
    if n > 0 {
      NakedTwinsUpToKeepsOrder(v, units, n - 1);
      var w := NakedTwinsUpTo(v, units, n - 1);
      TwinsClearedUpToKeepsOrder(w, units[n - 1], Twins(w, units[n - 1]), |Twins(w, units[n - 1])|);
    }
  }

  /** `naked_twins` keeps every box's candidates in ascending order. */
  lemma NakedTwinsKeepsOrder(v: Values)
    requires |v| == 81 && AllAscending(v)
    ensures AllAscending(TwinsCleared(v))
  {
    NakedTwinsUpToKeepsOrder(v, UnitList(), |UnitList()|);
  }

  // ---------------------------------------------------------------------------
  // `naked_twins` loses no solution

  /** Board `s` holds different strings in the different boxes of `unit`. */
  predicate UnitDistinct(s: Values, unit: seq<Box>)
    requires |s| == 81
  {
    forall i, j :: 0 <= i < j < |unit| ==> s[unit[i]] != s[unit[j]]
  }

  /** Two different characters of a two-character string are all of it. */
  lemma TwoCharacters(t: string, a: char, b: char, c: char)
    requires |t| == 2 && a in t && b in t && a != b && c != a && c != b
    ensures c !in t
  {
  }

  /** A solution within the candidates puts the two digits of a twin pair in
      the pair's two boxes, so no other box of the unit holds either. */
  lemma TwinDigitsTaken(v: Values, unit: seq<Box>, f: Box, t: Box, x: Box, s: Values)
    requires |v| == |s| == 81 && AllSingletons(s) && Shrinks(v, s) && UnitDistinct(s, unit)
    requires (f, t) in Twins(v, unit) && x in unit && x != f && x != t
    ensures s[x][0] !in v[f]
  {
    TwinsMembers(v, unit, f, t);
    var i, j :| 0 <= i < j < |unit| && f == unit[i] && t == unit[j];
    var k :| 0 <= k < |unit| && unit[k] == x;
    assert s[f] != s[t] && s[x] != s[f] && s[x] != s[t];
    assert s[f] == [s[f][0]] && s[t] == [s[t][0]] && s[x] == [s[x][0]];
    assert Within(s[f], v[f]) && Within(s[t], v[t]);
    TwoCharacters(v[f], s[f][0], s[t][0], s[x][0]);
  }

  /** Clearing for a twin pair found in `v` keeps a solution within the
      candidates, however far earlier pairs have shrunk the board. */
  lemma {:induction false} PairClearedUpToKeepsSolution(v: Values, w: Values, unit: seq<Box>, f: Box, t: Box, m: nat, s: Values)
    requires |v| == |w| == |s| == 81 && m <= |unit|
    requires AllSingletons(s) && UnitDistinct(s, unit)
    requires Shrinks(v, s) && Shrinks(v, w) && Shrinks(w, s)
    requires (f, t) in Twins(v, unit)
    ensures Shrinks(PairClearedUpTo(w, unit, f, t, m), s)
  {
    if m > 0 {
      PairClearedUpToKeepsSolution(v, w, unit, f, t, m - 1, s);
      var w' := PairClearedUpTo(w, unit, f, t, m - 1);
      var x := unit[m - 1];
      if x !in [f, t] {
        PairClearedUpToSpec(w, unit, f, t, m - 1);
        TwinDigitsTaken(v, unit, f, t, x, s);
        assert Within(w[f], v[f]) && Within(s[x], w'[x]);
        assert s[x] == [s[x][0]];
        assert s[x][0] in RemoveDigits(w'[x], w'[f]);
        ShrinksUpdate(w', s, x, RemoveDigits(w'[x], w'[f]));
      }
    }
  }

  lemma {:induction false} TwinsClearedUpToKeepsSolution(v: Values, unit: seq<Box>, twins: seq<(Box, Box)>, n: nat, s: Values)
    requires |v| == |s| == 81 && n <= |twins| && twins == Twins(v, unit)
    requires AllSingletons(s) && UnitDistinct(s, unit) && Shrinks(v, s)
    ensures Shrinks(TwinsClearedUpTo(v, unit, twins, n), s)
  {
    if n > 0 {
      TwinsClearedUpToKeepsSolution(v, unit, twins, n - 1, s);
      TwinsClearedStepKeepsSolution(v, unit, twins, n, s);
    }
  }

  lemma TwinsClearedStepKeepsSolution(v: Values, unit: seq<Box>, twins: seq<(Box, Box)>, n: nat, s: Values)
    requires |v| == |s| == 81 && 0 < n <= |twins| && twins == Twins(v, unit)
    requires AllSingletons(s) && UnitDistinct(s, unit) && Shrinks(v, s)
    requires Shrinks(TwinsClearedUpTo(v, unit, twins, n - 1), s)
    ensures Shrinks(TwinsClearedUpTo(v, unit, twins, n), s)
  {
    var w := TwinsClearedUpTo(v, unit, twins, n - 1);
    TwinsClearedUpToSpec(v, unit, twins, n - 1);
    var (f, t) := twins[n - 1];
    assert (f, t) in twins;
    PairClearedUpToKeepsSolution(v, w, unit, f, t, |unit|, s);
  }

  lemma {:induction false} NakedTwinsUpToKeepsSolution(v: Values, units: seq<seq<Box>>, n: nat, s: Values)
    requires |v| == |s| == 81 && n <= |units| && AllSingletons(s) && Shrinks(v, s)
    requires forall u :: 0 <= u < |units| ==> UnitDistinct(s, units[u])
    ensures Shrinks(NakedTwinsUpTo(v, units, n), s)
  {
    if n > 0 {
      NakedTwinsUpToKeepsSolution(v, units, n - 1, s);
      var w := NakedTwinsUpTo(v, units, n - 1);
      TwinsClearedUpToKeepsSolution(w, units[n - 1], Twins(w, units[n - 1]), |Twins(w, units[n - 1])|, s);
    }
  }

  /** `naked_twins` loses no solution: a solution within the candidates
      before the pass is within them after it. */
  lemma NakedTwinsKeepsSolution(v: Values, s: Values)
    requires |v| == |s| == 81 && Solution(s) && Shrinks(v, s)
    ensures Shrinks(TwinsCleared(v), s)
  {
    var units := UnitList();
    UnitListShape();
    forall u | 0 <= u < |units| ensures UnitDistinct(s, units[u]) {
      forall i, j | 0 <= i < j < |units[u]| ensures s[units[u][i]] != s[units[u][j]] {
        UnitMembersArePeers(u, i, j);
      }
    }
    NakedTwinsUpToKeepsSolution(v, units, |units|, s);
  }

    lemma {:induction false} NoTwinsOnSolvedBoard(v: Values, ps: seq<(Box, Box)>)
    requires |v| == 81 && AllSingletons(v)
    ensures TwinFilter(v, ps) == []
  {
    if ps != [] {
      NoTwinsOnSolvedBoard(v, ps[1..]);
    }
  }

  lemma {:induction false} NakedTwinsUpToSolved(v: Values, units: seq<seq<Box>>, n: nat)
    requires |v| == 81 && n <= |units| && AllSingletons(v)
    ensures NakedTwinsUpTo(v, units, n) == v
  {
    if n > 0 {
      NakedTwinsUpToSolved(v, units, n - 1);
      NoTwinsOnSolvedBoard(v, NonDuplicatePairs(units[n - 1]));
    }
  }

  /** On a board where every box holds one digit there are no twins, so
      `naked_twins` changes nothing. */
  lemma NakedTwinsOnSolvedBoard(v: Values)
    requires |v| == 81 && AllSingletons(v)
    ensures TwinsCleared(v) == v
  {
    NakedTwinsUpToSolved(v, UnitList(), |UnitList()|);
  }
}
