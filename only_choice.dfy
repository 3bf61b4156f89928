/** `only_choice`: for every unit, in `unitlist` order, and every digit '1' to
    '9', when exactly one box of the unit still holds the digit, that box is
    set to the digit alone.  The dictionary is updated in place, so later
    (unit, digit) steps see the earlier assignments. */
module OnlyChoiceRule {
  import opened Topology
  import opened Grid
  import opened Solutions

  /** `[box for box in unit if digit in values[box]]`. */
  function Holders(v: Values, unit: seq<Box>, d: char): (hs: seq<Box>)
    requires |v| == 81
  {
    if unit == [] then []
    else (if d in v[unit[0]] then [unit[0]] else []) + Holders(v, unit[1..], d)
  }

  /** The holders are exactly the boxes of the unit whose candidates include
      the digit. */
  lemma {:induction false} HoldersMembers(v: Values, unit: seq<Box>, d: char)
    requires |v| == 81
    ensures forall b :: b in Holders(v, unit, d) <==> b in unit && d in v[b]
  {
    if unit != [] {
      HoldersMembers(v, unit[1..], d);
      assert unit == [unit[0]] + unit[1..];
    }
  }

  /** One (unit, digit) step of the loop. */
  function OnlyChoiceStep(v: Values, unit: seq<Box>, d: char): (w: Values)
    requires |v| == 81
    ensures |w| == 81
  {
    var hs := Holders(v, unit, d);
    if |hs| == 1 then v[hs[0] := [d]] else v
  }

  /** The inner loop for one unit, after the digits Digits[..k]. */
  function UnitChosenUpTo(v: Values, unit: seq<Box>, k: nat): (w: Values)
    requires |v| == 81 && k <= 9
    ensures |w| == 81
  {
    if k == 0 then v
    else OnlyChoiceStep(UnitChosenUpTo(v, unit, k - 1), unit, Digits[k - 1])
  }

  /** The dictionary after the outer loop has handled the first n units of
      `units`. */
  function OnlyChosenUpTo(v: Values, units: seq<seq<Box>>, n: nat): (w: Values)
    requires |v| == 81 && n <= |units|
    ensures |w| == 81
  {
    if n == 0 then v
    else UnitChosenUpTo(OnlyChosenUpTo(v, units, n - 1), units[n - 1], 9)
  }

  /** The dictionary after `only_choice(values)`. */
  function OnlyChosen(v: Values): (w: Values)
    requires |v| == 81
    ensures |w| == 81
  {
    OnlyChosenUpTo(v, UnitList(), |UnitList()|)
  }

  method OnlyChoice(values: array<string>)
    requires values.Length == 81
    modifies values
    ensures values[..] == OnlyChosen(old(values[..]))
  {
    ghost var v := values[..];
    var unitlist := UnitList();
    for u := 0 to |unitlist|
      invariant values[..] == OnlyChosenUpTo(v, unitlist, u)
    {
      OnlyChoiceInUnit(values, unitlist[u]);
    }
  }

  /** The digit loop for one unit. */
  method OnlyChoiceInUnit(values: array<string>, unit: seq<Box>)
    requires values.Length == 81
    modifies values
    ensures values[..] == UnitChosenUpTo(old(values[..]), unit, 9)
  {
    ghost var w := values[..];
    for k := 0 to 9
      invariant values[..] == UnitChosenUpTo(w, unit, k)
    {
      var digit := Digits[k];
      var boxesWithDigit := Holders(values[..], unit, digit);
      if |boxesWithDigit| == 1 {
        values[boxesWithDigit[0]] := [digit];
      }
    }
  }

  // ---------------------------------------------------------------------------
  // What `only_choice` guarantees

  /** Box i is, in w, the only box of some unit of `units` containing it that
      holds d. */
  predicate SoleHolder(w: Values, units: seq<seq<Box>>, i: Box, d: char)
    requires |w| == 81
  {
    exists u :: 0 <= u < |units| && i in units[u] &&
      forall j :: j in units[u] && j != i ==> d !in w[j]
  }

  /** Every box that changed now holds one digit that it held before, and is
      the only holder of that digit in some unit. */
  predicate ChoiceJustified(v: Values, w: Values, units: seq<seq<Box>>)
    requires |v| == |w| == 81
  {
    forall i: Box :: w[i] == v[i] || exists d :: w[i] == [d] && d in v[i] && SoleHolder(w, units, i, d)
  }

  lemma OnlyChoiceStepSound(v: Values, w: Values, units: seq<seq<Box>>, u: nat, d: char)
    requires |v| == |w| == 81 && u < |units|
    requires Shrinks(v, w) && ChoiceJustified(v, w, units)
    ensures Shrinks(v, OnlyChoiceStep(w, units[u], d))
    ensures ChoiceJustified(v, OnlyChoiceStep(w, units[u], d), units)
  {
    var unit := units[u];
    var hs := Holders(w, unit, d);
    HoldersMembers(w, unit, d);
    if |hs| == 1 {
      var j := hs[0];
      var w' := w[j := [d]];
      assert j in hs;
      assert d in w[j] && j in unit;
      assert Within(w'[j], w[j]);
      assert forall x :: x in hs ==> x == j;
      assert forall x :: x in unit && x != j ==> d !in w'[x];
      assert SoleHolder(w', units, j, d);
      forall i: Box | i != j && w'[i] != v[i]
        ensures exists d' :: w'[i] == [d'] && d' in v[i] && SoleHolder(w', units, i, d')
      {
        var d' :| w[i] == [d'] && d' in v[i] && SoleHolder(w, units, i, d');
        var u' :| 0 <= u' < |units| && i in units[u'] &&
          forall x :: x in units[u'] && x != i ==> d' !in w[x];
        assert d in w[j];
        assert forall x :: x in units[u'] && x != i ==> d' !in w'[x];
        assert SoleHolder(w', units, i, d');
      }
    }
  }

  lemma {:induction false} UnitChosenUpToSound(v: Values, w: Values, units: seq<seq<Box>>, u: nat, k: nat)
    requires |v| == |w| == 81 && u < |units| && k <= 9
    requires Shrinks(v, w) && ChoiceJustified(v, w, units)
    ensures Shrinks(v, UnitChosenUpTo(w, units[u], k))
    ensures ChoiceJustified(v, UnitChosenUpTo(w, units[u], k), units)
  {
    if k > 0 {
      UnitChosenUpToSound(v, w, units, u, k - 1);
      OnlyChoiceStepSound(v, UnitChosenUpTo(w, units[u], k - 1), units, u, Digits[k - 1]);
    }
  }

  lemma {:induction false} OnlyChosenUpToSound(v: Values, units: seq<seq<Box>>, n: nat)
    requires |v| == 81 && n <= |units|
    ensures Shrinks(v, OnlyChosenUpTo(v, units, n))
    ensures ChoiceJustified(v, OnlyChosenUpTo(v, units, n), units)
  {
    if n > 0 {
      OnlyChosenUpToSound(v, units, n - 1);
      UnitChosenUpToSound(v, OnlyChosenUpTo(v, units, n - 1), units, n - 1, 9);
    }
  }

  /** `only_choice` only removes candidates, and sets a box to a digit only
      when the box held that digit and is its sole holder in some unit. */
  lemma OnlyChoiceSound(v: Values)
    requires |v| == 81
    ensures Shrinks(v, OnlyChosen(v))
    ensures ChoiceJustified(v, OnlyChosen(v), UnitList())
  {
    OnlyChosenUpToSound(v, UnitList(), |UnitList()|);
  }

  lemma {:induction false} UnitChosenUpToKeepsOrder(v: Values, unit: seq<Box>, k: nat)
    requires |v| == 81 && k <= 9 && AllAscending(v)
    ensures AllAscending(UnitChosenUpTo(v, unit, k))
  {
    if k > 0 {
      UnitChosenUpToKeepsOrder(v, unit, k - 1);
    }
  }

  lemma {:induction false} OnlyChosenUpToKeepsOrder(v: Values, units: seq<seq<Box>>, n: nat)
    requires |v| == 81 && n <= |units| && AllAscending(v)
    ensures AllAscending(OnlyChosenUpTo(v, units, n))
  {
    if n > 0 {
      OnlyChosenUpToKeepsOrder(v, units, n - 1);
      UnitChosenUpToKeepsOrder(OnlyChosenUpTo(v, units, n - 1), units[n - 1], 9);
    }
  }

  /** `only_choice` keeps every box's candidates in ascending order: it only
      ever sets a box to a single digit. */
  lemma OnlyChoiceKeepsOrder(v: Values)
    requires |v| == 81 && AllAscending(v)
    ensures AllAscending(OnlyChosen(v))
  {
    OnlyChosenUpToKeepsOrder(v, UnitList(), |UnitList()|);
  }

  /** Board `s` puts digit `d` in some box of `unit`. */
  predicate DigitPlaced(s: Values, unit: seq<Box>, d: char)
    requires |s| == 81
  {
    exists x :: x in unit && s[x] == [d]
  }

  /** The only box of a unit that can still hold a digit is the box where a
      board within the candidates puts that digit, so one step keeps that
      board within the candidates. */
  lemma OnlyChoiceStepKeepsSolution(w: Values, unit: seq<Box>, d: char, s: Values)
    requires |w| == |s| == 81 && Shrinks(w, s) && DigitPlaced(s, unit, d)
    ensures Shrinks(OnlyChoiceStep(w, unit, d), s)
  {
    var hs := Holders(w, unit, d);
    if |hs| == 1 {
      var x :| x in unit && s[x] == [d];
      HoldersMembers(w, unit, d);
      assert Within(s[x], w[x]);
      assert x in hs;
      ShrinksUpdate(w, s, hs[0], [d]);
    }
  }

  lemma {:induction false} UnitChosenUpToKeepsSolution(w: Values, unit: seq<Box>, k: nat, s: Values)
    requires |w| == |s| == 81 && k <= 9 && Shrinks(w, s)
    requires forall d :: '1' <= d <= '9' ==> DigitPlaced(s, unit, d)
    ensures Shrinks(UnitChosenUpTo(w, unit, k), s)
  {
    if k > 0 {
      UnitChosenUpToKeepsSolution(w, unit, k - 1, s);
      DigitsRange();
      OnlyChoiceStepKeepsSolution(UnitChosenUpTo(w, unit, k - 1), unit, Digits[k - 1], s);
    }
  }

  lemma {:induction false} OnlyChosenUpToKeepsSolution(v: Values, units: seq<seq<Box>>, n: nat, s: Values)
    requires |v| == |s| == 81 && n <= |units| && Shrinks(v, s)
    requires forall u, d :: 0 <= u < |units| && '1' <= d <= '9' ==> DigitPlaced(s, units[u], d)
    ensures Shrinks(OnlyChosenUpTo(v, units, n), s)
  {
    if n > 0 {
      OnlyChosenUpToKeepsSolution(v, units, n - 1, s);
      UnitChosenUpToKeepsSolution(OnlyChosenUpTo(v, units, n - 1), units[n - 1], 9, s);
    }
  }

  /** `only_choice` loses no completed board: one within the candidates
      before the pass is within them after it, since every unit holds every
      digit somewhere. */
  lemma OnlyChoiceKeepsSolution(v: Values, s: Values)
    requires |v| == |s| == 81 && Completed(s) && Shrinks(v, s)
    ensures Shrinks(OnlyChosen(v), s)
  {
    var units := UnitList();
    forall u, d | 0 <= u < |units| && '1' <= d <= '9' ensures DigitPlaced(s, units[u], d) {
      SolutionFillsUnit(s, u, d);
      var k :| 0 <= k < 9 && s[units[u][k]] == [d];
      assert units[u][k] in units[u];
    }
    OnlyChosenUpToKeepsSolution(v, units, |units|, s);
  }

  lemma {:induction false} UnitChosenUpToSolved(v: Values, unit: seq<Box>, k: nat)
    requires |v| == 81 && k <= 9 && AllSingletons(v)
    ensures UnitChosenUpTo(v, unit, k) == v
  {
    if k > 0 {
      UnitChosenUpToSolved(v, unit, k - 1);
      var d := Digits[k - 1];
      var hs := Holders(v, unit, d);
      HoldersMembers(v, unit, d);
      if |hs| == 1 {
        assert hs[0] in hs;
        assert d in v[hs[0]] && |v[hs[0]]| == 1;
        assert v[hs[0]] == [d];
      }
    }
  }

  lemma {:induction false} OnlyChosenUpToSolved(v: Values, units: seq<seq<Box>>, n: nat)
    requires |v| == 81 && n <= |units| && AllSingletons(v)
    ensures OnlyChosenUpTo(v, units, n) == v
  {
    if n > 0 {
      OnlyChosenUpToSolved(v, units, n - 1);
      UnitChosenUpToSolved(v, units[n - 1], 9);
    }
  }

  /** On a board where every box holds one digit, `only_choice` changes
      nothing. */
  lemma OnlyChoiceOnSolvedBoard(v: Values)
    requires |v| == 81 && AllSingletons(v)
    ensures OnlyChosen(v) == v
  {
    OnlyChosenUpToSolved(v, UnitList(), |UnitList()|);
  }
}
