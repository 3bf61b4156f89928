/** `reduce_puzzle`: repeat `eliminate`, `only_choice` and `naked_twins` until
    a pass leaves the number of solved boxes unchanged. */
module Reduction {
  import opened Topology
  import opened Grid
  import opened Solutions
  import opened Elimination
  import opened OnlyChoiceRule
  import opened NakedTwinsRule

  /** One pass of the loop body. */
  function Pass(v: Values): (w: Values)
    requires |v| == 81
    ensures |w| == 81
  {
    TwinsCleared(OnlyChosen(Eliminated(v)))
  }

  /** A pass only removes candidates. */
  lemma PassShrinks(v: Values)
    requires |v| == 81
    ensures Shrinks(v, Pass(v))
    ensures Shrinks(Eliminated(v), Pass(v))
  {
    var e := Eliminated(v);
    EliminationSound(v);
    OnlyChoiceSound(e);
    NakedTwinsShrinks(OnlyChosen(e));
    ShrinksTransitive(e, OnlyChosen(e), Pass(v));
    ShrinksTransitive(v, e, Pass(v));
  }

  // ---------------------------------------------------------------------------
  // The sanity check `any(box for box in values.keys() if not box)`

  /** The generator `(box for box in keys if not box)`: the empty keys. */
  function FalsyKeys(keys: seq<string>): (r: seq<string>)
    ensures forall k :: k in r ==> k == []
  {
    if keys == [] then []
    else (if keys[0] == [] then [keys[0]] else []) + FalsyKeys(keys[1..])
  }

  /** `values.keys()`: the box names, in `boxes` order.  The map always has
      every box as a key, so the keys do not depend on the candidates in
      `v`; see `KeysAreBoxes`. */
  function Keys(v: Values): (keys: seq<string>)
    requires |v| == 81
  {
    seq(81, i requires 0 <= i < 81 => Name(i))
  }

  /** The keys are `boxes`. */
  lemma KeysAreBoxes(v: Values)
    requires |v| == 81
    ensures Keys(v) == Boxes()
  {
    BoxesRowMajor();
  }

  /** `any(xs)` over strings: some element is non-empty. */
  predicate AnyTruthy(xs: seq<string>)
  {
    exists i :: 0 <= i < |xs| && xs[i] != []
  }

  /** The check only sees empty strings, so it never fires, whatever the
      keys; an emptied box is not noticed here. */
  lemma ContradictionCheckNeverFires(keys: seq<string>)
    ensures !AnyTruthy(FalsyKeys(keys))
  {
    var xs := FalsyKeys(keys);
    forall i | 0 <= i < |xs| ensures xs[i] == [] {
      assert xs[i] in xs;
    }
  }

  // ---------------------------------------------------------------------------
  // The loop

  /** `reduce_puzzle(values)`: `None` stands for `False`. */
  function Reduced(v: Values): (r: Option<Values>)
    requires |v| == 81
    ensures r.Some? ==> |r.value| == 81
    decreases Total(v)
  {
    var w := Pass(v);
    if AnyTruthy(FalsyKeys(Keys(v))) then None
    else if Singletons(v) == Singletons(w) then Some(w)
    else
      PassShrinks(v);
      SingletonChangeLowersTotal(v, w);
      Reduced(w)
  }

  method ReducePuzzle(values: array<string>) returns (r: Option<array<string>>)
    requires values.Length == 81
    modifies values
    ensures r.Some? ==> r.value == values
    ensures Reduced(old(values[..])) == if r.Some? then Some(values[..]) else None
  {
    ghost var v := values[..];
    var stalled := false;
    while !stalled
      invariant Reduced(v) == if stalled then Some(values[..]) else Reduced(values[..])
      decreases Total(values[..]), if stalled then 0 else 1
    {
      ghost var x := values[..];
      var solvedValuesBefore := Singletons(values[..]);
      Eliminate(values);
      OnlyChoice(values);
      NakedTwins(values);
      var solvedValuesAfter := Singletons(values[..]);
      stalled := solvedValuesBefore == solvedValuesAfter;
      PassShrinks(x);
      ShrinkingTotals(x, values[..]);
      if AnyTruthy(FalsyKeys(Keys(values[..]))) {
        return None;
      }
    }
    return Some(values);
  }

  // ---------------------------------------------------------------------------
  // What `reduce_puzzle` guarantees

  /** A board whose boxes all end up solved after removals had no empty box
      before them. */
  lemma NoEmptyBoxBefore(u: Values, w: Values)
    requires |u| == 81 && Shrinks(u, w) && AllSingletons(w)
    ensures !HasEmptyBox(u)
  {
    forall i: Box ensures u[i] != [] {
      assert Within(w[i], u[i]) && |w[i]| == 1;
    }
  }

  /** When a pass leaves every box solved and did not change the number of
      solved boxes, it ran on an already solved board, `eliminate` emptied no
      box, so no two peers agree and the pass changed nothing. */
  lemma StalledPassSound(v: Values)
    requires |v| == 81 && Singletons(v) == Singletons(Pass(v)) && AllSingletons(Pass(v))
    ensures AllSingletons(v) && PeersDistinct(v) && Pass(v) == v
  {
    SingletonCount(Pass(v));
    SingletonCount(v);
    PassShrinks(v);
    NoEmptyBoxBefore(Eliminated(v), Pass(v));
    EliminationOnSolvedBoard(v);
    OnlyChoiceOnSolvedBoard(v);
    NakedTwinsOnSolvedBoard(v);
  }

  /** `reduce_puzzle` never returns `False`, only removes candidates, and when
      it leaves every box solved no two peers hold the same digit. */
  lemma {:induction false} ReducedSound(v: Values)
    requires |v| == 81
    ensures Reduced(v).Some?
    ensures Shrinks(v, Reduced(v).value)
    ensures AllSingletons(Reduced(v).value) ==> PeersDistinct(Reduced(v).value)
    decreases Total(v)
  {
    var w := Pass(v);
    PassShrinks(v);
    ContradictionCheckNeverFires(Keys(v));
    if Singletons(v) == Singletons(w) {
      if AllSingletons(w) {
        StalledPassSound(v);
      }
    } else {
      SingletonChangeLowersTotal(v, w);
      ReducedSound(w);
      ShrinksTransitive(v, w, Reduced(w).value);
    }
  }

  /** A pass keeps every box's candidates in ascending order. */
  lemma PassKeepsOrder(v: Values)
    requires |v| == 81 && AllAscending(v)
    ensures AllAscending(Pass(v))
  {
    EliminationKeepsOrder(v);
    OnlyChoiceKeepsOrder(Eliminated(v));
    NakedTwinsKeepsOrder(OnlyChosen(Eliminated(v)));
  }

  /** So does `reduce_puzzle`. */
  lemma {:induction false} ReducedKeepsOrder(v: Values)
    requires |v| == 81 && AllAscending(v)
    ensures Reduced(v).Some? ==> AllAscending(Reduced(v).value)
    decreases Total(v)
  {
    var w := Pass(v);
    PassKeepsOrder(v);
    if Singletons(v) != Singletons(w) {
      PassShrinks(v);
      SingletonChangeLowersTotal(v, w);
      ReducedKeepsOrder(w);
    }
  }

  /** A pass loses no completed board: one within the candidates before the
      pass is within them after it. */
  lemma PassKeepsSolution(v: Values, s: Values)
    requires |v| == |s| == 81 && Completed(s) && Shrinks(v, s)
    ensures Shrinks(Pass(v), s)
  {
    EliminationKeepsSolution(v, s);
    OnlyChoiceKeepsSolution(Eliminated(v), s);
    NakedTwinsKeepsSolution(OnlyChosen(Eliminated(v)), s);
  }

  /** Neither does `reduce_puzzle`. */
  lemma {:induction false} ReducedKeepsSolution(v: Values, s: Values)
    requires |v| == |s| == 81 && Completed(s) && Shrinks(v, s)
    ensures Reduced(v).Some? && Shrinks(Reduced(v).value, s)
    decreases Total(v)
  {
    var w := Pass(v);
    PassKeepsSolution(v, s);
    ContradictionCheckNeverFires(Keys(v));
    if Singletons(v) != Singletons(w) {
      PassShrinks(v);
      SingletonChangeLowersTotal(v, w);
      ReducedKeepsSolution(w, s);
    }
  }

  /** A board that one pass leaves unchanged is returned as it is. */
  lemma ReducedFixedPoint(v: Values)
    requires |v| == 81 && Pass(v) == v
    ensures Reduced(v) == Some(v)
  {
    ContradictionCheckNeverFires(Keys(v));
  }

  /** A solved board whose peers all differ is returned as it is. */
  lemma ReducedSolvedBoard(v: Values)
    requires |v| == 81 && AllSingletons(v) && PeersDistinct(v)
    ensures Reduced(v) == Some(v)
  {
    EliminationOnSolvedBoard(v);
    OnlyChoiceOnSolvedBoard(v);
    NakedTwinsOnSolvedBoard(v);
    ReducedFixedPoint(v);
  }
}
