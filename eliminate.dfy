/** `eliminate`: for every box, in `boxes` order, that holds a single digit
    when the loop reaches it, that digit is removed from each of its peers.
    The pass works on the dictionary in place, so a box that becomes a
    singleton earlier in the same pass is used when its turn comes. */
module Elimination {
  import opened Topology
  import opened Grid
  import opened Solutions

  /** The inner loop for one singleton box `b` holding `d`: every peer loses
      `d`.  The peers form a set whose iteration order the source leaves open;
      the result does not depend on it. */
  function ClearPeers(v: Values, b: Box, d: char): (w: Values)
    requires |v| == 81
    ensures |w| == 81
  {
    seq(81, i requires 0 <= i < 81 => if i in Peers(b) then Replace(v[i], d) else v[i])
  }

  /** The inner loop part way: the peers in `done` have lost `d`. */
  function ClearSome(v: Values, d: char, done: set<Box>): (w: Values)
    requires |v| == 81
    ensures |w| == 81
  {
    seq(81, i requires 0 <= i < 81 => if i in done then Replace(v[i], d) else v[i])
  }

  lemma ClearSomeStep(v: Values, d: char, done: set<Box>, p: Box)
    requires |v| == 81 && p !in done
    ensures ClearSome(v, d, done + {p}) == ClearSome(v, d, done)[p := Replace(v[p], d)]
  {
  }

  /** The dictionary after the outer loop has handled boxes 0 .. k-1. */
  function EliminatedUpTo(v: Values, k: nat): (w: Values)
    requires |v| == 81 && k <= 81
    ensures |w| == 81
  {
    if k == 0 then v
    else
      var w := EliminatedUpTo(v, k - 1);
      if |w[k - 1]| == 1 then ClearPeers(w, k - 1, w[k - 1][0]) else w
  }

  /** The dictionary after `eliminate(values)`. */
  function Eliminated(v: Values): (w: Values)
    requires |v| == 81
    ensures |w| == 81
  {
    EliminatedUpTo(v, 81)
  }

  method Eliminate(values: array<string>)
    requires values.Length == 81
    modifies values
    ensures values[..] == Eliminated(old(values[..]))
  {
    ghost var v := values[..];
    for b := 0 to 81
      invariant values[..] == EliminatedUpTo(v, b)
    {
      if |values[b]| == 1 {
        ghost var w := values[..];
        ghost var d := w[b][0];
        var rest := Peers(b);
        PeersIrreflexiveSymmetric(b, b);
        assert ClearSome(w, d, {}) == w;
        while rest != {}
          invariant rest <= Peers(b)
          invariant values[..] == ClearSome(w, d, Peers(b) - rest)
          decreases rest
        {
          var peer :| peer in rest;
          ClearSomeStep(w, d, Peers(b) - rest, peer);
          assert Peers(b) - (rest - {peer}) == (Peers(b) - rest) + {peer};
          values[peer] := Replace(values[peer], values[b][0]);
          rest := rest - {peer};
        }
        assert values[..] == ClearPeers(w, b, d);
      }
    }
  }

  // ---------------------------------------------------------------------------
  // What `eliminate` guarantees

  /** Some peer of box `i` holds digit `c` alone, or nothing. */
  predicate Pressed(w: Values, i: Box, c: char)
    requires |w| == 81
  {
    exists p :: p in Peers(i) && Within(w[p], [c])
  }

  /** Every digit that the pass removed from box `i` was removed because some
      peer of `i` ends the pass holding that digit alone (or nothing). */
  predicate Justified(v: Values, w: Values)
    requires |v| == |w| == 81
  {
    forall i: Box, c :: c in v[i] && c !in w[i] ==> Pressed(w, i, c)
  }

  lemma ClearPeersShrinks(v: Values, b: Box, d: char)
    requires |v| == 81
    ensures Shrinks(v, ClearPeers(v, b, d))
    ensures ClearPeers(v, b, d)[b] == v[b]
  {
    PeersIrreflexiveSymmetric(b, b);
  }

  /** A digit that clearing removes from box `i` is pressed by the cleared
      box itself. */
  lemma ClearedByBox(w: Values, b: Box, i: Box, c: char)
    requires |w| == 81 && |w[b]| == 1
    requires c in w[i] && c !in ClearPeers(w, b, w[b][0])[i]
    ensures Pressed(ClearPeers(w, b, w[b][0]), i, c)
  {
    var d := w[b][0];
    assert w[b] == [d];
    assert i in Peers(b) && c == d;
    PeersIrreflexiveSymmetric(i, b);
    assert b in Peers(i) && Within(ClearPeers(w, b, d)[b], [c]);
  }

  /** A peer that pressed a digit before clearing still does after it. */
  lemma PressedAfterClear(w: Values, b: Box, i: Box, c: char)
    requires |w| == 81 && |w[b]| == 1 && Pressed(w, i, c)
    ensures Pressed(ClearPeers(w, b, w[b][0]), i, c)
  {
    var w' := ClearPeers(w, b, w[b][0]);
    var p :| p in Peers(i) && Within(w[p], [c]);
    assert Within(w'[p], w[p]);
  }

  /** Clearing a singleton box's digit from its peers keeps every removal
      justified: the box itself still holds that digit alone. */
  lemma ClearPeersJustified(v: Values, w: Values, b: Box)
    requires |v| == |w| == 81 && |w[b]| == 1 && Shrinks(v, w) && Justified(v, w)
    ensures Justified(v, ClearPeers(w, b, w[b][0]))
  {
    var w' := ClearPeers(w, b, w[b][0]);
    forall i: Box, c | c in v[i] && c !in w'[i]
      ensures Pressed(w', i, c)
    {
      if c in w[i] {
        ClearedByBox(w, b, i, c);
      } else {
        PressedAfterClear(w, b, i, c);
      }
    }
  }

  lemma {:induction false} EliminatedUpToSound(v: Values, k: nat)
    requires |v| == 81 && k <= 81
    ensures Shrinks(v, EliminatedUpTo(v, k))
    ensures Justified(v, EliminatedUpTo(v, k))
  {
    if k > 0 {
      EliminatedUpToSound(v, k - 1);
      var w := EliminatedUpTo(v, k - 1);
      if |w[k - 1]| == 1 {
        ClearPeersShrinks(w, k - 1, w[k - 1][0]);
        ShrinksTransitive(v, w, EliminatedUpTo(v, k));
        ClearPeersJustified(v, w, k - 1);
      }
    }
  }

  /** `eliminate` only removes candidates, and removes a digit from a box only
      when a peer of that box ends the pass committed to that digit (or
      emptied).  So a box whose peers all keep two or more digits keeps every
      digit it had. */
  lemma EliminationSound(v: Values)
    requires |v| == 81
    ensures Shrinks(v, Eliminated(v))
    ensures Justified(v, Eliminated(v))
  {
    EliminatedUpToSound(v, 81);
  }

  /** Later steps of the loop only remove candidates. */
  lemma {:induction false} EliminatedUpToShrinksFrom(v: Values, j: nat, k: nat)
    requires |v| == 81 && j <= k <= 81
    ensures Shrinks(EliminatedUpTo(v, j), EliminatedUpTo(v, k))
    decreases k
  {
    if k > j {
      EliminatedUpToShrinksFrom(v, j, k - 1);
      var w := EliminatedUpTo(v, k - 1);
      if |w[k - 1]| == 1 {
        ClearPeersShrinks(w, k - 1, w[k - 1][0]);
      }
      ShrinksTransitive(EliminatedUpTo(v, j), w, EliminatedUpTo(v, k));
    }
  }

  /** A box that holds one digit when the loop reaches it has that digit
      removed from every peer, for good. */
  lemma EliminationClearsReachedBox(v: Values, b: Box, p: Box)
    requires |v| == 81 && |EliminatedUpTo(v, b)[b]| == 1 && p in Peers(b)
    ensures EliminatedUpTo(v, b)[b][0] !in Eliminated(v)[p]
  {
    var d := EliminatedUpTo(v, b)[b][0];
    assert d !in EliminatedUpTo(v, b + 1)[p];
    EliminatedUpToShrinksFrom(v, b + 1, 81);
    assert Within(Eliminated(v)[p], EliminatedUpTo(v, b + 1)[p]);
  }

  /** `eliminate` does its job: a box that holds one digit before and after
      the pass has had that digit removed from every peer. */
  lemma EliminationClearsSolvedBox(v: Values, b: Box, p: Box)
    requires |v| == 81 && |v[b]| == 1 && Eliminated(v)[b] == v[b] && p in Peers(b)
    ensures v[b][0] !in Eliminated(v)[p]
  {
    var d := v[b][0];
    EliminatedUpToShrinksFrom(v, 0, b);
    EliminatedUpToShrinksFrom(v, b, 81);
    assert v[b] == [d];
    SqueezedSingleton(Eliminated(v)[b], EliminatedUpTo(v, b)[b], d);
    EliminationClearsReachedBox(v, b, p);
  }

  /** A string caught between `[d]` and a string holding `d` is `[d]`. */
  lemma SqueezedSingleton(lo: string, mid: string, d: char)
    requires Within(lo, mid) && Within(mid, [d]) && d in lo
    ensures mid == [d]
  {
    assert d in mid && mid == [mid[0]];
  }

  /** A box none of whose peers ends the pass with fewer than two candidates
      is left exactly as it was. */
  lemma EliminationKeepsUnpressedBox(v: Values, i: Box)
    requires |v| == 81
    requires forall p :: p in Peers(i) ==> |Eliminated(v)[p]| >= 2
    ensures Eliminated(v)[i] == v[i]
  {
    EliminatedUpToKeepsBox(v, i, 81);
  }

  lemma {:induction false} EliminatedUpToKeepsBox(v: Values, i: Box, k: nat)
    requires |v| == 81 && k <= 81
    requires forall p :: p in Peers(i) ==> |Eliminated(v)[p]| >= 2
    ensures EliminatedUpTo(v, k)[i] == v[i]
  {
    if k > 0 {
      EliminatedUpToKeepsBox(v, i, k - 1);
      var w := EliminatedUpTo(v, k - 1);
      var b: Box := k - 1;
      if |w[b]| == 1 && i in Peers(b) {
        PeersIrreflexiveSymmetric(i, b);
        EliminatedUpToShrinksFrom(v, k - 1, 81);
        assert false;
      }
    }
  }

  lemma PressingPeer(v: Values, w: Values, i: Box, c: char)
    requires |v| == |w| == 81 && Justified(v, w)
    requires c in v[i] && c !in w[i]
    ensures exists p :: p in Peers(i) && |w[p]| <= 1
  {
    var p :| p in Peers(i) && Within(w[p], [c]);
  }

  lemma {:induction false} EliminatedUpToKeepsOrder(v: Values, k: nat)
    requires |v| == 81 && k <= 81 && AllAscending(v)
    ensures AllAscending(EliminatedUpTo(v, k))
  {
    if k > 0 {
      EliminatedUpToKeepsOrder(v, k - 1);
      var w := EliminatedUpTo(v, k - 1);
      if |w[k - 1]| == 1 {
        forall i: Box ensures Ascending(EliminatedUpTo(v, k)[i]) {
          ReplaceKeepsOrder(w[i], w[k - 1][0]);
        }
      }
    }
  }

  /** `eliminate` keeps every box's candidates in ascending order. */
  lemma EliminationKeepsOrder(v: Values)
    requires |v| == 81 && AllAscending(v)
    ensures AllAscending(Eliminated(v))
  {
    EliminatedUpToKeepsOrder(v, 81);
  }

  // ---------------------------------------------------------------------------
  // `eliminate` loses no solution

  /** The box holding one digit is where a solution within the candidates
      puts that digit, so clearing it from the peers keeps the solution
      within the candidates. */
  lemma ClearPeersKeepsSolution(w: Values, b: Box, s: Values)
    requires |w| == |s| == 81 && |w[b]| == 1 && Solution(s) && Shrinks(w, s)
    ensures Shrinks(ClearPeers(w, b, w[b][0]), s)
  {
    var d := w[b][0];
    assert w[b] == [d] && Within(s[b], w[b]);
    assert s[b] == [s[b][0]] && s[b][0] in w[b];
    forall p: Box | p in Peers(b) ensures Within(s[p], Replace(w[p], d)) {
      assert s[p] != s[b];
      assert s[p] == [s[p][0]] && s[p][0] in w[p];
      assert s[p][0] in Replace(w[p], d);
    }
  }

  lemma {:induction false} EliminatedUpToKeepsSolution(v: Values, s: Values, k: nat)
    requires |v| == |s| == 81 && k <= 81 && Solution(s) && Shrinks(v, s)
    ensures Shrinks(EliminatedUpTo(v, k), s)
  {
    if k > 0 {
      EliminatedUpToKeepsSolution(v, s, k - 1);
      var w := EliminatedUpTo(v, k - 1);
      if |w[k - 1]| == 1 {
        ClearPeersKeepsSolution(w, k - 1, s);
      }
    }
  }

  /** `eliminate` loses no solution: a solution within the candidates before
      the pass is within them after it. */
  lemma EliminationKeepsSolution(v: Values, s: Values)
    requires |v| == |s| == 81 && Solution(s) && Shrinks(v, s)
    ensures Shrinks(Eliminated(v), s)
  {
    EliminatedUpToKeepsSolution(v, s, 81);
  }

  // ---------------------------------------------------------------------------
  // `eliminate` on a board where every box holds one digit

  predicate HasEmptyBox(v: Values)
    requires |v| == 81
  {
    exists i: Box :: v[i] == []
  }

  /** No box among the first k holds the same digit as one of its peers. */
  predicate PrefixDistinct(v: Values, k: nat)
    requires |v| == 81
  {
    forall i: Box, j: Box :: i < k && j in Peers(i) ==> v[i] != v[j]
  }

  /** An emptied box stays empty for the rest of the pass. */
  lemma EmptyBoxStays(v: Values, k: nat)
    requires |v| == 81 && k < 81 && HasEmptyBox(EliminatedUpTo(v, k))
    ensures HasEmptyBox(EliminatedUpTo(v, k + 1))
  {
    var w := EliminatedUpTo(v, k);
    var e: Box :| w[e] == [];
    if |w[k]| == 1 {
      ClearPeersShrinks(w, k, w[k][0]);
      assert Within(EliminatedUpTo(v, k + 1)[e], w[e]);
    }
    assert EliminatedUpTo(v, k + 1)[e] == [];
  }

  /** On a fully assigned board, clearing box b's digit from its peers
      changes nothing when no peer holds it ... */
  lemma SolvedClearNoClash(v: Values, b: Box)
    requires |v| == 81 && AllSingletons(v)
    requires forall j: Box :: j in Peers(b) ==> v[j] != v[b]
    ensures ClearPeers(v, b, v[b][0]) == v
  {
    var d := v[b][0];
    assert v[b] == [d];
    var w := ClearPeers(v, b, d);
    forall i: Box ensures w[i] == v[i] {
      if i in Peers(b) {
        assert v[i] == [v[i][0]] && v[i] != [d];
      }
    }
  }

  /** ... and empties the peer that does. */
  lemma SolvedClearClash(v: Values, b: Box, j: Box)
    requires |v| == 81 && AllSingletons(v)
    requires j in Peers(b) && v[j] == v[b]
    ensures ClearPeers(v, b, v[b][0])[j] == []
  {
    var d := v[b][0];
    assert v[j] == [d];
  }

  /** On a fully assigned board, the first k steps of the pass leave the board
      unchanged when none of the first k boxes agrees with a peer, and
      otherwise have emptied some box. */
  lemma {:induction false} EliminatedUpToSolved(v: Values, k: nat)
    requires |v| == 81 && k <= 81 && AllSingletons(v)
    ensures PrefixDistinct(v, k) ==> EliminatedUpTo(v, k) == v
    ensures !PrefixDistinct(v, k) ==> HasEmptyBox(EliminatedUpTo(v, k))
  {
    if k > 0 {
      EliminatedUpToSolved(v, k - 1);
      if PrefixDistinct(v, k - 1) {
        EliminatedUpToSolvedStep(v, k);
      } else {
        EmptyBoxStays(v, k - 1);
      }
    }
  }

  /** The step for box k - 1 when no earlier box agrees with a peer. */
  lemma EliminatedUpToSolvedStep(v: Values, k: nat)
    requires |v| == 81 && 0 < k <= 81 && AllSingletons(v)
    requires PrefixDistinct(v, k - 1) && EliminatedUpTo(v, k - 1) == v
    ensures PrefixDistinct(v, k) ==> EliminatedUpTo(v, k) == v
    ensures !PrefixDistinct(v, k) ==> HasEmptyBox(EliminatedUpTo(v, k))
  {
    var b: Box := k - 1;
    assert EliminatedUpTo(v, k) == ClearPeers(v, b, v[b][0]);
    if j: Box :| j in Peers(b) && v[j] == v[b] {
      SolvedClearClash(v, b, j);
      assert !PrefixDistinct(v, k);
    } else {
      SolvedClearNoClash(v, b);
      assert PrefixDistinct(v, k);
    }
  }

  /** On a fully assigned board, `eliminate` changes nothing when no two peers
      agree, and otherwise empties some box. */
  lemma EliminationOnSolvedBoard(v: Values)
    requires |v| == 81 && AllSingletons(v)
    ensures PeersDistinct(v) ==> Eliminated(v) == v
    ensures !PeersDistinct(v) ==> HasEmptyBox(Eliminated(v))
  {
    EliminatedUpToSolved(v, 81);
    assert PrefixDistinct(v, 81) <==> PeersDistinct(v);
  }
}
