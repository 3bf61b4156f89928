/** Solved boards: the reference the solver's results are judged by.  A
    solution holds one digit in every box and no two peers hold the same
    digit; with digits 1-9 this is a completed Sudoku, in which every unit,
    the two diagonals included, holds each digit exactly once. */
module Solutions {
  import opened Topology
  import opened Grid

  /** No two peers hold the same candidates. */
  predicate PeersDistinct(v: Values)
    requires |v| == 81
  {
    forall i: Box, j: Box :: j in Peers(i) ==> v[i] != v[j]
  }

  /** A solution: every box solved and no two peers agree. */
  predicate Solution(s: Values)
    requires |s| == 81
  {
    AllSingletons(s) && PeersDistinct(s)
  }

  /** In a solution with digits 1-9, the nine boxes of any unit hold nine
      different digits. */
  lemma UnitDigitsDistinct(s: Values, u: nat)
    requires |s| == 81 && Solution(s) && u < |UnitList()|
    ensures |UnitList()[u]| == 9
    ensures Distinct(seq(9, k requires 0 <= k < 9 => s[UnitList()[u][k]][0]))
  {
    UnitListShape();
    var unit := UnitList()[u];
    var ds := seq(9, k requires 0 <= k < 9 => s[unit[k]][0]);
    forall k, k' | 0 <= k < k' < 9 ensures ds[k] != ds[k'] {
      UnitMembersArePeers(u, k, k');
      assert s[unit[k]] != s[unit[k']];
      assert s[unit[k]] == [ds[k]] && s[unit[k']] == [ds[k']];
    }
  }

  /** Nine different digits from 1-9 are all of them. */
  lemma NineDigitsAreAll(ds: string)
    requires |ds| == 9 && Distinct(ds) && forall k :: 0 <= k < 9 ==> '1' <= ds[k] <= '9'
    ensures forall c :: '1' <= c <= '9' ==> c in ds
  {
    var all := set c | c in Digits;
    var got := set c | c in ds;
    assert Distinct(Digits);
    DistinctCardinality(Digits);
    DistinctCardinality(ds);
    forall c | c in got ensures c in all {
      DigitIn(c);
    }
    assert |all - got| == 0;
    forall c | '1' <= c <= '9' ensures c in ds {
      DigitIn(c);
      assert c in all;
    }
  }

  lemma DigitIn(c: char)
    requires '1' <= c <= '9'
    ensures c in Digits
  {
    LabelCodes();
    assert Digits == Cols;
    assert Cols[c as int - '1' as int] == c;
  }

  /** A completed board: a solution whose boxes all hold a digit 1-9. */
  predicate Completed(s: Values)
    requires |s| == 81
  {
    Solution(s) && forall i :: 0 <= i < 81 ==> '1' <= s[i][0] <= '9'
  }

  /** The digits `only_choice` runs through are 1-9. */
  lemma DigitsRange()
    ensures |Digits| == 9 && forall k :: 0 <= k < 9 ==> '1' <= Digits[k] <= '9'
  {
    LabelCodes();
    assert Digits == Cols;
  }

  /** Every unit of a completed board holds each digit 1-9 exactly once. */
  lemma SolutionFillsUnit(s: Values, u: nat, c: char)
    requires |s| == 81 && Completed(s) && u < |UnitList()| && '1' <= c <= '9'
    ensures |UnitList()[u]| == 9
    ensures exists k :: 0 <= k < 9 && s[UnitList()[u][k]] == [c]
    ensures forall k, k' ::
      (0 <= k < 9 && 0 <= k' < 9 && s[UnitList()[u][k]] == [c] && s[UnitList()[u][k']] == [c]) ==> k == k'
  {
    UnitDigitsDistinct(s, u);
    var unit := UnitList()[u];
    var ds := seq(9, k requires 0 <= k < 9 => s[unit[k]][0]);
    assert forall k :: 0 <= k < 9 ==> '1' <= ds[k] <= '9';
    NineDigitsAreAll(ds);
    assert c in ds;
    var k :| 0 <= k < 9 && ds[k] == c;
    assert s[unit[k]] == [c];
    forall k1, k2 | 0 <= k1 < 9 && 0 <= k2 < 9 && s[unit[k1]] == [c] && s[unit[k2]] == [c]
      ensures k1 == k2
    {
      assert ds[k1] == c == ds[k2];
    }
  }
}
