/** Candidate strings and the grid state.

    A box's candidates are a Python string of digits; the solver removes a
    digit with `str.replace(d, '')`, which keeps the remaining digits in their
    order.  The dictionary `values` always has the 81 box names as keys, in
    `boxes` order, so its contents are a sequence of 81 candidate strings,
    indexed by box position. */
module Grid {
  import opened Topology

  const Digits: string := "123456789"

  /** A dictionary, or `False` where the solver gives up. */
  datatype Option<T> = None | Some(value: T)

  /** The key that `search` gives a solved box when choosing where to guess. */
  const SolvedKey: nat := 0xFFFFFF

  // ---------------------------------------------------------------------------
  // Candidate strings

  /** Every character comes before the ones after it: candidate strings hold
      their digits in ascending order, as `'123456789'` does. */
  predicate Ascending(s: string)
  {
    forall i, j :: 0 <= i < j < |s| ==> s[i] < s[j]
  }

  /** `s.replace(d, '')` for a one-character `d`: every `d` is dropped and the
      other characters keep their order. */
  function Replace(s: string, d: char): (r: string)
    ensures |r| <= |s|
    ensures forall c :: c in r <==> c in s && c != d
    ensures d !in s ==> r == s
    ensures d in s ==> |r| < |s|
  {
    if s == [] then []
    else (if s[0] == d then [] else [s[0]]) + Replace(s[1..], d)
  }

  /** `replace` keeps the remaining characters in their order, so an
      ascending candidate string stays ascending. */
  lemma {:induction false} ReplaceKeepsOrder(s: string, d: char)
    requires Ascending(s)
    ensures Ascending(Replace(s, d))
  {
    if s != [] {
      var rest := Replace(s[1..], d);
      ReplaceKeepsOrder(s[1..], d);
      if s[0] != d {
        forall c | c in rest ensures s[0] < c {
          HeadBelowTail(s, c);
        }
        AscendingCons(s[0], rest);
      }
    }
  }

  lemma HeadBelowTail(s: string, c: char)
    requires Ascending(s) && s != [] && c in s[1..]
    ensures s[0] < c
  {
    var k :| 0 <= k < |s[1..]| && s[1..][k] == c;
    assert s[k + 1] == c;
  }

  lemma AscendingCons(x: char, t: string)
    requires Ascending(t) && forall c :: c in t ==> x < c
    ensures Ascending([x] + t)
  {
    var r := [x] + t;
    forall i, j | 0 <= i < j < |r| ensures r[i] < r[j] {
      assert r[j] == t[j - 1] && r[j] in t;
      if i > 0 {
        assert r[i] == t[i - 1];
      }
    }
  }

  /** `for digit in ds: s = s.replace(digit, '')`. */
  function RemoveDigits(s: string, ds: string): (r: string)
    ensures |r| <= |s|
    ensures forall c :: c in r <==> c in s && c !in ds
    decreases |ds|
  {
    if ds == [] then s
    else Replace(RemoveDigits(s, ds[..|ds| - 1]), ds[|ds| - 1])
  }

  /** Removing digits one after another keeps the order too. */
  lemma {:induction false} RemoveDigitsKeepsOrder(s: string, ds: string)
    requires Ascending(s)
    ensures Ascending(RemoveDigits(s, ds))
    decreases |ds|
  {
    if ds != [] {
      RemoveDigitsKeepsOrder(s, ds[..|ds| - 1]);
      ReplaceKeepsOrder(RemoveDigits(s, ds[..|ds| - 1]), ds[|ds| - 1]);
    }
  }

  /** Candidate string `a` is what is left of `b` after removals: no longer,
      and holding no digit that `b` does not hold. */
  predicate Within(a: string, b: string)
  {
    |a| <= |b| && forall c :: c in a ==> c in b
  }

  // ---------------------------------------------------------------------------
  // The grid state

  /** The contents of the `values` dictionary, in `boxes` order. */
  type Values = seq<string>

  /** Every box's candidates in `w` are within its candidates in `v`. */
  predicate Shrinks(v: Values, w: Values)
  {
    |v| == |w| && forall i :: 0 <= i < |v| ==> Within(w[i], v[i])
  }

  lemma ShrinksTransitive(u: Values, v: Values, w: Values)
    requires Shrinks(u, v) && Shrinks(v, w)
    ensures Shrinks(u, w)
  {
  }

  /** Setting one box to a string that `w` may shrink to keeps `w` within
      `v`'s reach. */
  lemma ShrinksUpdate(v: Values, w: Values, i: nat, t: string)
    requires Shrinks(v, w) && i < |v| && Within(w[i], t)
    ensures Shrinks(v[i := t], w)
  {
  }

  /** The number of candidates left on the whole board. */
  function Total(v: Values): (n: nat)
  {
    if v == [] then 0 else |v[0]| + Total(v[1..])
  }

  /** `len([box for box in values.keys() if len(values[box]) == 1])`. */
  function Singletons(v: Values): (n: nat)
  {
    if v == [] then 0 else (if |v[0]| == 1 then 1 else 0) + Singletons(v[1..])
  }

  predicate AllSingletons(v: Values)
  {
    forall i :: 0 <= i < |v| ==> |v[i]| == 1
  }

  /** Every box holds its candidates in ascending order. */
  predicate AllAscending(v: Values)
  {
    forall i :: 0 <= i < |v| ==> Ascending(v[i])
  }

  /** Every box's candidate string is shorter than the key `search` gives a
      solved box. */
  predicate Bounded(v: Values)
  {
    forall i :: 0 <= i < |v| ==> |v[i]| < SolvedKey
  }

  lemma {:induction false} TotalUpdate(v: Values, i: nat, s: string)
    requires i < |v|
    ensures Total(v[i := s]) == Total(v) - |v[i]| + |s|
  {
    if i > 0 {
      TotalUpdate(v[1..], i - 1, s);
      assert v[i := s][1..] == v[1..][i - 1 := s];
    } else {
      assert v[i := s][1..] == v[1..];
    }
  }

  /** Removing candidates never raises the total, and when the total stays
      the same no box changed its size, so neither did the singleton count. */
  lemma {:induction false} ShrinkingTotals(v: Values, w: Values)
    requires Shrinks(v, w)
    ensures Total(w) <= Total(v)
    ensures Total(w) == Total(v) ==> Singletons(w) == Singletons(v)
  {
    if v != [] {
      ShrinkingTotals(v[1..], w[1..]);
      assert Within(w[0], v[0]);
    }
  }

  /** A pass that changed the singleton count lowered the total. */
  lemma SingletonChangeLowersTotal(v: Values, w: Values)
    requires Shrinks(v, w) && Singletons(w) != Singletons(v)
    ensures Total(w) < Total(v)
  {
    ShrinkingTotals(v, w);
  }

  /** Every box is a singleton exactly when the singleton count is the number
      of boxes. */
  lemma {:induction false} SingletonCount(v: Values)
    ensures Singletons(v) <= |v|
    ensures Singletons(v) == |v| <==> AllSingletons(v)
  {
    if v != [] {
      SingletonCount(v[1..]);
      if AllSingletons(v) {
        assert AllSingletons(v[1..]) by {
          forall i | 0 <= i < |v| - 1 ensures |v[1..][i]| == 1 {
            assert v[1..][i] == v[i + 1];
          }
        }
      }
      if Singletons(v) == |v| {
        forall i | 0 <= i < |v| ensures |v[i]| == 1 {
          if i > 0 {
            assert v[i] == v[1..][i - 1];
          }
        }
      }
    }
  }

  // ---------------------------------------------------------------------------
  // `grid_values`

  /** The characters the solver's callers put in a puzzle string. */
  predicate WellFormed(grid: string)
  {
    |grid| == 81 && forall i :: 0 <= i < |grid| ==> grid[i] == '.' || '1' <= grid[i] <= '9'
  }

  /** `dict(zip(boxes, (c if c != '.' else '123456789' for c in grid)))`.
      No length or alphabet check is made: `zip` stops at the shorter of the
      two, so a short string gives fewer boxes and extra characters are
      ignored. */
  function GridValues(grid: string): (v: Values)
    ensures |v| == if |grid| < 81 then |grid| else 81
    ensures forall i :: 0 <= i < |v| && grid[i] != '.' ==> v[i] == [grid[i]]
    ensures forall i :: 0 <= i < |v| && grid[i] == '.' ==> v[i] == Digits
  {
    var n := if |grid| < 81 then |grid| else 81;
    seq(n, i requires 0 <= i < n => if grid[i] != '.' then [grid[i]] else Digits)
  }

  /** The puzzle string a grid state stands for: a solved box shows its digit,
      any other box '.'. */
  function Render(v: Values): (grid: string)
    ensures |grid| == |v|
  {
    seq(|v|, i requires 0 <= i < |v| => if |v[i]| == 1 then v[i][0] else '.')
  }

  /** A grid state as `grid_values` produces it: each box a single digit or
      all nine digits. */
  predicate Fresh(v: Values)
  {
    |v| == 81 && forall i :: 0 <= i < 81 ==> v[i] == Digits || (|v[i]| == 1 && '1' <= v[i][0] <= '9')
  }

  /** `grid_values` and `Render` are inverse to each other between well-formed
      puzzle strings and fresh grid states. */
  lemma GridValuesRoundTrip(grid: string, v: Values)
    ensures WellFormed(grid) ==> Fresh(GridValues(grid)) && Render(GridValues(grid)) == grid
    ensures Fresh(v) ==> WellFormed(Render(v)) && GridValues(Render(v)) == v
  {
    if WellFormed(grid) {
      var w := GridValues(grid);
      forall i | 0 <= i < 81 ensures Render(w)[i] == grid[i] {
        assert |Digits| == 9;
      }
    }
    if Fresh(v) {
      var g := Render(v);
      assert |Digits| == 9;
      forall i | 0 <= i < 81 ensures GridValues(g)[i] == v[i] {
        if |v[i]| != 1 {
          assert v[i] == Digits;
        }
      }
    }
  }

  /** A solved board reached from a fresh one by removals holds a digit in
      every box and keeps every clue. */
  lemma SolvedFromFresh(v: Values, s: Values)
    requires Fresh(v) && Shrinks(v, s) && AllSingletons(s)
    ensures forall i :: 0 <= i < 81 ==> '1' <= s[i][0] <= '9'
    ensures forall i :: 0 <= i < 81 && |v[i]| == 1 ==> s[i] == v[i]
  {
    forall i | 0 <= i < 81 ensures '1' <= s[i][0] <= '9' && (|v[i]| == 1 ==> s[i] == v[i]) {
      assert s[i][0] in s[i] && s[i][0] in v[i];
      if v[i] == Digits {
        assert s[i][0] in Digits;
      }
    }
  }

  /** `grid_values` gives every box ascending candidates. */
  lemma FreshIsAscending(v: Values)
    requires Fresh(v)
    ensures AllAscending(v)
  {
    assert Ascending(Digits);
  }

  /** A fresh grid state keeps within the candidates the solver works with. */
  lemma FreshIsBounded(v: Values)
    requires Fresh(v)
    ensures Bounded(v) && forall i :: 0 <= i < 81 ==> 1 <= |v[i]| <= 9
  {
    assert |Digits| == 9;
  }

  // ---------------------------------------------------------------------------
  // `assign_value` and the `assignments` trail

  /** The module-level `assignments` list: snapshots of `values`. */
  class Trail {
    var snapshots: seq<Values>

    constructor ()
      ensures snapshots == []
    {
      snapshots := [];
    }
  }

  /** `values.copy()`: a new dictionary with the same contents. */
  method Copy(values: array<string>) returns (c: array<string>)
    ensures fresh(c) && c[..] == values[..]
  {
    c := new string[values.Length](j requires 0 <= j < values.Length reads values => values[j]);
  }

  /** `assign_value(values, box, value)`: a no-op when the box already holds
      `value`; otherwise the box is updated and, when `value` is a single
      digit, a copy of the whole dictionary is appended to the trail.  It
      returns the dictionary it was given. */
  method AssignValue(values: array<string>, box: Box, value: string, trail: Trail)
    returns (result: array<string>)
    requires values.Length == 81
    modifies values, trail
    ensures result == values
    ensures old(values[box]) == value ==>
              values[..] == old(values[..]) && trail.snapshots == old(trail.snapshots)
    ensures old(values[box]) != value ==>
              values[..] == old(values[..])[box := value] &&
              trail.snapshots == old(trail.snapshots) + (if |value| == 1 then [values[..]] else [])
  {
    if values[box] == value {
      return values;
    }
    values[box] := value;
    if |value| == 1 {
      trail.snapshots := trail.snapshots + [values[..]];
    }
    return values;
  }
}
