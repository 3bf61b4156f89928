/** The static geometry of the board: the 81 box names, the 29 units (rows,
    columns, 3x3 squares and, because the diagonal constraint is switched on,
    the two diagonals) and the peers of every box.

    A box is identified by its position in `boxes`, which is row-major
    (A1, A2, ..., A9, B1, ..., I9); `Name` gives the two-character name the
    source uses as a dictionary key.  The units are built twice: once from
    names exactly as the source builds them with `cross` and `zip`, and once as
    lists of box positions, which is what the rest of the model uses.
    `UnitNamesAgree` proves that the two constructions describe the same
    units. */
module Topology {

  const Rows: string := "ABCDEFGHI"
  const Cols: string := "123456789"

  /** The source's `ENABLE_DIAGONAL` switch, fixed to its value there. */
  const EnableDiagonal: bool := true

  /** A box, as its position in `boxes`. */
  type Box = b: int | 0 <= b < 81

  function Row(b: Box): (r: nat) { b / 9 }
  function Col(b: Box): (c: nat) { b % 9 }

  // ---------------------------------------------------------------------------
  // Names, as the source builds them

  /** `cross(a, b)`: every character of `a` followed by every character of `b`,
      outer loop over `a`. */
  function Cross(a: string, b: string): (r: seq<string>)
    ensures |r| == |a| * |b|
  {
    if a == [] then []
    else seq(|b|, j requires 0 <= j < |b| => [a[0], b[j]]) + Cross(a[1..], b)
  }

  lemma {:induction false} CrossAt(a: string, b: string, i: nat, j: nat)
    requires i < |a| && j < |b|
    ensures i * |b| + j < |Cross(a, b)|
    ensures Cross(a, b)[i * |b| + j] == [a[i], b[j]]
  {
    if i > 0 {
      CrossAt(a[1..], b, i - 1, j);
      assert i * |b| + j == |b| + ((i - 1) * |b| + j);
    }
  }

  /** The name of box `b`: its row letter followed by its column digit. */
  function Name(b: Box): (name: string)
  {
    [Rows[Row(b)], Cols[Col(b)]]
  }

  /** `boxes = cross(rows, cols)`. */
  function Boxes(): (names: seq<string>)
  {
    Cross(Rows, Cols)
  }

  /** The row letters and column digits are consecutive characters. */
  lemma LabelCodes()
    ensures |Rows| == |Cols| == 9
    ensures forall i :: 0 <= i < 9 ==> Rows[i] as int == 'A' as int + i && Cols[i] as int == '1' as int + i
    ensures forall t, i :: 0 <= t < 3 && 0 <= i < 3 ==>
              |RowBands[t]| == |ColStacks[t]| == 3 &&
              RowBands[t][i] == Rows[3 * t + i] && ColStacks[t][i] == Cols[3 * t + i]
  {
  }

  /** The name of the box in row `r` and column `c`. */
  lemma NameAt(b: Box, r: nat, c: nat)
    requires r < 9 && c < 9 && b == 9 * r + c
    ensures Name(b) == [Rows[r], Cols[c]]
  {
    Compose9(r, c);
  }

  /** `boxes` holds 81 names in row-major order, and no name twice. */
  lemma BoxesRowMajor()
    ensures |Boxes()| == 81
    ensures forall b: Box :: Boxes()[b] == Name(b)
    ensures forall b1: Box, b2: Box :: b1 != b2 ==> Boxes()[b1] != Boxes()[b2]
  {
    forall b: Box
      ensures Boxes()[b] == Name(b)
    {
      BoxesAt(b);
    }
    forall b1: Box, b2: Box | b1 != b2
      ensures Name(b1) != Name(b2)
    {
      NameInjective(b1, b2);
    }
  }

  lemma BoxesAt(b: Box)
    ensures |Boxes()| == 81 && Boxes()[b] == Name(b)
  {
    CrossAt(Rows, Cols, Row(b), Col(b));
  }

  lemma NameInjective(b1: Box, b2: Box)
    requires b1 != b2
    ensures Name(b1) != Name(b2)
  {
    LabelCodes();
    if Row(b1) != Row(b2) {
      assert Name(b1)[0] != Name(b2)[0];
    } else {
      assert Name(b1)[1] != Name(b2)[1];
    }
  }

  /** `row_units`, `column_units`, `square_units`, `diagonal_units`, by name. */
  function RowUnitsByName(): (units: seq<seq<string>>)
  {
    seq(9, r requires 0 <= r < 9 => Cross([Rows[r]], Cols))
  }

  function ColumnUnitsByName(): (units: seq<seq<string>>)
  {
    seq(9, c requires 0 <= c < 9 => Cross(Rows, [Cols[c]]))
  }

  const RowBands: seq<string> := ["ABC", "DEF", "GHI"]
  const ColStacks: seq<string> := ["123", "456", "789"]

  function SquareUnitsByName(): (units: seq<seq<string>>)
  {
    seq(9, s requires 0 <= s < 9 => Cross(RowBands[s / 3], ColStacks[s % 3]))
  }

  function DiagonalUnitsByName(): (units: seq<seq<string>>)
  {
    [ seq(9, i requires 0 <= i < 9 => [Rows[i], Cols[i]]),
      seq(9, i requires 0 <= i < 9 => [Rows[i], Cols[|Cols| - 1 - i]]) ]
  }

  /** `unitlist`, by name. */
  function UnitListByName(): (units: seq<seq<string>>)
  {
    RowUnitsByName() + ColumnUnitsByName() + SquareUnitsByName()
      + (if EnableDiagonal then DiagonalUnitsByName() else [])
  }

  // ---------------------------------------------------------------------------
  // Units as lists of box positions

  function RowUnit(r: nat): (unit: seq<Box>)
    requires r < 9
  {
    seq(9, c requires 0 <= c < 9 => 9 * r + c)
  }

  function ColumnUnit(c: nat): (unit: seq<Box>)
    requires c < 9
  {
    seq(9, r requires 0 <= r < 9 => 9 * r + c)
  }

  function SquareUnit(s: nat): (unit: seq<Box>)
    requires s < 9
  {
    seq(9, k requires 0 <= k < 9 => 9 * (3 * (s / 3) + k / 3) + 3 * (s % 3) + k % 3)
  }

  function DiagonalUnit(): (unit: seq<Box>)
  {
    seq(9, i requires 0 <= i < 9 => 10 * i)
  }

  function AntiDiagonalUnit(): (unit: seq<Box>)
  {
    seq(9, i requires 0 <= i < 9 => 8 * i + 8)
  }

  function UnitList(): (units: seq<seq<Box>>)
  {
    seq(9, r requires 0 <= r < 9 => RowUnit(r))
      + seq(9, c requires 0 <= c < 9 => ColumnUnit(c))
      + seq(9, s requires 0 <= s < 9 => SquareUnit(s))
      + (if EnableDiagonal then [DiagonalUnit(), AntiDiagonalUnit()] else [])
  }

  predicate Distinct<T(==)>(s: seq<T>)
  {
    forall i, j :: 0 <= i < j < |s| ==> s[i] != s[j]
  }

  /** There are 29 units, each of 9 distinct boxes. */
  lemma UnitListShape()
    ensures |UnitList()| == 29
    ensures forall u :: 0 <= u < 29 ==> |UnitList()[u]| == 9 && Distinct(UnitList()[u])
  {
    var us := UnitList();
    forall u | 0 <= u < 29
      ensures |us[u]| == 9 && Distinct(us[u])
    {
      if u < 9 {
        assert us[u] == RowUnit(u);
      } else if u < 18 {
        assert us[u] == ColumnUnit(u - 9);
      } else if u < 27 {
        var s := u - 18;
        assert us[u] == SquareUnit(s);
        forall i, j | 0 <= i < j < 9
          ensures SquareUnit(s)[i] != SquareUnit(s)[j]
        {
          assert i / 3 != j / 3 || i % 3 != j % 3;
        }
      } else if u == 27 {
        assert us[u] == DiagonalUnit();
      } else {
        assert us[u] == AntiDiagonalUnit();
      }
    }
  }

  /** The units built from names and the units built from positions agree:
      the k-th box of unit u has the name the source puts there. */
  lemma UnitNamesAgree()
    ensures |UnitListByName()| == |UnitList()| == 29
    ensures forall u, k :: 0 <= u < 29 && 0 <= k < 9 ==>
              |UnitListByName()[u]| == |UnitList()[u]| == 9 &&
              UnitListByName()[u][k] == Name(UnitList()[u][k])
  {
    UnitListShape();
    var byName, us := UnitListByName(), UnitList();
    assert |RowUnitsByName()| == |ColumnUnitsByName()| == |SquareUnitsByName()| == 9;
    forall u, k | 0 <= u < 29 && 0 <= k < 9
      ensures |byName[u]| == 9 && byName[u][k] == Name(us[u][k])
    {
      if u < 9 {
        assert byName[u] == RowUnitsByName()[u] && us[u] == RowUnit(u);
        RowUnitName(u, k);
      } else if u < 18 {
        assert byName[u] == ColumnUnitsByName()[u - 9] && us[u] == ColumnUnit(u - 9);
        ColumnUnitName(u - 9, k);
      } else if u < 27 {
        assert byName[u] == SquareUnitsByName()[u - 18] && us[u] == SquareUnit(u - 18);
        SquareUnitName(u - 18, k);
      } else {
        assert byName[u] == DiagonalUnitsByName()[u - 27];
        assert us[u] == [DiagonalUnit(), AntiDiagonalUnit()][u - 27];
        DiagonalUnitName(k);
      }
    }
  }

  lemma RowUnitName(r: nat, k: nat)
    requires r < 9 && k < 9
    ensures |RowUnitsByName()[r]| == 9 && RowUnitsByName()[r][k] == Name(RowUnit(r)[k])
  {
    CrossAt([Rows[r]], Cols, 0, k);
    NameAt(RowUnit(r)[k], r, k);
  }

  lemma ColumnUnitName(c: nat, k: nat)
    requires c < 9 && k < 9
    ensures |ColumnUnitsByName()[c]| == 9 && ColumnUnitsByName()[c][k] == Name(ColumnUnit(c)[k])
  {
    var col := [Cols[c]];
    assert ColumnUnitsByName()[c] == Cross(Rows, col);
    CrossAt(Rows, col, k, 0);
    assert Cross(Rows, col)[k] == [Rows[k], Cols[c]];
    NameAt(ColumnUnit(c)[k], k, c);
  }

  lemma SquareUnitName(s: nat, k: nat)
    requires s < 9 && k < 9
    ensures |SquareUnitsByName()[s]| == 9 && SquareUnitsByName()[s][k] == Name(SquareUnit(s)[k])
  {
    var t, i, j := s / 3, k / 3, k % 3;
    LabelCodes();
    var rs, cs := RowBands[t], ColStacks[s % 3];
    assert SquareUnitsByName()[s] == Cross(rs, cs);
    CrossAt(rs, cs, i, j);
    assert i * 3 + j == k;
    assert Cross(rs, cs)[k] == [rs[i], cs[j]];
    var r, c := 3 * t + i, 3 * (s % 3) + j;
    assert rs[i] == Rows[r] && cs[j] == Cols[c];
    NameAt(SquareUnit(s)[k], r, c);
  }

  lemma DiagonalUnitName(k: nat)
    requires k < 9
    ensures |DiagonalUnitsByName()[0]| == |DiagonalUnitsByName()[1]| == 9
    ensures DiagonalUnitsByName()[0][k] == Name(DiagonalUnit()[k])
    ensures DiagonalUnitsByName()[1][k] == Name(AntiDiagonalUnit()[k])
  {
    NameAt(DiagonalUnit()[k], k, k);
    NameAt(AntiDiagonalUnit()[k], k, 8 - k);
  }

  // ---------------------------------------------------------------------------
  // `units` and `peers`

  /** `units[s]`: the units that contain box `b`, in `unitlist` order. */
  function UnitsOf(b: Box): (r: seq<seq<Box>>)
  {
    UnitsContaining(UnitList(), b)
  }

  function UnitsContaining(us: seq<seq<Box>>, b: Box): (r: seq<seq<Box>>)
    ensures forall u :: u in r <==> u in us && b in u
  {
    if us == [] then []
    else (if b in us[0] then [us[0]] else []) + UnitsContaining(us[1..], b)
  }

  /** `sum(units[s], [])`: the units of a box laid end to end. */
  function Flatten(us: seq<seq<Box>>): (r: seq<Box>)
    ensures forall x :: x in r <==> exists u :: u in us && x in u
  {
    if us == [] then [] else us[0] + Flatten(us[1..])
  }

  /** Two boxes lie together in some unit. */
  predicate SharesUnit(a: Box, b: Box)
  {
    exists u :: u in UnitList() && a in u && b in u
  }

  /** `peers[s]`: the boxes that share a unit with `b`, other than `b`. */
  function Peers(b: Box): (r: set<Box>)
    ensures forall p: Box :: p in r <==> p != b && SharesUnit(b, p)
  {
    (set x | x in Flatten(UnitsOf(b))) - {b}
  }

  /** No box is its own peer, and being peers is symmetric. */
  lemma PeersIrreflexiveSymmetric(a: Box, b: Box)
    ensures a !in Peers(a)
    ensures b in Peers(a) <==> a in Peers(b)
  {
  }

  /** Any two distinct boxes of one unit are peers. */
  lemma UnitMembersArePeers(u: nat, i: nat, j: nat)
    requires u < |UnitList()| && i < |UnitList()[u]| && j < |UnitList()[u]|
    requires UnitList()[u][i] != UnitList()[u][j]
    ensures UnitList()[u][j] in Peers(UnitList()[u][i])
  {
    assert UnitList()[u] in UnitList();
  }

  // ---------------------------------------------------------------------------
  // Peers by coordinates, and the peer count of a box off both diagonals

  /** The 3x3 square of a box, numbered as in `square_units`. */
  function Square(b: Box): (s: nat) { 3 * (Row(b) / 3) + Col(b) / 3 }

  predicate OnDiagonal(b: Box) { Row(b) == Col(b) }
  predicate OnAntiDiagonal(b: Box) { Row(b) + Col(b) == 8 }

  /** A box is 9 times its row plus its column. */
  lemma Compose9(r: nat, c: nat)
    requires r < 9 && c < 9
    ensures 9 * r + c < 81 && Row(9 * r + c) == r && Col(9 * r + c) == c
  {
  }

  lemma Compose3(q: nat, t: nat)
    requires q < 3 && t < 3
    ensures (3 * q + t) / 3 == q && (3 * q + t) % 3 == t
  {
  }

  lemma InRowUnit(r: nat, x: Box)
    requires r < 9
    ensures x in RowUnit(r) <==> Row(x) == r
  {
    if Row(x) == r {
      assert RowUnit(r)[Col(x)] == x;
    }
    if x in RowUnit(r) {
      var c :| 0 <= c < 9 && RowUnit(r)[c] == x;
      Compose9(r, c);
    }
  }

  lemma InColumnUnit(c: nat, x: Box)
    requires c < 9
    ensures x in ColumnUnit(c) <==> Col(x) == c
  {
    if Col(x) == c {
      assert ColumnUnit(c)[Row(x)] == x;
    }
    if x in ColumnUnit(c) {
      var r :| 0 <= r < 9 && ColumnUnit(c)[r] == x;
      Compose9(r, c);
    }
  }

  lemma InSquareUnit(s: nat, x: Box)
    requires s < 9
    ensures x in SquareUnit(s) <==> Square(x) == s
  {
    if Square(x) == s {
      SquareUnitHas(x);
    }
    if x in SquareUnit(s) {
      var k :| 0 <= k < 9 && SquareUnit(s)[k] == x;
      SquareUnitAt(s, k);
    }
  }

  lemma SquareUnitHas(x: Box)
    ensures Square(x) < 9 && x in SquareUnit(Square(x))
  {
    var R, C := Row(x), Col(x);
    var k := 3 * (R % 3) + C % 3;
    Compose3(R % 3, C % 3);
    Compose3(R / 3, C / 3);
    assert SquareUnit(Square(x))[k] == 9 * (3 * (R / 3) + R % 3) + (3 * (C / 3) + C % 3);
  }

  lemma SquareUnitAt(s: nat, k: nat)
    requires s < 9 && k < 9
    ensures Square(SquareUnit(s)[k]) == s
  {
    var r, c := 3 * (s / 3) + k / 3, 3 * (s % 3) + k % 3;
    assert SquareUnit(s)[k] == 9 * r + c;
    Compose9(r, c);
    Compose3(s / 3, k / 3);
    Compose3(s % 3, k % 3);
  }

  lemma InDiagonals(x: Box)
    ensures x in DiagonalUnit() <==> OnDiagonal(x)
    ensures x in AntiDiagonalUnit() <==> OnAntiDiagonal(x)
  {
    if OnDiagonal(x) {
      assert DiagonalUnit()[Row(x)] == x;
    }
    if x in DiagonalUnit() {
      var i :| 0 <= i < 9 && DiagonalUnit()[i] == x;
      Compose9(i, i);
    }
    if OnAntiDiagonal(x) {
      assert AntiDiagonalUnit()[Row(x)] == x;
    }
    if x in AntiDiagonalUnit() {
      var i :| 0 <= i < 9 && AntiDiagonalUnit()[i] == x;
      Compose9(i, 8 - i);
    }
  }

  /** Two boxes share a unit exactly when they share a row, a column or a
      square, or both lie on the same diagonal. */
  predicate SameUnitByCoordinates(a: Box, b: Box)
  {
    Row(a) == Row(b) || Col(a) == Col(b) || Square(a) == Square(b)
    || (OnDiagonal(a) && OnDiagonal(b)) || (OnAntiDiagonal(a) && OnAntiDiagonal(b))
  }

  lemma SharesUnitByCoordinates(a: Box, b: Box)
    ensures SharesUnit(a, b) <==> SameUnitByCoordinates(a, b)
  {
    if SharesUnit(a, b) {
      SharedUnitHasCoordinates(a, b);
    }
    if SameUnitByCoordinates(a, b) {
      CoordinatesGiveSharedUnit(a, b);
    }
  }

  lemma SharedUnitHasCoordinates(a: Box, b: Box)
    requires SharesUnit(a, b)
    ensures SameUnitByCoordinates(a, b)
  {
    var us := UnitList();
    assert |us| == 29;
    var u :| u in us && a in u && b in u;
    var i :| 0 <= i < 29 && us[i] == u;
    if i < 9 {
      assert u == RowUnit(i);
      InRowUnit(i, a);
      InRowUnit(i, b);
    } else if i < 18 {
      assert u == ColumnUnit(i - 9);
      InColumnUnit(i - 9, a);
      InColumnUnit(i - 9, b);
    } else if i < 27 {
      assert u == SquareUnit(i - 18);
      InSquareUnit(i - 18, a);
      InSquareUnit(i - 18, b);
    } else {
      assert u == DiagonalUnit() || u == AntiDiagonalUnit();
      InDiagonals(a);
      InDiagonals(b);
    }
  }

  lemma CoordinatesGiveSharedUnit(a: Box, b: Box)
    requires SameUnitByCoordinates(a, b)
    ensures SharesUnit(a, b)
  {
    var us := UnitList();
    assert |us| == 29;
    if Row(a) == Row(b) {
      InRowUnit(Row(a), a);
      InRowUnit(Row(a), b);
      assert us[Row(a)] == RowUnit(Row(a));
      assert us[Row(a)] in us;
    } else if Col(a) == Col(b) {
      InColumnUnit(Col(a), a);
      InColumnUnit(Col(a), b);
      assert us[9 + Col(a)] == ColumnUnit(Col(a));
      assert us[9 + Col(a)] in us;
    } else if Square(a) == Square(b) {
      InSquareUnit(Square(a), a);
      InSquareUnit(Square(a), b);
      assert us[18 + Square(a)] == SquareUnit(Square(a));
      assert us[18 + Square(a)] in us;
    } else {
      InDiagonals(a);
      InDiagonals(b);
      assert us[27] == DiagonalUnit() && us[28] == AntiDiagonalUnit();
      assert us[27] in us && us[28] in us;
    }
  }

  /** The index in 0..8 of the `t`-th of the eight values other than `x`. */
  function Skip(x: nat, t: nat): (y: nat)
    requires x < 9 && t < 8
    ensures y < 9 && y != x
  {
    if t < x then t else t + 1
  }

  /** The two rows (or columns) of `x`'s band other than `x` itself. */
  function BandMate(x: nat, t: nat): (y: nat)
    requires x < 9 && t < 2
    ensures y < 9 && y != x
  {
    3 * (x / 3) + Skip(x % 3, t)
  }

  /** Row and column of the `i`-th listed peer of the box in row `r` and
      column `c`: 8 in its row, 8 in its column, then the 4 others of its
      square. */
  function PeerRow(r: nat, c: nat, i: nat): (y: nat)
    requires r < 9 && c < 9 && i < 20
    ensures y < 9
  {
    if i < 8 then r
    else if i < 16 then Skip(r, i - 8)
    else BandMate(r, if i < 18 then 0 else 1)
  }

  function PeerCol(r: nat, c: nat, i: nat): (y: nat)
    requires r < 9 && c < 9 && i < 20
    ensures y < 9
  {
    if i < 8 then Skip(c, i)
    else if i < 16 then c
    else BandMate(c, i - 16 - 2 * (if i < 18 then 0 else 1))
  }

  /** No two positions of the list share both coordinates. */
  lemma PeerCoordinatesDistinct(r: nat, c: nat, i: nat, j: nat)
    requires r < 9 && c < 9 && i < j < 20
    ensures PeerRow(r, c, i) != PeerRow(r, c, j) || PeerCol(r, c, i) != PeerCol(r, c, j)
  {
  }

  /** The peers of a box off both diagonals, listed. */
  function PeerList(b: Box): (ps: seq<Box>)
  {
    var r, c := Row(b), Col(b);
    seq(20, i requires 0 <= i < 20 => 9 * PeerRow(r, c, i) + PeerCol(r, c, i))
  }

  /** The listed boxes are 20 different boxes. */
  lemma PeerListDistinct(b: Box)
    ensures |PeerList(b)| == 20 && Distinct(PeerList(b))
  {
    var ps, r, c := PeerList(b), Row(b), Col(b);
    forall i, j | 0 <= i < j < 20
      ensures ps[i] != ps[j]
    {
      PeerCoordinatesDistinct(r, c, i, j);
      Compose9(PeerRow(r, c, i), PeerCol(r, c, i));
      Compose9(PeerRow(r, c, j), PeerCol(r, c, j));
    }
  }

  /** Every listed box shares a row, a column or a square with `b`. */
  lemma PeerListSound(b: Box, i: nat)
    requires i < 20
    ensures |PeerList(b)| == 20
    ensures PeerList(b)[i] != b
    ensures Row(PeerList(b)[i]) == Row(b) || Col(PeerList(b)[i]) == Col(b)
            || Square(PeerList(b)[i]) == Square(b)
  {
    var r, c := Row(b), Col(b);
    var r', c' := PeerRow(r, c, i), PeerCol(r, c, i);
    assert PeerList(b)[i] == 9 * r' + c';
    Compose9(r', c');
    if i >= 16 {
      var tr := if i < 18 then 0 else 1;
      SquareMate(r, c, tr, i - 16 - 2 * tr);
    }
  }

  /** A box in the band of row `r` and the stack of column `c` lies in the
      same square. */
  lemma SquareMate(r: nat, c: nat, tr: nat, tc: nat)
    requires r < 9 && c < 9 && tr < 2 && tc < 2
    ensures 3 * (BandMate(r, tr) / 3) + BandMate(c, tc) / 3 == 3 * (r / 3) + c / 3
  {
    Compose3(r / 3, Skip(r % 3, tr));
    Compose3(c / 3, Skip(c % 3, tc));
  }

  /** Where the box in row `R` and column `C` sits in the list of the box in
      row `r` and column `c`, when the two share a row, a column or a band and
      a stack. */
  lemma PeerIndex(r: nat, c: nat, R: nat, C: nat) returns (i: nat)
    requires r < 9 && c < 9 && R < 9 && C < 9 && (R != r || C != c)
    requires R == r || C == c || (R / 3 == r / 3 && C / 3 == c / 3)
    ensures i < 20 && PeerRow(r, c, i) == R && PeerCol(r, c, i) == C
  {
    if R == r {
      i := if C < c then C else C - 1;
    } else if C == c {
      i := 8 + if R < r then R else R - 1;
    } else {
      var tr := if R % 3 < r % 3 then R % 3 else R % 3 - 1;
      var tc := if C % 3 < c % 3 then C % 3 else C % 3 - 1;
      i := 16 + 2 * tr + tc;
      assert BandMate(r, tr) == R && BandMate(c, tc) == C;
    }
  }

  /** Every box sharing a row, a column or a square with `b` is listed. */
  lemma PeerListHas(b: Box, p: Box)
    requires p != b
    requires Row(p) == Row(b) || Col(p) == Col(b) || Square(p) == Square(b)
    ensures p in PeerList(b)
  {
    var r, c, R, C := Row(b), Col(b), Row(p), Col(p);
    if R != r && C != c {
      Compose3(r / 3, c / 3);
      Compose3(R / 3, C / 3);
    }
    var i := PeerIndex(r, c, R, C);
    assert PeerList(b)[i] == p;
  }

  lemma PeerListComplete(b: Box)
    requires !OnDiagonal(b) && !OnAntiDiagonal(b)
    ensures forall p: Box :: p in PeerList(b) <==> p in Peers(b)
  {
    var ps := PeerList(b);
    forall p: Box
      ensures p in ps <==> p in Peers(b)
    {
      SharesUnitByCoordinates(b, p);
      if p in ps {
        var i :| 0 <= i < |ps| && ps[i] == p;
        PeerListSound(b, i);
      }
      if p in Peers(b) {
        PeerListHas(b, p);
      }
    }
  }

  lemma {:induction false} DistinctCardinality<T>(s: seq<T>)
    requires Distinct(s)
    ensures |set x | x in s| == |s|
  {
    if s != [] {
      DistinctCardinality(s[1..]);
      assert (set x | x in s) == {s[0]} + (set x | x in s[1..]);
    }
  }

  /** A box on neither diagonal has exactly 20 peers. */
  lemma PeerCountOffDiagonals(b: Box)
    requires !OnDiagonal(b) && !OnAntiDiagonal(b)
    ensures |Peers(b)| == 20
  {
    var listed := set x | x in PeerList(b);
    PeerListDistinct(b);
    DistinctCardinality(PeerList(b));
    PeerListComplete(b);
    assert Peers(b) <= listed;
    assert listed <= Peers(b);
    assert Peers(b) == listed;
  }
}
