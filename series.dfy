/**
 * Column-level operations of the thermal log table: the cells of one column,
 * the pandas series operations that derive the `backdiff` column, and the
 * search for the zero-spiral marker row.
 *
 * A cell is either a number or pandas' no-value marker (NaN). Numbers are
 * modelled as exact reals.
 */
module Series {

  /** One cell of a numeric column; `NaN` is pandas' no-value marker. */
  datatype Cell = NaN | Num(value: real)

  /** A column of `n` no-value cells, as written by `df[col] = np.nan`. */
  function NaNs(n: nat): (r: seq<Cell>)
    ensures |r| == n
    ensures forall i :: 0 <= i < n ==> r[i] == NaN
  {
    seq(n, _ => NaN)
  }

  // ---------------------------------------------------------------------
  // Element-wise series operations (NaN propagates through arithmetic)
  // ---------------------------------------------------------------------

  function AbsReal(x: real): real { if x < 0.0 then -x else x }

  /** `a - b` on two cells. */
  function CellMinus(a: Cell, b: Cell): Cell
  {
    if a.Num? && b.Num? then Num(a.value - b.value) else NaN
  }

  /** `abs(c)` on one cell. */
  function CellAbs(c: Cell): Cell
  {
    if c.Num? then Num(AbsReal(c.value)) else NaN
  }

  /** `fillna(v)` on one cell. */
  function CellFill(c: Cell, v: real): Cell
  {
    if c.Num? then c else Num(v)
  }

  /** `s.shift(1)`: every value moves one row down and the first row becomes NaN. */
  function Shift(s: seq<Cell>): (r: seq<Cell>)
    ensures |r| == |s|
    ensures |s| > 0 ==> r[0] == NaN
    ensures forall i :: 1 <= i < |s| ==> r[i] == s[i - 1]
  {
    if s == [] then [] else [NaN] + s[..|s| - 1]
  }

  /** Row-aligned subtraction of two series of the same length. */
  function Sub(a: seq<Cell>, b: seq<Cell>): (r: seq<Cell>)
    requires |a| == |b|
    ensures |r| == |a|
    ensures forall i :: 0 <= i < |a| ==>
      r[i] == if a[i].Num? && b[i].Num? then Num(a[i].value - b[i].value) else NaN
  {
    seq(|a|, i requires 0 <= i < |a| => CellMinus(a[i], b[i]))
  }

  /** Element-wise `abs`. */
  function Abs(s: seq<Cell>): (r: seq<Cell>)
    ensures |r| == |s|
    ensures forall i :: 0 <= i < |s| ==>
      r[i] == if s[i].Num? then Num(AbsReal(s[i].value)) else NaN
    ensures forall i :: 0 <= i < |s| && r[i].Num? ==> r[i].value >= 0.0
  {
    seq(|s|, i requires 0 <= i < |s| => CellAbs(s[i]))
  }

  /** `s.fillna(v)`: every no-value cell becomes `v`, numbers stay. */
  function FillNa(s: seq<Cell>, v: real): (r: seq<Cell>)
    ensures |r| == |s|
    ensures forall i :: 0 <= i < |s| ==> r[i] == if s[i].Num? then s[i] else Num(v)
    ensures forall i :: 0 <= i < |s| ==> r[i].Num?
  {
    seq(|s|, i requires 0 <= i < |s| => CellFill(s[i], v))
  }

  // ---------------------------------------------------------------------
  // The derived backdiff column
  // ---------------------------------------------------------------------

  /**
   * `abs(servo.shift(1) - servo).fillna(0)`: the back-difference of the
   * servo-track column. Every row holds a number and none is negative.
   */
  function Backdiff(servo: seq<Cell>): (r: seq<Cell>)
    ensures |r| == |servo|
    ensures forall i :: 0 <= i < |r| ==> r[i].Num? && r[i].value >= 0.0
  {
    FillNa(Abs(Sub(Shift(servo), servo)), 0.0)
  }

  /**
   * Closed form of the back-difference: row 0 is 0; a later row is the
   * absolute difference to the row before when both servo values are
   * present, and 0 when either is missing.
   */
  lemma BackdiffAt(servo: seq<Cell>, i: nat)
    requires i < |servo|
    ensures Backdiff(servo)[i] ==
      if i == 0 then Num(0.0)
      else if servo[i - 1].Num? && servo[i].Num?
      then Num(AbsReal(servo[i - 1].value - servo[i].value))
      else Num(0.0)
  {
    var sh := Shift(servo);
    var d := Sub(sh, servo);
    var a := Abs(d);
    assert d[i] == CellMinus(sh[i], servo[i]);
    assert a[i] == CellAbs(d[i]);
    assert Backdiff(servo)[i] == CellFill(a[i], 0.0);
  }

  /**
   * A row's back-difference is positive exactly when it is not the first row,
   * both it and the row before carry a servo value, and the two values differ.
   */
  lemma BackdiffJump(servo: seq<Cell>, i: nat)
    requires i < |servo|
    ensures Backdiff(servo)[i].value > 0.0 <==>
      i > 0 && servo[i - 1].Num? && servo[i].Num? && servo[i - 1] != servo[i]
  {
    BackdiffAt(servo, i);
  }

  // ---------------------------------------------------------------------
  // The zero-spiral marker
  // ---------------------------------------------------------------------

  /** `cell == 0`: a no-value cell never compares equal to zero. */
  predicate IsZero(c: Cell): (b: bool)
    ensures b <==> c.Num? && c.value == 0.0
  {
    c == Num(0.0)
  }

  /**
   * `index[col == 0].tolist()`: the positions whose cell is zero, in
   * increasing order, and all of them.
   */
  function ZeroRows(s: seq<Cell>): (z: seq<nat>)
    ensures forall k :: 0 <= k < |z| ==> z[k] < |s| && IsZero(s[z[k]])
    ensures forall i :: 0 <= i < |s| && IsZero(s[i]) ==> i in z
    ensures forall k, l :: 0 <= k < l < |z| ==> z[k] < z[l]
  {
    if s == [] then []
    else
      var z := ZeroRows(s[..|s| - 1]);
      if IsZero(s[|s| - 1]) then z + [|s| - 1] else z
  }

  /**
   * The marker row: the position of the second zero row plus one, or -1 when
   * there are fewer than two zero rows. When defined it lies in [2, |s|].
   */
  function ZeroSpiralMarker(spiral: seq<Cell>): (m: int)
    ensures m == -1 || 2 <= m <= |spiral|
  {
    var z := ZeroRows(spiral);
    if |z| > 1 then
      assert z[0] < z[1];
      z[1] + 1
    else -1
  }

  /** The marker is -1 exactly when no two rows hold a zero spiral number. */
  lemma MarkerAbsentIff(spiral: seq<Cell>)
    ensures ZeroSpiralMarker(spiral) == -1 <==>
      !exists i, j :: 0 <= i < j < |spiral| && IsZero(spiral[i]) && IsZero(spiral[j])
  {
    var z := ZeroRows(spiral);
    if |z| > 1 {
      assert 0 <= z[0] < z[1] < |spiral| && IsZero(spiral[z[0]]) && IsZero(spiral[z[1]]);
    } else {
      forall i | 0 <= i < |spiral| && IsZero(spiral[i]) ensures i == z[0] {
        assert i in z;
      }
    }
  }

  /**
   * When the marker is defined, the row just before it (position marker - 1)
   * holds a zero, and exactly one earlier row holds a zero: it is the second
   * zero row, never the first.
   */
  lemma MarkerIsSecondZero(spiral: seq<Cell>)
    requires ZeroSpiralMarker(spiral) != -1
    ensures var p := ZeroSpiralMarker(spiral) - 1;
      1 <= p < |spiral| && IsZero(spiral[p]) &&
      exists i :: 0 <= i < p && IsZero(spiral[i]) &&
        forall j :: 0 <= j < p && j != i ==> !IsZero(spiral[j])
  {
    var z := ZeroRows(spiral);
    var p := z[1];
    forall j | 0 <= j < p && IsZero(spiral[j]) ensures j == z[0] {
      assert j in z;
      var k :| 0 <= k < |z| && z[k] == j;
      assert k < 1;
    }
    assert 0 <= z[0] < p && IsZero(spiral[z[0]]);
  }

  /** A spiral-number column made only of no-value cells yields no marker. */
  lemma NoValueColumnHasNoMarker(n: nat)
    ensures ZeroSpiralMarker(NaNs(n)) == -1
  {
    MarkerAbsentIff(NaNs(n));
  }

  /** The worked example: servo [5, 7, 2] and spiral [1, 0, 0]. */
  lemma ThreeRowExample()
    ensures Backdiff([Num(5.0), Num(7.0), Num(2.0)]) == [Num(0.0), Num(2.0), Num(5.0)]
    ensures ZeroSpiralMarker([Num(1.0), Num(0.0), Num(0.0)]) == 3
  {
    var servo := [Num(5.0), Num(7.0), Num(2.0)];
    BackdiffAt(servo, 0);
    BackdiffAt(servo, 1);
    BackdiffAt(servo, 2);
    var spiral := [Num(1.0), Num(0.0), Num(0.0)];
    assert spiral[..2] == [Num(1.0), Num(0.0)];
    assert spiral[..2][..1] == [Num(1.0)];
    assert ZeroRows(spiral[..2][..1]) == [];
    assert ZeroRows(spiral[..2]) == [1];
    assert ZeroRows(spiral) == [1, 2];
  }
}
