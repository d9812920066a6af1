/**
 * `prepare_data`: turns a freshly parsed thermal log into the twelve-column
 * table that the charts read, and finds the zero-spiral marker row.
 *
 * The input frame is changed in place (it gains `backdiff` and every missing
 * expected column); the table handed back is a new frame.
 */
module Prepare {
  import opened Series
  import opened Frame

  const ServoTrack := "FTC Servo Track"
  const SpiralNumber := "Spiral Number"
  const SpiralCount := "Spiral Count"
  const BackdiffLabel := "backdiff"

  /** The columns of the prepared table, in their fixed order. */
  const OrderedColumns: seq<string> := [
    "Spiral Count", "Spiral Number", "LastFindTrackCenterPosition",
    "FTC Servo Track", "PID Posn Error", "backdiff",
    "mS FTC time", "PWupdate", "nS LastIndex2SIM",
    "nS diffInx2SIM", "AvgChangeInIndexToSIM", "ns Time Correction"]

  /** The twelve expected labels are distinct and include the four the code names. */
  lemma OrderedColumnsFacts()
    ensures |OrderedColumns| == 12 && Distinct(OrderedColumns)
    ensures OrderedColumns[0] == SpiralCount && OrderedColumns[1] == SpiralNumber
    ensures OrderedColumns[3] == ServoTrack && OrderedColumns[5] == BackdiffLabel
  {
  }

  /** `range(1, n + 1)`: the value k + 1 at every position k. */
  function Counting(n: nat): (r: seq<Cell>)
    ensures |r| == n
    ensures forall k :: 0 <= k < n ==> r[k] == Num((k + 1) as real)
  {
    seq(n, k => Num((k + 1) as real))
  }

  /** The labels of `wanted` that `present` lacks, in the order of `wanted`. */
  function MissingColumns(present: seq<string>, wanted: seq<string>): seq<string>
  {
    if wanted == [] then []
    else
      var last := wanted[|wanted| - 1];
      MissingColumns(present, wanted[..|wanted| - 1]) + (if last in present then [] else [last])
  }

  /** A label is missing exactly when it is wanted and not present. */
  lemma {:induction false} MissingColumnsMember(present: seq<string>, wanted: seq<string>, c: string)
    ensures c in MissingColumns(present, wanted) <==> c in wanted && c !in present
  {
    if wanted != [] {
      var init := wanted[..|wanted| - 1];
      assert wanted == init + [wanted[|wanted| - 1]];
      MissingColumnsMember(present, init, c);
    }
  }

  /** Extending the wanted labels by one extends the missing ones by that label when it is absent. */
  lemma MissingColumnsSnoc(present: seq<string>, wanted: seq<string>, x: string)
    ensures MissingColumns(present, wanted + [x])
         == MissingColumns(present, wanted) + (if x in present then [] else [x])
  {
    assert (wanted + [x])[..|wanted|] == wanted;
  }

  /** `cols` after appending, one by one in order, each label of `wanted` it does not yet hold. */
  function FilledColumns(cols: seq<string>, wanted: seq<string>): seq<string>
  {
    if wanted == [] then cols
    else WithLabel(FilledColumns(cols, wanted[..|wanted| - 1]), wanted[|wanted| - 1])
  }

  /**
   * With distinct wanted labels, appending them one by one keeps the original
   * labels first and then adds exactly the missing ones, in the wanted order.
   */
  lemma {:induction false} FilledColumnsAppendsMissing(cols: seq<string>, wanted: seq<string>)
    requires Distinct(wanted)
    ensures FilledColumns(cols, wanted) == cols + MissingColumns(cols, wanted)
  {
    if wanted != [] {
      var init, last := wanted[..|wanted| - 1], wanted[|wanted| - 1];
      assert wanted == init + [last];
      FilledColumnsAppendsMissing(cols, init);
      MissingColumnsSnoc(cols, init, last);
      MissingColumnsMember(cols, init, last);
      assert last !in init;
    }
  }

  /** The value that an expected column other than `backdiff` and `Spiral Count` ends with. */
  function Carried(input: map<string, seq<Cell>>, name: string, n: nat): seq<Cell>
  {
    if name in input then input[name] else NaNs(n)
  }

  /** The columns of `input` plus a no-value column for every wanted label it lacks. */
  function FilledData(input: map<string, seq<Cell>>, wanted: seq<string>, n: nat): (r: map<string, seq<Cell>>)
  {
    map c | c in input.Keys + (set w | w in wanted) :: Carried(input, c, n)
  }

  /** Filling one more wanted label adds a no-value column exactly when the label is new. */
  lemma FilledDataSnoc(input: map<string, seq<Cell>>, wanted: seq<string>, x: string, n: nat)
    ensures FilledData(input, wanted + [x], n) ==
      if x in input || x in wanted then FilledData(input, wanted, n)
      else FilledData(input, wanted, n)[x := NaNs(n)]
  {
    var before, after := FilledData(input, wanted, n), FilledData(input, wanted + [x], n);
    assert forall c :: c in after <==> c in before || c == x;
  }

  /**
   * The `for col in ordered_columns` loop: each wanted label the frame lacks
   * is added, in the wanted order, as a no-value column. Existing columns are
   * left as they are and the row count does not change.
   */
  method FillMissing(df: DataFrame, wanted: seq<string>)
    requires df.Valid()
    requires Distinct(wanted)
    modifies df
    ensures df.Valid() && df.rows == old(df.rows)
    ensures df.columns == old(df.columns) + MissingColumns(old(df.columns), wanted)
    ensures df.data == FilledData(old(df.data), wanted, old(df.rows))
    ensures forall c :: c in old(df.data) ==> c in df.data && df.data[c] == old(df.data)[c]
  {
    ghost var cols0, data0 := df.columns, df.data;
    var k := 0;
    while k < |wanted|
      invariant 0 <= k <= |wanted|
      invariant df.Valid() && df.rows == old(df.rows)
      invariant df.columns == FilledColumns(cols0, wanted[..k])
      invariant df.data == FilledData(data0, wanted[..k], df.rows)
    {
      var col := wanted[k];
      assert wanted[..k + 1] == wanted[..k] + [col];
      assert (wanted[..k] + [col])[..k] == wanted[..k];
      assert col !in wanted[..k];
      FilledDataSnoc(data0, wanted[..k], col, df.rows);
      if col !in df.columns {
        df.SetColumn(col, NaNs(df.rows));
      }
      k := k + 1;
    }
    assert wanted[..k] == wanted;
    FilledColumnsAppendsMissing(cols0, wanted);
  }

  /**
   * The expected columns of `data`, in a map of their own, with
   * `Spiral Count` replaced by 1..n.
   */
  function Projected(data: map<string, seq<Cell>>, n: nat): map<string, seq<Cell>>
    requires forall c :: c in OrderedColumns ==> c in data
  {
    map c | c in OrderedColumns :: if c == SpiralCount then Counting(n) else data[c]
  }

  /**
   * `df[ordered_columns].copy()` followed by the renumbering of
   * `Spiral Count`: a new frame with exactly the expected columns in order
   * and the same rows, whose `Spiral Count` is 1..n and whose other columns
   * are those of `df`, which itself is left as it was.
   */
  method ProjectAndRenumber(df: DataFrame) returns (t: DataFrame)
    requires df.Valid()
    requires forall c :: c in OrderedColumns ==> c in df.data
    ensures fresh(t) && t.Valid()
    ensures t.columns == OrderedColumns && t.rows == df.rows
    ensures t.data == Projected(df.data, df.rows)
  {
    OrderedColumnsFacts();
    t := df.Select(OrderedColumns);
    t.SetColumn(SpiralCount, Counting(t.rows));
  }

  /**
   * The columns of the prepared table, given the input frame's columns and
   * row count: `Spiral Count` renumbered 1..n, `backdiff` derived from the
   * servo track, and every other expected column carried over from the input
   * or all no-value.
   */
  function PreparedColumns(input: map<string, seq<Cell>>, n: nat): map<string, seq<Cell>>
    requires ServoTrack in input
  {
    map c | c in OrderedColumns ::
      if c == SpiralCount then Counting(n)
      else if c == BackdiffLabel then Backdiff(input[ServoTrack])
      else Carried(input, c, n)
  }

  /**
   * Nothing is filtered or reordered: the prepared columns are exactly the
   * twelve expected ones and, when every input column has n rows, each of
   * them has n rows too.
   */
  lemma PreparedShape(input: map<string, seq<Cell>>, n: nat)
    requires ServoTrack in input
    requires forall c :: c in input ==> |input[c]| == n
    ensures forall c :: c in PreparedColumns(input, n) <==> c in OrderedColumns
    ensures forall c :: c in PreparedColumns(input, n) ==> |PreparedColumns(input, n)[c]| == n
  {
  }

  /** `Spiral Count` at position k is k + 1, whatever the input held. */
  lemma PreparedSpiralCount(input: map<string, seq<Cell>>, n: nat, k: nat)
    requires ServoTrack in input
    requires k < n
    ensures SpiralCount in PreparedColumns(input, n)
    ensures PreparedColumns(input, n)[SpiralCount][k] == Num((k + 1) as real)
  {
    OrderedColumnsFacts();
  }

  /**
   * `backdiff` at row i is a non-negative number: 0 on the first row, the
   * absolute difference of the servo track to the row before when both are
   * present, and 0 when either is missing.
   */
  lemma PreparedBackdiff(input: map<string, seq<Cell>>, n: nat, i: nat)
    requires ServoTrack in input && |input[ServoTrack]| == n
    requires i < n
    ensures BackdiffLabel in PreparedColumns(input, n)
    ensures var d, servo := PreparedColumns(input, n)[BackdiffLabel], input[ServoTrack];
      && d[i].Num? && d[i].value >= 0.0
      && d[i] == if i == 0 then Num(0.0)
                 else if servo[i - 1].Num? && servo[i].Num?
                 then Num(AbsReal(servo[i - 1].value - servo[i].value))
                 else Num(0.0)
  {
    OrderedColumnsFacts();
    BackdiffAt(input[ServoTrack], i);
  }

  /**
   * Every other expected column keeps the input's values when the input has
   * it, and is all no-value otherwise.
   */
  lemma PreparedCarriesOthers(input: map<string, seq<Cell>>, n: nat, c: string)
    requires ServoTrack in input
    requires c in OrderedColumns && c != SpiralCount && c != BackdiffLabel
    ensures c in PreparedColumns(input, n)
    ensures c in input ==> PreparedColumns(input, n)[c] == input[c]
    ensures c !in input ==> PreparedColumns(input, n)[c] == NaNs(n)
  {
  }

  /**
   * The marker comes from the input's `Spiral Number` column; an input
   * without that column is not an error and yields no marker.
   */
  lemma PreparedMarker(input: map<string, seq<Cell>>, n: nat)
    requires ServoTrack in input
    ensures SpiralNumber in PreparedColumns(input, n)
    ensures ZeroSpiralMarker(PreparedColumns(input, n)[SpiralNumber]) ==
      if SpiralNumber in input then ZeroSpiralMarker(input[SpiralNumber]) else -1
  {
    OrderedColumnsFacts();
    NoValueColumnHasNoMarker(n);
  }

  /** Adding `backdiff`, filling the missing columns and projecting yields the prepared columns. */
  lemma FillThenProject(input: map<string, seq<Cell>>, n: nat)
    requires ServoTrack in input
    ensures var filled := FilledData(input[BackdiffLabel := Backdiff(input[ServoTrack])], OrderedColumns, n);
      (forall c :: c in OrderedColumns ==> c in filled) &&
      Projected(filled, n) == PreparedColumns(input, n)
  {
  }

  /** The prepared table together with its zero-spiral marker. */
  datatype Prepared = Prepared(table: DataFrame, zeroSpiral: int)

  /**
   * `prepare_data(df)`.
   *
   * Without a servo-track column it fails with a key error and changes
   * nothing. Otherwise the input frame gains `backdiff` (replacing one it
   * already had) and a no-value column for each missing expected label, in
   * the expected order; the result is a new frame with exactly the twelve
   * expected columns in order, the same row count, the prepared columns,
   * and the zero-spiral marker of its `Spiral Number` column.
   */
  method PrepareData(df: DataFrame) returns (r: Result<Prepared>)
    requires df.Valid()
    modifies df
    ensures r.Err? <==> ServoTrack !in old(df.data)
    ensures r.Err? ==> r.error == KeyError(ServoTrack) && unchanged(df)
    // the input frame, changed in place
    ensures r.Ok? ==> df.Valid() && df.rows == old(df.rows)
    ensures r.Ok? ==>
      df.columns == WithLabel(old(df.columns), BackdiffLabel)
                    + MissingColumns(WithLabel(old(df.columns), BackdiffLabel), OrderedColumns)
    ensures r.Ok? ==>
      df.data == FilledData(old(df.data)[BackdiffLabel := Backdiff(old(df.data)[ServoTrack])],
                            OrderedColumns, old(df.rows))
    // the prepared table
    ensures r.Ok? ==> fresh(r.value.table) && r.value.table.Valid()
    ensures r.Ok? ==> r.value.table.columns == OrderedColumns && r.value.table.rows == old(df.rows)
    ensures r.Ok? ==> r.value.table.data == PreparedColumns(old(df.data), old(df.rows))
    ensures r.Ok? ==> r.value.zeroSpiral == ZeroSpiralMarker(r.value.table.data[SpiralNumber])
  {
    var servo := df.Column(ServoTrack);
    if servo.Err? {
      return Err(servo.error);
    }
    FillThenProject(df.data, df.rows);
    OrderedColumnsFacts();
    df.SetColumn(BackdiffLabel, Backdiff(servo.value));
    FillMissing(df, OrderedColumns);
    var t := ProjectAndRenumber(df);
    var zeroSpiral := ZeroSpiralMarker(t.data[SpiralNumber]);
    r := Ok(Prepared(t, zeroSpiral));
  }
}
