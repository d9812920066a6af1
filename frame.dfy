/**
 * The part of a pandas DataFrame that the thermal log preparation touches:
 * an ordered list of distinct column labels, one column of cells per label,
 * and a common row count. The row index is the 0..rows-1 range index that
 * CSV parsing produces, so a row's index label is its position.
 */
module Frame {
  import opened Series

  datatype Error = KeyError(name: string)

  datatype Result<T> = Ok(value: T) | Err(error: Error)

  predicate Distinct<T(==)>(s: seq<T>)
  {
    forall i, j :: 0 <= i < j < |s| ==> s[i] != s[j]
  }

  /** `cols` with `name` appended when it is not already one of them. */
  function WithLabel(cols: seq<string>, name: string): seq<string>
  {
    if name in cols then cols else cols + [name]
  }

  class DataFrame {
    var columns: seq<string>
    var data: map<string, seq<Cell>>
    var rows: nat

    /** Labels are distinct, name exactly the stored columns, and every column has `rows` cells. */
    ghost predicate Valid()
      reads this
    {
      && Distinct(columns)
      && (forall c :: c in data <==> c in columns)
      && (forall c :: c in data ==> |data[c]| == rows)
    }

    /** A frame with the given labels, columns and row count. */
    constructor (columns: seq<string>, data: map<string, seq<Cell>>, rows: nat)
      requires Distinct(columns)
      requires forall c :: c in data <==> c in columns
      requires forall c :: c in data ==> |data[c]| == rows
      ensures Valid()
      ensures this.columns == columns && this.data == data && this.rows == rows
    {
      this.columns := columns;
      this.data := data;
      this.rows := rows;
    }

    /** `df[name]`: the column, or a key error when the frame has no such column. */
    function Column(name: string): (r: Result<seq<Cell>>)
      reads this
      requires Valid()
      ensures r.Ok? <==> name in columns
      ensures r.Ok? ==> |r.value| == rows && r.value == data[name]
      ensures r.Err? ==> r.error == KeyError(name)
    {
      if name in data then Ok(data[name]) else Err(KeyError(name))
    }

    /**
     * `df[name] = values`: an existing column is replaced where it stands;
     * a new one is appended after the others. No other column changes.
     */
    method SetColumn(name: string, values: seq<Cell>)
      requires Valid()
      requires |values| == rows
      modifies this
      ensures Valid()
      ensures rows == old(rows)
      ensures data == old(data)[name := values]
      ensures columns == WithLabel(old(columns), name)
    {
      if name !in columns {
        columns := columns + [name];
      }
      data := data[name := values];
    }

    /**
     * `df[labels].copy()`: a new frame holding exactly the given columns, in
     * the given order, with the same rows; this frame is left as it was.
     */
    method Select(labels: seq<string>) returns (t: DataFrame)
      requires Valid()
      requires Distinct(labels)
      requires forall l :: l in labels ==> l in data
      ensures fresh(t) && t.Valid()
      ensures t.columns == labels && t.rows == rows
      ensures forall l :: l in labels ==> t.data[l] == data[l]
    {
      var picked := map l | l in labels :: data[l];
      t := new DataFrame(labels, picked, rows);
    }
  }
}
