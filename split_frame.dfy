/**
 * `splitDataFrameList` and its nested helper `splitListToRows`, as the
 * source runs them: one shared list (`new_rows`) that every row appends to,
 * a loop over the rows (the row-wise `df.apply`) and, per row, a loop over
 * the pieces of the target value.
 */
module SplitFrame {
  import opened Wrappers
  import opened PyStr
  import opened Frame

  /** The Python list `new_rows`: only ever appended to. */
  class RowAccumulator {
    var rows: seq<Row>

    constructor ()
      ensures rows == []
    {
      rows := [];
    }

    /** `list.append`. */
    method Append(row: Row)
      modifies this
      ensures rows == old(rows) + [row]
    {
      rows := rows + [row];
    }
  }

  /**
   * `splitListToRows(row, acc, col, sep)`: split the target value and append
   * one copy of the row per piece.  When `row[col].split(sep)` raises, it
   * does so before anything is appended, and the exception is returned.
   */
  method SplitListToRows(row: Row, acc: RowAccumulator, col: string, sep: string)
    returns (raised: Option<Error>)
    modifies acc
    ensures raised == Check(row, col, sep)
    ensures raised.Some? ==> acc.rows == old(acc.rows)
    ensures raised.None? ==> acc.rows == old(acc.rows) + ExplodeRow(row, col, sep)
  {
    if col !in row {
      return Some(KeyError(col));
    }
    var value := row[col];
    if !value.Text? {
      return Some(AttributeError);
    }
    if |sep| == 0 {
      return Some(EmptySeparator);
    }
    var splitRow := Split(value.s, sep);
    ghost var copies := ExplodeRow(row, col, sep);
    for j := 0 to |splitRow|
      invariant acc.rows == old(acc.rows) + copies[..j]
    {
      var newRow := row[col := Text(splitRow[j])];
      acc.Append(newRow);
      assert copies[..j + 1] == copies[..j] + [newRow];
    }
    assert copies[..|splitRow|] == copies;
    raised := None;
  }

  /**
   * `splitDataFrameList(df, col, sep)`: the rows of the new frame, or the
   * exception raised by the first row that cannot be split.  A frame with an
   * empty axis gets `apply`'s single probe call, whose exception is swallowed.
   */
  method SplitDataFrameList(frame: DataFrame, col: string, sep: string)
    returns (result: Result<seq<Row>, Error>)
    ensures result == SplitDataFrame(frame, col, sep)
  {
    var newRows := new RowAccumulator();
    if frame.EmptyAxis() {
      ProbeRaises(frame.columns, col, sep);
      var swallowed := SplitListToRows(ProbeRow(frame.columns), newRows, col, sep);
      return Success(newRows.rows);
    }
    var df := frame.rows;
    for i := 0 to |df|
      invariant Explode(df[..i], col, sep) == Success(newRows.rows)
    {
      var raised := SplitListToRows(df[i], newRows, col, sep);
      ExplodeSnoc(df[..i], df[i], col, sep);
      assert df[..i + 1] == df[..i] + [df[i]];
      if raised.Some? {
        ExplodeSucceeds(df[..i], col, sep);
        forall k | 0 <= k < i ensures Check(df[k], col, sep).None? {
          assert df[k] == df[..i][k];
        }
        ExplodeFirstError(df, col, sep, i);
        return Failure(raised.value);
      }
    }
    assert df[..|df|] == df;
    result := Success(newRows.rows);
  }
}
