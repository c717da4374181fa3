/**
 * The table model and the specification of `splitDataFrameList`.
 *
 * A data frame is a set of column labels and a sequence of rows; a row maps
 * column names to cells.
 * Exploding a frame on `col` with separator `sep` replaces every row by one
 * copy per piece of `row[col].split(sep)`, the copy carrying that piece in
 * `col` and every other column unchanged.  The copies come in input-row
 * order and, within a row, in piece order.  Evaluating `row[col].split(sep)`
 * raises when the column is absent, when the cell is not a string, or when
 * the separator is empty; the first row that raises ends the whole call.
 *
 * When the frame has no rows or no columns, `DataFrame.apply(..., axis=1)`
 * does not go row by row: it calls the function once on a probe row that has
 * every column and only NaN values, and swallows whatever that call raises.
 * The probe always raises before anything is appended, so the result is empty.
 */
module Frame {
  import opened Wrappers
  import opened PyStr

  /** A data-frame cell: a string, a number, or a missing value (NaN). */
  datatype Cell = Text(s: string) | Number(n: int) | Missing

  /** A row as `row.to_dict()` gives it: column name to cell. */
  type Row = map<string, Cell>

  /** The exceptions `row[col].split(sep)` can raise. */
  datatype Error =
    | KeyError(column: string)   // `row[col]` on a row without that column
    | AttributeError             // the cell is not a `str`, so it has no `split`
    | EmptySeparator             // `str.split` refuses the separator `""` (ValueError)

  /** What evaluating `row[col].split(sep)` raises, checked in Python's evaluation order. */
  function Check(row: Row, col: string, sep: string): (r: Option<Error>)
    ensures r.None? <==> col in row && row[col].Text? && |sep| > 0
    ensures col !in row ==> r == Some(KeyError(col))
    ensures col in row && !row[col].Text? ==> r == Some(AttributeError)
  {
    if col !in row then Some(KeyError(col))
    else if !row[col].Text? then Some(AttributeError)
    else if |sep| == 0 then Some(EmptySeparator)
    else None
  }

  /** Every row of the frame can be split. */
  predicate AllSplittable(rows: seq<Row>, col: string, sep: string)
  {
    forall i :: 0 <= i < |rows| ==> Check(rows[i], col, sep).None?
  }

  /** The pieces of one row's target value. */
  function Pieces(row: Row, col: string, sep: string): seq<string>
    requires Check(row, col, sep).None?
  {
    Split(row[col].s, sep)
  }

  /** The copies of one row, one per piece, each carrying its piece in `col`. */
  function ExplodeRow(row: Row, col: string, sep: string): (r: seq<Row>)
    requires Check(row, col, sep).None?
    ensures |r| == |Pieces(row, col, sep)| >= 1
  {
    var ps := Pieces(row, col, sep);
    seq(|ps|, j requires 0 <= j < |ps| => row[col := Text(ps[j])])
  }

  /**
   * The row-by-row pass over a frame with rows and columns: the copies of
   * every row in order, or the exception of the first row that raises.
   */
  function Explode(rows: seq<Row>, col: string, sep: string): (r: Result<seq<Row>, Error>)
    ensures r.Success? ==> |r.value| >= |rows|
    decreases |rows|
  {
    if rows == [] then Success([])
    else match Check(rows[0], col, sep)
      case Some(e) => Failure(e)
      case None =>
        match Explode(rows[1..], col, sep)
        case Failure(e) => Failure(e)
        case Success(rest) => Success(ExplodeRow(rows[0], col, sep) + rest)
  }

  /** The number of output rows: the total number of pieces over all rows. */
  function PieceCount(rows: seq<Row>, col: string, sep: string): nat
    requires AllSplittable(rows, col, sep)
    decreases |rows|
  {
    if rows == [] then 0
    else |Pieces(rows[0], col, sep)| + PieceCount(rows[1..], col, sep)
  }

  /** The position in the output of the first copy of `rows[i]`. */
  function Start(rows: seq<Row>, col: string, sep: string, i: nat): nat
    requires i <= |rows| && AllSplittable(rows, col, sep)
  {
    PieceCount(rows[..i], col, sep)
  }

  /** The target strings of rows that all carry a string in `col`. */
  function Targets(rows: seq<Row>, col: string): seq<string>
    requires forall k :: 0 <= k < |rows| ==> col in rows[k] && rows[k][col].Text?
  {
    seq(|rows|, k requires 0 <= k < |rows| => rows[k][col].s)
  }

  /** A data frame: its column labels and its rows. */
  datatype DataFrame = DataFrame(columns: set<string>, rows: seq<Row>)
  {
    /** Every row carries exactly the frame's columns. */
    predicate Valid()
    {
      forall i :: 0 <= i < |rows| ==> rows[i].Keys == columns
    }

    /** The frame has no rows or no columns, so `apply` takes its empty-axis path. */
    predicate EmptyAxis()
    {
      columns == {} || rows == []
    }
  }

  /** The probe row `Series(index=df.columns, dtype=float64)`: every column, all NaN. */
  function ProbeRow(columns: set<string>): (r: Row)
    ensures r.Keys == columns
    ensures forall c :: c in r ==> r[c] == Missing
  {
    map c | c in columns :: Missing
  }

  /** The result of `splitDataFrameList(df, col, sep)` on a whole frame. */
  function SplitDataFrame(df: DataFrame, col: string, sep: string): (r: Result<seq<Row>, Error>)
    ensures df.EmptyAxis() ==> r == Success([])
    ensures r.Success? ==> df.columns == {} || |r.value| >= |df.rows|
  {
    if df.EmptyAxis() then Success([]) else Explode(df.rows, col, sep)
  }

  // ---------------------------------------------------------------------
  // Lemmas
  // ---------------------------------------------------------------------

  /** Appending one row to the frame: the result extends, or the row's exception surfaces. */
  lemma {:induction false} ExplodeSnoc(rows: seq<Row>, row: Row, col: string, sep: string)
    ensures Explode(rows + [row], col, sep) ==
      match Explode(rows, col, sep)
      case Failure(e) => Failure(e)
      case Success(out) =>
        match Check(row, col, sep)
        case Some(e) => Failure(e)
        case None => Success(out + ExplodeRow(row, col, sep))
    decreases |rows|
  {
    if rows == [] {
      assert rows + [row] == [row] && [row][1..] == [];
      if Check(row, col, sep).None? {
        var xs := ExplodeRow(row, col, sep);
        assert xs + [] == xs && [] + xs == xs;
      }
    } else {
      assert (rows + [row])[0] == rows[0];
      assert (rows + [row])[1..] == rows[1..] + [row];
      ExplodeSnoc(rows[1..], row, col, sep);
      match Check(rows[0], col, sep)
      case Some(e) =>
      case None =>
        match Explode(rows[1..], col, sep)
        case Failure(e) =>
        case Success(rest) =>
          var first := ExplodeRow(rows[0], col, sep);
          match Check(row, col, sep)
          case Some(e) =>
          case None =>
            assert first + (rest + ExplodeRow(row, col, sep)) == (first + rest) + ExplodeRow(row, col, sep);
    }
  }

  /** The call succeeds exactly when every row can be split. */
  lemma {:induction false} ExplodeSucceeds(rows: seq<Row>, col: string, sep: string)
    ensures Explode(rows, col, sep).Success? <==> AllSplittable(rows, col, sep)
    decreases |rows|
  {
    if rows != [] {
      ExplodeSucceeds(rows[1..], col, sep);
      if AllSplittable(rows[1..], col, sep) && Check(rows[0], col, sep).None? {
        forall i | 0 <= i < |rows| ensures Check(rows[i], col, sep).None? {
          if i > 0 { assert rows[i] == rows[1..][i - 1]; }
        }
      }
      if AllSplittable(rows, col, sep) {
        forall i | 0 <= i < |rows| - 1 ensures Check(rows[1..][i], col, sep).None? {
          assert rows[1..][i] == rows[i + 1];
        }
      }
    }
  }

  /** On failure, the exception is the one raised by the first row that cannot be split. */
  lemma {:induction false} ExplodeFirstError(rows: seq<Row>, col: string, sep: string, i: nat)
    requires i < |rows| && Check(rows[i], col, sep).Some?
    requires forall k :: 0 <= k < i ==> Check(rows[k], col, sep).None?
    ensures Explode(rows, col, sep) == Failure(Check(rows[i], col, sep).value)
    decreases i
  {
    if i > 0 {
      forall k | 0 <= k < i - 1 ensures Check(rows[1..][k], col, sep).None? {
        assert rows[1..][k] == rows[k + 1];
      }
      ExplodeFirstError(rows[1..], col, sep, i - 1);
    }
  }

  /** A successful call yields exactly `PieceCount` rows, at least one per input row. */
  lemma {:induction false} ExplodeLength(rows: seq<Row>, col: string, sep: string)
    requires AllSplittable(rows, col, sep)
    ensures Explode(rows, col, sep).Success?
    ensures |Explode(rows, col, sep).value| == PieceCount(rows, col, sep) >= |rows|
    decreases |rows|
  {
    if rows != [] {
      assert forall i :: 0 <= i < |rows| - 1 ==> rows[1..][i] == rows[i + 1];
      ExplodeLength(rows[1..], col, sep);
    }
  }

  /** The piece count of a prefix grows by the next row's piece count. */
  lemma {:induction false} PieceCountSnoc(rows: seq<Row>, i: nat, col: string, sep: string)
    requires i < |rows| && AllSplittable(rows, col, sep)
    ensures PieceCount(rows[..i + 1], col, sep) == PieceCount(rows[..i], col, sep) + |Pieces(rows[i], col, sep)|
    decreases i
  {
    if i > 0 {
      assert rows[..i + 1][1..] == rows[1..][..i];
      assert rows[..i][1..] == rows[1..][..i - 1];
      assert forall k :: 0 <= k < |rows| - 1 ==> rows[1..][k] == rows[k + 1];
      PieceCountSnoc(rows[1..], i - 1, col, sep);
    }
  }

  /**
   * Each copy of a row has the row's columns, carries its piece in `col`,
   * and keeps every other column's value.
   */
  lemma ExplodeRowCopies(row: Row, col: string, sep: string)
    requires Check(row, col, sep).None?
    ensures forall j :: 0 <= j < |ExplodeRow(row, col, sep)| ==>
      ExplodeRow(row, col, sep)[j].Keys == row.Keys &&
      ExplodeRow(row, col, sep)[j][col] == Text(Pieces(row, col, sep)[j])
    ensures forall j, c :: 0 <= j < |ExplodeRow(row, col, sep)| && c in row && c != col ==>
      ExplodeRow(row, col, sep)[j][c] == row[c]
  {
  }

  /** A frame of splittable rows explodes into its first row's copies followed by the rest's. */
  lemma ExplodeCons(rows: seq<Row>, col: string, sep: string)
    requires AllSplittable(rows, col, sep) && |rows| >= 1
    ensures AllSplittable(rows[1..], col, sep)
    ensures Explode(rows, col, sep).Success? && Explode(rows[1..], col, sep).Success?
    ensures Explode(rows, col, sep).value
         == ExplodeRow(rows[0], col, sep) + Explode(rows[1..], col, sep).value
    ensures |Explode(rows, col, sep).value| == PieceCount(rows, col, sep)
  {
    assert forall k :: 0 <= k < |rows| - 1 ==> rows[1..][k] == rows[k + 1];
    ExplodeLength(rows, col, sep);
    ExplodeLength(rows[1..], col, sep);
  }

  /** The start of row `i` is the first row's piece count plus its start within the rest. */
  lemma StartCons(rows: seq<Row>, col: string, sep: string, i: nat)
    requires AllSplittable(rows, col, sep) && 1 <= i <= |rows|
    ensures AllSplittable(rows[1..], col, sep)
    ensures Start(rows, col, sep, i) == |Pieces(rows[0], col, sep)| + Start(rows[1..], col, sep, i - 1)
  {
    assert forall k :: 0 <= k < |rows| - 1 ==> rows[1..][k] == rows[k + 1];
    assert rows[..i][1..] == rows[1..][..i - 1];
    assert rows[..i][0] == rows[0];
  }

  /**
   * Output layout: the copies of `rows[i]` occupy the positions
   * `Start(i) .. Start(i + 1)`, in piece order, and `Start` is strictly
   * increasing, so the groups follow the input-row order.
   */
  lemma {:induction false} ExplodeAt(rows: seq<Row>, col: string, sep: string, i: nat, j: nat)
    requires AllSplittable(rows, col, sep)
    requires i < |rows| && j < |Pieces(rows[i], col, sep)|
    ensures Explode(rows, col, sep).Success?
    ensures Start(rows, col, sep, i) < Start(rows, col, sep, i + 1)
    ensures Start(rows, col, sep, i + 1) == Start(rows, col, sep, i) + |Pieces(rows[i], col, sep)|
    ensures Start(rows, col, sep, i) + j < |Explode(rows, col, sep).value|
    ensures Explode(rows, col, sep).value[Start(rows, col, sep, i) + j]
         == rows[i][col := Text(Pieces(rows[i], col, sep)[j])]
    decreases i
  {
    ExplodeCons(rows, col, sep);
    PieceCountSnoc(rows, i, col, sep);
    var out := Explode(rows, col, sep).value;
    var rest := Explode(rows[1..], col, sep).value;
    var first := ExplodeRow(rows[0], col, sep);
    if i == 0 {
      assert rows[..0] == [];
      assert out[j] == first[j];
    } else {
      ExplodeAt(rows[1..], col, sep, i - 1, j);
      StartCons(rows, col, sep, i);
      assert out[Start(rows, col, sep, i) + j] == rest[Start(rows[1..], col, sep, i - 1) + j];
    }
  }

  /** Provenance: every output row is a copy of some input row carrying one of its pieces. */
  lemma {:induction false} ExplodeOrigin(rows: seq<Row>, col: string, sep: string, k: nat)
    returns (i: nat, j: nat)
    requires AllSplittable(rows, col, sep)
    requires Explode(rows, col, sep).Success? && k < |Explode(rows, col, sep).value|
    ensures i < |rows| && j < |Pieces(rows[i], col, sep)|
    ensures k == Start(rows, col, sep, i) + j
    ensures Explode(rows, col, sep).value[k] == rows[i][col := Text(Pieces(rows[i], col, sep)[j])]
    decreases |rows|
  {
    ExplodeCons(rows, col, sep);
    var n0 := |Pieces(rows[0], col, sep)|;
    assert rows[..0] == [];
    if k < n0 {
      i, j := 0, k;
      ExplodeAt(rows, col, sep, i, j);
    } else {
      var i', j' := ExplodeOrigin(rows[1..], col, sep, k - n0);
      i, j := i' + 1, j';
      StartCons(rows, col, sep, i);
      ExplodeAt(rows, col, sep, i, j);
    }
  }

  /**
   * Every output row keeps all columns of its source row, and every column
   * other than `col` keeps its value; `col` holds a string free of `sep`.
   */
  lemma ExplodeKeepsOtherColumns(rows: seq<Row>, col: string, sep: string, k: nat)
    requires AllSplittable(rows, col, sep)
    requires Explode(rows, col, sep).Success? && k < |Explode(rows, col, sep).value|
    ensures exists i :: (0 <= i < |rows| && Explode(rows, col, sep).value[k].Keys == rows[i].Keys &&
                         forall c :: c in rows[i] && c != col ==> Explode(rows, col, sep).value[k][c] == rows[i][c])
    ensures col in Explode(rows, col, sep).value[k]
    ensures Explode(rows, col, sep).value[k][col].Text?
    ensures !Contains(Explode(rows, col, sep).value[k][col].s, sep)
  {
    var i, j := ExplodeOrigin(rows, col, sep, k);
    SplitPiecesFree(rows[i][col].s, sep);
    assert Pieces(rows[i], col, sep)[j] in Pieces(rows[i], col, sep);
  }

  /** The copies of `rows[i]` fill the output slice `Start(i) .. Start(i + 1)`, in piece order. */
  lemma ExplodeGroup(rows: seq<Row>, col: string, sep: string, i: nat)
    requires AllSplittable(rows, col, sep) && i < |rows|
    ensures Explode(rows, col, sep).Success?
    ensures Start(rows, col, sep, i) < Start(rows, col, sep, i + 1) <= |Explode(rows, col, sep).value|
    ensures Explode(rows, col, sep).value[Start(rows, col, sep, i)..Start(rows, col, sep, i + 1)]
         == ExplodeRow(rows[i], col, sep)
  {
    var ps := Pieces(rows[i], col, sep);
    var a := Start(rows, col, sep, i);
    ExplodeAt(rows, col, sep, i, |ps| - 1);
    var group := Explode(rows, col, sep).value[a..a + |ps|];
    forall j | 0 <= j < |ps| ensures group[j] == ExplodeRow(rows[i], col, sep)[j] {
      ExplodeAt(rows, col, sep, i, j);
    }
  }

  /** Copying a row once per piece and reading the target column back gives the pieces. */
  lemma TargetsOfExplodeRow(row: Row, col: string, sep: string)
    requires Check(row, col, sep).None?
    ensures var copies := ExplodeRow(row, col, sep);
      (forall k :: 0 <= k < |copies| ==> col in copies[k] && copies[k][col].Text?) &&
      Targets(copies, col) == Pieces(row, col, sep)
  {
  }

  /**
   * Round trip: joining with `sep` the target values of the copies of
   * `rows[i]` gives back the value `rows[i]` had.
   */
  lemma ExplodeGroupJoin(rows: seq<Row>, col: string, sep: string, i: nat)
    requires AllSplittable(rows, col, sep) && i < |rows|
    requires Explode(rows, col, sep).Success?
    ensures Start(rows, col, sep, i) < Start(rows, col, sep, i + 1) <= |Explode(rows, col, sep).value|
    ensures var group := Explode(rows, col, sep).value[Start(rows, col, sep, i)..Start(rows, col, sep, i + 1)];
      (forall k :: 0 <= k < |group| ==> col in group[k] && group[k][col].Text?) &&
      Join(Targets(group, col), sep) == rows[i][col].s
  {
    ExplodeGroup(rows, col, sep, i);
    TargetsOfExplodeRow(rows[i], col, sep);
    JoinSplit(rows[i][col].s, sep);
  }

  /** A frame whose target values never contain the separator comes back unchanged. */
  lemma {:induction false} ExplodeIdentity(rows: seq<Row>, col: string, sep: string)
    requires AllSplittable(rows, col, sep)
    requires forall i :: 0 <= i < |rows| ==> !Contains(rows[i][col].s, sep)
    ensures Explode(rows, col, sep) == Success(rows)
    decreases |rows|
  {
    if rows != [] {
      var r := rows[0];
      SplitSingleton(r[col].s, sep);
      assert r[col := Text(r[col].s)] == r;
      assert ExplodeRow(r, col, sep) == [r];
      assert forall k :: 0 <= k < |rows| - 1 ==> rows[1..][k] == rows[k + 1];
      ExplodeIdentity(rows[1..], col, sep);
      assert rows == [r] + rows[1..];
    }
  }

  /** Splitting the probe row always raises, so the empty-axis path appends nothing. */
  lemma ProbeRaises(columns: set<string>, col: string, sep: string)
    ensures Check(ProbeRow(columns), col, sep).Some?
  {
    var probe := ProbeRow(columns);
    if col in probe {
      assert probe[col] == Missing;
    }
  }

  /**
   * The whole call succeeds exactly when the frame has an empty axis or every
   * row can be split; with an empty axis the result is empty, whatever the
   * target column and the separator.
   */
  lemma SplitDataFrameSucceeds(df: DataFrame, col: string, sep: string)
    ensures df.EmptyAxis() ==> SplitDataFrame(df, col, sep) == Success([])
    ensures SplitDataFrame(df, col, sep).Success? <==> df.EmptyAxis() || AllSplittable(df.rows, col, sep)
  {
    ExplodeSucceeds(df.rows, col, sep);
  }

  /** A frame with rows and columns but without the target column raises `KeyError` for it. */
  lemma SplitDataFrameMissingColumn(df: DataFrame, col: string, sep: string)
    requires df.Valid() && !df.EmptyAxis() && col !in df.columns
    ensures SplitDataFrame(df, col, sep) == Failure(KeyError(col))
  {
    assert col !in df.rows[0];
    ExplodeFirstError(df.rows, col, sep, 0);
  }
}
