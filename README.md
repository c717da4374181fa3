# splitDataFrameList, modelled in Dafny

The salary-prediction pipeline of this repository carries one self-contained
piece of data manipulation: `splitDataFrameList(df, target_column, separator)`
in `src/salary_prediction_model.py`. It "explodes" a multi-valued,
separator-delimited column such as the semicolon-delimited `LanguageWorkedWith`
or `DevType` survey fields. For each row it splits the target value with
Python's `str.split(separator)`. For each piece it appends to a shared list a
copy of the row (`row.to_dict()`) whose target column holds that piece. It then
builds a new frame from the list.

The project models that function and its nested helper `splitListToRows`:

- `wrappers.dfy`: `Option` and `Result`.
- `py_str.dfy` (module `PyStr`): Python's `str.find`, `str.split` with an
  explicit separator and `str.join`, with the split/join round trips.
- `frame.dfy` (module `Frame`): cells, rows, frames and the exceptions that
  `row[target_column].split(separator)` can raise. `Explode` is the pure
  flat-map specification of the row-by-row pass. `SplitDataFrame` is the
  whole call: it adds pandas' rule for a frame with an empty axis. Lemmas give the output length,
  the layout (provenance, grouping and order), the untouched columns, the
  per-row round trip, identity and the error behaviour.
- `split_frame.dfy` (module `SplitFrame`): the code as written. The shared
  `new_rows` list is the class `RowAccumulator`, which is only appended to.
  `SplitListToRows` loops over the pieces of one row. `SplitDataFrameList`
  loops over the rows, as `df.apply(..., axis=1)` does. The method is proved
  to return exactly `SplitDataFrame`.

A row is a `map<string, Cell>` from column name to cell. A cell is a string,
a number or a missing value (NaN). An exception is a `Failure` value:

- a missing column raises `KeyError`;
- a cell that is not a `str` has no `split` and raises `AttributeError`;
- an empty separator raises `ValueError`.

These are checked in that order, which is Python's evaluation order for
`row[target_column].split(separator)`. The first row that raises ends the
call.

A frame is its set of column labels plus its rows, and every row carries
exactly those columns. When the frame has no rows or no columns,
`DataFrame.apply(..., axis=1)` takes its empty-axis path. It calls the helper
once on a probe row that has every column and only NaN values, and it
swallows whatever that call raises. The probe always raises before anything
is appended: a missing column raises `KeyError`, and a NaN raises
`AttributeError`. So such a frame yields an empty result, whatever the target
column and the separator. `SplitDataFrameList` makes that probe call too.

The model assumes pandas 1.1 or later, where `DataFrame.apply` calls the
function once per row. Earlier pandas called it twice on the first row, which
would append the first row's copies twice.

## Model

| member | source | states |
|---|---|---|
| `PyStr.Split` | src/salary_prediction_model.py:134 | `s.split(separator)` for a non-empty separator: cuts at the leftmost non-overlapping occurrences, scanning left to right, and always yields at least one piece |
| `PyStr.Join` | src/salary_prediction_model.py:134 | `separator.join(pieces)`, the inverse that `JoinSplit` and `SplitJoin` relate to `split`; it is not called by the source |
| `PyStr.FindFrom` | src/salary_prediction_model.py:134 | the occurrence `str.split` cuts at is the leftmost one at or after the scan position; `None` means the separator does not occur there at all |
| `PyStr.JoinSplit` | src/salary_prediction_model.py:134 | `separator.join(s.split(separator)) == s` for every string and non-empty separator |
| `PyStr.SplitPiecesFree` | src/salary_prediction_model.py:134 | no piece of `s.split(separator)` contains the separator |
| `PyStr.SplitSingleton` | src/salary_prediction_model.py:134 | `s.split(separator) == [s]` if and only if the separator does not occur in `s` |
| `PyStr.SplitJoin` | src/salary_prediction_model.py:134 | for a one-character separator such as `;`, splitting the join of separator-free pieces gives back the pieces |
| `Frame.Check` | src/salary_prediction_model.py:134 | a row can be split exactly when it has the target column, the cell is a string and the separator is non-empty; a missing column raises `KeyError` before a non-string cell raises `AttributeError` |
| `Frame.ExplodeRow` | src/salary_prediction_model.py:135-138 | the copies `splitListToRows` appends for one splittable row: one per piece of the target value, so at least one |
| `Frame.ExplodeRowCopies` | src/salary_prediction_model.py:136-137 | copy `j` has the row's columns, holds piece `j` in the target column, and keeps every other column's value |
| `Frame.Explode` | src/salary_prediction_model.py:134-140 | the row-by-row pass over a frame with rows and columns: the copies of every row in input order, at least one per row, or the exception of the first row that raises |
| `Frame.ProbeRow` | src/salary_prediction_model.py:140 | the row `apply` passes for an empty axis, pandas' `Series(index=columns, dtype=float64)`: every column of the frame, every cell NaN |
| `Frame.SplitDataFrame` | src/salary_prediction_model.py:140-142 | the whole call: an empty result for a frame with no rows or no columns, otherwise the row-by-row pass, whose output has at least one row per input row |
| `Frame.ExplodeSucceeds` | src/salary_prediction_model.py:134-140 | the row-by-row pass over a frame with rows and columns raises nothing if and only if every row can be split |
| `Frame.ExplodeFirstError` | src/salary_prediction_model.py:134-140 | in the row-by-row pass, when a row cannot be split and every earlier row could, the call raises that row's exception |
| `Frame.ProbeRaises` | src/salary_prediction_model.py:134 | on the all-NaN probe row that `apply` uses for an empty axis, `row[target_column].split(separator)` always raises |
| `Frame.SplitDataFrameSucceeds` | src/salary_prediction_model.py:140-142 | a frame with no rows or no columns yields an empty result; otherwise the call succeeds if and only if every row can be split |
| `Frame.SplitDataFrameMissingColumn` | src/salary_prediction_model.py:134-140 | a frame with rows and columns but without the target column raises `KeyError` for that column |
| `Frame.ExplodeSnoc` | src/salary_prediction_model.py:138-140 | processing one more row appends that row's copies to the result so far, or raises that row's exception |
| `Frame.ExplodeLength` | src/salary_prediction_model.py:134-138 | the output has as many rows as there are pieces over all target values, which is at least the number of input rows |
| `Frame.ExplodeAt` | src/salary_prediction_model.py:135-140 | piece `j` of row `i` lands at position `Start(i) + j` as row `i` with the piece in the target column; each group is non-empty and the groups follow input order |
| `Frame.ExplodeOrigin` | src/salary_prediction_model.py:135-138 | every output row is some input row `i` carrying its piece `j`, at position `Start(i) + j` |
| `Frame.ExplodeKeepsOtherColumns` | src/salary_prediction_model.py:130-131 | every output row has its source row's columns and values except the target column, which holds a string free of the separator |
| `Frame.ExplodeGroup` | src/salary_prediction_model.py:135-138 | the copies of row `i` fill exactly the output slice `Start(i)..Start(i + 1)`, one per piece in piece order |
| `Frame.ExplodeGroupJoin` | src/salary_prediction_model.py:134-137 | joining with the separator the target values of the copies of row `i` gives back row `i`'s original value |
| `Frame.ExplodeIdentity` | src/salary_prediction_model.py:134-138 | a frame whose target values never contain the separator comes back unchanged |
| `SplitFrame.RowAccumulator.Append` | src/salary_prediction_model.py:138 | `row_accumulator.append` adds one row at the end and changes nothing before it |
| `SplitFrame.SplitListToRows` | src/salary_prediction_model.py:133-138 | raises the row's exception without appending anything, or appends exactly that row's copies in piece order after the existing entries |
| `SplitFrame.SplitDataFrameList` | src/salary_prediction_model.py:126-142 | the method returns exactly `SplitDataFrame`. A frame with an empty axis gets the swallowed probe call and an empty result. Otherwise the nested loops give the exploded rows, or the exception of the first row that cannot be split |

## Left out

- The frame's index is left out: `pd.DataFrame(new_rows)` gives the result a fresh 0-based index, and the model returns a plain sequence of rows.
- Column order is left out: a row is a map, so the model does not say that each copy keeps the source row's column order.
- dtype inference in `pd.DataFrame(new_rows)` is left out: the model keeps the cells as they were.
- Column labels are a `set<string>`, so duplicate and non-string labels are left out. pandas allows duplicate labels. `row.to_dict()` keeps only one of them, and a duplicated target column makes `row[target_column]` a Series whose `.split` raises `AttributeError`.
- Floating-point cell values are left out: a `Number` cell is an integer, because every cell other than the target is only copied.
- `separator=None` and other non-string separators are left out, because the separator is a string by its type. `None` splits on runs of whitespace and drops leading and trailing whitespace. Other non-string values raise `TypeError`.
- `PyStr.SplitJoin`: proved only for one-character separators. For longer separators it is false, since `"aa".join(["a", ""])` splits on `"aa"` into `["", "a"]`.
- `build_model`, `mean_std_cross_val_scores`, `main` and the command-line parsing are not part of this model. They call scikit-learn, compute floating-point statistics, and do plotting and file I/O.
- `src/download_data.py`, `src/eda.py` and the generated report scripts are not part of this model. They are network I/O, file I/O and chart rendering.
