# Moodle upload-users CSV builder, modelled in Dafny

This project models the CSV builder that PowerSchoolIntegrator uses to write
Moodle "upload users" files (`src/moodle/exporters/csv/moodle_csv.py`). It
then proves properties of that model.

The builder has two classes. Both are modelled as Dafny classes whose methods
change their fields step by step, as the Python does.

- **`moodle_csv_row`** becomes `MoodleCsv.MoodleCsvRow`. It maps each header
  name to a list of values.
  - A header whose name ends in `_` is *dynamic*, a repeated group such as
    `course_`. Any other header is *static*.
  - `build` takes a single string for a static header and a list for a
    dynamic one.
  - `output(max_dict)` renders the row. Each header's values are left-padded
    with empty columns up to that header's maximum, so they come out
    right-aligned.
- **`MoodleCSVFile`** becomes `MoodleCsv.MoodleCsvFile`. It keeps the header
  list, the rows added so far and `header_info`, the running maximum number
  of values per header.
  - `output` writes one header line and one line per row.
  - In the header line, a dynamic header with maximum m becomes the m
    columns `name1` … `namem`.

Each loop of the source is a `method` with a `for` loop and its invariants.
Each method is proved against a specification function; lemmas about those
functions state what the builder promises:

- how `build` accumulates values;
- that the maxima are the largest lengths seen;
- how padding and header expansion shape each line;
- when every line has the same number of columns;
- what the module's worked example produces.

Layout:

- `text.dfy` (module `Text`): Python's `sep.join`, the `split` a reader of
  the file would apply, and `str(n)` for natural numbers.
- `moodle_csv.dfy` (module `MoodleCsv`): the data model, the specification
  functions, the loop methods and the two classes.
- `moodle_csv_proofs.dfy` (module `MoodleCsvProofs`): lemmas about the model.
- `demo.dfy` (module `MoodleCsvDemo`): the worked example at the end of the
  source module.

Some modelling choices:

- Method names that Python dispatches through `__getattr__` (`row.build_course_(xs)`)
  are written as explicit calls `row.Build("course_", List(xs))`.
- A value is either `Str(s)` or `List(xs)`.
- The errors Python raises are returned as values:
  - `Failed(DynamicGivenString)` and `Failed(StaticGivenList)` for the two
    `PSI_Error`s;
  - `KeyError(name)` for a missing dictionary key.
- `MoodleCsvFile.AddRow` appends the row before its loop. A `KeyError`
  part-way through therefore leaves the row appended and the maxima of the
  earlier headers raised; the model keeps that behaviour.
- `MoodleCsvFile.Output` and `MoodleCsvRow.Output` have no `modifies` clause.
  They change neither the rows nor the maxima, and two calls return the same
  text.

Where the code and its documentation differ, this model follows the code:

- A header whose maximum is still 0 (no row gave it a value) keeps its raw
  name, underscore included, in the header line. No row gives it a column.
- With no rows, the output is the header line followed by a trailing "\n".
- `build_headers` does not check for duplicate headers.
- A string `build` on a name that is not a header silently adds that key.

## Model

| member | source | states |
|---|---|---|
| MoodleCsv.MoodleCsvRow.constructor | src/moodle/exporters/csv/moodle_csv.py:85-89 | a new row maps every header of its list to the empty list and has no other key |
| MoodleCsv.Apply | src/moodle/exporters/csv/moodle_csv.py:91-104 | a string on a dynamic name, a list on a static name, and a list for a key the row lacks each fail. Otherwise a string sets the entry to exactly `[s]` and a list is appended to the entry. Only that entry changes, and the key set grows by at most the name |
| MoodleCsv.MoodleCsvRow.Build | src/moodle/exporters/csv/moodle_csv.py:91-104 | the row's content becomes `Apply` of the old content on success, and stays unchanged on failure, with the error returned. Every header stays present and static entries keep at most one value |
| MoodleCsvProofs.BuildListsConcatenate | src/moodle/exporters/csv/moodle_csv.py:96-99 | two list builds on a dynamic header equal one build of the concatenated lists, in call order |
| MoodleCsvProofs.BuildStringReplaces | src/moodle/exporters/csv/moodle_csv.py:92-95 | a later string build on a static header replaces the earlier one |
| MoodleCsv.MoodleCsvRow.Item | src/moodle/exporters/csv/moodle_csv.py:116-117 | `row[name]` is the stored list when the key exists, and a `KeyError` naming the key otherwise |
| MoodleCsv.Block | src/moodle/exporters/csv/moodle_csv.py:122-127 | a header's share of a row line has max(m, n) columns: the n values last and in order, and only empty strings before them |
| MoodleCsv.PadBlock | src/moodle/exporters/csv/moodle_csv.py:122-127 | the padding loop followed by the `extend` produces exactly `Block(values, m)` |
| MoodleCsv.RenderRow | src/moodle/exporters/csv/moodle_csv.py:119-128 | the row-output loop returns the comma-join of the row columns. It returns the `KeyError` of the first header missing from the maxima or the content |
| MoodleCsv.MoodleCsvRow.Output | src/moodle/exporters/csv/moodle_csv.py:119-128 | `output(max_dict)` returns the row line over the row's header list and content |
| MoodleCsvProofs.RightAlignedExample | src/moodle/exporters/csv/moodle_csv.py:119-128 | maximum 3 with the single value `x` renders as `,,x` |
| MoodleCsvProofs.RowColumnsResult | src/moodle/exporters/csv/moodle_csv.py:121-127 | a row line succeeds exactly when every header is in both the maxima and the content. Otherwise the error names the first header that is missing from either |
| MoodleCsvProofs.RowColumnsWidth | src/moodle/exporters/csv/moodle_csv.py:121-127 | a row whose entries fit their maxima renders one column per unit of maximum, the sum of the maxima |
| MoodleCsv.MoodleCsvFile.constructor | src/moodle/exporters/csv/moodle_csv.py:135-139 | a new file has no rows, no headers and no maxima |
| MoodleCsv.MoodleCsvFile.BuildHeaders | src/moodle/exporters/csv/moodle_csv.py:157-160 | the names are appended to the header list and each gets maximum 0. Other maxima and the rows are unchanged |
| MoodleCsv.MoodleCsvFile.Factory | src/moodle/exporters/csv/moodle_csv.py:154-155 | `factory()` returns a fresh, empty row over the file's header list |
| MoodleCsv.RaiseMaxima | src/moodle/exporters/csv/moodle_csv.py:146-152 | the loop of `add_row` reads each header's list through `row[header]` and stops at the first header the row lacks. The maxima it returns are those raised along the headers before that one |
| MoodleCsv.MoodleCsvFile.AddRow | src/moodle/exporters/csv/moodle_csv.py:141-152 | the row list gains the row at the end. The call succeeds exactly when the row has every header, and otherwise fails with the `KeyError` of the first header it lacks. Every walked header's maximum becomes max(old, len), the rest are unchanged, and no maximum decreases. On success, maxima that were the largest lengths seen remain so |
| MoodleCsv.RaisedAt | src/moodle/exporters/csv/moodle_csv.py:150-152 | after the walk, each maximum is the larger of its old value and the row's length if the header was walked and is in the row, and unchanged otherwise |
| MoodleCsv.RaisedKeeps | src/moodle/exporters/csv/moodle_csv.py:146-152 | the walk keeps the set of headers and never lowers a maximum. It keeps static maxima at most 1 |
| MoodleCsv.RaisedTracked | src/moodle/exporters/csv/moodle_csv.py:141-152 | raising by a row that has every header keeps each maximum equal to the largest length among the rows |
| MoodleCsvProofs.MaxLenBound | src/moodle/exporters/csv/moodle_csv.py:150-152 | no row holds more values under a header than the largest length seen |
| MoodleCsvProofs.MaxLenAttained | src/moodle/exporters/csv/moodle_csv.py:150-152 | a non-zero maximum is the length of some row's entry |
| MoodleCsvProofs.MaxLenMonotone | src/moodle/exporters/csv/moodle_csv.py:141-152 | adding rows never lowers the largest length seen |
| MoodleCsv.NumberedColumns | src/moodle/exporters/csv/moodle_csv.py:174-176 | the inner header loop produces exactly `stem1` … `stemm` |
| MoodleCsv.RenderHeader | src/moodle/exporters/csv/moodle_csv.py:168-178 | the header loop produces the header columns. Maximum 0 gives the raw name, a dynamic header with m > 0 gives m numbered columns, and a static header appears once |
| MoodleCsvProofs.DynamicHeaderExpansion | src/moodle/exporters/csv/moodle_csv.py:174-176 | a dynamic header with maximum m > 0 yields m columns. The k-th is the stem followed by `str(k+1)`, and none equals the header's own name |
| MoodleCsvProofs.NumberedDistinct | src/moodle/exporters/csv/moodle_csv.py:174-176 | the numbered columns of a dynamic header are pairwise distinct |
| MoodleCsvProofs.ZeroMaximumWidensHeader | src/moodle/exporters/csv/moodle_csv.py:171-172 | a header whose maximum is 0 gives the header line more columns than any row line that fits the maxima |
| MoodleCsvProofs.HeaderColumnsWidth | src/moodle/exporters/csv/moodle_csv.py:169-178 | the header line has one column per unit of maximum plus one per header whose maximum is 0 |
| MoodleCsvProofs.Rectangular | src/moodle/exporters/csv/moodle_csv.py:9 | when every maximum is at least 1, the header line and every fitting row line have the same number of columns: the static headers plus the sum of the dynamic maxima |
| MoodleCsvProofs.OutputRectangular | src/moodle/exporters/csv/moodle_csv.py:9 | for a file built through `build_headers` and successful `add_row`s with every maximum at least 1, every row renders. Each row and the header line have that same column count |
| MoodleCsvProofs.RowLinesAt | src/moodle/exporters/csv/moodle_csv.py:181 | the row lines succeed exactly when every row's line does. There is then one line per row, in insertion order |
| MoodleCsvProofs.NoRowsEndsWithNewline | src/moodle/exporters/csv/moodle_csv.py:180-181 | with no rows the output is the header line followed by a newline |
| MoodleCsv.MoodleCsvFile.Output | src/moodle/exporters/csv/moodle_csv.py:162-185 | `output()` returns the header line, a newline and the row lines joined by newlines, or the first row's `KeyError` |
| MoodleCsvProofs.RenderedLines | src/moodle/exporters/csv/moodle_csv.py:180-181 | when no header or value contains a comma or newline, the text splits at newlines into the header line and one line per row. Each line splits at commas into its columns |
| MoodleCsvProofs.RenderedTextRectangular | src/moodle/exporters/csv/moodle_csv.py:9-11 | under the same conditions, a reader that splits the output gets the header columns and each row's columns back, with the same number of fields on every line |
| Text.SplitJoin | src/moodle/exporters/csv/moodle_csv.py:128 | splitting undoes `",".join` when no part contains the separator |
| Text.NatToStringValue | src/moodle/exporters/csv/moodle_csv.py:176 | the decimal digits `str(n)` produces read back as n |
| Text.NatToStringInjective | src/moodle/exporters/csv/moodle_csv.py:176 | distinct numbers give distinct strings |
| MoodleCsvDemo.DemoTracked | src/moodle/exporters/csv/moodle_csv.py:189-204 | after the example's two rows, the maxima are 1, 1, 3 and 3 |
| MoodleCsvDemo.FourHeaderRow | src/moodle/exporters/csv/moodle_csv.py:121-127 | a row over four headers is their four blocks side by side |
| MoodleCsvDemo.FourHeaderColumns | src/moodle/exporters/csv/moodle_csv.py:169-178 | a header line over four headers is their four header blocks side by side |
| MoodleCsvDemo.DemoFirstRow | src/moodle/exporters/csv/moodle_csv.py:192-197 | the first row renders as `user,field,c1,c2,c3,,,cohort`: its one cohort is right-aligned behind two empty columns |
| MoodleCsvDemo.DemoSecondRow | src/moodle/exporters/csv/moodle_csv.py:199-204 | the second row renders as `user,field,,c1,c2,o1,o2,o3`: its two courses are right-aligned behind one empty column |
| MoodleCsvDemo.DemoHeaderColumns | src/moodle/exporters/csv/moodle_csv.py:189-206 | the example's header line is `username,profile_field_blah,course1,course2,course3,cohort1,cohort2,cohort3` |

## Left out

- The file write in `output` (moodle_csv.py:182-184) and the `path` argument it depends on: file I/O. Only the returned string is modelled.
- The `__main__` import boilerplate (moodle_csv.py:47-66) and `my_path`: environment plumbing.
- The error-message strings built with `strng` from the `utils` module (moodle_csv.py:80-82): `utils` is not part of this model. The errors are the abstract values `DynamicGivenString` and `StaticGivenList`.
- The `ValueError` branch for values that are neither a string nor a list (moodle_csv.py:100-103): the `Value` datatype admits only those two shapes.
- `__getattr__` dispatch and `build_` (moodle_csv.py:106-114): replaced by explicit `Build(name, value)` calls. `build`'s `return self` (line 104), used only for chaining, is replaced by a status result.
- The `isinstance(this, list)` test in `add_row` (moodle_csv.py:148-149): every stored value is a list, so the test always passes.
- MoodleCsv.MoodleCsvFile.AddRow: stores the row's content as it is when the row is added, not a reference to the row object. A row changed after `add_row` would change the Python output but not the model's.
- MoodleCsv.MoodleCsvFile.AddRow: requires the row's class invariant (`MoodleCsvRow.Valid`). Every row made by `Factory` and changed only by `Build` satisfies it.
- MoodleCsv.MoodleCsvFile.AddRow: the walk runs over the header list, not over `header_info.keys()`. The order is the same: a dictionary keeps first-insertion order, and both are filled by `build_headers`. A repeated header is walked again, which changes nothing.
- A row made by `factory()` shares the file's header list object (moodle_csv.py:155), so a later `build_headers` also extends that row's list. `MoodleCsvRow.headerList` is a copy of the list taken at `Factory`; the model does not capture that aliasing.
- MoodleCsv.MoodleCsvFile.Output: renders every stored row over the file's header list, while Python's `output` calls each row's own `output` (moodle_csv.py:181), which walks that row's `header_list` (line 121). The two agree for rows made by this file's `factory()`, whose list is the file's own. They differ for a row built over another list: with extra headers Python raises `KeyError` where the model may succeed, and with fewer headers Python succeeds where the model may fail.
- MoodleCsv.MoodleCsvFile.AddRow: keeps only the row's content, not its header list. This is why `Output` cannot follow a row's own list.
- MoodleCsvDemo.DemoFirstRow, MoodleCsvDemo.DemoSecondRow and MoodleCsvDemo.DemoTracked: proved for arbitrary header names and cell values, not for the example's literal strings. Only the header line, `DemoHeaderColumns`, uses the literal names.
- `src/moodle/main.py`: interactive input and connection setup. `src/exporters/connections.py`: credential holders and print-only stubs. `src/importers/manager.py`: empty stubs. None has logic to verify.
- CSV quoting and escaping: the code does none. The text-level lemmas therefore require that no header or value contains a comma or a newline.
