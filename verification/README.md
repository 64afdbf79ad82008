# neural_nw data pipeline, modelled in Dafny

The repository trains two small classifiers, one for dog breeds and one for iris species.
All numerical work is done by the go-deep library. What the repository itself decides
lives in `neural_network/main.go`:

- how each CSV record becomes a training example (`LoadDataSetFromDOGSCSV`, `LoadDataSetFromCSV`);
- the one-hot encoding of the label (`onehot`);
- the arg-max that turns a network output into a class (`ArgMax`);
- the text line written for each example (`toString`, `ResultToFile`).

This project models that logic as pure functions over immutable sequences and proves
what it does. Three foreign pieces are parameters of the model, so nothing is assumed
about them:

- `strconv.ParseFloat` is a `Parser = string -> Option<real>`, where `None` means a non-nil error.
- `fmt.Sprintf("%f", x)` is a `Formatter = real -> string`.
- `n.Predict` is a `Predictor = seq<real> -> seq<real>`.

File outcomes are parameters too: whether the file opened, and which writes succeed.

Modules:

- `Wrappers` (`wrappers.dfy`): the `Option` type.
- `Encoding` (`encoding.dfy`): Go's float-to-int conversion, `onehot` and `ArgMax`.
- `Loader` (`loader.dfy`): the per-record step of both loaders and the record loop.
  - The step is one column loop, `Columns`. `Layout` says whether column 0 is skipped, as the iris loader does.
  - `FeatureParse` says how a feature column's parse error reaches the row. `Shadowing` is the code as written. `Assigning` is the evident intent.
  - `RowSpec` describes the same step in closed form, and the contract of `Row` says the two agree.
  - `Load` folds the records, in order, into a dataset. The fold, `Collect`, sees only each record's outcome.
- `Results` (`results.dfy`): `%d` formatting, `toString`, and a reader that parses a result line back. `ResultToFile` is a method whose loop mirrors the Go loop.

How the code behaves, as proved here:

- **Feature errors are lost.** The loop-level `err` is what decides whether a row is dropped. A feature column that fails to parse never reaches it, because the feature parse declares a new `err` with `:=`. The column loop stops there. Unless `reader.Read` reported an error with the record, the record is kept with:
  - the features parsed so far;
  - label 0.0;
  - response [1, 0, 0].
- **Among the columns, only the label decides a drop.** A row is dropped when its label column is reached and fails to parse. The only other cause is a read error, next.
- **Read errors can be overwritten.** A non-EOF error from `reader.Read` drops the row only if no label parse overwrote it.
- **Iris column 0 is always skipped.** This holds even when it is the only column. A one-field iris record therefore becomes an example with no features and class 0, unless `reader.Read` reported an error with it, which nothing clears.
- **Bad labels crash.** `onehot` does not check its index. A label that is reached (every feature column before it parsed), parses and lies outside (-1, 3) makes the Go program panic. The model returns `Crashed` for that record and `Panicked(row)` from the loader.
- **`ArgMax` starts at 0.** Its running maximum starts at 0, not at the first element. So a vector with no positive entry gives class 0.

Two behaviours a reader of the code may not expect, both modelled as written:

- An unparsable column discards the row only when it is the label column; see Findings.
- The result file is opened with `O_CREATE|O_RDWR` and no `O_TRUNC`, so an existing longer file keeps its tail.

## Model

| member | source | states |
|---|---|---|
| Encoding.Trunc | neural_network/main.go:195 | `int(val)` truncates toward zero: the result has the sign of `val`, and `val` lies within one unit of it, on the far side from 0 |
| Encoding.OneHot | neural_network/main.go:193-197 | it panics (`None`) exactly when `int(val)` is outside [0, classes). Otherwise it returns a vector of length `classes` with 1.0 at `int(val)` and 0.0 everywhere else |
| Encoding.OneHotAcceptsIff | neural_network/main.go:193-196 | for a positive class count, the labels accepted without a panic are exactly the reals strictly between -1 and `classes`. So 1.9 encodes class 1 and -0.5 encodes class 0 |
| Encoding.OneHotSumsToOne | neural_network/main.go:193-196 | an accepted one-hot vector sums to 1 |
| Encoding.ScanPrefix | neural_network/main.go:199-206 | after the loop has visited a prefix, `m` is at least 0 and at least every element seen. `id` is 0 while `m` is 0. Otherwise `id` is the first index holding `m` |
| Encoding.ArgMax | neural_network/main.go:199-208 | with no positive element, including the empty vector, the result is 0. Otherwise the result is the smallest index of the maximum, and that maximum is positive; strict `>` keeps the earliest of equal maxima |
| Encoding.ArgMaxOfOneHot | neural_network/main.go:193-207 | `ArgMax` decodes an accepted one-hot vector back to `int(val)` |
| Encoding.ArgMaxAgreesWithFirstMaxIff | neural_network/main.go:199-208 | `ArgMax` equals the conventional first-maximum index exactly when that maximum is positive or sits at index 0 |
| Encoding.ArgMaxIgnoresNonPositiveMaximum | neural_network/main.go:200-207 | for [-2, -1], `ArgMax` gives 0 while the true arg-max is 1 |
| Encoding.ArgMaxExamples | neural_network/main.go:199-208 | [0.1, 0.9, 0.3] gives class 1, and [0, 0, 0] gives class 0 |
| Loader.ColumnsClosedForm | neural_network/main.go:114-130 | from any loop state, the column loop appends the parsed columns that come before the first failing feature. A failing feature leaves `err` alone when shadowed and sets it when assigned. If every feature parses, the label column sets `label` and `err` |
| Loader.Columns | neural_network/main.go:114-130 | the column loop only appends to `features`, at most one value per column other than the label; `Loader.ColumnsClosedForm` gives its full closed form |
| Loader.Row | neural_network/main.go:107-138 | one pass of the record loop equals the closed-form row description `RowSpec`, for every record, parser, layout and error variant |
| Loader.DogRow | neural_network/main.go:114-138 | of n fields, columns 0..n-2 are features and n-1 the label. The record is dropped exactly when every feature parses and the label does not, or when the read failed and the label column was never parsed |
| Loader.IrisRow | neural_network/main.go:161-187 | column 0 is skipped, columns 1..n-2 are features and n-1 the label, which exists only for n >= 2. The drop rule is the dog loader's over those columns |
| Loader.DogWellFormedRow | neural_network/main.go:114-138 | if every column of a dog record parses, its features are columns 0..n-2 in order, its label is column n-1, and its response is `onehot(3, label)`. This holds even when the read reported an error |
| Loader.IrisWellFormedRow | neural_network/main.go:161-187 | if every column of an iris record with two or more fields parses, its features are columns 1..n-2 (column 0 is ignored) and its label is column n-1 |
| Loader.IrisSingleFieldRow | neural_network/main.go:161-187 | an iris record with one field has that field skipped as column 0. It yields empty features and response [1, 0, 0], unless the read reported an error, which nothing clears, and then it is dropped |
| Loader.BadLabelDropsRow | neural_network/main.go:114-134 | when the features parse but the label column does not, the record is dropped in either loader |
| Loader.BadFeatureKeepsPrefix | neural_network/main.go:124-138 | when feature column k fails to parse, the record is still kept, with the features before k, label 0.0 and response [1, 0, 0]. Only a read error reported with the record drops it instead |
| Loader.RowDroppedIff | neural_network/main.go:107-138 | as written, a record is dropped exactly when (a) its label column is reached and fails, or (b) the read failed and no label parse overwrote that error |
| Loader.RowCrashedIff | neural_network/main.go:131-138 | a record makes `onehot` panic exactly when its label is read, parses, and lies outside (-1, 3) |
| Loader.CorrectedRowKeptIff | neural_network/main.go:124-134 | with the feature error assigned to the loop's `err`, a kept row has every feature column parsed and all of them as its features. Such a row is dropped exactly when some column it reads fails, or when the read failed and there is no label column |
| Loader.ShadowingKeepsMalformedRecord | neural_network/main.go:124-134 | the dog record `5.0,x,2.0` is kept as written, with features [5.0] and class 0. The corrected step drops it |
| Loader.Collect | neural_network/main.go:107-139 | the outer loop over the records' outcomes either panics at an existing record or returns at most one example per record |
| Loader.Load | neural_network/main.go:107-139 | the record loop returns a dataset exactly when no record's step crashes, and otherwise panics at the first record whose step crashes |
| Loader.LoadDataSet | neural_network/main.go:93-141 | `LoadDataSetFromDOGSCSV`, and `LoadDataSetFromCSV` (main.go lines 143-190) for the iris layout: an error only when the path cannot be resolved or the file cannot be opened. Otherwise it returns a dataset exactly when no record's label is read, parses and truncates outside [0, 3), and panics at the first record whose label does |
| Loader.LoadPanicsIff | neural_network/main.go:135-139 | the loader panics at record i exactly when i is the first record whose label `onehot` rejects |
| Loader.LoadIsInOrderFilter | neural_network/main.go:107-140 | a loaded dataset is exactly the kept examples in record order: each example comes from a kept record, the source indices increase strictly, and every kept record appears |
| Loader.LoadersAgreeWhenFeaturesParse | neural_network/main.go:124-130 | on records whose feature columns all parse, the shadowed and assigned variants load the same dataset. The defect shows only on malformed features |
| Results.DecimalRoundTrip | neural_network/main.go:216 | `%d` output reads back as the same integer |
| Results.ToString | neural_network/main.go:210-219 | a line always ends in a newline; `Results.ToStringRoundTrip` shows it splits back into the formatted features and the class |
| Results.ResultLine | neural_network/main.go:230 | the line written for an example ends with `ArgMax(Predict(input))` in decimal and a newline, and that class is 0 or an index into the network output |
| Results.ToStringRoundTrip | neural_network/main.go:210-219 | if `%f` emitted no comma, a `toString` line splits back at ", " into the formatted features, in order, followed by the class, before the final newline |
| Results.ResultLineReadsBack | neural_network/main.go:227-233 | if `%f` emitted no comma for any feature, each written line reads back as the example's formatted features and `ArgMax(Predict(input))`. That class is 0 or an index into the network output |
| Results.ResultToFile | neural_network/main.go:221-236 | if the open fails, nothing is written. Otherwise line j is the line for example j, in dataset order, and writing stops at the first failed write, which is reported with its index. Success means one line per example |
| Results.StubModelLinesEndInZero | neural_network/main.go:210-218 | with a model that always predicts [1, 0, 0], every line for an example with features ends in ", 0" and a newline |

## Findings

| source | as written | input that shows it | evidently intended | confidence | as-written member | corrected member |
|---|---|---|---|---|---|---|
| neural_network/main.go:125 | the feature parse declares a fresh `err` with `:=`, so the drop check after the column loop never sees it. The same holds at line 174 of the iris loader | dog record `5.0,x,2.0` is kept with features [5.0] and class 0 (`Loader.ShadowingKeepsMalformedRecord`) | a record with an unparsable feature column is dropped, like one with an unparsable label, and kept rows have all their features | high; not executed | Loader.DogRow | Loader.CorrectedDogRow (property: Loader.CorrectedRowKeptIff, Loader.LoadersAgreeWhenFeaturesParse) |

`Load` takes the variant as a parameter. `LoadDataSet`, the program's own loaders, uses `Shadowing`. `Assigning` is the corrected step.

## Left out

- Path resolution and files: `filepath.Abs`, `os.Open`, `os.OpenFile` and `f.Close`. They are reduced to whether the file opened and which writes succeed.
  - The loaders never close their file.
  - The result file is opened without `O_TRUNC`, so stale bytes beyond the written lines are outside the model.
- CSV tokenising (`encoding/csv`): quoting and field-count checks. A file is a finite sequence of records. Each record carries a flag for a non-EOF error returned with it; reaching EOF is the end of the sequence.
- `strconv.ParseFloat` and `%f` internals: binary floating point is modelled as `real`, and NaN and ±Inf are not modelled.
  - After a failed label parse Go stores 0 or ±Inf into `label`. The row is then always dropped, so the model leaves the value unchanged.
- Encoding.Trunc: for magnitudes of 2^63 and above, Go's float-to-int conversion is platform-specific. The model uses exact truncation. On the usual platforms both results are outside [0, 3), so both panic.
- `onehot` with a negative class count would panic in `make`. The class count is a `nat`, because both callers pass 3.
- All go-deep calls (`deep.NewNeural`, `training.NewAdam`, `NewTrainer`, `Train`, `Predict`). `Predict` appears only as a parameter.
- `data.Shuffle()` and `data.Split(0.75)`: library code, and the shuffle is random.
- `main` and `IrisClassification`: fixed paths and hyperparameters, and console printing.
- The loaders' `fmt.Println(err)` for a dropped row (neural_network/main.go:132 and :181): console output, so a drop is modelled only as the record's absence from the dataset.
- Results.ResultToFile: a write that fails may have written part of its line. The model records only complete lines.
- `show_neural/main.py`: plotting with pandas, PCA and matplotlib. It has no logic of its own.
