/**
 The per-record logic of `LoadDataSetFromDOGSCSV` and `LoadDataSetFromCSV`
 (neural_network/main.go): how one CSV record becomes a training example, and the
 loop that folds the records of a file into a dataset.
 */
module Loader {
  import opened Wrappers
  import opened Encoding

  /** `strconv.ParseFloat(s, 64)`: `None` for any non-nil error. */
  type Parser = string -> Option<real>

  /** Both loaders encode the label over three classes. */
  const ClassCount: nat := 3

  /** One result of `reader.Read()`: the fields and whether a non-EOF error came with them. */
  datatype Record = Record(fields: seq<string>, readFailed: bool)

  /** `training.Example`: the feature vector and the one-hot response. */
  datatype Example = Example(input: seq<real>, response: seq<real>)

  /** The dog loader uses every column; the iris loader skips column 0 (`if i == 0`). */
  datatype Layout = Dogs | Iris

  /**
   How a feature column's parse error reaches the row. `Shadowing` is the code as
   written: `f, err := …` declares a fresh `err` in the column loop's body, so the
   error is lost. `Assigning` is the evidently intended `f, err = …`.
   */
  datatype FeatureParse = Shadowing | Assigning

  /** The per-record loop variables `features`, `label` and `err`. */
  datatype RowState = RowState(features: seq<real>, labelValue: real, err: bool)

  /** What one pass of the outer loop does with a record. */
  datatype RowOutcome = Kept(example: Example) | Dropped | Crashed

  /**
   The column loop over the columns still to visit; the last one is the label column
   (`i == len(record)-1`). A failed parse breaks out of the loop. After a failed label
   parse Go stores 0 or ±Inf into `label`; the row is dropped then, so it is left as is.
   */
  function Columns(cols: seq<string>, parse: Parser, fp: FeatureParse, st: RowState): (out: RowState)
    ensures st.features <= out.features
    ensures |cols| > 0 ==> |out.features| <= |st.features| + |cols| - 1
    decreases |cols|
  {
    if |cols| == 0 then st
    else if |cols| == 1 then
      match parse(cols[0])
      case None => st.(err := true)
      case Some(v) => st.(labelValue := v, err := false)
    else
      match parse(cols[0])
      case None => if fp == Shadowing then st else st.(err := true)
      case Some(f) =>
        var err := if fp == Shadowing then st.err else false;
        Columns(cols[1..], parse, fp, st.(features := st.features + [f], err := err))
  }

  /** The columns the loop looks at: all of them, or all but column 0 for iris. */
  function LoopColumns(rec: Record, layout: Layout): seq<string>
  {
    if layout == Iris && |rec.fields| > 0 then rec.fields[1..] else rec.fields
  }

  /** Appending the example: a label outside [0, 3) after truncation panics in `onehot`. */
  function Encode(features: seq<real>, labelValue: real): RowOutcome
  {
    match OneHot(ClassCount, labelValue)
    case None => Crashed
    case Some(response) => Kept(Example(features, response))
  }

  /**
   One pass of the outer `for` loop: fresh `features`/`label`, `err` from `reader.Read`.
   It agrees with the loop-free description `RowSpec` for every record, parser, layout
   and variant.
   */
  function Row(rec: Record, parse: Parser, layout: Layout, fp: FeatureParse): (r: RowOutcome)
    ensures r == RowSpec(rec, parse, layout, fp)
  {
    FirstPassMatchesSpec(rec, parse, layout, fp);
    var st := Columns(LoopColumns(rec, layout), parse, fp, RowState([], 0.0, rec.readFailed));
    if st.err then Dropped else Encode(st.features, st.labelValue)
  }

  /**
   The per-record step of `LoadDataSetFromDOGSCSV`, as written. Of n fields, columns
   0..n-2 are features and column n-1 the label; the record is dropped exactly when the
   label column is reached and fails, or the read failed and no label parse cleared it.
   */
  function DogRow(rec: Record, parse: Parser): (r: RowOutcome)
    ensures var n := |rec.fields|;
      r == Dropped <==>
        || (n > 0 && AllParse(rec.fields[..n - 1], parse) && parse(rec.fields[n - 1]).None?)
        || (rec.readFailed && !(n > 0 && AllParse(rec.fields[..n - 1], parse)))
  {
    RowDroppedIff(rec, parse, Dogs);
    Row(rec, parse, Dogs, Shadowing)
  }

  /**
   The per-record step of `LoadDataSetFromCSV`, as written. Column 0 is skipped; of n
   fields, columns 1..n-2 are features and column n-1 the label, which exists only when
   n >= 2. The drop rule is the dog loader's over those columns.
   */
  function IrisRow(rec: Record, parse: Parser): (r: RowOutcome)
    ensures var n := |rec.fields|;
      r == Dropped <==>
        || (n > 1 && AllParse(rec.fields[1..n - 1], parse) && parse(rec.fields[n - 1]).None?)
        || (rec.readFailed && !(n > 1 && AllParse(rec.fields[1..n - 1], parse)))
  {
    RowDroppedIff(rec, parse, Iris);
    var n := |rec.fields|;
    assert n > 1 ==> FeatureColumns(rec, Iris) == rec.fields[1..n - 1] && LabelColumn(rec, Iris) == rec.fields[n - 1];
    Row(rec, parse, Iris, Shadowing)
  }

  // ---------------------------------------------------------------------------
  // A closed-form description of a row, independent of the column loop.

  /** The index of the first column that does not parse, or `|cols|` when all do. */
  function FirstFailure(cols: seq<string>, parse: Parser): (k: nat)
    ensures k <= |cols|
    ensures forall j :: 0 <= j < k ==> parse(cols[j]).Some?
    ensures k < |cols| ==> parse(cols[k]).None?
  {
    if |cols| == 0 || parse(cols[0]).None? then 0 else 1 + FirstFailure(cols[1..], parse)
  }

  predicate AllParse(cols: seq<string>, parse: Parser)
  {
    forall j :: 0 <= j < |cols| ==> parse(cols[j]).Some?
  }

  /** The parsed values of columns that all parse, in column order. */
  function ParseAll(cols: seq<string>, parse: Parser): (xs: seq<real>)
    requires AllParse(cols, parse)
    ensures |xs| == |cols|
    ensures forall j :: 0 <= j < |cols| ==> Some(xs[j]) == parse(cols[j])
  {
    seq(|cols|, j requires 0 <= j < |cols| => parse(cols[j]).value)
  }

  /** Whether the record reaches a label column at all (not so for an empty record, or a one-field iris record). */
  predicate HasLabel(rec: Record, layout: Layout)
  {
    |LoopColumns(rec, layout)| > 0
  }

  /** The feature columns: every looked-at column but the last. */
  function FeatureColumns(rec: Record, layout: Layout): seq<string>
  {
    var cols := LoopColumns(rec, layout);
    if |cols| == 0 then [] else cols[..|cols| - 1]
  }

  function LabelColumn(rec: Record, layout: Layout): string
    requires HasLabel(rec, layout)
  {
    var cols := LoopColumns(rec, layout);
    cols[|cols| - 1]
  }

  /**
   What happens to a record, stated without the loop: a failing feature column keeps the
   parsed prefix and label 0 under shadowing (unless the read itself failed), and drops
   the row otherwise; with all features parsed, the label column decides.
   */
  function RowSpec(rec: Record, parse: Parser, layout: Layout, fp: FeatureParse): RowOutcome
  {
    var feats := FeatureColumns(rec, layout);
    var k := FirstFailure(feats, parse);
    if k < |feats| then
      if fp == Assigning || rec.readFailed then Dropped else Encode(ParseAll(feats[..k], parse), 0.0)
    else if !HasLabel(rec, layout) then
      if rec.readFailed then Dropped else Encode([], 0.0)
    else
      match parse(LabelColumn(rec, layout))
      case None => Dropped
      case Some(v) => Encode(ParseAll(feats, parse), v)
  }

  /**
   The column loop from state `st` in closed form: it appends the parsed prefix before the
   first failing feature; a failing feature sets `err` only when assigned, and with every
   feature parsed the label column decides `labelValue` and `err`.
   */
  function ColumnsSpec(cols: seq<string>, parse: Parser, fp: FeatureParse, st: RowState): RowState
    requires |cols| > 0
  {
    var feats := cols[..|cols| - 1];
    var k := FirstFailure(feats, parse);
    var features := st.features + ParseAll(feats[..k], parse);
    if k < |feats| then st.(features := features, err := fp == Assigning || st.err)
    else
      match parse(cols[|cols| - 1])
      case None => st.(features := features, err := true)
      case Some(v) => st.(features := features, labelValue := v, err := false)
  }

  /** One parsed feature column moves the closed form one column on. */
  lemma ColumnsSpecStep(cols: seq<string>, parse: Parser, fp: FeatureParse, st: RowState)
    requires |cols| > 1 && parse(cols[0]).Some?
    ensures
      var err := if fp == Shadowing then st.err else false;
      ColumnsSpec(cols, parse, fp, st) ==
        ColumnsSpec(cols[1..], parse, fp, st.(features := st.features + [parse(cols[0]).value], err := err))
  {
  }

  /** The column loop agrees with its closed form from every state. */
  lemma {:induction false} ColumnsClosedForm(cols: seq<string>, parse: Parser, fp: FeatureParse, st: RowState)
    requires |cols| > 0
    ensures Columns(cols, parse, fp, st) == ColumnsSpec(cols, parse, fp, st)
  {
    var feats := cols[..|cols| - 1];
    if |cols| == 1 || parse(cols[0]).None? {
      assert FirstFailure(feats, parse) == 0;
      assert ParseAll(feats[..0], parse) == [];
      assert st.features + [] == st.features;
    } else {
      var err := if fp == Shadowing then st.err else false;
      ColumnsClosedForm(cols[1..], parse, fp, st.(features := st.features + [parse(cols[0]).value], err := err));
      ColumnsSpecStep(cols, parse, fp, st);
    }
  }

  /** The column loop, started as the outer loop starts it, agrees with the closed form. */
  lemma FirstPassMatchesSpec(rec: Record, parse: Parser, layout: Layout, fp: FeatureParse)
    ensures
      var out := Columns(LoopColumns(rec, layout), parse, fp, RowState([], 0.0, rec.readFailed));
      (if out.err then Dropped else Encode(out.features, out.labelValue)) == RowSpec(rec, parse, layout, fp)
  {
    var cols := LoopColumns(rec, layout);
    var st := RowState([], 0.0, rec.readFailed);
    if |cols| > 0 {
      var out := Columns(cols, parse, fp, st);
      ColumnsClosedForm(cols, parse, fp, st);
      var feats := FeatureColumns(rec, layout);
      var k := FirstFailure(feats, parse);
      assert out.features == ParseAll(feats[..k], parse) by {
        assert [] + ParseAll(feats[..k], parse) == ParseAll(feats[..k], parse);
      }
      if k < |feats| {
        assert out.err == (fp == Assigning || rec.readFailed) && out.labelValue == 0.0;
      } else if parse(LabelColumn(rec, layout)).None? {
        assert out.err;
      } else {
        assert !out.err && out.labelValue == parse(LabelColumn(rec, layout)).value;
      }
    } else {
      assert FeatureColumns(rec, layout) == [];
    }
  }

  // ---------------------------------------------------------------------------
  // The rules of a record, as the two loaders apply them.

  /** A dog record whose every column parses becomes features = columns 0..n-2, label = column n-1; a read error is overwritten by the label parse. */
  lemma DogWellFormedRow(rec: Record, parse: Parser, v: real)
    requires |rec.fields| > 0
    requires AllParse(rec.fields[..|rec.fields| - 1], parse)
    requires parse(rec.fields[|rec.fields| - 1]) == Some(v)
    ensures DogRow(rec, parse) == Encode(ParseAll(rec.fields[..|rec.fields| - 1], parse), v)
  {
  }

  /** An iris record with two or more fields: column 0 is ignored, features = columns 1..n-2, label = column n-1. */
  lemma IrisWellFormedRow(rec: Record, parse: Parser, v: real)
    requires |rec.fields| > 1
    requires AllParse(rec.fields[1..|rec.fields| - 1], parse)
    requires parse(rec.fields[|rec.fields| - 1]) == Some(v)
    ensures IrisRow(rec, parse) == Encode(ParseAll(rec.fields[1..|rec.fields| - 1], parse), v)
  {
    assert FeatureColumns(rec, Iris) == rec.fields[1..|rec.fields| - 1];
  }

  /**
   A one-field iris record: its only column is skipped as column 0, so no label is read.
   The row encodes class 0 with no features, unless the read failed: nothing clears that error.
   */
  lemma IrisSingleFieldRow(rec: Record, parse: Parser)
    requires |rec.fields| == 1
    ensures IrisRow(rec, parse) == if rec.readFailed then Dropped else Kept(Example([], [1.0, 0.0, 0.0]))
  {
  }

  /** A label column that does not parse drops the record, in either loader. */
  lemma BadLabelDropsRow(rec: Record, parse: Parser, layout: Layout, fp: FeatureParse)
    requires HasLabel(rec, layout)
    requires AllParse(FeatureColumns(rec, layout), parse)
    requires parse(LabelColumn(rec, layout)).None?
    ensures Row(rec, parse, layout, fp) == Dropped
  {
  }

  /**
   The shadowed `err`: a feature column `k` that does not parse ends the column loop,
   but the record is kept with the features parsed before it, label 0.0 and response [1, 0, 0].
   Only a read error reported with the record drops it, since nothing clears that error.
   */
  lemma BadFeatureKeepsPrefix(rec: Record, parse: Parser, layout: Layout, k: nat)
    requires k < |FeatureColumns(rec, layout)|
    requires AllParse(FeatureColumns(rec, layout)[..k], parse)
    requires parse(FeatureColumns(rec, layout)[k]).None?
    ensures Row(rec, parse, layout, Shadowing) ==
      if rec.readFailed then Dropped
      else Kept(Example(ParseAll(FeatureColumns(rec, layout)[..k], parse), [1.0, 0.0, 0.0]))
  {
    assert FirstFailure(FeatureColumns(rec, layout), parse) == k;
    assert Indicator(3, 0) == [1.0, 0.0, 0.0];
  }

  /**
   As written, a record is dropped exactly when its label column is reached and fails to
   parse, or when the read failed and no label parse overwrote that error.
   */
  lemma RowDroppedIff(rec: Record, parse: Parser, layout: Layout)
    ensures Row(rec, parse, layout, Shadowing) == Dropped <==>
      || (HasLabel(rec, layout) && AllParse(FeatureColumns(rec, layout), parse) && parse(LabelColumn(rec, layout)).None?)
      || (rec.readFailed && !(HasLabel(rec, layout) && AllParse(FeatureColumns(rec, layout), parse)))
  {
    var feats := FeatureColumns(rec, layout);
    var k := FirstFailure(feats, parse);
    OneHotAcceptsIff(ClassCount, 0.0);
    if k < |feats| {
      assert !AllParse(feats, parse);
    }
  }

  /** A record crashes the loader exactly when its label is read and lies outside (-1, 3). */
  lemma RowCrashedIff(rec: Record, parse: Parser, layout: Layout, fp: FeatureParse)
    ensures Row(rec, parse, layout, fp) == Crashed <==>
      && HasLabel(rec, layout)
      && AllParse(FeatureColumns(rec, layout), parse)
      && parse(LabelColumn(rec, layout)).Some?
      && !(-1.0 < parse(LabelColumn(rec, layout)).value < ClassCount as real)
  {
    var feats := FeatureColumns(rec, layout);
    var k := FirstFailure(feats, parse);
    OneHotAcceptsIff(ClassCount, 0.0);
    if k < |feats| {
      assert !AllParse(feats, parse);
    } else if HasLabel(rec, layout) && parse(LabelColumn(rec, layout)).Some? {
      OneHotAcceptsIff(ClassCount, parse(LabelColumn(rec, layout)).value);
    }
  }

  // ---------------------------------------------------------------------------
  // The evidently intended loop, with the feature error assigned to the loop's `err`.

  /** `LoadDataSetFromDOGSCSV`'s record step with `f, err = …` in place of `f, err := …`. */
  function CorrectedDogRow(rec: Record, parse: Parser): RowOutcome
  {
    Row(rec, parse, Dogs, Assigning)
  }

  /**
   With the error assigned, a record is kept only when every column it reads parses, and
   then its features are all of its feature columns: no truncated rows.
   */
  lemma CorrectedRowKeptIff(rec: Record, parse: Parser, layout: Layout)
    ensures Row(rec, parse, layout, Assigning).Kept? ==>
      && AllParse(FeatureColumns(rec, layout), parse)
      && Row(rec, parse, layout, Assigning).example.input == ParseAll(FeatureColumns(rec, layout), parse)
    ensures Row(rec, parse, layout, Assigning) == Dropped <==>
      || !AllParse(FeatureColumns(rec, layout), parse)
      || (HasLabel(rec, layout) && parse(LabelColumn(rec, layout)).None?)
      || (!HasLabel(rec, layout) && rec.readFailed)
  {
    var feats := FeatureColumns(rec, layout);
    var k := FirstFailure(feats, parse);
    if k < |feats| {
      assert !AllParse(feats, parse);
    } else {
      assert feats[..k] == feats;
    }
  }

  /** The parser used by the counterexample below: "5.0" and "2.0" parse, nothing else does. */
  function SampleParse(s: string): Option<real>
  {
    if s == "5.0" then Some(5.0) else if s == "2.0" then Some(2.0) else None
  }

  /**
   The record `5.0,x,2.0` (label 2) is kept by the dog loader as written, with features
   [5.0] and class 0, while the corrected step drops it.
   */
  lemma ShadowingKeepsMalformedRecord()
    ensures DogRow(Record(["5.0", "x", "2.0"], false), SampleParse) == Kept(Example([5.0], [1.0, 0.0, 0.0]))
    ensures CorrectedDogRow(Record(["5.0", "x", "2.0"], false), SampleParse) == Dropped
  {
  }

  // ---------------------------------------------------------------------------
  // The outer loop: records folded, in order, into a dataset.

  /** What the record loop produces: the dataset, or a panic raised in `onehot` at some record. */
  datatype LoadResult = Loaded(data: seq<Example>) | Panicked(row: nat)

  /**
   The outer `for` loop, given what each pass does with its record: a kept example is
   appended, a dropped record is skipped (`continue`), and a panic ends the program.
   */
  function Collect(outs: seq<RowOutcome>): (r: LoadResult)
    ensures r.Panicked? ==> r.row < |outs|
    ensures r.Loaded? ==> |r.data| <= |outs|
  {
    if |outs| == 0 then Loaded([])
    else
      var n := |outs| - 1;
      match Collect(outs[..n])
      case Loaded(data) =>
        (match outs[n]
         case Kept(ex) => Loaded(data + [ex])
         case Dropped => Loaded(data)
         case Crashed => Panicked(n))
      case Panicked(i) => Panicked(i)
  }

  /** What the loop body does with each record, in record order. */
  function Outcomes(records: seq<Record>, parse: Parser, layout: Layout, fp: FeatureParse): (outs: seq<RowOutcome>)
    ensures |outs| == |records|
    ensures forall i :: 0 <= i < |records| ==> outs[i] == Row(records[i], parse, layout, fp)
  {
    seq(|records|, i requires 0 <= i < |records| => Row(records[i], parse, layout, fp))
  }

  /**
   The record loop of a loader: each record's step, folded in order. It returns a dataset
   exactly when no record crashes, and otherwise panics at the first record that does.
   */
  function Load(records: seq<Record>, parse: Parser, layout: Layout, fp: FeatureParse): (r: LoadResult)
    ensures r.Loaded? <==> forall j :: 0 <= j < |records| ==> Row(records[j], parse, layout, fp) != Crashed
    ensures r.Panicked? ==>
      && r.row < |records|
      && Row(records[r.row], parse, layout, fp) == Crashed
      && forall j :: 0 <= j < r.row ==> Row(records[j], parse, layout, fp) != Crashed
  {
    var outs := Outcomes(records, parse, layout, fp);
    CollectLoadedIff(outs);
    CollectPanicsAtFirstCrash(outs);
    Collect(outs)
  }

  /** The label is read, parses, and truncates outside [0, 3): `onehot` panics on it. */
  predicate LabelOutOfRange(rec: Record, parse: Parser, layout: Layout)
  {
    && HasLabel(rec, layout)
    && AllParse(FeatureColumns(rec, layout), parse)
    && parse(LabelColumn(rec, layout)).Some?
    && !(-1.0 < parse(LabelColumn(rec, layout)).value < ClassCount as real)
  }

  /** Over a whole file, the records that crash are exactly those with an out-of-range label. */
  lemma CrashesAreBadLabels(records: seq<Record>, parse: Parser, layout: Layout)
    ensures forall j :: 0 <= j < |records| ==>
      (Row(records[j], parse, layout, Shadowing) == Crashed <==> LabelOutOfRange(records[j], parse, layout))
  {
    forall j | 0 <= j < |records|
      ensures Row(records[j], parse, layout, Shadowing) == Crashed <==> LabelOutOfRange(records[j], parse, layout)
    {
      RowCrashedIff(records[j], parse, layout, Shadowing);
    }
  }

  /**
   `LoadDataSetFromDOGSCSV` (layout `Dogs`) and `LoadDataSetFromCSV` (layout `Iris`):
   `None` when `filepath.Abs` or `os.Open` failed. The error returned is the function's
   own named result, set only by those two calls, so once the file is open no per-row
   error surfaces: the loader yields a dataset unless some label is out of range, and
   then panics at the first such record.
   */
  function LoadDataSet(fileOpened: bool, records: seq<Record>, parse: Parser, layout: Layout): (r: Option<LoadResult>)
    ensures r.None? <==> !fileOpened
    ensures r.Some? ==>
      (r.value.Loaded? <==> forall j :: 0 <= j < |records| ==> !LabelOutOfRange(records[j], parse, layout))
    ensures r.Some? && r.value.Panicked? ==>
      && r.value.row < |records|
      && LabelOutOfRange(records[r.value.row], parse, layout)
      && forall j :: 0 <= j < r.value.row ==> !LabelOutOfRange(records[j], parse, layout)
  {
    CrashesAreBadLabels(records, parse, layout);
    if !fileOpened then None else Some(Load(records, parse, layout, Shadowing))
  }

  lemma {:induction false} CollectLoadedIff(outs: seq<RowOutcome>)
    ensures Collect(outs).Loaded? <==> forall j :: 0 <= j < |outs| ==> outs[j] != Crashed
  {
    if |outs| > 0 {
      var n := |outs| - 1;
      CollectLoadedIff(outs[..n]);
      assert forall j :: 0 <= j < n ==> outs[..n][j] == outs[j];
    }
  }

  lemma {:induction false} CollectPanicsAtFirstCrash(outs: seq<RowOutcome>)
    ensures Collect(outs).Panicked? ==>
      var p := Collect(outs).row;
      outs[p] == Crashed && forall j :: 0 <= j < p ==> outs[j] != Crashed
  {
    if Collect(outs).Panicked? {
      var n := |outs| - 1;
      var prefix := outs[..n];
      assert forall j :: 0 <= j < n ==> prefix[j] == outs[j];
      if Collect(prefix).Panicked? {
        CollectPanicsAtFirstCrash(prefix);
      } else {
        CollectLoadedIff(prefix);
      }
    }
  }

  lemma {:induction false} CollectIsInOrderFilter(outs: seq<RowOutcome>) returns (idx: seq<nat>)
    requires Collect(outs).Loaded?
    ensures |idx| == |Collect(outs).data|
    ensures forall j :: 0 <= j < |idx| ==> idx[j] < |outs| && outs[idx[j]] == Kept(Collect(outs).data[j])
    ensures forall j, j' :: 0 <= j < j' < |idx| ==> idx[j] < idx[j']
    ensures forall i :: 0 <= i < |outs| && outs[i].Kept? ==> i in idx
  {
    if |outs| == 0 {
      idx := [];
    } else {
      var n := |outs| - 1;
      var prefix := outs[..n];
      assert forall j :: 0 <= j < n ==> prefix[j] == outs[j];
      idx := CollectIsInOrderFilter(prefix);
      if outs[n].Kept? {
        idx := idx + [n];
      }
    }
  }

  /** The loader panics at record `i` exactly when `i` is the first record whose label `onehot` rejects. */
  lemma LoadPanicsIff(records: seq<Record>, parse: Parser, layout: Layout, fp: FeatureParse, i: nat)
    ensures Load(records, parse, layout, fp) == Panicked(i) <==>
      && i < |records|
      && Row(records[i], parse, layout, fp) == Crashed
      && forall j :: 0 <= j < i ==> Row(records[j], parse, layout, fp) != Crashed
  {
  }

  /**
   A loaded dataset is the kept examples in record order: `idx` maps each example to its
   record, strictly increasing, and every kept record is in it.
   */
  lemma LoadIsInOrderFilter(records: seq<Record>, parse: Parser, layout: Layout, fp: FeatureParse)
    returns (idx: seq<nat>)
    requires Load(records, parse, layout, fp).Loaded?
    ensures |idx| == |Load(records, parse, layout, fp).data|
    ensures forall j :: 0 <= j < |idx| ==>
      idx[j] < |records| && Row(records[idx[j]], parse, layout, fp) == Kept(Load(records, parse, layout, fp).data[j])
    ensures forall j, j' :: 0 <= j < j' < |idx| ==> idx[j] < idx[j']
    ensures forall i :: 0 <= i < |records| && Row(records[i], parse, layout, fp).Kept? ==> i in idx
  {
    idx := CollectIsInOrderFilter(Outcomes(records, parse, layout, fp));
  }

  /** The two variants load the same dataset from records whose feature columns all parse. */
  lemma LoadersAgreeWhenFeaturesParse(records: seq<Record>, parse: Parser, layout: Layout)
    requires forall i :: 0 <= i < |records| ==> AllParse(FeatureColumns(records[i], layout), parse)
    ensures Load(records, parse, layout, Shadowing) == Load(records, parse, layout, Assigning)
  {
    forall i | 0 <= i < |records|
      ensures Row(records[i], parse, layout, Shadowing) == Row(records[i], parse, layout, Assigning)
    {
      assert FirstFailure(FeatureColumns(records[i], layout), parse) == |FeatureColumns(records[i], layout)|;
    }
    assert Outcomes(records, parse, layout, Shadowing) == Outcomes(records, parse, layout, Assigning);
  }
}
