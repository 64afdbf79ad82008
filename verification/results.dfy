/**
 The output side of neural_network/main.go: `toString`, which renders one example and
 its predicted class as a line of text, and the write loop of `ResultToFile`.
 */
module Results {
  import opened Wrappers
  import opened Encoding
  import opened Loader

  /** `fmt.Sprintf("%f", x)`. */
  type Formatter = real -> string

  /** `n.Predict`: the trained network, a black box from inputs to output vectors. */
  type Predictor = seq<real> -> seq<real>

  predicate IsDigit(c: char)
  {
    '0' <= c <= '9'
  }

  predicate AllDigits(s: string)
  {
    forall i :: 0 <= i < |s| ==> IsDigit(s[i])
  }

  function DigitChar(d: nat): (c: char)
    requires d < 10
    ensures IsDigit(c)
  {
    ('0' as int + d) as char
  }

  /** The decimal digits of `n`, most significant first, without leading zeros. */
  function NatDigits(n: nat): (s: string)
    ensures |s| > 0 && AllDigits(s)
    ensures |s| > 1 ==> s[0] != '0'
  {
    if n < 10 then [DigitChar(n)] else NatDigits(n / 10) + [DigitChar(n % 10)]
  }

  /** `fmt.Sprintf("%d", n)`. */
  function Decimal(n: int): string
  {
    if n < 0 then "-" + NatDigits(-n) else NatDigits(n)
  }

  /** The value of a string of decimal digits. */
  function DigitsValue(s: string): nat
    requires AllDigits(s)
  {
    if |s| == 0 then 0 else DigitsValue(s[..|s| - 1]) * 10 + (s[|s| - 1] as int - '0' as int)
  }

  /** Reading a `%d` field back: an optional minus sign then at least one digit. */
  function ParseDecimal(s: string): Option<int>
  {
    if |s| > 1 && s[0] == '-' && AllDigits(s[1..]) then Some(-(DigitsValue(s[1..]) as int))
    else if |s| > 0 && AllDigits(s) then Some(DigitsValue(s))
    else None
  }

  lemma {:induction false} NatDigitsValue(n: nat)
    ensures DigitsValue(NatDigits(n)) == n
  {
    if n >= 10 {
      NatDigitsValue(n / 10);
      var s := NatDigits(n);
      assert s[..|s| - 1] == NatDigits(n / 10);
    }
  }

  /** `%d` output reads back as the same integer. */
  lemma DecimalRoundTrip(n: int)
    ensures ParseDecimal(Decimal(n)) == Some(n)
  {
    if n < 0 {
      NatDigitsValue(-n);
      assert Decimal(n)[1..] == NatDigits(-n);
    } else {
      NatDigitsValue(n);
    }
  }

  /** The features of a line: `%f` of each followed by ", ", in order. */
  function FeatureText(xs: seq<real>, fmt: Formatter): string
  {
    if |xs| == 0 then "" else fmt(xs[0]) + ", " + FeatureText(xs[1..], fmt)
  }

  /** `toString(ex, result)`: the features, then the class in decimal, then a newline. */
  function ToString(input: seq<real>, result: int, fmt: Formatter): (line: string)
    ensures |line| > 0 && line[|line| - 1] == '\n'
  {
    FeatureText(input, fmt) + Decimal(result) + "\n"
  }

  /** The fields of a line read back: the formatted features and the class. */
  datatype Line = Line(fields: seq<string>, predicted: int)

  /** The index of the first `c` in `s`, or `|s|` when there is none. */
  function IndexOf(s: string, c: char): (k: nat)
    ensures k <= |s|
    ensures forall j :: 0 <= j < k ==> s[j] != c
    ensures k < |s| ==> s[k] == c
  {
    if |s| == 0 || s[0] == c then 0 else 1 + IndexOf(s[1..], c)
  }

  /**
   Reads a result line as CSV with ", " separators: every field before the last comma is a
   feature text, and what follows it up to the final newline is the class.
   */
  function ReadLine(s: string): Option<Line>
    decreases |s|
  {
    var k := IndexOf(s, ',');
    if k < |s| then
      if k + 1 < |s| && s[k + 1] == ' ' then
        match ReadLine(s[k + 2..])
        case None => None
        case Some(rest) => Some(Line([s[..k]] + rest.fields, rest.predicted))
      else None
    else if |s| > 0 && s[|s| - 1] == '\n' then
      match ParseDecimal(s[..|s| - 1])
      case None => None
      case Some(n) => Some(Line([], n))
    else None
  }

  /** `%f` applied to each feature. */
  function FormatAll(xs: seq<real>, fmt: Formatter): (fs: seq<string>)
    ensures |fs| == |xs|
    ensures forall i :: 0 <= i < |xs| ==> fs[i] == fmt(xs[i])
  {
    seq(|xs|, i requires 0 <= i < |xs| => fmt(xs[i]))
  }

  lemma DecimalHasNoComma(n: int)
    ensures ',' !in Decimal(n) + "\n"
  {
  }

  /** Reading a line whose first field holds no comma splits that field off. */
  lemma ReadLineSplitsField(head: string, rest: string)
    requires ',' !in head
    ensures ReadLine(head + ", " + rest) ==
      match ReadLine(rest)
      case None => None
      case Some(l) => Some(Line([head] + l.fields, l.predicted))
  {
    var line := head + ", " + rest;
    var k := IndexOf(line, ',');
    assert line[|head|] == ',';
    assert k == |head|;
    assert line[..k] == head;
    assert line[k + 2..] == rest;
  }

  /** The last field of a line is the class. */
  lemma ReadLineLastField(n: int)
    ensures ReadLine(Decimal(n) + "\n") == Some(Line([], n))
  {
    var line := Decimal(n) + "\n";
    DecimalHasNoComma(n);
    assert IndexOf(line, ',') == |line|;
    assert line[..|line| - 1] == Decimal(n);
    DecimalRoundTrip(n);
  }

  lemma ToStringCons(input: seq<real>, result: int, fmt: Formatter)
    requires |input| > 0
    ensures ToString(input, result, fmt) == fmt(input[0]) + ", " + ToString(input[1..], result, fmt)
  {
  }

  lemma ToStringNoFeatures(result: int, fmt: Formatter)
    ensures ReadLine(ToString([], result, fmt)) == Some(Line([], result))
  {
    assert ToString([], result, fmt) == Decimal(result) + "\n";
    ReadLineLastField(result);
  }

  /**
   A line of `toString` can be read back into its feature texts and its class, provided
   `%f` produced no comma for these features (it never does for finite values).
   */
  lemma {:induction false} ToStringRoundTrip(input: seq<real>, result: int, fmt: Formatter)
    requires forall i :: 0 <= i < |input| ==> ',' !in fmt(input[i])
    ensures ReadLine(ToString(input, result, fmt)) == Some(Line(FormatAll(input, fmt), result))
  {
    if |input| == 0 {
      ToStringNoFeatures(result, fmt);
      assert FormatAll(input, fmt) == [];
    } else {
      var tail := input[1..];
      assert forall i :: 0 <= i < |tail| ==> tail[i] == input[i + 1];
      ToStringRoundTrip(tail, result, fmt);
      ToStringRoundTripStep(input, result, fmt);
    }
  }

  /** One feature more: its text is split off in front of what the rest of the line reads as. */
  lemma ToStringRoundTripStep(input: seq<real>, result: int, fmt: Formatter)
    requires |input| > 0 && ',' !in fmt(input[0])
    requires ReadLine(ToString(input[1..], result, fmt)) == Some(Line(FormatAll(input[1..], fmt), result))
    ensures ReadLine(ToString(input, result, fmt)) == Some(Line(FormatAll(input, fmt), result))
  {
    var head := fmt(input[0]);
    var rest := ToString(input[1..], result, fmt);
    ToStringCons(input, result, fmt);
    ReadLineSplitsField(head, rest);
    assert FormatAll(input, fmt) == [head] + FormatAll(input[1..], fmt);
  }

  /** The line `ResultToFile` writes for one example. */
  function ResultLine(ex: Example, predict: Predictor, fmt: Formatter): (line: string)
    ensures var c := ArgMax(predict(ex.input));
      && (c == 0 || c < |predict(ex.input)|)
      && |Decimal(c)| + 1 <= |line|
      && line[|line| - |Decimal(c)| - 1..] == Decimal(c) + "\n"
  {
    ToString(ex.input, ArgMax(predict(ex.input)), fmt)
  }

  /**
   Each line written can be read back as CSV: the `%f` texts of the example's features and
   the predicted class, an index into the network output (or 0).
   */
  lemma ResultLineReadsBack(ex: Example, predict: Predictor, fmt: Formatter)
    requires forall i :: 0 <= i < |ex.input| ==> ',' !in fmt(ex.input[i])
    ensures var l := ReadLine(ResultLine(ex, predict, fmt));
      && l.Some?
      && l.value.fields == FormatAll(ex.input, fmt)
      && l.value.predicted == ArgMax(predict(ex.input))
      && 0 <= l.value.predicted
      && (l.value.predicted == 0 || l.value.predicted < |predict(ex.input)|)
  {
    ToStringRoundTrip(ex.input, ArgMax(predict(ex.input)), fmt);
  }

  /** How `ResultToFile` ended: `nil`, the `os.OpenFile` error, or the error of the `k`-th write. */
  datatype WriteStatus = Done | OpenError | WriteError(k: nat)

  /**
   `ResultToFile`: one line per example in dataset order, the class being `ArgMax` of the
   prediction, stopping at the first write that fails. `writeOk(k)` says whether the
   `k`-th `WriteString` succeeds; `written` is the lines the file received.
   */
  method ResultToFile(dataset: seq<Example>, predict: Predictor, fmt: Formatter,
                      fileOpened: bool, writeOk: nat -> bool)
    returns (written: seq<string>, status: WriteStatus)
    ensures !fileOpened ==> status == OpenError && written == []
    ensures fileOpened ==> status != OpenError
    ensures |written| <= |dataset|
    ensures forall j :: 0 <= j < |written| ==> written[j] == ResultLine(dataset[j], predict, fmt) && writeOk(j)
    ensures status == Done <==> fileOpened && |written| == |dataset|
    ensures status.WriteError? ==> status.k == |written| && !writeOk(status.k)
  {
    if !fileOpened {
      return [], OpenError;
    }
    written := [];
    var i := 0;
    while i < |dataset|
      invariant i <= |dataset| && |written| == i
      invariant forall j :: 0 <= j < i ==> written[j] == ResultLine(dataset[j], predict, fmt) && writeOk(j)
    {
      if !writeOk(i) {
        return written, WriteError(i);
      }
      written := written + [ResultLine(dataset[i], predict, fmt)];
      i := i + 1;
    }
    status := Done;
  }

  /**
   With a model that always predicts [1, 0, 0], every line names class 0: it ends in
   ", 0" and a newline when the example has features.
   */
  lemma StubModelLinesEndInZero(ex: Example, predict: Predictor, fmt: Formatter)
    requires predict(ex.input) == [1.0, 0.0, 0.0]
    requires |ex.input| > 0
    ensures var line := ResultLine(ex, predict, fmt);
      |line| >= 4 && line[|line| - 4..] == ", 0\n"
  {
    var d := [1.0, 0.0, 0.0];
    assert d[0] > 0.0;
    assert ArgMax(d) == 0;
    assert Decimal(0) == "0";
    assert FeatureText(ex.input, fmt) == fmt(ex.input[0]) + ", " + FeatureText(ex.input[1..], fmt);
    FeatureTextEndsWithSeparator(ex.input, fmt);
  }

  lemma {:induction false} FeatureTextEndsWithSeparator(xs: seq<real>, fmt: Formatter)
    requires |xs| > 0
    ensures var t := FeatureText(xs, fmt); |t| >= 2 && t[|t| - 2..] == ", "
  {
    if |xs| > 1 {
      FeatureTextEndsWithSeparator(xs[1..], fmt);
    }
  }
}
