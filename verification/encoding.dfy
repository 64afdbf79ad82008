/**
 Label encoding and decoding of neural_network/main.go: the float-to-int conversion Go
 applies in `onehot`, the one-hot vector itself, and the `ArgMax` that turns a network
 output back into a class index.
 */
module Encoding {
  import opened Wrappers

  /** Go's conversion `int(x)` of a float64: truncation toward zero. */
  function Trunc(x: real): (t: int)
    ensures 0.0 <= x ==> 0 <= t && t as real <= x < t as real + 1.0
    ensures x < 0.0 ==> t <= 0 && t as real - 1.0 < x <= t as real
  {
    if x >= 0.0 then x.Floor else -((-x).Floor)
  }

  /** The vector of length `n` holding 1.0 at index `k` and 0.0 everywhere else. */
  function Indicator(n: nat, k: int): seq<real>
  {
    seq(n, i => if i == k then 1.0 else 0.0)
  }

  /**
   `onehot(classes, val)`: `make([]float64, classes)` then `res[int(val)] = 1`.
   The index is not checked, so an out-of-range one is a run-time panic, here `None`.
   */
  function OneHot(classes: nat, val: real): (r: Option<seq<real>>)
    ensures r.Some? <==> 0 <= Trunc(val) < classes
    ensures r.Some? ==> |r.value| == classes
    ensures r.Some? ==> r.value[Trunc(val)] == 1.0
    ensures r.Some? ==> forall i :: 0 <= i < classes && i != Trunc(val) ==> r.value[i] == 0.0
  {
    var k := Trunc(val);
    if 0 <= k < classes then Some(Indicator(classes, k)) else None
  }

  /** The labels `onehot` accepts are exactly the reals strictly between -1 and `classes`. */
  lemma OneHotAcceptsIff(classes: nat, val: real)
    requires classes > 0
    ensures OneHot(classes, val).Some? <==> -1.0 < val < classes as real
  {
  }

  /** Sum of a vector, folded from the left like a Go range loop. */
  function Sum(s: seq<real>): real
  {
    if |s| == 0 then 0.0 else Sum(s[..|s| - 1]) + s[|s| - 1]
  }

  lemma {:induction false} SumIndicator(n: nat, k: int)
    ensures Sum(Indicator(n, k)) == if 0 <= k < n then 1.0 else 0.0
  {
    if n > 0 {
      assert Indicator(n, k)[..n - 1] == Indicator(n - 1, k);
      SumIndicator(n - 1, k);
    }
  }

  /** An accepted one-hot vector sums to 1. */
  lemma OneHotSumsToOne(classes: nat, val: real)
    requires OneHot(classes, val).Some?
    ensures Sum(OneHot(classes, val).value) == 1.0
  {
    SumIndicator(classes, Trunc(val));
  }

  /** The loop state of `ArgMax`: the index `id` and running maximum `m`. */
  datatype Scan = Scan(id: nat, m: real)

  /**
   The state of `ArgMax`'s loop once it has visited all of `d`, starting from
   `id = 0, m = 0` and taking an element only when it is strictly greater than `m`.
   */
  function ScanPrefix(d: seq<real>): (s: Scan)
    ensures 0.0 <= s.m
    ensures forall j :: 0 <= j < |d| ==> d[j] <= s.m
    ensures s.m == 0.0 ==> s.id == 0
    ensures s.m > 0.0 ==> s.id < |d| && d[s.id] == s.m
    ensures s.m > 0.0 ==> forall j :: 0 <= j < s.id ==> d[j] < s.m
  {
    if |d| == 0 then Scan(0, 0.0)
    else
      var s := ScanPrefix(d[..|d| - 1]);
      if d[|d| - 1] > s.m then Scan(|d| - 1, d[|d| - 1]) else s
  }

  /**
   `ArgMax(d)`: with no element above 0 (in particular for an empty `d`) the result is 0;
   otherwise it is the first index holding the maximum, and that maximum is positive.
   */
  function ArgMax(d: seq<real>): (id: nat)
    ensures (forall j :: 0 <= j < |d| ==> d[j] <= 0.0) ==> id == 0
    ensures (exists j :: 0 <= j < |d| && d[j] > 0.0) ==>
      && id < |d|
      && d[id] > 0.0
      && (forall j :: 0 <= j < |d| ==> d[j] <= d[id])
      && (forall j :: 0 <= j < id ==> d[j] < d[id])
  {
    ScanPrefix(d).id
  }

  /** Decoding an accepted one-hot vector with `ArgMax` gives back the truncated label. */
  lemma ArgMaxOfOneHot(classes: nat, val: real)
    requires OneHot(classes, val).Some?
    ensures ArgMax(OneHot(classes, val).value) == Trunc(val)
  {
  }

  /** The conventional arg-max of a non-empty vector: the first index of its maximum. */
  function FirstMax(d: seq<real>): (k: nat)
    requires |d| > 0
    ensures k < |d|
    ensures forall j :: 0 <= j < |d| ==> d[j] <= d[k]
    ensures forall j :: 0 <= j < k ==> d[j] < d[k]
  {
    if |d| == 1 then 0
    else
      var k := FirstMax(d[..|d| - 1]);
      if d[|d| - 1] > d[k] then |d| - 1 else k
  }

  /**
   Starting the running maximum at 0 rather than at `d[0]` changes the answer exactly
   when no element is positive and the maximum first occurs after index 0.
   */
  lemma ArgMaxAgreesWithFirstMaxIff(d: seq<real>)
    requires |d| > 0
    ensures ArgMax(d) == FirstMax(d) <==> d[FirstMax(d)] > 0.0 || FirstMax(d) == 0
  {
  }

  /** A vector whose only positive entry is not first: all-negative outputs pick class 0. */
  lemma ArgMaxIgnoresNonPositiveMaximum()
    ensures ArgMax([-2.0, -1.0]) == 0
    ensures FirstMax([-2.0, -1.0]) == 1
  {
  }

  /** The worked examples: a clear winner, and an all-zero output that falls back to class 0. */
  lemma ArgMaxExamples()
    ensures ArgMax([0.1, 0.9, 0.3]) == 1
    ensures ArgMax([0.0, 0.0, 0.0]) == 0
  {
  }
}
