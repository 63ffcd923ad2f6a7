/** The quantile lookup over a table of survival curves: for each curve, the
    first position where it is below q, or -1 when its last value is not
    below q. A table with n points and one column per curve is held column
    by column: `curves[c]` is column c, of length n. */
module Quantiles {
  import opened Wrappers

  datatype QuantileError = QOutOfRange | NoPoints

  /** The mask `curve < q`. */
  function Below(curve: seq<real>, q: real): (mask: seq<bool>)
    ensures |mask| == |curve|
    ensures forall i :: 0 <= i < |curve| ==> (mask[i] <==> curve[i] < q)
  {
    if curve == [] then [] else [curve[0] < q] + Below(curve[1..], q)
  }

  /** The position of the first maximum of a boolean column: the first true
      entry, or 0 when every entry is false. */
  function ArgMax(mask: seq<bool>): (k: nat)
    requires mask != []
    ensures k < |mask|
    ensures mask[k] ==> forall i :: 0 <= i < k ==> !mask[i]
    ensures !mask[k] ==> k == 0 && forall i :: 0 <= i < |mask| ==> !mask[i]
  {
    if mask[0] || |mask| == 1 then 0
    else
      var k := ArgMax(mask[1..]);
      if mask[1..][k] then k + 1 else 0
  }

  /** One column of the lookup: the first position whose value is below q
      when the last value is below q, and -1 otherwise. */
  function QthIndex(q: real, curve: seq<real>): (r: int)
    requires curve != []
    ensures -1 <= r < |curve|
    ensures r == -1 <==> curve[|curve| - 1] >= q
    ensures r >= 0 ==> curve[r] < q && forall i :: 0 <= i < r ==> curve[i] >= q
  {
    var mask := Below(curve, q);
    if !mask[|curve| - 1] then -1 else ArgMax(mask)
  }

  /** Every column of a table with n points. */
  predicate Shaped(n: nat, curves: seq<seq<real>>) {
    forall c :: 0 <= c < |curves| ==> |curves[c]| == n
  }

  function QthIndices(q: real, curves: seq<seq<real>>): (r: seq<int>)
    requires forall c :: 0 <= c < |curves| ==> curves[c] != []
    ensures |r| == |curves|
    ensures forall c :: 0 <= c < |curves| ==> r[c] == QthIndex(q, curves[c])
  {
    if curves == [] then [] else [QthIndex(q, curves[0])] + QthIndices(q, curves[1..])
  }

  /** The lookup on a plain array: positions, or -1. It fails unless
      0 <= q <= 1, and on a table without points. */
  function QthSurvivalIndices(q: real, n: nat, curves: seq<seq<real>>): (r: Result<seq<int>, QuantileError>)
    requires Shaped(n, curves)
    ensures r.Failure? <==> !(0.0 <= q <= 1.0) || n == 0
    ensures r.Failure? ==> r.error == (if !(0.0 <= q <= 1.0) then QOutOfRange else NoPoints)
    ensures r.Success? ==> |r.value| == |curves|
    ensures r.Success? ==> forall c :: 0 <= c < |curves| ==>
              && -1 <= r.value[c] < n
              && (r.value[c] == -1 <==> curves[c][n - 1] >= q)
              && (r.value[c] >= 0 ==> curves[c][r.value[c]] < q)
              && (forall i :: 0 <= i < r.value[c] ==> curves[c][i] >= q)
  {
    if !(0.0 <= q <= 1.0) then Failure(QOutOfRange)
    else if n == 0 then Failure(NoPoints)
    else Success(QthIndices(q, curves))
  }

  /** The label of a position, or -1 for the sentinel. */
  function LabelOf(index: seq<real>, k: int): real
    requires -1 <= k < |index|
  {
    if k == -1 then -1.0 else index[k]
  }

  function Labels(index: seq<real>, ks: seq<int>): (r: seq<real>)
    requires forall c :: 0 <= c < |ks| ==> -1 <= ks[c] < |index|
    ensures |r| == |ks|
    ensures forall c :: 0 <= c < |ks| ==> r[c] == LabelOf(index, ks[c])
  {
    if ks == [] then [] else [LabelOf(index, ks[0])] + Labels(index, ks[1..])
  }

  /** The lookup on a table with an index: the label of the first point
      below q (a time, for a survival function), or -1. */
  function QthSurvivalTimes(q: real, index: seq<real>, curves: seq<seq<real>>): (r: Result<seq<real>, QuantileError>)
    requires Shaped(|index|, curves)
    ensures r.Failure? <==> !(0.0 <= q <= 1.0) || index == []
    ensures r.Success? ==> |r.value| == |curves|
    ensures r.Success? ==> forall c :: 0 <= c < |curves| ==>
              && (curves[c][|index| - 1] >= q ==> r.value[c] == -1.0)
              && ((r.value[c] == -1.0 && curves[c][|index| - 1] >= q) ||
                  (exists k :: 0 <= k < |index| && r.value[c] == index[k] && curves[c][k] < q &&
                     forall i :: 0 <= i < k ==> curves[c][i] >= q))
  {
    match QthSurvivalIndices(q, |index|, curves)
    case Failure(e) => Failure(e)
    case Success(ks) => Success(Labels(index, ks))
  }

  /** The median on a plain array: the q = 1/2 lookup, which only fails on a
      table without points. */
  function MedianSurvivalIndices(n: nat, curves: seq<seq<real>>): (r: Result<seq<int>, QuantileError>)
    requires Shaped(n, curves)
    ensures r.Failure? <==> n == 0
    ensures r.Success? ==> |r.value| == |curves|
    ensures r.Success? ==> forall c :: 0 <= c < |curves| ==>
              && -1 <= r.value[c] < n
              && (r.value[c] == -1 <==> curves[c][n - 1] >= 0.5)
              && (r.value[c] >= 0 ==> curves[c][r.value[c]] < 0.5)
              && (forall i :: 0 <= i < r.value[c] ==> curves[c][i] >= 0.5)
  {
    QthSurvivalIndices(0.5, n, curves)
  }

  /** The median on a table with an index. */
  function MedianSurvivalTimes(index: seq<real>, curves: seq<seq<real>>): (r: Result<seq<real>, QuantileError>)
    requires Shaped(|index|, curves)
    ensures r.Failure? <==> index == []
    ensures r.Success? ==> |r.value| == |curves|
    ensures r.Success? ==> forall c :: 0 <= c < |curves| ==>
              && (curves[c][|index| - 1] >= 0.5 ==> r.value[c] == -1.0)
              && ((r.value[c] == -1.0 && curves[c][|index| - 1] >= 0.5) ||
                  (exists k :: 0 <= k < |index| && r.value[c] == index[k] && curves[c][k] < 0.5 &&
                     forall i :: 0 <= i < k ==> curves[c][i] >= 0.5))
  {
    QthSurvivalTimes(0.5, index, curves)
  }

  /** On a single curve the median is the label of its q = 1/2 index. */
  lemma SingleCurveMedian(index: seq<real>, curve: seq<real>)
    requires index != [] && |curve| == |index|
    ensures MedianSurvivalTimes(index, [curve]) == Success([LabelOf(index, QthIndex(0.5, curve))])
  {
    assert QthIndices(0.5, [curve]) == [QthIndex(0.5, curve)];
    assert Labels(index, [QthIndex(0.5, curve)]) == [LabelOf(index, QthIndex(0.5, curve))];
  }

  /** Values never increase along the curve. */
  predicate NonIncreasing(curve: seq<real>) {
    forall i, j :: 0 <= i <= j < |curve| ==> curve[j] <= curve[i]
  }

  /** On a non-increasing curve the -1 sentinel means the curve never drops
      below q, and a found position is where it drops below q for good. */
  lemma NonIncreasingLookup(q: real, curve: seq<real>)
    requires curve != [] && NonIncreasing(curve)
    ensures QthIndex(q, curve) == -1 <==> forall i :: 0 <= i < |curve| ==> curve[i] >= q
    ensures QthIndex(q, curve) >= 0 ==>
              forall i :: 0 <= i < |curve| ==> (curve[i] < q <==> QthIndex(q, curve) <= i)
  {
    var r := QthIndex(q, curve);
    if r >= 0 {
      forall i | 0 <= i < |curve|
        ensures curve[i] < q <==> r <= i
      {
        if r <= i {
          assert curve[i] <= curve[r];
        }
      }
    }
  }
}
