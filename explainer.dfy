/**
 * The explanation engine: aligns the upload to the model's features, takes
 * the model's predictions and per-feature contributions for those rows,
 * gives each row its issuer and timestamp, sorts the rows by issuer and
 * time, computes the short- and long-term trends within each issuer, and
 * composes each row's rationale. The result has one row per uploaded row.
 */
module Explainer {
  import opened Wrappers
  import opened Sorting
  import opened Frame
  import opened Alignment
  import opened Trends
  import opened Rationale

  datatype Error = ModelIncompatible  // the model recorded no fit-time feature names

  /** A fitted model as far as the engine reads it: its fit-time feature names, if it recorded them. */
  datatype Model = Model(featureNames: Option<seq<string>>)

  /** One output row; `index` is the position of the uploaded row it explains. */
  datatype ExplainedRow = ExplainedRow(
    index: nat,
    issuerId: int,
    predictedScore: real,
    shortTermTrend: real,
    longTermTrend: real,
    explanation: seq<Line>)

  function IssuerIdsOf(rows: seq<ExplainedRow>): (ids: seq<int>)
    ensures |ids| == |rows| && forall k :: 0 <= k < |rows| ==> ids[k] == rows[k].issuerId
  {
    seq(|rows|, k requires 0 <= k < |rows| => rows[k].issuerId)
  }

  function ScoresOf(rows: seq<ExplainedRow>): (scores: seq<real>)
    ensures |scores| == |rows| && forall k :: 0 <= k < |rows| ==> scores[k] == rows[k].predictedScore
  {
    seq(|rows|, k requires 0 <= k < |rows| => rows[k].predictedScore)
  }

  function IndicesOf(rows: seq<ExplainedRow>): (indices: seq<nat>)
    ensures |indices| == |rows| && forall k :: 0 <= k < |rows| ==> indices[k] == rows[k].index
  {
    seq(|rows|, k requires 0 <= k < |rows| => rows[k].index)
  }

  /** The order of the uploaded rows by issuer, then time. */
  method SortRows(df: Upload, now: Timestamp) returns (order: seq<nat>)
    requires WellFormed(df)
    ensures IsPermutation(order, |df.cells|)
    ensures forall a, b :: 0 <= a < b < |order| ==> KeyLe(RowKeys(df, now)[order[a]], RowKeys(df, now)[order[b]])
    ensures NonDecreasing(seq(|order|, k requires 0 <= k < |order| => RowIds(df)[order[k]]))
    ensures forall a, b :: 0 <= a < b < |order| && KeyLe(RowKeys(df, now)[order[b]], RowKeys(df, now)[order[a]])
              ==> order[a] < order[b]
  {
    var keys := RowKeys(df, now);
    KeyOrderIsTotalPreorder(keys);
    order := SortIndices(keys, KeyLe);
    var n := |order|;
    var sortedIds := seq(n, k requires 0 <= k < n => RowIds(df)[order[k]]);
    forall p, q | 0 <= p < q < n
      ensures sortedIds[p] <= sortedIds[q]
    {
      assert KeyLe(keys[order[p]], keys[order[q]]);
    }
  }

  /** Output row k explains uploaded row order[k], with the k-th trends. */
  method ComposeRows(df: Upload, names: seq<string>, x: seq<seq<real>>, predictions: seq<real>, contributions: seq<seq<real>>,
                     order: seq<nat>, shortTrend: seq<real>, longTrend: seq<real>)
    returns (rows: seq<ExplainedRow>)
    requires WellFormed(df) && Distinct(names)
    requires |x| == |df.cells| && forall i :: 0 <= i < |x| ==> x[i] == AlignedRow(df, names, i)
    requires |predictions| == |df.cells| && |contributions| == |df.cells|
    requires forall i :: 0 <= i < |contributions| ==> |contributions[i]| == |names|
    requires IsPermutation(order, |df.cells|) && |shortTrend| == |order| && |longTrend| == |order|
    ensures |rows| == |order|
    ensures forall k :: 0 <= k < |rows| ==>
      && rows[k].index == order[k]
      && rows[k].issuerId == RowIds(df)[order[k]]
      && rows[k].predictedScore == predictions[order[k]]
      && rows[k].shortTermTrend == shortTrend[k]
      && rows[k].longTermTrend == longTrend[k]
      && IsRationale(names, AlignedRow(df, names, order[k]), contributions[order[k]], shortTrend[k], longTrend[k], rows[k].explanation)
  {
    var ids := RowIds(df);
    rows := [];
    var k := 0;
    while k < |order|
      invariant 0 <= k <= |order|
      invariant |rows| == k
      invariant forall j :: 0 <= j < k ==>
        rows[j] == ExplainedRow(order[j], ids[order[j]], predictions[order[j]], shortTrend[j], longTrend[j], rows[j].explanation)
      invariant forall j :: 0 <= j < k ==>
        IsRationale(names, AlignedRow(df, names, order[j]), contributions[order[j]], shortTrend[j], longTrend[j], rows[j].explanation)
    {
      var i := order[k];
      var top, lines := ExplainRow(names, x[i], contributions[i], shortTrend[k], longTrend[k]);
      rows := rows + [ExplainedRow(i, ids[i], predictions[i], shortTrend[k], longTrend[k], lines)];
      k := k + 1;
    }
  }

  /** Without an `issuer_id` column, the ids read along any permutation of the rows are distinct. */
  lemma SortedDefaultIdsAreDistinct(df: Upload, order: seq<nat>, ids: seq<int>)
    requires WellFormed(df) && IssuerIdColumn !in df.columns && IsPermutation(order, |df.cells|)
    requires |ids| == |order| && forall k :: 0 <= k < |order| ==> ids[k] == RowIds(df)[order[k]]
    ensures Distinct(ids)
  {
    forall p, q | 0 <= p < q < |ids|
      ensures ids[p] != ids[q]
    {
      assert ids[p] == order[p] && ids[q] == order[q];
    }
  }

  /**
   * Explains every uploaded row. `predictions[i]` and `contributions[i]` are
   * the model's score and per-feature contributions for the aligned row i.
   * Fails only when the model has no fit-time feature names. Otherwise the
   * output explains each uploaded row exactly once, ordered by issuer and
   * then time, with rows of equal issuer and time in upload order; its trends
   * are the rolling means over the output's own rows of the same issuer; and
   * each rationale is composed from the aligned feature values and the
   * contributions of the row it explains.
   */
  method ExplainDataset(model: Model, df: Upload, now: Timestamp, predictions: seq<real>, contributions: seq<seq<real>>)
    returns (result: Result<seq<ExplainedRow>, Error>)
    requires WellFormed(df)
    requires |predictions| == |df.cells| && |contributions| == |df.cells|
    requires model.featureNames.Some? ==> Distinct(model.featureNames.value)
    requires model.featureNames.Some? ==>
      forall i :: 0 <= i < |contributions| ==> |contributions[i]| == |model.featureNames.value|
    ensures result.Failure? <==> model.featureNames.None?
    ensures result.Failure? ==> result.error == ModelIncompatible
    ensures result.Success? ==> |result.value| == |df.cells|
    ensures result.Success? ==> IsPermutation(IndicesOf(result.value), |df.cells|)
    ensures result.Success? ==> forall k :: 0 <= k < |result.value| ==>
      var row := result.value[k];
      row.index < |df.cells| && row.issuerId == RowIds(df)[row.index] && row.predictedScore == predictions[row.index]
    ensures result.Success? && IssuerIdColumn !in df.columns ==>
      forall k :: 0 <= k < |result.value| ==> result.value[k].issuerId == result.value[k].index
    ensures result.Success? && IssuerIdColumn !in df.columns ==>
      forall k :: 0 <= k < |result.value| ==>
        result.value[k].shortTermTrend == result.value[k].predictedScore &&
        result.value[k].longTermTrend == result.value[k].predictedScore
    ensures result.Success? ==> forall a, b :: 0 <= a < b < |result.value| ==>
      var i, j := result.value[a].index, result.value[b].index;
      i < |df.cells| && j < |df.cells| &&
      KeyLe(RowKeys(df, now)[i], RowKeys(df, now)[j]) &&
      (KeyLe(RowKeys(df, now)[j], RowKeys(df, now)[i]) ==> i < j)
    ensures result.Success? ==> forall k :: 0 <= k < |result.value| ==>
      var rows := result.value;
      && rows[k].shortTermTrend == Mean(Window(IssuerIdsOf(rows), ScoresOf(rows), k, ShortWindow))
      && rows[k].longTermTrend == Mean(Window(IssuerIdsOf(rows), ScoresOf(rows), k, LongWindow))
    ensures result.Success? ==> forall k :: 0 <= k < |result.value| ==>
      var row, names := result.value[k], model.featureNames.value;
      row.index < |df.cells| &&
      IsRationale(names, AlignedRow(df, names, row.index), contributions[row.index],
                  row.shortTermTrend, row.longTermTrend, row.explanation)
  {
    if model.featureNames.None? {
      return Failure(ModelIncompatible);
    }
    var names := model.featureNames.value;
    var x := AlignFeatures(df, names);
    var n := |df.cells|;
    var order := SortRows(df, now);
    var sortedIds := seq(n, k requires 0 <= k < n => RowIds(df)[order[k]]);
    var sortedScores := seq(n, k requires 0 <= k < n => predictions[order[k]]);
    var shortTrend := GroupedRollingMean(sortedIds, sortedScores, ShortWindow);
    var longTrend := GroupedRollingMean(sortedIds, sortedScores, LongWindow);
    var rows := ComposeRows(df, names, x, predictions, contributions, order, shortTrend, longTrend);
    if IssuerIdColumn !in df.columns {
      // every row is its own issuer, so each trend is the row's own score
      SortedDefaultIdsAreDistinct(df, order, sortedIds);
      DistinctIssuersTrendIsOwnScore(sortedIds, sortedScores, ShortWindow);
      DistinctIssuersTrendIsOwnScore(sortedIds, sortedScores, LongWindow);
    }
    assert IssuerIdsOf(rows) == sortedIds;
    assert ScoresOf(rows) == sortedScores;
    assert IndicesOf(rows) == order;
    return Success(rows);
  }

  /**
   * A sentiment column the upload lacks is zero-filled, so its sentence
   * never appears, even when the model was fit with that feature.
   */
  lemma MissingSentimentStaysSilent(df: Upload, names: seq<string>, i: nat, column: string)
    requires WellFormed(df) && i < |df.cells|
    requires column !in df.columns
    ensures !SentimentHigh(names, AlignedRow(df, names, i), column)
  {
  }
}
