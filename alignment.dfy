/**
 * Building the feature matrix the model is fed with: the uploaded columns
 * that are not reserved, completed with zero columns for every fit-time
 * feature the upload lacks, then narrowed and reordered to exactly the
 * model's fit-time feature list.
 */
module Alignment {
  import opened Frame

  /** The uploaded columns that may be features, in upload order. */
  function FeatureColumns(columns: seq<string>): (r: seq<string>)
    ensures forall c :: c in r <==> c in columns && !IsReserved(c)
    ensures |r| <= |columns|
  {
    if columns == [] then []
    else if IsReserved(columns[0]) then FeatureColumns(columns[1..])
    else [columns[0]] + FeatureColumns(columns[1..])
  }

  /** What row i of the feature matrix holds for the model feature `name`. */
  function AlignedValue(df: Upload, name: string, i: nat): real
    requires WellFormed(df) && i < |df.cells|
  {
    if name in FeatureColumns(df.columns) then df.cells[i][name] else 0.0
  }

  /** Row i of the feature matrix, one value per model feature. */
  function AlignedRow(df: Upload, names: seq<string>, i: nat): (row: seq<real>)
    requires WellFormed(df) && i < |df.cells|
    ensures |row| == |names|
    ensures forall j :: 0 <= j < |names| ==> row[j] == AlignedValue(df, names[j], i)
  {
    seq(|names|, j requires 0 <= j < |names| => AlignedValue(df, names[j], i))
  }

  /**
   * Copies the feature columns, appends a zero column for each fit-time
   * feature missing from them, then keeps the fit-time features in their
   * order. The matrix has one row per uploaded row and one column per
   * model feature; an uploaded feature is copied, anything else, reserved
   * names included, is zero in every row.
   */
  method AlignFeatures(df: Upload, names: seq<string>) returns (x: seq<seq<real>>)
    requires WellFormed(df)
    ensures |x| == |df.cells|
    ensures forall i :: 0 <= i < |x| ==> |x[i]| == |names|
    ensures forall i, j :: 0 <= i < |x| && 0 <= j < |names| && names[j] in df.columns && !IsReserved(names[j])
              ==> x[i][j] == df.cells[i][names[j]]
    ensures forall i, j :: 0 <= i < |x| && 0 <= j < |names| && (names[j] !in df.columns || IsReserved(names[j]))
              ==> x[i][j] == 0.0
    ensures forall i :: 0 <= i < |x| ==> x[i] == AlignedRow(df, names, i)
  {
    var n := |df.cells|;
    var featureCols := FeatureColumns(df.columns);
    // the working copy of the upload restricted to its feature columns
    var frame := seq(n, i requires 0 <= i < n => map c | c in featureCols :: df.cells[i][c]);
    var present := featureCols;
    var t := 0;
    while t < |names|
      invariant 0 <= t <= |names|
      invariant |frame| == n
      invariant forall c :: c in featureCols ==> c in present
      invariant forall k :: 0 <= k < t ==> names[k] in present
      invariant forall i, c :: 0 <= i < n && c in present ==> c in frame[i]
      invariant forall i, c :: 0 <= i < n && c in featureCols ==> frame[i][c] == df.cells[i][c]
      invariant forall i, c :: 0 <= i < n && c in frame[i] && c !in featureCols ==> frame[i][c] == 0.0
    {
      var col := names[t];
      if col !in present {
        present := present + [col];
        frame := seq(n, i requires 0 <= i < n => frame[i][col := 0.0]);
      }
      t := t + 1;
    }
    x := seq(n, i requires 0 <= i < n => seq(|names|, j requires 0 <= j < |names| => frame[i][names[j]]));
  }
}
