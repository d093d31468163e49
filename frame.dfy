/**
 * The uploaded table of issuer rows, the column names the engine reserves,
 * and how each row gets its issuer id, its timestamp and its sort key.
 */
module Frame {
  import opened Sorting

  /** A point in time, as the ordered count of ticks pandas stores for a parsed timestamp. */
  type Timestamp = int

  const IssuerIdColumn := "issuer_id"
  const LastUpdatedColumn := "last_updated"
  const TargetColumn := "creditworthiness_score"

  /** Columns that are never read as model features. */
  predicate IsReserved(c: string) {
    c == IssuerIdColumn || c == LastUpdatedColumn || c == TargetColumn
  }

  /**
   * An uploaded table of `|cells|` rows. `columns` is the header in upload
   * order; `cells[i]` holds row i's numeric values by column name. The issuer
   * and timestamp columns are kept apart, already parsed: `issuerIds[i]` and
   * `stamps[i]` are read only when that column is in `columns`.
   */
  datatype Upload = Upload(
    columns: seq<string>,
    cells: seq<map<string, real>>,
    issuerIds: seq<int>,
    stamps: seq<Timestamp>)

  /** Every row is as long as the table and holds a value for every non-reserved column. */
  predicate WellFormed(df: Upload) {
    && |df.issuerIds| == |df.cells|
    && |df.stamps| == |df.cells|
    && forall i, c :: 0 <= i < |df.cells| && c in df.columns && !IsReserved(c) ==> c in df.cells[i]
  }

  /** The issuer of each row: the uploaded id, or the row's position when the upload has no id column. */
  function RowIds(df: Upload): (ids: seq<int>)
    requires WellFormed(df)
    ensures |ids| == |df.cells|
    ensures IssuerIdColumn in df.columns ==> ids == df.issuerIds
    ensures IssuerIdColumn !in df.columns ==> forall i :: 0 <= i < |ids| ==> ids[i] == i
  {
    if IssuerIdColumn in df.columns then df.issuerIds
    else seq(|df.cells|, i requires 0 <= i < |df.cells| => i)
  }

  /** The timestamp of each row: the uploaded one, or the same `now` for every row when the column is absent. */
  function RowStamps(df: Upload, now: Timestamp): (stamps: seq<Timestamp>)
    requires WellFormed(df)
    ensures |stamps| == |df.cells|
    ensures LastUpdatedColumn in df.columns ==> stamps == df.stamps
    ensures LastUpdatedColumn !in df.columns ==> forall i :: 0 <= i < |stamps| ==> stamps[i] == now
  {
    if LastUpdatedColumn in df.columns then df.stamps
    else seq(|df.cells|, i requires 0 <= i < |df.cells| => now)
  }

  /** The key rows are sorted by: issuer first, then time. */
  datatype Key = Key(issuer: int, stamp: Timestamp)

  predicate KeyLe(a: Key, b: Key) {
    a.issuer < b.issuer || (a.issuer == b.issuer && a.stamp <= b.stamp)
  }

  function RowKeys(df: Upload, now: Timestamp): (keys: seq<Key>)
    requires WellFormed(df)
    ensures |keys| == |df.cells|
    ensures forall i :: 0 <= i < |keys| ==> keys[i] == Key(RowIds(df)[i], RowStamps(df, now)[i])
  {
    var ids, stamps := RowIds(df), RowStamps(df, now);
    seq(|df.cells|, i requires 0 <= i < |df.cells| => Key(ids[i], stamps[i]))
  }

  /** Without an `issuer_id` column the default ids are the positions, so no two rows share an issuer. */
  lemma DefaultIdsAreDistinct(df: Upload)
    requires WellFormed(df) && IssuerIdColumn !in df.columns
    ensures Distinct(RowIds(df))
  {
    var ids := RowIds(df);
    forall a, b | 0 <= a < b < |ids|
      ensures ids[a] != ids[b]
    {
      assert ids[a] == a && ids[b] == b;
    }
  }

  /**
   * Without a `last_updated` column every row gets the same time, so one
   * row's key comes before another's exactly when its issuer does not exceed
   * the other's: the sort is by issuer alone.
   */
  lemma DefaultStampsOrderByIssuer(df: Upload, now: Timestamp, i: nat, j: nat)
    requires WellFormed(df) && LastUpdatedColumn !in df.columns
    requires i < |df.cells| && j < |df.cells|
    ensures KeyLe(RowKeys(df, now)[i], RowKeys(df, now)[j]) <==> RowIds(df)[i] <= RowIds(df)[j]
  {
    var stamps := RowStamps(df, now);
    assert stamps[i] == now && stamps[j] == now;
  }

  /** The lexicographic order on keys is total and transitive. */
  lemma KeyOrderIsTotalPreorder(keys: seq<Key>)
    ensures TotalPreorderOn(keys, KeyLe)
  {
  }
}
