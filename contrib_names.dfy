/**
 * How the engine names contribution columns and recovers a feature's name
 * from one. Each feature f gets a contribution column "f_contrib". When the
 * rationale is composed, the contribution columns are found again by their
 * suffix and the feature name by deleting "_contrib" from the column name.
 * Both steps go wrong for a feature whose own name contains "_contrib"; the
 * definitions marked "as written" model that, the corrected ones strip only
 * the suffix and take one column per feature, as the rest of the model does.
 */
module ContribNames {
  import opened Wrappers
  import opened Sorting
  import Rationale

  const ContribSuffix := "_contrib"

  /** The other columns the table holds when rationales are composed. */
  const OutputColumns := ["predicted_score", "issuer_id", "last_updated", "short_term_trend", "long_term_trend"]

  /** The contribution column of feature `name`. */
  function ContribColumn(name: string): string {
    name + ContribSuffix
  }

  predicate EndsWith(s: string, suffix: string) {
    |suffix| <= |s| && s[|s| - |suffix|..] == suffix
  }

  /** Every column of the table the rationale reads: features, their contributions, then the output columns. */
  function ExplainColumns(names: seq<string>): seq<string> {
    names + seq(|names|, j requires 0 <= j < |names| => ContribColumn(names[j])) + OutputColumns
  }

  /** Deletes every occurrence of `pat` from `s`, scanning left to right, as Python's `s.replace(pat, "")`. */
  function RemoveAll(s: string, pat: string): (r: string)
    requires pat != []
    ensures |r| <= |s|
    decreases |s|
  {
    if |s| < |pat| then s
    else if s[..|pat|] == pat then RemoveAll(s[|pat|..], pat)
    else [s[0]] + RemoveAll(s[1..], pat)
  }

  /** As written: the columns taken as contributions are all columns whose name ends in "_contrib". */
  function ContribColumnsAsWritten(columns: seq<string>): (r: seq<string>)
    ensures forall c :: c in r <==> c in columns && EndsWith(c, ContribSuffix)
  {
    if columns == [] then []
    else (if EndsWith(columns[0], ContribSuffix) then [columns[0]] else []) + ContribColumnsAsWritten(columns[1..])
  }

  /** As written: a feature's name is recovered by deleting every "_contrib" from its column name. */
  function FeatureNameAsWritten(column: string): string {
    RemoveAll(column, ContribSuffix)
  }

  /**
   * As written: the value shown on a feature line, looked up under the
   * recovered name. None stands for the "NA" placeholder, which the
   * numeric format of the line then rejects with an error.
   */
  function ShownValueAsWritten(names: seq<string>, values: seq<real>, column: string): Option<real>
    requires |values| == |names|
  {
    match Rationale.Find(names, FeatureNameAsWritten(column))
    case Some(j) => Some(values[j])
    case None => None
  }

  lemma RemovesTrailingSuffix()
    ensures RemoveAll("_b_contrib", ContribSuffix) == "_b"
  {
    assert RemoveAll("b_contrib", ContribSuffix) == "b";
  }

  lemma RecoveredNameOfInnerContrib()
    ensures FeatureNameAsWritten(ContribColumn("a_contrib_b")) == "a_b"
  {
    var column := ContribColumn("a_contrib_b");
    assert column == "a_contrib_b_contrib";
    assert column[..|ContribSuffix|] != ContribSuffix by { assert column[0] != ContribSuffix[0]; }
    assert column[1..] == "_contrib_b_contrib";
    InnerSuffixRemoved();
  }

  lemma InnerSuffixRemoved()
    ensures RemoveAll("_contrib_b_contrib", ContribSuffix) == "_b"
  {
    var rest := "_contrib_b_contrib";
    assert rest[..|ContribSuffix|] == ContribSuffix;
    assert rest[|ContribSuffix|..] == "_b_contrib";
    RemovesTrailingSuffix();
  }

  /**
   * A model feature named "a_contrib_b": its contribution column is
   * "a_contrib_b_contrib", the recovered name is "a_b", which is not a
   * column, so the line gets "NA" and cannot be rendered.
   */
  lemma AsWrittenLosesFeatureName()
    ensures FeatureNameAsWritten(ContribColumn("a_contrib_b")) == "a_b"
    ensures ShownValueAsWritten(["a_contrib_b"], [0.7], ContribColumn("a_contrib_b")).None?
  {
    RecoveredNameOfInnerContrib();
    assert "a_b" !in ["a_contrib_b"];
  }

  lemma OutputColumnsAreNotContribs()
    ensures ContribColumnsAsWritten(OutputColumns) == []
  {
    assert forall c :: c in OutputColumns ==> !EndsWith(c, ContribSuffix);
  }

  lemma {:induction false} ContribColumnsAsWrittenAppend(a: seq<string>, b: seq<string>)
    ensures ContribColumnsAsWritten(a + b) == ContribColumnsAsWritten(a) + ContribColumnsAsWritten(b)
  {
    if a != [] {
      assert (a + b)[1..] == a[1..] + b;
      ContribColumnsAsWrittenAppend(a[1..], b);
    } else {
      assert a + b == b;
    }
  }

  lemma ExplainColumnsOfOneFeature()
    ensures ExplainColumns(["t_contrib"]) == ["t_contrib", "t_contrib_contrib"] + OutputColumns
  {
    var contribs := seq(1, j requires 0 <= j < 1 => ContribColumn(["t_contrib"][j]));
    assert ContribColumn("t_contrib") == "t_contrib_contrib";
    assert |contribs| == 1 && contribs[0] == "t_contrib_contrib";
    assert contribs == ["t_contrib_contrib"];
  }

  lemma FeatureAndContribBothEndInSuffix()
    ensures ContribColumnsAsWritten(["t_contrib", "t_contrib_contrib"]) == ["t_contrib", "t_contrib_contrib"]
  {
    assert EndsWith("t_contrib", ContribSuffix);
    assert EndsWith("t_contrib_contrib", ContribSuffix);
    assert ["t_contrib", "t_contrib_contrib"][1..] == ["t_contrib_contrib"];
  }

  /**
   * A model feature named "t_contrib": both the feature column itself and
   * its contribution column end in "_contrib", so the feature's value is
   * ranked as if it were a contribution.
   */
  lemma AsWrittenScansFeatureColumn()
    ensures ContribColumnsAsWritten(ExplainColumns(["t_contrib"])) == ["t_contrib", "t_contrib_contrib"]
  {
    ExplainColumnsOfOneFeature();
    ContribColumnsAsWrittenAppend(["t_contrib", "t_contrib_contrib"], OutputColumns);
    FeatureAndContribBothEndInSuffix();
    OutputColumnsAreNotContribs();
  }

  /** A scan over columns none of which ends in the suffix takes none of them. */
  lemma {:induction false} ScanSkipsPlainNames(columns: seq<string>)
    requires forall j :: 0 <= j < |columns| ==> !EndsWith(columns[j], ContribSuffix)
    ensures ContribColumnsAsWritten(columns) == []
  {
    if columns != [] {
      ScanSkipsPlainNames(columns[1..]);
    }
  }

  /** A scan over columns that all end in the suffix takes every one of them, in order. */
  lemma {:induction false} ScanKeepsSuffixed(columns: seq<string>)
    requires forall j :: 0 <= j < |columns| ==> EndsWith(columns[j], ContribSuffix)
    ensures ContribColumnsAsWritten(columns) == columns
  {
    if columns != [] {
      ScanKeepsSuffixed(columns[1..]);
      assert columns == [columns[0]] + columns[1..];
    }
  }

  /**
   * When no feature name itself ends in "_contrib", the suffix scan finds
   * exactly one contribution column per feature, in feature order: the
   * corrected columns, which the ranking reads by feature position.
   */
  lemma AsWrittenScanAgrees(names: seq<string>)
    requires forall j :: 0 <= j < |names| ==> !EndsWith(names[j], ContribSuffix)
    ensures ContribColumnsAsWritten(ExplainColumns(names)) == ContribColumns(names)
  {
    var contribs := ContribColumns(names);
    assert ExplainColumns(names) == names + contribs + OutputColumns;
    ContribColumnsAsWrittenAppend(names + contribs, OutputColumns);
    ContribColumnsAsWrittenAppend(names, contribs);
    ScanSkipsPlainNames(names);
    ScanKeepsSuffixed(contribs);
    OutputColumnsAreNotContribs();
  }

  /** "_contrib" occurs in `s` starting at position i. */
  predicate OccursAt(s: string, i: nat)
    requires i + |ContribSuffix| <= |s|
  {
    s[i..i + |ContribSuffix|] == ContribSuffix
  }

  /** The contribution column of `name` holds "_contrib" only as its suffix. */
  predicate SuffixOnlyOnce(name: string) {
    forall i :: 0 <= i < |name| ==> !OccursAt(ContribColumn(name), i)
  }

  /** Where the suffix is the only "_contrib" in the column, deleting every occurrence just strips it. */
  lemma {:induction false} AsWrittenNameAgrees(name: string)
    requires SuffixOnlyOnce(name)
    ensures FeatureNameAsWritten(ContribColumn(name)) == name
    decreases |name|
  {
    var column := ContribColumn(name);
    if name == [] {
      assert column == ContribSuffix;
      assert column[|ContribSuffix|..] == [];
    } else {
      assert !OccursAt(column, 0);
      assert column[1..] == ContribColumn(name[1..]);
      forall i | 0 <= i < |name[1..]|
        ensures !OccursAt(ContribColumn(name[1..]), i)
      {
        assert !OccursAt(column, i + 1);
        assert ContribColumn(name[1..])[i..i + |ContribSuffix|] == column[i + 1..i + 1 + |ContribSuffix|];
      }
      AsWrittenNameAgrees(name[1..]);
    }
  }

  /**
   * For distinct feature names whose contribution columns hold "_contrib"
   * only as their suffix, the line as written shows each feature's own value,
   * as the corrected rationale does.
   */
  lemma AsWrittenValueAgrees(names: seq<string>, values: seq<real>, j: nat)
    requires |values| == |names| && Distinct(names) && j < |names|
    requires SuffixOnlyOnce(names[j])
    ensures ShownValueAsWritten(names, values, ContribColumn(names[j])) == Some(values[j])
  {
    AsWrittenNameAgrees(names[j]);
    Rationale.FindDistinct(names, j);
  }

  /** Corrected: the contribution columns are exactly one per model feature, in feature order. */
  function ContribColumns(names: seq<string>): (r: seq<string>)
    ensures |r| == |names|
    ensures forall j :: 0 <= j < |names| ==> EndsWith(r[j], ContribSuffix) && FeatureNameOf(r[j]) == names[j]
  {
    seq(|names|, j requires 0 <= j < |names| => ContribColumn(names[j]))
  }

  /** Corrected: a feature's name is its contribution column without the suffix. */
  function FeatureNameOf(column: string): string
    requires EndsWith(column, ContribSuffix)
  {
    column[..|column| - |ContribSuffix|]
  }

  /** Corrected: recovering the name from a feature's contribution column gives the feature back. */
  lemma ContribColumnRoundTrip(name: string)
    ensures EndsWith(ContribColumn(name), ContribSuffix)
    ensures FeatureNameOf(ContribColumn(name)) == name
  {
    var column := ContribColumn(name);
    assert column[..|name|] == name;
    assert column[|name|..] == ContribSuffix;
  }

  /**
   * With the corrected recovery every feature line finds its own feature,
   * whatever the name, so the shown value is that feature's value.
   */
  lemma CorrectedNameFindsFeature(names: seq<string>, j: nat)
    requires Distinct(names) && j < |names|
    ensures EndsWith(ContribColumn(names[j]), ContribSuffix)
    ensures Rationale.Find(names, FeatureNameOf(ContribColumn(names[j]))) == Some(j)
  {
    ContribColumnRoundTrip(names[j]);
    Rationale.FindDistinct(names, j);
  }
}
