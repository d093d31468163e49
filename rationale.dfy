/**
 * The per-row rationale: a header, one line for each of the (at most three)
 * features with the largest absolute contribution, in decreasing order of
 * magnitude, a sentence for each news-sentiment ratio that is high, and a
 * closing line with both trends. Lines are kept as structured records; the
 * decimal rendering of the numbers is not modelled.
 */
module Rationale {
  import opened Wrappers
  import opened Sorting

  const TopCount: nat := 3
  const PositiveColumn := "news_pos_ratio"
  const NegativeColumn := "news_neg_ratio"
  const SentimentThreshold: real := 0.5

  datatype Line =
    | Header                                                    // "Top contributing features:"
    | FeatureLine(name: string, value: real, contribution: real)
    | PositiveNews                                              // positive sentiment is boosting the score
    | NegativeNews                                              // negative sentiment is reducing the score
    | TrendLine(shortTerm: real, longTerm: real)

  function Abs(x: real): real {
    if x < 0.0 then -x else x
  }

  function MinNat(a: nat, b: nat): nat {
    if a <= b then a else b
  }

  /**
   * `top` names `m` distinct features, in non-increasing order of absolute
   * contribution, and no feature left out has a larger absolute contribution
   * than any feature named. Ties may be listed in any order.
   */
  predicate IsTopK(contribs: seq<real>, top: seq<nat>, m: nat) {
    && |top| == m
    && (forall a :: 0 <= a < |top| ==> top[a] < |contribs|)
    && Distinct(top)
    && (forall a, b :: 0 <= a < b < |top| ==> Abs(contribs[top[a]]) >= Abs(contribs[top[b]]))
    && (forall j, a :: 0 <= j < |contribs| && j !in top && 0 <= a < |top| ==> Abs(contribs[j]) <= Abs(contribs[top[a]]))
  }

  /** The position of `key` in `names`, if it is there. */
  function Find(names: seq<string>, key: string): (r: Option<nat>)
    ensures r.Some? ==> r.value < |names| && names[r.value] == key
    ensures r.None? <==> key !in names
  {
    if names == [] then None
    else if names[0] == key then Some(0)
    else match Find(names[1..], key)
      case None => None
      case Some(j) => Some(j + 1)
  }

  /** Among distinct names, each is found at its own position. */
  lemma FindDistinct(names: seq<string>, j: nat)
    requires Distinct(names) && j < |names|
    ensures Find(names, names[j]) == Some(j)
  {
    assert names[j] in names;
  }

  /** The row has the column `column` and its value is above the threshold. */
  predicate SentimentHigh(names: seq<string>, values: seq<real>, column: string)
    requires |values| == |names|
  {
    exists j :: 0 <= j < |names| && names[j] == column && values[j] > SentimentThreshold
  }

  /** The sentiment sentences of a row, positive before negative. */
  function SentimentLines(names: seq<string>, values: seq<real>): seq<Line>
    requires |values| == |names|
  {
    (if SentimentHigh(names, values, PositiveColumn) then [PositiveNews] else [])
    + (if SentimentHigh(names, values, NegativeColumn) then [NegativeNews] else [])
  }

  /** `lines` is the rationale of a row whose top features are `top`. */
  predicate RationaleLines(names: seq<string>, values: seq<real>, contribs: seq<real>,
                           shortTerm: real, longTerm: real, top: seq<nat>, lines: seq<Line>)
    requires |values| == |names| && |contribs| == |names|
    requires forall a :: 0 <= a < |top| ==> top[a] < |names|
  {
    var sentiment := SentimentLines(names, values);
    && |lines| == |top| + |sentiment| + 2
    && lines[0] == Header
    && (forall k :: 0 <= k < |top| ==> lines[1 + k] == FeatureLine(names[top[k]], values[top[k]], contribs[top[k]]))
    && lines[1 + |top|..|lines| - 1] == sentiment
    && lines[|lines| - 1] == TrendLine(shortTerm, longTerm)
  }

  /** `lines` is a rationale of the row for some admissible choice of its top features. */
  ghost predicate IsRationale(names: seq<string>, values: seq<real>, contribs: seq<real>,
                              shortTerm: real, longTerm: real, lines: seq<Line>)
    requires |values| == |names| && |contribs| == |names|
  {
    exists top :: IsTopK(contribs, top, MinNat(TopCount, |names|))
      && RationaleLines(names, values, contribs, shortTerm, longTerm, top, lines)
  }

  /** Ranks the contributions by magnitude, largest first, and keeps the first three. */
  method TopContributors(contribs: seq<real>) returns (top: seq<nat>)
    ensures IsTopK(contribs, top, MinNat(TopCount, |contribs|))
  {
    var magnitudes := seq(|contribs|, j requires 0 <= j < |contribs| => Abs(contribs[j]));
    var descending := (x: real, y: real) => x >= y;
    var order := SortIndices(magnitudes, descending);
    var m := MinNat(TopCount, |contribs|);
    forall a, b | 0 <= a < b < |order|
      ensures Abs(contribs[order[a]]) >= Abs(contribs[order[b]])
    {
      assert descending(magnitudes[order[a]], magnitudes[order[b]]);
    }
    HeadOfRanking(contribs, order, m);
    top := order[..m];
  }

  /** The first `m` positions of a ranking by decreasing magnitude are a top-`m` choice. */
  lemma HeadOfRanking(contribs: seq<real>, order: seq<nat>, m: nat)
    requires IsPermutation(order, |contribs|) && m <= |contribs|
    requires forall a, b :: 0 <= a < b < |order| ==> Abs(contribs[order[a]]) >= Abs(contribs[order[b]])
    ensures IsTopK(contribs, order[..m], m)
  {
    var top := order[..m];
    forall j, a | 0 <= j < |contribs| && j !in top && 0 <= a < |top|
      ensures Abs(contribs[j]) <= Abs(contribs[top[a]])
    {
      assert j in order;
      var q :| 0 <= q < |order| && order[q] == j;
      assert a < q;
    }
  }

  /**
   * Composes one row's rationale: header, top features, the sentiment
   * sentences whose ratio is present and above 0.5, then the trend line.
   */
  method ExplainRow(names: seq<string>, values: seq<real>, contribs: seq<real>, shortTerm: real, longTerm: real)
    returns (top: seq<nat>, lines: seq<Line>)
    requires |values| == |names| && |contribs| == |names|
    requires Distinct(names)
    ensures IsTopK(contribs, top, MinNat(TopCount, |names|))
    ensures RationaleLines(names, values, contribs, shortTerm, longTerm, top, lines)
    ensures IsRationale(names, values, contribs, shortTerm, longTerm, lines)
  {
    top := TopContributors(contribs);
    lines := [Header];
    var k := 0;
    while k < |top|
      invariant 0 <= k <= |top|
      invariant |lines| == 1 + k
      invariant lines[0] == Header
      invariant forall i :: 0 <= i < k ==> lines[1 + i] == FeatureLine(names[top[i]], values[top[i]], contribs[top[i]])
    {
      var f := top[k];
      lines := lines + [FeatureLine(names[f], values[f], contribs[f])];
      k := k + 1;
    }
    var features := lines;
    var pos := Find(names, PositiveColumn);
    FoundSentiment(names, values, PositiveColumn);
    if pos.Some? && values[pos.value] > SentimentThreshold {
      lines := lines + [PositiveNews];
    }
    var neg := Find(names, NegativeColumn);
    FoundSentiment(names, values, NegativeColumn);
    if neg.Some? && values[neg.value] > SentimentThreshold {
      lines := lines + [NegativeNews];
    }
    assert lines == features + SentimentLines(names, values);
    lines := lines + [TrendLine(shortTerm, longTerm)];
    ComposedRationale(names, values, contribs, shortTerm, longTerm, top, features, lines);
  }

  /** Among distinct names, looking the column up and testing its value decides whether its sentiment is high. */
  lemma FoundSentiment(names: seq<string>, values: seq<real>, column: string)
    requires |values| == |names| && Distinct(names)
    ensures (Find(names, column).Some? && values[Find(names, column).value] > SentimentThreshold)
            <==> SentimentHigh(names, values, column)
  {
    if SentimentHigh(names, values, column) {
      var j :| 0 <= j < |names| && names[j] == column && values[j] > SentimentThreshold;
      FindDistinct(names, j);
    }
  }

  /** Header and feature lines, then the sentiment sentences and the trend line, make up the rationale. */
  lemma ComposedRationale(names: seq<string>, values: seq<real>, contribs: seq<real>,
                          shortTerm: real, longTerm: real, top: seq<nat>, features: seq<Line>, lines: seq<Line>)
    requires |values| == |names| && |contribs| == |names|
    requires IsTopK(contribs, top, MinNat(TopCount, |names|))
    requires |features| == 1 + |top| && features[0] == Header
    requires forall i :: 0 <= i < |top| ==> features[1 + i] == FeatureLine(names[top[i]], values[top[i]], contribs[top[i]])
    requires lines == features + SentimentLines(names, values) + [TrendLine(shortTerm, longTerm)]
    ensures RationaleLines(names, values, contribs, shortTerm, longTerm, top, lines)
    ensures IsRationale(names, values, contribs, shortTerm, longTerm, lines)
  {
    assert lines[1 + |top|..|lines| - 1] == SentimentLines(names, values);
  }

  /**
   * A sentiment sentence appears exactly when its ratio column is among the
   * row's columns with a value above 0.5; the trend line always comes last.
   */
  lemma SentimentSentences(names: seq<string>, values: seq<real>, contribs: seq<real>,
                           shortTerm: real, longTerm: real, top: seq<nat>, lines: seq<Line>)
    requires |values| == |names| && |contribs| == |names|
    requires forall a :: 0 <= a < |top| ==> top[a] < |names|
    requires RationaleLines(names, values, contribs, shortTerm, longTerm, top, lines)
    ensures PositiveNews in lines <==> SentimentHigh(names, values, PositiveColumn)
    ensures NegativeNews in lines <==> SentimentHigh(names, values, NegativeColumn)
    ensures lines[|lines| - 1] == TrendLine(shortTerm, longTerm)
  {
    var sentiment := SentimentLines(names, values);
    var body := lines[1 + |top|..|lines| - 1];
    assert lines == lines[..1 + |top|] + body + [lines[|lines| - 1]];
    forall i | 0 <= i < 1 + |top|
      ensures lines[i].Header? || lines[i].FeatureLine?
    {
      if i > 0 {
        assert lines[1 + (i - 1)] == FeatureLine(names[top[i - 1]], values[top[i - 1]], contribs[top[i - 1]]);
      }
    }
    assert PositiveNews !in lines[..1 + |top|];
    assert NegativeNews !in lines[..1 + |top|];
  }
}
