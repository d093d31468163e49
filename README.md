# Credify explanation engine — a Dafny model

Credify scores the creditworthiness of issuers with a fitted decision-tree
regressor. Its Streamlit page takes an uploaded table of issuer rows and
passes it to `explain_dataset`. That function:

- aligns the upload to the model's fit-time features;
- obtains each row's predicted score and per-feature contributions;
- gives each row its issuer id and timestamp, and sorts the rows by issuer and then time;
- computes a short-term trend (3 rows) and a long-term trend (10 rows) of the score within each issuer;
- writes a rationale per row: a header, the three features with the largest absolute contribution, the news-sentiment sentences that apply, and the two trends.

This project models that function and proves what it guarantees.

Modules:

- `Sorting`: a generic insertion sort of row positions by a total preorder. It serves both sorts the engine performs.
- `Frame`: the uploaded table, the reserved column names, how a row gets its issuer id and timestamp, and the sort key.
- `Alignment`: building the feature matrix.
- `Trends`: windows within issuer groups defined by groupby semantics, and the running-sum loop that computes the rolling means over issuer-sorted rows.
- `Rationale`: choosing the top features and composing the lines of one row.
- `ContribNames`: the naming of contribution columns, with the fault described under Findings.
- `Explainer`: the whole function.

Predictions and contributions are inputs, indexed by uploaded row. A row's rationale is a list of structured lines, not text.

## Model

| member | source | states |
|---|---|---|
| Alignment.FeatureColumns | streamlit_app/app.py:80 | a column is a candidate feature iff it is uploaded and is not `issuer_id`, `last_updated` or `creditworthiness_score` |
| Alignment.AlignFeatures | streamlit_app/app.py:84-88 | one row per uploaded row and exactly one column per fit-time feature, in fit-time order; an uploaded non-reserved feature is copied, a missing (or reserved) one is 0 in every row, other uploaded columns are dropped |
| Frame.DefaultIdsAreDistinct | streamlit_app/app.py:99-102 | without an `issuer_id` column the default ids are the row positions, so no two rows share an issuer |
| Frame.DefaultStampsOrderByIssuer | streamlit_app/app.py:103-109 | without a `last_updated` column every row gets the same "now", so one key precedes another iff its issuer id is not larger: the sort is by issuer alone |
| Sorting.SortIndices | streamlit_app/app.py:109 | the result is a permutation of the row positions, the keys read in its order never decrease under the given total preorder, and positions whose keys tie keep their original order (stable) |
| Explainer.SortRows | streamlit_app/app.py:109 | rows are a permutation ordered by (issuer_id, last_updated), so the issuer ids in output order are non-decreasing; rows with equal (issuer_id, last_updated) keep upload order, as pandas' multi-column sort does |
| Trends.GroupedRollingMean | streamlit_app/app.py:110-111 | for rows sorted by issuer, the running-sum loop yields at every row exactly the mean of that row's window: its issuer's last `w` scores up to and including it |
| Trends.Window | streamlit_app/app.py:110-111 | a window is never empty (`min_periods=1`), holds at most `w` scores and ends with the row's own score |
| Trends.WindowIsGroupPositions | streamlit_app/app.py:110-111 | the row at position i of its issuer's group averages exactly group positions max(0, i-w+1)..i |
| Trends.FirstRowTrendIsOwnScore | streamlit_app/app.py:110-111 | at an issuer's first row the window is that row's score alone, so both trends equal the row's own score |
| Trends.WindowIgnoresLaterRows | streamlit_app/app.py:110-111 | changing rows after row k does not change row k's window, so trends never look ahead |
| Trends.MeanWithinRange | streamlit_app/app.py:110-111 | every trend lies between the smallest and the largest score of its window |
| Trends.TwelveRowExample | streamlit_app/app.py:110-111 | one issuer scored 1..12: the twelfth row has long-term trend 7.5 (scores 3..12) and short-term trend 11 (scores 10..12) |
| Trends.DistinctIssuersTrendIsOwnScore | streamlit_app/app.py:110-111 | when no issuer id repeats, every row is alone in its group, so both trends equal the row's own score |
| Trends.GroupPrefixOfRun | streamlit_app/app.py:110-111 | when an issuer's rows so far are one contiguous run, its group so far is exactly their scores |
| Rationale.Find | streamlit_app/app.py:120-125 | a found position holds the looked-up name, and nothing is found iff the name is not among the row's columns |
| Rationale.TopContributors | streamlit_app/app.py:116 | picks min(3, number of features) distinct features, in non-increasing absolute contribution, with no feature left out larger than any picked; tie order is left open |
| Rationale.HeadOfRanking | streamlit_app/app.py:116 | the first m entries of a ranking by decreasing magnitude are a top-m choice |
| Rationale.ExplainRow | streamlit_app/app.py:114-127 | lines are the header, one line per top feature carrying its name, the row's value of that feature and its contribution, then the sentiment sentences, then the trend line |
| Rationale.FoundSentiment | streamlit_app/app.py:122-125 | looking the sentiment column up and testing its value against 0.5 decides exactly whether that column is present with a value above 0.5 |
| Rationale.SentimentSentences | streamlit_app/app.py:122-126 | the positive (negative) sentence is present iff `news_pos_ratio` (`news_neg_ratio`) is a column of the row with a value strictly above 0.5, and the trend line is always last |
| Explainer.ComposeRows | streamlit_app/app.py:129 | output row k explains uploaded row order[k], with that row's id, score, the k-th trends and a rationale of its aligned values and contributions |
| Explainer.ExplainDataset | streamlit_app/app.py:79-131 | fails iff the model recorded no feature names; otherwise one output row per uploaded row, each uploaded row exactly once, ids defaulting to positions (and then both trends equal the row's own score), rows ordered by (issuer_id, last_updated) with ties in upload order, trends equal to the grouped rolling means over the output's own rows, and each rationale composed from that row's aligned features and contributions |
| Explainer.MissingSentimentStaysSilent | streamlit_app/app.py:86-88 | a sentiment column the upload lacks is zero-filled, so its sentence never appears |
| ContribNames.AsWrittenLosesFeatureName | streamlit_app/app.py:119-121 | as written, the contribution column of feature "a_contrib_b" maps back to "a_b", which is not a column, so the shown value is "NA" |
| ContribNames.AsWrittenScansFeatureColumn | streamlit_app/app.py:115 | as written, for a feature "t_contrib" the suffix scan takes both the feature column and its contribution column as contributions |
| ContribNames.ContribColumns | streamlit_app/app.py:93 | corrected: one contribution column per feature, in feature order, each mapping back to its feature |
| ContribNames.AsWrittenScanAgrees | streamlit_app/app.py:115 | when no feature name ends in "_contrib", the suffix scan as written finds exactly the corrected columns, one per feature in feature order, which is what the ranking reads by position |
| ContribNames.AsWrittenNameAgrees | streamlit_app/app.py:119 | when "_contrib" occurs in a contribution column only as its suffix, deleting every occurrence recovers the feature name |
| ContribNames.AsWrittenValueAgrees | streamlit_app/app.py:119-121 | for such a feature, among distinct names, the line as written shows the feature's own value, as `Rationale.ExplainRow` does |
| ContribNames.ContribColumnRoundTrip | streamlit_app/app.py:119 | stripping the suffix from a feature's contribution column gives the feature name back |
| ContribNames.CorrectedNameFindsFeature | streamlit_app/app.py:119-120 | corrected: every feature line finds its own feature, whatever the name |

## Left out

- The Streamlit page, CSS, file uploader, buttons, table display and CSV download (streamlit_app/app.py:18-59, 136-161) are user-interface plumbing.
- `save_model` and `load_model` (streamlit_app/app.py:64-74) are file I/O and unpickling.
- The tree interpreter call (streamlit_app/app.py:91) is a foreign library. Predictions and contributions are parameters. That bias plus contributions equals the prediction is the library's promise, and is not stated.
- Timestamp parsing and the clock (streamlit_app/app.py:104-106): timestamps are integers on an ordered scale. "Now" is a parameter.
- The `:.3f` and `:.2f` renderings (streamlit_app/app.py:121, 126): lines are records of name, value and contribution.
- The unused imports (streamlit_app/app.py:8-11, 13) have no behaviour to model.
- Floating point: scores, values and means are exact reals, so rounding in the rolling means is not modelled. NaN and missing cells are not modelled either. A well-formed upload has a value for every non-reserved column in every row.
- Issuer ids are integers. String ids, which pandas would sort lexicographically, are not modelled. The `issuer_id` column is copied by position, which matches pandas' index alignment for a freshly read CSV with its default index.
- Explainer.ExplainDataset requires distinct fit-time feature names. With duplicate names, pandas' column lookups return several columns at once and the row explanation is not well defined.
- Explainer.ExplainDataset does not model a fit-time feature named like an output column (`issuer_id`, `predicted_score`, `last_updated`, `short_term_trend`, `long_term_trend`). There, the later assignment overwrites the value the rationale shows.
- Rationale.TopContributors claims no order among features with equal absolute contributions: the one-column sort at streamlit_app/app.py:116 uses pandas' default sort, which promises no tie order.
- Rationale.ExplainRow follows the corrected naming of the Findings below. The source differs only for a feature whose name contains "_contrib", and only in rows where a misnamed column is among the top three. If the name left after deleting every "_contrib" is not a column (feature "a_contrib_b" alone), the source shows "NA" and raises an error when formatting it. If it is a column (features "a_contrib_b" and "a_b"), the source silently shows the other feature's name and value. A feature "t_contrib" also has its value column ranked as a contribution under the name "t"; unless "t" is a column, that line again shows "NA" and raises. The model gives each of these rows an ordinary feature line with the feature's own name, value and contribution.
- Explainer.ExplainDataset follows the same corrected naming, so its rationales differ from the source's in the rows and under the conditions named on the previous line (see the Findings rows for lines 115 and 119-121). Where the source raises an error there, the model returns a result.
- A model fitted without feature names makes the source raise an attribute error. The model returns `ModelIncompatible` instead.

## Findings

| source | as written | input that shows it | evidently intended | confidence | as-written member | corrected member |
|---|---|---|---|---|---|---|
| streamlit_app/app.py:119-121 | the feature name is recovered by deleting every "_contrib" from the contribution column's name | a model feature "a_contrib_b": its column "a_contrib_b_contrib" becomes "a_b", the lookup yields "NA", and formatting "NA" with `:.3f` raises an error | strip only the trailing suffix, so the line shows the feature's own value | medium, not executed | ContribNames.AsWrittenLosesFeatureName | ContribNames.CorrectedNameFindsFeature |
| streamlit_app/app.py:115 | contributions are every column of the table whose name ends in "_contrib" | a model feature "t_contrib": its value column is ranked alongside the contribution columns | take exactly the contribution column of each model feature | medium, not executed | ContribNames.AsWrittenScansFeatureColumn | ContribNames.ContribColumns |
