# Customer-feedback dashboard: a Dafny model of its decision logic

The dashboard loads app reviews from a warehouse. Each review arrives with a
star rating, its text, a sentiment score and a topic label; the score and the
label come from a managed AI service. The dashboard turns these reviews into
summaries:

- it keeps the usable records and derives satisfaction, significance and
  volume for each;
- it gives each review one of four action tags (Address Immediately,
  Maintain & Monitor, Minimize & Reassess, Explore);
- it aggregates the reviews per topic;
- it builds a star-rating histogram;
- it places the topics on a significance × satisfaction heat grid;
- it builds a three-way sentiment histogram;
- it shows one review of a chosen topic on request.

This project models that logic in `app/streamlit_dashboard.py` and proves
properties of the model. Scores are exact `real`s. Each pandas stage is a
function over a sequence of rows: the frame's columns become fields of a row
value. Writing the action column (line 46) is also modelled as a method that
updates an array of rows in place.

Modules, one per component:

- `Reviews` (`reviews.dfy`): the record filter, the derived columns,
  `assign_action` and the in-place assignment of the action column.
- `Topics` (`topics.dfy`): the grouping by topic label. pandas emits the
  groups in ascending key order, using Python's string order, which
  `Strings.Less` models. Per group it computes the mean satisfaction, the
  mean significance, the row count as volume and the first action.
- `Ratings` (`ratings.dfy`): the dense five-bucket rating summary with
  percentage shares.
- `Sentiment` (`sentiment.dfy`): `label_sentiment` and the sparse
  `value_counts` breakdown.
- `Zones` (`zones.dfy`): the two `pd.cut` binnings and the heatmap grouping.
- `DrillDown` (`drilldown.dfy`): the drill-down on a selected topic.
- Helpers: `Wrappers` (Option), `Strings` (string order, join) and `Shares`
  (percentage shares).

The bins follow the code, which calls `pd.cut` without `include_lowest`, so
they are right-closed with the lowest edge excluded:

- satisfaction: (-1, -0.1], (-0.1, 0.1] and (0.1, 1];
- significance: (0, 0.5] and (0.5, 1].

A topic whose mean satisfaction is exactly -1, or whose mean significance is
exactly 0, lands in no cell. A closed reading of the lowest bins ([-1, -0.1]
and [0, 0.5]) does not match the code. The model follows the code, and
`Zones.UnzonedGroups` states which groups drop out.

The grouping emits the topics in sorted label order, not in an arbitrary
order. The heatmap joins the names in a cell with `<br>`, not with newlines.

## Model

| member | source | states |
|---|---|---|
| Reviews.Normalize | app/streamlit_dashboard.py:25-34 | every row of the prepared frame has a score in [-1, 1], satisfaction equal to the score, significance equal to its magnitude, volume 1 and the action `assign_action` gives; there are no more rows than records |
| Reviews.Keep | app/streamlit_dashboard.py:25-31 | the record filter: rating, review and score present (the query's `WHERE`), topic label present and score within [-1, 1] (`between` inclusive); `NormalizeKeeps` and `NormalizeOne` state that a record reaches the frame exactly when it passes |
| Reviews.NormalizeKeeps | app/streamlit_dashboard.py:25-31 | a record survives exactly when it has a rating, a review, a score in [-1, 1] and a topic label: every such record has its row, and every row comes from such a record of the input |
| Reviews.NormalizeAppend | app/streamlit_dashboard.py:30-31 | the filter works record by record, so the rows keep the input order (the frame of two batches is the two frames in sequence) |
| Reviews.NormalizeOne | app/streamlit_dashboard.py:25-34 | a single record yields its derived row if it passes the filter and nothing otherwise |
| Reviews.Derive | app/streamlit_dashboard.py:32-34 | the derived row is prepared, its significance lies in [0, 1], and the original record can be read back from it unchanged |
| Reviews.DeriveSource | app/streamlit_dashboard.py:32-34 | a prepared row and the record it came from determine each other |
| Reviews.AssignAction | app/streamlit_dashboard.py:36-44 | each of the four tags is given exactly on its region: negative and significance ≥ 0.5; positive and ≥ 0.5; negative and < 0.5; zero, or positive and < 0.5 (so every pair gets exactly one tag) |
| Reviews.ScoreAction | app/streamlit_dashboard.py:32-44 | read off a single score: ≤ -0.5 is addressed, ≥ 0.5 maintained (the ±0.5 ties go to the significant branches), other negatives minimized, 0 and mildly positive scores explored |
| Reviews.ApplyAssignAction | app/streamlit_dashboard.py:46 | writes each row's action in place from its satisfaction and significance, leaves every other column unchanged, and turns a frame of scored rows into a frame of prepared rows |
| Topics.Keys | app/streamlit_dashboard.py:48 | the group keys are exactly the labels present, strictly ascending (each once) |
| Topics.Insert | app/streamlit_dashboard.py:48 | adding a key to a strictly ascending key list keeps it strictly ascending and adds exactly that key |
| Topics.FirstMember | app/streamlit_dashboard.py:48-52 | a label that occurs has a non-empty group whose first member is the first row in input order that carries the label |
| Topics.FirstIndex | app/streamlit_dashboard.py:48-52 | the first row carrying a present label sits at a position before which no row carries it, and it heads that label's group |
| Topics.Summarize | app/streamlit_dashboard.py:48-53 | a group's aggregate carries its label and a volume of at least 1, equal to the group's size |
| Topics.Aggregate | app/streamlit_dashboard.py:48-53 | `agg` has one entry per group key, in key order, each the aggregate of that key's group; `AggregateGroups`, `AggregateMeans`, `AggregateFirstAction` and `AggregateVolumes` state what those entries are |
| Topics.AggregateGroups | app/streamlit_dashboard.py:48-53 | one aggregate per distinct label present and none other, in strictly ascending label order, each with volume ≥ 1 equal to the number of rows with that label |
| Topics.SummarizeMeans | app/streamlit_dashboard.py:49-50 | over prepared rows a group's mean satisfaction lies in [-1, 1] and its mean significance in [0, 1] |
| Topics.AggregateMeans | app/streamlit_dashboard.py:48-50 | every aggregate of prepared rows has its means in [-1, 1] and [0, 1] |
| Topics.AggregateFirstAction | app/streamlit_dashboard.py:52 | each aggregate's action is the action of the first row, in input order, carrying its label |
| Topics.AggregateVolumes | app/streamlit_dashboard.py:51 | the volumes of all aggregates add up to the number of rows |
| Topics.SumBounds | app/streamlit_dashboard.py:49-50 | n prepared rows have a satisfaction sum in [-n, n] and a significance sum in [0, n] |
| Topics.GroupSizesCover | app/streamlit_dashboard.py:48-51 | the groups of distinct keys that cover every row's label hold all rows between them |
| Topics.SortedDistinct | app/streamlit_dashboard.py:48 | strictly ascending keys are pairwise distinct |
| Strings.LessTransitive | app/streamlit_dashboard.py:48 | Python's string order, by which the group keys are sorted, is transitive |
| Strings.LessTotal | app/streamlit_dashboard.py:48 | of two different strings, one sorts before the other |
| Strings.LessIrreflexive | app/streamlit_dashboard.py:48 | no string sorts before itself |
| Strings.JoinAppend | app/streamlit_dashboard.py:152 | joining one more name adds the separator and that name at the end of the cell text |
| Ratings.SummaryShape | app/streamlit_dashboard.py:57-60 | always exactly five buckets, ratings 5, 4, 3, 2, 1 in that order, each holding the number of rows with that rating, which is 0 exactly when no row has it |
| Ratings.Summary | app/streamlit_dashboard.py:56-62 | `rating_summary` has five buckets 5, 4, 3, 2, 1, each with the number of rows carrying that rating, and each percent is the bucket's share of the rows rated 1 to 5, or 0.0 when there are none |
| Ratings.SummaryTotal | app/streamlit_dashboard.py:57-61 | the bucket counts add up to the number of rows rated 1 to 5 |
| Ratings.SummaryPercents | app/streamlit_dashboard.py:61-62 | with no row rated 1 to 5 every percent is 0.0; otherwise each percent is the bucket's share count / total × 100 and the percents add up to 100 |
| Ratings.CountRatingZero | app/streamlit_dashboard.py:57-59 | a rating's count is 0 exactly when no row carries it (the zero-fill of the merge) |
| Ratings.CountsInRange | app/streamlit_dashboard.py:57-61 | the five counts add up to the number of rows whose rating is from 1 to 5 |
| Shares.SharesSumTo100 | app/streamlit_dashboard.py:62 | shares of counts out of their own sum add up to 100 |
| Shares.SharesAdd | app/streamlit_dashboard.py:175 | the shares of some counts add up to the share of their sum |
| Shares.ShareOfSum | app/streamlit_dashboard.py:62 | the shares of two counts out of one total add up to the share of their sum |
| Sentiment.LabelSentiment | app/streamlit_dashboard.py:164-170 | Positive exactly when score ≥ 0.3, Negative exactly when score ≤ -0.3, Neutral exactly on the open band (-0.3, 0.3) |
| Sentiment.CountLabelTotal | app/streamlit_dashboard.py:172 | every row gets exactly one label: the three label counts add up to the number of rows |
| Sentiment.CountLabelPositive | app/streamlit_dashboard.py:172-173 | a label's count is positive exactly when some row's score gets that label |
| Sentiment.SortByCount | app/streamlit_dashboard.py:173 | the value counts come out in non-increasing count order, with the same length and the same set of entries (that they are a permutation is `SortByCountPermutes`) |
| Sentiment.SortByCountPermutes | app/streamlit_dashboard.py:173 | sorting by count is a permutation: the multiset of entries is unchanged |
| Sentiment.InsertByCountPermutes | app/streamlit_dashboard.py:173 | inserting an entry by count adds exactly that entry to the multiset of entries |
| Sentiment.InsertByCountKeeps | app/streamlit_dashboard.py:173 | inserting an entry by count adds its count to the total and keeps labels distinct |
| Sentiment.SortByCountKeeps | app/streamlit_dashboard.py:173 | sorting by count keeps the total count and the distinctness of labels |
| Sentiment.Occurring | app/streamlit_dashboard.py:173 | only labels that occur are listed, each once with its count ≥ 1, at most three entries |
| Sentiment.Breakdown | app/streamlit_dashboard.py:172-175 | `sentiment_counts` lists the value counts in their order, each slice with its label and count; `BreakdownPercents` states its percent column |
| Sentiment.BreakdownEntries | app/streamlit_dashboard.py:172-174 | at most three entries, no label twice, in non-increasing count order, each count equal to the number of rows with that label and at least 1 |
| Sentiment.BreakdownLabels | app/streamlit_dashboard.py:172-173 | a label is listed exactly when some row's score gets it |
| Sentiment.BreakdownListsCounted | app/streamlit_dashboard.py:172-173 | a label that some row gets is listed |
| Sentiment.BreakdownListsOnlyCounted | app/streamlit_dashboard.py:172-173 | a listed label is one that some row gets |
| Sentiment.BreakdownTotals | app/streamlit_dashboard.py:173-175 | the counts add up to the number of rows, and with any row the percents add up to 100 |
| Sentiment.BreakdownPercents | app/streamlit_dashboard.py:173-175 | with no row the breakdown is empty; otherwise each slice's percent is its count's share of all rows, count / sum of counts × 100 |
| Zones.SatisfactionZoneOf | app/streamlit_dashboard.py:149 | Low exactly on (-1, -0.1], Neutral on (-0.1, 0.1], High on (0.1, 1], no zone for -1 and outside [-1, 1] |
| Zones.SignificanceZoneOf | app/streamlit_dashboard.py:150 | Low exactly on (0, 0.5], High on (0.5, 1], no zone for 0 and outside [0, 1] |
| Zones.ZoneOf | app/streamlit_dashboard.py:149-151 | a topic has a cell exactly when its mean satisfaction is in (-1, 1] and its mean significance in (0, 1] |
| Zones.Cells | app/streamlit_dashboard.py:151-153 | every emitted cell has a zone from the list and at least one member topic, lists those topics' names in group order and counts their total volume; every populated zone is emitted |
| Zones.Heatmap | app/streamlit_dashboard.py:151-153 | `heatmap_df` lists at least one topic in every cell, and every topic whose means fall in a bin has a cell of its zones |
| Zones.HeatmapCells | app/streamlit_dashboard.py:151-153 | every heatmap cell is populated, lists its member topics in group order, shows their names joined by `<br>`, counts their summed volume, and no two cells share a zone |
| Zones.Placement | app/streamlit_dashboard.py:149-153 | a topic with both zones appears in the cell of its zones and in no other cell; a topic without a zone appears in no cell |
| Zones.PlacementIn | app/streamlit_dashboard.py:149-152 | a topic with both zones is listed in the cell of its zones |
| Zones.PlacementOnly | app/streamlit_dashboard.py:149-152 | a topic listed in a cell has that cell's zones (topic names being unique) |
| Zones.HeatmapVolume | app/streamlit_dashboard.py:153 | the cell counts add up to the total volume of the topics that have a zone |
| Zones.GridHits | app/streamlit_dashboard.py:149-151 | a zoned topic falls in exactly one cell of the six-cell grid |
| Zones.HitsDistinct | app/streamlit_dashboard.py:151 | over distinct zones a topic's volume is taken once if its zone is among them and never otherwise |
| Zones.CellsDistinct | app/streamlit_dashboard.py:151 | the grouping emits each zone at most once |
| Zones.GridComplete | app/streamlit_dashboard.py:149-151 | every pair of zones is a cell of the grid |
| Zones.AggregateUnique | app/streamlit_dashboard.py:48-53 | no topic name occurs twice among the aggregates |
| Zones.UnzonedGroups | app/streamlit_dashboard.py:149-150 | a group of prepared rows has no cell exactly when its mean satisfaction is -1 or its mean significance is 0 |
| Zones.HeatmapOfRows | app/streamlit_dashboard.py:48-53 | when every group has a zone, the heatmap counts add up to the number of prepared rows |
| DrillDown.ReviewsOfSpec | app/streamlit_dashboard.py:205 | the candidate reviews are exactly the reviews of rows with the selected label |
| DrillDown.Show | app/streamlit_dashboard.py:204-210 | a shown review belongs to the selected, non-empty topic and is among that topic's reviews |
| DrillDown.ShowSpec | app/streamlit_dashboard.py:204-210 | nothing is shown exactly when the selection is missing or empty; absence is reported exactly when no row has the selected label; a shown review comes from a row with that label |
| DrillDown.ShowReaches | app/streamlit_dashboard.py:205-208 | every review of the selected topic is the one shown for some random pick |
| DrillDown.SelectedTopicHasReviews | app/streamlit_dashboard.py:203-210 | a non-empty topic offered by the select box always has a review to show, so the "no reviews" branch is never taken for it |

## Left out

- The warehouse session and query, and the managed AI calls
  (app/streamlit_dashboard.py:8, 11-26). The sentiment score and the topic
  label are inputs of the model. The label is an open string, not the fixed
  category list.
- The ingestion script `data_ingestion/extract_reviews.py`: it only scrapes
  and writes to the warehouse.
- Lower-casing the column names (line 29). This is a naming detail.
- Page layout, CSS, widgets and charts (lines 7, 65-146, 155-160, 177-196,
  201-203).
- The dashboard computes the heatmap and the sentiment labels only when their
  chart is chosen (lines 148, 162). The model computes them whatever the
  choice.
- Random sampling (lines 95 and 208). At line 208 a `choice` parameter picks
  the review. The sample at line 95 is not modelled: it is a presentation
  choice, and it raises an error on an empty frame.
- Rounding percentages to one decimal (lines 62, 175) and the display
  formatting (lines 100-102). Percentages are exact shares.
- Floating point. Scores and means are exact reals, so 0.1, 0.3 and 0.5 are
  the exact decimals. NaN scores are not modelled; `between` would drop them.
- Categorical grouping in older pandas also emits empty cells, with count 0.
  The model emits only populated cells.
- Sentiment.SortByCount: among equal counts the model keeps the order
  Positive, Neutral, Negative. pandas' order for ties in `value_counts`
  depends on the version and is not modelled.
- Line 153 counts each cell with a second grouping that must line up by
  position with the first. The model groups once and takes both the names and
  the volume sum from that one grouping.
- Ratings are integers, as the warehouse column is. The `dropna` at line 56
  removes nothing after the earlier filter, so it is not modelled.
