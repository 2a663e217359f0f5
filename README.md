# VectorBench anomaly events and per-event distances, in Dafny

This project models the two computational parts of VectorBench-Backend.

1. **Event construction** (`detect_anomalies` in anomaly_detection.py):
   - The bars of a ticker are sorted by time.
   - Each bar after the first gets a price delta and a percentage change against the previous close.
   - Rows whose percentage change is NaN are dropped.
   - The outlier model's labels are attached to the bars.
   - The outlier bars are grouped in one pass into clusters whose consecutive members are at most 24 hours apart.
   - Each cluster becomes one anomaly point: the median member time rounded to the hour, and the mean of the members' `(h + l) / 2` midpoints.
2. **Per-event distance scoring** (`bar_to_vector` and the scoring loop of `calc_anomaly_distance` in dtw.py):
   - Each anomaly time is located in series 1 by exact match (`list.index`), or else by the nearest time (`min` over the indices, first minimum wins). The anomaly time is replaced by that bar's time.
   - The bar of series 2 nearest to that time is found.
   - The event is scored as the absolute difference of the two closing prices.

Conventions:
- Times are whole seconds (`int`). Prices and volumes are `real`, so all arithmetic is exact.
- The Isolation Forest's labels are an input sequence (`-1` marks an outlier).
- Each exception the source raises becomes the `Failure` case of a `Result`.

Modules:
- `Bars`: the bar record and `Result`.
- `Sorting`: a stable sort by a real key, used for `sort_values` and for the median.
- `Features`: the feature rows, the label alignment and the outlier filter.
- `Clustering`: the 24-hour grouping loop and its reference definition.
- `EventPoints`: midpoint, rounding, mean, median and the per-cluster point.
- `AnomalyDetection`: the whole of `detect_anomalies`.
- `Dtw`: `bar_to_vector` and the scoring.

Behaviour of the code that the model keeps:
- The feature matrix holds open, high, low, close, volume and VWAP, plus the two derived columns. It has no trade count.
- A zero previous close gives NaN only when the current close is zero too. NaN rows are dropped. A non-zero close over a zero close gives an infinity, which the outlier model refuses (`NonFiniteFeature`).
- Too little data is not checked up front. An empty feature matrix makes the outlier model fail (`NoFeatureRows`).
- `round("H")` rounds a half-hour tie to the even hour. The tie rule is a parameter (`TieRule`): `HalfEven` is what pandas does, and `HalfUp` is also offered.
- The nearest-time search breaks ties by the lowest index, which is the earliest timestamp on a time-sorted series.
- An empty series makes `min` over an empty range raise. The model returns `Failure(EmptySeries)`; it does not require non-empty series.

## Model

| member | source | states |
|---|---|---|
| Sorting.SortBy | anomaly_detection.py:41 | the bars come out in non-decreasing time order, with the same length and the same multiset of bars |
| Features.PctChange | anomaly_detection.py:45 | the percentage change is NaN exactly when both closes are zero; it is finite exactly when the previous close is non-zero (otherwise infinite) |
| Features.PctChangeScalesPriceChange | anomaly_detection.py:44-45 | a finite percentage change times the previous close equals the price delta |
| Features.FeatureRows | anomaly_detection.py:44-46 | the rows belong to bars 1..n-1 in strictly increasing bar order; each row carries its bar's prices and `c[i] - c[i-1]`; no row's percentage change is NaN; there are fewer rows than bars |
| Features.FeatureRowsComplete | anomaly_detection.py:46 | `dropna` keeps the row of every bar after the first whose percentage change is not NaN |
| Features.FeatureRowsWithoutGaps | anomaly_detection.py:44-46 | with no NaN percentage change, there are exactly n-1 rows and row k belongs to bar k+1 |
| Features.AlignAsWritten | anomaly_detection.py:56-57 | as written: label j goes to bar `n - len(X) + j`, one of the last len(X) bars |
| Features.AlignByRow | anomaly_detection.py:56-57 | corrected: label j goes to the bar that row j of X was built from, one label per row |
| Features.AlignmentAgreesWithoutGaps | anomaly_detection.py:46-56 | when only the first row is dropped, the labels are on exactly the last len(X) bars, so the written and the corrected alignment coincide |
| Features.AlignAsWrittenMislabels | anomaly_detection.py:56 | for closes 1, 0, 0 the written alignment puts row 1's label on bar 2 while the row came from bar 1 |
| Features.Outliers | anomaly_detection.py:69 | one bar per outlier label (the count equals the number of outlier labels); every kept bar carries an outlier label, every outlier-labelled bar is kept, and the result is empty exactly when no label is an outlier |
| Features.OutliersOfConcat | anomaly_detection.py:69 | the filter works stretch by stretch: the outliers of two stretches laid end to end are those of the first followed by those of the second, so each appears once and in its original order |
| Features.AlignedOutliers | anomaly_detection.py:56-69 | after the alignment by row, the outliers are exactly the bars whose row got the outlier label, as many as there are outlier labels |
| Clustering.GroupByGap | anomaly_detection.py:67-84 | reference grouping: the clusters are non-empty, concatenate to the outlier rows, have consecutive members at most the gap apart and are separated by more than the gap; there are none exactly when there are no rows |
| Clustering.PartitionUnique | anomaly_detection.py:77-81 | those four conditions determine the clusters: two groupings that meet them are equal |
| Clustering.ClusterByGap | anomaly_detection.py:70-84 | the one-pass loop yields a gap partition of the rows, equal to the reference grouping |
| Clustering.TwoBarsShareClusterIff | anomaly_detection.py:67-78 | the 24-hour boundary is inclusive: two bars share a cluster if and only if the later one is at most the gap after the earlier |
| EventPoints.Midpoint | anomaly_detection.py:64 | the midpoint is equidistant from high and low and lies between them |
| EventPoints.RoundToHour | anomaly_detection.py:89 | the result is a whole hour within half an hour of the time; a tie goes up (`HalfUp`) or to the even hour (`HalfEven`) |
| EventPoints.RoundToHourIsNearest | anomaly_detection.py:89 | no whole hour is closer to the time than the rounded one |
| EventPoints.Mean | anomaly_detection.py:90 | the mean lies between the smallest and largest value and is the value itself for one value |
| EventPoints.Median | anomaly_detection.py:89 | at most half the values lie strictly below the median and at most half strictly above it; it lies between the smallest and largest value and is the value itself for one value |
| EventPoints.ClusterPoint | anomaly_detection.py:86-91 | the point's time is a whole hour within the cluster's time span widened by half an hour each side; its magnitude lies between the least and greatest member midpoint; a one-bar cluster gives that bar's rounded time and its midpoint |
| EventPoints.Points | anomaly_detection.py:86-91 | one point per cluster, in cluster order |
| AnomalyDetection.OutlierBars | anomaly_detection.py:40-59 | each failure happens exactly on its own condition (no rows; an infinite change; label count differing from the row count); on success the result holds one bar per outlier label, is in time order, and a bar is in it exactly when some row built from that bar got the outlier label |
| AnomalyDetection.OutlierSelection | anomaly_detection.py:56-69 | the outliers taken from the rows of a time-ordered rearrangement of the bars are input bars, in time order, one per outlier label, and exactly the bars whose row got that label |
| AnomalyDetection.LabelledInTimeOrder | anomaly_detection.py:56-57 | the labelled bars are in time order |
| AnomalyDetection.OutliersInTimeOrder | anomaly_detection.py:69 | filtering the outliers keeps time order |
| AnomalyDetection.DetectAnomalies | anomaly_detection.py:40-91 | the method returns the specification `AnomalyPoints`: the points of the 24-hour grouping of the outlier bars, or the failure of `OutlierBars` |
| AnomalyDetection.NoOutliersNoPoints | anomaly_detection.py:74-84 | with no outlier label a successful run yields no points |
| AnomalyDetection.SortedClusterSpan | anomaly_detection.py:73-84 | a time-ordered cluster's earliest and latest times are its first and last members' |
| AnomalyDetection.PointsSpacedByGap | anomaly_detection.py:77-91 | points of consecutive clusters of time-ordered bars are more than the gap minus one hour apart |
| AnomalyDetection.PointsAtLeastADayApart | anomaly_detection.py:67-91 | the points are in strictly increasing time order, consecutive ones at least 24 hours apart |
| Dtw.BarToVector | dtw.py:57-66 | the vector has exactly seven components |
| Dtw.VectorRoundTrip | dtw.py:57-66 | the components are o, h, l, c, v, n, vw: reading them back in that order gives the same bar |
| Dtw.BarRoundTrip | dtw.py:57-66 | every seven-component vector is the vector of the bar read from it |
| Dtw.Times | dtw.py:118-121 | the list of trade times, position by position |
| Dtw.IndexOf | dtw.py:126-127 | `index` returns the first position holding the time |
| Dtw.Nearest | dtw.py:130 | the position minimises the distance to the time, and every earlier position is strictly farther |
| Dtw.NearestUnique | dtw.py:137 | those two conditions determine the nearest position |
| Dtw.NearestOfPresentTime | dtw.py:137 | when the time is present, the nearest position is its first occurrence and holds exactly that time |
| Dtw.NearestIsFirstOfItsTime | dtw.py:130-132 | the nearest position is the first position holding the time found there |
| Dtw.ScoreEventFacts | dtw.py:126-142 | one event fails exactly when a series is empty; otherwise its time is a time of series 1, equal to the anomaly time when series 1 has it, and its distance is the non-negative close difference between the first series-1 bar at that time and the nearest series-2 bar |
| Dtw.CalcAnomalyDistance | dtw.py:118-142 | it fails exactly when there is an anomaly time and a series is empty; otherwise it gives one score per anomaly time, in order, each the score of that time |

## Left out

- Isolation Forest fitting and prediction (anomaly_detection.py:48-55) is a scikit-learn call with random state and floating-point scores. Its labels are an input. Its refusal of an empty or non-finite matrix is modelled as `NoFeatureRows` and `NonFiniteFeature`.
- Database access (the queries at anomaly_detection.py:30-38 and dtw.py:34-54, `update_anomalies_in_db`), the module-level connections, and db.py are I/O.
- Printing (anomaly_detection.py:60-62) and plotting (`display_data`, `plot_with_anomalies`) are output only.
- `angle_distance`, `calc_global_distance` and `fastdtw` (dtw.py:69-90) are floating-point `sqrt`/`acos` numerics fed to a library whose algorithm is not part of this model.
- alpaca.py, classification.py and app.py (HTTP ingestion, LLM calls, web routes) are not part of this model.
- Floating-point rounding is not modelled; prices, means and medians are exact reals.
- NaN in columns other than the percentage change, and the 64-bit nanosecond datetime representation (line 40), are not modelled.
- Sorting.SortBy: a stable sort. pandas' default quicksort may order bars with equal timestamps differently.
- `pct_change`'s default forward fill only matters for NaN closes, which are not modelled.
- AnomalyDetection.OutlierBars: attaches the labels with the corrected alignment (`Features.AlignByRow`), not the one at line 56; the two differ only when a row other than the first is dropped. See Findings.
- AnomalyDetection.AnomalyPoints: builds on `OutlierBars`, so it also uses the corrected alignment.
- AnomalyDetection.DetectAnomalies: follows the corrected label alignment (`Features.AlignByRow`), not the one at line 56; see Findings.

## Findings

| source | as written | input that shows it | evidently intended | confidence | as-written member | corrected member |
|---|---|---|---|---|---|---|
| anomaly_detection.py:56 | `df.iloc[len(df) - len(X):]` puts the labels on the last len(X) bars, assuming that only the first row was dropped | closes 1, 0, 0: the third row's percentage change is 0/0 = NaN, so X holds only bar 1's row, and its label lands on bar 2 | each label lands on the bar its row of X was built from | not executed | Features.AlignAsWrittenMislabels | Features.AlignByRow |
