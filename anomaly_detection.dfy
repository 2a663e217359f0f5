/** `detect_anomalies` (anomaly_detection.py) end to end, from the bars of a
    ticker and the labels of the outlier model to the list of anomaly points. */
module AnomalyDetection {
  import opened Bars
  import opened Sorting
  import opened Features
  import opened Clustering
  import opened EventPoints

  /** The exceptions the source raises on the way. */
  datatype DetectError =
    | NoFeatureRows       // the outlier model is fitted on an empty matrix
    | NonFiniteFeature    // the matrix holds an infinite percentage change
    | LabelCountMismatch  // the labels do not match the rows one to one

  function BarTime(b: Bar): real { b.t as real }

  /** Lines 40-59 and 69: the bars sorted by time, the feature matrix, the
      labels put back on the bars their rows came from, and the outlier bars
      among them, still in time order: exactly the bars whose row got the
      outlier label, one per such label. */
  function OutlierBars(bars: seq<Bar>, labels: seq<int>): (r: Result<seq<Bar>, DetectError>)
    ensures var rows := FeatureRows(SortBy(bars, BarTime));
      && (r == Failure(NoFeatureRows) <==> rows == [])
      && (r == Failure(NonFiniteFeature) <==> HasInfinite(rows))
      && (r == Failure(LabelCountMismatch) <==> rows != [] && !HasInfinite(rows) && |labels| != |rows|)
    ensures r.Success? ==> SortedBy(r.value, BarTime)
    ensures r.Success? ==> forall b | b in r.value :: b in bars
    ensures r.Success? ==> |r.value| == LabelCount(labels)
    ensures r.Success? ==>
      var sorted := SortBy(bars, BarTime);
      var rows := FeatureRows(sorted);
      forall b :: b in r.value <==>
        exists k | 0 <= k < |rows| && k < |labels| :: labels[k] == OUTLIER && sorted[rows[k].index] == b
  {
    var sorted := SortBy(bars, BarTime);
    var rows := FeatureRows(sorted);
    if rows == [] then Failure(NoFeatureRows)
    else if HasInfinite(rows) then Failure(NonFiniteFeature)
    else if |labels| != |rows| then Failure(LabelCountMismatch)
    else
      OutlierSelection(bars, sorted, rows, labels);
      Success(Outliers(AlignByRow(sorted, rows, labels)))
  }

  /** The outliers selected from rows of a time-ordered rearrangement of
      `bars` are input bars in time order, exactly those whose row got the
      outlier label, one per label. */
  lemma OutlierSelection(bars: seq<Bar>, sorted: seq<Bar>, rows: seq<FeatureRow>, labels: seq<int>)
    requires multiset(sorted) == multiset(bars) && SortedBy(sorted, BarTime)
    requires |labels| == |rows|
    requires forall k | 0 <= k < |rows| :: rows[k].index < |sorted|
    requires forall k, m | 0 <= k < m < |rows| :: rows[k].index < rows[m].index
    ensures
      var os := Outliers(AlignByRow(sorted, rows, labels));
      && SortedBy(os, BarTime)
      && (forall b | b in os :: b in bars)
      && |os| == LabelCount(labels)
      && forall b :: b in os <==>
           exists k | 0 <= k < |rows| && k < |labels| :: labels[k] == OUTLIER && sorted[rows[k].index] == b
  {
    LabelledInTimeOrder(sorted, rows, labels);
    OutliersInTimeOrder(AlignByRow(sorted, rows, labels));
    AlignedOutliers(sorted, rows, labels);
    assert forall b | b in Outliers(AlignByRow(sorted, rows, labels)) :: b in multiset(sorted);
  }

  predicate BarsInTimeOrder(ls: seq<Labelled>)
  {
    forall i, j | 0 <= i < j < |ls| :: ls[i].bar.t <= ls[j].bar.t
  }

  lemma LabelledInTimeOrder(sorted: seq<Bar>, rows: seq<FeatureRow>, labels: seq<int>)
    requires SortedBy(sorted, BarTime)
    requires |labels| == |rows|
    requires forall k | 0 <= k < |rows| :: rows[k].index < |sorted|
    requires forall k, m | 0 <= k < m < |rows| :: rows[k].index < rows[m].index
    ensures BarsInTimeOrder(AlignByRow(sorted, rows, labels))
  {
    var ls := AlignByRow(sorted, rows, labels);
    forall i, j | 0 <= i < j < |ls| ensures ls[i].bar.t <= ls[j].bar.t {
      assert BarTime(sorted[rows[i].index]) <= BarTime(sorted[rows[j].index]);
    }
  }

  /** Every outlier is at least as late as a bound that all bars respect. */
  lemma OutliersNotBefore(ls: seq<Labelled>, t: int)
    requires forall j | 0 <= j < |ls| :: t <= ls[j].bar.t
    ensures forall b | b in Outliers(ls) :: t <= b.t
  {
  }

  /** Filtering the outliers keeps the bars in time order. */
  lemma {:induction false} OutliersInTimeOrder(ls: seq<Labelled>)
    requires BarsInTimeOrder(ls)
    ensures SortedBy(Outliers(ls), BarTime)
  {
    if ls != [] {
      var tail := ls[1..];
      assert BarsInTimeOrder(tail);
      OutliersInTimeOrder(tail);
      OutliersNotBefore(tail, ls[0].bar.t);
      if ls[0].anomalyLabel == OUTLIER {
        PrependSorted(ls[0].bar, Outliers(tail), BarTime);
      }
    }
  }

  /** Lines 40-91 as a specification: the points of the 24-hour clusters of
      the outlier bars. */
  function AnomalyPoints(bars: seq<Bar>, labels: seq<int>, tie: TieRule): Result<seq<Point>, DetectError>
  {
    match OutlierBars(bars, labels)
    case Failure(e) => Failure(e)
    case Success(outliers) => Success(Points(GroupByGap(outliers, MERGE_WINDOW), tie))
  }

  /** `detect_anomalies` with the outlier model's labels given: sort, derive
      the features, check what the model would refuse, attach the labels,
      cluster the outliers in one pass and reduce each cluster to a point. */
  method DetectAnomalies(bars: seq<Bar>, labels: seq<int>, tie: TieRule)
    returns (r: Result<seq<Point>, DetectError>)
    ensures r == AnomalyPoints(bars, labels, tie)
  {
    var sorted := SortBy(bars, BarTime);
    var rows := FeatureRows(sorted);
    if rows == [] {
      return Failure(NoFeatureRows);
    }
    if HasInfinite(rows) {
      return Failure(NonFiniteFeature);
    }
    if |labels| != |rows| {
      return Failure(LabelCountMismatch);
    }
    var labelled := AlignByRow(sorted, rows, labels);
    var outliers := Outliers(labelled);
    assert OutlierBars(bars, labels) == Success(outliers);
    var clusters := ClusterByGap(outliers, MERGE_WINDOW);
    r := Success(Points(clusters, tie));
  }

  /** No outlier label gives no points. */
  lemma NoOutliersNoPoints(bars: seq<Bar>, labels: seq<int>, tie: TieRule)
    requires forall j | 0 <= j < |labels| :: labels[j] != OUTLIER
    requires AnomalyPoints(bars, labels, tie).Success?
    ensures AnomalyPoints(bars, labels, tie) == Success([])
  {
    var sorted := SortBy(bars, BarTime);
    var rows := FeatureRows(sorted);
    var labelled := AlignByRow(sorted, rows, labels);
    var outliers := Outliers(labelled);
    assert OutlierBars(bars, labels) == Success(outliers);
  }

  /** A cluster of bars in time order spans from its first to its last bar. */
  lemma SortedClusterSpan(c: seq<Bar>)
    requires c != [] && SortedBy(c, BarTime)
    ensures MinOf(ClusterTimes(c)) == c[0].t as real
    ensures MaxOf(ClusterTimes(c)) == Last(c).t as real
  {
    var ts := ClusterTimes(c);
    assert BarTime(c[0]) <= BarTime(Last(c));
    assert forall j | 0 <= j < |c| :: BarTime(c[0]) <= BarTime(c[j]) <= BarTime(Last(c));
  }

  /** Every part of a time-ordered concatenation is in time order. */
  lemma {:induction false} PartsInTimeOrder(cs: seq<seq<Bar>>)
    requires SortedBy(Flatten(cs), BarTime)
    ensures forall k | 0 <= k < |cs| :: SortedBy(cs[k], BarTime)
  {
    if cs != [] {
      var f := Flatten(cs);
      assert f == cs[0] + Flatten(cs[1..]);
      assert forall i | 0 <= i < |cs[0]| :: cs[0][i] == f[i];
      assert forall i | 0 <= i < |Flatten(cs[1..])| :: Flatten(cs[1..])[i] == f[|cs[0]| + i];
      PartsInTimeOrder(cs[1..]);
      assert forall k | 1 <= k < |cs| :: cs[k] == cs[1..][k - 1];
    }
  }

  /** The points of a gap partition of time-ordered bars are in time order,
      consecutive ones more than `gap` minus an hour apart. */
  lemma PointsSpacedByGap(cs: seq<seq<Bar>>, rows: seq<Bar>, gap: int, tie: TieRule)
    requires IsGapPartition(cs, rows, gap) && SortedBy(rows, BarTime)
    ensures forall k | 0 <= k < |cs| - 1 ::
      Points(cs, tie)[k + 1].time - Points(cs, tie)[k].time > gap - HOUR
  {
    PartsInTimeOrder(cs);
    var ps := Points(cs, tie);
    forall k | 0 <= k < |cs| - 1 ensures ps[k + 1].time - ps[k].time > gap - HOUR {
      SortedClusterSpan(cs[k]);
      SortedClusterSpan(cs[k + 1]);
      assert ps[k] == ClusterPoint(cs[k], tie);
      assert ps[k + 1] == ClusterPoint(cs[k + 1], tie);
    }
  }

  /** Consecutive anomaly points are at least a full merge window apart: the
      clusters are more than 24 hours apart and rounding moves each median by
      at most half an hour onto a whole hour. */
  lemma PointsAtLeastADayApart(bars: seq<Bar>, labels: seq<int>, tie: TieRule)
    requires AnomalyPoints(bars, labels, tie).Success?
    ensures var ps := AnomalyPoints(bars, labels, tie).value;
      forall k | 0 <= k < |ps| - 1 :: ps[k].time < ps[k + 1].time && ps[k + 1].time - ps[k].time >= MERGE_WINDOW
  {
    var outliers := OutlierBars(bars, labels).value;
    var cs := GroupByGap(outliers, MERGE_WINDOW);
    PointsSpacedByGap(cs, outliers, MERGE_WINDOW, tie);
    var ps := Points(cs, tie);
    forall k | 0 <= k < |ps| - 1 ensures ps[k + 1].time - ps[k].time >= MERGE_WINDOW {
      WholeHoursApart(ps[k].time, ps[k + 1].time);
    }
  }

  /** Two whole hours more than 23 hours apart are at least 24 hours apart. */
  lemma WholeHoursApart(x: int, y: int)
    requires x % HOUR == 0 && y % HOUR == 0
    requires y - x > MERGE_WINDOW - HOUR
    ensures y - x >= MERGE_WINDOW
  {
    var a, b := x / HOUR, y / HOUR;
    assert x == a * HOUR && y == b * HOUR;
    assert y - x == (b - a) * HOUR;
  }
}
