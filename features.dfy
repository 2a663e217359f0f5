/** Feature derivation and label alignment of `detect_anomalies`
    (anomaly_detection.py): the `diff` / `pct_change` columns, `dropna`,
    and the re-attachment of the outlier labels to the bars. */
module Features {
  import opened Bars

  /** The value pandas computes for one percentage change: a finite number,
      an infinity (non-zero close over a zero close) or NaN (zero over zero). */
  datatype Change = Finite(value: real) | Infinite | Missing

  /** One row of the feature matrix X, remembering the bar it came from. */
  datatype FeatureRow = FeatureRow(
    index: nat,
    o: real, h: real, l: real, c: real, v: real, vw: real,
    priceChange: real, pctChange: Change)

  /** A bar together with the label the outlier model gave it (-1 is outlier). */
  datatype Labelled = Labelled(bar: Bar, anomalyLabel: int)

  const OUTLIER := -1

  /** `pct_change` at bar `i`: pandas divides by the previous close and subtracts one. */
  function PctChange(bars: seq<Bar>, i: nat): (p: Change)
    requires 1 <= i < |bars|
    ensures p.Missing? <==> bars[i - 1].c == 0.0 && bars[i].c == 0.0
    ensures p.Finite? <==> bars[i - 1].c != 0.0
  {
    var prev, cur := bars[i - 1].c, bars[i].c;
    if prev != 0.0 then Finite(cur / prev - 1.0)
    else if cur == 0.0 then Missing
    else Infinite
  }

  /** The feature row of bar `i >= 1`: its own prices and volume, plus `diff`
      and `pct_change` against bar `i - 1`. */
  function RowAt(bars: seq<Bar>, i: nat): FeatureRow
    requires 1 <= i < |bars|
  {
    var b := bars[i];
    FeatureRow(i, b.o, b.h, b.l, b.c, b.v, b.vw, b.c - bars[i - 1].c, PctChange(bars, i))
  }

  /** The matrix X: the rows of bars 1..|bars|-1 in time order, without those
      whose percentage change is NaN. Bar 0 has no predecessor and is never a row. */
  function FeatureRows(bars: seq<Bar>): (rows: seq<FeatureRow>)
    ensures |rows| < |bars| || |bars| == 0
    ensures forall k | 0 <= k < |rows| ::
      1 <= rows[k].index < |bars| && rows[k] == RowAt(bars, rows[k].index)
      && rows[k].priceChange == bars[rows[k].index].c - bars[rows[k].index - 1].c
      && !rows[k].pctChange.Missing?
    ensures forall k, m | 0 <= k < m < |rows| :: rows[k].index < rows[m].index
  {
    RowsBelow(bars, |bars|)
  }

  /** The rows of X whose bar index is below `m`. */
  function RowsBelow(bars: seq<Bar>, m: nat): (rows: seq<FeatureRow>)
    requires m <= |bars|
    ensures |rows| < m || m == 0
    ensures forall k | 0 <= k < |rows| ::
      1 <= rows[k].index < m && rows[k] == RowAt(bars, rows[k].index)
      && !rows[k].pctChange.Missing?
    ensures forall k, j | 0 <= k < j < |rows| :: rows[k].index < rows[j].index
    decreases m
  {
    if m <= 1 then []
    else
      var earlier := RowsBelow(bars, m - 1);
      if PctChange(bars, m - 1).Missing? then earlier
      else earlier + [RowAt(bars, m - 1)]
  }

  /** The percentage change scaled back by the previous close is the price change. */
  lemma PctChangeScalesPriceChange(bars: seq<Bar>, i: nat)
    requires 1 <= i < |bars|
    ensures PctChange(bars, i).Finite? ==>
      PctChange(bars, i).value * bars[i - 1].c == RowAt(bars, i).priceChange
  {
    var prev, cur := bars[i - 1].c, bars[i].c;
    if prev != 0.0 {
      calc {
        (cur / prev - 1.0) * prev;
        (cur / prev) * prev - prev;
        cur - prev;
      }
    }
  }

  /** dropna keeps the row of every bar after the first whose percentage
      change is not NaN. */
  lemma FeatureRowsComplete(bars: seq<Bar>, i: nat)
    requires 1 <= i < |bars| && !PctChange(bars, i).Missing?
    ensures RowAt(bars, i) in FeatureRows(bars)
  {
    RowsBelowComplete(bars, |bars|, i);
  }

  lemma {:induction false} RowsBelowComplete(bars: seq<Bar>, m: nat, i: nat)
    requires m <= |bars|
    requires 1 <= i < m && !PctChange(bars, i).Missing?
    ensures RowAt(bars, i) in RowsBelow(bars, m)
    decreases m
  {
    RowsBelowExtends(bars, m);
    if i < m - 1 {
      RowsBelowComplete(bars, m - 1, i);
    }
  }

  /** Raising the bound only appends rows. */
  lemma RowsBelowExtends(bars: seq<Bar>, m: nat)
    requires 1 <= m <= |bars|
    ensures var earlier := RowsBelow(bars, m - 1);
      |earlier| <= |RowsBelow(bars, m)| && RowsBelow(bars, m)[..|earlier|] == earlier
  {
  }

  /** True when a row holds an infinite percentage change, which the outlier
      model's input validation refuses. */
  predicate HasInfinite(rows: seq<FeatureRow>)
  {
    exists k | 0 <= k < |rows| :: rows[k].pctChange.Infinite?
  }

  /** When no percentage change is NaN, X has exactly one row per bar after
      the first, and row k is the row of bar k + 1. */
  lemma FeatureRowsWithoutGaps(bars: seq<Bar>)
    requires forall i | 1 <= i < |bars| :: !PctChange(bars, i).Missing?
    ensures |bars| > 0 ==> |FeatureRows(bars)| == |bars| - 1
    ensures forall k | 0 <= k < |FeatureRows(bars)| :: FeatureRows(bars)[k].index == k + 1
  {
    RowsBelowWithoutGaps(bars, |bars|);
  }

  lemma {:induction false} RowsBelowWithoutGaps(bars: seq<Bar>, m: nat)
    requires m <= |bars|
    requires forall i | 1 <= i < m :: !PctChange(bars, i).Missing?
    ensures m > 0 ==> |RowsBelow(bars, m)| == m - 1
    ensures forall k | 0 <= k < |RowsBelow(bars, m)| :: RowsBelow(bars, m)[k].index == k + 1
    decreases m
  {
    if m > 1 {
      RowsBelowWithoutGaps(bars, m - 1);
    }
  }

  /** Line 56 as written: the labels go to the LAST |X| bars. */
  function AlignAsWritten(bars: seq<Bar>, rows: seq<FeatureRow>, labels: seq<int>): (r: seq<Labelled>)
    requires |labels| == |rows| <= |bars|
    ensures |r| == |labels|
    ensures forall j | 0 <= j < |r| :: r[j] == Labelled(bars[|bars| - |rows| + j], labels[j])
  {
    seq(|labels|, j requires 0 <= j < |labels| => Labelled(bars[|bars| - |rows| + j], labels[j]))
  }

  /** The intended alignment: label j goes to the bar that row j of X was built from. */
  function AlignByRow(bars: seq<Bar>, rows: seq<FeatureRow>, labels: seq<int>): (r: seq<Labelled>)
    requires |labels| == |rows|
    requires forall k | 0 <= k < |rows| :: rows[k].index < |bars|
    ensures |r| == |labels|
    ensures forall j | 0 <= j < |r| :: r[j] == Labelled(bars[rows[j].index], labels[j])
  {
    seq(|labels|, j requires 0 <= j < |labels| => Labelled(bars[rows[j].index], labels[j]))
  }

  /** Where no row was dropped except the first, the source's alignment is the
      intended one. */
  lemma AlignmentAgreesWithoutGaps(bars: seq<Bar>, labels: seq<int>)
    requires forall i | 1 <= i < |bars| :: !PctChange(bars, i).Missing?
    requires |labels| == |FeatureRows(bars)|
    ensures AlignAsWritten(bars, FeatureRows(bars), labels) == AlignByRow(bars, FeatureRows(bars), labels)
  {
    FeatureRowsWithoutGaps(bars);
  }

  /** Closes 1, 0, 0: the third bar's row is NaN and dropped, so X holds only
      the row of bar 1, and the source attaches that row's label to bar 2. */
  lemma AlignAsWrittenMislabels()
    ensures var bars := [Bar(0, 1.0, 1.0, 1.0, 1.0, 1.0, 1.0, 1.0),
                         Bar(3600, 1.0, 1.0, 1.0, 1.0, 0.0, 1.0, 1.0),
                         Bar(7200, 1.0, 1.0, 1.0, 1.0, 0.0, 1.0, 1.0)];
            var rows := FeatureRows(bars);
            |rows| == 1 && !HasInfinite(rows)
            && AlignAsWritten(bars, rows, [OUTLIER])[0].bar == bars[2]
            && AlignByRow(bars, rows, [OUTLIER])[0].bar == bars[1]
            && bars[1] != bars[2]
  {
    var bars := [Bar(0, 1.0, 1.0, 1.0, 1.0, 1.0, 1.0, 1.0),
                 Bar(3600, 1.0, 1.0, 1.0, 1.0, 0.0, 1.0, 1.0),
                 Bar(7200, 1.0, 1.0, 1.0, 1.0, 0.0, 1.0, 1.0)];
    assert PctChange(bars, 1).Finite?;
    assert RowsBelow(bars, 2) == [RowAt(bars, 1)];
    assert PctChange(bars, 2).Missing?;
    assert FeatureRows(bars) == [RowAt(bars, 1)];
  }

  /** How many of the labelled bars carry the outlier label. */
  function OutlierCount(ls: seq<Labelled>): (n: nat)
    ensures n <= |ls|
  {
    if ls == [] then 0 else (if ls[0].anomalyLabel == OUTLIER then 1 else 0) + OutlierCount(ls[1..])
  }

  /** How many labels are the outlier label. */
  function LabelCount(labels: seq<int>): (n: nat)
    ensures n <= |labels|
  {
    if labels == [] then 0 else (if labels[0] == OUTLIER then 1 else 0) + LabelCount(labels[1..])
  }

  /** The outlier bars among the labelled ones, in their order: one bar per
      outlier label, every one of them, and nothing else. */
  function Outliers(ls: seq<Labelled>): (r: seq<Bar>)
    ensures |r| == OutlierCount(ls)
    ensures forall b | b in r :: Labelled(b, OUTLIER) in ls
    ensures forall j | 0 <= j < |ls| && ls[j].anomalyLabel == OUTLIER :: ls[j].bar in r
    ensures r == [] <==> forall j | 0 <= j < |ls| :: ls[j].anomalyLabel != OUTLIER
  {
    if ls == [] then []
    else
      var rest := Outliers(ls[1..]);
      assert forall j | 1 <= j < |ls| :: ls[j] == ls[1..][j - 1];
      if ls[0].anomalyLabel == OUTLIER then [ls[0].bar] + rest else rest
  }

  /** The filter works piece by piece: the outliers of two stretches laid end
      to end are the outliers of the first followed by those of the second,
      so each outlier appears once, in its original position order. */
  lemma {:induction false} OutliersOfConcat(a: seq<Labelled>, b: seq<Labelled>)
    ensures Outliers(a + b) == Outliers(a) + Outliers(b)
  {
    if a == [] {
      assert a + b == b;
    } else {
      assert (a + b)[1..] == a[1..] + b;
      OutliersOfConcat(a[1..], b);
    }
  }

  /** Labelled bars that carry `labels` hold as many outliers as `labels` does. */
  lemma {:induction false} OutlierCountOfLabels(ls: seq<Labelled>, labels: seq<int>)
    requires |ls| == |labels|
    requires forall j | 0 <= j < |ls| :: ls[j].anomalyLabel == labels[j]
    ensures OutlierCount(ls) == LabelCount(labels)
  {
    if ls != [] {
      OutlierCountOfLabels(ls[1..], labels[1..]);
    }
  }

  /** After the alignment by row, the outliers are exactly the bars whose row
      got the outlier label, one per such label. */
  lemma AlignedOutliers(bars: seq<Bar>, rows: seq<FeatureRow>, labels: seq<int>)
    requires |labels| == |rows|
    requires forall k | 0 <= k < |rows| :: rows[k].index < |bars|
    ensures var os := Outliers(AlignByRow(bars, rows, labels));
      && |os| == LabelCount(labels)
      && forall b :: b in os <==>
           exists k | 0 <= k < |rows| && k < |labels| :: labels[k] == OUTLIER && bars[rows[k].index] == b
  {
    var ls := AlignByRow(bars, rows, labels);
    OutlierCountOfLabels(ls, labels);
    forall b | b in Outliers(ls)
      ensures exists k | 0 <= k < |rows| && k < |labels| :: labels[k] == OUTLIER && bars[rows[k].index] == b
    {
      var k :| 0 <= k < |ls| && ls[k] == Labelled(b, OUTLIER);
    }
  }
}
