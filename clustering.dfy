/** The 24-hour grouping loop of `detect_anomalies` (anomaly_detection.py):
    consecutive outlier bars no further apart than the merge window share a
    cluster; a larger gap starts a new one. */
module Clustering {
  import opened Bars

  /** `pd.Timedelta(hours=24)` in seconds. */
  const MERGE_WINDOW := 24 * 3600

  function Last<T>(xs: seq<T>): T
    requires xs != []
  {
    xs[|xs| - 1]
  }

  /** The clusters laid end to end. */
  function Flatten(cs: seq<seq<Bar>>): seq<Bar>
  {
    if cs == [] then [] else cs[0] + Flatten(cs[1..])
  }

  predicate NonEmptyParts(cs: seq<seq<Bar>>)
  {
    forall k | 0 <= k < |cs| :: cs[k] != []
  }

  /** Each member is at most `gap` seconds after the member before it. */
  predicate Chained(c: seq<Bar>, gap: int)
  {
    forall j | 0 <= j < |c| - 1 :: c[j + 1].t - c[j].t <= gap
  }

  /** Each cluster starts more than `gap` seconds after the previous one ends. */
  predicate Separated(cs: seq<seq<Bar>>, gap: int)
    requires NonEmptyParts(cs)
  {
    forall k | 0 <= k < |cs| - 1 :: cs[k + 1][0].t - Last(cs[k]).t > gap
  }

  /** `cs` splits `rows`, in order, exactly at the gaps larger than `gap`. */
  predicate IsGapPartition(cs: seq<seq<Bar>>, rows: seq<Bar>, gap: int)
  {
    && Flatten(cs) == rows
    && NonEmptyParts(cs)
    && (forall k | 0 <= k < |cs| :: Chained(cs[k], gap))
    && Separated(cs, gap)
  }

  lemma {:induction false} FlattenAppend(cs: seq<seq<Bar>>, c: seq<Bar>)
    ensures Flatten(cs + [c]) == Flatten(cs) + c
  {
    if cs != [] {
      assert (cs + [c])[1..] == cs[1..] + [c];
      FlattenAppend(cs[1..], c);
    }
  }

  /** A reference definition of the grouping, by recursion from the front. */
  function GroupByGap(rows: seq<Bar>, gap: int): (cs: seq<seq<Bar>>)
    ensures IsGapPartition(cs, rows, gap)
    ensures cs == [] <==> rows == []
  {
    if |rows| <= 1 then
      assert Flatten([rows]) == rows + Flatten([]);
      if rows == [] then [] else [rows]
    else
      var rest := GroupByGap(rows[1..], gap);
      PrependKeepsPartition(rows[0], rest, rows[1..], gap);
      assert [rows[0]] + rows[1..] == rows;
      if rows[1].t - rows[0].t <= gap then [[rows[0]] + rest[0]] + rest[1..]
      else [[rows[0]]] + rest
  }

  /** A row put in front of a gap partition either joins its first cluster or
      forms a cluster of its own, according to the gap to the first row. */
  lemma PrependKeepsPartition(row: Bar, rest: seq<seq<Bar>>, tail: seq<Bar>, gap: int)
    requires IsGapPartition(rest, tail, gap) && tail != []
    ensures rest != [] && rest[0] != [] && rest[0][0] == tail[0]
    ensures tail[0].t - row.t <= gap ==>
      IsGapPartition([[row] + rest[0]] + rest[1..], [row] + tail, gap)
    ensures tail[0].t - row.t > gap ==>
      IsGapPartition([[row]] + rest, [row] + tail, gap)
  {
    assert rest[0] + Flatten(rest[1..]) == tail;
    var joined := [[row] + rest[0]] + rest[1..];
    assert joined[1..] == rest[1..];
    var split := [[row]] + rest;
    assert split[1..] == rest;
  }

  /** The first cluster of a gap partition is a prefix of the rows whose
      internal gaps are small, followed by a large gap unless it is all the
      rows; the other clusters partition what follows it. */
  lemma FirstCluster(cs: seq<seq<Bar>>, rows: seq<Bar>, gap: int)
    requires IsGapPartition(cs, rows, gap) && cs != []
    ensures 0 < |cs[0]| <= |rows| && cs[0] == rows[..|cs[0]|]
    ensures forall j | 0 < j < |cs[0]| :: rows[j].t - rows[j - 1].t <= gap
    ensures |cs[0]| < |rows| ==> rows[|cs[0]|].t - rows[|cs[0]| - 1].t > gap
    ensures IsGapPartition(cs[1..], rows[|cs[0]|..], gap)
  {
    var m := |cs[0]|;
    assert rows == cs[0] + Flatten(cs[1..]);
    assert forall j | 0 <= j < m :: rows[j] == cs[0][j];
    if m < |rows| {
      assert cs[1..] != [];
      assert Flatten(cs[1..]) == cs[1] + Flatten(cs[2..]);
      assert rows[m] == cs[1][0];
    }
  }

  /** The contract of the grouping determines it: two gap partitions of the
      same rows are equal. */
  lemma {:induction false} PartitionUnique(a: seq<seq<Bar>>, b: seq<seq<Bar>>, rows: seq<Bar>, gap: int)
    requires IsGapPartition(a, rows, gap) && IsGapPartition(b, rows, gap)
    ensures a == b
    decreases |rows|
  {
    if a != [] {
      FirstCluster(a, rows, gap);
    }
    if b != [] {
      FirstCluster(b, rows, gap);
    }
    if rows != [] {
      assert a != [] && b != [];
      var m := |a[0]|;
      assert m == |b[0]|;
      PartitionUnique(a[1..], b[1..], rows[m..], gap);
      assert a == [a[0]] + a[1..];
      assert b == [b[0]] + b[1..];
    }
  }

  /** What the loop of lines 73-81 keeps: the closed clusters and the current
      one lay out the rows seen so far, and would form a gap partition of them
      if the current cluster were closed now. */
  predicate Building(clusters: seq<seq<Bar>>, current: seq<Bar>, seen: seq<Bar>, gap: int)
  {
    && Flatten(clusters) + current == seen
    && NonEmptyParts(clusters)
    && (forall k | 0 <= k < |clusters| :: Chained(clusters[k], gap))
    && Separated(clusters, gap)
    && Chained(current, gap)
    && (current == [] ==> clusters == [])
    && (clusters != [] ==> current[0].t - Last(Last(clusters)).t > gap)
  }

  /** One iteration of the loop keeps the invariant: the first row opens the
      first cluster, a row at most `gap` after the current cluster's last member
      joins it, and a row further away closes it and starts a new one. */
  lemma StepKeepsBuilding(clusters: seq<seq<Bar>>, current: seq<Bar>, rows: seq<Bar>, i: nat, gap: int)
    requires i < |rows| && Building(clusters, current, rows[..i], gap)
    ensures current == [] ==> Building([], [rows[i]], rows[..i + 1], gap)
    ensures current != [] && rows[i].t - Last(current).t <= gap ==>
      Building(clusters, current + [rows[i]], rows[..i + 1], gap)
    ensures current != [] && rows[i].t - Last(current).t > gap ==>
      Building(clusters + [current], [rows[i]], rows[..i + 1], gap)
  {
    assert rows[..i + 1] == rows[..i] + [rows[i]];
    FlattenAppend(clusters, current);
  }

  /** Closing the current cluster at the end yields a gap partition. */
  lemma CloseLast(clusters: seq<seq<Bar>>, current: seq<Bar>, seen: seq<Bar>, gap: int)
    requires Building(clusters, current, seen, gap)
    ensures IsGapPartition(if current == [] then clusters else clusters + [current], seen, gap)
  {
    FlattenAppend(clusters, current);
  }

  /** The loop of lines 70-84: one pass that extends the current cluster or
      closes it and starts a new one. */
  method ClusterByGap(rows: seq<Bar>, gap: int) returns (clusters: seq<seq<Bar>>)
    ensures IsGapPartition(clusters, rows, gap)
    ensures clusters == GroupByGap(rows, gap)
  {
    clusters := [];
    var current: seq<Bar> := [];
    for i := 0 to |rows|
      invariant Building(clusters, current, rows[..i], gap)
    {
      StepKeepsBuilding(clusters, current, rows, i, gap);
      var row := rows[i];
      if current == [] {
        current := [row];
      } else if row.t - Last(current).t <= gap {
        current := current + [row];
      } else {
        clusters := clusters + [current];
        current := [row];
      }
    }
    assert rows[..|rows|] == rows;
    CloseLast(clusters, current, rows, gap);
    if current != [] {
      clusters := clusters + [current];
    }
    GroupByGapIsTheOnly(clusters, rows, gap);
  }

  lemma GroupByGapIsTheOnly(cs: seq<seq<Bar>>, rows: seq<Bar>, gap: int)
    requires IsGapPartition(cs, rows, gap)
    ensures cs == GroupByGap(rows, gap)
  {
    PartitionUnique(cs, GroupByGap(rows, gap), rows, gap);
  }

  /** The boundary of the merge window is inclusive: two bars land in one
      cluster exactly when the later is at most `gap` seconds after the earlier. */
  lemma TwoBarsShareClusterIff(a: Bar, b: Bar, gap: int)
    ensures |GroupByGap([a, b], gap)| == 1 <==> b.t - a.t <= gap
  {
    var cs := GroupByGap([a, b], gap);
    FirstCluster(cs, [a, b], gap);
    if |cs[0]| == 1 {
      FirstCluster(cs[1..], [b], gap);
      assert cs[1..] != [];
    }
  }
}
