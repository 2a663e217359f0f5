/** The per-anomaly distance scoring of dtw.py: `bar_to_vector` and the
    nearest-time search and distance loop of `calc_anomaly_distance`. */
module Dtw {
  import opened Bars

  /** `bar_to_vector`: the bar's seven numeric fields in the order
      open, high, low, close, volume, trade count, volume-weighted price. */
  function BarToVector(b: Bar): (vec: seq<real>)
    ensures |vec| == 7
  {
    [b.o, b.h, b.l, b.c, b.v, b.n, b.vw]
  }

  /** Reads a seven-component vector back as a bar at time `t`. */
  function VectorToBar(t: int, vec: seq<real>): Bar
    requires |vec| == 7
  {
    Bar(t, o := vec[0], h := vec[1], l := vec[2], c := vec[3], v := vec[4], n := vec[5], vw := vec[6])
  }

  /** The vector loses nothing but the time: it reads back as the same bar. */
  lemma VectorRoundTrip(b: Bar)
    ensures VectorToBar(b.t, BarToVector(b)) == b
  {
  }

  lemma BarRoundTrip(t: int, vec: seq<real>)
    requires |vec| == 7
    ensures BarToVector(VectorToBar(t, vec)) == vec
  {
  }

  function Times(bars: seq<Bar>): (ts: seq<int>)
    ensures |ts| == |bars|
    ensures forall i | 0 <= i < |bars| :: ts[i] == bars[i].t
  {
    seq(|bars|, i requires 0 <= i < |bars| => bars[i].t)
  }

  /** `list.index`: the first position holding `t`. */
  function IndexOf(ts: seq<int>, t: int): (k: nat)
    requires t in ts
    ensures k < |ts| && ts[k] == t
    ensures forall i | 0 <= i < k :: ts[i] != t
  {
    if ts[0] == t then 0 else 1 + IndexOf(ts[1..], t)
  }

  /** `min(range(len(ts)), key=lambda i: abs(ts[i] - t))`: a position nearest
      in time to `t`; `min` keeps the first of equal keys, so on a tie the
      smallest position wins. */
  function Nearest(ts: seq<int>, t: int): (k: nat)
    requires ts != []
    ensures k < |ts|
    ensures forall i | 0 <= i < |ts| :: AbsInt(ts[k] - t) <= AbsInt(ts[i] - t)
    ensures forall i | 0 <= i < k :: AbsInt(ts[i] - t) > AbsInt(ts[k] - t)
  {
    if |ts| == 1 then 0
    else
      var last := |ts| - 1;
      var best := Nearest(ts[..last], t);
      assert forall i | 0 <= i < last :: ts[..last][i] == ts[i];
      if AbsInt(ts[last] - t) < AbsInt(ts[best] - t) then last else best
  }

  /** The contract of `Nearest` pins the position down. */
  lemma NearestUnique(ts: seq<int>, t: int, k: nat)
    requires k < |ts|
    requires forall i | 0 <= i < |ts| :: AbsInt(ts[k] - t) <= AbsInt(ts[i] - t)
    requires forall i | 0 <= i < k :: AbsInt(ts[i] - t) > AbsInt(ts[k] - t)
    ensures k == Nearest(ts, t)
  {
    var n := Nearest(ts, t);
    assert AbsInt(ts[n] - t) == AbsInt(ts[k] - t);
  }

  /** A time that is present is its own nearest, and found where `index` finds it. */
  lemma NearestOfPresentTime(ts: seq<int>, t: int)
    requires t in ts
    ensures Nearest(ts, t) == IndexOf(ts, t)
    ensures ts[Nearest(ts, t)] == t
  {
    var k := IndexOf(ts, t);
    NearestUnique(ts, t, k);
  }

  /** The nearest position is the first position holding the time found there. */
  lemma NearestIsFirstOfItsTime(ts: seq<int>, t: int)
    requires ts != []
    ensures IndexOf(ts, ts[Nearest(ts, t)]) == Nearest(ts, t)
  {
  }

  /** One anomaly's score: its time (replaced by the nearest bar's time when
      absent from series 1) and the close-price distance to the nearest bar
      of series 2. */
  datatype EventDistance = EventDistance(time: int, distance: real)

  /** `min` over an empty range raises. */
  datatype ScoreError = EmptySeries

  /** Lines 126-142 for one anomaly time, as a specification. */
  function ScoreEvent(bars1: seq<Bar>, bars2: seq<Bar>, t: int): Result<EventDistance, ScoreError>
  {
    var times1 := Times(bars1);
    if bars1 == [] || bars2 == [] then Failure(EmptySeries)
    else
      var idx := if t in times1 then IndexOf(times1, t) else Nearest(times1, t);
      var time := times1[idx];
      Success(EventDistance(time, Abs(bars1[idx].c - bars2[Nearest(Times(bars2), time)].c)))
  }

  /** What one anomaly's score promises: it fails exactly when a series is
      empty; otherwise the recorded time is a time of series 1, the anomaly's
      own time when series 1 has it, and the distance is the gap between the
      close of the first series-1 bar at that time and the close of the
      series-2 bar nearest to it. */
  lemma ScoreEventFacts(bars1: seq<Bar>, bars2: seq<Bar>, t: int)
    ensures var r := ScoreEvent(bars1, bars2, t);
      && (r.Failure? <==> bars1 == [] || bars2 == [])
      && (r.Success? ==> r.value.time in Times(bars1) && r.value.distance >= 0.0)
      && (r.Success? && t in Times(bars1) ==> r.value.time == t)
      && (r.Success? ==>
            r.value.distance == Abs(bars1[IndexOf(Times(bars1), r.value.time)].c
                                    - bars2[Nearest(Times(bars2), r.value.time)].c))
  {
    if bars1 != [] {
      NearestIsFirstOfItsTime(Times(bars1), t);
    }
  }

  /** Lines 118-142: score every anomaly time in order; the first empty-range
      `min` aborts the whole run. */
  method CalcAnomalyDistance(bars1: seq<Bar>, bars2: seq<Bar>, anomalyTimes: seq<int>)
    returns (r: Result<seq<EventDistance>, ScoreError>)
    ensures r.Failure? <==> anomalyTimes != [] && (bars1 == [] || bars2 == [])
    ensures r.Success? ==> |r.value| == |anomalyTimes|
    ensures r.Success? ==> forall k | 0 <= k < |anomalyTimes| ::
      ScoreEvent(bars1, bars2, anomalyTimes[k]) == Success(r.value[k])
  {
    var times1, prices1 := Times(bars1), seq(|bars1|, i requires 0 <= i < |bars1| => bars1[i].c);
    var times2, prices2 := Times(bars2), seq(|bars2|, i requires 0 <= i < |bars2| => bars2[i].c);
    var anomalyData: seq<EventDistance> := [];
    for j := 0 to |anomalyTimes|
      invariant |anomalyData| == j
      invariant j > 0 ==> bars1 != [] && bars2 != []
      invariant forall k | 0 <= k < j :: ScoreEvent(bars1, bars2, anomalyTimes[k]) == Success(anomalyData[k])
    {
      var anomalyTime := anomalyTimes[j];
      var anomalyIdx: nat;
      if anomalyTime in times1 {
        anomalyIdx := IndexOf(times1, anomalyTime);
      } else {
        if times1 == [] {
          return Failure(EmptySeries);
        }
        var closestTimeIdx := Nearest(times1, anomalyTime);
        anomalyTime := times1[closestTimeIdx];
        anomalyIdx := closestTimeIdx;
      }
      var anomalyPrice := prices1[anomalyIdx];
      if times2 == [] {
        return Failure(EmptySeries);
      }
      var nearestTimeIdx := Nearest(times2, anomalyTime);
      var nearestPrice := prices2[nearestTimeIdx];
      var distance := Abs(anomalyPrice - nearestPrice);
      anomalyData := anomalyData + [EventDistance(anomalyTime, distance)];
    }
    return Success(anomalyData);
  }
}
