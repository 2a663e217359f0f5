/** The reduction of each cluster to one point in `detect_anomalies`
    (anomaly_detection.py): the bar midpoint, the median time rounded to the
    hour and the mean midpoint. */
module EventPoints {
  import opened Bars
  import opened Sorting
  import opened Clustering

  /** How `round("H")` settles a time exactly half-way between two hours.
      pandas rounds such ties to the even hour. */
  datatype TieRule = HalfEven | HalfUp

  /** One anomaly event: a time on the hour and a price magnitude. */
  datatype Point = Point(time: int, magnitude: real)

  const HOUR := 3600

  /** `(h + l) / 2`: the price half-way between the bar's high and low. */
  function Midpoint(b: Bar): (m: real)
    ensures m - b.l == b.h - m
    ensures b.l <= b.h ==> b.l <= m <= b.h
    ensures b.h <= b.l ==> b.h <= m <= b.l
  {
    (b.h + b.l) / 2.0
  }

  /** Rounds a time in seconds to the nearest whole hour since the epoch. */
  function RoundToHour(x: real, tie: TieRule): (r: int)
    ensures r % HOUR == 0
    ensures -1800.0 <= r as real - x <= 1800.0
    ensures r as real - x == 1800.0 || x - r as real == 1800.0 ==>
      match tie
      case HalfUp => r as real > x
      case HalfEven => (r / HOUR) % 2 == 0
  {
    var q := (x / 3600.0).Floor;
    var rem := x - (q * HOUR) as real;
    if rem < 1800.0 then q * HOUR
    else if rem > 1800.0 then (q + 1) * HOUR
    else
      match tie
      case HalfUp => (q + 1) * HOUR
      case HalfEven => if q % 2 == 0 then q * HOUR else (q + 1) * HOUR
  }

  /** No whole hour is nearer to `x` than the rounded one. */
  lemma RoundToHourIsNearest(x: real, tie: TieRule, k: int)
    ensures Abs(RoundToHour(x, tie) as real - x) <= Abs((k * HOUR) as real - x)
  {
    var r := RoundToHour(x, tie);
    var j := r / HOUR;
    assert r == j * HOUR;
    if k != j {
      assert Abs((k * HOUR - r) as real) >= 3600.0;
    }
  }

  function MinOf(xs: seq<real>): (m: real)
    requires xs != []
    ensures m in xs
    ensures forall i | 0 <= i < |xs| :: m <= xs[i]
  {
    if |xs| == 1 then xs[0]
    else
      var rest := MinOf(xs[1..]);
      assert forall i | 1 <= i < |xs| :: xs[i] == xs[1..][i - 1];
      if xs[0] <= rest then xs[0] else rest
  }

  function MaxOf(xs: seq<real>): (m: real)
    requires xs != []
    ensures m in xs
    ensures forall i | 0 <= i < |xs| :: xs[i] <= m
  {
    if |xs| == 1 then xs[0]
    else
      var rest := MaxOf(xs[1..]);
      assert forall i | 1 <= i < |xs| :: xs[i] == xs[1..][i - 1];
      if xs[0] >= rest then xs[0] else rest
  }

  function Sum(xs: seq<real>): real
  {
    if xs == [] then 0.0 else xs[0] + Sum(xs[1..])
  }

  /** A sum of values all within [lo, hi] lies within count * [lo, hi]. */
  lemma {:induction false} SumBounds(xs: seq<real>, lo: real, hi: real)
    requires forall i | 0 <= i < |xs| :: lo <= xs[i] <= hi
    ensures |xs| as real * lo <= Sum(xs) <= |xs| as real * hi
  {
    if xs != [] {
      assert forall i | 0 <= i < |xs| - 1 :: xs[1..][i] == xs[i + 1];
      SumBounds(xs[1..], lo, hi);
      assert |xs| as real * lo == lo + (|xs| - 1) as real * lo;
      assert |xs| as real * hi == hi + (|xs| - 1) as real * hi;
    }
  }

  /** The arithmetic mean, `Series.mean()`. */
  function Mean(xs: seq<real>): (m: real)
    requires xs != []
    ensures MinOf(xs) <= m <= MaxOf(xs)
    ensures |xs| == 1 ==> m == xs[0]
  {
    MeanInRange(xs, MinOf(xs), MaxOf(xs));
    Sum(xs) / |xs| as real
  }

  /** The mean of values within [lo, hi] lies within [lo, hi]. */
  lemma MeanInRange(xs: seq<real>, lo: real, hi: real)
    requires xs != []
    requires forall i | 0 <= i < |xs| :: lo <= xs[i] <= hi
    ensures lo <= Sum(xs) / |xs| as real <= hi
  {
    SumBounds(xs, lo, hi);
    QuotientBetween(Sum(xs), |xs| as real, lo, hi);
  }

  lemma QuotientBetween(s: real, n: real, lo: real, hi: real)
    requires n > 0.0 && n * lo <= s <= n * hi
    ensures lo <= s / n <= hi
  {
  }

  function Identity(x: real): real { x }

  /** How many values lie strictly below `m`. */
  function CountLess(xs: seq<real>, m: real): (n: nat)
    ensures n <= |xs|
  {
    if xs == [] then 0 else (if xs[0] < m then 1 else 0) + CountLess(xs[1..], m)
  }

  /** How many values lie strictly above `m`. */
  function CountGreater(xs: seq<real>, m: real): (n: nat)
    ensures n <= |xs|
  {
    if xs == [] then 0 else (if xs[0] > m then 1 else 0) + CountGreater(xs[1..], m)
  }

  /** Inserting a value changes each count by that value alone. */
  lemma {:induction false} InsertKeepsCounts(x: real, s: seq<real>, m: real)
    requires SortedBy(s, Identity)
    ensures CountLess(Insert(x, s, Identity), m) == (if x < m then 1 else 0) + CountLess(s, m)
    ensures CountGreater(Insert(x, s, Identity), m) == (if x > m then 1 else 0) + CountGreater(s, m)
  {
    if s != [] && x > s[0] {
      var r := Insert(x, s, Identity);
      assert r[1..] == Insert(x, s[1..], Identity);
      InsertKeepsCounts(x, s[1..], m);
    }
  }

  /** Sorting keeps both counts. */
  lemma {:induction false} SortKeepsCounts(xs: seq<real>, m: real)
    ensures CountLess(SortBy(xs, Identity), m) == CountLess(xs, m)
    ensures CountGreater(SortBy(xs, Identity), m) == CountGreater(xs, m)
  {
    if xs != [] {
      SortKeepsCounts(xs[1..], m);
      InsertKeepsCounts(xs[0], SortBy(xs[1..], Identity), m);
    }
  }

  /** When no value from position `p` on lies below `m`, at most `p` do. */
  lemma {:induction false} FewLess(s: seq<real>, m: real, p: nat)
    requires p <= |s|
    requires forall j | p <= j < |s| :: m <= s[j]
    ensures CountLess(s, m) <= p
  {
    if s != [] {
      FewLess(s[1..], m, if p == 0 then 0 else p - 1);
    }
  }

  /** When no value before position `p` lies above `m`, at most `|s| - p` do. */
  lemma {:induction false} FewGreater(s: seq<real>, m: real, p: nat)
    requires p <= |s|
    requires forall j | 0 <= j < p :: s[j] <= m
    ensures CountGreater(s, m) <= |s| - p
  {
    if s != [] {
      FewGreater(s[1..], m, if p == 0 then 0 else p - 1);
    }
  }

  /** A value between the two middle elements of a sorted sequence splits it
      in halves: at most half the values lie below it and at most half above. */
  lemma MiddleSplits(s: seq<real>, m: real)
    requires s != [] && SortedBy(s, Identity)
    requires s[(|s| - 1) / 2] <= m <= s[|s| / 2]
    ensures 2 * CountLess(s, m) <= |s| && 2 * CountGreater(s, m) <= |s|
  {
    var k := |s|;
    FewLess(s, m, k / 2);
    FewGreater(s, m, (k - 1) / 2 + 1);
  }

  /** A rearrangement of `xs` stays within the least and greatest value of
      `xs`, and a one-value sequence has only itself as rearrangement. */
  lemma RearrangedWithinBounds(xs: seq<real>, s: seq<real>)
    requires xs != [] && multiset(s) == multiset(xs)
    ensures forall i | 0 <= i < |s| :: MinOf(xs) <= s[i] <= MaxOf(xs)
    ensures |xs| == 1 ==> s == xs
  {
    forall i | 0 <= i < |s| ensures MinOf(xs) <= s[i] <= MaxOf(xs) {
      assert s[i] in multiset(xs);
    }
    if |xs| == 1 {
      assert s[0] in multiset(xs);
    }
  }

  /** A value between the two middle elements of `xs` in sorted order splits
      `xs` in halves and lies within its range. */
  lemma MiddleOfSorted(xs: seq<real>, m: real)
    requires xs != []
    requires var s := SortBy(xs, Identity); s[(|s| - 1) / 2] <= m <= s[|s| / 2]
    ensures 2 * CountLess(xs, m) <= |xs| && 2 * CountGreater(xs, m) <= |xs|
    ensures MinOf(xs) <= m <= MaxOf(xs)
  {
    var s := SortBy(xs, Identity);
    RearrangedWithinBounds(xs, s);
    MiddleSplits(s, m);
    SortKeepsCounts(xs, m);
  }

  /** `Series.median()`: the middle value in sorted order, or the average of
      the two middle values when the count is even. At most half the values
      lie below it and at most half above it. */
  function Median(xs: seq<real>): (m: real)
    requires xs != []
    ensures 2 * CountLess(xs, m) <= |xs| && 2 * CountGreater(xs, m) <= |xs|
    ensures MinOf(xs) <= m <= MaxOf(xs)
    ensures |xs| == 1 ==> m == xs[0]
  {
    var s := SortBy(xs, Identity);
    var k := |s|;
    var lo, hi := s[(k - 1) / 2], s[k / 2];
    var m := if k % 2 == 1 then hi else (lo + hi) / 2.0;
    MiddleOfSorted(xs, m);
    if k == 1 then RearrangedWithinBounds(xs, s); m else m
  }

  function ClusterTimes(c: seq<Bar>): (ts: seq<real>)
    ensures |ts| == |c|
    ensures forall j | 0 <= j < |c| :: ts[j] == c[j].t as real
  {
    seq(|c|, j requires 0 <= j < |c| => c[j].t as real)
  }

  function ClusterMidpoints(c: seq<Bar>): (ms: seq<real>)
    ensures |ms| == |c|
    ensures forall j | 0 <= j < |c| :: ms[j] == Midpoint(c[j])
  {
    seq(|c|, j requires 0 <= j < |c| => Midpoint(c[j]))
  }

  /** Lines 88-91: the cluster's median time rounded to the hour, and the mean
      of its members' midpoints. The time is on the hour and within half an
      hour of the cluster's time span; the magnitude lies between the smallest
      and largest midpoint; a lone bar gives its own rounded time and midpoint. */
  function ClusterPoint(c: seq<Bar>, tie: TieRule): (p: Point)
    requires c != []
    ensures p.time % HOUR == 0
    ensures MinOf(ClusterTimes(c)) - 1800.0 <= p.time as real <= MaxOf(ClusterTimes(c)) + 1800.0
    ensures MinOf(ClusterMidpoints(c)) <= p.magnitude <= MaxOf(ClusterMidpoints(c))
    ensures |c| == 1 ==> p == Point(RoundToHour(c[0].t as real, tie), Midpoint(c[0]))
  {
    Point(RoundToHour(Median(ClusterTimes(c)), tie), Mean(ClusterMidpoints(c)))
  }

  /** Lines 86-91: one point per cluster, in cluster order. */
  function Points(cs: seq<seq<Bar>>, tie: TieRule): (ps: seq<Point>)
    requires NonEmptyParts(cs)
    ensures |ps| == |cs|
    ensures forall k | 0 <= k < |cs| :: ps[k] == ClusterPoint(cs[k], tie)
  {
    seq(|cs|, k requires 0 <= k < |cs| => ClusterPoint(cs[k], tie))
  }
}
