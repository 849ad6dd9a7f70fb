/**
 Latency figures of a device over raw probes and rollups alike (backend/app/api/health.py, _latency_stats).
 */
module Latency {
  import opened Wrappers
  import opened Rounding

  /** The latency part of a telemetry point; `count` says how many probes were measured. */
  datatype Point = Point(
    count: nat, low: Option<real>, average: Option<real>, high: Option<real>, jitterSum: real, jitterCount: nat, raw: bool)

  datatype Figures = Figures(low: real, average: real, high: real, jitter: real)

  datatype Stats = Stats(current: Option<real>, figures: Option<Figures>, sparkline: seq<Option<real>>)

  /** What the telemetry stores for a point with measurements: its figures are in order. */
  predicate Measured(p: Point) {
    && p.count > 0 && p.low.Some? && p.average.Some? && p.high.Some?
    && p.low.value <= p.average.value <= p.high.value
  }

  predicate Sound(points: seq<Point>) {
    forall i :: 0 <= i < |points| && points[i].count > 0 ==> Measured(points[i])
  }

  predicate AllMeasured(points: seq<Point>) {
    forall i :: 0 <= i < |points| ==> Measured(points[i])
  }

  /** The points with measurements, in order. */
  function Measurements(points: seq<Point>): (measured: seq<Point>)
    ensures forall p :: p in measured <==> p in points && p.count > 0
  {
    if points == [] then []
    else
      var n := |points| - 1;
      assert points == points[..n] + [points[n]];
      Measurements(points[..n]) + if points[n].count > 0 then [points[n]] else []
  }

  lemma LastMeasurement(points: seq<Point>)
    ensures points == [] ==> Measurements(points) == []
    ensures points != [] ==>
              var n := |points| - 1;
              Measurements(points) == Measurements(points[..n]) + if points[n].count > 0 then [points[n]] else []
  {
  }

  /** Point by point, in order: those without measurements are left out. */
  lemma {:induction false} MeasurementsJoined(a: seq<Point>, b: seq<Point>)
    ensures Measurements(a + b) == Measurements(a) + Measurements(b)
    ensures |b| == 1 ==> Measurements(b) == if b[0].count > 0 then b else []
  {
    hide Measurements;
    LastMeasurement(a + b);
    LastMeasurement(b);
    if b == [] {
      assert a + b == a;
    } else {
      var n := |b| - 1;
      assert (a + b)[..|a| + n] == a + b[..n] && (a + b)[|a| + n] == b[n];
      MeasurementsJoined(a, b[..n]);
      if n == 0 {
        LastMeasurement(b[..n]);
        assert [b[0]] == b;
      }
    }
  }

  // ---------------------------------------------------------------- least, greatest and weighted mean

  function Lowest(measured: seq<Point>): (low: real)
    requires measured != [] && AllMeasured(measured)
    ensures forall i :: 0 <= i < |measured| ==> low <= measured[i].low.value
    ensures exists i :: 0 <= i < |measured| && measured[i].low.value == low
  {
    var n := |measured| - 1;
    var last := measured[n].low.value;
    if n == 0 then last
    else
      assert measured == measured[..n] + [measured[n]];
      var before := Lowest(measured[..n]);
      if last < before then last else before
  }

  function Highest(measured: seq<Point>): (high: real)
    requires measured != [] && AllMeasured(measured)
    ensures forall i :: 0 <= i < |measured| ==> measured[i].high.value <= high
    ensures exists i :: 0 <= i < |measured| && measured[i].high.value == high
  {
    var n := |measured| - 1;
    var last := measured[n].high.value;
    if n == 0 then last
    else
      assert measured == measured[..n] + [measured[n]];
      var before := Highest(measured[..n]);
      if before < last then last else before
  }

  function Probes(measured: seq<Point>): (total: nat)
    requires AllMeasured(measured)
    ensures measured != [] ==> total > 0
  {
    if measured == [] then 0
    else
      assert Measured(measured[|measured| - 1]);
      Probes(measured[..|measured| - 1]) + measured[|measured| - 1].count
  }

  function Weighted(measured: seq<Point>): real
    requires AllMeasured(measured)
  {
    if measured == [] then 0.0
    else
      var last := measured[|measured| - 1];
      Weighted(measured[..|measured| - 1]) + Times(last.average.value, last.count)
  }

  function Mean(measured: seq<Point>): real
    requires measured != [] && AllMeasured(measured)
  {
    Weighted(measured) / Probes(measured) as real
  }

  /** All latencies lie between two values. */
  predicate Within(measured: seq<Point>, low: real, high: real)
    requires AllMeasured(measured)
  {
    forall i :: 0 <= i < |measured| ==> low <= measured[i].low.value && measured[i].high.value <= high
  }

  function Times(x: real, n: nat): real {
    x * n as real
  }

  lemma TimesSum(x: real, m: nat, n: nat)
    ensures Times(x, m + n) == Times(x, m) + Times(x, n)
  {
  }

  lemma TimesOrder(x: real, y: real, n: nat)
    requires x <= y
    ensures Times(x, n) <= Times(y, n)
  {
    assert (y - x) * n as real >= 0.0;
  }

  lemma Between(x: real, y: real, n: nat)
    requires n > 0
    ensures Times(x, n) <= y ==> x <= y / n as real
    ensures y <= Times(x, n) ==> y / n as real <= x
  {
    var q := y / n as real;
    assert q * n as real == y;
    if x > q {
      assert (x - q) * n as real > 0.0;
    }
    if x < q {
      assert (q - x) * n as real > 0.0;
    }
  }

  lemma {:induction false} WeightedWithin(measured: seq<Point>, low: real, high: real)
    requires AllMeasured(measured) && Within(measured, low, high)
    ensures Times(low, Probes(measured)) <= Weighted(measured) <= Times(high, Probes(measured))
  {
    hide Times;
    if measured == [] {
      TimesSum(low, 0, 0);
      TimesSum(high, 0, 0);
    } else {
      var n := |measured| - 1;
      WeightedWithin(measured[..n], low, high);
      AddWithin(low, high, Weighted(measured[..n]), Probes(measured[..n]), measured[n].average.value, measured[n].count);
    }
  }

  lemma AddWithin(low: real, high: real, sum: real, m: nat, x: real, n: nat)
    requires Times(low, m) <= sum <= Times(high, m) && low <= x <= high
    ensures Times(low, m + n) <= sum + Times(x, n) <= Times(high, m + n)
  {
    hide Times;
    TimesOrder(low, x, n);
    TimesOrder(x, high, n);
    TimesSum(low, m, n);
    TimesSum(high, m, n);
  }

  lemma MeanWithin(measured: seq<Point>)
    requires measured != [] && AllMeasured(measured)
    ensures Lowest(measured) <= Mean(measured) <= Highest(measured)
  {
    var low, high := Lowest(measured), Highest(measured);
    WithinRange(measured);
    hide Times, Lowest, Highest, Weighted, Probes, AllMeasured;
    WeightedWithin(measured, low, high);
    Between(low, Weighted(measured), Probes(measured));
    Between(high, Weighted(measured), Probes(measured));
  }

  lemma WithinRange(measured: seq<Point>)
    requires measured != [] && AllMeasured(measured)
    ensures Within(measured, Lowest(measured), Highest(measured)) && Lowest(measured) <= Highest(measured)
  {
    assert Measured(measured[0]);
  }

  /** The mean of points with one average is that average, however many probes are behind each of them. */
  lemma MeanOfEqual(measured: seq<Point>, average: real)
    requires measured != [] && AllMeasured(measured)
    requires forall i :: 0 <= i < |measured| ==> measured[i].average == Some(average)
    ensures Mean(measured) == average
  {
    hide Times, Weighted, Probes, AllMeasured;
    WeightedEqual(measured, average);
    Between(average, Weighted(measured), Probes(measured));
  }

  lemma {:induction false} WeightedEqual(measured: seq<Point>, average: real)
    requires AllMeasured(measured) && forall i :: 0 <= i < |measured| ==> measured[i].average == Some(average)
    ensures Weighted(measured) == Times(average, Probes(measured))
  {
    hide Times;
    if measured == [] {
      TimesSum(average, 0, 0);
    } else {
      var n := |measured| - 1;
      WeightedEqual(measured[..n], average);
      TimesSum(average, Probes(measured[..n]), measured[n].count);
    }
  }

  /** Points joined have the mean of their means, each weighted by its probes. */
  lemma MeanOfJoined(a: seq<Point>, b: seq<Point>)
    requires a != [] && b != [] && AllMeasured(a) && AllMeasured(b)
    ensures AllMeasured(a + b) && Probes(a + b) == Probes(a) + Probes(b)
    ensures Times(Mean(a + b), Probes(a + b)) == Times(Mean(a), Probes(a)) + Times(Mean(b), Probes(b))
  {
    assert AllMeasured(a + b);
    WeightedJoined(a, b);
    hide Weighted, Probes, AllMeasured;
    MeanTimes(a);
    MeanTimes(b);
    MeanTimes(a + b);
  }

  lemma MeanTimes(measured: seq<Point>)
    requires measured != [] && AllMeasured(measured)
    ensures Times(Mean(measured), Probes(measured)) == Weighted(measured)
  {
    hide Weighted, Probes, AllMeasured;
    Divided(Weighted(measured), Probes(measured));
  }

  lemma Divided(x: real, n: nat)
    requires n > 0
    ensures Times(x / n as real, n) == x
  {
  }

  lemma {:induction false} WeightedJoined(a: seq<Point>, b: seq<Point>)
    requires AllMeasured(a) && AllMeasured(b) && AllMeasured(a + b)
    ensures Weighted(a + b) == Weighted(a) + Weighted(b) && Probes(a + b) == Probes(a) + Probes(b)
  {
    hide Times;
    if b == [] {
      assert a + b == a;
    } else {
      var n := |b| - 1;
      assert (a + b)[..|a| + n] == a + b[..n] && (a + b)[|a| + n] == b[n];
      WeightedJoined(a, b[..n]);
    }
  }

  // ---------------------------------------------------------------- jitter

  function Abs(x: real): real {
    if x < 0.0 then -x else x
  }

  function RollupJitter(measured: seq<Point>): (total: (real, nat)) {
    if measured == [] then (0.0, 0)
    else
      var n := |measured| - 1;
      var before := RollupJitter(measured[..n]);
      if measured[n].raw then before
      else (before.0 + measured[n].jitterSum, before.1 + measured[n].jitterCount)
  }

  /** The latencies of the raw probes, in order. */
  function RawLatencies(measured: seq<Point>): (latencies: seq<real>)
    requires AllMeasured(measured)
  {
    if measured == [] then []
    else
      var n := |measured| - 1;
      assert measured == measured[..n] + [measured[n]];
      RawLatencies(measured[..n]) + if measured[n].raw then [measured[n].average.value] else []
  }

  /** The sum of the differences between neighbours. */
  function Steps(xs: seq<real>): real {
    if |xs| < 2 then 0.0 else Steps(xs[..|xs| - 1]) + Abs(xs[|xs| - 1] - xs[|xs| - 2])
  }

  function StepCount(xs: seq<real>): nat {
    if |xs| < 2 then 0 else |xs| - 1
  }

  function JitterTotal(measured: seq<Point>): (real, nat)
    requires AllMeasured(measured)
  {
    var rollups, latencies := RollupJitter(measured), RawLatencies(measured);
    (rollups.0 + Steps(latencies), rollups.1 + StepCount(latencies))
  }

  function Jitter(measured: seq<Point>): real
    requires AllMeasured(measured)
  {
    var (sum, count) := JitterTotal(measured);
    if count > 0 then Round1(sum / count as real) else 0.0
  }

  lemma {:induction false} RawWithin(measured: seq<Point>, low: real, high: real)
    requires AllMeasured(measured) && Within(measured, low, high)
    ensures forall k :: 0 <= k < |RawLatencies(measured)| ==> low <= RawLatencies(measured)[k] <= high
  {
    if measured != [] {
      RawWithin(measured[..|measured| - 1], low, high);
    }
  }

  lemma {:induction false} StepsWithin(xs: seq<real>, low: real, high: real)
    requires low <= high && forall k :: 0 <= k < |xs| ==> low <= xs[k] <= high
    ensures 0.0 <= Steps(xs) <= Times(high - low, StepCount(xs))
  {
    hide Times;
    if |xs| < 2 {
      TimesSum(high - low, 0, 0);
    } else {
      var n := |xs| - 1;
      StepsWithin(xs[..n], low, high);
      var last := Abs(xs[n] - xs[n - 1]);
      assert Steps(xs) == Steps(xs[..n]) + last && 0.0 <= last <= high - low;
      TimesSum(high - low, n - 1, 1);
      TimesOne(high - low);
    }
  }

  /** The jitter sums of the rollups add up differences between latencies of their own range. */
  ghost predicate JitterFits(measured: seq<Point>)
    requires AllMeasured(measured)
  {
    forall i :: 0 <= i < |measured| && !measured[i].raw ==>
      0.0 <= measured[i].jitterSum <= Times(measured[i].high.value - measured[i].low.value, measured[i].jitterCount)
  }

  lemma {:induction false} RollupsWithin(measured: seq<Point>, low: real, high: real)
    requires AllMeasured(measured) && low <= high && Within(measured, low, high) && JitterFits(measured)
    ensures 0.0 <= RollupJitter(measured).0 <= Times(high - low, RollupJitter(measured).1)
  {
    hide Times;
    if measured == [] {
      TimesSum(high - low, 0, 0);
    } else {
      var n := |measured| - 1;
      var last := measured[n];
      RollupsWithin(measured[..n], low, high);
      if !last.raw {
        TimesOrder(last.high.value - last.low.value, high - low, last.jitterCount);
        TimesSum(high - low, RollupJitter(measured[..n]).1, last.jitterCount);
      }
    }
  }

  lemma TimesOne(x: real)
    ensures Times(x, 1) == x
  {
  }

  lemma RoundedRatio(sum: real, count: nat, range: real)
    requires count > 0 && 0.0 <= sum <= Times(range, count)
    ensures 0.0 <= Round1(sum / count as real) <= Round1(range)
  {
    Between(0.0, sum, count);
    Between(range, sum, count);
    Round1Whole(0);
    Round1Monotone(0.0, sum / count as real);
    Round1Monotone(sum / count as real, range);
  }

  /** The jitter is never more than the range of the latencies. */
  lemma JitterWithin(measured: seq<Point>)
    requires measured != [] && AllMeasured(measured) && JitterFits(measured)
    ensures 0.0 <= Jitter(measured) <= Round1(Highest(measured) - Lowest(measured))
  {
    hide Lowest, Highest, RollupJitter, RawLatencies, Steps, StepCount, Round1, AllMeasured, Within, Times;
    var low, high := Lowest(measured), Highest(measured);
    WithinRange(measured);
    var latencies := RawLatencies(measured);
    RollupsWithin(measured, low, high);
    RawWithin(measured, low, high);
    StepsWithin(latencies, low, high);
    var (sum, count) := JitterTotal(measured);
    TimesSum(high - low, RollupJitter(measured).1, StepCount(latencies));
    if count > 0 {
      RoundedRatio(sum, count, high - low);
    } else {
      Round1Whole(0);
      Round1Monotone(0.0, high - low);
    }
  }

  /** Between two runs of probes their last and first values are neighbours as well. */
  lemma {:induction false} StepsJoined(xs: seq<real>, ys: seq<real>)
    requires xs != [] && ys != []
    ensures var gap := ys[0] - xs[|xs| - 1];
            Steps(xs + ys) == Steps(xs) + (if gap < 0.0 then -gap else gap) + Steps(ys)
  {
    var n := |ys| - 1;
    assert (xs + ys)[..|xs| + n] == xs + ys[..n];
    if n > 0 {
      StepsJoined(xs, ys[..n]);
    } else {
      assert xs + ys[..n] == xs;
    }
  }

  /** Raw probes that rise all the time jitter by the way from the first to the last. */
  lemma {:induction false} StepsOfRising(xs: seq<real>)
    requires xs != [] && forall i :: 0 < i < |xs| ==> xs[i - 1] <= xs[i]
    ensures Steps(xs) == xs[|xs| - 1] - xs[0]
  {
    if |xs| > 1 {
      StepsOfRising(xs[..|xs| - 1]);
    }
  }

  lemma {:induction false} RollupsEqual(measured: seq<Point>, jitter: real)
    requires forall i :: 0 <= i < |measured| && !measured[i].raw ==> measured[i].jitterSum == Times(jitter, measured[i].jitterCount)
    ensures RollupJitter(measured).0 == Times(jitter, RollupJitter(measured).1)
  {
    hide Times;
    if measured == [] {
      TimesSum(jitter, 0, 0);
    } else {
      var n := |measured| - 1;
      RollupsEqual(measured[..n], jitter);
      TimesSum(jitter, RollupJitter(measured[..n]).1, measured[n].jitterCount);
    }
  }

  lemma {:induction false} RawOnly(measured: seq<Point>)
    requires AllMeasured(measured) && forall i :: 0 <= i < |measured| ==> measured[i].raw
    ensures RollupJitter(measured) == (0.0, 0)
    ensures |RawLatencies(measured)| == |measured|
    ensures forall i :: 0 <= i < |measured| ==> RawLatencies(measured)[i] == measured[i].average.value
  {
    if measured != [] {
      RawOnly(measured[..|measured| - 1]);
    }
  }

  lemma {:induction false} RollupsOnly(measured: seq<Point>)
    requires AllMeasured(measured) && forall i :: 0 <= i < |measured| ==> !measured[i].raw
    ensures RawLatencies(measured) == []
  {
    if measured != [] {
      RollupsOnly(measured[..|measured| - 1]);
    }
  }

  /** Joined, rollups and raw probes go on counting where they were, whatever stands between them. */
  lemma {:induction false} JitterJoined(a: seq<Point>, b: seq<Point>)
    requires AllMeasured(a) && AllMeasured(b) && AllMeasured(a + b)
    ensures RollupJitter(a + b) == (RollupJitter(a).0 + RollupJitter(b).0, RollupJitter(a).1 + RollupJitter(b).1)
    ensures RawLatencies(a + b) == RawLatencies(a) + RawLatencies(b)
  {
    if b == [] {
      assert a + b == a;
    } else {
      var n := |b| - 1;
      assert (a + b)[..|a| + n] == a + b[..n] && (a + b)[|a| + n] == b[n];
      JitterJoined(a, b[..n]);
    }
  }

  /** Rollups with one jitter have that jitter together; two probes have their difference; one probe has none. */
  lemma JitterOfFew(measured: seq<Point>, jitter: real)
    requires measured != [] && AllMeasured(measured)
    ensures |measured| == 1 && measured[0].raw ==> Jitter(measured) == 0.0
    ensures |measured| == 2 && measured[0].raw && measured[1].raw ==>
              var gap := measured[1].average.value - measured[0].average.value;
              Jitter(measured) == Round1(if gap < 0.0 then -gap else gap)
    ensures && (forall i :: 0 <= i < |measured| ==> !measured[i].raw)
            && (forall i :: 0 <= i < |measured| ==> measured[i].jitterSum == Times(jitter, measured[i].jitterCount)) ==>
              RollupJitter(measured).1 > 0 ==> Jitter(measured) == Round1(jitter)
  {
    hide Round1, Times, RollupJitter, RawLatencies, AllMeasured;
    if forall i :: 0 <= i < |measured| ==> measured[i].raw {
      RawOnly(measured);
      assert |measured| == 2 ==> Steps(RawLatencies(measured)[..1]) == 0.0;
      if |measured| == 2 {
        HalfOf(Steps(RawLatencies(measured)));
      }
    }
    if forall i :: 0 <= i < |measured| ==> !measured[i].raw {
      RollupsOnly(measured);
      if forall i :: 0 <= i < |measured| ==> measured[i].jitterSum == Times(jitter, measured[i].jitterCount) {
        RollupsEqual(measured, jitter);
        if RollupJitter(measured).1 > 0 {
          Between(jitter, RollupJitter(measured).0, RollupJitter(measured).1);
        }
      }
    }
  }

  lemma HalfOf(x: real)
    ensures x / 1 as real == x
  {
  }

  // ---------------------------------------------------------------- the curve

  function Step(n: nat): (step: nat)
    ensures step >= 1
  {
    if n / 20 > 1 then n / 20 else 1
  }

  /** How many points a walk in steps visits. */
  function Visited(n: nat): nat {
    (n + Step(n) - 1) / Step(n)
  }

  /** The first visit that is shown: only the last 20 are. */
  function FirstShown(n: nat): nat {
    if Visited(n) > 20 then Visited(n) - 20 else 0
  }

  lemma VisitInRange(n: nat, j: nat)
    ensures j < Visited(n) <==> j * Step(n) < n
  {
    Rounded(n, Step(n), j);
  }

  lemma Rounded(n: nat, step: nat, j: nat)
    requires step >= 1
    ensures j < (n + step - 1) / step <==> j * step < n
  {
    var q, r := (n + step - 1) / step, (n + step - 1) % step;
    assert q * step + r == n + step - 1;
    if j < q {
      assert (j + 1) * step <= q * step by { Ordered(j + 1, q, step); }
      assert (j + 1) * step == j * step + step;
    } else {
      assert q * step <= j * step by { Ordered(q, j, step); }
    }
  }

  lemma Ordered(a: nat, b: nat, step: nat)
    requires a <= b
    ensures a * step <= b * step
  {
    assert (b - a) * step >= 0;
  }

  function Sparkline(points: seq<Point>): seq<Option<real>> {
    var n := |points|;
    seq(Visited(n) - FirstShown(n), j requires 0 <= j < Visited(n) - FirstShown(n) =>
      (VisitInRange(n, FirstShown(n) + j); points[(FirstShown(n) + j) * Step(n)].average))
  }

  /** The curve has 20 values, or one per point if there are fewer points. */
  lemma SparklineLength(points: seq<Point>)
    ensures |Sparkline(points)| == if |points| < 20 then |points| else 20
  {
    var n := |points|;
    if n >= 20 {
      assert 20 * (n / 20) <= n;
      VisitInRange(n, 19);
    }
  }

  /** It reaches back to the first point only if there are few points or their number is a multiple of 20. */
  lemma SparklineReach(n: nat)
    ensures FirstShown(n) == 0 <==> n < 20 || n % 20 == 0
    ensures n >= 20 ==> n % 20 <= FirstShown(n) * Step(n) < n % 20 + Step(n)
  {
    var step, k := Step(n), Visited(n);
    TwentySteps(n);
    hide Step, Visited;
    if n < 20 {
      VisitInRange(n, 20);
    } else {
      VisitInRange(n, 19);
      VisitInRange(n, k);
      VisitInRange(n, k - 1);
      assert FirstShown(n) == k - 20;
      Offset(k, 20, step);
      Offset(k - 1, 20, step);
    }
  }

  lemma TwentySteps(n: nat)
    ensures n >= 20 ==> n == 20 * Step(n) + n % 20
    ensures n < 20 ==> Step(n) == 1
  {
  }

  lemma Offset(k: int, m: int, step: int)
    ensures (k - m) * step == k * step - m * step
  {
  }

  /**
   The values of the curve are one step apart, on multiples of the step, and the last one comes from the last step:
   value j counted from the end comes from the j-th step before the end.
   */
  lemma SparklineSpaced(points: seq<Point>, j: nat) returns (k: nat, m: nat)
    requires j < |Sparkline(points)|
    ensures var n, left := |points|, |Sparkline(points)| - j;
            var step := if n < 40 then 1 else n / 20;
            && k < n && Sparkline(points)[j] == points[k].average && k == m * step
            && n - left * step <= k < n - (left - 1) * step
  {
    var n := |points|;
    var step, first := Step(n), FirstShown(n);
    var all := Visited(n);
    VisitInRange(n, first + j);
    m := first + j;
    k := m * step;
    VisitInRange(n, all - 1);
    VisitInRange(n, all);
    hide Step, Visited, Sparkline;
    StepMeans(n);
    assert |Sparkline(points)| == all - first && Sparkline(points)[j] == points[k].average by { SparklineAt(points, j); }
    var left := all - first - j;
    assert first + j == all - left;
    Offset(all, left, step);
    Offset(all, 1, step);
    Offset(left, 1, step);
  }

  lemma StepMeans(n: nat)
    ensures Step(n) == if n < 40 then 1 else n / 20
  {
  }

  lemma SparklineAt(points: seq<Point>, j: nat)
    requires j < |Sparkline(points)|
    ensures var n := |points|;
            && |Sparkline(points)| == Visited(n) - FirstShown(n)
            && (FirstShown(n) + j) * Step(n) < n && Sparkline(points)[j] == points[(FirstShown(n) + j) * Step(n)].average
  {
    hide Step, Visited;
    VisitInRange(|points|, FirstShown(|points|) + j);
  }

  // ---------------------------------------------------------------- the figures

  lemma SoundMeasurements(points: seq<Point>)
    requires Sound(points)
    ensures AllMeasured(Measurements(points))
  {
    var measured := Measurements(points);
    forall i | 0 <= i < |measured| ensures Measured(measured[i]) {
      assert measured[i] in measured;
      var k :| 0 <= k < |points| && points[k] == measured[i];
    }
  }

  function FiguresOf(measured: seq<Point>): Figures
    requires measured != [] && AllMeasured(measured)
  {
    Figures(Round1(Lowest(measured)), Round1(Mean(measured)), Round1(Highest(measured)), Jitter(measured))
  }

  /** As reported: least, mean and greatest latency are in order. */
  lemma FiguresInOrder(measured: seq<Point>)
    requires measured != [] && AllMeasured(measured)
    ensures var f := FiguresOf(measured); f.low <= f.average <= f.high
  {
    hide Lowest, Highest, Mean, Jitter, Round1, AllMeasured;
    MeanWithin(measured);
    Round1Monotone(Lowest(measured), Mean(measured));
    Round1Monotone(Mean(measured), Highest(measured));
  }

  function Expected(points: seq<Point>): Stats
    requires Sound(points)
  {
    SoundMeasurements(points);
    var measured := Measurements(points);
    Stats(if points == [] then None else points[|points| - 1].average,
          if measured == [] then None else Some(FiguresOf(measured)),
          Sparkline(points))
  }

  lemma OneStepMore(xs: seq<real>, i: nat)
    requires 1 <= i < |xs|
    ensures Steps(xs[..i + 1]) == Steps(xs[..i]) + Abs(xs[i] - xs[i - 1]) && StepCount(xs[..i + 1]) == StepCount(xs[..i]) + 1
  {
    assert xs[..i + 1][..i] == xs[..i];
  }

  /** Rollups carry their own sums; raw probes add the differences between neighbours. */
  method JitterOf(measured: seq<Point>) returns (jitter: real)
    requires AllMeasured(measured)
    ensures jitter == Jitter(measured)
  {
    hide RollupJitter, RawLatencies, Steps, StepCount, Round1;
    var (sum, count) := RollupJitter(measured);
    var latencies := RawLatencies(measured);
    NoSteps(latencies);
    if latencies != [] {
      for i := 1 to |latencies|
        invariant sum == RollupJitter(measured).0 + Steps(latencies[..i])
        invariant count == RollupJitter(measured).1 + StepCount(latencies[..i])
      {
        OneStepMore(latencies, i);
        sum := sum + Abs(latencies[i] - latencies[i - 1]);
        count := count + 1;
      }
      assert latencies[..|latencies|] == latencies;
    }
    return if count > 0 then Round1(sum / count as real) else 0.0;
  }

  lemma NoSteps(xs: seq<real>)
    ensures xs == [] ==> Steps(xs) == 0.0 && StepCount(xs) == 0
    ensures xs != [] ==> Steps(xs[..1]) == 0.0 && StepCount(xs[..1]) == 0
  {
  }

  method Downsample(points: seq<Point>) returns (sparkline: seq<Option<real>>)
    ensures sparkline == Sparkline(points)
  {
    sparkline := [];
    var n := |points|;
    if n == 0 {
      return;
    }
    var step := Step(n);
    var i := 0;
    VisitsStart(n);
    hide Step, Visited;
    while i < n
      invariant i == Product(|sparkline|, step) && |sparkline| <= Visited(n)
      invariant forall j: nat :: j < |sparkline| ==> Product(j, step) < n && sparkline[j] == points[Product(j, step)].average
      decreases Visited(n) - |sparkline|
    {
      NextVisit(n, |sparkline|);
      sparkline := sparkline + [points[i].average];
      i := i + step;
    }
    NextVisit(n, |sparkline|);
    hide Product;
    ShownOf(points, sparkline);
    if |sparkline| > 20 {
      sparkline := sparkline[|sparkline| - 20..];
    }
  }

  function Product(j: nat, step: nat): nat {
    j * step
  }

  lemma VisitsStart(n: nat)
    ensures Product(0, Step(n)) == 0
  {
  }

  lemma NextVisit(n: nat, k: nat)
    ensures k < Visited(n) <==> Product(k, Step(n)) < n
    ensures Product(k + 1, Step(n)) == Product(k, Step(n)) + Step(n)
  {
    VisitInRange(n, k);
    OneFurther(k, Step(n));
  }

  /** The last 20 of all visits, or all of them, are the curve. */
  lemma ShownOf(points: seq<Point>, all: seq<Option<real>>)
    requires |all| == Visited(|points|)
    requires forall j: nat :: j < |all| ==>
      Product(j, Step(|points|)) < |points| && all[j] == points[Product(j, Step(|points|))].average
    ensures (if |all| > 20 then all[|all| - 20..] else all) == Sparkline(points)
  {
    hide Step, Visited;
    var shown := if |all| > 20 then all[|all| - 20..] else all;
    var n := |points|;
    forall j: nat | j < |shown| ensures shown[j] == Sparkline(points)[j] {
      assert shown[j] == all[FirstShown(n) + j];
    }
  }

  lemma OneFurther(k: nat, step: nat)
    ensures (k + 1) * step == k * step + step
  {
  }

  method LatencyStats(points: seq<Point>) returns (stats: Stats)
    requires Sound(points)
    ensures stats == Expected(points)
  {
    var measured := Measurements(points);
    SoundMeasurements(points);
    var figures := None;
    if measured != [] {
      var jitter := JitterOf(measured);
      figures := Some(Figures(Round1(Lowest(measured)), Round1(Mean(measured)), Round1(Highest(measured)), jitter));
    }
    var current := None;
    if points != [] {
      current := points[|points| - 1].average;
    }
    var sparkline := Downsample(points);
    stats := Stats(current, figures, sparkline);
  }
}
