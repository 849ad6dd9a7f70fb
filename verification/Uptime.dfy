/**
 Availability of a device over a window cut into bars (backend/app/api/health.py,
 _compute_uptime_and_latency). Times are seconds, and every value is weighted by the probes behind it.
 */
module Uptime {
  import opened Wrappers
  import opened Rounding

  /** Probes of one device in one bucket of the telemetry; a raw probe is a bucket of one. */
  datatype Point = Point(time: Option<real>, samples: nat, online: nat)

  datatype Window = Window(start: real, now: real, bars: nat)

  datatype Tally = Tally(samples: nat, online: nat)

  datatype Stats = Stats(overall: real, day: real, week: real, bars: seq<Option<real>>)

  predicate Sound(points: seq<Point>) {
    forall p :: p in points ==> p.online <= p.samples
  }

  predicate Proper(w: Window) {
    w.start < w.now && w.bars > 0
  }

  function BarSeconds(w: Window): (seconds: real)
    requires Proper(w)
    ensures seconds > 0.0
  {
    (w.now - w.start) / w.bars as real
  }

  /** The bar a time falls into, negative before the window and too large after it. */
  function BarOf(t: real, w: Window): int
    requires Proper(w)
  {
    ((t - w.start) / BarSeconds(w)).Floor
  }

  predicate InBar(p: Point, w: Window, i: int)
    requires Proper(w)
  {
    p.time.Some? && BarOf(p.time.value, w) == i
  }

  predicate InBarBefore(p: Point, w: Window, k: int)
    requires Proper(w)
  {
    p.time.Some? && 0 <= BarOf(p.time.value, w) < k
  }

  predicate InWindow(p: Point, w: Window) {
    p.time.Some? && w.start <= p.time.value < w.now
  }

  predicate Recent(p: Point, from: real) {
    p.time.Some? && p.time.value >= from
  }

  function OfBar(w: Window, i: int): Point -> bool
    requires Proper(w)
  {
    (p: Point) => InBar(p, w, i)
  }

  function OfBarsBefore(w: Window, k: int): Point -> bool
    requires Proper(w)
  {
    (p: Point) => InBarBefore(p, w, k)
  }

  function OfWindow(w: Window): Point -> bool {
    (p: Point) => InWindow(p, w)
  }

  function From(t: real): Point -> bool {
    (p: Point) => Recent(p, t)
  }

  function All(): Point -> bool {
    (p: Point) => true
  }

  function Plus(a: Tally, b: Tally): Tally {
    Tally(a.samples + b.samples, a.online + b.online)
  }

  function Counted(t: Tally, p: Point): Tally {
    Tally(t.samples + p.samples, t.online + p.online)
  }

  /** The probes of the points that satisfy the condition. */
  function TallyOf(points: seq<Point>, keep: Point -> bool): (t: Tally)
    ensures Sound(points) ==> t.online <= t.samples
  {
    if points == [] then Tally(0, 0)
    else
      var n := |points| - 1;
      var before := TallyOf(points[..n], keep);
      assert points == points[..n] + [points[n]];
      if keep(points[n]) then Counted(before, points[n]) else before
  }

  function BarTally(points: seq<Point>, w: Window, i: int): Tally
    requires Proper(w)
  {
    TallyOf(points, OfBar(w, i))
  }

  function Percent(t: Tally): real
    requires t.samples > 0
  {
    Round1(t.online as real / t.samples as real * 100.0)
  }

  function StatusNow(online: bool): real {
    if online then 100.0 else 0.0
  }

  /** A bar without probes shows the present status if the device was known by its end. */
  function Bar(points: seq<Point>, w: Window, i: int, online: bool, firstSeen: real): Option<real>
    requires Proper(w)
  {
    var t := BarTally(points, w, i);
    if t.samples > 0 then Some(Percent(t))
    else if firstSeen <= w.start + (i + 1) as real * BarSeconds(w) then Some(StatusNow(online))
    else None
  }

  function PercentOr(t: Tally, otherwise: real): real {
    if t.samples > 0 then Percent(t) else otherwise
  }

  // ---------------------------------------------------------------- conservation

  lemma Quotient(x: real, y: real, n: nat)
    requires y > 0.0 && n > 0
    ensures 0.0 <= x / y <==> 0.0 <= x
    ensures x / y < n as real <==> x < n as real * y
  {
    var q := x / y;
    assert q * y == x;
    if q < n as real {
      assert q * y < n as real * y;
    } else {
      assert q * y >= n as real * y;
    }
  }

  /** The bars cover exactly the window: the start belongs to it, the present does not. */
  lemma BarsCoverWindow(t: real, w: Window)
    requires Proper(w)
    ensures 0 <= BarOf(t, w) < w.bars <==> w.start <= t < w.now
  {
    Quotient(t - w.start, BarSeconds(w), w.bars);
    assert w.bars as real * BarSeconds(w) == w.now - w.start;
  }

  lemma {:induction false} TallySplits(points: seq<Point>, f: Point -> bool, g: Point -> bool, either: Point -> bool)
    requires forall p :: p in points ==> !(f(p) && g(p)) && (either(p) <==> f(p) || g(p))
    ensures TallyOf(points, either) == Plus(TallyOf(points, f), TallyOf(points, g))
  {
    if points != [] {
      var n := |points| - 1;
      assert points[n] in points;
      TallySplits(points[..n], f, g, either);
    }
  }

  lemma {:induction false} TallyNone(points: seq<Point>, f: Point -> bool)
    requires forall p :: p in points ==> !f(p)
    ensures TallyOf(points, f) == Tally(0, 0)
  {
    if points != [] {
      var n := |points| - 1;
      assert points[n] in points;
      TallyNone(points[..n], f);
    }
  }

  /** All bars before the k-th together. */
  function BarsTogether(points: seq<Point>, w: Window, k: nat): Tally
    requires Proper(w)
  {
    if k == 0 then Tally(0, 0) else Plus(BarsTogether(points, w, k - 1), BarTally(points, w, k - 1))
  }

  lemma {:induction false} TogetherIsRange(points: seq<Point>, w: Window, k: nat)
    requires Proper(w)
    ensures BarsTogether(points, w, k) == TallyOf(points, OfBarsBefore(w, k))
  {
    hide BarOf, TallyOf;
    if k == 0 {
      TallyNone(points, OfBarsBefore(w, k));
    } else {
      TogetherIsRange(points, w, k - 1);
      TallySplits(points, OfBarsBefore(w, k - 1), OfBar(w, k - 1),
                  OfBarsBefore(w, k));
    }
  }

  lemma {:induction false} SameTally(points: seq<Point>, f: Point -> bool, g: Point -> bool)
    requires forall p :: p in points ==> (f(p) <==> g(p))
    ensures TallyOf(points, f) == TallyOf(points, g)
  {
    if points != [] {
      var n := |points| - 1;
      assert points[n] in points;
      SameTally(points[..n], f, g);
    }
  }

  /** No probe of the window is lost or counted twice, and none from outside is counted. */
  lemma BarsConserve(points: seq<Point>, w: Window)
    requires Proper(w)
    ensures BarsTogether(points, w, w.bars) == TallyOf(points, OfWindow(w))
  {
    TogetherIsRange(points, w, w.bars);
    forall p | p in points && p.time.Some?
      ensures 0 <= BarOf(p.time.value, w) < w.bars <==> InWindow(p, w)
    {
      BarsCoverWindow(p.time.value, w);
    }
    hide BarOf;
    SameTally(points, OfBarsBefore(w, w.bars), OfWindow(w));
  }

  // ---------------------------------------------------------------- bounds

  function Ratio(t: Tally): real
    requires t.samples > 0
  {
    t.online as real / t.samples as real
  }

  lemma RatioAgainst(t: Tally, q: real)
    requires t.samples > 0
    ensures Ratio(t) <= q <==> t.online as real <= q * t.samples as real
    ensures q <= Ratio(t) <==> q * t.samples as real <= t.online as real
  {
    var r, n := Ratio(t), t.samples as real;
    assert r * n == t.online as real;
    TimesKeepsOrder(r, q, n);
    TimesKeepsOrder(q, r, n);
  }

  lemma TimesKeepsOrder(x: real, y: real, n: real)
    requires n > 0.0
    ensures x <= y <==> x * n <= y * n
  {
    if x <= y {
      assert (y - x) * n >= 0.0;
    } else {
      assert (x - y) * n > 0.0;
    }
  }

  lemma PercentMonotone(a: Tally, b: Tally)
    requires a.samples > 0 && b.samples > 0 && Ratio(a) <= Ratio(b)
    ensures Percent(a) <= Percent(b)
  {
    Round1Monotone(Ratio(a) * 100.0, Ratio(b) * 100.0);
  }

  lemma PercentBounds(t: Tally)
    requires 0 < t.samples && t.online <= t.samples
    ensures 0.0 <= Percent(t) <= 100.0
  {
    RatioAgainst(t, 0.0);
    RatioAgainst(t, 1.0);
    Round1Monotone(0.0, Ratio(t) * 100.0);
    Round1Monotone(Ratio(t) * 100.0, 100.0);
    Round1Whole(0);
    Round1Whole(100);
  }

  lemma BarBounds(points: seq<Point>, w: Window, i: int, online: bool, firstSeen: real)
    requires Proper(w) && Sound(points)
    ensures var bar := Bar(points, w, i, online, firstSeen); bar.Some? ==> 0.0 <= bar.value <= 100.0
  {
    hide Percent;
    if BarTally(points, w, i).samples > 0 {
      PercentBounds(BarTally(points, w, i));
    }
  }

  /** If the second part is above the whole, the first is below it. */
  lemma Mediant(a: Tally, b: Tally)
    requires a.samples > 0 && b.samples > 0
    ensures Ratio(b) <= Ratio(Plus(a, b)) || Ratio(a) <= Ratio(Plus(a, b))
    ensures Ratio(Plus(a, b)) <= Ratio(b) || Ratio(Plus(a, b)) <= Ratio(a)
  {
    var z := Ratio(Plus(a, b));
    RatioAgainst(Plus(a, b), z);
    RatioAgainst(a, z);
    RatioAgainst(b, z);
    hide Ratio;
    assert z * (a.samples + b.samples) as real == z * a.samples as real + z * b.samples as real;
  }

  /** Among the bars with probes there is one below the common ratio and one above it. */
  lemma {:induction false} SomeBelowSomeAbove(points: seq<Point>, w: Window, k: nat) returns (low: nat, high: nat)
    requires Proper(w) && Sound(points) && BarsTogether(points, w, k).samples > 0
    ensures low < k && high < k
    ensures BarTally(points, w, low).samples > 0 && BarTally(points, w, high).samples > 0
    ensures Ratio(BarTally(points, w, low)) <= Ratio(BarsTogether(points, w, k)) <= Ratio(BarTally(points, w, high))
  {
    hide BarTally, Ratio;
    var before, last := BarsTogether(points, w, k - 1), BarTally(points, w, k - 1);
    if before.samples == 0 {
      NoneTogether(points, w, k - 1);
      assert Plus(before, last) == last;
      low, high := k - 1, k - 1;
    } else {
      low, high := SomeBelowSomeAbove(points, w, k - 1);
      if last.samples > 0 {
        Mediant(before, last);
        if Ratio(last) <= Ratio(Plus(before, last)) {
          low := k - 1;
        }
        if Ratio(Plus(before, last)) <= Ratio(last) {
          high := k - 1;
        }
      } else {
        NoneInBar(points, w, k - 1);
        assert Plus(before, last) == before;
      }
    }
  }

  lemma NoneInBar(points: seq<Point>, w: Window, i: int)
    requires Proper(w) && Sound(points)
    ensures BarTally(points, w, i).online <= BarTally(points, w, i).samples
  {
  }

  lemma {:induction false} NoneTogether(points: seq<Point>, w: Window, k: nat)
    requires Proper(w) && Sound(points)
    ensures BarsTogether(points, w, k).online <= BarsTogether(points, w, k).samples
  {
    if k > 0 {
      NoneTogether(points, w, k - 1);
      NoneInBar(points, w, k - 1);
    }
  }

  /** When all points are in the window, the overall percentage lies between the lowest and the highest bar. */
  lemma OverallBetweenBars(points: seq<Point>, w: Window) returns (low: nat, high: nat)
    requires Proper(w) && Sound(points) && forall p :: p in points ==> InWindow(p, w)
    requires TallyOf(points, All()).samples > 0
    ensures low < w.bars && high < w.bars
    ensures BarTally(points, w, low).samples > 0 && BarTally(points, w, high).samples > 0
    ensures Percent(BarTally(points, w, low)) <= Percent(TallyOf(points, All())) <= Percent(BarTally(points, w, high))
  {
    BarsConserve(points, w);
    SameTally(points, OfWindow(w), All());
    var all := TallyOf(points, All());
    assert all == BarsTogether(points, w, w.bars);
    hide BarTally, Ratio, Percent, BarsTogether, TallyOf;
    low, high := SomeBelowSomeAbove(points, w, w.bars);
    PercentMonotone(BarTally(points, w, low), all);
    PercentMonotone(all, BarTally(points, w, high));
  }

  // ---------------------------------------------------------------- the computation

  const DAY := 86400.0
  const WEEK := 604800.0

  function Overall(points: seq<Point>, online: bool): real {
    PercentOr(TallyOf(points, All()), StatusNow(online))
  }

  function Expected(points: seq<Point>, w: Window, online: bool, firstSeen: Option<real>): Stats
    requires Proper(w)
  {
    var overall := Overall(points, online);
    var known := if firstSeen.Some? then firstSeen.value else w.now;
    Stats(overall, PercentOr(TallyOf(points, From(w.now - DAY)), overall), PercentOr(TallyOf(points, From(w.now - WEEK)), overall),
          seq(w.bars, i requires 0 <= i < w.bars => Bar(points, w, i, online, known)))
  }

  lemma PercentOrBounds(t: Tally, otherwise: real)
    requires t.online <= t.samples && 0.0 <= otherwise <= 100.0
    ensures 0.0 <= PercentOr(t, otherwise) <= 100.0
  {
    if t.samples > 0 {
      PercentBounds(t);
    }
  }

  /** Every number shown is a percentage. */
  lemma AllPercentages(points: seq<Point>, w: Window, online: bool, firstSeen: Option<real>)
    requires Proper(w) && Sound(points)
    ensures var s := Expected(points, w, online, firstSeen);
            && 0.0 <= s.overall <= 100.0 && 0.0 <= s.day <= 100.0 && 0.0 <= s.week <= 100.0
            && forall i :: 0 <= i < |s.bars| && s.bars[i].Some? ==> 0.0 <= s.bars[i].value <= 100.0
  {
    var overall := Overall(points, online);
    hide PercentOr, Bar;
    PercentOrBounds(TallyOf(points, All()), StatusNow(online));
    PercentOrBounds(TallyOf(points, From(w.now - DAY)), overall);
    PercentOrBounds(TallyOf(points, From(w.now - WEEK)), overall);
    var known := if firstSeen.Some? then firstSeen.value else w.now;
    forall i | 0 <= i < w.bars
      ensures var bar := Bar(points, w, i, online, known); bar.Some? ==> 0.0 <= bar.value <= 100.0
    {
      BarBounds(points, w, i, online, known);
    }
  }

  /** The percentage of a shorter period: of the overall one if it holds all points, or none. */
  lemma ShorterPeriods(points: seq<Point>, w: Window, online: bool, firstSeen: Option<real>)
    requires Proper(w)
    ensures var s := Expected(points, w, online, firstSeen);
            && ((forall p :: p in points ==> Recent(p, w.now - DAY)) ==> s.day == s.overall)
            && ((forall p :: p in points ==> Recent(p, w.now - WEEK)) ==> s.week == s.overall)
            && ((forall p :: p in points ==> !Recent(p, w.now - DAY)) ==> s.day == s.overall)
            && ((forall p :: p in points ==> !Recent(p, w.now - WEEK)) ==> s.week == s.overall)
  {
    hide Bar;
    PeriodOfAll(points, w.now - DAY);
    PeriodOfAll(points, w.now - WEEK);
    hide TallyOf, Recent;
  }

  lemma PeriodOfAll(points: seq<Point>, start: real)
    ensures (forall p :: p in points ==> Recent(p, start)) ==> TallyOf(points, From(start)) == TallyOf(points, All())
    ensures (forall p :: p in points ==> !Recent(p, start)) ==> TallyOf(points, From(start)) == Tally(0, 0)
  {
    if forall p :: p in points ==> Recent(p, start) {
      SameTally(points, From(start), All());
    }
    if forall p :: p in points ==> !Recent(p, start) {
      TallyNone(points, From(start));
    }
  }

  lemma OneMore(points: seq<Point>, k: nat, keep: Point -> bool)
    requires k < |points|
    ensures TallyOf(points[..k + 1], keep)
            == if keep(points[k]) then Counted(TallyOf(points[..k], keep), points[k]) else TallyOf(points[..k], keep)
  {
    assert points[..k + 1][..k] == points[..k];
  }

  /** The first loop: count every point where it belongs. */
  method Count(points: seq<Point>, w: Window, bucketOnline: array<nat>, bucketSamples: array<nat>)
    returns (day: Tally, week: Tally)
    requires Proper(w) && bucketOnline.Length == w.bars == bucketSamples.Length && bucketOnline != bucketSamples
    requires forall i :: 0 <= i < w.bars ==> bucketOnline[i] == 0 && bucketSamples[i] == 0
    modifies bucketOnline, bucketSamples
    ensures forall i :: 0 <= i < w.bars ==> Tally(bucketSamples[i], bucketOnline[i]) == BarTally(points, w, i)
    ensures day == TallyOf(points, From(w.now - DAY)) && week == TallyOf(points, From(w.now - WEEK))
  {
    hide BarOf, DAY, WEEK;
    day, week := Tally(0, 0), Tally(0, 0);
    assert points[..0] == [];
    for k := 0 to |points|
      invariant forall i :: 0 <= i < w.bars ==> Tally(bucketSamples[i], bucketOnline[i]) == BarTally(points[..k], w, i)
      invariant day == TallyOf(points[..k], From(w.now - DAY)) && week == TallyOf(points[..k], From(w.now - WEEK))
    {
      var p := points[k];
      OneMore(points, k, From(w.now - DAY));
      OneMore(points, k, From(w.now - WEEK));
      forall i | 0 <= i < w.bars
        ensures BarTally(points[..k + 1], w, i)
                == if InBar(p, w, i) then Counted(BarTally(points[..k], w, i), p) else BarTally(points[..k], w, i)
      {
        OneMore(points, k, OfBar(w, i));
      }
      hide TallyOf, BarTally;
      if p.time.None? {
        continue;
      }
      var t := p.time.value;
      if t >= w.now - DAY {
        day := Counted(day, p);
      }
      if t >= w.now - WEEK {
        week := Counted(week, p);
      }
      var idx := BarOf(t, w);
      if 0 <= idx < w.bars {
        bucketOnline[idx] := bucketOnline[idx] + p.online;
        bucketSamples[idx] := bucketSamples[idx] + p.samples;
      }
    }
    assert points[..|points|] == points;
  }

  method BarsOf(points: seq<Point>, w: Window, online: bool, known: real,
                bucketOnline: array<nat>, bucketSamples: array<nat>) returns (bars: seq<Option<real>>)
    requires Proper(w) && bucketOnline.Length == w.bars == bucketSamples.Length
    requires forall i :: 0 <= i < w.bars ==> Tally(bucketSamples[i], bucketOnline[i]) == BarTally(points, w, i)
    ensures |bars| == w.bars && forall i :: 0 <= i < w.bars ==> bars[i] == Bar(points, w, i, online, known)
  {
    hide BarTally, Percent, BarSeconds;
    bars := [];
    for i := 0 to w.bars
      invariant |bars| == i && forall j :: 0 <= j < i ==> bars[j] == Bar(points, w, j, online, known)
    {
      if bucketSamples[i] > 0 {
        bars := bars + [Some(Percent(Tally(bucketSamples[i], bucketOnline[i])))];
      } else if known <= w.start + (i + 1) as real * BarSeconds(w) {
        bars := bars + [Some(StatusNow(online))];
      } else {
        bars := bars + [None];
      }
    }
  }

  method Total(points: seq<Point>) returns (total: Tally)
    ensures total == TallyOf(points, All())
  {
    total := Tally(0, 0);
    for k := 0 to |points|
      invariant total == TallyOf(points[..k], All())
    {
      OneMore(points, k, All());
      total := Counted(total, points[k]);
    }
    assert points[..|points|] == points;
  }

  method Compute(points: seq<Point>, w: Window, online: bool, firstSeen: Option<real>) returns (stats: Stats)
    requires Proper(w)
    ensures stats == Expected(points, w, online, firstSeen)
  {
    hide BarTally, Bar, TallyOf, PercentOr;
    var bucketOnline := new nat[w.bars](_ => 0);
    var bucketSamples := new nat[w.bars](_ => 0);
    var day, week := Count(points, w, bucketOnline, bucketSamples);
    var bars := BarsOf(points, w, online, if firstSeen.Some? then firstSeen.value else w.now, bucketOnline, bucketSamples);
    var total := Total(points);
    var overall := PercentOr(total, StatusNow(online));
    stats := Stats(overall, PercentOr(day, overall), PercentOr(week, overall), bars);
  }
}
