/**
 The availability figures in plain sums (backend/app/api/health.py, _compute_uptime_and_latency): each of them is
 the share of answered probes among the points of its own stretch of time.
 */
module UptimeFigures {
  import opened Wrappers
  import opened Rounding
  import opened Uptime

  /** The points from a time on, up to another one if given; points without a time belong to no stretch. */
  function Stretch(points: seq<Point>, from: real, to: Option<real>): (part: seq<Point>)
    ensures forall p :: p in part
              <==> p in points && p.time.Some? && from <= p.time.value && (to.None? || p.time.value < to.value)
  {
    if points == [] then []
    else
      var n, rest := |points| - 1, Stretch(points[..|points| - 1], from, to);
      assert points == points[..n] + [points[n]];
      if points[n].time.Some? && from <= points[n].time.value && (to.None? || points[n].time.value < to.value)
      then rest + [points[n]] else rest
  }

  function Probes(points: seq<Point>): nat {
    if points == [] then 0 else Probes(points[..|points| - 1]) + points[|points| - 1].samples
  }

  function Answered(points: seq<Point>): nat {
    if points == [] then 0 else Answered(points[..|points| - 1]) + points[|points| - 1].online
  }

  /** The share of answered probes in percent, to one decimal; without a probe the other figure stands in. */
  function Share(points: seq<Point>, otherwise: real): real {
    if Probes(points) == 0 then otherwise else Round1(Answered(points) as real / Probes(points) as real * 100.0)
  }

  lemma {:induction false} TallyIsSums(points: seq<Point>, keep: Point -> bool, part: seq<Point>)
    requires part == Kept(points, keep)
    ensures TallyOf(points, keep) == Tally(Probes(part), Answered(part))
  {
    if points != [] {
      var n := |points| - 1;
      var rest := Kept(points[..n], keep);
      TallyIsSums(points[..n], keep, rest);
      if keep(points[n]) {
        assert part == rest + [points[n]];
        assert part[..|part| - 1] == rest;
      } else {
        assert part == rest;
      }
    }
  }

  function Kept(points: seq<Point>, keep: Point -> bool): seq<Point> {
    if points == [] then []
    else
      var n := |points| - 1;
      Kept(points[..n], keep) + if keep(points[n]) then [points[n]] else []
  }

  lemma {:induction false} StretchIsKept(points: seq<Point>, from: real, to: Option<real>, keep: Point -> bool)
    requires forall p :: p in points ==>
      (keep(p) <==> p.time.Some? && from <= p.time.value && (to.None? || p.time.value < to.value))
    ensures Kept(points, keep) == Stretch(points, from, to)
  {
    if points != [] {
      var n := |points| - 1;
      assert points[n] in points;
      StretchIsKept(points[..n], from, to, keep);
    }
  }

  lemma {:induction false} KeptAll(points: seq<Point>)
    ensures Kept(points, All()) == points
  {
    if points != [] {
      KeptAll(points[..|points| - 1]);
    }
  }

  lemma PercentIsShare(t: Tally, points: seq<Point>, otherwise: real)
    requires t == Tally(Probes(points), Answered(points))
    ensures PercentOr(t, otherwise) == Share(points, otherwise)
  {
  }

  /** Over all points; a device without any probe is up all the time or not at all, as it is now. */
  lemma OverallInSums(points: seq<Point>, w: Window, online: bool, firstSeen: Option<real>)
    requires Proper(w)
    ensures Uptime.Expected(points, w, online, firstSeen).overall == Share(points, if online then 100.0 else 0.0)
  {
    KeptAll(points);
    TallyIsSums(points, All(), points);
    hide Share, PercentOr, TallyOf, Bar;
    PercentIsShare(TallyOf(points, All()), points, StatusNow(online));
  }

  /** Over the last 24 hours and the last seven days: of the points of that time alone, whatever came before. */
  lemma PeriodsInSums(points: seq<Point>, w: Window, online: bool, firstSeen: Option<real>)
    requires Proper(w)
    ensures var s := Uptime.Expected(points, w, online, firstSeen);
            && s.day == Share(Stretch(points, w.now - 86400.0, None), s.overall)
            && s.week == Share(Stretch(points, w.now - 604800.0, None), s.overall)
  {
    hide Share, PercentOr, TallyOf, Bar, Stretch, Overall;
    PeriodInSums(points, w.now - 86400.0, Overall(points, online));
    PeriodInSums(points, w.now - 604800.0, Overall(points, online));
  }

  lemma PeriodInSums(points: seq<Point>, from: real, overall: real)
    ensures PercentOr(TallyOf(points, From(from)), overall) == Share(Stretch(points, from, None), overall)
  {
    hide Share, PercentOr, TallyOf;
    StretchIsKept(points, from, None, From(from));
    TallyIsSums(points, From(from), Stretch(points, from, None));
    PercentIsShare(TallyOf(points, From(from)), Stretch(points, from, None), overall);
  }

  // ---------------------------------------------------------------- bars

  lemma FloorIs(q: real, i: int)
    ensures q.Floor == i <==> i as real <= q && !(i as real + 1.0 <= q)
  {
  }

  lemma QuotientFloor(x: real, y: real, i: int)
    requires y > 0.0
    ensures (x / y).Floor == i <==> i as real * y <= x < (i as real + 1.0) * y
  {
    var q := x / y;
    FloorIs(q, i);
    assert q * y == x;
    Against(q, y, x, i as real);
    Against(q, y, x, i as real + 1.0);
  }

  lemma Against(q: real, y: real, x: real, z: real)
    requires y > 0.0 && q * y == x
    ensures z <= q <==> z * y <= x
  {
    TimesKeepsOrder(z, q, y);
  }

  /** Where the i-th of the equal parts of the window begins; the last one ends now. */
  function PartBegin(w: Window, i: int): real
    requires Proper(w)
  {
    w.start + i as real * ((w.now - w.start) / w.bars as real)
  }

  lemma PartsFillWindow(w: Window)
    requires Proper(w)
    ensures PartBegin(w, 0) == w.start && PartBegin(w, w.bars) == w.now
  {
    var n := w.bars as real;
    assert n * ((w.now - w.start) / n) == w.now - w.start;
  }

  /** Bar i stands for the i-th part of the window, its begin included and its end not. */
  lemma BarIsPart(t: real, w: Window, i: int)
    requires Proper(w)
    ensures BarOf(t, w) == i <==> PartBegin(w, i) <= t < PartBegin(w, i + 1)
  {
    QuotientFloor(t - w.start, BarSeconds(w), i);
    assert (i + 1) as real == i as real + 1.0;
  }

  /** What a bar shows: its own probes; without any the present status, or nothing if it ended before the device was seen. */
  lemma BarInSums(points: seq<Point>, w: Window, online: bool, firstSeen: Option<real>, i: nat)
    requires Proper(w) && i < w.bars
    ensures var probed := Stretch(points, PartBegin(w, i), Some(PartBegin(w, i + 1)));
            var seen := if firstSeen.Some? then firstSeen.value else w.now;
            var bars := Uptime.Expected(points, w, online, firstSeen).bars;
            && |bars| == w.bars
            && (Probes(probed) > 0 ==> bars[i] == Some(Share(probed, 0.0)))
            && (Probes(probed) == 0 && seen <= PartBegin(w, i + 1) ==> bars[i] == Some(if online then 100.0 else 0.0))
            && (Probes(probed) == 0 && seen > PartBegin(w, i + 1) ==> bars[i] == None)
  {
    BarTallyInSums(points, w, i);
    var probed, t := Stretch(points, PartBegin(w, i), Some(PartBegin(w, i + 1))), BarTally(points, w, i);
    BarShare(t, probed);
    hide BarTally, Share, Stretch, Percent, Overall, TallyOf, BarSeconds, PercentOr, PartBegin;
    BarShows(points, w, i, online, if firstSeen.Some? then firstSeen.value else w.now);
  }

  lemma BarShows(points: seq<Point>, w: Window, i: nat, online: bool, known: real)
    requires Proper(w)
    ensures var t, bar, end := BarTally(points, w, i), Bar(points, w, i, online, known), PartBegin(w, i + 1);
            && (t.samples > 0 ==> bar == Some(Percent(t)))
            && (t.samples == 0 && known <= end ==> bar == Some(if online then 100.0 else 0.0))
            && (t.samples == 0 && known > end ==> bar == None)
  {
    assert PartBegin(w, i + 1) == w.start + (i + 1) as real * BarSeconds(w);
    hide BarTally, BarSeconds, Percent, PartBegin;
  }

  lemma BarShare(t: Tally, probed: seq<Point>)
    requires t == Tally(Probes(probed), Answered(probed))
    ensures t.samples > 0 ==> Percent(t) == Share(probed, 0.0)
  {
  }

  lemma BarTallyInSums(points: seq<Point>, w: Window, i: nat)
    requires Proper(w)
    ensures var probed := Stretch(points, PartBegin(w, i), Some(PartBegin(w, i + 1)));
            BarTally(points, w, i) == Tally(Probes(probed), Answered(probed))
  {
    forall p | p in points && p.time.Some?
      ensures InBar(p, w, i) <==> PartBegin(w, i) <= p.time.value < PartBegin(w, i + 1)
    {
      BarIsPart(p.time.value, w, i);
    }
    hide BarOf, TallyOf, PartBegin;
    StretchIsKept(points, PartBegin(w, i), Some(PartBegin(w, i + 1)), OfBar(w, i));
    TallyIsSums(points, OfBar(w, i), Stretch(points, PartBegin(w, i), Some(PartBegin(w, i + 1))));
  }
}
