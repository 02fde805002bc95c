/**
 * Pure specifications of the statistics that the GPXTrack getters compute with loops:
 * the elevation span, the noise-filtered gain and loss walks, the day/hour/minute split
 * of the elapsed time and the date part of the first timestamp.
 */
module Elevation {

  /** ELEVATION_THRESHOLD_METERS: a baseline moves only on a change larger than this. */
  const ThresholdMeters: real := 10.0

  function MaxOf(es: seq<real>): (m: real)
    requires |es| > 0
    ensures m in es
    ensures forall i :: 0 <= i < |es| ==> es[i] <= m
  {
    if |es| == 1 then es[0]
    else
      var m := MaxOf(es[..|es| - 1]);
      if es[|es| - 1] > m then es[|es| - 1] else m
  }

  function MinOf(es: seq<real>): (m: real)
    requires |es| > 0
    ensures m in es
    ensures forall i :: 0 <= i < |es| ==> m <= es[i]
  {
    if |es| == 1 then es[0]
    else
      var m := MinOf(es[..|es| - 1]);
      if es[|es| - 1] < m then es[|es| - 1] else m
  }

  /** Extending a list by one elevation updates its maximum and minimum with that elevation alone. */
  lemma ExtremesOfSnoc(es: seq<real>, n: nat)
    requires 0 < n < |es|
    ensures MaxOf(es[..n + 1]) == if es[n] > MaxOf(es[..n]) then es[n] else MaxOf(es[..n])
    ensures MinOf(es[..n + 1]) == if es[n] < MinOf(es[..n]) then es[n] else MinOf(es[..n])
    ensures MinOf(es[..n]) <= MaxOf(es[..n])
  {
    assert es[..n + 1][..n] == es[..n];
    assert es[..n][0] == es[0];
  }

  /**
   * The highest minus the lowest elevation: the largest difference between any two
   * elevations of the track, and one that some pair attains.
   */
  function ElevationSpan(es: seq<real>): (span: real)
    requires |es| > 0
    ensures span >= 0.0
    ensures forall i, j :: 0 <= i < |es| && 0 <= j < |es| ==> es[i] - es[j] <= span
    ensures exists i, j :: 0 <= i < |es| && 0 <= j < |es| && es[i] - es[j] == span
  {
    var hi, lo := MaxOf(es), MinOf(es);
    assert es[0] <= hi && lo <= es[0];
    hi - lo
  }

  /**
   * The state of a noise-filtered walk: the meters accumulated so far, the current
   * baseline ("last valid elevation") and the history of baselines, oldest first.
   */
  datatype Walk = Walk(total: real, baseline: real, kept: seq<real>)

  /**
   * The gain walk started at `start` over the elevations `rest`: an elevation more than
   * the threshold above the baseline adds the rise to the total and becomes the baseline;
   * any other elevation is ignored.
   */
  function GainWalk(start: real, rest: seq<real>): (w: Walk)
    ensures w.total == w.baseline - start && w.total >= 0.0
  {
    if rest == [] then Walk(0.0, start, [start])
    else
      var w := GainWalk(start, rest[..|rest| - 1]);
      var elev := rest[|rest| - 1];
      if elev - w.baseline > ThresholdMeters then Walk(w.total + (elev - w.baseline), elev, w.kept + [elev])
      else w
  }

  /**
   * The loss walk: an elevation more than the threshold below the baseline adds the drop
   * to the total and becomes the baseline; any other elevation is ignored.
   */
  function LossWalk(start: real, rest: seq<real>): (w: Walk)
    ensures w.total == start - w.baseline && w.total >= 0.0
  {
    if rest == [] then Walk(0.0, start, [start])
    else
      var w := LossWalk(start, rest[..|rest| - 1]);
      var elev := rest[|rest| - 1];
      if w.baseline - elev > ThresholdMeters then Walk(w.total + (w.baseline - elev), elev, w.kept + [elev])
      else w
  }

  /**
   * The baselines of the gain walk: they start at `start`, end at the final baseline,
   * each is an elevation of the track, each accepted step exceeds the threshold, so the
   * total is at least the threshold times the number of steps.
   */
  lemma {:induction false} GainWalkSteps(start: real, rest: seq<real>)
    ensures var w := GainWalk(start, rest);
            && |w.kept| >= 1 && w.kept[0] == start && w.kept[|w.kept| - 1] == w.baseline
            && (forall k :: 0 < k < |w.kept| ==> w.kept[k] - w.kept[k - 1] > ThresholdMeters)
            && (forall k :: 0 < k < |w.kept| ==> w.kept[k] in rest)
            && w.total >= (|w.kept| - 1) as real * ThresholdMeters
  {
    if rest != [] {
      var prefix := rest[..|rest| - 1];
      GainWalkSteps(start, prefix);
      var w := GainWalk(start, prefix);
      assert forall x :: x in prefix ==> x in rest;
    }
  }

  /** One more elevation moves the gain walk by exactly one step. */
  lemma GainWalkStep(start: real, rest: seq<real>, n: nat)
    requires n < |rest|
    ensures var w := GainWalk(start, rest[..n]);
            GainWalk(start, rest[..n + 1]).total == (if rest[n] - w.baseline > ThresholdMeters then w.total + (rest[n] - w.baseline) else w.total)
            && GainWalk(start, rest[..n + 1]).baseline == (if rest[n] - w.baseline > ThresholdMeters then rest[n] else w.baseline)
  {
    assert rest[..n + 1][..n] == rest[..n];
  }

  /**
   * The baselines of the loss walk: they start at `start`, end at the final baseline,
   * each is an elevation of the track, each accepted step exceeds the threshold, so the
   * total is at least the threshold times the number of steps.
   */
  lemma {:induction false} LossWalkSteps(start: real, rest: seq<real>)
    ensures var w := LossWalk(start, rest);
            && |w.kept| >= 1 && w.kept[0] == start && w.kept[|w.kept| - 1] == w.baseline
            && (forall k :: 0 < k < |w.kept| ==> w.kept[k - 1] - w.kept[k] > ThresholdMeters)
            && (forall k :: 0 < k < |w.kept| ==> w.kept[k] in rest)
            && w.total >= (|w.kept| - 1) as real * ThresholdMeters
  {
    if rest != [] {
      var prefix := rest[..|rest| - 1];
      LossWalkSteps(start, prefix);
      var w := LossWalk(start, prefix);
      assert forall x :: x in prefix ==> x in rest;
    }
  }

  /** One more elevation moves the loss walk by exactly one step. */
  lemma LossWalkStep(start: real, rest: seq<real>, n: nat)
    requires n < |rest|
    ensures var w := LossWalk(start, rest[..n]);
            LossWalk(start, rest[..n + 1]).total == (if w.baseline - rest[n] > ThresholdMeters then w.total + (w.baseline - rest[n]) else w.total)
            && LossWalk(start, rest[..n + 1]).baseline == (if w.baseline - rest[n] > ThresholdMeters then rest[n] else w.baseline)
  {
    assert rest[..n + 1][..n] == rest[..n];
  }

  /**
   * Cumulative gain in meters of a track's elevations, the first elevation being the
   * first baseline: never negative, and zero exactly when no elevation rises more than
   * the threshold above the first.
   */
  function GainMeters(es: seq<real>): (gain: real)
    requires |es| > 0
    ensures gain >= 0.0
    ensures gain == 0.0 <==> forall i :: 0 < i < |es| ==> es[i] - es[0] <= ThresholdMeters
  {
    GainZeroWithinThreshold(es[0], es[1..]);
    assert forall i :: 0 < i < |es| ==> es[1..][i - 1] == es[i];
    GainWalk(es[0], es[1..]).total
  }

  /**
   * Cumulative loss in meters of a track's elevations, the first elevation being the
   * first baseline: never negative, and zero exactly when no elevation drops more than
   * the threshold below the first.
   */
  function LossMeters(es: seq<real>): (loss: real)
    requires |es| > 0
    ensures loss >= 0.0
    ensures loss == 0.0 <==> forall i :: 0 < i < |es| ==> es[0] - es[i] <= ThresholdMeters
  {
    LossZeroWithinThreshold(es[0], es[1..]);
    assert forall i :: 0 < i < |es| ==> es[1..][i - 1] == es[i];
    LossWalk(es[0], es[1..]).total
  }

  /**
   * The gain walk accumulates nothing, and keeps its first baseline, exactly when no
   * elevation rises more than the threshold above the start.
   */
  lemma {:induction false} GainZeroWithinThreshold(start: real, rest: seq<real>)
    ensures GainWalk(start, rest).total == 0.0 <==> forall i :: 0 <= i < |rest| ==> rest[i] - start <= ThresholdMeters
    ensures GainWalk(start, rest).total == 0.0 <==> GainWalk(start, rest).baseline == start
  {
    if rest != [] {
      var prefix := rest[..|rest| - 1];
      GainZeroWithinThreshold(start, prefix);
      assert forall i :: 0 <= i < |prefix| ==> prefix[i] == rest[i];
    }
  }

  /**
   * The loss walk accumulates nothing, and keeps its first baseline, exactly when no
   * elevation drops more than the threshold below the start.
   */
  lemma {:induction false} LossZeroWithinThreshold(start: real, rest: seq<real>)
    ensures LossWalk(start, rest).total == 0.0 <==> forall i :: 0 <= i < |rest| ==> start - rest[i] <= ThresholdMeters
    ensures LossWalk(start, rest).total == 0.0 <==> LossWalk(start, rest).baseline == start
  {
    if rest != [] {
      var prefix := rest[..|rest| - 1];
      LossZeroWithinThreshold(start, prefix);
      assert forall i :: 0 <= i < |prefix| ==> prefix[i] == rest[i];
    }
  }

  /** The filtered gain never exceeds the highest minus the lowest elevation. */
  lemma GainWithinSpan(es: seq<real>)
    requires |es| > 0
    ensures 0.0 <= GainMeters(es) <= ElevationSpan(es)
  {
    var w := GainWalk(es[0], es[1..]);
    GainWalkSteps(es[0], es[1..]);
    var k :| 0 <= k < |es| && es[k] == w.baseline by {
      if |w.kept| > 1 {
        assert w.kept[|w.kept| - 1] in es[1..];
      } else {
        assert es[0] == w.baseline;
      }
    }
  }

  /** The filtered loss never exceeds the highest minus the lowest elevation. */
  lemma LossWithinSpan(es: seq<real>)
    requires |es| > 0
    ensures 0.0 <= LossMeters(es) <= ElevationSpan(es)
  {
    var w := LossWalk(es[0], es[1..]);
    LossWalkSteps(es[0], es[1..]);
    var k :| 0 <= k < |es| && es[k] == w.baseline by {
      if |w.kept| > 1 {
        assert w.kept[|w.kept| - 1] in es[1..];
      } else {
        assert es[0] == w.baseline;
      }
    }
  }

  function Negated(es: seq<real>): (ns: seq<real>)
    ensures |ns| == |es| && forall i :: 0 <= i < |es| ==> ns[i] == -es[i]
  {
    seq(|es|, i requires 0 <= i < |es| => -es[i])
  }

  /** The two walks are mirror images: the loss of a track is the gain of the track turned upside down. */
  lemma {:induction false} LossIsMirroredGain(start: real, rest: seq<real>)
    ensures LossWalk(start, rest).total == GainWalk(-start, Negated(rest)).total
    ensures LossWalk(start, rest).baseline == -GainWalk(-start, Negated(rest)).baseline
  {
    if rest != [] {
      var prefix := rest[..|rest| - 1];
      LossIsMirroredGain(start, prefix);
      assert Negated(rest)[..|rest| - 1] == Negated(prefix);
    }
  }

  /** The duration getter's result: whole days, hours and minutes. */
  datatype Duration = Duration(days: int, hours: int, minutes: int)

  /** Math.trunc on a real, which JavaScript's `%` uses for its quotient. */
  function Trunc(x: real): (t: int)
    ensures x >= 0.0 ==> t == x.Floor
    ensures x < 0.0 ==> x <= t as real <= 0.0 && t as real - x < 1.0
  {
    if x >= 0.0 then x.Floor else -((-x).Floor)
  }

  /**
   * JavaScript's `%` on numbers: x less a whole multiple of m, which for a positive m
   * leaves a remainder of the dividend's sign and of magnitude below m.
   */
  function JsRemainder(x: real, m: real): (r: real)
    requires m != 0.0
    ensures m > 0.0 && x >= 0.0 ==> 0.0 <= r < m
    ensures m > 0.0 && x < 0.0 ==> -m < r <= 0.0
  {
    RemainderBounds(x, m);
    x - m * (Trunc(x / m) as real)
  }

  /** The bounds of JavaScript's remainder by a positive divisor. */
  lemma RemainderBounds(x: real, m: real)
    requires m != 0.0
    ensures m > 0.0 ==>
              var r := x - m * (Trunc(x / m) as real);
              (x >= 0.0 ==> 0.0 <= r < m) && (x < 0.0 ==> -m < r <= 0.0)
  {
    if m > 0.0 {
      var y := x / m;
      var t := Trunc(y) as real;
      assert y * m == x;
      if x >= 0.0 {
        assert y >= 0.0;
        var a := y - t;
        assert x - m * t == a * m;
        ScaleFraction(a, m);
        assert x - m * t < m;
        assert x - m * (Trunc(x / m) as real) < m;
      } else {
        assert y < 0.0;
        var a := t - y;
        assert x - m * t == -(a * m);
        ScaleFraction(a, m);
        assert -m < x - m * t;
        assert -m < x - m * (Trunc(x / m) as real) <= 0.0;
      }
    }
  }

  /** A fraction in [0, 1) of a positive m lies in [0, m). */
  lemma ScaleFraction(a: real, m: real)
    requires 0.0 <= a < 1.0 && m > 0.0
    ensures 0.0 <= a * m < m
  {
    assert m - a * m == (1.0 - a) * m;
  }

  /**
   * The duration getter's arithmetic on the elapsed minutes, floor by floor. For a
   * forward span the parts add back up to the whole minutes elapsed, with hours of the
   * day and minutes of the hour in range.
   */
  function SplitMinutes(diffMinutes: real): (d: Duration)
    ensures diffMinutes >= 0.0 ==>
              && d.days * 1440 + d.hours * 60 + d.minutes == diffMinutes.Floor
              && d.days >= 0 && 0 <= d.hours < 24 && 0 <= d.minutes < 60
  {
    SplitMinutesExact(diffMinutes);
    Duration(
      (diffMinutes / 1440.0).Floor,
      (JsRemainder(diffMinutes, 1440.0) / 60.0).Floor,
      JsRemainder(diffMinutes, 60.0).Floor)
  }

  /** Converting a product of naturals to a real multiplies the conversions. */
  lemma {:induction false} ProductAsReal(q: nat, m: nat)
    ensures (q * m) as real == (q as real) * (m as real)
  {
    if q > 0 {
      ProductAsReal(q - 1, m);
      assert q * m == (q - 1) * m + m;
    }
  }

  /** Bounds on x scale to bounds on x / m for a positive m. */
  lemma QuotientBetween(x: real, m: real, lo: real)
    requires m > 0.0 && lo * m <= x < (lo + 1.0) * m
    ensures lo <= x / m < lo + 1.0
  {
    var y := x / m;
    assert y * m == x;
    assert (y - lo) * m == x - lo * m;
    assert y - lo >= 0.0;
    var a := lo + 1.0 - y;
    assert a * m == (lo + 1.0) * m - x;
    assert a * m > 0.0;
    assert a > 0.0;
  }

  /** For x >= 0, flooring x / m equals dividing the floor of x by m. */
  lemma FloorOfQuotient(x: real, m: nat)
    requires x >= 0.0 && m > 0
    ensures (x / m as real).Floor == x.Floor / m
  {
    var n: nat := x.Floor;
    var q: nat := n / m;
    assert q * m <= n < (q + 1) * m;
    ProductAsReal(q, m);
    ProductAsReal(q + 1, m);
    assert (q as real) * (m as real) <= x < ((q + 1) as real) * (m as real);
    QuotientBetween(x, m as real, q as real);
  }

  /** For x >= 0, JavaScript's remainder by m is x less the largest multiple of m below it. */
  lemma RemainderOfNonNegative(x: real, m: nat)
    requires x >= 0.0 && m > 0
    ensures JsRemainder(x, m as real) == x - ((x.Floor / m) * m) as real
    ensures JsRemainder(x, m as real) >= 0.0
    ensures JsRemainder(x, m as real).Floor == x.Floor % m
  {
    FloorOfQuotient(x, m);
    var n: nat := x.Floor;
    var q: nat := n / m;
    assert Trunc(x / m as real) == q;
    ProductAsReal(q, m);
    assert JsRemainder(x, m as real) == x - (q * m) as real;
    assert n - q * m == n % m;
  }

  /** For a non-negative span, the three parts add back up to the whole minutes and are in range. */
  lemma SplitMinutesExact(diffMinutes: real)
    ensures diffMinutes >= 0.0 ==>
              var days := (diffMinutes / 1440.0).Floor;
              var hours := (JsRemainder(diffMinutes, 1440.0) / 60.0).Floor;
              var minutes := JsRemainder(diffMinutes, 60.0).Floor;
              days * 1440 + hours * 60 + minutes == diffMinutes.Floor
              && days >= 0 && 0 <= hours < 24 && 0 <= minutes < 60
  {
    if diffMinutes >= 0.0 {
      var n: nat := diffMinutes.Floor;
      FloorOfQuotient(diffMinutes, 1440);
      assert (diffMinutes / 1440.0).Floor == n / 1440;
      RemainderOfNonNegative(diffMinutes, 60);
      assert JsRemainder(diffMinutes, 60.0).Floor == n % 60;
      var dayRest := JsRemainder(diffMinutes, 1440.0);
      RemainderOfNonNegative(diffMinutes, 1440);
      FloorOfQuotient(dayRest, 60);
      assert (dayRest / 60.0).Floor == (n % 1440) / 60;
      WholeMinutesSplit(n);
    }
  }

  /** Whole minutes split into days, hours of the day and minutes of the hour add back up. */
  lemma WholeMinutesSplit(n: nat)
    ensures (n / 1440) * 1440 + ((n % 1440) / 60) * 60 + n % 60 == n
    ensures 0 <= (n % 1440) / 60 < 24
  {
    var days, rest := n / 1440, n % 1440;
    var hours, minutes := rest / 60, rest % 60;
    assert rest == hours * 60 + minutes && 0 <= minutes < 60;
    assert n == (days * 24 + hours) * 60 + minutes;
    DivModUnique(n, days * 24 + hours, minutes, 60);
  }

  /** The quotient and remainder of a division are the only such pair. */
  lemma DivModUnique(n: int, q: int, r: int, m: int)
    requires m > 0 && 0 <= r < m && n == q * m + r
    ensures n / m == q && n % m == r
  {
    var q', r' := n / m, n % m;
    assert n == q' * m + r' && 0 <= r' < m;
    assert (q - q') * m == r' - r;
    if q > q' {
      MulLeInt(1, q - q', m);
    } else if q < q' {
      MulLeInt(1, q' - q, m);
    }
  }

  lemma MulLeInt(a: int, b: int, c: int)
    requires 0 <= a <= b && c > 0
    ensures a * c <= b * c
  {
    assert b * c == a * c + (b - a) * c;
  }

  /**
   * startDate: the text before the first 'T' (the whole text when it has none), as
   * `split("T")[0]` yields it.
   */
  function StartDate(datetime: string): (date: string)
    ensures date <= datetime
    ensures 'T' !in date
    ensures |date| < |datetime| ==> datetime[|date|] == 'T'
  {
    if datetime == [] || datetime[0] == 'T' then []
    else [datetime[0]] + StartDate(datetime[1..])
  }
}
