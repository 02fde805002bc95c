/**
 * GPXTrack: an ordered, non-empty list of track points with statistics that are
 * computed on first read and cached in private fields (gpx-utils.js, class GPXTrack).
 */
module Track {
  import opened Wrappers
  import opened Geo
  import opened Elevation

  /**
   * Why constructing a track throws: with no points `trackPoints[0]` is undefined, so
   * reading its `datetime` fails; with a first point that has no `<time>`, its
   * `datetime` is undefined, so calling `split` on it fails.
   */
  datatype TrackError = NoFirstPoint | NoStartTime

  function Elevations(points: seq<TrackPoint>): (es: seq<real>)
    ensures |es| == |points| && forall i :: 0 <= i < |points| ==> es[i] == points[i].elevation
  {
    seq(|points|, i requires 0 <= i < |points| => points[i].elevation)
  }

  /**
   * The minutes between two points, as `(endTime - startTime) / (1000 * 60)`: a whole
   * minute for every 60000 milliseconds, non-negative exactly when the last point is
   * not earlier than the first.
   */
  function ElapsedMinutes(first: TrackPoint, last: TrackPoint): (minutes: real)
    ensures minutes * 60000.0 == last.timeMs - first.timeMs
    ensures minutes >= 0.0 <==> last.timeMs >= first.timeMs
  {
    (last.timeMs - first.timeMs) / 60000.0
  }

  /** The elevation loop of the netGainFt getter: track the highest and the lowest elevation. */
  method MeasureSpan(points: seq<TrackPoint>) returns (span: real)
    requires |points| > 0
    ensures span == ElevationSpan(Elevations(points))
  {
    ghost var es := Elevations(points);
    var highestElevation := points[0].elevation;
    var lowestElevation := points[0].elevation;
    for i := 1 to |points|
      invariant highestElevation == MaxOf(es[..i])
      invariant lowestElevation == MinOf(es[..i])
    {
      ExtremesOfSnoc(es, i);
      var elev := points[i].elevation;
      if elev > highestElevation {
        highestElevation := elev;
      } else if elev < lowestElevation {
        lowestElevation := elev;
      }
    }
    assert es[..|points|] == es;
    span := highestElevation - lowestElevation;
  }

  /** The loop of the gainFt getter: accumulate rises of more than the threshold above the baseline. */
  method MeasureGain(points: seq<TrackPoint>) returns (gainMeters: real)
    requires |points| > 0
    ensures gainMeters == GainMeters(Elevations(points))
  {
    ghost var es := Elevations(points);
    gainMeters := 0.0;
    var lastValidElevation := points[0].elevation;
    for i := 1 to |points|
      invariant gainMeters == GainWalk(es[0], es[1..i]).total
      invariant lastValidElevation == GainWalk(es[0], es[1..i]).baseline
    {
      GainWalkStep(es[0], es[1..], i - 1);
      assert es[1..][..i - 1] == es[1..i] && es[1..][..i] == es[1..i + 1];
      var elev := points[i].elevation;
      if elev - lastValidElevation > ThresholdMeters {
        gainMeters := gainMeters + (elev - lastValidElevation);
        lastValidElevation := elev;
      }
    }
    assert es[1..|points|] == es[1..];
  }

  /** The loop of the lossFt getter: accumulate drops of more than the threshold below the baseline. */
  method MeasureLoss(points: seq<TrackPoint>) returns (metersLost: real)
    requires |points| > 0
    ensures metersLost == LossMeters(Elevations(points))
  {
    ghost var es := Elevations(points);
    metersLost := 0.0;
    var lastValidElevation := points[0].elevation;
    for i := 1 to |points|
      invariant metersLost == LossWalk(es[0], es[1..i]).total
      invariant lastValidElevation == LossWalk(es[0], es[1..i]).baseline
    {
      LossWalkStep(es[0], es[1..], i - 1);
      assert es[1..][..i - 1] == es[1..i] && es[1..][..i] == es[1..i + 1];
      var elev := points[i].elevation;
      if lastValidElevation - elev > ThresholdMeters {
        metersLost := metersLost + (lastValidElevation - elev);
        lastValidElevation := elev;
      }
    }
    assert es[1..|points|] == es[1..];
  }

  class GPXTrack {
    const trackPoints: seq<TrackPoint>
    const firstPoint: TrackPoint
    const lastPoint: TrackPoint
    const startDate: string
    const startElevationFt: real
    const endElevationFt: real
    /** The haversine distance the track measures with. */
    const getDistance: DistanceFn

    // The private memo fields #miles, #netGainFt, #gainFt, #lossFt and #duration; None is `null`.
    var cachedMiles: Option<real>
    var cachedNetGainFt: Option<real>
    var cachedGainFt: Option<real>
    var cachedLossFt: Option<real>
    var cachedDuration: Option<Duration>

    /** The fields the constructor sets, derived from the points. */
    ghost predicate Constructed() {
      && |trackPoints| > 0
      && firstPoint == trackPoints[0]
      && lastPoint == trackPoints[|trackPoints| - 1]
      && firstPoint.datetime.Some?
      && startDate == StartDate(firstPoint.datetime.value)
      && startElevationFt == MetersToFeet(firstPoint.elevation)
      && endElevationFt == MetersToFeet(lastPoint.elevation)
    }

    ghost predicate MilesCached() reads this`cachedMiles {
      cachedMiles.Some? ==> cachedMiles.value == PathLength(trackPoints, getDistance) / MetersPerMile
    }

    ghost predicate NetGainCached() reads this`cachedNetGainFt {
      cachedNetGainFt.Some? ==> |trackPoints| > 0 && cachedNetGainFt.value == ElevationSpan(Elevations(trackPoints))
    }

    ghost predicate GainCached() reads this`cachedGainFt {
      cachedGainFt.Some? ==> |trackPoints| > 0 && cachedGainFt.value == MetersToFeet(GainMeters(Elevations(trackPoints)))
    }

    ghost predicate LossCached() reads this`cachedLossFt {
      cachedLossFt.Some? ==> |trackPoints| > 0 && cachedLossFt.value == MetersToFeet(LossMeters(Elevations(trackPoints)))
    }

    ghost predicate DurationCached() reads this`cachedDuration {
      cachedDuration.Some? ==> cachedDuration.value == SplitMinutes(ElapsedMinutes(firstPoint, lastPoint))
    }

    /** The fields set by the constructor, and every filled cache holding what its getter computes. */
    ghost predicate Valid()
      reads this
    {
      Constructed() && MilesCached() && NetGainCached() && GainCached() && LossCached() && DurationCached()
    }

    constructor (points: seq<TrackPoint>, getDistance: DistanceFn)
      requires |points| > 0 && points[0].datetime.Some?
      ensures Valid()
      ensures trackPoints == points && this.getDistance == getDistance
      ensures cachedMiles == cachedNetGainFt == cachedGainFt == cachedLossFt == None && cachedDuration == None
    {
      trackPoints := points;
      firstPoint := points[0];
      lastPoint := points[|points| - 1];
      startDate := StartDate(points[0].datetime.value);
      startElevationFt := MetersToFeet(points[0].elevation);
      endElevationFt := MetersToFeet(points[|points| - 1].elevation);
      this.getDistance := getDistance;
      cachedMiles, cachedNetGainFt, cachedGainFt, cachedLossFt, cachedDuration := None, None, None, None, None;
    }

    /** `new GPXTrack(points)`, which throws on an empty list and on a first point without a time. */
    static method New(points: seq<TrackPoint>, getDistance: DistanceFn) returns (r: Result<GPXTrack, TrackError>)
      ensures r.Failure? <==> |points| == 0 || points[0].datetime.None?
      ensures r.Failure? ==> r.error == (if |points| == 0 then NoFirstPoint else NoStartTime)
      ensures r.Success? ==> fresh(r.value) && r.value.Valid() && r.value.trackPoints == points
                             && r.value.getDistance == getDistance
    {
      if |points| == 0 {
        return Failure(NoFirstPoint);
      }
      if points[0].datetime.None? {
        return Failure(NoStartTime);
      }
      var t := new GPXTrack(points, getDistance);
      return Success(t);
    }

    /** miles: the track length in miles (before the two-decimal formatting). */
    method Miles() returns (miles: real)
      requires Valid()
      modifies this`cachedMiles
      ensures Valid()
      ensures miles == PathLength(trackPoints, getDistance) / MetersPerMile && miles >= 0.0
      ensures cachedMiles == Some(miles)
    {
      if cachedMiles == None {
        var meters := TrackLengthMeters(trackPoints, getDistance);
        cachedMiles := Some(meters / MetersPerMile);
      }
      miles := cachedMiles.value;
    }

    /** netGainFt: the highest minus the lowest elevation, left in meters. */
    method NetGainFt() returns (netGain: real)
      requires Valid()
      modifies this`cachedNetGainFt
      ensures Valid()
      ensures netGain == ElevationSpan(Elevations(trackPoints))
      ensures cachedNetGainFt == Some(netGain)
    {
      if cachedNetGainFt == None {
        var meters := MeasureSpan(trackPoints);
        cachedNetGainFt := Some(meters);
      }
      netGain := cachedNetGainFt.value;
    }

    /** gainFt: the noise-filtered cumulative gain, in feet. */
    method GainFt() returns (gain: real)
      requires Valid()
      modifies this`cachedGainFt
      ensures Valid()
      ensures gain == MetersToFeet(GainMeters(Elevations(trackPoints))) && gain >= 0.0
      ensures cachedGainFt == Some(gain)
    {
      if cachedGainFt == None {
        var meters := MeasureGain(trackPoints);
        cachedGainFt := Some(MetersToFeet(meters));
      }
      gain := cachedGainFt.value;
    }

    /** lossFt: the noise-filtered cumulative loss, in feet. */
    method LossFt() returns (loss: real)
      requires Valid()
      modifies this`cachedLossFt
      ensures Valid()
      ensures loss == MetersToFeet(LossMeters(Elevations(trackPoints))) && loss >= 0.0
      ensures cachedLossFt == Some(loss)
    {
      if cachedLossFt == None {
        var meters := MeasureLoss(trackPoints);
        cachedLossFt := Some(MetersToFeet(meters));
      }
      loss := cachedLossFt.value;
    }

    /** duration: the time from the first to the last point in whole days, hours and minutes. */
    method GetDuration() returns (duration: Duration)
      requires Valid()
      modifies this`cachedDuration
      ensures Valid()
      ensures duration == SplitMinutes(ElapsedMinutes(firstPoint, lastPoint))
      ensures cachedDuration == Some(duration)
      ensures ElapsedMinutes(firstPoint, lastPoint) >= 0.0 ==>
                duration.days * 1440 + duration.hours * 60 + duration.minutes == ElapsedMinutes(firstPoint, lastPoint).Floor
                && 0 <= duration.hours < 24 && 0 <= duration.minutes < 60
    {
      if cachedDuration == None {
        var diffMinutes := (lastPoint.timeMs - firstPoint.timeMs) / (1000.0 * 60.0);
        var days := (diffMinutes / (24.0 * 60.0)).Floor;
        var hours := (JsRemainder(diffMinutes, 24.0 * 60.0) / 60.0).Floor;
        var minutes := JsRemainder(diffMinutes, 60.0).Floor;
        assert diffMinutes == ElapsedMinutes(firstPoint, lastPoint);
        assert Duration(days, hours, minutes) == SplitMinutes(diffMinutes);
        cachedDuration := Some(Duration(days, hours, minutes));
      }
      duration := cachedDuration.value;
    }
  }
}
