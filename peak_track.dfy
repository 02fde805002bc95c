/**
 * GPXPeakTrack: a track together with a summit coordinate. Construction finds the
 * first point closest to the summit and splits the track there into an up-track
 * (the points before it) and a down-track (the points from it on).
 */
module PeakTrack {
  import opened Wrappers
  import opened Geo
  import opened Track

  /** The summit coordinate as the code reads it: `lat` and `lng`. */
  datatype Coordinates = Coordinates(lat: real, lng: real)

  function DistanceTo(p: TrackPoint, targetLat: real, targetLon: real, getDistance: DistanceFn): real {
    getDistance(p.lat, p.lon, targetLat, targetLon)
  }

  /**
   * Index k holds a point at the least distance from the target, and every earlier point
   * is strictly farther: k is the first closest point.
   */
  ghost predicate IsFirstClosest(points: seq<TrackPoint>, k: nat, targetLat: real, targetLon: real, getDistance: DistanceFn) {
    && k < |points|
    && (forall j :: 0 <= j < |points| ==>
          DistanceTo(points[k], targetLat, targetLon, getDistance) <= DistanceTo(points[j], targetLat, targetLon, getDistance))
    && (forall j :: 0 <= j < k ==>
          DistanceTo(points[j], targetLat, targetLon, getDistance) > DistanceTo(points[k], targetLat, targetLon, getDistance))
  }

  /** There is only one first closest point. */
  lemma FirstClosestUnique(points: seq<TrackPoint>, i: nat, k: nat, targetLat: real, targetLon: real, getDistance: DistanceFn)
    requires IsFirstClosest(points, i, targetLat, targetLon, getDistance)
    requires IsFirstClosest(points, k, targetLat, targetLon, getDistance)
    ensures i == k
  {
    assert DistanceTo(points[i], targetLat, targetLon, getDistance) == DistanceTo(points[k], targetLat, targetLon, getDistance);
  }

  /**
   * Splitting at the first closest point: the two parts concatenate back to the track,
   * the first has exactly k points and does not contain the closest point (an equal point
   * earlier on would have been as close), the second starts with it.
   */
  lemma SplitAtClosest(points: seq<TrackPoint>, k: nat, targetLat: real, targetLon: real, getDistance: DistanceFn)
    requires IsFirstClosest(points, k, targetLat, targetLon, getDistance)
    ensures points[..k] + points[k..] == points
    ensures |points[..k]| == k && points[k] !in points[..k]
    ensures |points[k..]| == |points| - k >= 1 && points[k..][0] == points[k]
  {
    forall j | 0 <= j < k
      ensures points[..k][j] != points[k]
    {
      assert DistanceTo(points[j], targetLat, targetLon, getDistance) > DistanceTo(points[k], targetLat, targetLon, getDistance);
    }
  }

  class GPXPeakTrack {
    /** The GPXTrack this peak track extends. */
    const track: GPXTrack
    const peakCoordinates: Coordinates
    var closestPoint: TrackPoint
    var peakIndex: nat
    /** Set once the split succeeds; null before. */
    var upTrack: GPXTrack?
    var downTrack: GPXTrack?

    /** The closest point to the summit has been found. */
    ghost predicate Located()
      reads this
    {
      && IsFirstClosest(track.trackPoints, peakIndex, peakCoordinates.lat, peakCoordinates.lng, track.getDistance)
      && closestPoint == track.trackPoints[peakIndex]
    }

    /** A fully constructed peak track: located and split into its two legs. */
    ghost predicate Valid()
      reads this, track, upTrack, downTrack
    {
      && track.Valid() && Located()
      && upTrack != null && downTrack != null
      && upTrack.Valid() && downTrack.Valid()
      && upTrack.trackPoints == track.trackPoints[..peakIndex]
      && downTrack.trackPoints == track.trackPoints[peakIndex..]
    }

    /** The part of the constructor before the split: super(points), then findClosestPointToPeak. */
    constructor (points: seq<TrackPoint>, peakCoordinates: Coordinates, getDistance: DistanceFn)
      requires |points| > 0 && points[0].datetime.Some?
      ensures track.Valid() && Located() && fresh(track)
      ensures track.trackPoints == points && track.getDistance == getDistance
      ensures this.peakCoordinates == peakCoordinates
      ensures upTrack == null && downTrack == null
    {
      track := new GPXTrack(points, getDistance);
      this.peakCoordinates := peakCoordinates;
      closestPoint := points[0];
      peakIndex := 0;
      upTrack, downTrack := null, null;
      new;
      FindClosestPointToPeak();
    }

    /** findClosestPointToPeak: scan for the summit's `lat` and `lng`, then record the result. */
    method FindClosestPointToPeak()
      requires |track.trackPoints| > 0
      modifies this`closestPoint, this`peakIndex
      ensures Located()
    {
      var point, index := FindClosestPointToCoordinates(peakCoordinates.lat, peakCoordinates.lng);
      closestPoint := point;
      peakIndex := index;
    }

    /**
     * findClosestPointToCoordinates: a linear scan that keeps the point whose distance is
     * strictly below the least seen so far (starting from Infinity, here None).
     */
    method FindClosestPointToCoordinates(targetLat: real, targetLon: real) returns (point: TrackPoint, index: nat)
      requires |track.trackPoints| > 0
      ensures index < |track.trackPoints| && point == track.trackPoints[index]
      ensures forall j :: 0 <= j < |track.trackPoints| ==>
                DistanceTo(point, targetLat, targetLon, track.getDistance)
                <= DistanceTo(track.trackPoints[j], targetLat, targetLon, track.getDistance)
      ensures forall j :: 0 <= j < index ==>
                DistanceTo(track.trackPoints[j], targetLat, targetLon, track.getDistance)
                > DistanceTo(point, targetLat, targetLon, track.getDistance)
    {
      var points := track.trackPoints;
      var minDistance: Option<real> := None;
      var closestPoint: Option<TrackPoint> := None;
      var closestPointIndex: Option<nat> := None;
      for i := 0 to |points|
        invariant i == 0 <==> closestPointIndex == None
        invariant closestPoint == None <==> closestPointIndex == None
        invariant minDistance == None <==> closestPointIndex == None
        invariant closestPointIndex.Some? ==>
                    && closestPointIndex.value < i
                    && closestPoint.value == points[closestPointIndex.value]
                    && minDistance.value == DistanceTo(points[closestPointIndex.value], targetLat, targetLon, track.getDistance)
                    && (forall j :: 0 <= j < i ==> minDistance.value <= DistanceTo(points[j], targetLat, targetLon, track.getDistance))
                    && (forall j :: 0 <= j < closestPointIndex.value ==>
                          DistanceTo(points[j], targetLat, targetLon, track.getDistance) > minDistance.value)
      {
        var distance := track.getDistance(points[i].lat, points[i].lon, targetLat, targetLon);
        if minDistance == None || distance < minDistance.value {
          minDistance := Some(distance);
          closestPoint := Some(points[i]);
          closestPointIndex := Some(i);
        }
      }
      point, index := closestPoint.value, closestPointIndex.value;
    }

    /**
     * `new GPXPeakTrack(points, peakCoordinates)`: `super(points)` throws on an empty list
     * or a first point without a time; the up-track's constructor throws when the closest
     * point is the first one, since the up-track is then empty; the down-track's throws
     * when the closest point has no time, since it starts the down-track.
     */
    static method Create(points: seq<TrackPoint>, peakCoordinates: Coordinates, getDistance: DistanceFn)
      returns (r: Result<GPXPeakTrack, TrackError>)
      ensures r.Failure? <==>
                || |points| == 0 || points[0].datetime.None?
                || IsFirstClosest(points, 0, peakCoordinates.lat, peakCoordinates.lng, getDistance)
                || exists k: nat :: IsFirstClosest(points, k, peakCoordinates.lat, peakCoordinates.lng, getDistance)
                                    && points[k].datetime.None?
      ensures r.Failure? ==>
                r.error == if |points| == 0 then NoFirstPoint
                           else if points[0].datetime.None? then NoStartTime
                           else if IsFirstClosest(points, 0, peakCoordinates.lat, peakCoordinates.lng, getDistance) then NoFirstPoint
                           else NoStartTime
      ensures r.Success? ==>
                && fresh(r.value) && fresh(r.value.track) && fresh(r.value.upTrack) && fresh(r.value.downTrack)
                && r.value.Valid()
                && r.value.track.trackPoints == points && r.value.peakCoordinates == peakCoordinates
                && 0 < r.value.peakIndex < |points|
                && r.value.upTrack.trackPoints + r.value.downTrack.trackPoints == points
                && |r.value.upTrack.trackPoints| == r.value.peakIndex
                && r.value.closestPoint !in r.value.upTrack.trackPoints
                && r.value.downTrack.trackPoints[0] == r.value.closestPoint
    {
      if |points| == 0 {
        return Failure(NoFirstPoint);
      }
      if points[0].datetime.None? {
        return Failure(NoStartTime);
      }
      var p := new GPXPeakTrack(points, peakCoordinates, getDistance);
      ghost var k := p.peakIndex;
      assert IsFirstClosest(points, k, peakCoordinates.lat, peakCoordinates.lng, getDistance);
      var up := GPXTrack.New(points[..p.peakIndex], getDistance);
      if up.Failure? {
        assert k == 0;
        return Failure(up.error);
      }
      var down := GPXTrack.New(points[p.peakIndex..], getDistance);
      if down.Failure? {
        assert points[k].datetime.None?;
        if IsFirstClosest(points, 0, peakCoordinates.lat, peakCoordinates.lng, getDistance) {
          FirstClosestUnique(points, 0, k, peakCoordinates.lat, peakCoordinates.lng, getDistance);
        }
        return Failure(down.error);
      }
      p.upTrack := up.value;
      p.downTrack := down.value;
      SplitAtClosest(points, p.peakIndex, peakCoordinates.lat, peakCoordinates.lng, getDistance);
      forall k: nat | IsFirstClosest(points, k, peakCoordinates.lat, peakCoordinates.lng, getDistance)
        ensures k == p.peakIndex
      {
        FirstClosestUnique(points, k, p.peakIndex, peakCoordinates.lat, peakCoordinates.lng, getDistance);
      }
      return Success(p);
    }
  }
}
