/**
 * Geographic primitives of gpx-utils.js: the track point record, the great-circle
 * distance (a parameter of the model), the meters-to-feet factor and the summed
 * length of a track.
 */
module Geo {
  import opened Wrappers

  /**
   * One GPS fix. `datetime` is the text of the point's `<time>` element, None when the
   * element is missing (`undefined`); `timeMs` is the number of milliseconds that the
   * host's `Date` parser reads from that text, which the model takes as given.
   */
  datatype TrackPoint = TrackPoint(lat: real, lon: real, elevation: real, datetime: Option<string>, timeMs: real)

  /**
   * The haversine distance in meters between (lat1, lon1) and (lat2, lon2). Its
   * trigonometric body is not modelled: every operation that measures a distance takes
   * it as a parameter, of which only non-negativity is known.
   */
  type DistanceFn = f: (real, real, real, real) -> real
    | forall lat1, lon1, lat2, lon2 :: f(lat1, lon1, lat2, lon2) >= 0.0
    witness (lat1: real, lon1: real, lat2: real, lon2: real) => 0.0

  const FeetPerMeter: real := 3.28084
  const MetersPerMile: real := 1609.34

  function MetersToFeet(meters: real): (feet: real)
    ensures meters >= 0.0 ==> feet >= meters
    ensures meters <= 0.0 ==> feet <= meters
  {
    meters * FeetPerMeter
  }

  /** The distance between two consecutive points of a track. */
  function Leg(p: TrackPoint, q: TrackPoint, getDistance: DistanceFn): real {
    getDistance(p.lat, p.lon, q.lat, q.lon)
  }

  /** The sum of the legs between consecutive points. */
  function PathLength(points: seq<TrackPoint>, getDistance: DistanceFn): (meters: real)
    ensures meters >= 0.0
  {
    if |points| < 2 then 0.0
    else PathLength(points[..|points| - 1], getDistance) + Leg(points[|points| - 2], points[|points| - 1], getDistance)
  }

  /**
   * Splitting a track at index k into points[..k] and points[k..] (the way the peak
   * track splits it) loses exactly the leg from points[k-1] to points[k].
   */
  lemma {:induction false} PathLengthSplit(points: seq<TrackPoint>, k: nat, getDistance: DistanceFn)
    requires 0 < k < |points|
    ensures PathLength(points[..k], getDistance) + Leg(points[k - 1], points[k], getDistance)
            + PathLength(points[k..], getDistance) == PathLength(points, getDistance)
    decreases |points|
  {
    var n := |points|;
    if n == k + 1 {
      assert points[..n - 1] == points[..k];
    } else {
      var prefix, suffix := points[..n - 1], points[k..];
      var last := Leg(points[n - 2], points[n - 1], getDistance);
      PathLengthSplit(prefix, k, getDistance);
      assert prefix[..k] == points[..k];
      assert suffix[..|suffix| - 1] == prefix[k..];
      assert suffix[|suffix| - 2] == points[n - 2] && suffix[|suffix| - 1] == points[n - 1];
    }
  }

  /** trackLengthMeters: the summed distance between consecutive points. */
  method TrackLengthMeters(points: seq<TrackPoint>, getDistance: DistanceFn) returns (meters: real)
    ensures meters == PathLength(points, getDistance)
    ensures meters >= 0.0
  {
    meters := 0.0;
    if |points| < 2 {
      return;
    }
    for i := 1 to |points|
      invariant meters == PathLength(points[..i], getDistance)
    {
      assert points[..i + 1][..i] == points[..i];
      meters := meters + getDistance(points[i - 1].lat, points[i - 1].lon, points[i].lat, points[i].lon);
    }
    assert points[..|points|] == points;
  }
}
