/**
 * GPXTrackReducer: brings a track down to a target number of points, first by
 * Ramer-Douglas-Peucker simplification and then, if that is not enough, by keeping
 * points at a uniform stride.
 */
module Reducer {
  import opened Wrappers
  import opened Geo
  import opened Elevation
  import opened Track

  /** The tolerance `reduceGPXTrack` passes to `rdp`. */
  const Epsilon: real := 0.00001

  /**
   * r is the subsequence of s at the strictly increasing positions `kept`.
   */
  ghost predicate Selects<T>(s: seq<T>, kept: seq<nat>, r: seq<T>) {
    && |kept| == |r|
    && (forall j :: 0 <= j < |kept| ==> kept[j] < |s| && r[j] == s[kept[j]])
    && (forall j, j' :: 0 <= j < j' < |kept| ==> kept[j] < kept[j'])
  }

  ghost predicate IsSubsequence<T>(r: seq<T>, s: seq<T>) {
    exists kept :: Selects(s, kept, r)
  }

  function Positions(n: nat): (kept: seq<nat>)
    ensures |kept| == n && forall j :: 0 <= j < n ==> kept[j] == j
  {
    seq(n, j requires 0 <= j < n => j)
  }

  function Shift(kept: seq<nat>, m: nat): (shifted: seq<nat>)
    ensures |shifted| == |kept| && forall j :: 0 <= j < |kept| ==> shifted[j] == kept[j] + m
  {
    seq(|kept|, j requires 0 <= j < |kept| => kept[j] + m)
  }

  /**
   * Joining the simplified halves s[..m+1] and s[m..] as `rdp` does (dropping the left
   * half's copy of the shared point s[m]) gives a subsequence of s.
   */
  lemma SelectsJoin<T>(s: seq<T>, m: nat, leftKept: seq<nat>, left: seq<T>, rightKept: seq<nat>, right: seq<T>)
    requires 0 < m < |s|
    requires Selects(s[..m + 1], leftKept, left) && |leftKept| >= 1 && leftKept[|leftKept| - 1] == m
    requires Selects(s[m..], rightKept, right) && |rightKept| >= 1 && rightKept[0] == 0
    ensures Selects(s, leftKept[..|leftKept| - 1] + Shift(rightKept, m), left[..|left| - 1] + right)
    ensures var kept := leftKept[..|leftKept| - 1] + Shift(rightKept, m);
            kept[0] == (if |leftKept| > 1 then leftKept[0] else m) && kept[|kept| - 1] == rightKept[|rightKept| - 1] + m
  {
    var n := |leftKept| - 1;
    var kept := leftKept[..n] + Shift(rightKept, m);
    var r := left[..n] + right;
    forall j | 0 <= j < |kept|
      ensures kept[j] < |s| && r[j] == s[kept[j]]
    {
      if j < n {
        assert leftKept[j] < leftKept[n];
      } else {
        assert kept[j] == rightKept[j - n] + m;
      }
    }
    forall j, j' | 0 <= j < j' < |kept|
      ensures kept[j] < kept[j']
    {
      if j' < n {
      } else if j < n {
        assert leftKept[j] < leftKept[n];
      } else {
        assert rightKept[j - n] < rightKept[j' - n];
      }
    }
  }

  /**
   * What `rdp` promises of its result: tracks of at most two points come back
   * unchanged; longer ones come back with between 2 and all of their points, and with
   * just the two ends exactly when every interior point is within epsilon of the chord;
   * both ends are kept.
   */
  ghost predicate Simplified(points: seq<TrackPoint>, epsilon: real, getDistance: DistanceFn, r: seq<TrackPoint>) {
    && (|points| <= 2 ==> r == points)
    && (|points| > 2 ==> 2 <= |r| <= |points| && (|r| == 2 <==> WithinTolerance(points, epsilon, getDistance)))
    && (|points| > 0 ==> |r| > 0 && r[0] == points[0] && r[|r| - 1] == points[|points| - 1])
  }

  /** r is the subsequence of the track at positions `kept`, which start and end at its ends. */
  ghost predicate SelectedEnds<T>(points: seq<T>, kept: seq<nat>, r: seq<T>) {
    && Selects(points, kept, r)
    && (|points| > 0 ==> |kept| > 0 && kept[0] == 0 && kept[|kept| - 1] == |points| - 1)
  }

  /**
   * When the interior point m is farther than epsilon from the chord, joining the
   * simplified halves s[..m+1] and s[m..] simplifies the whole track.
   */
  lemma RdpJoin(points: seq<TrackPoint>, epsilon: real, getDistance: DistanceFn, m: nat,
                left: seq<TrackPoint>, right: seq<TrackPoint>)
    requires 0 < m < |points| - 1
    requires PerpendicularDistance(points[m], points[0], points[|points| - 1], getDistance) > epsilon
    requires Simplified(points[..m + 1], epsilon, getDistance, left)
    requires Simplified(points[m..], epsilon, getDistance, right)
    ensures Simplified(points, epsilon, getDistance, left[..|left| - 1] + right)
  {
    assert 2 <= |left| <= m + 1 && 2 <= |right| <= |points| - m;
    assert left[0] == points[..m + 1][0];
    assert right[|right| - 1] == points[m..][|points| - 1 - m];
    assert !WithinTolerance(points, epsilon, getDistance);
  }

  /** The positions of the joined halves select the join from the whole track, end to end. */
  lemma SelectedJoin<T>(s: seq<T>, m: nat, leftKept: seq<nat>, left: seq<T>, rightKept: seq<nat>, right: seq<T>)
    requires 0 < m < |s| - 1
    requires SelectedEnds(s[..m + 1], leftKept, left)
    requires SelectedEnds(s[m..], rightKept, right)
    ensures SelectedEnds(s, leftKept[..|leftKept| - 1] + Shift(rightKept, m), left[..|left| - 1] + right)
  {
    SelectsJoin(s, m, leftKept, left, rightKept, right);
  }

  /**
   * Every point dropped between two consecutive kept positions lies within epsilon of
   * the chord between the points kept there.
   */
  ghost predicate Tolerant(points: seq<TrackPoint>, kept: seq<nat>, epsilon: real, getDistance: DistanceFn) {
    forall j: int, i: int {:trigger PerpendicularDistance(points[i], points[kept[j]], points[kept[j + 1]], getDistance)} ::
      0 <= j < |kept| - 1 && kept[j + 1] < |points| && kept[j] < i < kept[j + 1] ==>
        PerpendicularDistance(points[i], points[kept[j]], points[kept[j + 1]], getDistance) <= epsilon
  }

  /** Joining the halves keeps every dropped point within epsilon of its kept neighbours' chord. */
  lemma TolerantJoin(s: seq<TrackPoint>, m: nat, leftKept: seq<nat>, rightKept: seq<nat>, epsilon: real, getDistance: DistanceFn)
    requires 0 < m < |s| - 1
    requires |leftKept| > 0 && leftKept[|leftKept| - 1] == m && forall j :: 0 <= j < |leftKept| ==> leftKept[j] <= m
    requires |rightKept| > 0 && rightKept[0] == 0
    requires Tolerant(s[..m + 1], leftKept, epsilon, getDistance)
    requires Tolerant(s[m..], rightKept, epsilon, getDistance)
    ensures Tolerant(s, leftKept[..|leftKept| - 1] + Shift(rightKept, m), epsilon, getDistance)
  {
    var n := |leftKept| - 1;
    var shifted := Shift(rightKept, m);
    var kept := leftKept[..n] + shifted;
    forall j: int, i: int | 0 <= j < |kept| - 1 && kept[j + 1] < |s| && kept[j] < i < kept[j + 1]
      ensures PerpendicularDistance(s[i], s[kept[j]], s[kept[j + 1]], getDistance) <= epsilon
    {
      if j < n {
        assert kept[j] == leftKept[j];
        assert kept[j + 1] == leftKept[j + 1] by {
          if j + 1 == n {
            assert kept[j + 1] == shifted[0];
          }
        }
        TolerantInPrefix(s, m, leftKept, epsilon, getDistance, j, i);
      } else {
        assert kept[j] == shifted[j - n] && kept[j + 1] == shifted[j + 1 - n];
        TolerantInSuffix(s, m, rightKept, epsilon, getDistance, j - n, i);
      }
    }
  }

  /** A dropped point of the left half s[..m+1], read in the whole track. */
  lemma TolerantInPrefix(s: seq<TrackPoint>, m: nat, kept: seq<nat>, epsilon: real, getDistance: DistanceFn, j: int, i: int)
    requires m < |s| && Tolerant(s[..m + 1], kept, epsilon, getDistance)
    requires 0 <= j < |kept| - 1 && kept[j + 1] <= m && kept[j] < i < kept[j + 1]
    ensures PerpendicularDistance(s[i], s[kept[j]], s[kept[j + 1]], getDistance) <= epsilon
  {
    var prefix := s[..m + 1];
    assert PerpendicularDistance(prefix[i], prefix[kept[j]], prefix[kept[j + 1]], getDistance) <= epsilon;
    assert prefix[i] == s[i] && prefix[kept[j]] == s[kept[j]] && prefix[kept[j + 1]] == s[kept[j + 1]];
  }

  /** A dropped point of the right half s[m..], read in the whole track. */
  lemma TolerantInSuffix(s: seq<TrackPoint>, m: nat, kept: seq<nat>, epsilon: real, getDistance: DistanceFn, j: int, i: int)
    requires m < |s| && Tolerant(s[m..], kept, epsilon, getDistance)
    requires 0 <= j < |kept| - 1 && kept[j + 1] + m < |s| && kept[j] + m < i < kept[j + 1] + m
    ensures PerpendicularDistance(s[i], s[kept[j] + m], s[kept[j + 1] + m], getDistance) <= epsilon
  {
    var suffix := s[m..];
    assert PerpendicularDistance(suffix[i - m], suffix[kept[j]], suffix[kept[j + 1]], getDistance) <= epsilon;
    assert suffix[i - m] == s[i] && suffix[kept[j]] == s[kept[j] + m] && suffix[kept[j + 1]] == s[kept[j + 1] + m];
  }

  /** Selecting from a selection is a selection. */
  lemma SelectsCompose<T>(s: seq<T>, outer: seq<nat>, mid: seq<T>, inner: seq<nat>, r: seq<T>)
    requires Selects(s, outer, mid) && Selects(mid, inner, r)
    ensures Selects(s, seq(|inner|, j requires 0 <= j < |inner| => outer[inner[j]]), r)
  {
  }

  /**
   * perpendicularDistance: the distance from `point` to its projection on the line
   * through the two ends (computed in degree space); with coincident ends, the distance
   * to the start.
   */
  function PerpendicularDistance(point: TrackPoint, lineStart: TrackPoint, lineEnd: TrackPoint, getDistance: DistanceFn): (d: real)
    ensures d >= 0.0
    ensures lineEnd.lon == lineStart.lon && lineEnd.lat == lineStart.lat ==>
              d == getDistance(point.lat, point.lon, lineStart.lat, lineStart.lon)
  {
    var dx := lineEnd.lon - lineStart.lon;
    var dy := lineEnd.lat - lineStart.lat;
    if dx == 0.0 && dy == 0.0 then
      getDistance(point.lat, point.lon, lineStart.lat, lineStart.lon)
    else
      var denominator := dx * dx + dy * dy;
      // Never zero in exact arithmetic once dx or dy is not; a floating-point underflow to
      // zero (which would make t infinite) is not modelled.
      var t := if denominator == 0.0 then 0.0
               else ((point.lon - lineStart.lon) * dx + (point.lat - lineStart.lat) * dy) / denominator;
      var closestX := lineStart.lon + t * dx;
      var closestY := lineStart.lat + t * dy;
      getDistance(point.lat, point.lon, closestY, closestX)
  }

  /** Every interior point lies within epsilon of the chord between the two ends. */
  ghost predicate WithinTolerance(points: seq<TrackPoint>, epsilon: real, getDistance: DistanceFn)
    requires |points| > 0
  {
    forall i :: 0 < i < |points| - 1 ==>
      PerpendicularDistance(points[i], points[0], points[|points| - 1], getDistance) <= epsilon
  }

  /**
   * The scan inside `rdp`: the interior point farthest from the chord between the ends,
   * the first one on a tie, and its distance; index 0 and distance 0 when no interior
   * point is farther than 0.
   */
  method FarthestFromChord(points: seq<TrackPoint>, getDistance: DistanceFn) returns (maxDistance: real, maxIndex: nat)
    requires |points| > 2
    ensures maxIndex < |points| - 1
    ensures maxIndex == 0 ==> maxDistance == 0.0
    ensures maxIndex > 0 ==> maxDistance == PerpendicularDistance(points[maxIndex], points[0], points[|points| - 1], getDistance)
    ensures forall j :: 0 < j < |points| - 1 ==>
              PerpendicularDistance(points[j], points[0], points[|points| - 1], getDistance) <= maxDistance
    ensures forall j :: 0 < j < maxIndex ==>
              PerpendicularDistance(points[j], points[0], points[|points| - 1], getDistance) < maxDistance
  {
    var firstPoint := points[0];
    var lastPoint := points[|points| - 1];
    maxDistance := 0.0;
    maxIndex := 0;
    for i := 1 to |points| - 1
      invariant maxIndex < i
      invariant maxIndex == 0 ==> maxDistance == 0.0
      invariant maxIndex > 0 ==> maxDistance == PerpendicularDistance(points[maxIndex], firstPoint, lastPoint, getDistance)
      invariant forall j :: 0 < j < i ==> PerpendicularDistance(points[j], firstPoint, lastPoint, getDistance) <= maxDistance
      invariant forall j :: 0 < j < maxIndex ==> PerpendicularDistance(points[j], firstPoint, lastPoint, getDistance) < maxDistance
    {
      var distance := PerpendicularDistance(points[i], firstPoint, lastPoint, getDistance);
      if distance > maxDistance {
        maxDistance := distance;
        maxIndex := i;
      }
    }
  }

  /**
   * rdp: keep the two ends; if the interior point farthest from the chord (the first of
   * the farthest) is farther than epsilon, simplify both halves around it and join them,
   * otherwise drop every interior point. The result is a subsequence of the input that
   * keeps both ends, and it is just the two ends exactly when every interior point is
   * within epsilon.
   */
  method Rdp(points: seq<TrackPoint>, epsilon: real, getDistance: DistanceFn) returns (r: seq<TrackPoint>, ghost kept: seq<nat>)
    requires epsilon >= 0.0
    ensures Simplified(points, epsilon, getDistance, r)
    ensures SelectedEnds(points, kept, r)
    ensures Tolerant(points, kept, epsilon, getDistance)
    decreases |points|
  {
    if |points| <= 2 {
      kept := Positions(|points|);
      ShortTrackKept(points, kept, epsilon, getDistance);
      return points, kept;
    }
    var firstPoint := points[0];
    var lastPoint := points[|points| - 1];
    var maxDistance, maxIndex := FarthestFromChord(points, getDistance);
    if maxDistance > epsilon {
      var left, leftKept := Rdp(points[..maxIndex + 1], epsilon, getDistance);
      var right, rightKept := Rdp(points[maxIndex..], epsilon, getDistance);
      RdpJoin(points, epsilon, getDistance, maxIndex, left, right);
      SelectedJoin(points, maxIndex, leftKept, left, rightKept, right);
      TolerantJoin(points, maxIndex, leftKept, rightKept, epsilon, getDistance);
      r := left[..|left| - 1] + right;
      kept := leftKept[..|leftKept| - 1] + Shift(rightKept, maxIndex);
    } else {
      r := [firstPoint, lastPoint];
      kept := [0, |points| - 1];
      ChordKept(points, maxDistance, epsilon, getDistance);
    }
  }

  /** A track of at most two points keeps every position and drops nothing. */
  lemma ShortTrackKept(points: seq<TrackPoint>, kept: seq<nat>, epsilon: real, getDistance: DistanceFn)
    requires |points| <= 2 && |kept| == |points| && forall j :: 0 <= j < |kept| ==> kept[j] == j
    ensures Simplified(points, epsilon, getDistance, points)
    ensures SelectedEnds(points, kept, points)
    ensures Tolerant(points, kept, epsilon, getDistance)
  {
  }

  /** When no interior point is farther than epsilon from the chord, keeping just the ends is tolerant. */
  lemma ChordKept(points: seq<TrackPoint>, maxDistance: real, epsilon: real, getDistance: DistanceFn)
    requires |points| > 2 && maxDistance <= epsilon
    requires forall j :: 0 < j < |points| - 1 ==>
               PerpendicularDistance(points[j], points[0], points[|points| - 1], getDistance) <= maxDistance
    ensures Simplified(points, epsilon, getDistance, [points[0], points[|points| - 1]])
    ensures SelectedEnds(points, [0, |points| - 1], [points[0], points[|points| - 1]])
    ensures Tolerant(points, [0, |points| - 1], epsilon, getDistance)
  {
  }

  /**
   * The position the stride loop reads for its k-th point, floor(k / ratio) with
   * ratio = target / len: inside the track for each of the first `target` strides.
   */
  function StrideIndex(k: nat, len: nat, target: nat): (index: nat)
    requires target > 0
    ensures k < target && len > 0 ==> index < len
  {
    StrideBelowLength(k, len, target);
    (k * len) / target
  }

  /** The integer stride position is the floor of the k-th stride k / ratio computed on reals. */
  lemma StrideIndexIsFloor(k: nat, len: nat, target: nat)
    requires target > 0
    ensures StrideIndex(k, len, target) == ((k as real) * (len as real) / (target as real)).Floor
  {
    ProductAsReal(k, len);
    FloorOfQuotient((k * len) as real, target);
  }

  /** For target < len the stride positions start at 0, strictly increase, and stay below len. */
  lemma StrideIndices(len: nat, target: nat)
    requires 0 < target < len
    ensures StrideIndex(0, len, target) == 0
    ensures forall k :: 0 <= k < target ==> StrideIndex(k, len, target) < len
    ensures forall k, k' :: 0 <= k < k' < target ==> StrideIndex(k, len, target) < StrideIndex(k', len, target)
  {
    forall k | 0 <= k < target
      ensures StrideIndex(k, len, target) < len
    {
      StrideBelowLength(k, len, target);
    }
    forall k, k' | 0 <= k < k' < target
      ensures StrideIndex(k, len, target) < StrideIndex(k', len, target)
    {
      StrideStep(k, k', len, target);
    }
  }

  lemma StrideBelowLength(k: nat, len: nat, target: nat)
    requires target > 0
    ensures k < target && len > 0 ==> (k * len) / target < len
  {
    if k < target && len > 0 {
      assert k * len <= (target - 1) * len by { MulLeInt(k, target - 1, len); }
      assert (target - 1) * len + len == target * len;
      DivBelow(k * len, len, target);
    }
  }

  /**
   * The stride never reads the last position: the last point of the track survives
   * the stride only when an equal point sits at an earlier stride position.
   */
  lemma StrideDropsLast(len: nat, target: nat)
    requires 0 < target < len
    ensures forall k :: 0 <= k < target ==> StrideIndex(k, len, target) < len - 1
  {
    forall k | 0 <= k < target
      ensures StrideIndex(k, len, target) < len - 1
    {
      assert k * len <= (target - 1) * len by { MulLeInt(k, target - 1, len); }
      assert (target - 1) * len + len == target * len;
      assert target * len - len < target * (len - 1);
      DivBelow(k * len, len - 1, target);
    }
  }

  lemma MulLess(a: nat, b: nat, c: nat)
    requires c > 0
    ensures a * c < b * c <==> a < b
  {
    if a < b {
      assert b * c == a * c + (b - a) * c;
    } else {
      MulLeInt(b, a, c);
    }
  }

  /** a < b * c with c > 0 gives a / c < b. */
  lemma DivBelow(a: nat, b: nat, c: nat)
    requires c > 0 && a < c * b
    ensures a / c < b
  {
    var q := a / c;
    assert q * c <= a;
    if q >= b {
      MulLeInt(b, q, c);
    }
  }

  lemma StrideStep(k: nat, k': nat, len: nat, target: nat)
    requires k < k' && 0 < target < len
    ensures (k * len) / target < (k' * len) / target
  {
    var q := (k * len) / target;
    assert q * target <= k * len;
    MulLeInt(k + 1, k', len);
    assert k' * len >= k * len + len;
    assert k' * len >= q * target + target;
    assert k' * len >= (q + 1) * target;
    var q' := (k' * len) / target;
    assert k' * len < (q' + 1) * target;
    if q' <= q {
      MulLeInt(q' + 1, q + 1, target);
    }
  }

  /**
   * The stride loop, in exact arithmetic: `i` runs over 0, 1/ratio, 2/ratio, ... while
   * i < len, with ratio = target / len, and point floor(i) is taken each time. The loop
   * keeps num = i * target, so the test i < len is num < len * target and floor(i) is
   * num / target. With target 0 the stride is Infinity and only i = 0 is visited.
   */
  method Decimate(points: seq<TrackPoint>, target: nat) returns (newPoints: seq<TrackPoint>)
    requires |points| > target
    ensures target == 0 ==> newPoints == [points[0]]
    ensures target > 0 ==> |newPoints| == target
    ensures target > 0 ==> forall k :: 0 <= k < target ==>
              StrideIndex(k, |points|, target) < |points| && newPoints[k] == points[StrideIndex(k, |points|, target)]
  {
    if target == 0 {
      return [points[0]];
    }
    var len := |points|;
    newPoints := [];
    var num := 0;
    while num < len * target
      invariant num == |newPoints| * len
      invariant |newPoints| <= target
      invariant forall k :: 0 <= k < |newPoints| ==>
                  StrideIndex(k, len, target) < len && newPoints[k] == points[StrideIndex(k, len, target)]
      decreases len * target - num
    {
      MulLess(|newPoints|, target, len);
      StrideBelowLength(|newPoints|, len, target);
      newPoints := newPoints + [points[num / target]];
      num := num + len;
    }
    MulLess(|newPoints|, target, len);
  }

  /** The last point of the track is among the strided points only as a copy of an earlier point. */
  lemma DecimateDropsLast(points: seq<TrackPoint>, target: nat, newPoints: seq<TrackPoint>)
    requires 0 < target < |points| && |newPoints| == target
    requires forall k :: 0 <= k < target ==> newPoints[k] == points[StrideIndex(k, |points|, target)]
    ensures points[|points| - 1] in newPoints ==> points[|points| - 1] in points[..|points| - 1]
  {
    if points[|points| - 1] in newPoints {
      var k :| 0 <= k < target && newPoints[k] == points[|points| - 1];
      StrideDropsLast(|points|, target);
      assert points[..|points| - 1][StrideIndex(k, |points|, target)] == points[|points| - 1];
    }
  }

  /** The points the stride keeps are the subsequence at the stride positions. */
  lemma DecimateSelects(points: seq<TrackPoint>, target: nat, newPoints: seq<TrackPoint>)
    requires 0 < target < |points| && |newPoints| == target
    requires forall k :: 0 <= k < target ==>
               StrideIndex(k, |points|, target) < |points| && newPoints[k] == points[StrideIndex(k, |points|, target)]
    ensures Selects(points, seq(target, k requires 0 <= k < target => StrideIndex(k, |points|, target)), newPoints)
  {
    StrideIndices(|points|, target);
  }

  /**
   * The reduction of `reduceGPXTrack` once the track is known not to fit: simplify with
   * `rdp`, and if that still leaves more than the target, keep points at a uniform
   * stride. The result is a subsequence of the track that keeps its first point; it has
   * at most `target` points (one point for a target of 0). `simplified` is `rdp`'s
   * output: it keeps both ends at the positions `kept`, and every point it drops lies
   * within `Epsilon` of the chord between its kept neighbours. The stride runs
   * (`strided`) exactly when `simplified` is longer than the target, and then reads
   * `simplified` at the stride positions; otherwise the result is `simplified` itself.
   */
  method ReducePoints(original: seq<TrackPoint>, target: nat, getDistance: DistanceFn)
    returns (points: seq<TrackPoint>, ghost simplified: seq<TrackPoint>, ghost strided: bool, ghost kept: seq<nat>)
    requires |original| > target
    ensures Simplified(original, Epsilon, getDistance, simplified)
    ensures SelectedEnds(original, kept, simplified) && Tolerant(original, kept, Epsilon, getDistance)
    ensures strided <==> |simplified| > target
    ensures !strided ==> points == simplified
    ensures strided && target == 0 ==> points == [simplified[0]]
    ensures strided && target > 0 ==> |points| == target && forall k :: 0 <= k < target ==>
              StrideIndex(k, |simplified|, target) < |simplified| && points[k] == simplified[StrideIndex(k, |simplified|, target)]
    ensures IsSubsequence(points, original)
    ensures |points| > 0 && points[0] == original[0]
    ensures target > 0 ==> |points| <= target
    ensures target == 0 ==> |points| == 1
    ensures |points| < target ==> points[|points| - 1] == original[|original| - 1]
  {
    strided := false;
    points, kept := Rdp(original, Epsilon, getDistance);
    simplified := points;
    if |points| > target {
      strided := true;
      var newPoints := Decimate(points, target);
      if target > 0 {
        StridedSubsequence(original, kept, points, target, newPoints);
      } else {
        assert Selects(original, [0], newPoints);
      }
      points := newPoints;
    }
  }

  /**
   * `points` comes from `original` as `reduceGPXTrack` produces it: `simplified` is a
   * tolerant, end-keeping `rdp` simplification at positions `kept`, and `points` is
   * `simplified` itself when it fits the target, or `simplified` read at the stride
   * positions when it does not.
   */
  ghost predicate ReducedFrom(original: seq<TrackPoint>, target: nat, getDistance: DistanceFn,
                              simplified: seq<TrackPoint>, strided: bool, kept: seq<nat>, points: seq<TrackPoint>)
  {
    && Simplified(original, Epsilon, getDistance, simplified)
    && SelectedEnds(original, kept, simplified)
    && Tolerant(original, kept, Epsilon, getDistance)
    && (strided <==> |simplified| > target)
    && (!strided ==> points == simplified)
    && (strided && target == 0 ==> |simplified| > 0 && points == [simplified[0]])
    && (strided && target > 0 ==> |points| == target && forall k :: 0 <= k < target ==>
          StrideIndex(k, |simplified|, target) < |simplified| && points[k] == simplified[StrideIndex(k, |simplified|, target)])
  }

  /** Striding a subsequence of a track that keeps its first point gives another such subsequence. */
  lemma StridedSubsequence(original: seq<TrackPoint>, kept: seq<nat>, points: seq<TrackPoint>, target: nat, newPoints: seq<TrackPoint>)
    requires Selects(original, kept, points) && |kept| > 0 && kept[0] == 0
    requires 0 < target < |points| && |newPoints| == target
    requires forall k :: 0 <= k < target ==>
               StrideIndex(k, |points|, target) < |points| && newPoints[k] == points[StrideIndex(k, |points|, target)]
    ensures IsSubsequence(newPoints, original)
    ensures newPoints[0] == original[0]
  {
    DecimateSelects(points, target, newPoints);
    var inner := seq(target, k requires 0 <= k < target => StrideIndex(k, |points|, target));
    SelectsCompose(original, kept, points, inner, newPoints);
    StrideIndices(|points|, target);
  }

  class GPXTrackReducer {
    var gpxDocStr: string
    var gpxTrack: GPXTrack

    ghost predicate Valid()
      reads this, gpxTrack
    {
      gpxTrack.Valid()
    }

    /** The reducer over a document and the track parsed from it. */
    constructor (gpxDocStr: string, gpxTrack: GPXTrack)
      requires gpxTrack.Valid()
      ensures Valid() && this.gpxDocStr == gpxDocStr && this.gpxTrack == gpxTrack
    {
      this.gpxDocStr := gpxDocStr;
      this.gpxTrack := gpxTrack;
    }

    /**
     * reduceGPXTrack: a track that already fits is left alone and the document text is
     * returned; otherwise the track is simplified, strided down if still too long, and
     * replaced, and nothing is returned.
     */
    method ReduceGPXTrack(targetPointsLen: nat, serialize: seq<TrackPoint> -> string)
      returns (result: Option<string>, ghost simplified: seq<TrackPoint>, ghost strided: bool, ghost kept: seq<nat>)
      requires Valid()
      modifies this
      ensures Valid()
      ensures |old(gpxTrack.trackPoints)| <= targetPointsLen ==>
                result == Some(old(gpxDocStr)) && gpxTrack == old(gpxTrack) && gpxDocStr == old(gpxDocStr)
      ensures |old(gpxTrack.trackPoints)| > targetPointsLen ==>
                && result == None
                && fresh(gpxTrack)
                && gpxTrack.getDistance == old(gpxTrack.getDistance)
                && gpxDocStr == serialize(gpxTrack.trackPoints)
                && IsSubsequence(gpxTrack.trackPoints, old(gpxTrack.trackPoints))
                && gpxTrack.trackPoints[0] == old(gpxTrack.trackPoints)[0]
                && (targetPointsLen > 0 ==> |gpxTrack.trackPoints| <= targetPointsLen)
                && (targetPointsLen == 0 ==> |gpxTrack.trackPoints| == 1)
                && ReducedFrom(old(gpxTrack.trackPoints), targetPointsLen, old(gpxTrack.getDistance),
                               simplified, strided, kept, gpxTrack.trackPoints)
                && (|gpxTrack.trackPoints| < targetPointsLen ==>
                      gpxTrack.trackPoints[|gpxTrack.trackPoints| - 1] == old(gpxTrack.trackPoints)[|old(gpxTrack.trackPoints)| - 1])
    {
      if |gpxTrack.trackPoints| <= targetPointsLen {
        return Some(gpxDocStr), [], false, [];
      }
      ghost var original, getDistance := gpxTrack.trackPoints, gpxTrack.getDistance;
      var points;
      points, simplified, strided, kept := ReducePoints(gpxTrack.trackPoints, targetPointsLen, gpxTrack.getDistance);
      assert ReducedFrom(original, targetPointsLen, getDistance, simplified, strided, kept, points);
      Update(points, serialize);
      assert gpxTrack.trackPoints == points && gpxTrack.getDistance == getDistance;
      return None, simplified, strided, kept;
    }

    /**
     * update: replace the document with the serialised points and the track with one
     * built from them.
     */
    method Update(newPoints: seq<TrackPoint>, serialize: seq<TrackPoint> -> string)
      requires Valid() && |newPoints| > 0 && newPoints[0].datetime.Some?
      modifies this
      ensures Valid() && fresh(gpxTrack)
      ensures gpxTrack.trackPoints == newPoints && gpxTrack.getDistance == old(gpxTrack.getDistance)
      ensures gpxDocStr == serialize(newPoints)
    {
      gpxDocStr := serialize(newPoints);
      gpxTrack := new GPXTrack(newPoints, gpxTrack.getDistance);
    }
  }
}
