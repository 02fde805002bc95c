# GPX track analysis and reduction, modelled in Dafny

A browser extension for Peakbagger reads a GPX recording of a hike. It does three things with it:
- It computes the statistics of the ascent form: length in miles, net gain, cumulative gain and loss with a 10 m noise threshold, duration, start date and start and end elevation.
- It finds the track point closest to each candidate summit and splits the track there into an up-track and a down-track.
- It shrinks tracks that are too large to upload: Ramer-Douglas-Peucker simplification first, then, if needed, keeping points at a uniform stride.

The popup also keeps the candidate peaks the track passes within 500 feet of, nearest first, and labels them for display.

The model covers those parts of `gpx-utils.js` and `getPeaksOnTrack` in `popup.js`:

- `geo.dfy` (module `Geo`): the track point record, the distance function, meters to feet, and the length of a track.
- `elevation.dfy` (module `Elevation`): specification functions for the elevation statistics (span, the noise-filtered gain and loss walks), the duration arithmetic with JavaScript's truncating `%`, and the start date.
- `track.dfy` (module `Track`): class `GPXTrack`. Its getters memoise into private fields. Each getter fills a field that is `None` (`null`) and returns it, and the class invariant says every filled field holds what its getter computes. The getters' loops are methods proved against the specification functions.
- `peak_track.dfy` (module `PeakTrack`): class `GPXPeakTrack`. It holds the closest-point scan and the split at the closest point, and construction fails where the source throws.
- `reducer.dfy` (module `Reducer`): class `GPXTrackReducer` with `rdp`, `perpendicularDistance`, the stride loop and `update`. It proves that the result is a subsequence of the track that keeps its first point and respects the target, and that `rdp` drops only points within epsilon of the chord between the kept points around them.
- `popup.dfy` (module `Popup`): `getPeaksOnTrack` as filter, sort and map over value records.

Modelling decisions:
- The haversine `getDistance` is a parameter of type `DistanceFn`, about which only non-negativity is known.
- A point's `datetime` is `None` when its `<time>` element is missing. The time its timestamp parses to (`new Date(datetime)`) is a field `timeMs` of the point.
- The XML text that `update` builds is a `serialize` parameter.
- An operation that throws returns `Failure` of a `Result`.

Where the code differs from what its names, comments or surrounding code suggest, the model follows the code:
- `netGainFt` is the highest minus the lowest elevation, but it is never converted to feet. The model returns meters.
- The up-track is `trackPoints.slice(0, peakIndex)`. It excludes the closest point, which starts the down-track, so the two legs do not share it. When the closest point is the first point, the up-track is empty and its constructor throws.
- The stride is `1 / (targetPointsLen / points.length)`, without a margin. It yields exactly `targetPointsLen` points (one point for a target of 0). Because the stride `points.length / targetPointsLen` is above 1, the last position read, `floor((targetPointsLen - 1) * points.length / targetPointsLen)`, is at most `points.length - 2`, so the last position is never read. The last point of the track survives only when an equal point sits at an earlier stride position.
- `findClosestPointToPeak` reads `peakCoordinates.lng`. The popup builds the coordinates with `lon` (popup.js:204), while the background script produces `lng` (background.js:24-25). `Coordinates` has the field `lng` the code reads.
- `reduceGPXTrack` returns the document text only when no reduction is needed, and would return `undefined` after a reduction; as written, `update` throws first (see `Reducer.GPXTrackReducer.Update` under "## Left out"). The popup (popup.js:69) reads a truthy result as "reduced".
- Nothing in `GPXPeakTrack` sets `closestDistanceFtToPeak`. For every peak built that way the distance is `None` and `IsNearby` is false, so the popup offers no peak (`NoDistanceNoChoices`).

## Model

| member | source | states |
|---|---|---|
| Geo.MetersToFeet | gpx-utils.js:256-258 | conversion keeps the sign and does not shrink the magnitude |
| Geo.PathLength | gpx-utils.js:276-286 | a track's length is non-negative |
| Geo.PathLengthSplit | gpx-utils.js:124-125 | splitting a track at k gives the up length plus the down length plus the one leg lost between points k-1 and k |
| Geo.TrackLengthMeters | gpx-utils.js:276-286 | the loop computes the summed leg length `PathLength`, which is non-negative; empty and one-point tracks give 0 |
| Elevation.MaxOf | gpx-utils.js:50-59 | the highest elevation occurs in the list and bounds every element |
| Elevation.MinOf | gpx-utils.js:50-59 | the lowest elevation occurs in the list and bounds every element |
| Elevation.ExtremesOfSnoc | gpx-utils.js:52-59 | extending the list by one element updates the highest and lowest as the loop's if / else-if does, and the lowest never exceeds the highest (so a new high is never a new low) |
| Elevation.ElevationSpan | gpx-utils.js:48-63 | the span is non-negative, bounds every difference of two elevations and is attained by some pair |
| Elevation.GainWalk | gpx-utils.js:65-80 | accumulated gain equals the final baseline minus the first elevation and is non-negative |
| Elevation.LossWalk | gpx-utils.js:82-97 | accumulated loss equals the first elevation minus the final baseline and is non-negative |
| Elevation.GainMeters | gpx-utils.js:65-80 | the cumulative gain from the first elevation is non-negative, and zero exactly when no elevation rises more than 10 m above the first |
| Elevation.LossMeters | gpx-utils.js:82-97 | the cumulative loss from the first elevation is non-negative, and zero exactly when no elevation drops more than 10 m below the first |
| Elevation.GainWalkSteps | gpx-utils.js:70-76 | the baselines start at the first elevation; each rises by more than 10 m and is an elevation of the track; the gain is at least 10 m per counted rise |
| Elevation.LossWalkSteps | gpx-utils.js:87-93 | the baselines start at the first elevation; each drops by more than 10 m and is an elevation of the track; the loss is at least 10 m per counted drop |
| Elevation.GainWalkStep | gpx-utils.js:71-75 | one more elevation either adds its rise and becomes the baseline (rise > 10 m) or changes nothing |
| Elevation.LossWalkStep | gpx-utils.js:88-92 | one more elevation either adds its drop and becomes the baseline (drop > 10 m) or changes nothing |
| Elevation.GainZeroWithinThreshold | gpx-utils.js:70-76 | the gain walk accumulates zero, and keeps its first baseline, exactly when no elevation rises more than 10 m above the start |
| Elevation.LossZeroWithinThreshold | gpx-utils.js:87-93 | the loss walk accumulates zero, and keeps its first baseline, exactly when no elevation drops more than 10 m below the start |
| Elevation.GainWithinSpan | gpx-utils.js:65-80 | the filtered gain lies between 0 and the highest minus the lowest elevation |
| Elevation.LossWithinSpan | gpx-utils.js:82-97 | the filtered loss lies between 0 and the highest minus the lowest elevation |
| Elevation.LossIsMirroredGain | gpx-utils.js:65-97 | the loss of a track equals the gain of the track negated |
| Elevation.Trunc | gpx-utils.js:105-106 | truncation toward zero: floor for non-negative values, within 1 above a negative value otherwise |
| Elevation.JsRemainder | gpx-utils.js:105-106 | JavaScript's `%` by a positive divisor leaves a remainder with the dividend's sign and a magnitude below the divisor |
| Elevation.SplitMinutes | gpx-utils.js:103-107 | for a non-negative span, days*1440 + hours*60 + minutes is the whole minutes elapsed, with days >= 0, 0 <= hours < 24 and 0 <= minutes < 60 |
| Elevation.FloorOfQuotient | gpx-utils.js:104-105 | for non-negative minutes and a positive divisor (1440 for days, 60 for hours), flooring the real quotient equals integer division of the whole minutes |
| Elevation.RemainderOfNonNegative | gpx-utils.js:105-106 | for non-negative minutes, the JavaScript remainder is non-negative and its floor is the whole minutes modulo m |
| Elevation.WholeMinutesSplit | gpx-utils.js:104-106 | whole minutes split as days*1440 + hours*60 + minutes, with hours below 24 |
| Elevation.StartDate | gpx-utils.js:22 | the start date is the prefix of the timestamp before its first 'T', the whole text when it has none |
| Track.ElapsedMinutes | gpx-utils.js:101-103 | the elapsed minutes are the millisecond difference over 60000, non-negative exactly when the last point is not earlier than the first |
| Track.MeasureSpan | gpx-utils.js:50-60 | the highest/lowest loop returns `ElevationSpan` of the elevations |
| Track.MeasureGain | gpx-utils.js:66-77 | the gain loop returns the gain walk's total from the first elevation |
| Track.MeasureLoss | gpx-utils.js:83-94 | the loss loop returns the loss walk's total from the first elevation |
| Track.GPXTrack.constructor | gpx-utils.js:17-25 | for points whose first has a time: first and last point, start date and start/end elevation in feet come from the points; all caches empty |
| Track.GPXTrack.New | gpx-utils.js:17-22 | construction fails exactly on an empty point list (no first point) or a first point without a time (no `datetime` to split), and otherwise yields a valid track over the points |
| Track.GPXTrack.Miles | gpx-utils.js:41-46 | returns path length / 1609.34 (non-negative), caches it, and keeps the class invariant |
| Track.GPXTrack.NetGainFt | gpx-utils.js:48-63 | returns the elevation span, in meters as written, and caches it |
| Track.GPXTrack.GainFt | gpx-utils.js:65-80 | returns the filtered gain in feet (non-negative) and caches it |
| Track.GPXTrack.LossFt | gpx-utils.js:82-97 | returns the filtered loss in feet (non-negative) and caches it |
| Track.GPXTrack.GetDuration | gpx-utils.js:99-110 | returns the days/hours/minutes split of the elapsed minutes and caches it; for a forward span the parts add up and are in range |
| PeakTrack.FirstClosestUnique | gpx-utils.js:141-148 | at most one index is the first closest point |
| PeakTrack.SplitAtClosest | gpx-utils.js:123-125 | the two slices concatenate to the track; the up part has peakIndex points and lacks the closest point; the down part starts with it |
| PeakTrack.GPXPeakTrack.constructor | gpx-utils.js:118-121 | for points whose first has a time, the peak track is over the points and has located its first closest point to (lat, lng) |
| PeakTrack.GPXPeakTrack.FindClosestPointToPeak | gpx-utils.js:128-135 | records the first closest point to the summit's `lat`/`lng` and its index |
| PeakTrack.GPXPeakTrack.FindClosestPointToCoordinates | gpx-utils.js:137-150 | the returned point is at its index, no point is closer, and every earlier point is strictly farther |
| PeakTrack.GPXPeakTrack.Create | gpx-utils.js:118-126 | fails exactly when the track is empty, its first point has no time, the first point is the closest, or the closest point has no time, with the error of the first of these checks to throw; otherwise the two legs concatenate to the track, the up-track has peakIndex > 0 points without the closest point, and the down-track starts at it |
| Reducer.SelectsJoin | gpx-utils.js:229-232 | joining the left result without its last point to the right result gives a subsequence of the whole, whose positions start with the left's first and end with the right's last |
| Reducer.RdpJoin | gpx-utils.js:229-232 | if both halves around an interior point beyond epsilon are simplified (`Simplified`), their join simplifies the whole track |
| Reducer.SelectedJoin | gpx-utils.js:229-232 | the joined positions select the joined result from the whole track and run from its first to its last point |
| Reducer.TolerantJoin | gpx-utils.js:229-232 | if every point dropped from either half lies within epsilon of its kept neighbours' chord, the same holds for the joined result in the whole track |
| Reducer.SelectsCompose | gpx-utils.js:173-181 | a subsequence of a subsequence is a subsequence |
| Reducer.PerpendicularDistance | gpx-utils.js:238-253 | the distance is non-negative; with coincident ends it is the distance to the start |
| Reducer.FarthestFromChord | gpx-utils.js:214-227 | the maximum interior distance from the chord at its first index, or index 0 and distance 0 when none is positive |
| Reducer.Rdp | gpx-utils.js:206-236 | `Simplified`, `SelectedEnds` and `Tolerant`: the result is a subsequence keeping both ends; tracks of at most 2 points are unchanged; longer ones keep between 2 and all points, and just the two ends exactly when every interior point is within epsilon; every dropped point lies within epsilon of the chord between the kept points on either side of it |
| Reducer.StrideIndex | gpx-utils.js:176-179 | the k-th position read is inside the track for each of the first `target` strides |
| Reducer.StrideIndexIsFloor | gpx-utils.js:179 | the k-th position read equals the floor of k * len / target computed on reals, so the integer stride agrees with the source's `Math.floor(i)` |
| Reducer.StrideIndices | gpx-utils.js:176-179 | stride positions start at 0, strictly increase and stay below the length |
| Reducer.StrideDropsLast | gpx-utils.js:176-179 | when the target is below the length, no stride position is the last index |
| Reducer.DecimateDropsLast | gpx-utils.js:175-181 | the last point is among the strided points only if an equal point occurs earlier in the track |
| Reducer.StrideStep | gpx-utils.js:178-179 | while the target is below the length, later stride positions are strictly greater |
| Reducer.Decimate | gpx-utils.js:175-182 | the stride loop yields exactly `target` points at the stride positions, or the first point alone for target 0 |
| Reducer.DecimateSelects | gpx-utils.js:175-182 | the strided points are a subsequence of the simplified track |
| Reducer.StridedSubsequence | gpx-utils.js:170-182 | striding a subsequence that keeps the first point yields a subsequence of the original that keeps it |
| Reducer.ReducePoints | gpx-utils.js:170-182 | `simplified` is rdp's output with epsilon 0.00001 (`Simplified`, `SelectedEnds`, `Tolerant`); the stride runs exactly when it is longer than the target; the result is `simplified` itself otherwise, and when the stride runs it is `simplified` read at the stride positions (its first point alone for target 0); in all cases a subsequence keeping the first point, with at most `target` points, keeping the last point whenever fewer than target remain |
| Reducer.GPXTrackReducer.constructor | gpx-utils.js:159-164 | the reducer holds the document text and its track |
| Reducer.GPXTrackReducer.ReduceGPXTrack | gpx-utils.js:166-185 | a track that fits returns the document and changes nothing; otherwise the result is `undefined` and the track is replaced by the points ReducePoints produces (`ReducedFrom`: rdp's tolerant, end-keeping output, strided at the stride positions exactly when it is longer than the target), with the document re-serialised |
| Reducer.GPXTrackReducer.Update | gpx-utils.js:187-204 | the document becomes the serialised points and the track a fresh track over them |
| Popup.IsNearby | popup.js:170-172 | a nearby candidate has a defined distance under 500 ft; an undefined distance is never nearby |
| Popup.FilterNearby | popup.js:170-172 | keeps every candidate under 500 ft as often as it occurs, and nothing else; its length is the number of such candidates |
| Popup.Insert | popup.js:175-176 | inserting into a sorted list keeps it sorted, adds exactly that element, and puts either it or the old head first |
| Popup.ConsSorted | popup.js:175-176 | a sorted list under a head no farther than its old head stays sorted |
| Popup.SortByDistance | popup.js:175-176 | the sorted list is a permutation of the input in non-decreasing distance |
| Popup.DigitChar | popup.js:178 | a digit character whose code is the digit |
| Popup.Label | popup.js:178 | the label is the name, ", ", the location, " (", a rendering of the elevation that parses back to the elevation, and "')" |
| Popup.NatToString | popup.js:178 | non-empty decimal digits without a leading zero |
| Popup.IntToString | popup.js:178 | non-empty, and starts with '-' exactly for negative numbers |
| Popup.NatToStringRoundTrip | popup.js:178 | reading the digits back gives the number |
| Popup.IntToStringRoundTrip | popup.js:178 | the elevation in a label parses back (as `parseInt` would) to the elevation itself |
| Popup.ChooseAll | popup.js:177-181 | one entry per candidate, in order, each holding the candidate, its id and its label |
| Popup.AllNearby | popup.js:170-176 | sorting the filtered candidates keeps only candidates under 500 ft |
| Popup.GetPeaksOnTrack | popup.js:167-188 | each candidate under 500 ft appears exactly as often as in the input and no other does; the count equals the number of nearby candidates; entries are in non-decreasing distance; each entry has the peak's id and its `name, location (elevation')` label |
| Popup.NearbyPeaksOffered | popup.js:170-181 | every candidate under 500 ft appears in the result |
| Popup.NoDistanceNoChoices | popup.js:170-172 | candidates without `closestDistanceFtToPeak` (an undefined distance compares false with 500) yield no choice at all, which is what the popup gets from peaks built by `GPXPeakTrack` |

## Left out

- The haversine formula (gpx-utils.js:260-274): trigonometry on floating point. Distances are a parameter known only to be non-negative.
- Parsing of the GPX XML (`fromGpxDoc`, the `DOMParser` calls) and of timestamps (`new Date`). Points arrive already parsed, with the parsed time as `timeMs`. A missing `<time>` on a point other than the first makes `new Date(undefined)` `NaN`; the model takes `timeMs` as given and does not model that `NaN`.
- Floating point throughout: reals are exact, so rounding, NaN and Infinity do not arise.
- Track.GPXTrack.Miles: returns the unrounded number. The `toFixed(2)` two-decimal string is not modelled.
- Track.GPXTrack.GetDuration: the split is proved exact only for a non-negative span. For a negative span, JavaScript's truncating `%` makes hours and minutes negative, and the model computes exactly that without stating a bound.
- PeakTrack.GPXPeakTrack.Create: the summit coordinate is read as `lng`, as the code does. The `NaN` longitude the popup's `{lat, lon}` object produces, and the all-`NaN` distance scan that follows, are not modelled.
- Reducer.Decimate: uses exact arithmetic for `i += 1 / reductionRatio`. A floating-point accumulation that lands just below an integer could read an earlier point or add one extra iteration; that is not modelled. A target of 0 (stride Infinity) is modelled as taking the first point alone.
- Reducer.Rdp: requires epsilon >= 0. With a negative epsilon the source recurses forever on a segment whose interior points all lie on the chord (maxIndex stays 0), and `reduceGPXTrack` only passes 0.00001.
- Reducer.GPXTrackReducer.ReduceGPXTrack: `targetPointsLen` is a `nat`. With a negative target the source's stride `1 / reductionRatio` is negative, so its loop never ends; the only caller passes 3000.
- Reducer.PerpendicularDistance: when the squared chord length underflows to zero the source divides by zero. The model uses 0 for the projection parameter there; in exact arithmetic that case does not occur.
- Reducer.GPXTrackReducer.Update: models the evident intent, which is to serialise the points and rebuild the track from them. As written, the code calls `fromGpxDoc` on an instance of `new GPXTrack()` with no points (which throws), passes the undefined `this.xmlDoc`, and writes `point.ele`/`point.time`, which parsed points never have. The serialisation itself is the `serialize` parameter. The rebuilt track keeps each point's time, so `Update` requires the first point to have one; the points `reduceGPXTrack` passes start with the first point of a track that was built, which has one.
- Reducer.GPXTrackReducer.constructor: takes the already parsed track instead of parsing `gpxDocStr`. As written it throws for the same `new GPXTrack()` reason.
- Popup.GetPeaksOnTrack: candidates are immutable values, so "the caller's array is not reordered" holds by construction. `Insert` places a candidate after every one at the same distance, so the sort is stable as JavaScript's is, but that order among equal distances is not stated in a contract. An `elevationFt` of `NaN` and a `null` name or location are not modelled.
- The rest of `popup.js`, and `content.js`, `background.js` and `download-gpx-content.js`: DOM handling, messaging, network calls and page scraping. `content.js` reads `toPeakTrack`/`fromPeakTrack`, which no class defines; those files are not part of this model.
