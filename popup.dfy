/**
 * The popup's choice of peaks to offer for a track: the candidates whose closest
 * approach to the track is under 500 feet, nearest first, each with a display label.
 */
module Popup {
  import opened Wrappers

  /** A peak within this many feet of the track counts as on the track. */
  const NearbyFt: real := 500.0

  /**
   * The fields `getPeaksOnTrack` reads from a candidate peak track: the metadata the
   * peak search attaches, and the closest distance, which is None while it is
   * `undefined`.
   */
  datatype PeakCandidate = PeakCandidate(
    id: int,
    name: string,
    location: string,
    elevationFt: int,
    closestDistanceFtToPeak: Option<real>)

  /** One entry of the list `getPeaksOnTrack` returns. */
  datatype PeakChoice = PeakChoice(name: string, peakId: int, gpxPeakTrack: PeakCandidate)

  /**
   * `closestDistanceFtToPeak < 500`: a nearby candidate has a defined distance, which is
   * its sort key, under 500 feet; an `undefined` distance compares false.
   */
  predicate IsNearby(peak: PeakCandidate): (nearby: bool)
    ensures nearby ==> peak.closestDistanceFtToPeak == Some(DistanceFt(peak)) && DistanceFt(peak) < NearbyFt
    ensures peak.closestDistanceFtToPeak.None? ==> !nearby
  {
    peak.closestDistanceFtToPeak.Some? && peak.closestDistanceFtToPeak.value < NearbyFt
  }

  /** The sort key; only ever applied to nearby peaks, whose distance is defined. */
  function DistanceFt(peak: PeakCandidate): real {
    match peak.closestDistanceFtToPeak
    case Some(d) => d
    case None => 0.0
  }

  /** Number of candidates that are nearby, counted independently of the filter. */
  function CountNearby(peaks: seq<PeakCandidate>): nat {
    if |peaks| == 0 then 0
    else CountNearby(peaks[..|peaks| - 1]) + (if IsNearby(peaks[|peaks| - 1]) then 1 else 0)
  }

  /**
   * `peaks.filter(...)`: the nearby candidates, each as often as it occurs in the input,
   * and nothing else.
   */
  function FilterNearby(peaks: seq<PeakCandidate>): (nearby: seq<PeakCandidate>)
    ensures |nearby| == CountNearby(peaks)
    ensures forall i :: 0 <= i < |nearby| ==> IsNearby(nearby[i])
    ensures forall p :: multiset(nearby)[p] == if IsNearby(p) then multiset(peaks)[p] else 0
  {
    if |peaks| == 0 then []
    else
      var init := peaks[..|peaks| - 1];
      var last := peaks[|peaks| - 1];
      assert peaks == init + [last];
      FilterNearby(init) + (if IsNearby(last) then [last] else [])
  }

  ghost predicate SortedByDistance(peaks: seq<PeakCandidate>) {
    forall i, j :: 0 <= i < j < |peaks| ==> DistanceFt(peaks[i]) <= DistanceFt(peaks[j])
  }

  /** Inserts `peak` after every element whose distance does not exceed its own. */
  function Insert(peak: PeakCandidate, sorted: seq<PeakCandidate>): (r: seq<PeakCandidate>)
    requires SortedByDistance(sorted)
    ensures |r| == |sorted| + 1
    ensures multiset(r) == multiset(sorted) + multiset{peak}
    ensures r[0] == peak || (|sorted| > 0 && r[0] == sorted[0])
    ensures SortedByDistance(r)
  {
    if |sorted| == 0 then [peak]
    else if DistanceFt(peak) < DistanceFt(sorted[0]) then
      ConsSorted(peak, sorted);
      [peak] + sorted
    else
      var rest := Insert(peak, sorted[1..]);
      assert sorted == [sorted[0]] + sorted[1..];
      ConsSorted(sorted[0], rest);
      [sorted[0]] + rest
  }

  /** A sorted list stays sorted under a new head no farther than its old head. */
  lemma ConsSorted(first: PeakCandidate, rest: seq<PeakCandidate>)
    requires SortedByDistance(rest)
    requires |rest| > 0 ==> DistanceFt(first) <= DistanceFt(rest[0])
    ensures SortedByDistance([first] + rest)
  {
    var s := [first] + rest;
    forall i, j | 0 <= i < j < |s|
      ensures DistanceFt(s[i]) <= DistanceFt(s[j])
    {
      if i == 0 && j > 1 {
        assert DistanceFt(rest[0]) <= DistanceFt(rest[j - 1]);
      }
    }
  }

  /**
   * `.sort((a, b) => a.closestDistanceFtToPeak - b.closestDistanceFtToPeak)`: the same
   * candidates in order of non-decreasing distance.
   */
  function SortByDistance(peaks: seq<PeakCandidate>): (sorted: seq<PeakCandidate>)
    ensures SortedByDistance(sorted)
    ensures multiset(sorted) == multiset(peaks)
    ensures |sorted| == |peaks|
  {
    if |peaks| == 0 then []
    else
      var init := peaks[..|peaks| - 1];
      assert peaks == init + [peaks[|peaks| - 1]];
      Insert(peaks[|peaks| - 1], SortByDistance(init))
  }

  function DigitChar(d: nat): (c: char)
    requires d < 10
    ensures '0' <= c <= '9' && c as int - '0' as int == d
  {
    ('0' as int + d) as char
  }

  predicate IsDigits(s: string) {
    forall i :: 0 <= i < |s| ==> '0' <= s[i] <= '9'
  }

  /** Decimal digits of n, most significant first, without leading zeros. */
  function NatToString(n: nat): (s: string)
    ensures |s| > 0 && IsDigits(s)
    ensures |s| > 1 ==> s[0] != '0'
    decreases n
  {
    if n < 10 then [DigitChar(n)] else NatToString(n / 10) + [DigitChar(n % 10)]
  }

  /** How a template literal renders an integer. */
  function IntToString(n: int): (s: string)
    ensures |s| > 0
    ensures n < 0 <==> s[0] == '-'
  {
    if n < 0 then "-" + NatToString(-n) else NatToString(n)
  }

  /** The value of a string of decimal digits. */
  function ParseDigits(s: string): nat
    requires IsDigits(s)
  {
    if |s| == 0 then 0
    else ParseDigits(s[..|s| - 1]) * 10 + (s[|s| - 1] as int - '0' as int)
  }

  /** `parseInt` on an optionally signed run of decimal digits. */
  function ParseInt(s: string): int
    requires |s| > 0 && (IsDigits(s) || (s[0] == '-' && IsDigits(s[1..])))
  {
    if s[0] == '-' then 0 - ParseDigits(s[1..]) else ParseDigits(s)
  }

  lemma {:induction false} NatToStringRoundTrip(n: nat)
    ensures ParseDigits(NatToString(n)) == n
    decreases n
  {
    if n >= 10 {
      NatToStringRoundTrip(n / 10);
      var s := NatToString(n);
      assert s[..|s| - 1] == NatToString(n / 10);
    }
  }

  /** The elevation shown in a label reads back as the elevation itself. */
  lemma IntToStringRoundTrip(n: int)
    ensures var s := IntToString(n);
            && (IsDigits(s) || (s[0] == '-' && IsDigits(s[1..])))
            && ParseInt(s) == n
  {
    if n < 0 {
      NatToStringRoundTrip(-n);
      assert IntToString(n)[1..] == NatToString(-n);
    } else {
      NatToStringRoundTrip(n);
    }
  }

  /**
   * The display name `name, location (elevation')`: the name, ", ", the location, " (",
   * a rendering of the elevation that reads back as the elevation, and "')".
   */
  function Label(peak: PeakCandidate): (text: string)
    ensures var n, l := |peak.name|, |peak.location|;
            && |text| >= n + l + 6
            && text[..n] == peak.name && text[n..n + 2] == ", "
            && text[n + 2..n + 2 + l] == peak.location && text[n + 2 + l..n + 4 + l] == " ("
            && text[|text| - 2..] == "')"
            && var e := text[n + 4 + l..|text| - 2];
               && |e| > 0 && (IsDigits(e) || (e[0] == '-' && IsDigits(e[1..])))
               && ParseInt(e) == peak.elevationFt
  {
    var e := IntToString(peak.elevationFt);
    IntToStringRoundTrip(peak.elevationFt);
    var text := peak.name + ", " + peak.location + " (" + e + "')";
    var n, l := |peak.name|, |peak.location|;
    assert text[n + 4 + l..|text| - 2] == e;
    assert text[n..n + 2] == ", " && text[n + 2 + l..n + 4 + l] == " (" && text[|text| - 2..] == "')";
    text
  }

  function Tracks(choices: seq<PeakChoice>): (peaks: seq<PeakCandidate>)
    ensures |peaks| == |choices| && forall i :: 0 <= i < |choices| ==> peaks[i] == choices[i].gpxPeakTrack
  {
    seq(|choices|, i requires 0 <= i < |choices| => choices[i].gpxPeakTrack)
  }

  /**
   * getPeaksOnTrack: every candidate closer than 500 feet appears exactly as often as in
   * the input, nothing else does, nearest first, each labelled and carrying its own id.
   */
  function GetPeaksOnTrack(peaks: seq<PeakCandidate>): (choices: seq<PeakChoice>)
    ensures |choices| == CountNearby(peaks)
    ensures forall i :: 0 <= i < |choices| ==>
              IsNearby(choices[i].gpxPeakTrack) && DistanceFt(choices[i].gpxPeakTrack) < NearbyFt
    ensures forall i, j :: 0 <= i < j < |choices| ==>
              DistanceFt(choices[i].gpxPeakTrack) <= DistanceFt(choices[j].gpxPeakTrack)
    ensures forall p :: multiset(Tracks(choices))[p] == if IsNearby(p) then multiset(peaks)[p] else 0
    ensures forall i :: 0 <= i < |choices| ==>
              choices[i].peakId == choices[i].gpxPeakTrack.id && choices[i].name == Label(choices[i].gpxPeakTrack)
  {
    var nearby := FilterNearby(peaks);
    var sorted := SortByDistance(nearby);
    AllNearby(nearby, sorted);
    ChooseAll(sorted)
  }

  /** `.map(...)`: one labelled entry per candidate, in order. */
  function ChooseAll(peaks: seq<PeakCandidate>): (choices: seq<PeakChoice>)
    ensures Tracks(choices) == peaks
    ensures forall i :: 0 <= i < |choices| ==> choices[i] == PeakChoice(Label(peaks[i]), peaks[i].id, peaks[i])
  {
    var choices := seq(|peaks|, i requires 0 <= i < |peaks| => PeakChoice(Label(peaks[i]), peaks[i].id, peaks[i]));
    assert Tracks(choices) == peaks;
    choices
  }

  /** A rearrangement of nearby candidates holds only nearby candidates. */
  lemma AllNearby(nearby: seq<PeakCandidate>, sorted: seq<PeakCandidate>)
    requires forall i :: 0 <= i < |nearby| ==> IsNearby(nearby[i])
    requires multiset(sorted) == multiset(nearby)
    ensures forall i :: 0 <= i < |sorted| ==> IsNearby(sorted[i])
  {
    forall i | 0 <= i < |sorted|
      ensures IsNearby(sorted[i])
    {
      assert sorted[i] in multiset(nearby);
    }
  }

  /** Every nearby candidate is offered. */
  lemma NearbyPeaksOffered(peaks: seq<PeakCandidate>, k: nat)
    requires k < |peaks| && IsNearby(peaks[k])
    ensures exists i :: 0 <= i < |GetPeaksOnTrack(peaks)| && GetPeaksOnTrack(peaks)[i].gpxPeakTrack == peaks[k]
  {
    var choices := GetPeaksOnTrack(peaks);
    assert peaks[k] in multiset(peaks);
    assert peaks[k] in multiset(Tracks(choices));
    assert peaks[k] in Tracks(choices);
    var i :| 0 <= i < |choices| && Tracks(choices)[i] == peaks[k];
  }

  /**
   * Candidates that carry no distance to their peak are never nearby, so a list made
   * only of them offers no choice.
   */
  lemma {:induction false} NoDistanceNoChoices(peaks: seq<PeakCandidate>)
    requires forall i :: 0 <= i < |peaks| ==> peaks[i].closestDistanceFtToPeak.None?
    ensures GetPeaksOnTrack(peaks) == []
    decreases |peaks|
  {
    if |peaks| > 0 {
      NoDistanceNoChoices(peaks[..|peaks| - 1]);
    }
  }
}
