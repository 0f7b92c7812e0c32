/**
 * scraper/normalize_italo.py, `extract_stops_from_train_schedule`: one raw train
 * payload becomes a normalized schedule. Stops are gathered (origin, stopping
 * stations, non-stopping stations), stably sorted by station number, their times
 * reconciled, and the endpoint times stripped.
 */
module Normalize {
  import opened Wrappers
  import opened Text
  import opened Times

  /** Station number given to a stop without a usable `StationNumber` (Python's `10**9`). */
  const Sentinel: int := 1_000_000_000

  /**
   * One stop object of the payload. `stationNumber` is what Python's `int()` makes of
   * the `StationNumber` field, None when the field is absent or `int()` raises.
   */
  datatype RawStop = RawStop(
    stationNumber: Option<int>,
    locationDescription: Option<string>,
    locationCode: Option<string>,
    rfiLocationCode: Option<string>,
    estimatedArrivalTime: Option<string>,
    estimatedDepartureTime: Option<string>)

  /** A JSON value where a stop object is expected: falsy (`{}` or `null`) or a non-empty object. */
  datatype RawObject = Falsy | Object(stop: RawStop)

  datatype TrainSchedule = TrainSchedule(
    stazionePartenza: RawObject,
    stazioniFerme: seq<RawObject>,
    stazioniNonFerme: seq<RawObject>,
    departureStationDescription: Option<string>,
    arrivalStationDescription: Option<string>,
    departureStation: Option<string>,
    arrivalStation: Option<string>)

  /** The raw payload; `trainSchedule` is None when `TrainSchedule` is missing or falsy. */
  datatype RawRecord = RawRecord(isEmpty: bool, trainSchedule: Option<TrainSchedule>, lastUpdate: Option<string>)

  datatype NormalizedStop = NormalizedStop(
    stopSequence: int,
    stopName: Option<string>,
    locationCode: Option<string>,
    rfiLocationCode: Option<string>,
    arrivalTime: Option<string>,
    departureTime: Option<string>)

  datatype NormalizedTrain = NormalizedTrain(
    trainNumber: string,
    lastUpdate: Option<string>,
    capturedUtc: string,
    originStation: Option<string>,
    destinationStation: Option<string>,
    originCode: Option<string>,
    destinationCode: Option<string>,
    stops: seq<NormalizedStop>)

  /** `station_num`: the station number, or the sentinel when there is none. */
  function StationNum(o: RawStop): int {
    o.stationNumber.GetOr(Sentinel)
  }

  /** The stops among `objs`, in order, skipping falsy entries (what `add` keeps). */
  function Present(objs: seq<RawObject>): (r: seq<RawStop>)
    ensures |r| <= |objs|
    ensures forall x :: x in r <==> Object(x) in objs
    decreases |objs|
  {
    if objs == [] then []
    else
      var init := objs[..|objs| - 1];
      var last := objs[|objs| - 1];
      assert objs == init + [last];
      Present(init) + (if last.Object? then [last.stop] else [])
  }

  /** The raw stop list in concatenation order: origin, then `StazioniFerme`, then `StazioniNonFerme`. */
  function Gathered(ts: TrainSchedule): seq<RawStop> {
    Present([ts.stazionePartenza]) + Present(ts.stazioniFerme) + Present(ts.stazioniNonFerme)
  }

  /** One gathering loop: `add` each entry of `objs`, in order, to `acc`. */
  method AppendPresent(acc: seq<RawStop>, objs: seq<RawObject>) returns (out: seq<RawStop>)
    ensures out == acc + Present(objs)
  {
    out := acc;
    for i := 0 to |objs|
      invariant out == acc + Present(objs[..i])
    {
      assert objs[..i + 1][..i] == objs[..i];
      if objs[i].Object? {
        out := out + [objs[i].stop];
      }
    }
    assert objs[..|objs|] == objs;
  }

  /** The gathering loops of `extract_stops_from_train_schedule`, appending through `add`. */
  method GatherStops(ts: TrainSchedule) returns (stopsRaw: seq<RawStop>)
    ensures stopsRaw == Gathered(ts)
  {
    stopsRaw := AppendPresent([], [ts.stazionePartenza]);
    stopsRaw := AppendPresent(stopsRaw, ts.stazioniFerme);
    stopsRaw := AppendPresent(stopsRaw, ts.stazioniNonFerme);
  }

  // ---- the stable sort by station number ----

  /** A raw stop with its position in the concatenated list. */
  type Tagged = (RawStop, nat)

  /** Sort order of `list.sort(key=station_num)`: station number, ties by original position. */
  predicate Before(a: Tagged, b: Tagged) {
    StationNum(a.0) < StationNum(b.0) || (StationNum(a.0) == StationNum(b.0) && a.1 < b.1)
  }

  predicate StrictlySorted(s: seq<Tagged>) {
    forall i, j :: 0 <= i < j < |s| ==> Before(s[i], s[j])
  }

  predicate DistinctTags(s: seq<Tagged>) {
    forall i, j :: 0 <= i < j < |s| ==> s[i].1 != s[j].1
  }

  function Insert(x: Tagged, s: seq<Tagged>): (r: seq<Tagged>)
    requires StrictlySorted(s)
    requires forall y :: y in s ==> y.1 != x.1
    ensures |r| == |s| + 1
    ensures forall y :: y in r <==> y == x || y in s
    ensures StrictlySorted(r)
    decreases |s|
  {
    if s == [] then [x]
    else if Before(x, s[0]) then [x] + s
    else
      var rest := Insert(x, s[1..]);
      assert forall y :: y in s[1..] ==> Before(s[0], y);
      [s[0]] + rest
  }

  function SortTagged(s: seq<Tagged>): (r: seq<Tagged>)
    requires DistinctTags(s)
    ensures |r| == |s|
    ensures forall y :: y in r <==> y in s
    ensures StrictlySorted(r)
    decreases |s|
  {
    if s == [] then []
    else
      var rest := SortTagged(s[1..]);
      assert forall y :: y in rest ==> y.1 != s[0].1;
      assert s == [s[0]] + s[1..];
      Insert(s[0], rest)
  }

  function Tag(s: seq<RawStop>): (t: seq<Tagged>)
    ensures |t| == |s| && DistinctTags(t)
    ensures forall i :: 0 <= i < |s| ==> t[i] == (s[i], i)
  {
    seq(|s|, i requires 0 <= i < |s| => (s[i], i))
  }

  /** The raw stops after `stops_raw.sort(key=station_num)`. */
  function SortByStation(s: seq<RawStop>): seq<RawStop> {
    var r := SortTagged(Tag(s));
    seq(|r|, k requires 0 <= k < |r| => r[k].0)
  }

  /** For each sorted position, the position the stop had before sorting. */
  function StationOrder(s: seq<RawStop>): seq<nat> {
    var r := SortTagged(Tag(s));
    seq(|r|, k requires 0 <= k < |r| => r[k].1)
  }

  /**
   * The sort is a stable sort by station number: a permutation of the input (each
   * output position names a distinct input position holding the same stop, and every
   * input position is named), non-decreasing in station number, and stops with equal
   * numbers (the 10^9 sentinel included) keep their concatenation order.
   */
  lemma SortByStationIsStable(s: seq<RawStop>)
    ensures |SortByStation(s)| == |s| && |StationOrder(s)| == |s|
    ensures forall k :: 0 <= k < |s| ==> StationOrder(s)[k] < |s| && SortByStation(s)[k] == s[StationOrder(s)[k]]
    ensures forall i :: 0 <= i < |s| ==> i in StationOrder(s)
    ensures Distinct(StationOrder(s))
    ensures forall k, l :: 0 <= k < l < |s| ==> StationNum(SortByStation(s)[k]) <= StationNum(SortByStation(s)[l])
    ensures forall k, l :: 0 <= k < l < |s| && StationNum(SortByStation(s)[k]) == StationNum(SortByStation(s)[l]) ==>
              StationOrder(s)[k] < StationOrder(s)[l]
  {
    var t := Tag(s);
    var r := SortTagged(t);
    var out, ord := SortByStation(s), StationOrder(s);
    forall k | 0 <= k < |s|
      ensures ord[k] < |s| && out[k] == s[ord[k]]
    {
      assert r[k] in t;
    }
    forall i | 0 <= i < |s|
      ensures i in ord
    {
      assert t[i] in r;
      var k :| 0 <= k < |r| && r[k] == t[i];
      assert ord[k] == i;
    }
  }

  /** A sorted stop whose number is the sentinel: `stop_sequence` falls back to its index. */
  function StopSequence(o: RawStop, i: nat): int {
    var n := StationNum(o);
    if n != Sentinel then n else i
  }

  function ArrivalMinutes(stops: seq<RawStop>): (r: seq<Option<nat>>)
    ensures |r| == |stops|
  {
    seq(|stops|, i requires 0 <= i < |stops| => ParseHhmm(stops[i].estimatedArrivalTime))
  }

  function DepartureMinutes(stops: seq<RawStop>): (r: seq<Option<nat>>)
    ensures |r| == |stops|
  {
    seq(|stops|, i requires 0 <= i < |stops| => ParseHhmm(stops[i].estimatedDepartureTime))
  }

  /** One stop's departure after the per-stop fix. */
  function FixedDeparture(a: Option<nat>, d: Option<nat>): (r: Option<nat>)
    ensures r != d <==> a.Some? && d.Some? && d.value < a.value
    ensures r != d ==> r == Some(d.value + MinutesPerDay)
  {
    if a.Some? && d.Some? && d.value < a.value then Some(d.value + MinutesPerDay) else d
  }

  /** The per-stop loop: `dep_mins2[i] = d + 1440` where departure precedes arrival. */
  method FixDepartures(arr: seq<Option<nat>>, dep: seq<Option<nat>>) returns (fixed: seq<Option<nat>>)
    requires |arr| == |dep|
    ensures |fixed| == |dep|
    ensures forall k :: 0 <= k < |dep| ==> fixed[k] == FixedDeparture(arr[k], dep[k])
  {
    fixed := dep;
    for i := 0 to |dep|
      invariant |fixed| == |dep|
      invariant forall k :: 0 <= k < i ==> fixed[k] == FixedDeparture(arr[k], dep[k])
      invariant forall k :: i <= k < |dep| ==> fixed[k] == dep[k]
    {
      var a := arr[i];
      var d := fixed[i];
      if a.Some? && d.Some? && d.value < a.value {
        fixed := fixed[i := Some(d.value + MinutesPerDay)];
      }
    }
  }

  /** The normalized entry for sorted stop `i`, given reconciled arrival and departure minutes. */
  function OutputStop(sorted: seq<RawStop>, arr: seq<Option<nat>>, dep: seq<Option<nat>>, i: nat): NormalizedStop
    requires i < |sorted| == |arr| == |dep|
  {
    var s := sorted[i];
    NormalizedStop(
      StopSequence(s, i), s.locationDescription, s.locationCode, s.rfiLocationCode,
      if i == 0 then None else FmtGtfsTime(arr[i]),
      if i == |sorted| - 1 then None else FmtGtfsTime(dep[i]))
  }

  /** The output loop: one normalized entry per sorted stop, dropping the first arrival and the last departure. */
  method EmitStops(sorted: seq<RawStop>, arr: seq<Option<nat>>, dep: seq<Option<nat>>) returns (stops: seq<NormalizedStop>)
    requires |sorted| == |arr| == |dep|
    ensures |stops| == |sorted|
    ensures forall k :: 0 <= k < |sorted| ==> stops[k] == OutputStop(sorted, arr, dep, k)
  {
    stops := [];
    for i := 0 to |sorted|
      invariant |stops| == i
      invariant forall k :: 0 <= k < i ==> stops[k] == OutputStop(sorted, arr, dep, k)
    {
      var s := sorted[i];
      var arrOut := FmtGtfsTime(arr[i]);
      var depOut := FmtGtfsTime(dep[i]);
      if i == 0 {
        arrOut := None;
      }
      if i == |sorted| - 1 {
        depOut := None;
      }
      stops := stops + [NormalizedStop(StopSequence(s, i), s.locationDescription, s.locationCode,
                                       s.rfiLocationCode, arrOut, depOut)];
    }
  }

  /** The train's schedule once `TrainSchedule` is known to be present. */
  predicate NormalizedFrom(ts: TrainSchedule, raw: RawRecord, train: string, capturedUtc: string, n: NormalizedTrain) {
    var sorted := SortByStation(Gathered(ts));
    var arr := Rollover(ArrivalMinutes(sorted));
    var dep := Rollover(DepartureMinutes(sorted));
    RolloverOffsets(ArrivalMinutes(sorted));
    RolloverOffsets(DepartureMinutes(sorted));
    && n.trainNumber == train && n.lastUpdate == raw.lastUpdate && n.capturedUtc == capturedUtc
    && n.originStation == ts.departureStationDescription && n.destinationStation == ts.arrivalStationDescription
    && n.originCode == ts.departureStation && n.destinationCode == ts.arrivalStation
    && |n.stops| == |sorted|
    && forall i :: 0 <= i < |sorted| ==>
         n.stops[i] == OutputStop(sorted, arr, seq(|dep|, k requires 0 <= k < |dep| => FixedDeparture(arr[k], dep[k])), i)
  }

  /**
   * `extract_stops_from_train_schedule`: None for a payload flagged empty or without a
   * schedule; otherwise the header fields and one entry per raw stop, in sorted order,
   * the first arrival and the last departure always None.
   */
  method ExtractStops(raw: RawRecord, train: string, capturedUtc: string) returns (r: Option<NormalizedTrain>)
    ensures r.None? <==> raw.isEmpty || raw.trainSchedule.None?
    ensures r.Some? ==> NormalizedFrom(raw.trainSchedule.value, raw, train, capturedUtc, r.value)
    ensures r.Some? && |r.value.stops| > 0 ==>
              r.value.stops[0].arrivalTime.None? && r.value.stops[|r.value.stops| - 1].departureTime.None?
  {
    if raw.isEmpty || raw.trainSchedule.None? {
      return None;
    }
    var ts := raw.trainSchedule.value;
    var stopsRaw := GatherStops(ts);
    stopsRaw := SortByStation(stopsRaw);
    var arrMins := ArrivalMinutes(stopsRaw);
    var depMins := DepartureMinutes(stopsRaw);
    var arrMins2 := InferRollover(arrMins);
    var depMins2 := InferRollover(depMins);
    RolloverOffsets(arrMins);
    RolloverOffsets(depMins);
    var fixed := FixDepartures(arrMins2, depMins2);
    ghost var fixedSpec := seq(|depMins2|, k requires 0 <= k < |depMins2| => FixedDeparture(arrMins2[k], depMins2[k]));
    assert fixed == fixedSpec;
    var stops := EmitStops(stopsRaw, arrMins2, fixed);
    r := Some(NormalizedTrain(train, raw.lastUpdate, capturedUtc, ts.departureStationDescription,
                              ts.arrivalStationDescription, ts.departureStation, ts.arrivalStation, stops));
  }

  /**
   * The per-stop fix is local to one stop, so it can leave departures out of order:
   * a stop reached at 23:50 and left at 00:05 gets 24:05, while the next stop, with no
   * arrival to compare with, keeps the un-rolled 00:15.
   */
  lemma DepartureFixCanReorder()
    ensures var arr := Rollover([None, Some(1430), None, Some(20)]);
            var dep := Rollover([None, Some(5), Some(15), None]);
            arr == [None, Some(1430), None, Some(1460)] && dep == [None, Some(5), Some(15), None]
            && FixedDeparture(arr[1], dep[1]) == Some(1445) && FixedDeparture(arr[2], dep[2]) == Some(15)
  {
  }
}
