/**
 * scraper/build_gtfs.py: the stop registry (`ensure_stop` and the tables it owns)
 * and the per-file trip assembly that fills routes, trips and stop_times.
 * The functions give the meaning of one step over whole-table values; the class
 * FeedBuilder holds the same state as mutable fields and is proved to follow them.
 */
module Feed {
  import opened Wrappers
  import opened Text
  import opened Coordinates
  import opened Normalize

  datatype StopRow = StopRow(stopId: string, stopName: string, lat: string, lon: string, stopCode: string)
  datatype RouteRow = RouteRow(routeId: string, agencyId: string, routeShortName: string, routeLongName: string, routeType: string)
  datatype TripRow = TripRow(routeId: string, serviceId: string, tripId: string, tripShortName: string)
  datatype StopTimeRow = StopTimeRow(tripId: string, arrivalTime: string, departureTime: string, stopId: string, stopSequence: nat)
  datatype CalendarDateRow = CalendarDateRow(serviceId: string, date: string, exceptionType: string)
  datatype AgencyRow = AgencyRow(agencyId: string, agencyName: string, agencyUrl: string, agencyTimezone: string)

  /** `coordinates.csv` as loaded: location name to (lat, lon) text. */
  type Coords = map<string, (string, string)>

  /**
   * The registry state `ensure_stop` reads and updates (the two side dictionaries it
   * also fills, by stop id, are never read and are not modelled).
   */
  datatype Registry = Registry(
    stopIdByCode: map<string, string>,
    seenStops: set<string>,
    stopsRows: seq<StopRow>)

  /** Everything the per-file loop accumulates. */
  datatype Tables = Tables(registry: Registry, routes: seq<RouteRow>, trips: seq<TripRow>, stopTimes: seq<StopTimeRow>)

  const EmptyRegistry := Registry(map[], {}, [])
  const EmptyTables := Tables(EmptyRegistry, [], [], [])

  function OrEmpty(s: Option<string>): string {
    s.GetOr("")
  }

  function StopIdFor(key: string): string {
    "STOP_" + key
  }

  lemma StopIdInjective(a: string, b: string)
    requires StopIdFor(a) == StopIdFor(b)
    ensures a == b
  {
    assert a == StopIdFor(a)[5..] && b == StopIdFor(b)[5..];
  }

  /** The identity key: the code if non-empty, else the name. */
  function StopKey(code: string, name: string): string {
    if code != "" then code else name
  }

  /** `(name or key).strip() or key`: the name written to stops.txt and used for the coordinate lookup. */
  function StopDisplayName(code: string, name: string): string {
    var key := StopKey(code, name);
    var t := Trim(if name != "" then name else key);
    if t != "" then t else key
  }

  /** `coords_by_name.get(name, ("", ""))`. */
  function Lookup(coords: Coords, name: string): (string, string) {
    if name in coords then coords[name] else ("", "")
  }

  /** `ensure_stop(code, name)`: the returned stop id and the registry afterwards. */
  function Resolve(coords: Coords, reg: Registry, code: string, name: string): (Option<string>, Registry) {
    var key := StopKey(code, name);
    if key in reg.stopIdByCode then (Some(reg.stopIdByCode[key]), reg)
    else
      var stopName := StopDisplayName(code, name);
      var latLon := Lookup(coords, stopName);
      if !HasValidCoord(latLon.0, latLon.1) then (None, reg)
      else (Some(StopIdFor(key)), Register(reg, key, StopRow(StopIdFor(key), stopName, latLon.0, latLon.1, Trim(code))))
  }

  /** The accepting branch of `ensure_stop`: cache the key, and write the row unless its id was already seen. */
  function Register(reg: Registry, key: string, row: StopRow): Registry {
    var reg1 := reg.(stopIdByCode := reg.stopIdByCode[key := row.stopId]);
    if row.stopId in reg1.seenStops then reg1 else AppendRow(reg1, row)
  }

  /** Mark the row's id seen and write the row to stops.txt. */
  function AppendRow(reg: Registry, row: StopRow): Registry {
    reg.(seenStops := reg.seenStops + {row.stopId}, stopsRows := reg.stopsRows + [row])
  }

  function RowIds(rows: seq<StopRow>): set<string> {
    set i | 0 <= i < |rows| :: rows[i].stopId
  }

  lemma RowIdsAppend(rows: seq<StopRow>, row: StopRow)
    ensures RowIds(rows + [row]) == RowIds(rows) + {row.stopId}
  {
    var rows' := rows + [row];
    forall x | x in RowIds(rows') ensures x in RowIds(rows) + {row.stopId} {
      var i :| 0 <= i < |rows'| && rows'[i].stopId == x;
      if i < |rows| { assert rows[i] == rows'[i]; }
    }
    forall x | x in RowIds(rows) ensures x in RowIds(rows') {
      var i :| 0 <= i < |rows| && rows[i].stopId == x;
      assert rows'[i] == rows[i];
    }
    assert rows'[|rows|] == row;
  }

  lemma ValuesAdd(m: map<string, string>, k: string, v: string)
    requires k !in m
    ensures m[k := v].Values == m.Values + {v}
  {
    var m' := m[k := v];
    forall x | x in m'.Values ensures x in m.Values + {v} {
      var j :| j in m' && m'[j] == x;
      if j != k { assert m[j] == x; }
    }
    forall x | x in m.Values ensures x in m'.Values {
      var j :| j in m && m[j] == x;
      assert m'[j] == x;
    }
    assert m'[k] == v;
  }

  /** As many distinct ids as rows means no id is written twice. */
  lemma {:induction false} RowIdsDistinct(rows: seq<StopRow>)
    requires |RowIds(rows)| == |rows|
    ensures forall i, j :: 0 <= i < j < |rows| ==> rows[i].stopId != rows[j].stopId
    decreases |rows|
  {
    if rows != [] {
      var init := rows[..|rows| - 1];
      var last := rows[|rows| - 1];
      assert rows == init + [last];
      RowIdsAppend(init, last);
      RowIdsCard(init);
      assert last.stopId !in RowIds(init);
      RowIdsDistinct(init);
      forall i, j | 0 <= i < j < |rows| ensures rows[i].stopId != rows[j].stopId {
        if j < |rows| - 1 {
          assert rows[i] == init[i] && rows[j] == init[j];
        } else {
          assert rows[i] == init[i];
          assert init[i].stopId in RowIds(init);
        }
      }
    }
  }

  lemma {:induction false} RowIdsCard(rows: seq<StopRow>)
    ensures |RowIds(rows)| <= |rows|
    decreases |rows|
  {
    if rows != [] {
      var init := rows[..|rows| - 1];
      assert rows == init + [rows[|rows| - 1]];
      RowIdsAppend(init, rows[|rows| - 1]);
      RowIdsCard(init);
    }
  }

  /** In a valid registry, stops.txt never repeats a stop id. */
  lemma RegistryRowsDistinct(coords: Coords, reg: Registry)
    requires RegistryValid(coords, reg)
    ensures forall i, j :: 0 <= i < j < |reg.stopsRows| ==> reg.stopsRows[i].stopId != reg.stopsRows[j].stopId
  {
    RowIdsDistinct(reg.stopsRows);
  }

  /** Cached keys map to "STOP_"+key, and the seen ids are exactly the cached ids. */
  predicate CacheValid(reg: Registry) {
    && (forall k :: k in reg.stopIdByCode ==> reg.stopIdByCode[k] == StopIdFor(k))
    && reg.seenStops == reg.stopIdByCode.Values
  }

  /**
   * stops.txt holds each seen id exactly once (as many rows as ids, see RowIdsDistinct),
   * and each of its rows passed the coordinate gate.
   */
  predicate RowsValid(coords: Coords, reg: Registry) {
    && reg.seenStops == RowIds(reg.stopsRows)
    && |reg.seenStops| == |reg.stopsRows|
    && AllAgree(coords, reg.stopsRows)
  }

  predicate AllAgree(coords: Coords, rows: seq<StopRow>) {
    forall i :: 0 <= i < |rows| ==> RowAgrees(coords, rows[i])
  }

  lemma AllAgreeAppend(coords: Coords, rows: seq<StopRow>, row: StopRow)
    requires AllAgree(coords, rows) && RowAgrees(coords, row)
    ensures AllAgree(coords, rows + [row])
  {
    forall i | 0 <= i < |rows + [row]| ensures RowAgrees(coords, (rows + [row])[i]) {
      if i < |rows| { assert (rows + [row])[i] == rows[i]; }
    }
  }

  /** A row of stops.txt: its coordinates are those of its name in the coordinate table, and valid. */
  predicate RowAgrees(coords: Coords, row: StopRow) {
    (row.lat, row.lon) == Lookup(coords, row.stopName) && HasValidCoord(row.lat, row.lon)
  }

  /** The registry's invariant. */
  predicate RegistryValid(coords: Coords, reg: Registry) {
    CacheValid(reg) && RowsValid(coords, reg)
  }

  /** `reg2` only adds to `reg1`: cached keys keep their ids and stops.txt only grows at its end. */
  predicate Extends(reg1: Registry, reg2: Registry) {
    && (forall k :: k in reg1.stopIdByCode ==> k in reg2.stopIdByCode && reg2.stopIdByCode[k] == reg1.stopIdByCode[k])
    && reg1.seenStops <= reg2.seenStops
    && |reg1.stopsRows| <= |reg2.stopsRows| && reg2.stopsRows[..|reg1.stopsRows|] == reg1.stopsRows
  }

  lemma ExtendsTrans(reg1: Registry, reg2: Registry, reg3: Registry)
    requires Extends(reg1, reg2) && Extends(reg2, reg3)
    ensures Extends(reg1, reg3)
  {
    assert reg3.stopsRows[..|reg1.stopsRows|] == reg3.stopsRows[..|reg2.stopsRows|][..|reg1.stopsRows|];
  }

  /** Writing a row with an unseen id whose coordinates pass the gate keeps the rows' invariant. */
  lemma AppendRowValid(coords: Coords, reg: Registry, row: StopRow)
    requires RowsValid(coords, reg) && row.stopId !in reg.seenStops && RowAgrees(coords, row)
    ensures RowsValid(coords, AppendRow(reg, row))
  {
    RowIdsAppend(reg.stopsRows, row);
    AllAgreeAppend(coords, reg.stopsRows, row);
  }

  /** Caching a new key under "STOP_"+key keeps the cache invariant, and that id was not seen before. */
  lemma CacheKeyValid(reg: Registry, key: string)
    requires CacheValid(reg) && key !in reg.stopIdByCode
    ensures StopIdFor(key) !in reg.seenStops
    ensures CacheValid(reg.(stopIdByCode := reg.stopIdByCode[key := StopIdFor(key)], seenStops := reg.seenStops + {StopIdFor(key)}))
  {
    if StopIdFor(key) in reg.stopIdByCode.Values {
      var k :| k in reg.stopIdByCode && reg.stopIdByCode[k] == StopIdFor(key);
      StopIdInjective(k, key);
    }
    ValuesAdd(reg.stopIdByCode, key, StopIdFor(key));
  }

  /** Registering a new key whose id is "STOP_"+key, with a row whose coordinates pass the gate. */
  lemma RegisterValid(coords: Coords, reg: Registry, key: string, row: StopRow)
    requires RegistryValid(coords, reg)
    requires key !in reg.stopIdByCode && row.stopId == StopIdFor(key)
    requires RowAgrees(coords, row)
    ensures var reg' := Register(reg, key, row);
            && RegistryValid(coords, reg') && Extends(reg, reg')
            && reg'.stopsRows == reg.stopsRows + [row]
  {
    CacheKeyValid(reg, key);
    var reg1 := reg.(stopIdByCode := reg.stopIdByCode[key := row.stopId]);
    AppendRowValid(coords, reg1, row);
    var reg' := Register(reg, key, row);
    assert reg' == AppendRow(reg1, row);
    assert reg'.stopsRows[..|reg.stopsRows|] == reg.stopsRows;
  }

  /** `ensure_stop` keeps the registry invariant and only adds to the registry. */
  lemma ResolveKeepsValid(coords: Coords, reg: Registry, code: string, name: string)
    requires RegistryValid(coords, reg)
    ensures RegistryValid(coords, Resolve(coords, reg, code, name).1)
    ensures Extends(reg, Resolve(coords, reg, code, name).1)
  {
    var key := StopKey(code, name);
    if key !in reg.stopIdByCode {
      var stopName := StopDisplayName(code, name);
      var latLon := Lookup(coords, stopName);
      if HasValidCoord(latLon.0, latLon.1) {
        RegisterValid(coords, reg, key, StopRow(StopIdFor(key), stopName, latLon.0, latLon.1, Trim(code)));
      }
    }
  }

  /**
   * What one `ensure_stop` call does: a cached key returns its id and changes nothing;
   * an uncached key whose stop name has no valid coordinates returns None and changes
   * nothing; otherwise it returns "STOP_"+key, caches the key, and appends exactly one
   * row to stops.txt (the "not yet seen" test always succeeds for a new key).
   */
  lemma ResolveOutcome(coords: Coords, reg: Registry, code: string, name: string)
    requires CacheValid(reg)
    ensures var r := Resolve(coords, reg, code, name);
            var key := StopKey(code, name);
            var stopName := StopDisplayName(code, name);
            var latLon := Lookup(coords, stopName);
            && (key in reg.stopIdByCode ==> r == (Some(StopIdFor(key)), reg))
            && (key !in reg.stopIdByCode && !HasValidCoord(latLon.0, latLon.1) ==> r == (None, reg))
            && (key !in reg.stopIdByCode && HasValidCoord(latLon.0, latLon.1) ==>
                  && r.0 == Some(StopIdFor(key))
                  && r.1.stopIdByCode == reg.stopIdByCode[key := StopIdFor(key)]
                  && r.1.seenStops == reg.seenStops + {StopIdFor(key)}
                  && r.1.stopsRows == reg.stopsRows + [StopRow(StopIdFor(key), stopName, latLon.0, latLon.1, Trim(code))])
  {
    var key := StopKey(code, name);
    if key !in reg.stopIdByCode {
      CacheKeyValid(reg, key);
    }
  }

  /**
   * Once a key is cached, `ensure_stop` returns its id again without looking at the
   * coordinates, and changes nothing: a second call repeats the first.
   */
  lemma ResolveIdempotent(coords: Coords, reg: Registry, code: string, name: string)
    ensures var r := Resolve(coords, reg, code, name);
            r.0.Some? ==> Resolve(coords, r.1, code, name) == r
  {
  }

  /** The stop_times of one trip: kept stops only, numbered from `next` on; and the registry afterwards. */
  function TripStopTimes(coords: Coords, reg: Registry, tripId: string, stops: seq<NormalizedStop>, next: nat)
    : (res: (seq<StopTimeRow>, Registry))
    ensures |res.0| <= |stops|
    ensures forall i :: 0 <= i < |res.0| ==> res.0[i].stopSequence == next + i && res.0[i].tripId == tripId
    decreases |stops|
  {
    if stops == [] then ([], reg)
    else
      var s := stops[0];
      var r := ResolveStop(coords, reg, s);
      if r.0.None? then TripStopTimes(coords, r.1, tripId, stops[1..], next)
      else
        var rest := TripStopTimes(coords, r.1, tripId, stops[1..], next + 1);
        ([StopTimeRow(tripId, OrEmpty(s.arrivalTime), OrEmpty(s.departureTime), r.0.value, next)] + rest.0, rest.1)
  }

  /** One step of `TripStopTimes` taken at position `i` of the stop list. */
  lemma TripStopTimesStep(coords: Coords, reg: Registry, tripId: string, stops: seq<NormalizedStop>, i: nat, next: nat)
    requires i < |stops|
    ensures var s := stops[i];
            var r := ResolveStop(coords, reg, s);
            TripStopTimes(coords, reg, tripId, stops[i..], next)
            == if r.0.None? then TripStopTimes(coords, r.1, tripId, stops[i + 1..], next)
               else
                 var rest := TripStopTimes(coords, r.1, tripId, stops[i + 1..], next + 1);
                 ([StopTimeRow(tripId, OrEmpty(s.arrivalTime), OrEmpty(s.departureTime), r.0.value, next)] + rest.0, rest.1)
  {
    assert stops[i..][1..] == stops[i + 1..];
  }

  /**
   * What is left of `TripStopTimes` once `times` has been emitted and `reg` is the
   * registry so far: the rest of the stops, numbered on from `|times|`.
   */
  ghost predicate Pending(coords: Coords, spec: (seq<StopTimeRow>, Registry), times: seq<StopTimeRow>, tripId: string, rest: seq<NormalizedStop>, reg: Registry) {
    var r := TripStopTimes(coords, reg, tripId, rest, |times|);
    spec.0 == times + r.0 && spec.1 == r.1
  }

  lemma PendingStart(coords: Coords, tripId: string, stops: seq<NormalizedStop>, reg: Registry)
    ensures Pending(coords, TripStopTimes(coords, reg, tripId, stops, 0), [], tripId, stops[0..], reg)
  {
    assert stops[0..] == stops;
    assert [] + TripStopTimes(coords, reg, tripId, stops, 0).0 == TripStopTimes(coords, reg, tripId, stops, 0).0;
  }

  lemma PendingEnd(coords: Coords, spec: (seq<StopTimeRow>, Registry), times: seq<StopTimeRow>, tripId: string, stops: seq<NormalizedStop>, reg: Registry)
    requires Pending(coords, spec, times, tripId, stops[|stops|..], reg)
    ensures spec == (times, reg)
  {
    assert stops[|stops|..] == [];
    assert times + [] == times;
  }

  lemma PendingAdvance(coords: Coords, spec: (seq<StopTimeRow>, Registry), times: seq<StopTimeRow>, tripId: string, stops: seq<NormalizedStop>, i: nat, before: Registry, row: Option<StopTimeRow>, after: Registry)
    requires i < |stops|
    requires Pending(coords, spec, times, tripId, stops[i..], before)
    requires var s := stops[i];
             var r := ResolveStop(coords, before, s);
             && after == r.1
             && row == if r.0.None? then None
                       else Some(StopTimeRow(tripId, OrEmpty(s.arrivalTime), OrEmpty(s.departureTime), r.0.value, |times|))
    ensures Pending(coords, spec, if row.Some? then times + [row.value] else times, tripId, stops[i + 1..], after)
  {
    TripStopTimesStep(coords, before, tripId, stops, i, |times|);
    if row.Some? {
      var rest := TripStopTimes(coords, after, tripId, stops[i + 1..], |times| + 1);
      assert times + ([row.value] + rest.0) == (times + [row.value]) + rest.0;
    }
  }

  /** The id `ensure_stop` gives for one normalized stop, keyed by its trimmed code and name. */
  function ResolveStop(coords: Coords, reg: Registry, s: NormalizedStop): (Option<string>, Registry) {
    Resolve(coords, reg, Trim(OrEmpty(s.locationCode)), Trim(OrEmpty(s.stopName)))
  }

  lemma ResolveStopValid(coords: Coords, reg: Registry, s: NormalizedStop)
    requires RegistryValid(coords, reg)
    ensures var r := ResolveStop(coords, reg, s);
            RegistryValid(coords, r.1) && Extends(reg, r.1)
  {
    ResolveKeepsValid(coords, reg, Trim(OrEmpty(s.locationCode)), Trim(OrEmpty(s.stopName)));
  }

  /** Every stop_time row names a stop id in `ids`. */
  predicate StopRefs(rows: seq<StopTimeRow>, ids: set<string>) {
    forall i :: 0 <= i < |rows| ==> rows[i].stopId in ids
  }

  /** Every stop_time row names a trip id in `ids`. */
  predicate TripRefs(rows: seq<StopTimeRow>, ids: set<string>) {
    forall i :: 0 <= i < |rows| ==> rows[i].tripId in ids
  }

  lemma StopRefsAppend(a: seq<StopTimeRow>, b: seq<StopTimeRow>, stops: set<string>)
    requires StopRefs(a, stops) && StopRefs(b, stops)
    ensures StopRefs(a + b, stops)
  {
    forall i | 0 <= i < |a + b| ensures (a + b)[i].stopId in stops {
      if i >= |a| { assert (a + b)[i] == b[i - |a|]; }
    }
  }

  lemma TripRefsAppend(a: seq<StopTimeRow>, b: seq<StopTimeRow>, trips: set<string>)
    requires TripRefs(a, trips) && TripRefs(b, trips)
    ensures TripRefs(a + b, trips)
  {
    forall i | 0 <= i < |a + b| ensures (a + b)[i].tripId in trips {
      if i >= |a| { assert (a + b)[i] == b[i - |a|]; }
    }
  }

  lemma RefsWiden(a: seq<StopTimeRow>, stops: set<string>, stops': set<string>, trips: set<string>, trips': set<string>)
    requires StopRefs(a, stops) && TripRefs(a, trips) && stops <= stops' && trips <= trips'
    ensures StopRefs(a, stops') && TripRefs(a, trips')
  {
  }

  /** Assembling a trip keeps the registry invariant and only extends the registry. */
  lemma {:induction false} TripRegistryValid(coords: Coords, reg: Registry, tripId: string, stops: seq<NormalizedStop>, next: nat)
    requires RegistryValid(coords, reg)
    ensures RegistryValid(coords, TripStopTimes(coords, reg, tripId, stops, next).1)
    ensures Extends(reg, TripStopTimes(coords, reg, tripId, stops, next).1)
    decreases |stops|
  {
    if stops != [] {
      var r1 := ResolveStop(coords, reg, stops[0]);
      ResolveStopValid(coords, reg, stops[0]);
      var next' := if r1.0.None? then next else next + 1;
      TripRegistryValid(coords, r1.1, tripId, stops[1..], next');
      var reg2 := TripStopTimes(coords, r1.1, tripId, stops[1..], next').1;
      assert TripStopTimes(coords, reg, tripId, stops, next).1 == reg2;
      ExtendsTrans(reg, r1.1, reg2);
    }
  }

  /** `ensure_stop` keeps the cache invariant, only adds seen ids, and returns a seen id. */
  lemma ResolveCacheValid(reg: Registry, coords: Coords, s: NormalizedStop)
    requires CacheValid(reg)
    ensures var r := ResolveStop(coords, reg, s);
            CacheValid(r.1) && reg.seenStops <= r.1.seenStops && (r.0.Some? ==> r.0.value in r.1.seenStops)
  {
    var code := Trim(OrEmpty(s.locationCode));
    var key := StopKey(code, Trim(OrEmpty(s.stopName)));
    if key in reg.stopIdByCode {
      assert reg.stopIdByCode[key] in reg.stopIdByCode.Values;
    } else {
      CacheKeyValid(reg, key);
    }
  }

  /** Assembling a trip keeps the cache invariant and only adds seen ids. */
  lemma {:induction false} TripCacheValid(coords: Coords, reg: Registry, tripId: string, stops: seq<NormalizedStop>, next: nat)
    requires CacheValid(reg)
    ensures CacheValid(TripStopTimes(coords, reg, tripId, stops, next).1)
    ensures reg.seenStops <= TripStopTimes(coords, reg, tripId, stops, next).1.seenStops
    decreases |stops|
  {
    if stops != [] {
      var r1 := ResolveStop(coords, reg, stops[0]);
      ResolveCacheValid(reg, coords, stops[0]);
      var next' := if r1.0.None? then next else next + 1;
      TripCacheValid(coords, r1.1, tripId, stops[1..], next');
      assert TripStopTimes(coords, reg, tripId, stops, next).1 == TripStopTimes(coords, r1.1, tripId, stops[1..], next').1;
    }
  }

  /** Every stop id a trip's stop_times use is a seen stop id once the trip is assembled. */
  lemma {:induction false} TripStopRefs(coords: Coords, reg: Registry, tripId: string, stops: seq<NormalizedStop>, next: nat)
    requires CacheValid(reg)
    ensures var res := TripStopTimes(coords, reg, tripId, stops, next);
            StopRefs(res.0, res.1.seenStops)
    decreases |stops|
  {
    if stops != [] {
      var s := stops[0];
      var r1 := ResolveStop(coords, reg, s);
      ResolveCacheValid(reg, coords, s);
      var next' := if r1.0.None? then next else next + 1;
      TripStopRefs(coords, r1.1, tripId, stops[1..], next');
      var r2 := TripStopTimes(coords, r1.1, tripId, stops[1..], next');
      if r1.0.Some? {
        TripCacheValid(coords, r1.1, tripId, stops[1..], next');
        var first := StopTimeRow(tripId, OrEmpty(s.arrivalTime), OrEmpty(s.departureTime), r1.0.value, next);
        assert TripStopTimes(coords, reg, tripId, stops, next) == ([first] + r2.0, r2.1);
        StopRefsAppend([first], r2.0, r2.1.seenStops);
      } else {
        assert TripStopTimes(coords, reg, tripId, stops, next) == r2;
      }
    }
  }

  /** One normalized file: the loop body of `main` for `data`. */
  function AddTrain(coords: Coords, serviceDate: string, agencyId: string, t: Tables, data: NormalizedTrain): Tables {
    var train := data.trainNumber;
    if train == "" then t
    else
      var routeId := "R_" + train;
      var tripId := "T_" + train + "_" + serviceDate;
      var res := TripStopTimes(coords, t.registry, tripId, data.stops, 0);
      var times := res.0;
      if |times| < 2 then t.(registry := res.1)
      else
        Tables(res.1,
               t.routes + [RouteRow(routeId, agencyId, train, OrEmpty(data.originStation) + EnDashSeparator + OrEmpty(data.destinationStation), "2")],
               t.trips + [TripRow(routeId, "SVC_" + serviceDate, tripId, train)],
               t.stopTimes + times)
  }

  /** All files, in the order given (sorted by file name in `main`). */
  function Build(coords: Coords, serviceDate: string, agencyId: string, t: Tables, files: seq<NormalizedTrain>): Tables
    decreases |files|
  {
    if files == [] then t else Build(coords, serviceDate, agencyId, AddTrain(coords, serviceDate, agencyId, t, files[0]), files[1..])
  }

  function TripIds(trips: seq<TripRow>): set<string> {
    set i | 0 <= i < |trips| :: trips[i].tripId
  }

  lemma TripIdsAppend(trips: seq<TripRow>, trip: TripRow)
    ensures TripIds(trips + [trip]) == TripIds(trips) + {trip.tripId}
  {
    var trips' := trips + [trip];
    forall x | x in TripIds(trips') ensures x in TripIds(trips) + {trip.tripId} {
      var i :| 0 <= i < |trips'| && trips'[i].tripId == x;
      if i < |trips| { assert trips[i] == trips'[i]; }
    }
    forall x | x in TripIds(trips) ensures x in TripIds(trips') {
      var i :| 0 <= i < |trips| && trips[i].tripId == x;
      assert trips'[i] == trips[i];
    }
    assert trips'[|trips|] == trip;
  }

  /**
   * The feed's structural invariant: the registry's; every stop_time names a stop in
   * stops.txt and a trip in trips.txt; routes and trips are paired one to one, in
   * order, so no route appears without a trip that uses it.
   */
  predicate TablesValid(coords: Coords, t: Tables) {
    && RegistryValid(coords, t.registry)
    && StopRefs(t.stopTimes, t.registry.seenStops)
    && TripRefs(t.stopTimes, TripIds(t.trips))
    && Paired(t.routes, t.trips)
  }

  /** routes.txt and trips.txt line up: the i-th trip runs on the i-th route. */
  predicate Paired(routes: seq<RouteRow>, trips: seq<TripRow>) {
    |routes| == |trips| && forall i :: 0 <= i < |trips| ==> trips[i].routeId == routes[i].routeId
  }

  lemma PairedAppend(routes: seq<RouteRow>, trips: seq<TripRow>, route: RouteRow, trip: TripRow)
    requires Paired(routes, trips) && trip.routeId == route.routeId
    ensures Paired(routes + [route], trips + [trip])
  {
  }

  /** One file keeps the feed invariant. */
  lemma AddTrainValid(coords: Coords, serviceDate: string, agencyId: string, t: Tables, data: NormalizedTrain)
    requires TablesValid(coords, t)
    ensures TablesValid(coords, AddTrain(coords, serviceDate, agencyId, t, data))
  {
    var train := data.trainNumber;
    if train != "" {
      var tripId := "T_" + train + "_" + serviceDate;
      TripRegistryValid(coords, t.registry, tripId, data.stops, 0);
      TripStopRefs(coords, t.registry, tripId, data.stops, 0);
      var res := TripStopTimes(coords, t.registry, tripId, data.stops, 0);
      var t' := AddTrain(coords, serviceDate, agencyId, t, data);
      if |res.0| >= 2 {
        var trip := TripRow("R_" + train, "SVC_" + serviceDate, tripId, train);
        assert t'.trips == t.trips + [trip];
        PairedAppend(t.routes, t.trips, t'.routes[|t.routes|], trip);
        TripIdsAppend(t.trips, trip);
        assert TripRefs(res.0, TripIds(t'.trips));
        RefsWiden(t.stopTimes, t.registry.seenStops, res.1.seenStops, TripIds(t.trips), TripIds(t'.trips));
        StopRefsAppend(t.stopTimes, res.0, res.1.seenStops);
        TripRefsAppend(t.stopTimes, res.0, TripIds(t'.trips));
        assert t'.stopTimes == t.stopTimes + res.0;
      } else {
        RefsWiden(t.stopTimes, t.registry.seenStops, res.1.seenStops, TripIds(t.trips), TripIds(t.trips));
        assert t' == t.(registry := res.1);
      }
    }
  }

  /** Every prefix of the file list leaves a valid feed. */
  lemma {:induction false} BuildValid(coords: Coords, serviceDate: string, agencyId: string, t: Tables, files: seq<NormalizedTrain>)
    requires TablesValid(coords, t)
    ensures TablesValid(coords, Build(coords, serviceDate, agencyId, t, files))
    decreases |files|
  {
    if files != [] {
      AddTrainValid(coords, serviceDate, agencyId, t, files[0]);
      BuildValid(coords, serviceDate, agencyId, AddTrain(coords, serviceDate, agencyId, t, files[0]), files[1..]);
    }
  }

  /**
   * The minimum-stop rule and what a retained trip appends: a file without a train
   * number changes nothing; a trip keeping fewer than two stops adds no route, trip or
   * stop_time (its stops stay registered); otherwise exactly one route "R_"+train with
   * the en-dash long name and type "2", one trip "T_"+train+"_"+date, and its stop_times
   * numbered 0..n-1.
   */
  lemma AddTrainEffect(coords: Coords, serviceDate: string, agencyId: string, t: Tables, data: NormalizedTrain)
    ensures var t' := AddTrain(coords, serviceDate, agencyId, t, data);
            var train := data.trainNumber;
            var kept := TripStopTimes(coords, t.registry, "T_" + train + "_" + serviceDate, data.stops, 0).0;
            && (train == "" ==> t' == t)
            && (train != "" && |kept| < 2 ==> t'.routes == t.routes && t'.trips == t.trips && t'.stopTimes == t.stopTimes)
            && (train != "" && |kept| >= 2 ==>
                  && |t'.routes| == |t.routes| + 1 && t'.routes[..|t.routes|] == t.routes
                  && t'.routes[|t.routes|].routeId == "R_" + train
                  && t'.routes[|t.routes|].routeLongName == OrEmpty(data.originStation) + EnDashSeparator + OrEmpty(data.destinationStation)
                  && t'.routes[|t.routes|].routeType == "2"
                  && |t'.trips| == |t.trips| + 1 && t'.trips[..|t.trips|] == t.trips
                  && t'.trips[|t.trips|].tripId == "T_" + train + "_" + serviceDate
                  && t'.stopTimes == t.stopTimes + kept
                  && forall i :: 0 <= i < |kept| ==> kept[i].stopSequence == i)
  {
  }

  /** Every trip row names the service `serviceId`. */
  predicate OnService(trips: seq<TripRow>, serviceId: string) {
    forall i :: 0 <= i < |trips| ==> trips[i].serviceId == serviceId
  }

  /** Every trip the build emits runs on the single service "SVC_"+date. */
  lemma {:induction false} BuildTripsOnService(coords: Coords, serviceDate: string, agencyId: string, t: Tables, files: seq<NormalizedTrain>)
    requires OnService(t.trips, "SVC_" + serviceDate)
    ensures OnService(Build(coords, serviceDate, agencyId, t, files).trips, "SVC_" + serviceDate)
    decreases |files|
  {
    if files != [] {
      var t1 := AddTrain(coords, serviceDate, agencyId, t, files[0]);
      assert OnService(t1.trips, "SVC_" + serviceDate);
      BuildTripsOnService(coords, serviceDate, agencyId, t1, files[1..]);
    }
  }

  /** The tables `main` writes, apart from the fixed header lines. */
  datatype Gtfs = Gtfs(
    agency: AgencyRow,
    stops: seq<StopRow>,
    routes: seq<RouteRow>,
    trips: seq<TripRow>,
    stopTimes: seq<StopTimeRow>,
    calendarDates: seq<CalendarDateRow>)

  /** The mutable state of `main`: the registry `ensure_stop` closes over and the row lists. */
  class FeedBuilder {
    const coords: Coords
    const serviceDate: string
    const agencyId: string
    var stopIdByCode: map<string, string>
    var seenStops: set<string>
    var stopsRows: seq<StopRow>
    var routesRows: seq<RouteRow>
    var tripsRows: seq<TripRow>
    var stopTimesRows: seq<StopTimeRow>

    function Reg(): Registry
      reads this
    {
      Registry(stopIdByCode, seenStops, stopsRows)
    }

    function State(): Tables
      reads this
    {
      Tables(Reg(), routesRows, tripsRows, stopTimesRows)
    }

    constructor(coords: Coords, serviceDate: string, agencyId: string)
      ensures this.coords == coords && this.serviceDate == serviceDate && this.agencyId == agencyId
      ensures State() == EmptyTables
    {
      this.coords := coords;
      this.serviceDate := serviceDate;
      this.agencyId := agencyId;
      stopIdByCode := map[];
      seenStops := {};
      stopsRows := [];
      routesRows := [];
      tripsRows := [];
      stopTimesRows := [];
    }

    /** `ensure_stop(code, name)`. */
    method EnsureStop(code: string, name: string) returns (stopId: Option<string>)
      modifies this
      ensures (stopId, Reg()) == Resolve(coords, old(Reg()), code, name)
      ensures routesRows == old(routesRows) && tripsRows == old(tripsRows) && stopTimesRows == old(stopTimesRows)
    {
      var key := StopKey(code, name);
      if key in stopIdByCode {
        return Some(stopIdByCode[key]);
      }
      var stopName := StopDisplayName(code, name);
      var stopCode := Trim(code);
      var latLon := Lookup(coords, stopName);
      if !HasValidCoord(latLon.0, latLon.1) {
        return None;
      }
      var id := StopIdFor(key);
      stopIdByCode := stopIdByCode[key := id];
      if id !in seenStops {
        seenStops := seenStops + {id};
        stopsRows := stopsRows + [StopRow(id, stopName, latLon.0, latLon.1, stopCode)];
      }
      return Some(id);
    }

    /** One pass of the inner loop: `ensure_stop` on the trimmed code and name, and the stop_time row when it gives an id. */
    method StopTime(tripId: string, s: NormalizedStop, sq: nat) returns (row: Option<StopTimeRow>)
      modifies this
      ensures var r := ResolveStop(coords, old(Reg()), s);
              && Reg() == r.1
              && row == if r.0.None? then None
                        else Some(StopTimeRow(tripId, OrEmpty(s.arrivalTime), OrEmpty(s.departureTime), r.0.value, sq))
      ensures routesRows == old(routesRows) && tripsRows == old(tripsRows) && stopTimesRows == old(stopTimesRows)
    {
      var stopId := EnsureStop(Trim(OrEmpty(s.locationCode)), Trim(OrEmpty(s.stopName)));
      if stopId.None? {
        return None;
      }
      return Some(StopTimeRow(tripId, OrEmpty(s.arrivalTime), OrEmpty(s.departureTime), stopId.value, sq));
    }

    /** The inner loop over one file's stops: resolve each, keep those with an id, numbered from 0. */
    method TripStops(tripId: string, stops: seq<NormalizedStop>) returns (times: seq<StopTimeRow>)
      modifies this
      ensures (times, Reg()) == TripStopTimes(coords, old(Reg()), tripId, stops, 0)
      ensures routesRows == old(routesRows) && tripsRows == old(tripsRows) && stopTimesRows == old(stopTimesRows)
    {
      ghost var spec := TripStopTimes(coords, Reg(), tripId, stops, 0);
      times := [];
      PendingStart(coords, tripId, stops, Reg());
      for i := 0 to |stops|
        invariant routesRows == old(routesRows) && tripsRows == old(tripsRows) && stopTimesRows == old(stopTimesRows)
        invariant Pending(coords, spec, times, tripId, stops[i..], Reg())
      {
        ghost var before := Reg();
        var row := StopTime(tripId, stops[i], |times|);
        PendingAdvance(coords, spec, times, tripId, stops, i, before, row, Reg());
        if row.Some? {
          times := times + [row.value];
        }
      }
      PendingEnd(coords, spec, times, tripId, stops, Reg());
    }

    /** The body of the loop over normalized files, for one file's contents. */
    method AddFile(data: NormalizedTrain)
      modifies this
      ensures State() == AddTrain(coords, serviceDate, agencyId, old(State()), data)
    {
      var train := data.trainNumber;
      if train == "" {
        return;
      }
      var origin := OrEmpty(data.originStation);
      var dest := OrEmpty(data.destinationStation);
      var routeId := "R_" + train;
      var tripId := "T_" + train + "_" + serviceDate;
      var tripStopTimes := TripStops(tripId, data.stops);
      if |tripStopTimes| < 2 {
        return;
      }
      routesRows := routesRows + [RouteRow(routeId, agencyId, train, origin + EnDashSeparator + dest, "2")];
      tripsRows := tripsRows + [TripRow(routeId, "SVC_" + serviceDate, tripId, train)];
      stopTimesRows := stopTimesRows + tripStopTimes;
    }

    /** `for f in sorted(norm_files)`: every file, in file-name order. */
    method AddFiles(files: seq<NormalizedTrain>)
      modifies this
      ensures State() == Build(coords, serviceDate, agencyId, old(State()), files)
    {
      assert files[0..] == files;
      for i := 0 to |files|
        invariant Build(coords, serviceDate, agencyId, old(State()), files)
               == Build(coords, serviceDate, agencyId, State(), files[i..])
      {
        assert files[i..][1..] == files[i + 1..];
        AddFile(files[i]);
      }
      assert files[|files|..] == [];
    }
  }

  /**
   * `main` once the coordinate table and the normalized files (in file-name order)
   * are loaded: an error when there are no files; otherwise the single agency row,
   * the tables assembled file by file, and one calendar_dates row for the service
   * date. The result satisfies the feed invariant, and every trip runs on that service.
   */
  method BuildGtfs(coords: Coords, serviceDate: string, agencyName: string, agencyId: string, files: seq<NormalizedTrain>)
    returns (r: Result<Gtfs, string>)
    ensures r.Failure? <==> files == []
    ensures r.Failure? ==> r.error == "No normalized files found"
    ensures r.Success? ==>
              var t := Build(coords, serviceDate, agencyId, EmptyTables, files);
              && r.value.agency == AgencyRow(agencyId, agencyName, "https://www.italotreno.com/", "Europe/Rome")
              && r.value.stops == t.registry.stopsRows && r.value.routes == t.routes
              && r.value.trips == t.trips && r.value.stopTimes == t.stopTimes
              && r.value.calendarDates == [CalendarDateRow("SVC_" + serviceDate, serviceDate, "1")]
              && TablesValid(coords, t)
              && OnService(t.trips, r.value.calendarDates[0].serviceId)
  {
    if files == [] {
      return Failure("No normalized files found");
    }
    var b := new FeedBuilder(coords, serviceDate, agencyId);
    b.AddFiles(files);
    assert TablesValid(coords, EmptyTables) by {
      assert RowIds([]) == {};
    }
    BuildValid(coords, serviceDate, agencyId, EmptyTables, files);
    BuildTripsOnService(coords, serviceDate, agencyId, EmptyTables, files);
    var agency := AgencyRow(agencyId, agencyName, "https://www.italotreno.com/", "Europe/Rome");
    r := Success(Gtfs(agency, b.stopsRows, b.routesRows, b.tripsRows, b.stopTimesRows,
                      [CalendarDateRow("SVC_" + serviceDate, serviceDate, "1")]));
  }
}
