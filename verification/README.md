# italo-train-scraper: a verified model of the scraper's data pipeline

The scraper collects Italo train schedules and turns them into a GTFS feed, along with
a few coverage reports. This project models the logic between its I/O calls and proves
properties of that logic:

- normalizing one raw train payload into a schedule of stops with rolled-over times;
- assembling the GTFS tables, with stops registered once each;
- the stops coverage report and its sighting inventory;
- the missing-routes comparison between an expected list and a feed's routes;
- slicing the train-number range across scraper runs;
- maintaining the station-coordinates table.

| module | file | models |
|---|---|---|
| `Wrappers` | wrappers.dfy | `Option` and `Result` |
| `Text` | text.dfy | `str.strip` with Python's whitespace set, `lower`/`casefold` (ASCII), string order, decimal digits, `split`, sorting a set by a key |
| `Coordinates` | coordinates.dfy | `has_valid_coord` (build_gtfs.py and report_stops.py) over a decimal reading of `float()` |
| `Times` | times.dfy | `parse_hhmm`, `fmt_gtfs_time`, `infer_rollover_minutes` (normalize_italo.py) |
| `Normalize` | normalize.dfy | `extract_stops_from_train_schedule` (normalize_italo.py) |
| `Feed` | feed.dfy | `ensure_stop` and the per-file loop of build_gtfs.py, as the class `FeedBuilder` over a value-level specification |
| `StopReport` | stop_report.dfy | `merge_inventory`, `categorize`, `build_rows_from_inventory` (report_stops.py) |
| `RouteReport` | route_report.dfy | `norm`, `parse_route_long_name`, the routes.txt reader, the index and the matching loop (report_missing_routes.py) |
| `Slicing` | slicing.dfy | `build_slice` (italo_scrape.py) |
| `CoordTable` | coord_table.dfy | `load_existing_coords`, the name collection and merge of `main`, `write_coords` (extract_locations.py) |

Each loop in the scripts is a Dafny `method` proved against a function that says what
it computes. The properties of those functions are stated as lemmas. The one object the
source updates in place is the set of GTFS tables in build_gtfs.py, and `Feed.FeedBuilder`
models it as a class with sequence and map fields. The inventory dictionary that
`merge_inventory` updates is modelled by `StopReport.Inventory`.

The code behaves as follows where a reader might expect otherwise:

- `parse_hhmm` (scraper/normalize_italo.py:10, 15) accepts a trailing newline, because `$`
  under `re.match` also matches before a final "\n" (`Times.ParseHhmm`).
- The docstring of `infer_rollover_minutes` (scraper/normalize_italo.py:31-34) speaks of
  times going backwards across midnight. The loop keeps present times non-decreasing
  only while each time is below 24:00: an "HH" of 24 or more can still give a decreasing
  result (`Times.RolloverCanDecreaseOnLongHours`).
- The departure fix (scraper/normalize_italo.py:100-105) looks at one stop at a time, so
  it can leave departures out of order (`Normalize.DepartureFixCanReorder`).
- build_gtfs.py appends one route per kept train (scraper/build_gtfs.py:151), so two
  trains between the same stations give two routes. It writes a single calendar_dates
  row (scraper/build_gtfs.py:86).
- The docstring of `parse_route_long_name` (scraper/report_missing_routes.py:47-50) says it
  reads the long name build_gtfs.py writes. It gives back both endpoints only when the
  origin holds no en dash (`RouteReport.RoundTripNeedsDashFreeOrigin`).

## Model

| member | source | states |
|---|---|---|
| Text.TrimSlice | scraper/extract_locations.py:32 | `strip` removes a maximal whitespace run at each end: the result is a slice of the input, and everything outside it is whitespace |
| Text.TrimTrimmed | scraper/report_missing_routes.py:51 | a stripped string neither starts nor ends with whitespace |
| Text.TrimIdempotent | scraper/report_missing_routes.py:59 | stripping twice is stripping once |
| Text.Lower | scraper/report_missing_routes.py:15 | lower-casing keeps the length, maps each character on its own, keeps whitespace and leaves no upper-case letter |
| Text.LexLeTotal | scraper/report_stops.py:213 | any two strings are ordered one way or the other |
| Text.LexLeTrans | scraper/report_stops.py:213 | string order is transitive |
| Text.LexLeAntisym | scraper/report_stops.py:213 | strings ordered both ways are equal |
| Text.Find | scraper/report_missing_routes.py:52-53 | the result is present exactly when the separator occurs, and it is the first occurrence |
| Text.Split | scraper/report_missing_routes.py:38 | `split` gives at least one part, and no part holds the separator |
| Text.SplitJoin | scraper/report_missing_routes.py:38 | joining the parts with the separator gives back the line |
| Text.Pad2 | scraper/normalize_italo.py:27 | two-digit padding gives only digits, and exactly two for values below 100 |
| Text.Pad2RoundTrip | scraper/normalize_italo.py:27 | the padded digits read back as the number |
| Text.DigitsRoundTrip | scraper/normalize_italo.py:27 | the decimal digits of a number read back as that number |
| Text.SortBy | scraper/extract_locations.py:43 | `sorted(set, key=…)` lists every element of the set once, and no other, in non-decreasing key order |
| Text.InsertSorted | scraper/report_stops.py:257 | inserting a new element at its key position keeps the list distinct and sorted, and adds exactly that element |
| Times.ParseHhmm | scraper/normalize_italo.py:13-18 | a time is read exactly when the text is present and is two ASCII digits, a colon and two ASCII digits, optionally followed by a newline; the value is hours × 60 + minutes and at most 99:99 |
| Times.FmtGtfsTime | scraper/normalize_italo.py:21-24 | None is written exactly for None |
| Times.FmtGtfsTimeRoundTrip | scraper/normalize_italo.py:25-27 | "HH:MM:00" for any minute count reads back as that count |
| Times.ParseThenFormat | scraper/normalize_italo.py:13-27 | a valid "HH:MM" comes out as "HH:MM:00" |
| Times.InferRollover | scraper/normalize_italo.py:30-49 | the loop computes the rollover function |
| Times.RolloverFromShape | scraper/normalize_italo.py:37-49 | the output has one entry per input, None exactly where the input is None |
| Times.RolloverFromAdded | scraper/normalize_italo.py:42-48 | each present time gets at least the current offset, plus whole days |
| Times.RolloverFromOrdered | scraper/normalize_italo.py:42-46 | the day offset never decreases along the list |
| Times.RolloverOffsets | scraper/normalize_italo.py:42-48 | each present time is shifted by a non-negative multiple of 1440 minutes, and later times by at least as much |
| Times.RolloverFromMonotone | scraper/normalize_italo.py:42-46 | with clock times below 24:00, present results are non-decreasing and never below the previous value |
| Times.RolloverMonotone | scraper/normalize_italo.py:42-46 | with clock times below 24:00, present results are non-decreasing |
| Times.RolloverCanDecreaseOnLongHours | scraper/normalize_italo.py:42-46 | with an hour of 99, a later time can come out smaller |
| Normalize.Present | scraper/normalize_italo.py:72-75 | the falsy entries are dropped and the present stop objects are kept |
| Normalize.AppendPresent | scraper/normalize_italo.py:77-81 | the loop appends exactly the present stop objects |
| Normalize.GatherStops | scraper/normalize_italo.py:69-81 | the origin, then the stopping stations, then the non-stopping stations, present objects only |
| Normalize.Insert | scraper/normalize_italo.py:90 | insertion into a sorted list adds one element and keeps the list sorted |
| Normalize.SortTagged | scraper/normalize_italo.py:90 | the sorted list is a strictly ordered rearrangement of the tagged stops |
| Normalize.SortByStationIsStable | scraper/normalize_italo.py:84-90 | `list.sort` by station number is a permutation, orders by station number, and keeps stops with equal numbers (the 10^9 sentinel included) in input order |
| Normalize.FixedDeparture | scraper/normalize_italo.py:100-105 | a departure changes only when both times are present and it precedes the arrival, and then by exactly one day |
| Normalize.FixDepartures | scraper/normalize_italo.py:100-105 | the fix applied at every stop |
| Normalize.EmitStops | scraper/normalize_italo.py:107-133 | one output stop per sorted stop, with sequence number, names, codes and endpoint-stripped times |
| Normalize.ExtractStops | scraper/normalize_italo.py:63-144 | None exactly for an empty payload or one without a schedule; otherwise the header fields and the gathered, sorted, rolled and fixed stops, with no arrival at the first stop and no departure at the last |
| Normalize.DepartureFixCanReorder | scraper/normalize_italo.py:100-105 | a stop left at 24:05 can be followed by one left at 00:15 |
| Coordinates.WithinBoundMeaning | scraper/build_gtfs.py:43 | the bound test on the decimal is the bound test on its real value |
| Coordinates.LeadingSpaceIgnored | scraper/build_gtfs.py:41-42 | `float()` ignores surrounding whitespace |
| Coordinates.ParseFloatOfDigits | scraper/build_gtfs.py:41-42 | a string of digits reads as its decimal value |
| Coordinates.ParseFloatOfNegDigits | scraper/build_gtfs.py:41-42 | a minus sign then digits reads as the negated value |
| Coordinates.ParseFloatOfDecimalExample | scraper/report_stops.py:113-121 | "45.4642" reads as 45.4642, and ("45.4642", "9.19") is a valid coordinate |
| Coordinates.ParseFloatRejects | scraper/build_gtfs.py:36-45 | empty, lone-sign, lone-dot and non-numeric text is rejected, and a blank lat or lon is invalid |
| Coordinates.HasValidCoordOnIntegers | scraper/build_gtfs.py:36-45 | for whole numbers, with or without a minus sign on either coordinate, the pair is valid exactly when abs(lat) ≤ 90 and abs(lon) ≤ 180 |
| Feed.StopIdInjective | scraper/build_gtfs.py:107 | distinct keys give distinct stop ids |
| Feed.CacheKeyValid | scraper/build_gtfs.py:107-110 | the id of a new key is not yet seen, and caching it keeps the cache invariant |
| Feed.RegisterValid | scraper/build_gtfs.py:107-114 | registering a new stop keeps the registry invariant and appends exactly its row |
| Feed.RegistryRowsDistinct | scraper/build_gtfs.py:110-114 | stops.txt never holds two rows with the same stop id |
| Feed.ResolveKeepsValid | scraper/build_gtfs.py:88-116 | `ensure_stop` keeps the registry invariant, and only adds to the cache and to stops.txt |
| Feed.ResolveOutcome | scraper/build_gtfs.py:93-116 | a cached key returns its id and changes nothing; a new key without valid coordinates returns None and changes nothing; otherwise the key is cached and exactly one row is appended |
| Feed.ResolveIdempotent | scraper/build_gtfs.py:93-95 | once a call returns an id, repeating it returns the same and changes nothing |
| Feed.TripStopTimes | scraper/build_gtfs.py:129-144 | a trip's stop_times keep at most one row per stop, all on the trip, numbered consecutively from the start value |
| Feed.TripRegistryValid | scraper/build_gtfs.py:132-144 | resolving a trip's stops keeps the registry invariant and only extends it |
| Feed.TripStopRefs | scraper/build_gtfs.py:136-144 | every stop_time of a trip names a stop in stops.txt |
| Feed.AddTrainValid | scraper/build_gtfs.py:119-157 | one file keeps the feed invariant: unique stop rows with valid coordinates, stop_times naming existing stops and trips, and routes paired with trips |
| Feed.BuildValid | scraper/build_gtfs.py:118-157 | the loop over all files keeps the feed invariant |
| Feed.AddTrainEffect | scraper/build_gtfs.py:120-157 | a file without a train number changes nothing; one with fewer than two kept stops adds no route, trip or stop_time; otherwise one route ("R_"+train, en-dash long name, type 2), one trip, and its stop_times numbered from 0 |
| Feed.BuildTripsOnService | scraper/build_gtfs.py:86 | every trip runs on the single service "SVC_"+date |
| Feed.FeedBuilder.constructor | scraper/build_gtfs.py:67-78 | the builder starts with empty tables |
| Feed.FeedBuilder.EnsureStop | scraper/build_gtfs.py:88-116 | the method updates the cache, seen set and stops.txt as `ensure_stop` does, and leaves the other tables alone |
| Feed.FeedBuilder.StopTime | scraper/build_gtfs.py:132-144 | one stop of the trip loop: its row when the stop resolves, and the updated registry |
| Feed.FeedBuilder.TripStops | scraper/build_gtfs.py:129-144 | the trip's stop loop computes the trip's stop_times and registry |
| Feed.FeedBuilder.AddFile | scraper/build_gtfs.py:119-157 | the tables after one file are those of the per-file function |
| Feed.FeedBuilder.AddFiles | scraper/build_gtfs.py:118-157 | the tables after all files are those of the fold over the files |
| Feed.BuildGtfs | scraper/build_gtfs.py:63-86 | no files is the "No normalized files found" error; otherwise the Italo agency row, the tables of the fold over the files, one calendar_dates row, the feed invariant, and every trip on that service |
| StopReport.Observed | scraper/report_stops.py:176-183 | a sighting sets the last-seen time, keeps a non-empty first-seen time, starts a new entry at count 1 and otherwise adds one |
| StopReport.MergedSpec | scraper/report_stops.py:175-184 | merging covers the old names and the observed ones; observed names get this run's sighting; other entries are unchanged |
| StopReport.SynthesizedIsMergeIntoEmpty | scraper/report_stops.py:321-323 | without an inventory file, the report's inventory is the observed names merged into an empty inventory |
| StopReport.Inventory.constructor | scraper/report_stops.py:167-174 | the inventory holds the loaded entries |
| StopReport.Inventory.Merge | scraper/report_stops.py:167-184 | the in-place loop leaves the entries equal to the merge of the old entries with the observed names |
| StopReport.MergedStep | scraper/report_stops.py:175-184 | merging one more name is one more loop step |
| StopReport.CategoryOf | scraper/report_stops.py:214-221 | a name is new exactly when it is not in the coordinate table, and has coordinates exactly when it is there with valid ones |
| StopReport.Keep | scraper/report_stops.py:213-221 | filtering keeps exactly the listed names in the allowed group |
| StopReport.KeepSorted | scraper/report_stops.py:213 | filtering a sorted list keeps it sorted |
| StopReport.KeepDistinct | scraper/report_stops.py:213 | filtering a list without repeats gives one without repeats |
| StopReport.Group | scraper/report_stops.py:214-221 | a group is exactly the inventory names of that category |
| StopReport.StaleNames | scraper/report_stops.py:223-228 | the stale group is exactly the inventory names whose last sighting the staleness test flags |
| StopReport.Categorize | scraper/report_stops.py:187-242 | each list holds its group exactly once per name, in case-insensitive order; unused is the table names outside the inventory; stale is present exactly when a window is given |
| StopReport.Coverage | scraper/report_stops.py:213-228 | the loop puts each sorted name in the list of its category, and in the stale list when flagged |
| StopReport.Classify | scraper/report_stops.py:214-228 | one step of the loop appends the name to its category's list, and to the stale list when flagged |
| StopReport.KeepListing | scraper/report_stops.py:213 | filtering a sorted listing by a subgroup gives the sorted listing of that subgroup |
| StopReport.GroupsPartition | scraper/report_stops.py:213-221 | the three groups cover the inventory, do not overlap, and their sizes add up to its size |
| StopReport.CategoriesPartition | scraper/report_stops.py:213-221 | every inventory name is in exactly one of has, missing and new, and the counts add up |
| StopReport.IntText | scraper/report_stops.py:261 | `str(int)` is never empty |
| StopReport.IntTextRoundTrip | scraper/report_stops.py:261 | `str(int)` reads back as the number, with a minus sign for negatives |
| StopReport.StatusTextInjective | scraper/report_stops.py:266-268 | distinct categories have distinct status words |
| StopReport.RowFor | scraper/report_stops.py:258-276 | a report row carries its inventory name |
| StopReport.RowForSpec | scraper/report_stops.py:258-276 | a row's status is its category, its coordinates are the table's or blank, its sighting fields are the inventory's, and its stale flag is blank without a window and otherwise "YES" exactly for stale names |
| StopReport.Rows | scraper/report_stops.py:257-276 | one row per name, in the order given |
| StopReport.RowsFor | scraper/report_stops.py:257-276 | the loop builds one row per name |
| StopReport.BuildRows | scraper/report_stops.py:245-277 | one row per inventory name, each once, in case-insensitive order, each the row for its name |
| RouteReport.Collapse | scraper/report_missing_routes.py:15 | collapsing whitespace runs never lengthens the text |
| RouteReport.CollapseCollapsed | scraper/report_missing_routes.py:15 | after `re.sub(r"\s+", " ", …)` no whitespace other than single spaces is left |
| RouteReport.CollapseFixed | scraper/report_missing_routes.py:15 | collapsing changes no collapsed text |
| RouteReport.NormNormalForm | scraper/report_missing_routes.py:14-15 | `norm` gives stripped, lower-case text with single spaces |
| RouteReport.NormalFormFixed | scraper/report_missing_routes.py:14-15 | `norm` changes no text already in that form |
| RouteReport.NormIdempotent | scraper/report_missing_routes.py:14-15 | normalising twice is normalising once |
| RouteReport.ParseRouteLongName | scraper/report_missing_routes.py:46-59 | both parts are stripped, and text with neither separator is the whole text with an empty destination |
| RouteReport.ParseRouteLongNameRoundTrip | scraper/report_missing_routes.py:51-54 | splitting "origin – dest" gives back both endpoints when they are stripped and non-empty and the origin holds no en dash |
| RouteReport.RoundTripNeedsDashFreeOrigin | scraper/report_missing_routes.py:52-54 | an origin ending in an en dash splits at the wrong place |
| RouteReport.WrittenRouteKey | scraper/report_missing_routes.py:130-134 | a route written by build_gtfs.py is indexed under the normalised (origin, destination) pair |
| RouteReport.Header | scraper/report_missing_routes.py:34 | one header name per comma-separated field |
| RouteReport.RowMap | scraper/report_missing_routes.py:41 | the row dict has exactly the header names as keys |
| RouteReport.RowMapAt | scraper/report_missing_routes.py:41 | a column whose name does not recur later maps to its field, or "" past the end of the line |
| RouteReport.RowFromLine | scraper/report_missing_routes.py:38-42 | the loop builds the dict of the padded fields under the header |
| RouteReport.ReadRoutes | scraper/report_missing_routes.py:31-43 | no lines gives no rows; otherwise one dict per line after the header |
| RouteReport.RefsWithKey | scraper/report_missing_routes.py:129-135 | a key's entries are at most one per route |
| RouteReport.RefsWithKeyNonEmpty | scraper/report_missing_routes.py:129-135 | a key has entries exactly when some route has that key |
| RouteReport.BuildIndex | scraper/report_missing_routes.py:129-135 | the index holds exactly the keys of the routes, each with its routes' references in file order |
| RouteReport.MissingCount | scraper/report_missing_routes.py:159 | the missing count is at most the number of rows |
| RouteReport.MatchOne | scraper/report_missing_routes.py:143-168 | OK with the sorted distinct non-empty train numbers and long names when the key has matches; MISSING_IN_GTFS with empty lists otherwise |
| RouteReport.MatchAll | scraper/report_missing_routes.py:137-168 | one result per expected pair, each answering it, and the count of MISSING_IN_GTFS results |
| RouteReport.Compare | scraper/report_missing_routes.py:129-168 | a pair is OK exactly when some route in the feed has its normalised endpoints; the count is the number of misses |
| Slicing.Range | scraper/italo_scrape.py:56 | `range(start, end + 1)` holds the consecutive numbers from start to end |
| Slicing.NumSlices | scraper/italo_scrape.py:50-51 | the number of slices is the smallest one whose slices cover the range |
| Slicing.BuildSlice | scraper/italo_scrape.py:40-56 | an empty range and a non-positive size are errors with their messages; any other call succeeds |
| Slicing.SliceShape | scraper/italo_scrape.py:52-56 | the index wraps into [0, num_slices), and the slice starts at start + index × size, inside the range |
| Slicing.SliceRun | scraper/italo_scrape.py:54-56 | a slice is a non-empty run of consecutive numbers inside the range, at most slice_size long |
| Slicing.SliceFull | scraper/italo_scrape.py:54-55 | every slice but the last holds exactly slice_size numbers |
| Slicing.SliceWraps | scraper/italo_scrape.py:51-52 | indices that differ by num_slices, negative ones included, give the same slice |
| Slicing.SlicesUpToRange | scraper/italo_scrape.py:50-56 | the first k slices laid end to end are the range's first k × size numbers |
| Slicing.SlicesCoverRange | scraper/italo_scrape.py:50-56 | all slices laid end to end are exactly the range |
| Slicing.SlicesDisjoint | scraper/italo_scrape.py:50-56 | distinct slices share no number |
| CoordTable.FirstFilledSpec | scraper/extract_locations.py:32-36 | an `or` chain of columns gives the first non-empty one, and "" when all are empty |
| CoordTable.ReadRow | scraper/extract_locations.py:32-37 | a kept row has a non-empty stripped name and stripped coordinates |
| CoordTable.AssignedKeys | scraper/extract_locations.py:37 | a name is in the table exactly when some kept row carries it |
| CoordTable.AssignedLast | scraper/extract_locations.py:37 | for a repeated name, the last row wins |
| CoordTable.LoadedTrimmed | scraper/extract_locations.py:32-37 | loaded names are non-empty and stripped, and so are their coordinates |
| CoordTable.LoadExistingCoords | scraper/extract_locations.py:19-38 | no file gives an empty table; otherwise the rows assigned in order |
| CoordTable.Candidates | scraper/extract_locations.py:82-92 | the values passed to `add_name` for one schedule, in call order: the start station's description, each stopping station's, each non-stopping station's, then the arrival description |
| CoordTable.AddedNamesTrimmed | scraper/extract_locations.py:76-80 | every name added is non-empty and stripped |
| CoordTable.PayloadNamesTrimmed | scraper/extract_locations.py:63-92 | every name taken from the payloads is non-empty and stripped |
| CoordTable.AddScheduleNames | scraper/extract_locations.py:82-92 | one payload's loop adds exactly that schedule's names |
| CoordTable.CollectNames | scraper/extract_locations.py:63-92 | the name set is the table's names plus every payload's names |
| CoordTable.Merge | scraper/extract_locations.py:94-100 | every name is kept, old names keep their coordinates, and new names get blank ones |
| CoordTable.Update | scraper/extract_locations.py:59-104 | the table after a run: old rows unchanged, new names blank, and the added count is the number of names not already present, never negative |
| CoordTable.CoordsRows | scraper/extract_locations.py:41-50 | the header, then one row per name, each once, in case-insensitive order, carrying its coordinates |
| CoordTable.DataRows | scraper/extract_locations.py:48-50 | the loop writes one row per name, in the order given, with that name's coordinates |

## Left out

- File, CSV, JSON, zip, xlsx and markdown I/O are not modelled. Neither are argparse, `os.listdir`/`os.walk` and directory creation. Loaded files are parameters: rows, parsed payloads and coordinate maps.
- italo_scrape.py's HTTP fetching, retries, sleeps and jitter are not modelled. They are network I/O; only `build_slice` is modelled.
- The clock is not modelled. `captured_utc` is a parameter. The staleness test (`parse_run_utc`, `hours_since` against a window) is a parameter `Option<string -> bool>`.
- Coordinates.ParseFloat: `float()` is modelled as a reader of decimals with an optional sign and fraction. Exponents, underscores, `inf`/`nan`, IEEE rounding and non-ASCII Unicode decimal digits (which `float()` accepts, so `float("٤٥")` is 45.0) are not modelled.
- Times.ParseHhmm: `\d` in `TIME_RE` and `int()` are read as the ASCII digits 0-9 only. Other Unicode decimal digits, which both accept, are not modelled, so the model returns None where the source reads "١٢:٣٠" as 750.
- `lower()` and `casefold()` are modelled on ASCII letters only. Python's full Unicode case mapping is not modelled.
- `int()` on `StationNumber` is an `Option<int>` field of the raw stop. The raw value's type and `int()`'s parsing are not modelled.
- `load_coords_csv` in build_gtfs.py and report_stops.py is not modelled: the coordinate table is a parameter map.
- `load_inventory`'s type checks on the JSON and `collect_observed_stops`' directory walk are not modelled. Observed names are a parameter set.
- The markdown summary of report_stops.py and the CSV writers of both reports are not modelled.
- RouteReport.MatchOne: keeps the sorted train numbers and long names as lists, where the source joins them with ", " and " | ".
- CoordTable.AddScheduleNames: `add_name`'s `str(n)` on a non-string value is not modelled. Names are strings or absent.
- build_gtfs.py's `stop_latlon_by_stop_id` and `stop_code_by_stop_id` are written but never read, so they are not modelled.
- Text.SortBy: the source breaks ties between elements with equal keys in the iteration order of the key collection (set order, or dict insertion order in `build_rows_from_inventory`); the model leaves such ties unordered.
- make_normalized_latest.py is not part of this model.
