/**
 * scraper/extract_locations.py: the coordinates table `location_name,lat,lon`.
 * Existing rows are read with tolerant headers, station names are collected
 * from the raw payloads, and the two are merged so that hand-entered
 * coordinates survive and new names get blank ones.
 */
module CoordTable {
  import opened Wrappers
  import opened Text
  import Normalize

  /** A row of the existing CSV as `csv.DictReader` yields it: column name to cell. */
  type CsvRow = map<string, string>

  /** A station's coordinates, as the strings of the table (possibly empty). */
  type LatLon = (string, string)

  const NameColumns: seq<string> := ["location_name", "Location Name", "name"]
  const LatColumns: seq<string> := ["lat", "Lat"]
  const LonColumns: seq<string> := ["lon", "Lon", "lng", "Lng"]
  const Header: seq<string> := ["location_name", "lat", "lon"]

  // ---------------------------------------------------------------------------
  // load_existing_coords
  // ---------------------------------------------------------------------------

  /** A column holds a non-empty value in this row. */
  predicate Filled(row: CsvRow, column: string) {
    column in row && row[column] != ""
  }

  /** `row.get(c1) or row.get(c2) or ... or ""`: the first non-empty value among the columns. */
  function FirstFilled(row: CsvRow, columns: seq<string>): string
    decreases |columns|
  {
    if columns == [] then ""
    else if Filled(row, columns[0]) then row[columns[0]]
    else FirstFilled(row, columns[1..])
  }

  /**
   * `FirstFilled` falls through empty and missing columns: it is "" exactly when
   * no column is filled, and otherwise the value of the first filled one.
   */
  lemma {:induction false} FirstFilledSpec(row: CsvRow, columns: seq<string>)
    ensures FirstFilled(row, columns) == "" <==> forall i :: 0 <= i < |columns| ==> !Filled(row, columns[i])
    ensures forall i :: 0 <= i < |columns| && Filled(row, columns[i]) && (forall j :: 0 <= j < i ==> !Filled(row, columns[j]))
              ==> FirstFilled(row, columns) == row[columns[i]]
    decreases |columns|
  {
    if columns != [] {
      FirstFilledSpec(row, columns[1..]);
      assert forall i :: 0 < i < |columns| ==> columns[1..][i - 1] == columns[i];
    }
  }

  /** The per-row field selection: None for a row without a name, else the name and its trimmed lat/lon. */
  function ReadRow(row: CsvRow): (r: Option<(string, LatLon)>)
    ensures r.Some? ==> r.value.0 != "" && Trimmed(r.value.0)
    ensures r.Some? ==> Trimmed(r.value.1.0) && Trimmed(r.value.1.1)
  {
    var name := Trim(FirstFilled(row, NameColumns));
    TrimTrimmed(FirstFilled(row, NameColumns));
    if name == "" then None
    else
      var lat := Trim(FirstFilled(row, LatColumns));
      var lon := Trim(FirstFilled(row, LonColumns));
      TrimTrimmed(FirstFilled(row, LatColumns));
      TrimTrimmed(FirstFilled(row, LonColumns));
      Some((name, (lat, lon)))
  }

  /** What `ReadRow` makes of each row. */
  function Entries(rows: seq<CsvRow>): (e: seq<Option<(string, LatLon)>>)
    ensures |e| == |rows|
  {
    seq(|rows|, i requires 0 <= i < |rows| => ReadRow(rows[i]))
  }

  /** The dict built from read rows in order: each named row sets its name, later rows overwriting. */
  function Assigned(entries: seq<Option<(string, LatLon)>>): map<string, LatLon>
    decreases |entries|
  {
    if entries == [] then map[]
    else
      var n := |entries| - 1;
      match entries[n]
      case None => Assigned(entries[..n])
      case Some(entry) => Assigned(entries[..n])[entry.0 := entry.1]
  }

  /** `load_existing_coords` on the rows of an existing file. */
  function Loaded(rows: seq<CsvRow>): map<string, LatLon> {
    Assigned(Entries(rows))
  }

  /** Read row `i` carries `name`. */
  predicate Names(entries: seq<Option<(string, LatLon)>>, i: int, name: string)
    requires 0 <= i < |entries|
  {
    entries[i].Some? && entries[i].value.0 == name
  }

  /** The names in the dict are exactly the names of the rows. */
  lemma {:induction false} AssignedKeys(entries: seq<Option<(string, LatLon)>>, name: string)
    ensures name in Assigned(entries) <==> exists i :: 0 <= i < |entries| && Names(entries, i, name)
    decreases |entries|
  {
    if entries != [] {
      var n := |entries| - 1;
      var front := entries[..n];
      AssignedKeys(front, name);
      if Names(entries, n, name) {
        assert name in Assigned(entries);
      }
      if exists i :: 0 <= i < |entries| && Names(entries, i, name) {
        var i :| 0 <= i < |entries| && Names(entries, i, name);
        if i < n {
          assert front[i] == entries[i];
          assert Names(front, i, name);
        }
      }
      if exists i :: 0 <= i < n && Names(front, i, name) {
        var i :| 0 <= i < n && Names(front, i, name);
        assert front[i] == entries[i];
        assert Names(entries, i, name);
      }
    }
  }

  /** A name keeps the lat/lon of the last row that carries it. */
  lemma {:induction false} AssignedLast(entries: seq<Option<(string, LatLon)>>, i: int)
    requires 0 <= i < |entries| && entries[i].Some?
    requires forall j :: i < j < |entries| ==> !Names(entries, j, entries[i].value.0)
    ensures entries[i].value.0 in Assigned(entries) && Assigned(entries)[entries[i].value.0] == entries[i].value.1
    decreases |entries|
  {
    var n := |entries| - 1;
    if i < n {
      var front := entries[..n];
      var name := entries[i].value.0;
      assert front[i] == entries[i];
      forall j | i < j < n
        ensures !Names(front, j, name)
      {
        assert !Names(entries, j, name);
        assert front[j] == entries[j];
      }
      AssignedLast(front, i);
      assert !Names(entries, n, name);
    }
  }

  /** Every loaded name is non-empty and trimmed, and so are its coordinates. */
  lemma {:induction false} AssignedTrimmed(entries: seq<Option<(string, LatLon)>>)
    requires forall i :: 0 <= i < |entries| && entries[i].Some? ==>
      entries[i].value.0 != "" && Trimmed(entries[i].value.0) && Trimmed(entries[i].value.1.0) && Trimmed(entries[i].value.1.1)
    ensures forall name :: name in Assigned(entries) ==> name != "" && Trimmed(name)
    ensures forall name :: name in Assigned(entries) ==> Trimmed(Assigned(entries)[name].0) && Trimmed(Assigned(entries)[name].1)
    decreases |entries|
  {
    if entries != [] {
      var n := |entries| - 1;
      assert forall i :: 0 <= i < n ==> entries[..n][i] == entries[i];
      AssignedTrimmed(entries[..n]);
    }
  }

  /** The names and coordinates read from a file are non-empty (names) and trimmed. */
  lemma LoadedTrimmed(rows: seq<CsvRow>)
    ensures forall name :: name in Loaded(rows) ==> name != "" && Trimmed(name)
    ensures forall name :: name in Loaded(rows) ==> Trimmed(Loaded(rows)[name].0) && Trimmed(Loaded(rows)[name].1)
  {
    AssignedTrimmed(Entries(rows));
  }

  /** `load_existing_coords`: nothing for a missing file, else the rows read in order. */
  method LoadExistingCoords(file: Option<seq<CsvRow>>) returns (existing: map<string, LatLon>)
    ensures file.None? ==> existing == map[]
    ensures file.Some? ==> existing == Loaded(file.value)
  {
    if file.None? {
      return map[];
    }
    var rows := file.value;
    ghost var entries := Entries(rows);
    existing := map[];
    for i := 0 to |rows|
      invariant existing == Assigned(entries[..i])
    {
      assert entries[..i + 1][..i] == entries[..i];
      assert entries[i] == ReadRow(rows[i]);
      var row := rows[i];
      var name := Trim(FirstFilled(row, NameColumns));
      if name != "" {
        var lat := Trim(FirstFilled(row, LatColumns));
        var lon := Trim(FirstFilled(row, LonColumns));
        existing := existing[name := (lat, lon)];
      }
    }
    assert entries[..|rows|] == entries;
  }

  // ---------------------------------------------------------------------------
  // Collecting names from the payloads
  // ---------------------------------------------------------------------------

  /** `(s or {}).get("LocationDescription")` */
  function Description(o: Normalize.RawObject): Option<string> {
    match o
    case Falsy => None
    case Object(stop) => stop.locationDescription
  }

  /**
   * The values `add_name` is called with for one schedule, in order: the start
   * station, the stopping and non-stopping stations, the arrival description.
   */
  function Candidates(ts: Normalize.TrainSchedule): (c: seq<Option<string>>)
    ensures |c| == |ts.stazioniFerme| + |ts.stazioniNonFerme| + 2
    ensures c[0] == Description(ts.stazionePartenza)
    ensures forall i :: 0 <= i < |ts.stazioniFerme| ==> c[1 + i] == Description(ts.stazioniFerme[i])
    ensures forall i :: 0 <= i < |ts.stazioniNonFerme| ==>
              c[1 + |ts.stazioniFerme| + i] == Description(ts.stazioniNonFerme[i])
    ensures c[|c| - 1] == ts.arrivalStationDescription
  {
    [Description(ts.stazionePartenza)]
      + seq(|ts.stazioniFerme|, i requires 0 <= i < |ts.stazioniFerme| => Description(ts.stazioniFerme[i]))
      + seq(|ts.stazioniNonFerme|, i requires 0 <= i < |ts.stazioniNonFerme| => Description(ts.stazioniNonFerme[i]))
      + [ts.arrivalStationDescription]
  }

  /** The name `add_name` adds for a value, if any: the value stripped, when that is non-empty. */
  function NameFrom(n: Option<string>): Option<string> {
    if n.Some? && n.value != "" && Trim(n.value) != "" then Some(Trim(n.value)) else None
  }

  /** The names a run of `add_name` calls adds. */
  function AddedNames(candidates: seq<Option<string>>): set<string>
    decreases |candidates|
  {
    if candidates == [] then {}
    else
      var n := |candidates| - 1;
      AddedNames(candidates[..n]) + (if NameFrom(candidates[n]).Some? then {NameFrom(candidates[n]).value} else {})
  }

  /** The names the candidates of one schedule contribute. */
  function ScheduleNames(ts: Normalize.TrainSchedule): set<string> {
    AddedNames(Candidates(ts))
  }

  /** `add_name` only adds non-empty, trimmed names. */
  lemma {:induction false} AddedNamesTrimmed(candidates: seq<Option<string>>)
    ensures forall x :: x in AddedNames(candidates) ==> x != "" && Trimmed(x)
    decreases |candidates|
  {
    if candidates != [] {
      var n := |candidates| - 1;
      AddedNamesTrimmed(candidates[..n]);
      var c := candidates[n];
      if c.Some? {
        TrimTrimmed(c.value);
      }
    }
  }

  /**
   * The names the readable payloads contribute. A payload is None when it could
   * not be read or has no `TrainSchedule`.
   */
  function PayloadNames(docs: seq<Option<Normalize.TrainSchedule>>): set<string>
    decreases |docs|
  {
    if docs == [] then {}
    else
      var n := |docs| - 1;
      PayloadNames(docs[..n]) + (if docs[n].Some? then ScheduleNames(docs[n].value) else {})
  }

  /** Every collected payload name is non-empty and trimmed. */
  lemma {:induction false} PayloadNamesTrimmed(docs: seq<Option<Normalize.TrainSchedule>>)
    ensures forall x :: x in PayloadNames(docs) ==> x != "" && Trimmed(x)
    decreases |docs|
  {
    if docs != [] {
      var n := |docs| - 1;
      PayloadNamesTrimmed(docs[..n]);
      if docs[n].Some? {
        AddedNamesTrimmed(Candidates(docs[n].value));
      }
    }
  }

  /** Calls `add_name` on each candidate of one schedule. */
  method AddScheduleNames(names: set<string>, ts: Normalize.TrainSchedule) returns (out: set<string>)
    ensures out == names + ScheduleNames(ts)
  {
    out := names;
    var candidates := Candidates(ts);
    for i := 0 to |candidates|
      invariant out == names + AddedNames(candidates[..i])
    {
      var n := candidates[i];
      assert candidates[..i + 1][..i] == candidates[..i];
      if n.Some? && n.value != "" {
        var stripped := Trim(n.value);
        if stripped != "" {
          out := out + {stripped};
        }
      }
    }
    assert candidates[..|candidates|] == candidates;
  }

  /** The name set: the existing names, grown by every readable payload. */
  method CollectNames(existing: set<string>, docs: seq<Option<Normalize.TrainSchedule>>) returns (names: set<string>)
    ensures names == existing + PayloadNames(docs)
  {
    names := existing;
    for k := 0 to |docs|
      invariant names == existing + PayloadNames(docs[..k])
    {
      assert docs[..k + 1][..k] == docs[..k];
      if docs[k].Some? {
        names := AddScheduleNames(names, docs[k].value);
      }
    }
    assert docs[..|docs|] == docs;
  }

  // ---------------------------------------------------------------------------
  // The merge and the written table
  // ---------------------------------------------------------------------------

  /** `merged`: every collected name, with its existing lat/lon or blanks. */
  method Merge(existing: map<string, LatLon>, names: set<string>) returns (merged: map<string, LatLon>)
    ensures merged.Keys == names
    ensures forall n :: n in names && n in existing ==> merged[n] == existing[n]
    ensures forall n :: n in names && n !in existing ==> merged[n] == ("", "")
  {
    merged := map[];
    var rest := names;
    while rest != {}
      invariant rest <= names
      invariant merged.Keys == names - rest
      invariant forall n :: n in merged && n in existing ==> merged[n] == existing[n]
      invariant forall n :: n in merged && n !in existing ==> merged[n] == ("", "")
      decreases |rest|
    {
      var name :| name in rest;
      if name in existing {
        merged := merged[name := existing[name]];
      } else {
        merged := merged[name := ("", "")];
      }
      rest := rest - {name};
    }
  }

  /**
   * The run of `main` after the I/O: load, collect, merge. `added` is never
   * negative and counts the names that were not in the table before.
   */
  method Update(file: Option<seq<CsvRow>>, docs: seq<Option<Normalize.TrainSchedule>>) returns (merged: map<string, LatLon>, added: int)
    ensures var existing := if file.Some? then Loaded(file.value) else map[];
      && merged.Keys == existing.Keys + PayloadNames(docs)
      && (forall n :: n in existing ==> merged[n] == existing[n])
      && (forall n :: n in merged && n !in existing ==> merged[n] == ("", ""))
      && added == |merged| - |existing|
      && added == |PayloadNames(docs) - existing.Keys|
      && added >= 0
  {
    var existing := LoadExistingCoords(file);
    var names := CollectNames(existing.Keys, docs);
    merged := Merge(existing, names);
    added := |merged| - |existing|;
    assert names == existing.Keys + (names - existing.Keys);
    assert names - existing.Keys == PayloadNames(docs) - existing.Keys;
    assert |merged| == |names|;
  }

  /** The name of a written data row. */
  function RowName(row: seq<string>): string {
    if row == [] then "" else row[0]
  }

  function RowNames(rows: seq<seq<string>>): seq<string> {
    seq(|rows|, k requires 0 <= k < |rows| => RowName(rows[k]))
  }

  /** `row` is the table's row for its name: name, lat, lon. */
  predicate RowOf(table: map<string, LatLon>, row: seq<string>) {
    |row| == 3 && row[0] in table && row[1] == table[row[0]].0 && row[2] == table[row[0]].1
  }

  /** `write_coords`: the header, then one row per name in case-insensitive order. */
  method CoordsRows(table: map<string, LatLon>) returns (out: seq<seq<string>>)
    ensures |out| == |table| + 1
    ensures out[0] == Header
    ensures Listing(RowNames(out[1..]), table.Keys, Lower)
    ensures forall k :: 1 <= k < |out| ==> RowOf(table, out[k])
  {
    var names := SortBy(table.Keys, Lower);
    var body := DataRows(table, names);
    out := [Header] + body;
    assert out[1..] == body;
  }

  /** The loop writing one row per sorted name. */
  method DataRows(table: map<string, LatLon>, names: seq<string>) returns (body: seq<seq<string>>)
    requires forall x :: x in names ==> x in table
    ensures |body| == |names|
    ensures RowNames(body) == names
    ensures forall k :: 0 <= k < |body| ==> RowOf(table, body[k])
  {
    body := [];
    for k := 0 to |names|
      invariant |body| == k
      invariant forall q :: 0 <= q < k ==> body[q] == [names[q], table[names[q]].0, table[names[q]].1]
    {
      var name := names[k];
      var (lat, lon) := table[name];
      body := body + [[name, lat, lon]];
    }
    assert RowNames(body) == names;
  }
}
