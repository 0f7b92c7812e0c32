/**
 * scraper/report_missing_routes.py: normalising station names, splitting a
 * route long name back into its endpoints, reading routes.txt lines into rows,
 * indexing the routes by normalised endpoints, and matching the expected pairs.
 */
module RouteReport {
  import opened Wrappers
  import opened Text

  // ---------------------------------------------------------------------------
  // norm
  // ---------------------------------------------------------------------------

  /** `re.sub(r"\s+", " ", s)`: every maximal run of whitespace becomes one space. */
  function Collapse(s: string): (r: string)
    ensures |r| <= |s|
    decreases |s|
  {
    if s == [] then []
    else if IsSpace(s[0]) then [' '] + Collapse(TrimLeft(s[1..]))
    else [s[0]] + Collapse(s[1..])
  }

  /** `norm(s)`: strip, lower-case, collapse whitespace runs. */
  function Norm(s: string): string {
    Collapse(Lower(Trim(s)))
  }

  /** Whitespace appears only as single plain spaces. */
  predicate Collapsed(s: string) {
    forall i :: 0 <= i < |s| && IsSpace(s[i]) ==> s[i] == ' ' && (i + 1 < |s| ==> !IsSpace(s[i + 1]))
  }

  predicate NoUpper(s: string) {
    forall i :: 0 <= i < |s| ==> !('A' <= s[i] <= 'Z')
  }

  /** What `norm` produces: no leading, trailing or doubled whitespace, only plain spaces, no capitals. */
  predicate NormalForm(s: string) {
    Trimmed(s) && Collapsed(s) && NoUpper(s)
  }

  /** A string that starts with a non-space character is its own left-strip. */
  lemma TrimLeftNonSpace(s: string)
    requires s == [] || !IsSpace(s[0])
    ensures TrimLeft(s) == s
  {
  }

  /** Every character of a collapse is a character of its input or a space. */
  lemma {:induction false} CollapseChars(s: string)
    ensures forall i :: 0 <= i < |Collapse(s)| ==> Collapse(s)[i] == ' ' || Collapse(s)[i] in s
    decreases |s|
  {
    if s != [] {
      if IsSpace(s[0]) {
        var t := TrimLeft(s[1..]);
        CollapseChars(t);
        TrimLeftSpec(s[1..]);
        assert forall c :: c in t ==> c in s[1..];
      } else {
        CollapseChars(s[1..]);
      }
    }
  }

  /** The first character of a collapse is that of its input, when it is not whitespace. */
  lemma CollapseHead(s: string)
    requires s != [] && !IsSpace(s[0])
    ensures Collapse(s) != [] && Collapse(s)[0] == s[0]
  {
  }

  /** A collapse ends in whitespace only if its input does. */
  lemma {:induction false} CollapseLast(s: string)
    requires s != [] && !IsSpace(s[|s| - 1])
    ensures Collapse(s) != [] && !IsSpace(Collapse(s)[|Collapse(s)| - 1])
    decreases |s|
  {
    var r := Collapse(s);
    if IsSpace(s[0]) {
      var t := TrimLeft(s[1..]);
      TrimLeftSpec(s[1..]);
      assert s[1..][|s[1..]| - 1] == s[|s| - 1];
      assert t != [];
      assert t[|t| - 1] == s[|s| - 1];
      CollapseLast(t);
      var c := Collapse(t);
      assert r == [' '] + c;
      assert r[|r| - 1] == c[|c| - 1];
    } else if |s| > 1 {
      CollapseLast(s[1..]);
      var c := Collapse(s[1..]);
      assert r == [s[0]] + c;
      assert r[|r| - 1] == c[|c| - 1];
    } else {
      assert r == [s[0]];
    }
  }

  /** The output of `Collapse` has no doubled whitespace and only plain spaces. */
  lemma {:induction false} CollapseCollapsed(s: string)
    ensures Collapsed(Collapse(s))
    decreases |s|
  {
    if s != [] {
      var r := Collapse(s);
      if IsSpace(s[0]) {
        var t := TrimLeft(s[1..]);
        TrimLeftSpec(s[1..]);
        CollapseCollapsed(t);
        if t != [] {
          CollapseHead(t);
        }
        assert r == [' '] + Collapse(t);
      } else {
        CollapseCollapsed(s[1..]);
        assert r == [s[0]] + Collapse(s[1..]);
        if |s| > 1 && IsSpace(s[1]) {
          assert Collapse(s[1..])[0] == ' ';
        } else if |s| > 1 {
          CollapseHead(s[1..]);
        }
      }
    }
  }

  /** A string already in collapsed form is unchanged by `Collapse`. */
  lemma {:induction false} CollapseFixed(s: string)
    requires Collapsed(s)
    ensures Collapse(s) == s
    decreases |s|
  {
    if s != [] {
      assert Collapsed(s[1..]);
      if IsSpace(s[0]) {
        TrimLeftNonSpace(s[1..]);
      }
      CollapseFixed(s[1..]);
    }
  }

  lemma LowerTrimmed(s: string)
    requires Trimmed(s)
    ensures Trimmed(Lower(s)) && NoUpper(Lower(s))
  {
  }

  lemma LowerFixed(s: string)
    requires NoUpper(s)
    ensures Lower(s) == s
  {
  }

  /** `norm` always yields its normal form. */
  lemma NormNormalForm(s: string)
    ensures NormalForm(Norm(s))
  {
    var l := Lower(Trim(s));
    TrimTrimmed(s);
    LowerTrimmed(Trim(s));
    CollapseCollapsed(l);
    CollapseChars(l);
    var r := Collapse(l);
    assert NoUpper(r) by {
      forall i | 0 <= i < |r|
        ensures !('A' <= r[i] <= 'Z')
      {
        if r[i] != ' ' {
          var j :| 0 <= j < |l| && l[j] == r[i];
        }
      }
    }
    if l != [] {
      CollapseHead(l);
      CollapseLast(l);
    }
  }

  /** A string in normal form is left alone by `norm`. */
  lemma NormalFormFixed(s: string)
    requires NormalForm(s)
    ensures Norm(s) == s
  {
    TrimmedFixed(s);
    LowerFixed(s);
    CollapseFixed(s);
  }

  /** `norm` is idempotent. */
  lemma NormIdempotent(s: string)
    ensures Norm(Norm(s)) == Norm(s)
  {
    NormNormalForm(s);
    NormalFormFixed(Norm(s));
  }

  // ---------------------------------------------------------------------------
  // parse_route_long_name
  // ---------------------------------------------------------------------------

  /** The fallback separator: space, hyphen, space. */
  const Hyphen: string := " - "

  /** Split `t` around the first `sep`, stripping both parts. */
  function SplitFirst(t: string, sep: string, i: nat): (string, string)
    requires OccursAt(t, sep, i)
  {
    (Trim(t[..i]), Trim(t[i + |sep|..]))
  }

  /**
   * `parse_route_long_name`: on the stripped text, split at the first " – " if there
   * is one, else at the first " - ", stripping both parts; with neither, the whole
   * text and an empty destination.
   */
  function ParseRouteLongName(s: string): (r: (string, string))
    ensures Trimmed(r.0) && Trimmed(r.1)
    ensures !Contains(Trim(s), EnDashSeparator) && !Contains(Trim(s), Hyphen) ==> r == (Trim(s), "")
  {
    var t := Trim(s);
    TrimIdempotent(s);
    match Find(t, EnDashSeparator)
    case Some(i) =>
      var r := SplitFirst(t, EnDashSeparator, i);
      TrimTrimmed(t[..i]);
      TrimTrimmed(t[i + 3..]);
      r
    case None =>
      match Find(t, Hyphen)
      case Some(i) =>
        var r := SplitFirst(t, Hyphen, i);
        TrimTrimmed(t[..i]);
        TrimTrimmed(t[i + 3..]);
        r
      case None =>
        TrimTrimmed(s);
        (t, "")
  }

  /**
   * `parse_route_long_name` undoes the long name `build_gtfs` writes,
   * `f"{origin} – {dest}"`, when both endpoints are trimmed and non-empty and the
   * origin holds no en dash.
   */
  lemma ParseRouteLongNameRoundTrip(origin: string, dest: string)
    requires origin != [] && dest != []
    requires Trimmed(origin) && Trimmed(dest)
    requires '\U{2013}' !in origin
    ensures ParseRouteLongName(origin + EnDashSeparator + dest) == (origin, dest)
  {
    var t := origin + EnDashSeparator + dest;
    var n := |origin|;
    assert t[0] == origin[0] && t[|t| - 1] == dest[|dest| - 1];
    TrimmedFixed(t);
    assert t[n..n + 3] == EnDashSeparator;
    assert OccursAt(t, EnDashSeparator, n);
    forall j: nat | j < n
      ensures !OccursAt(t, EnDashSeparator, j)
    {
      assert t[j + 1] != '\U{2013}';
      assert j + 3 <= |t| ==> t[j..j + 3][1] == t[j + 1];
    }
    assert t[..n] == origin && t[n + 3..] == dest;
    TrimmedFixed(origin);
    TrimmedFixed(dest);
  }

  /**
   * Without the en-dash condition the round trip fails even when the origin holds
   * no " – ": the origin "A –" with destination "B" comes back as ("A", "– B").
   */
  lemma RoundTripNeedsDashFreeOrigin()
    ensures ParseRouteLongName(['A', ' ', '\U{2013}'] + EnDashSeparator + "B") == ("A", ['\U{2013}', ' ', 'B'])
  {
    var t := ['A', ' ', '\U{2013}'] + EnDashSeparator + "B";
    assert Trimmed(t);
    TrimmedFixed(t);
    assert OccursAt(t, EnDashSeparator, 1);
    assert !OccursAt(t, EnDashSeparator, 0) by {
      assert t[1] != '\U{2013}';
      assert t[0..3][1] == t[1];
    }
    assert t[..1] == "A" && t[4..] == ['\U{2013}', ' ', 'B'];
    TrimmedFixed("A");
    TrimmedFixed(['\U{2013}', ' ', 'B']);
  }

  /** A route whose long name was written from trimmed, non-empty endpoints is indexed under their normal forms. */
  lemma WrittenRouteKey(r: map<string, string>, origin: string, dest: string)
    requires origin != [] && dest != []
    requires Trimmed(origin) && Trimmed(dest)
    requires '\U{2013}' !in origin
    requires Get(r, "route_long_name") == origin + EnDashSeparator + dest
    ensures KeyOf(r) == ExpectedKey(Expected(origin, dest))
  {
    ParseRouteLongNameRoundTrip(origin, dest);
  }

  // ---------------------------------------------------------------------------
  // read_gtfs_routes_from_zip: lines to rows
  // ---------------------------------------------------------------------------

  /** The header of routes.txt: its first line split at commas, each name stripped. */
  function Header(line: string): (h: seq<string>)
    ensures |h| == |Split(line, ',')|
  {
    var parts := Split(line, ',');
    seq(|parts|, i requires 0 <= i < |parts| => Trim(parts[i]))
  }

  /** Field `i` of a split line, or "" past its end. */
  function Field(parts: seq<string>, i: nat): string {
    if i < |parts| then parts[i] else ""
  }

  /** No later column has the same name as column `i`, so column `i` is the one a dict keeps. */
  predicate LastIndex(header: seq<string>, i: nat)
    requires i < |header|
  {
    forall j :: i < j < |header| ==> header[j] != header[i]
  }

  /** The dict built from the header and a line's fields, column by column, later columns overwriting. */
  function RowMap(header: seq<string>, parts: seq<string>): (d: map<string, string>)
    ensures d.Keys == set h | h in header
    decreases |header|
  {
    if header == [] then map[]
    else
      var n := |header| - 1;
      assert header == header[..n] + [header[n]];
      RowMap(header[..n], parts)[header[n] := Field(parts, n)]
  }

  /** In a row dict, each column name holds the field of its last column. */
  lemma {:induction false} RowMapAt(header: seq<string>, parts: seq<string>, i: nat)
    requires i < |header| && LastIndex(header, i)
    ensures RowMap(header, parts)[header[i]] == Field(parts, i)
    decreases |header|
  {
    var n := |header| - 1;
    if i < n {
      assert header[..n][i] == header[i];
      RowMapAt(header[..n], parts, i);
    }
  }

  /** `d` is the row read from `line`: exactly the header's keys, each with its field, "" when the line is short. */
  ghost predicate RowOf(header: seq<string>, line: string, d: map<string, string>) {
    && d.Keys == (set h | h in header)
    && forall i :: 0 <= i < |header| && LastIndex(header, i) ==> d[header[i]] == Field(Split(line, ','), i)
  }

  /** One data line of routes.txt: split at commas, pad short lines with "", key the fields by the header. */
  method RowFromLine(header: seq<string>, line: string) returns (d: map<string, string>)
    ensures RowOf(header, line, d)
  {
    var parts := Split(line, ',');
    ghost var fields := parts;
    if |parts| < |header| {
      parts := parts + seq(|header| - |parts|, _ => "");
    }
    assert forall i :: 0 <= i < |header| ==> Field(parts, i) == Field(fields, i);
    d := map[];
    for i := 0 to |header|
      invariant d == RowMap(header[..i], parts)
    {
      assert header[..i + 1][..i] == header[..i];
      d := d[header[i] := if i < |parts| then parts[i] else ""];
    }
    assert header[..|header|] == header;
    forall i | 0 <= i < |header| && LastIndex(header, i)
      ensures d[header[i]] == Field(fields, i)
    {
      RowMapAt(header, parts, i);
    }
  }

  /** `read_gtfs_routes_from_zip` after the zip is read: no rows for no lines, else one row per line after the header. */
  method ReadRoutes(raw: seq<string>) returns (rows: seq<map<string, string>>)
    ensures raw == [] ==> rows == []
    ensures raw != [] ==> |rows| == |raw| - 1
    ensures raw != [] ==> forall k :: 0 <= k < |rows| ==> RowOf(Header(raw[0]), raw[k + 1], rows[k])
  {
    if raw == [] {
      return [];
    }
    var header := Header(raw[0]);
    rows := [];
    for k := 1 to |raw|
      invariant |rows| == k - 1
      invariant forall q :: 0 <= q < |rows| ==> RowOf(header, raw[q + 1], rows[q])
    {
      var d := RowFromLine(header, raw[k]);
      rows := rows + [d];
    }
  }

  // ---------------------------------------------------------------------------
  // The index of routes by normalised endpoints
  // ---------------------------------------------------------------------------

  /** What the index keeps of a route: its train number and long name, stripped. */
  datatype RouteRef = RouteRef(train: string, longName: string)

  /** `r.get(k, "") or ""` */
  function Get(r: map<string, string>, k: string): string {
    if k in r then r[k] else ""
  }

  /** A route's index key: its parsed endpoints, normalised. */
  function KeyOf(r: map<string, string>): (string, string) {
    var p := ParseRouteLongName(Get(r, "route_long_name"));
    (Norm(p.0), Norm(p.1))
  }

  function RefOf(r: map<string, string>): RouteRef {
    RouteRef(Trim(Get(r, "route_short_name")), Trim(Get(r, "route_long_name")))
  }

  /** The references of the routes that `keyOf` maps to `key`, in file order. */
  function RefsWithKey(routes: seq<map<string, string>>, keyOf: map<string, string> -> (string, string), key: (string, string)): (refs: seq<RouteRef>)
    ensures |refs| <= |routes|
    decreases |routes|
  {
    if routes == [] then []
    else
      var n := |routes| - 1;
      RefsWithKey(routes[..n], keyOf, key) + (if keyOf(routes[n]) == key then [RefOf(routes[n])] else [])
  }

  /** `keyOf` maps some route of `routes` to `key`. */
  predicate HasKey(routes: seq<map<string, string>>, keyOf: map<string, string> -> (string, string), key: (string, string)) {
    exists i :: 0 <= i < |routes| && keyOf(routes[i]) == key
  }

  /** Some reference is listed under `key` exactly when some route has that key. */
  lemma {:induction false} RefsWithKeyNonEmpty(routes: seq<map<string, string>>, keyOf: map<string, string> -> (string, string), key: (string, string))
    ensures RefsWithKey(routes, keyOf, key) != [] <==> HasKey(routes, keyOf, key)
    decreases |routes|
  {
    if routes != [] {
      var n := |routes| - 1;
      var front := routes[..n];
      RefsWithKeyNonEmpty(front, keyOf, key);
      if keyOf(routes[n]) == key {
        assert RefsWithKey(routes, keyOf, key) != [];
      } else {
        assert RefsWithKey(routes, keyOf, key) == RefsWithKey(front, keyOf, key);
        if HasKey(routes, keyOf, key) {
          var i :| 0 <= i < |routes| && keyOf(routes[i]) == key;
          assert i < n && front[i] == routes[i];
        }
        if HasKey(front, keyOf, key) {
          var i :| 0 <= i < n && keyOf(front[i]) == key;
          assert front[i] == routes[i];
        }
      }
    }
  }

  /** `idx` lists, under each key, the references of the routes `keyOf` maps to it, and has no other keys. */
  ghost predicate Indexes(idx: map<(string, string), seq<RouteRef>>, routes: seq<map<string, string>>, keyOf: map<string, string> -> (string, string)) {
    && (forall key :: key in idx <==> RefsWithKey(routes, keyOf, key) != [])
    && (forall key :: key in idx ==> idx[key] == RefsWithKey(routes, keyOf, key))
  }

  /** Appending the next route's reference under its key extends the index by that route. */
  lemma IndexesStep(idx: map<(string, string), seq<RouteRef>>, routes: seq<map<string, string>>, keyOf: map<string, string> -> (string, string), i: nat)
    requires i < |routes| && Indexes(idx, routes[..i], keyOf)
    ensures var key := keyOf(routes[i]);
      Indexes(idx[key := (if key in idx then idx[key] else []) + [RefOf(routes[i])]], routes[..i + 1], keyOf)
  {
    assert routes[..i + 1][..i] == routes[..i];
  }

  /** The loop over `gtfs_routes` filling `idx` with `setdefault(key, []).append(...)`. */
  method BuildIndex(routes: seq<map<string, string>>) returns (idx: map<(string, string), seq<RouteRef>>)
    ensures forall key :: key in idx <==> RefsWithKey(routes, KeyOf, key) != []
    ensures forall key :: key in idx ==> idx[key] == RefsWithKey(routes, KeyOf, key)
  {
    idx := map[];
    for i := 0 to |routes|
      invariant Indexes(idx, routes[..i], KeyOf)
    {
      var r := routes[i];
      var longName := Get(r, "route_long_name");
      var short := Get(r, "route_short_name");
      var (a, b) := ParseRouteLongName(longName);
      var key := (Norm(a), Norm(b));
      IndexesStep(idx, routes, KeyOf, i);
      var list := if key in idx then idx[key] else [];
      idx := idx[key := list + [RouteRef(Trim(short), Trim(longName))]];
    }
    assert routes[..|routes|] == routes;
  }

  // ---------------------------------------------------------------------------
  // Matching the expected pairs
  // ---------------------------------------------------------------------------

  /** One row of the expected-routes sheet. */
  datatype Expected = Expected(departure: string, arrival: string)

  /**
   * One result. `trains` and `longNames` are the sorted lists that the report
   * joins with ", " and " | ".
   */
  datatype MatchRow = MatchRow(departure: string, arrival: string, status: string, trains: seq<string>, longNames: seq<string>)

  const Ok: string := "OK"
  const MissingInGtfs: string := "MISSING_IN_GTFS"

  function ExpectedKey(e: Expected): (string, string) {
    (Norm(e.departure), Norm(e.arrival))
  }

  /** `idx.get(key, [])` */
  function Lookup(idx: map<(string, string), seq<RouteRef>>, key: (string, string)): seq<RouteRef> {
    if key in idx then idx[key] else []
  }

  /** The non-empty train numbers among `refs`. */
  function Trains(refs: seq<RouteRef>): set<string> {
    set m | m in refs && m.train != "" :: m.train
  }

  /** The non-empty long names among `refs`. */
  function LongNames(refs: seq<RouteRef>): set<string> {
    set m | m in refs && m.longName != "" :: m.longName
  }

  /**
   * `row` is the result for `e` given the routes `matches` found under its key:
   * OK with the sorted distinct train numbers and long names when there are any,
   * MISSING_IN_GTFS with empty lists otherwise.
   */
  ghost predicate Answers(matches: seq<RouteRef>, e: Expected, row: MatchRow) {
    && row.departure == e.departure
    && row.arrival == e.arrival
    && (matches != [] ==>
          && row.status == Ok
          && Listing(row.trains, Trains(matches), Identity)
          && Listing(row.longNames, LongNames(matches), Identity))
    && (matches == [] ==> row.status == MissingInGtfs && row.trains == [] && row.longNames == [])
  }

  /** The number of MISSING_IN_GTFS results. */
  function MissingCount(rows: seq<MatchRow>): (n: nat)
    ensures n <= |rows|
    decreases |rows|
  {
    if rows == [] then 0
    else
      var n := |rows| - 1;
      MissingCount(rows[..n]) + (if rows[n].status == MissingInGtfs then 1 else 0)
  }

  /** The body of the loop over `expected`, for one pair. */
  method MatchOne(idx: map<(string, string), seq<RouteRef>>, e: Expected) returns (row: MatchRow)
    ensures Answers(Lookup(idx, ExpectedKey(e)), e, row)
  {
    var key := (Norm(e.departure), Norm(e.arrival));
    var matches := if key in idx then idx[key] else [];
    if matches != [] {
      var trains := SortBy(Trains(matches), Identity);
      var longNames := SortBy(LongNames(matches), Identity);
      row := MatchRow(e.departure, e.arrival, Ok, trains, longNames);
    } else {
      row := MatchRow(e.departure, e.arrival, MissingInGtfs, [], []);
    }
  }

  /** Every result answers its pair, given the index `idx`. */
  ghost predicate AllAnswer(idx: map<(string, string), seq<RouteRef>>, expected: seq<Expected>, results: seq<MatchRow>)
    decreases |expected|
  {
    && |results| == |expected|
    && (expected != [] ==>
          var n := |expected| - 1;
          && AllAnswer(idx, expected[..n], results[..n])
          && Answers(Lookup(idx, ExpectedKey(expected[n])), expected[n], results[n]))
  }

  lemma {:induction false} AllAnswerAt(idx: map<(string, string), seq<RouteRef>>, expected: seq<Expected>, results: seq<MatchRow>, i: nat)
    requires AllAnswer(idx, expected, results) && i < |expected|
    ensures |results| == |expected| && Answers(Lookup(idx, ExpectedKey(expected[i])), expected[i], results[i])
    decreases |expected|
  {
    var n := |expected| - 1;
    if i < n {
      AllAnswerAt(idx, expected[..n], results[..n], i);
    }
  }

  lemma AllAnswerEach(idx: map<(string, string), seq<RouteRef>>, expected: seq<Expected>, results: seq<MatchRow>)
    requires AllAnswer(idx, expected, results)
    ensures |results| == |expected|
    ensures forall i :: 0 <= i < |expected| ==> Answers(Lookup(idx, ExpectedKey(expected[i])), expected[i], results[i])
  {
    forall i | 0 <= i < |expected|
      ensures Answers(Lookup(idx, ExpectedKey(expected[i])), expected[i], results[i])
    {
      AllAnswerAt(idx, expected, results, i);
    }
  }

  /** The loop over `expected`: one result per pair, in order, counting the missing ones. */
  method MatchAll(idx: map<(string, string), seq<RouteRef>>, expected: seq<Expected>) returns (results: seq<MatchRow>, missingCount: nat)
    ensures |results| == |expected|
    ensures forall i :: 0 <= i < |expected| ==> Answers(Lookup(idx, ExpectedKey(expected[i])), expected[i], results[i])
    ensures missingCount == MissingCount(results)
  {
    results := [];
    missingCount := 0;
    for i := 0 to |expected|
      invariant AllAnswer(idx, expected[..i], results)
      invariant missingCount == MissingCount(results)
    {
      var row := MatchOne(idx, expected[i]);
      if row.status == MissingInGtfs {
        missingCount := missingCount + 1;
      }
      assert (results + [row])[..i] == results;
      assert expected[..i + 1][..i] == expected[..i];
      results := results + [row];
    }
    assert expected[..|expected|] == expected;
    AllAnswerEach(idx, expected, results);
  }

  /**
   * The comparison in `main`: index the routes, then match every expected pair.
   * A pair is OK exactly when some route carries its normalised endpoints.
   */
  method Compare(routes: seq<map<string, string>>, expected: seq<Expected>) returns (results: seq<MatchRow>, missingCount: nat)
    ensures |results| == |expected|
    ensures forall i :: 0 <= i < |expected| ==> Answers(RefsWithKey(routes, KeyOf, ExpectedKey(expected[i])), expected[i], results[i])
    ensures forall i :: 0 <= i < |expected| ==> (results[i].status == Ok <==> HasKey(routes, KeyOf, ExpectedKey(expected[i])))
    ensures missingCount == MissingCount(results)
  {
    var idx := BuildIndex(routes);
    assert forall key :: Lookup(idx, key) == RefsWithKey(routes, KeyOf, key);
    results, missingCount := MatchAll(idx, expected);
    forall i | 0 <= i < |expected|
      ensures results[i].status == Ok <==> HasKey(routes, KeyOf, ExpectedKey(expected[i]))
    {
      RefsWithKeyNonEmpty(routes, KeyOf, ExpectedKey(expected[i]));
    }
  }
}
