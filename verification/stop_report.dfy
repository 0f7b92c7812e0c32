/**
 * scraper/report_stops.py: the cumulative stop inventory, the coverage
 * categories against the coordinate table, and the per-stop CSV rows.
 * The staleness test (`hours_since` against a window, computed from a clock)
 * is a parameter: `None` when no window is set, otherwise a predicate on an
 * entry's `last_seen_utc` text.
 */
module StopReport {
  import opened Wrappers
  import opened Text
  import opened Coordinates

  type Coords = map<string, (string, string)>

  /** One inventory record: `first_seen_utc`, `last_seen_utc`, `seen_count`. */
  datatype Entry = Entry(firstSeenUtc: string, lastSeenUtc: string, seenCount: int)

  /** The record of a name observed in run `runUtc`, given its record before the run, if any. */
  function Observed(before: Option<Entry>, runUtc: string): (r: Entry)
    ensures r.lastSeenUtc == runUtc
    ensures before.None? ==> r.firstSeenUtc == runUtc && r.seenCount == 1
    ensures before.Some? ==> r.seenCount == before.value.seenCount + 1
    ensures before.Some? && before.value.firstSeenUtc != "" ==> r.firstSeenUtc == before.value.firstSeenUtc
    ensures r.firstSeenUtc == "" ==> runUtc == ""
  {
    match before
    case None => Entry(runUtc, runUtc, 1)
    case Some(e) =>
      Entry(if e.firstSeenUtc == "" then runUtc else e.firstSeenUtc, runUtc, e.seenCount + 1)
  }

  /** `merge_inventory`: the inventory after every observed name has been recorded for the run. */
  function Merged(inv: map<string, Entry>, observed: set<string>, runUtc: string): (r: map<string, Entry>)
    ensures r.Keys == inv.Keys + observed
  {
    map n | n in inv.Keys + observed ::
      if n in observed then Observed(if n in inv then Some(inv[n]) else None, runUtc) else inv[n]
  }

  /**
   * What merging promises: the keys are the old ones plus the observed ones; every
   * observed name was last seen in this run; a new name starts at one sighting in
   * this run; a known name counts one more sighting and keeps a non-empty first
   * sighting; names not observed keep their records.
   */
  lemma MergedSpec(inv: map<string, Entry>, observed: set<string>, runUtc: string)
    ensures var r := Merged(inv, observed, runUtc);
            && r.Keys == inv.Keys + observed
            && (forall n :: n in observed ==> r[n].lastSeenUtc == runUtc)
            && (forall n :: n in observed && n !in inv ==> r[n] == Entry(runUtc, runUtc, 1))
            && (forall n :: n in observed && n in inv ==> r[n].seenCount == inv[n].seenCount + 1)
            && (forall n :: n in observed && n in inv && inv[n].firstSeenUtc != "" ==> r[n].firstSeenUtc == inv[n].firstSeenUtc)
            && (forall n :: n in inv && n !in observed ==> r[n] == inv[n])
  {
  }

  /**
   * When no inventory is kept, the report uses this run's observed names, each seen
   * once in this run; that is exactly merging them into an empty inventory.
   */
  lemma SynthesizedIsMergeIntoEmpty(observed: set<string>, runUtc: string)
    ensures (map n | n in observed :: Entry(runUtc, runUtc, 1)) == Merged(map[], observed, runUtc)
  {
  }

  /** The inventory, updated in place by `merge_inventory`. */
  class Inventory {
    var entries: map<string, Entry>

    constructor(entries: map<string, Entry>)
      ensures this.entries == entries
    {
      this.entries := entries;
    }

    /** `merge_inventory(inventory, observed, run_utc)`, visiting the observed names in any order. */
    method Merge(observed: set<string>, runUtc: string)
      modifies this
      ensures entries == Merged(old(entries), observed, runUtc)
    {
      var rest := observed;
      while rest != {}
        invariant rest <= observed
        invariant entries == Merged(old(entries), observed - rest, runUtc)
        decreases |rest|
      {
        var name :| name in rest;
        ghost var done := observed - rest;
        ghost var prev := entries;
        if name !in entries {
          entries := entries[name := Entry(runUtc, runUtc, 1)];
          assert entries == prev[name := Observed(None, runUtc)];
        } else {
          var e := entries[name];
          if e.firstSeenUtc == "" {
            e := e.(firstSeenUtc := runUtc);
          }
          e := e.(lastSeenUtc := runUtc, seenCount := e.seenCount + 1);
          entries := entries[name := e];
          assert entries == prev[name := Observed(Some(prev[name]), runUtc)];
        }
        rest := rest - {name};
        assert observed - rest == done + {name};
        MergedStep(old(entries), done, name, runUtc);
      }
      assert observed - rest == observed;
    }
  }

  /** Recording one more name extends the merge by that name alone. */
  lemma MergedStep(inv: map<string, Entry>, done: set<string>, name: string, runUtc: string)
    requires name !in done
    ensures Merged(inv, done + {name}, runUtc)
         == Merged(inv, done, runUtc)[name := Observed(if name in Merged(inv, done, runUtc) then Some(Merged(inv, done, runUtc)[name]) else None, runUtc)]
  {
    var m := Merged(inv, done, runUtc);
    var lhs := Merged(inv, done + {name}, runUtc);
    var rhs := m[name := Observed(if name in m then Some(m[name]) else None, runUtc)];
    assert lhs.Keys == rhs.Keys;
    forall n | n in lhs.Keys
      ensures lhs[n] == rhs[n]
    {
    }
  }

  /** Where an inventory name stands against the coordinate table. */
  datatype Category = Has | Missing | New

  /** "new" iff absent from the table; otherwise "has" iff its coordinates are valid. */
  function CategoryOf(coords: Coords, name: string): (c: Category)
    ensures c == New <==> name !in coords
    ensures c == Has <==> name in coords && HasValidCoord(coords[name].0, coords[name].1)
  {
    if name !in coords then New
    else if HasValidCoord(coords[name].0, coords[name].1) then Has
    else Missing
  }

  /** The elements of `names` that lie in `allowed`, in their order. */
  function Keep(names: seq<string>, allowed: set<string>): (r: seq<string>)
    ensures |r| <= |names|
    ensures forall x :: x in r <==> x in names && x in allowed
  {
    if names == [] then []
    else
      var init := Keep(names[..|names| - 1], allowed);
      var last := names[|names| - 1];
      assert names == names[..|names| - 1] + [last];
      if last in allowed then init + [last] else init
  }

  lemma {:induction false} KeepSorted(names: seq<string>, allowed: set<string>, key: string -> string)
    requires SortedByKey(names, key)
    ensures SortedByKey(Keep(names, allowed), key)
    decreases |names|
  {
    if names != [] {
      var front := names[..|names| - 1];
      var last := names[|names| - 1];
      var init := Keep(front, allowed);
      assert SortedByKey(front, key);
      KeepSorted(front, allowed, key);
      if last in allowed {
        forall i | 0 <= i < |init|
          ensures LexLe(key(init[i]), key(last))
        {
          assert init[i] in front;
          var j :| 0 <= j < |front| && front[j] == init[i];
          assert names[j] == init[i];
        }
      }
    }
  }

  /** The last element of a list without repeats does not occur before it. */
  lemma LastNotInFront(s: seq<string>)
    requires s != [] && Distinct(s)
    ensures s[|s| - 1] !in s[..|s| - 1]
  {
    forall j | 0 <= j < |s| - 1
      ensures s[j] != s[|s| - 1]
    {
    }
    assert forall j :: 0 <= j < |s| - 1 ==> s[..|s| - 1][j] == s[j];
  }

  lemma {:induction false} KeepDistinct(names: seq<string>, allowed: set<string>)
    requires Distinct(names)
    ensures Distinct(Keep(names, allowed))
    decreases |names|
  {
    if names != [] {
      var front := names[..|names| - 1];
      assert Distinct(front);
      KeepDistinct(front, allowed);
      LastNotInFront(names);
    }
  }

  /** `Keep` over a list grown by one element. */
  lemma KeepSnoc(names: seq<string>, x: string, allowed: set<string>)
    ensures Keep(names + [x], allowed) == if x in allowed then Keep(names, allowed) + [x] else Keep(names, allowed)
  {
    assert (names + [x])[..|names|] == names;
  }

  /** The five lists of `categorize_against_inventory`; `stale` is present only when a window is set. */
  datatype Categories = Categories(
    has: seq<string>,
    missing: seq<string>,
    newNames: seq<string>,
    unused: seq<string>,
    stale: Option<seq<string>>)

  /** The inventory names in category `c`. */
  function Group(coords: Coords, inventory: map<string, Entry>, c: Category): (g: set<string>)
    ensures g <= inventory.Keys
    ensures forall n :: n in g <==> n in inventory && CategoryOf(coords, n) == c
  {
    set n | n in inventory && CategoryOf(coords, n) == c
  }

  /** The inventory names whose last sighting `isStale` judges stale. */
  function StaleNames(inventory: map<string, Entry>, isStale: string -> bool): (g: set<string>)
    ensures g <= inventory.Keys
    ensures forall n :: n in g <==> n in inventory && isStale(inventory[n].lastSeenUtc)
  {
    set n | n in inventory && isStale(inventory[n].lastSeenUtc)
  }

  /** `categorize_against_inventory`, with staleness decided by `staleTest`. */
  method Categorize(coords: Coords, inventory: map<string, Entry>, staleTest: Option<string -> bool>)
    returns (c: Categories)
    ensures Listing(c.has, Group(coords, inventory, Has), Lower)
    ensures Listing(c.missing, Group(coords, inventory, Missing), Lower)
    ensures Listing(c.newNames, Group(coords, inventory, New), Lower)
    ensures Listing(c.unused, coords.Keys - inventory.Keys, Lower)
    ensures c.stale.Some? <==> staleTest.Some?
    ensures c.stale.Some? ==> Listing(c.stale.value, StaleNames(inventory, staleTest.value), Lower)
  {
    var names := SortBy(inventory.Keys, Lower);
    ghost var staleSet := if staleTest.Some? then StaleNames(inventory, staleTest.value) else {};
    var has, missing, newNames, stale := Coverage(coords, inventory, staleTest, names);
    KeepListing(names, inventory.Keys, Group(coords, inventory, Has));
    KeepListing(names, inventory.Keys, Group(coords, inventory, Missing));
    KeepListing(names, inventory.Keys, Group(coords, inventory, New));
    var unused := SortBy(coords.Keys - inventory.Keys, Lower);
    if staleTest.Some? {
      KeepListing(names, inventory.Keys, staleSet);
      c := Categories(has, missing, newNames, unused, Some(stale));
    } else {
      c := Categories(has, missing, newNames, unused, None);
    }
  }

  /** The loop of `categorize_against_inventory` over the sorted inventory names. */
  method Coverage(coords: Coords, inventory: map<string, Entry>, staleTest: Option<string -> bool>, names: seq<string>)
    returns (has: seq<string>, missing: seq<string>, newNames: seq<string>, stale: seq<string>)
    requires forall x :: x in names ==> x in inventory
    ensures has == Keep(names, Group(coords, inventory, Has))
    ensures missing == Keep(names, Group(coords, inventory, Missing))
    ensures newNames == Keep(names, Group(coords, inventory, New))
    ensures stale == Keep(names, if staleTest.Some? then StaleNames(inventory, staleTest.value) else {})
  {
    has, missing, newNames, stale := [], [], [], [];
    ghost var staleSet := if staleTest.Some? then StaleNames(inventory, staleTest.value) else {};
    for i := 0 to |names|
      invariant has == Keep(names[..i], Group(coords, inventory, Has))
      invariant missing == Keep(names[..i], Group(coords, inventory, Missing))
      invariant newNames == Keep(names[..i], Group(coords, inventory, New))
      invariant stale == Keep(names[..i], staleSet)
    {
      var name := names[i];
      assert name in names;
      assert names[..i + 1] == names[..i] + [name];
      KeepSnoc(names[..i], name, Group(coords, inventory, Has));
      KeepSnoc(names[..i], name, Group(coords, inventory, Missing));
      KeepSnoc(names[..i], name, Group(coords, inventory, New));
      KeepSnoc(names[..i], name, staleSet);
      has, missing, newNames, stale := Classify(coords, inventory, staleTest, name, has, missing, newNames, stale);
    }
    assert names[..|names|] == names;
  }

  /** One pass of the loop: `name` joins the list of its category, and the stale list when it is stale. */
  method Classify(coords: Coords, inventory: map<string, Entry>, staleTest: Option<string -> bool>, name: string,
                  has: seq<string>, missing: seq<string>, newNames: seq<string>, stale: seq<string>)
    returns (has': seq<string>, missing': seq<string>, newNames': seq<string>, stale': seq<string>)
    requires name in inventory
    ensures has' == has + (if name in Group(coords, inventory, Has) then [name] else [])
    ensures missing' == missing + (if name in Group(coords, inventory, Missing) then [name] else [])
    ensures newNames' == newNames + (if name in Group(coords, inventory, New) then [name] else [])
    ensures stale' == stale + (if staleTest.Some? && name in StaleNames(inventory, staleTest.value) then [name] else [])
  {
    has', missing', newNames', stale' := has, missing, newNames, stale;
    if name !in coords {
      newNames' := newNames + [name];
    } else {
      var latLon := coords[name];
      if HasValidCoord(latLon.0, latLon.1) {
        has' := has + [name];
      } else {
        missing' := missing + [name];
      }
    }
    if staleTest.Some? && staleTest.value(inventory[name].lastSeenUtc) {
      stale' := stale + [name];
    }
  }

  /** Filtering a listing of `names` by a subset of them gives a listing of that subset. */
  lemma KeepListing(s: seq<string>, names: set<string>, allowed: set<string>)
    requires Listing(s, names, Lower) && allowed <= names
    ensures Listing(Keep(s, allowed), allowed, Lower)
  {
    KeepSorted(s, allowed, Lower);
    KeepDistinct(s, allowed);
  }

  /** The three groups split the inventory: they cover it, do not overlap, and their sizes add up. */
  lemma GroupsPartition(coords: Coords, inventory: map<string, Entry>)
    ensures var hs, ms, ns := Group(coords, inventory, Has), Group(coords, inventory, Missing), Group(coords, inventory, New);
            && inventory.Keys == hs + ms + ns
            && hs * ms == {} && hs * ns == {} && ms * ns == {}
            && |hs| + |ms| + |ns| == |inventory|
  {
    var hs, ms, ns := Group(coords, inventory, Has), Group(coords, inventory, Missing), Group(coords, inventory, New);
    assert inventory.Keys == hs + ms + ns;
    DisjointCard(hs, ms);
    DisjointCard(hs + ms, ns);
  }

  /** Every inventory name lands in exactly one of has / missing / new. */
  lemma CategoriesPartition(coords: Coords, inventory: map<string, Entry>, c: Categories)
    requires Listing(c.has, Group(coords, inventory, Has), Lower)
    requires Listing(c.missing, Group(coords, inventory, Missing), Lower)
    requires Listing(c.newNames, Group(coords, inventory, New), Lower)
    ensures forall n :: n in inventory <==> n in c.has || n in c.missing || n in c.newNames
    ensures forall n :: !(n in c.has && n in c.missing) && !(n in c.has && n in c.newNames) && !(n in c.missing && n in c.newNames)
    ensures |c.has| + |c.missing| + |c.newNames| == |inventory|
  {
    ListingCard(c.has, Group(coords, inventory, Has));
    ListingCard(c.missing, Group(coords, inventory, Missing));
    ListingCard(c.newNames, Group(coords, inventory, New));
    GroupsPartition(coords, inventory);
  }

  lemma DisjointCard(a: set<string>, b: set<string>)
    requires a * b == {}
    ensures |a + b| == |a| + |b|
  {
  }

  /** A listing has one position per name. */
  lemma {:induction false} ListingCard(s: seq<string>, names: set<string>)
    requires Listing(s, names, Lower)
    ensures |s| == |names|
    decreases |s|
  {
    if s != [] {
      var front := s[..|s| - 1];
      var last := s[|s| - 1];
      assert s == front + [last];
      LastNotInFront(s);
      assert Distinct(front);
      assert forall x :: x in front <==> x in names - {last};
      SortedPrefix(s, |s| - 1);
      ListingCard(front, names - {last});
    }
  }

  lemma SortedPrefix(s: seq<string>, n: nat)
    requires n <= |s| && SortedByKey(s, Lower)
    ensures SortedByKey(s[..n], Lower)
  {
  }

  /** `str(n)` of a Python int. */
  function IntText(n: int): (r: string)
    ensures |r| >= 1
  {
    if n < 0 then "-" + NatToDigits(-n) else NatToDigits(n)
  }

  /** `str` of an int reads back as that int: its digits, after a minus sign when negative. */
  lemma IntTextRoundTrip(n: int)
    ensures var r := IntText(n);
            && (n >= 0 ==> AllDigits(r) && DigitsValue(r) == n)
            && (n < 0 ==> r[0] == '-' && AllDigits(r[1..]) && DigitsValue(r[1..]) == -n)
  {
    DigitsRoundTrip(if n < 0 then -n else n);
    if n < 0 {
      assert IntText(n)[1..] == NatToDigits(-n);
    }
  }

  /** One row of the stops report CSV. */
  datatype ReportRow = ReportRow(
    name: string, status: string, lat: string, lon: string,
    firstSeenUtc: string, lastSeenUtc: string, seenCount: string, stale: string)

  function StatusText(c: Category): string {
    match c
    case Has => "HAS_COORDINATES"
    case Missing => "MISSING_COORDINATES"
    case New => "NEW_NOT_IN_COORDINATES"
  }

  /** The three status words are distinct, so a row's status names its category. */
  lemma StatusTextInjective(a: Category, b: Category)
    ensures StatusText(a) == StatusText(b) <==> a == b
  {
  }

  /** The row `build_rows_from_inventory` writes for one inventory name. */
  function RowFor(coords: Coords, inventory: map<string, Entry>, staleTest: Option<string -> bool>, name: string): (r: ReportRow)
    requires name in inventory
    ensures r.name == name
  {
    var e := inventory[name];
    var latLon := if name in coords then coords[name] else ("", "");
    var status :=
      if name in coords then
        (if HasValidCoord(latLon.0, latLon.1) then "HAS_COORDINATES" else "MISSING_COORDINATES")
      else "NEW_NOT_IN_COORDINATES";
    var staleFlag :=
      match staleTest
      case None => ""
      case Some(f) => if f(e.lastSeenUtc) then "YES" else "NO";
    ReportRow(name, status, latLon.0, latLon.1, e.firstSeenUtc, e.lastSeenUtc, IntText(e.seenCount), staleFlag)
  }

  /**
   * A row agrees with the categorisation: its status is its name's category, its
   * coordinates are the table's or blank when the name is not in the table, its
   * sighting fields are the inventory's, and its stale flag is blank without a
   * window and otherwise "YES" exactly when the entry is stale.
   */
  lemma RowForSpec(coords: Coords, inventory: map<string, Entry>, staleTest: Option<string -> bool>, name: string)
    requires name in inventory
    ensures var r := RowFor(coords, inventory, staleTest, name);
            && r.status == StatusText(CategoryOf(coords, name))
            && (name !in coords ==> r.lat == "" && r.lon == "")
            && (name in coords ==> (r.lat, r.lon) == coords[name])
            && r.firstSeenUtc == inventory[name].firstSeenUtc && r.lastSeenUtc == inventory[name].lastSeenUtc
            && r.seenCount == IntText(inventory[name].seenCount)
            && (staleTest.None? <==> r.stale == "")
            && (staleTest.Some? ==> (r.stale == "YES" <==> staleTest.value(inventory[name].lastSeenUtc)))
  {
  }

  function RowNames(rows: seq<ReportRow>): (names: seq<string>)
    ensures |names| == |rows|
  {
    seq(|rows|, k requires 0 <= k < |rows| => rows[k].name)
  }

  /** The rows for `names`, in their order. */
  function Rows(coords: Coords, inventory: map<string, Entry>, staleTest: Option<string -> bool>, names: seq<string>): (rows: seq<ReportRow>)
    requires forall x :: x in names ==> x in inventory
    ensures |rows| == |names|
    ensures RowNames(rows) == names
  {
    seq(|names|, k requires 0 <= k < |names| => assert names[k] in names; RowFor(coords, inventory, staleTest, names[k]))
  }

  /** `build_rows_from_inventory`: one row per inventory name, in case-insensitive name order. */
  method BuildRows(coords: Coords, inventory: map<string, Entry>, staleTest: Option<string -> bool>)
    returns (rows: seq<ReportRow>)
    ensures Listing(RowNames(rows), inventory.Keys, Lower)
    ensures |rows| == |inventory|
    ensures forall k :: 0 <= k < |rows| ==> rows[k].name in inventory && rows[k] == RowFor(coords, inventory, staleTest, rows[k].name)
  {
    var names := SortBy(inventory.Keys, Lower);
    rows := RowsFor(coords, inventory, staleTest, names);
  }

  /** The loop of `build_rows_from_inventory` over the sorted names. */
  method RowsFor(coords: Coords, inventory: map<string, Entry>, staleTest: Option<string -> bool>, names: seq<string>)
    returns (rows: seq<ReportRow>)
    requires forall x :: x in names ==> x in inventory
    ensures rows == Rows(coords, inventory, staleTest, names)
  {
    ghost var target := Rows(coords, inventory, staleTest, names);
    rows := [];
    for i := 0 to |names|
      invariant rows == target[..i]
    {
      var name := names[i];
      assert name in names;
      var row := RowFor(coords, inventory, staleTest, name);
      assert row == target[i];
      rows := rows + [row];
      assert target[..i + 1] == target[..i] + [target[i]];
    }
    assert target[..|names|] == target;
  }
}
